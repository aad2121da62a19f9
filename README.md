# N-bbang board client, modelled in Dafny

`script.js` runs the bulletin board page of N-bbang, a small second-hand
sharing board. The page fetches posts and comments from a web endpoint and
lists the posts newest first. Each listed post shows its title, category,
price, a memo preview, its age and its comment count. Opening a post shows
its details and its comments, oldest first. The page also sends new posts
and comments.

This project models the logic inside the page's handlers, with the DOM and
the network left out:

- **`Memo`:** the location tag written into a post's memo
  (`[장소: <location>]\n<content>`). The tag is read back with the regular
  expression `^\[장소:\s*(.*?)\]\n?`, which is modelled literally, including
  its backtracking.
- **`Price`:** price cleaning (`replace(/[^0-9]/g, '')`, then
  `parseInt(...) || 0`) and `formatPrice`.
- **`RelativeTime`:** `timeSince`, as floor divisions of the elapsed
  milliseconds.
- **`Sorting`:** the stable `Array.prototype.sort` with an integer-key
  comparator.
- **`Listing`:** the preview, comment filtering, counting and ordering, and
  the texts of the post list, the comment list and the detail panel.
- **`Submit`:** the checks `handleCommentSubmit` and `savePost` make before
  sending, and the payloads they send.
- **`Page`:** class `Board`, holding the page's global state:
  - `allPosts`, `allComments` and `currentPostId`;
  - which panels are open;
  - the input fields;
  - the two submit buttons and their `disabled` flags.

  Each handler is a method of `Board`. A handler that awaits the network is
  split at its `await` into two methods, so the state while a request is
  outstanding is visible. The invariant `Valid()` says a button is disabled
  exactly while its request is outstanding.

`Js` holds the JavaScript semantics the rest relies on:

- `trim` and its white-space set;
- decimal digits and number-to-string;
- `String(v)` and truthiness of the id values;
- `indexOf` and a `replace` whose pattern is a string.

`Common` holds `Option` and `Result`.

The clock and `new Date(...)` are parameters: each post and comment carries
the millisecond value of its timestamp, and rendering takes `now`. The
network replies are parameters too (`Fetched`, `Reply`). Alerts and status
messages are returned as values.

Where the code and the design description of the page disagree, the model
follows the code:

- `savePost` returns silently when the title or the category is blank; it
  does not alert (script.js:203).
- When the endpoint answers `new_post` with `success` false, nothing is
  shown (script.js:224-229).

## Model

| member | source | states |
|---|---|---|
| Js.Trim | script.js:150-151 | `trim` removes exactly the leading and trailing white space and line terminators; the result is empty iff the input is all white space. |
| Js.TrimIdempotent | script.js:208 | Trimming a trimmed field changes nothing. |
| Js.ToJsString | script.js:122 | `String(v)` of a string is the string itself; of a number it is a non-empty text of an optional `-` (exactly for negatives) followed by decimal digits, never `undefined` or `null`. |
| Js.IntIdsEqualIff | script.js:122 | Two numeric ids compare equal under `String(...)` iff the numbers are equal. |
| Js.Truthy | script.js:158 | An id is falsy exactly when it is `undefined`, `null`, `""` or `0`. |
| Js.OrElse | script.js:114-115 | `v \|\| fallback` is either the fallback or the present value itself; a present non-empty string is kept, and with a non-empty fallback the result is never empty. |
| Js.IndexOf | script.js:243 | Finds the first occurrence of a string pattern at or after a position, or reports that there is none. |
| Js.RemoveFirst | script.js:243 | `replace` with a string pattern removes its first occurrence: when the pattern occurs at `i` and at no earlier position, the result is the text before `i` followed by the text after the occurrence. It changes nothing when the pattern does not occur. |
| Memo.Encode | script.js:208 | The memo starts with the tag opener, and its length is the opener plus the trimmed location and content plus the 3 separator characters. |
| Memo.LazyClose | script.js:240 | When the lazy `(.*?)\]` succeeds, it closes at a `]`, and nothing it consumed before is a `]` or a line terminator. |
| Memo.LazyCloseAt | script.js:240 | The group closes at any `]` it reaches without crossing another `]` or a line terminator. |
| Memo.LazyCloseNone | script.js:240 | When the group fails, no `]` can be reached without crossing a line terminator. |
| Memo.MatchTag | script.js:240 | A match needs the opener; the captured location has no `]` and no line terminator; the match length fits in the memo. |
| Memo.BacktrackingNeverHelps | script.js:240 | If the greedy `\s*` leaves no closing `]`, then no shorter white-space run can give one. |
| Memo.MatchTagIsGreedy | script.js:240 | The backtracking matcher equals the reference `GreedyMatch`: it matches iff a `]` closes after the opener and its full white-space run, and the capture and the match length (including the optional `\n`) are determined by that run. |
| Memo.MatchShape | script.js:240-242 | A match is the opener, its whole white-space run, the capture (which does not start with white space) and `]`, and it takes one more character exactly when that character is a `\n`. |
| Memo.Decode | script.js:238-244 | Without a tag match (a missing memo read as empty), the location is `장소 미정` and the content is the whole memo; with one, the content is strictly shorter than the memo. |
| Memo.DecodeStripsMatch | script.js:241-243 | On a match, the location is the capture and the content is the memo with the matched prefix removed. |
| Memo.TaggedReadsBack | script.js:240-243 | A memo `[장소: <loc>]\n<body>` whose location has no `]`, no line terminator and no leading white space decodes to exactly that location and body. |
| Memo.EncodeDecodeRoundTrip | script.js:208-244 | Decoding a built memo gives back the trimmed location and the trimmed content, provided the location has no `]` and no line terminator. |
| Memo.EmptyLocationIsNotUnplaced | script.js:239-242 | A blank location decodes to `""`, not to `장소 미정`. |
| Memo.UntaggedMemoFallsBack | script.js:238-244 | Without a match, the location is `장소 미정` and the content is the whole memo. |
| Memo.MissingMemoIsEmpty | script.js:238 | A missing or empty memo gives `장소 미정` and an empty content. |
| Memo.TagBrokenByLineDoesNotMatch | script.js:240 | A line break inside the location defeats the match, and the memo is shown whole. |
| Memo.WhiteSpaceCrossesLines | script.js:240 | `\s*` swallows a line break after the opener, which leaves an empty location. |
| Memo.RoomExample | script.js:240-244 | `[장소: Room A]` followed by a line feed and any text decodes to the location `Room A` and exactly that text. |
| Memo.BracketCutsLocation | script.js:240-243 | A `]` in a location ends the capture early; the rest of the location becomes content. |
| Price.KeepDigits | script.js:209 | The result is all decimal digits and no longer than the input; it is empty iff the input has no digit. |
| Price.KeepDigitsAppend | script.js:209 | Removing the non-digits of a concatenation is removing them from each part and concatenating, so the digits are kept in order. |
| Price.KeepDigitsOfDigits | script.js:209 | A text of digits only is kept whole. |
| Price.ParseInt | script.js:215 | `parseInt` on the cleaned digits is NaN exactly for the empty string. |
| Price.CleanPrice | script.js:215 | The stored price is the decimal value of the input's digits, and 0 when there are none. |
| Price.FormatPrice | script.js:82-85 | A missing or zero price shows `가격 미정`, and only such a price does. Otherwise the label starts with a digit and ends in `원`. |
| Price.GroupThousands | script.js:84 | The grouped number is non-empty and starts with a digit. |
| Price.GroupedDigitsReadBack | script.js:84 | The digits of a grouped number read back as the number. |
| Price.DisplayedPriceReadsBack | script.js:82-85 | Cleaning the label of any price gives the price back; `가격 미정` cleans to 0. |
| Price.CleanDecimal | script.js:215 | Cleaning a number's plain decimal form gives the number back. |
| Price.TypedPriceExample | script.js:209-215 | `15,000` is stored as 15000 and listed as `15,000원`. |
| RelativeTime.FloorDiv | script.js:73 | `Math.floor(a / d)` for positive `d`: the unique `q` with `q*d <= a < q*d + d`. |
| RelativeTime.AgeOf | script.js:69-80 | The age is "just now" iff the date is invalid or less than a minute has elapsed; otherwise its count is 1..59 minutes, 1..23 hours, or at least one day. |
| RelativeTime.Label | script.js:74-79 | The text ends with the words of its bucket; outside "just now" the text before them is decimal digits that read back as the count. |
| RelativeTime.TimeSince | script.js:69-80 | The text is `방금 전` exactly for an invalid date or less than a minute elapsed. |
| RelativeTime.NestedFloor | script.js:73-79 | The successive floors equal one floor by the product of the units. |
| RelativeTime.AgeBuckets | script.js:69-80 | It is `방금 전` iff the date is invalid or less than a minute has elapsed (a future time included). Otherwise it is N minutes (1..59), N hours (1..23) or N days (N >= 1), where N is the floor of the elapsed time over the unit. |
| RelativeTime.AgeMonotone | script.js:73-79 | An older timestamp never gets a younger bucket, nor a smaller number within the same bucket. |
| RelativeTime.LabelInjective | script.js:74-79 | Two labels are equal iff they stand for the same age. |
| Sorting.SortBy | script.js:112 | The sort keeps every element with its multiplicity. |
| Sorting.InsertSorted | script.js:112 | Inserting into a sorted sequence keeps it sorted. |
| Sorting.InsertStable | script.js:112 | An inserted element goes ahead of the elements with an equal key. |
| Sorting.SortSorted | script.js:112 | The result is ordered by key and is a permutation of the input. |
| Sorting.SortStable | script.js:112 | For every key, the elements with that key keep their relative order. |
| Listing.Preview | script.js:118-119 | The preview has at most 43 characters. It equals the memo if the memo has at most 40 characters; otherwise it is the first 40 characters followed by `...`. |
| Listing.CommentsFor | script.js:260 | Every kept comment names the post under `String(...)`. |
| Listing.CommentsForCounts | script.js:260 | The filter keeps each matching comment as often as it occurs and drops every other comment. |
| Listing.CommentCount | script.js:122 | The count is zero iff no comment names the post. |
| Listing.CommentsForAppend | script.js:260 | Filtering distributes over concatenation. |
| Listing.CommentCountAppend | script.js:122 | Appending a comment adds one to the count of the post it names, and nothing to other posts. |
| Listing.CommentOrder | script.js:260-266 | The listed comments are exactly the post's comments, oldest first; equal times keep the fetched order. |
| Listing.CommentEntryOf | script.js:266-276 | An entry shows the comment's author and content as they are, and `방금 전` exactly when less than a minute has elapsed. |
| Listing.CommentsView | script.js:257-278 | The placeholder appears exactly when no comment names the post. |
| Listing.CommentsViewShape | script.js:257-278 | The placeholder appears iff the post has no comments. Otherwise there is one entry per comment, in the order of `CommentOrder`. |
| Listing.PostOrder | script.js:112 | The sorted posts are a permutation of the fetched posts, newest first; equal times keep the fetched order. |
| Listing.PostEntryOf | script.js:113-129 | Title and category are never empty: each is the field itself when present and non-empty, and otherwise `제목 없음` or `기타`. The price shows `가격 미정` iff it is missing or zero; the preview has at most 43 characters; the age is `방금 전` exactly under a minute; the count is the post's comment count. |
| Listing.PostsView | script.js:106-142 | The placeholder appears iff there are no posts; otherwise there is one entry per post. |
| Listing.PostsViewShape | script.js:106-142 | The placeholder appears iff there are no posts. Otherwise the k-th entry is the entry of the k-th post, with a non-empty title and category, its comment count and a bounded preview. |
| Listing.DetailOf | script.js:246-250 | The detail panel shows the raw title and category (no fallback), and `가격 미정` iff the price is missing or zero. Without a tag match the location is `장소 미정` and the content the whole memo; with one, the content is shorter than the memo. |
| Submit.AuthorOf | script.js:150 | A blank author field gives `익명`; otherwise the author is the trimmed field, which is never empty. |
| Submit.CheckComment | script.js:150-161 | A comment is refused iff its trimmed content is empty or the post id is falsy. Content is checked first, each case with its own alert. An accepted comment carries the id, the trimmed content and the author. |
| Submit.CheckPost | script.js:203-218 | Nothing is sent iff the title or the category is blank. Otherwise the payload holds the trimmed title and category, the cleaned price, the tagged memo and `익명User`. |
| Submit.ClosedDetailRefusesComment | script.js:158-161 | With no post open, a comment with content is refused with the reload alert. |
| Submit.SentMemoReadsBack | script.js:208 | A sent memo opens in the detail panel as the typed location and description, trimmed. |
| Submit.SentPriceIsListed | script.js:215 | A sent price of zero, and only such a price, is listed as `가격 미정`; cleaning the listed label gives the sent price back. |
| Submit.SentPostIsListed | script.js:213-216 | A stored post is listed under its own title and category, with its formatted cleaned price and a preview of at most 43 characters. |
| Submit.DeskExample | script.js:203-216 | Title `Desk`, category `Furniture` and price `15,000` are listed as `Desk`, `Furniture`, `15,000원`. |
| Submit.SentCommentIsCounted | script.js:166-171 | A comment stored as sent adds one to the count of the open post. |
| Page.Collect | script.js:113-142 | The `forEach` loop builds one entry per element, in order: as many entries as elements, the k-th entry made from the k-th element. |
| Page.Board.constructor | script.js:39-41 | The lists start empty, no post is open, and both buttons are enabled. |
| Page.Board.FetchData | script.js:91-104 | On an answer, both lists are replaced (an absent list becomes empty) and the post list is redrawn. The comments are redrawn only when the panel is open and the id is truthy. An error changes nothing. |
| Page.Board.Refresh | script.js:95-100 | Both lists are replaced, the post list is redrawn, and the comments are redrawn only when the panel is open and the id is truthy. |
| Page.Board.RenderPosts | script.js:106-143 | `allPosts` becomes its stable newest-first sort, and the container shows `PostsView` of it. |
| Page.Board.RenderComments | script.js:257-279 | The container shows `CommentsView` of the post. |
| Page.Board.ShowDetail | script.js:246-250 | The detail texts become `DetailOf` the post. |
| Page.Board.OpenDetail | script.js:235-255 | `currentPostId` becomes the post's timestamp, the texts come from the decoded memo, the comments are rendered, and the panel opens. |
| Page.Board.CloseDetail | script.js:281-285 | The panel closes and `currentPostId` becomes null. |
| Page.Board.OpenWrite | script.js:286-289 | The write modal opens. |
| Page.Board.CloseWrite | script.js:290-293 | The write modal closes. |
| Page.Board.TypeComment | script.js:26-27 | The comment fields hold what was typed. |
| Page.Board.TypePost | script.js:197-201 | The write form holds what was typed. |
| Page.Board.SubmitComment | script.js:146-173 | A refused comment raises its alert and changes nothing. An accepted one becomes the outstanding request, and the button is disabled. |
| Page.Board.CommentReplied | script.js:175-191 | The message depends on the outcome, including `❌ 실패: ` with `String(data.message)`. Success clears the text field and asks for a refresh. The button is enabled again on every path. |
| Page.Board.SavePost | script.js:195-220 | The outstanding request is `CheckPost` of the form, and the button is disabled exactly when one is sent. |
| Page.Board.PostReplied | script.js:221-231 | Success shows its message, clears the form, closes the modal and asks for a refresh. A refusal shows nothing; an error shows `오류 발생`. The button is enabled again on every path. |

## Left out

- The network is not modelled. This covers `fetch`, `response.json()`, `URLSearchParams` and `JSON.stringify` of the payloads, and the endpoint itself. Replies are parameters of `FetchData`, `CommentReplied` and `PostReplied`. What the endpoint stores is not modelled either: `Submit.StoredPost` is the record it is expected to echo back.
- DOM work is not modelled: `innerHTML` markup, `appendChild`, `classList`, `document.body.style.overflow`, `alert` display, and `showMessage` with its loader and 3-second timer. Rendered texts, alerts and messages are values instead.
- The `setInterval` refresh and overlapping `fetchData` calls are not modelled. A successful submit calls `fetchData()` without awaiting it; the model returns `refresh` instead, and the caller runs `FetchData` later.
- `new Date(...)` and the clock are not modelled. Timestamps are millisecond integers, and `now` is a parameter.
- Listing.PostEntryOf and Listing.CommentEntryOf assume every timestamp in the lists is a valid date. A NaN timestamp would make the sort comparator inconsistent and the order implementation-defined. The invalid-date branch of `timeSince` is modelled in `RelativeTime.TimeSince` alone.
- Page.Board.RenderPosts sorts `allPosts` by assigning the result of a stable sort function. Sorting an array in place, and aliasing of the post objects, are not modelled.
- Strings are sequences of Unicode scalar values, while JavaScript counts UTF-16 code units. `substring(0, 40)` in `Listing.Preview` therefore differs for characters outside the Basic Multilingual Plane.
- `toLocaleString` is modelled as comma grouping by thousands, which is its output in the Korean locale the page targets. Other locales are not modelled.
- Prices are natural numbers. `Number(price)` of a non-numeric or fractional stored price, and `parseInt` precision loss above 2^53, are not modelled.
- `data.success` is a boolean in `Reply`; other truthy or falsy values are not distinguished.
- These startup steps are not modelled: the check for the comment button, console logging, and creation of the message box (script.js:31-49).
