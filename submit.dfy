/** The checks `handleCommentSubmit` and `savePost` make before they send
    anything, and the payloads they build from the input fields. */
module Submit {
  import opened Common
  import opened Js
  import Memo
  import Price
  import Listing

  /** The author shown for a comment whose author field is blank. */
  const Anonymous: string := "익명"
  /** The `comment_author_id` every new post carries. */
  const PostAuthorId: string := "익명User"

  const EmptyContentAlert: string := "내용을 입력해주세요!"
  const NoPostAlert: string := "게시글 정보를 읽지 못했습니다. 새로고침 해주세요."

  /** The `new_comment` payload. */
  datatype CommentRequest = CommentRequest(postId: JsValue, author: string, content: string)

  /** The five fields of the write form, as typed. */
  datatype PostForm = PostForm(title: string, item: string, price: string, location: string, content: string)

  /** The `new_post` payload. */
  datatype PostRequest = PostRequest(itemName: string, itemType: string, price: nat, memo: string, authorId: string)

  const EmptyForm: PostForm := PostForm("", "", "", "", "")

  /** `commentInputAuthor.value.trim() || '익명'`. */
  function AuthorOf(authorField: string): (a: string)
    ensures a != [] && Trimmed(a)
    ensures if AllWhiteSpace(authorField) then a == Anonymous else a == Trim(authorField)
  {
    var t := Trim(authorField);
    if t == [] then
      assert !IsWhiteSpace(Anonymous[0]) && !IsWhiteSpace(Anonymous[1]);
      Anonymous
    else t
  }

  /** `handleCommentSubmit` up to the request: the content is checked before
      the post id, each failure with its own alert; a blank author becomes
      `익명`. */
  function CheckComment(authorField: string, textField: string, currentPostId: JsValue): (r: Result<CommentRequest, string>)
    ensures r.Err? <==> AllWhiteSpace(textField) || !Truthy(currentPostId)
    ensures AllWhiteSpace(textField) ==> r == Err(EmptyContentAlert)
    ensures !AllWhiteSpace(textField) && !Truthy(currentPostId) ==> r == Err(NoPostAlert)
    ensures r.Ok? ==> r.value.postId == currentPostId
    ensures r.Ok? ==> r.value.content == Trim(textField) && r.value.content != [] && Trimmed(r.value.content)
    ensures r.Ok? ==> r.value.author == AuthorOf(authorField)
  {
    var content := Trim(textField);
    if content == [] then Err(EmptyContentAlert)
    else if !Truthy(currentPostId) then Err(NoPostAlert)
    else Ok(CommentRequest(currentPostId, AuthorOf(authorField), content))
  }

  /** `savePost` up to the request: nothing is sent (and nothing is shown)
      when the title or the category is blank; otherwise the payload holds the
      trimmed title and category, the cleaned price and the tagged memo. */
  function CheckPost(form: PostForm): (r: Option<PostRequest>)
    ensures r.None? <==> AllWhiteSpace(form.title) || AllWhiteSpace(form.item)
    ensures r.Some? ==> r.value.itemName == Trim(form.title) && r.value.itemName != []
    ensures r.Some? ==> r.value.itemType == Trim(form.item) && r.value.itemType != []
    ensures r.Some? ==> r.value.price == ParseDecimal(Price.KeepDigits(form.price))
    ensures r.Some? ==> r.value.memo == Memo.Encode(form.location, form.content)
    ensures r.Some? ==> r.value.authorId == PostAuthorId
  {
    if Trim(form.title) == [] || Trim(form.item) == [] then None
    else
      Some(PostRequest(Trim(form.title), Trim(form.item), Price.CleanPrice(form.price),
        Memo.Encode(form.location, form.content), PostAuthorId))
  }

  /** With the detail panel closed there is no post id, so a comment with
      content is refused with the reload alert. */
  lemma ClosedDetailRefusesComment(authorField: string, textField: string)
    requires !AllWhiteSpace(textField)
    ensures CheckComment(authorField, textField, Null) == Err(NoPostAlert)
  {
  }

  /** The memo of a sent post opens in the detail panel as the location and
      the description that were typed, trimmed, as long as the location has
      no `]` and no line break. */
  lemma SentMemoReadsBack(form: PostForm)
    requires CheckPost(form).Some?
    requires Memo.AllCapturable(Trim(form.location))
    ensures Memo.Decode(Some(CheckPost(form).value.memo)) == Memo.DetailMemo(Trim(form.location), Trim(form.content))
  {
    Memo.EncodeDecodeRoundTrip(form.location, form.content);
  }

  /** The price of a sent post is the one listed: a zero price shows
      `가격 미정`, and cleaning the label gives the price back. */
  lemma SentPriceIsListed(form: PostForm)
    requires CheckPost(form).Some?
    ensures var p := CheckPost(form).value.price;
      && (p == 0 <==> Price.FormatPrice(Some(p)) == Price.NoPrice)
      && Price.CleanPrice(Price.FormatPrice(Some(p))) == p
  {
    Price.DisplayedPriceReadsBack(CheckPost(form).value.price);
  }

  /** The post the list shows once the endpoint has stored a request, under
      the timestamp it was given. What the endpoint stores is not part of this
      model; this is the record it is expected to echo back. */
  function StoredPost(q: PostRequest, timestamp: JsValue, time: int): Listing.Post {
    Listing.Post(timestamp, time, Some(q.itemName), Some(q.itemType), Some(q.price), Some(q.memo))
  }

  /** A sent post is listed under its own title and category, not the
      fallbacks of `renderPosts`, with its cleaned price formatted and a
      preview of at most 43 characters. */
  lemma SentPostIsListed(form: PostForm, timestamp: JsValue, time: int, comments: seq<Listing.Comment>, now: int)
    requires CheckPost(form).Some?
    ensures var e := Listing.PostEntryOf(StoredPost(CheckPost(form).value, timestamp, time), comments, now);
      && e.title == Trim(form.title)
      && e.itemType == Trim(form.item)
      && e.price == Price.FormatPrice(Some(Price.CleanPrice(form.price)))
      && |e.preview| <= Listing.PreviewLength + |Listing.Ellipsis|
  {
  }

  /** A desk offered as furniture for `15,000` is listed as `Desk`,
      `Furniture`, `15,000원`. */
  lemma DeskExample(location: string, content: string, timestamp: JsValue, time: int, comments: seq<Listing.Comment>, now: int)
    ensures var form := PostForm("Desk", "Furniture", "15,000", location, content);
      && CheckPost(form).Some?
      && var e := Listing.PostEntryOf(StoredPost(CheckPost(form).value, timestamp, time), comments, now);
      && e.title == "Desk" && e.itemType == "Furniture" && e.price == "15,000원"
  {
    assert Trimmed("Desk") && Trimmed("Furniture");
    TrimOfTrimmed("Desk");
    TrimOfTrimmed("Furniture");
    Price.TypedPriceExample();
    var form := PostForm("Desk", "Furniture", "15,000", location, content);
    SentPostIsListed(form, timestamp, time, comments, now);
  }

  /** Once stored as sent, a comment adds one to the count of the post it was
      written under. */
  lemma SentCommentIsCounted(authorField: string, textField: string, currentPostId: JsValue,
                             comments: seq<Listing.Comment>, time: int)
    requires CheckComment(authorField, textField, currentPostId).Ok?
    ensures var q := CheckComment(authorField, textField, currentPostId).value;
      Listing.CommentCount(comments + [Listing.Comment(q.postId, q.author, q.content, time)], currentPostId)
        == Listing.CommentCount(comments, currentPostId) + 1
  {
    var q := CheckComment(authorField, textField, currentPostId).value;
    Listing.CommentCountAppend(comments, Listing.Comment(q.postId, q.author, q.content, time), currentPostId);
  }
}
