/** What `renderPosts`, `renderComments` and `openDetailView` compute from the
    fetched lists, with the DOM left out: one entry per post or comment,
    holding the texts the page fills in. */
module Listing {
  import opened Common
  import opened Js
  import opened Sorting
  import Memo
  import Price
  import RelativeTime

  /** A post as the endpoint returns it. `timestamp` is its id, compared
      through `String(...)`; `time` is the millisecond value
      `new Date(timestamp)` gives it. */
  datatype Post = Post(
    timestamp: JsValue,
    time: int,
    itemName: Option<string>,
    itemType: Option<string>,
    price: Option<nat>,
    memo: Option<string>)

  /** A comment as the endpoint returns it; `time` is the millisecond value
      of its timestamp. */
  datatype Comment = Comment(postId: JsValue, author: string, content: string, time: int)

  const NoTitle: string := "제목 없음"
  const NoType: string := "기타"
  const PreviewLength: nat := 40
  const Ellipsis: string := "..."

  datatype PostEntry = PostEntry(
    title: string,
    itemType: string,
    price: string,
    preview: string,
    age: string,
    commentCount: nat)

  /** The post list: the empty-list placeholder, or one entry per post. */
  datatype PostList = NoPosts | PostItems(items: seq<PostEntry>)

  datatype CommentEntry = CommentEntry(author: string, age: string, content: string)

  /** The comment list: the no-comment placeholder, or one entry per comment. */
  datatype CommentList = NoComments | CommentItems(items: seq<CommentEntry>)

  /** The texts of the detail panel. Title and category are shown as they
      come, without the fallbacks of the list; the comments are a separate
      panel (`CommentList`). */
  datatype DetailText = DetailText(
    title: Option<string>,
    itemType: Option<string>,
    price: string,
    location: string,
    content: string)

  // ---------------------------------------------------------------------------
  // Memo preview
  // ---------------------------------------------------------------------------

  /** `rawMemo.substring(0, 40) + (rawMemo.length > 40 ? '...' : '')` with
      `rawMemo = post.memo || ''`. */
  function Preview(memo: Option<string>): (r: string)
    ensures var raw := memo.GetOr("");
      && |r| <= PreviewLength + |Ellipsis|
      && (|raw| <= PreviewLength ==> r == raw)
      && (|raw| > PreviewLength ==> |r| == PreviewLength + |Ellipsis| && r[..PreviewLength] == raw[..PreviewLength] && r[PreviewLength..] == Ellipsis)
  {
    var raw := memo.GetOr("");
    if |raw| > PreviewLength then raw[..PreviewLength] + Ellipsis else raw
  }

  // ---------------------------------------------------------------------------
  // Comments of a post
  // ---------------------------------------------------------------------------

  /** `String(c.post_id) === String(postId)`. */
  predicate MatchesPost(c: Comment, postId: JsValue) {
    ToJsString(c.postId) == ToJsString(postId)
  }

  /** `Array.prototype.filter`: the elements `keep` accepts, in their order. */
  function Filter<T>(s: seq<T>, keep: T -> bool): (r: seq<T>)
    ensures |r| <= |s|
    ensures forall i :: 0 <= i < |r| ==> keep(r[i])
  {
    if s == [] then []
    else (if keep(s[0]) then [s[0]] else []) + Filter(s[1..], keep)
  }

  /** The filter keeps every accepted element as often as it occurs and
      drops every other one. */
  lemma {:induction false} FilterCounts<T>(s: seq<T>, keep: T -> bool)
    ensures forall x :: multiset(Filter(s, keep))[x] == if keep(x) then multiset(s)[x] else 0
  {
    if s != [] {
      FilterCounts(s[1..], keep);
      assert s == [s[0]] + s[1..];
    }
  }

  lemma FilterCons<T>(h: T, t: seq<T>, keep: T -> bool)
    ensures Filter([h] + t, keep) == (if keep(h) then [h] else []) + Filter(t, keep)
  {
    assert ([h] + t)[0] == h && ([h] + t)[1..] == t;
  }

  lemma {:induction false} FilterAppend<T>(a: seq<T>, b: seq<T>, keep: T -> bool)
    ensures Filter(a + b, keep) == Filter(a, keep) + Filter(b, keep)
  {
    if a == [] {
      assert a + b == b;
    } else {
      var h, t := a[0], a[1..];
      assert a == [h] + t;
      assert a + b == [h] + (t + b);
      FilterCons(h, t + b, keep);
      FilterCons(h, t, keep);
      FilterAppend(t, b, keep);
    }
  }

  /** The callback `c => String(c.post_id) === String(postId)`. */
  function IsFor(postId: JsValue): Comment -> bool {
    c => MatchesPost(c, postId)
  }

  /** `allComments.filter(c => String(c.post_id) === String(postId))`: the
      matching comments, each as often as it occurs, in their fetched order. */
  function CommentsFor(comments: seq<Comment>, postId: JsValue): (r: seq<Comment>)
    ensures |r| <= |comments|
    ensures forall i :: 0 <= i < |r| ==> MatchesPost(r[i], postId)
  {
    Filter(comments, IsFor(postId))
  }

  /** The comments of a post are exactly the fetched comments that name it,
      each as often as it occurs. */
  lemma CommentsForCounts(comments: seq<Comment>, postId: JsValue)
    ensures forall c ::
      multiset(CommentsFor(comments, postId))[c] == if MatchesPost(c, postId) then multiset(comments)[c] else 0
  {
    FilterCounts(comments, IsFor(postId));
  }

  /** The comment count of a post: zero exactly when no comment names it. */
  function CommentCount(comments: seq<Comment>, postId: JsValue): (n: nat)
    ensures n <= |comments|
    ensures n == 0 <==> forall i :: 0 <= i < |comments| ==> !MatchesPost(comments[i], postId)
  {
    var r := CommentsFor(comments, postId);
    CommentsForCounts(comments, postId);
    assert |r| > 0 ==> r[0] in multiset(r);
    assert forall i :: 0 <= i < |comments| ==> comments[i] in multiset(comments);
    |r|
  }

  lemma CommentsForAppend(a: seq<Comment>, b: seq<Comment>, postId: JsValue)
    ensures CommentsFor(a + b, postId) == CommentsFor(a, postId) + CommentsFor(b, postId)
  {
    FilterAppend(a, b, IsFor(postId));
  }

  /** A comment appended to the list adds one to the count of the post it
      names and leaves every other post's count alone. */
  lemma CommentCountAppend(comments: seq<Comment>, c: Comment, postId: JsValue)
    ensures CommentCount(comments + [c], postId)
      == CommentCount(comments, postId) + if MatchesPost(c, postId) then 1 else 0
  {
    CommentsForAppend(comments, [c], postId);
    FilterCons(c, [], IsFor(postId));
    assert [c] + [] == [c];
  }

  function CommentTime(c: Comment): int {
    c.time
  }

  /** The comments of a post as `renderComments` lists them: sorted by
      `new Date(a.timestamp) - new Date(b.timestamp)`. */
  function OrderedComments(comments: seq<Comment>, postId: JsValue): seq<Comment> {
    SortBy(CommentsFor(comments, postId), CommentTime)
  }

  /** The listed comments are exactly the post's comments, oldest first, with
      comments of equal time in their fetched order. */
  lemma CommentOrder(comments: seq<Comment>, postId: JsValue)
    ensures var o := OrderedComments(comments, postId);
      && (forall i, j :: 0 <= i < j < |o| ==> o[i].time <= o[j].time)
      && (forall c :: multiset(o)[c] == if MatchesPost(c, postId) then multiset(comments)[c] else 0)
      && (forall t :: WithKey(o, CommentTime, t) == WithKey(CommentsFor(comments, postId), CommentTime, t))
  {
    var f := CommentsFor(comments, postId);
    CommentsForCounts(comments, postId);
    SortSorted(f, CommentTime);
    forall t ensures WithKey(SortBy(f, CommentTime), CommentTime, t) == WithKey(f, CommentTime, t) {
      SortStable(f, CommentTime, t);
    }
  }

  function CommentEntryOf(c: Comment, now: int): (e: CommentEntry)
    ensures e.author == c.author && e.content == c.content
    ensures e.age == "방금 전" <==> now - c.time < RelativeTime.MinuteMs
  {
    CommentEntry(c.author, RelativeTime.TimeSince(now - c.time, false), c.content)
  }

  /** `renderComments(postId)`: the placeholder when the post has no
      comment, otherwise one entry per comment, oldest first. */
  function CommentsView(comments: seq<Comment>, postId: JsValue, now: int): (v: CommentList)
    ensures v.NoComments? <==> CommentsFor(comments, postId) == []
  {
    var f := CommentsFor(comments, postId);
    if |f| == 0 then NoComments
    else
      var o := SortBy(f, CommentTime);
      CommentItems(seq(|o|, i requires 0 <= i < |o| => CommentEntryOf(o[i], now)))
  }

  /** The comment panel shows the placeholder exactly when the post has no
      comment, and otherwise one entry per comment of the post, in the order
      of `OrderedComments`. */
  lemma CommentsViewShape(comments: seq<Comment>, postId: JsValue, now: int)
    ensures var v := CommentsView(comments, postId, now);
      && (v.NoComments? <==> CommentCount(comments, postId) == 0)
      && (v.CommentItems? ==> |v.items| == CommentCount(comments, postId))
      && (v.CommentItems? ==> forall i :: 0 <= i < |v.items| ==>
            v.items[i] == CommentEntryOf(OrderedComments(comments, postId)[i], now))
  {
    var f := CommentsFor(comments, postId);
    var o := SortBy(f, CommentTime);
    assert |o| == |f| by {
      assert |multiset(o)| == |multiset(f)|;
    }
    assert OrderedComments(comments, postId) == o;
    assert CommentCount(comments, postId) == |f|;
  }

  // ---------------------------------------------------------------------------
  // Posts
  // ---------------------------------------------------------------------------

  /** The comparator `new Date(b.timestamp) - new Date(a.timestamp)` sorts by
      this key ascending, that is by time descending. */
  function NewestFirst(p: Post): int {
    -p.time
  }

  /** `allPosts.sort(...)` in `renderPosts`. */
  function SortNewestFirst(posts: seq<Post>): seq<Post> {
    SortBy(posts, NewestFirst)
  }

  /** The sorted post list is a permutation of the fetched one, newest first,
      with posts of equal time in their fetched order. */
  lemma PostOrder(posts: seq<Post>)
    ensures var r := SortNewestFirst(posts);
      && |r| == |posts|
      && (forall i, j :: 0 <= i < j < |r| ==> r[i].time >= r[j].time)
      && multiset(r) == multiset(posts)
      && (forall t :: WithKey(r, NewestFirst, t) == WithKey(posts, NewestFirst, t))
  {
    SortSorted(posts, NewestFirst);
    var r := SortNewestFirst(posts);
    assert |r| == |multiset(r)| == |posts|;
    forall t ensures WithKey(r, NewestFirst, t) == WithKey(posts, NewestFirst, t) {
      SortStable(posts, NewestFirst, t);
    }
  }

  /** One entry of `renderPosts`: title and category with their fallbacks,
      formatted price, preview, age and comment count. */
  function PostEntryOf(p: Post, comments: seq<Comment>, now: int): (e: PostEntry)
    ensures e.title != "" && e.itemType != ""
    ensures e.title == NoTitle || Some(e.title) == p.itemName
    ensures e.itemType == NoType || Some(e.itemType) == p.itemType
    ensures p.itemName.Some? && p.itemName.value != "" ==> e.title == p.itemName.value
    ensures p.itemType.Some? && p.itemType.value != "" ==> e.itemType == p.itemType.value
    ensures e.price == Price.NoPrice <==> p.price.None? || p.price.value == 0
    ensures |e.preview| <= PreviewLength + |Ellipsis|
    ensures e.age == "방금 전" <==> now - p.time < RelativeTime.MinuteMs
    ensures e.commentCount == CommentCount(comments, p.timestamp)
  {
    PostEntry(
      OrElse(p.itemName, NoTitle),
      OrElse(p.itemType, NoType),
      Price.FormatPrice(p.price),
      Preview(p.memo),
      RelativeTime.TimeSince(now - p.time, false),
      CommentCount(comments, p.timestamp))
  }

  /** The post list for posts already in display order: the placeholder for
      no posts, otherwise one entry per post in that order. */
  function PostsView(posts: seq<Post>, comments: seq<Comment>, now: int): (v: PostList)
    ensures v.NoPosts? <==> posts == []
    ensures v.PostItems? ==> |v.items| == |posts|
  {
    if |posts| == 0 then NoPosts
    else PostItems(seq(|posts|, i requires 0 <= i < |posts| => PostEntryOf(posts[i], comments, now)))
  }

  /** The post list shows the placeholder exactly when there is no post, and
      otherwise the entry of each post in that order, each with a non-empty
      title and category, that post's comment count and a preview of at
      most 43 characters. */
  lemma PostsViewShape(posts: seq<Post>, comments: seq<Comment>, now: int)
    ensures var v := PostsView(posts, comments, now);
      && (v.NoPosts? <==> posts == [])
      && (v.PostItems? ==> |v.items| == |posts|)
      && (v.PostItems? ==> forall i :: 0 <= i < |posts| ==>
            && v.items[i] == PostEntryOf(posts[i], comments, now)
            && v.items[i].title != "" && v.items[i].itemType != ""
            && v.items[i].commentCount == CommentCount(comments, posts[i].timestamp)
            && |v.items[i].preview| <= PreviewLength + |Ellipsis|)
  {
  }

  // ---------------------------------------------------------------------------
  // Detail
  // ---------------------------------------------------------------------------

  /** The texts `openDetailView(post)` fills in: the raw title and category,
      the formatted price, and the location and body decoded from the memo. */
  function DetailOf(post: Post): (d: DetailText)
    ensures d.title == post.itemName && d.itemType == post.itemType
    ensures d.price == Price.NoPrice <==> post.price.None? || post.price.value == 0
    ensures Memo.MatchTag(post.memo.GetOr("")).None? ==>
      d.location == Memo.Unplaced && d.content == post.memo.GetOr("")
    ensures Memo.MatchTag(post.memo.GetOr("")).Some? ==> |d.content| < |post.memo.GetOr("")|
  {
    var m := Memo.Decode(post.memo);
    DetailText(post.itemName, post.itemType, Price.FormatPrice(post.price), m.location, m.body)
  }
}
