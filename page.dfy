/** The page state `script.js` keeps between events: the fetched lists, the
    id of the post open in the detail panel, which panels are open, the input
    fields, the two submit buttons, and what the containers last showed.
    Each handler is a method; a handler that awaits the network is split in
    two at the `await`, so that what the page looks like while a request is
    outstanding is a state of its own. */
module Page {
  import opened Common
  import opened Js
  import opened Sorting
  import opened Listing
  import opened Submit

  /** What the endpoint's JSON gives `fetchData`: each list may be absent. */
  datatype Fetched = Fetched(post: Option<seq<Post>>, comment: Option<seq<Comment>>)

  /** How a POST ends: `data.success` true, `data.success` false with the
      server's `data.message`, or a rejected `fetch` or `response.json()`. */
  datatype Reply = Saved | Refused(message: JsValue) | NetworkError

  const CommentSavedMessage: string := "✅ 댓글 등록 완료!"
  const FailurePrefix: string := "❌ 실패: "
  const NetworkErrorMessage: string := "네트워크 오류 발생"
  const PostSavedMessage: string := "✅ 게시글 등록 완료!"
  const PostErrorMessage: string := "오류 발생"

  /** The `forEach` loops of `renderPosts` and `renderComments`: one entry
      per element, built and appended in order. */
  method Collect<A, B>(xs: seq<A>, entry: A -> B) returns (items: seq<B>)
    ensures |items| == |xs|
    ensures forall k :: 0 <= k < |xs| ==> items[k] == entry(xs[k])
  {
    items := [];
    var i := 0;
    while i < |xs|
      invariant 0 <= i <= |xs|
      invariant |items| == i
      invariant forall k :: 0 <= k < i ==> items[k] == entry(xs[k])
    {
      items := items + [entry(xs[i])];
      i := i + 1;
    }
  }

  class Board {
    var allPosts: seq<Post>
    var allComments: seq<Comment>
    var currentPostId: JsValue
    var detailOpen: bool
    var writeOpen: bool

    /** What the post container, the comment container and the detail texts
        last showed; nothing before their first rendering. */
    var postsView: Option<PostList>
    var commentsView: Option<CommentList>
    var detail: Option<DetailText>

    var authorField: string
    var commentField: string
    var form: PostForm

    var commentButtonDisabled: bool
    var uploadButtonDisabled: bool

    /** The request a handler has sent and not yet heard back about. */
    var pendingComment: Option<CommentRequest>
    var pendingPost: Option<PostRequest>

    /** Each button is disabled exactly while its request is outstanding;
        only requests that passed their checks are outstanding; the post id
        is cleared whenever the detail panel is closed. */
    predicate Valid()
      reads this`commentButtonDisabled, this`pendingComment, this`uploadButtonDisabled, this`pendingPost
      reads this`detailOpen, this`currentPostId
    {
      && (commentButtonDisabled <==> pendingComment.Some?)
      && (uploadButtonDisabled <==> pendingPost.Some?)
      && (pendingComment.Some? ==> Truthy(pendingComment.value.postId) && pendingComment.value.content != [])
      && (pendingPost.Some? ==> pendingPost.value.itemName != [] && pendingPost.value.itemType != [])
      && (!detailOpen ==> currentPostId == Null)
    }

    /** The globals as the script declares them, before the first fetch. */
    constructor ()
      ensures Valid()
      ensures allPosts == [] && allComments == [] && currentPostId == Null
      ensures !detailOpen && !writeOpen
      ensures postsView.None? && commentsView.None? && detail.None?
      ensures authorField == "" && commentField == "" && form == EmptyForm
      ensures !commentButtonDisabled && !uploadButtonDisabled
      ensures pendingComment.None? && pendingPost.None?
    {
      allPosts := [];
      allComments := [];
      currentPostId := Null;
      detailOpen := false;
      writeOpen := false;
      postsView := None;
      commentsView := None;
      detail := None;
      authorField := "";
      commentField := "";
      form := EmptyForm;
      commentButtonDisabled := false;
      uploadButtonDisabled := false;
      pendingComment := None;
      pendingPost := None;
    }

    /** `fetchData`: on an answer, replace both lists and redraw; on an
        error, change nothing (the `catch` only logs). */
    method FetchData(data: Option<Fetched>, now: int)
      requires Valid()
      modifies this`allPosts, this`allComments, this`postsView, this`commentsView
      ensures Valid()
      ensures data.None? ==>
        && allPosts == old(allPosts) && allComments == old(allComments)
        && postsView == old(postsView) && commentsView == old(commentsView)
      ensures data.Some? ==>
        && allPosts == SortNewestFirst(data.value.post.GetOr([]))
        && allComments == data.value.comment.GetOr([])
        && postsView == Some(PostsView(allPosts, allComments, now))
      ensures data.Some? ==>
        commentsView == if detailOpen && Truthy(currentPostId) then Some(CommentsView(allComments, currentPostId, now)) else old(commentsView)
    {
      if data.Some? {
        Refresh(data.value.post.GetOr([]), data.value.comment.GetOr([]), now);
      }
    }

    /** The body of `fetchData`'s `try` once the JSON is read: `data.post ||
        []` and `data.comment || []` replace the lists, the post list is
        redrawn, and the comments are redrawn only when the detail panel is
        open on a truthy post id. */
    method Refresh(posts: seq<Post>, comments: seq<Comment>, now: int)
      requires Valid()
      modifies this`allPosts, this`allComments, this`postsView, this`commentsView
      ensures Valid()
      ensures allPosts == SortNewestFirst(posts) && allComments == comments
      ensures postsView == Some(PostsView(allPosts, allComments, now))
      ensures commentsView ==
        if detailOpen && Truthy(currentPostId) then Some(CommentsView(allComments, currentPostId, now)) else old(commentsView)
    {
      allPosts := posts;
      allComments := comments;
      RenderPosts(now);
      if detailOpen && Truthy(currentPostId) {
        RenderComments(currentPostId, now);
      }
    }

    /** `renderPosts`: sort the posts newest first in place, then build one
        entry per post in that order (the placeholder when there are none). */
    method RenderPosts(now: int)
      modifies this`allPosts, this`postsView
      ensures allPosts == SortNewestFirst(old(allPosts))
      ensures postsView == Some(PostsView(allPosts, allComments, now))
    {
      if |allPosts| == 0 {
        postsView := Some(NoPosts);
        return;
      }
      allPosts := SortNewestFirst(allPosts);
      var posts, comments := allPosts, allComments;
      var items := Collect(posts, p => PostEntryOf(p, comments, now));
      assert items == seq(|posts|, k requires 0 <= k < |posts| => PostEntryOf(posts[k], comments, now));
      postsView := Some(PostItems(items));
    }

    /** `renderComments(postId)`: filter the comments of the post, sort them
        oldest first and build one entry each (the placeholder when there are
        none). `allComments` itself is left as it is. */
    method RenderComments(postId: JsValue, now: int)
      modifies this`commentsView
      ensures commentsView == Some(CommentsView(allComments, postId, now))
    {
      var filtered := CommentsFor(allComments, postId);
      if |filtered| == 0 {
        commentsView := Some(NoComments);
        return;
      }
      filtered := SortBy(filtered, CommentTime);
      var items := Collect(filtered, c => CommentEntryOf(c, now));
      assert items == seq(|filtered|, k requires 0 <= k < |filtered| => CommentEntryOf(filtered[k], now));
      commentsView := Some(CommentItems(items));
    }

    /** `openDetailView(post)`: remember the post's id, fill in its texts,
        render its comments and open the panel. */
    method OpenDetail(post: Post, now: int)
      requires Valid()
      modifies this`currentPostId, this`detail, this`commentsView, this`detailOpen
      ensures Valid()
      ensures detailOpen && currentPostId == post.timestamp
      ensures detail == Some(DetailOf(post))
      ensures commentsView == Some(CommentsView(allComments, post.timestamp, now))
    {
      ShowDetail(post);
      var id := post.timestamp;
      RenderComments(id, now);
      currentPostId := id;
      detailOpen := true;
    }

    /** The texts `openDetailView` fills in. */
    method ShowDetail(post: Post)
      modifies this`detail
      ensures detail == Some(DetailOf(post))
    {
      detail := Some(DetailOf(post));
    }

    /** `closeDetailView`: close the panel and forget the post id. */
    method CloseDetail()
      requires Valid()
      modifies this`detailOpen, this`currentPostId
      ensures Valid()
      ensures !detailOpen && currentPostId == Null
    {
      detailOpen := false;
      currentPostId := Null;
    }

    /** `openWriteModal`. */
    method OpenWrite()
      requires Valid()
      modifies this`writeOpen
      ensures Valid() && writeOpen
    {
      writeOpen := true;
    }

    /** `closeWriteModal`. */
    method CloseWrite()
      requires Valid()
      modifies this`writeOpen
      ensures Valid() && !writeOpen
    {
      writeOpen := false;
    }

    /** The user typing into the two comment fields. */
    method TypeComment(author: string, text: string)
      requires Valid()
      modifies this`authorField, this`commentField
      ensures Valid() && authorField == author && commentField == text
    {
      authorField := author;
      commentField := text;
    }

    /** The user typing into the write form. */
    method TypePost(f: PostForm)
      requires Valid()
      modifies this`form
      ensures Valid() && form == f
    {
      form := f;
    }

    /** `handleCommentSubmit` up to its `await`. A click reaches it only while
        the button is enabled. A refused comment raises its alert and changes
        nothing; an accepted one is sent and the button is disabled. */
    method SubmitComment() returns (alert: Option<string>)
      requires Valid() && !commentButtonDisabled
      modifies this`commentButtonDisabled, this`pendingComment
      ensures Valid()
      ensures var c := CheckComment(authorField, commentField, currentPostId);
        && (c.Err? ==> alert == Some(c.error) && pendingComment.None? && !commentButtonDisabled)
        && (c.Ok? ==> alert.None? && pendingComment == Some(c.value) && commentButtonDisabled)
    {
      var c := CheckComment(authorField, commentField, currentPostId);
      if c.Err? {
        alert := Some(c.error);
        return;
      }
      alert := None;
      commentButtonDisabled := true;
      pendingComment := Some(c.value);
    }

    /** `handleCommentSubmit` after its `await`: the message for the outcome,
        the text field cleared on success, a refresh requested on success, and
        the button enabled again whatever the outcome (`finally`). */
    method CommentReplied(reply: Reply) returns (message: string, refresh: bool)
      requires Valid() && pendingComment.Some?
      modifies this`commentButtonDisabled, this`pendingComment, this`commentField
      ensures Valid()
      ensures pendingComment.None? && !commentButtonDisabled
      ensures commentField == if reply.Saved? then "" else old(commentField)
      ensures refresh <==> reply.Saved?
      ensures message == match reply
        case Saved => CommentSavedMessage
        case Refused(m) => FailurePrefix + ToJsString(m)
        case NetworkError => NetworkErrorMessage
    {
      refresh := false;
      match reply {
        case Saved =>
          message := CommentSavedMessage;
          commentField := "";
          refresh := true;
        case Refused(m) =>
          message := FailurePrefix + ToJsString(m);
        case NetworkError =>
          message := NetworkErrorMessage;
      }
      commentButtonDisabled := false;
      pendingComment := None;
    }

    /** `savePost` up to its `await`. A form with a blank title or category is
        dropped without a word; otherwise the post is sent and the upload
        button disabled. */
    method SavePost() returns (sent: bool)
      requires Valid() && !uploadButtonDisabled
      modifies this`uploadButtonDisabled, this`pendingPost
      ensures Valid()
      ensures pendingPost == CheckPost(form)
      ensures sent <==> pendingPost.Some?
      ensures uploadButtonDisabled == sent
    {
      var p := CheckPost(form);
      if p.None? {
        sent := false;
        return;
      }
      sent := true;
      uploadButtonDisabled := true;
      pendingPost := p;
    }

    /** `savePost` after its `await`: on success the message, the form
        cleared, the modal closed and a refresh requested; on a refusal
        nothing at all; on an error the error message. The button is enabled
        again in every case. */
    method PostReplied(reply: Reply) returns (message: Option<string>, refresh: bool)
      requires Valid() && pendingPost.Some?
      modifies this`uploadButtonDisabled, this`pendingPost, this`form, this`writeOpen
      ensures Valid()
      ensures pendingPost.None? && !uploadButtonDisabled
      ensures refresh <==> reply.Saved?
      ensures reply.Saved? ==> message == Some(PostSavedMessage) && form == EmptyForm && !writeOpen
      ensures reply.Refused? ==> message.None?
      ensures reply.NetworkError? ==> message == Some(PostErrorMessage)
      ensures !reply.Saved? ==> form == old(form) && writeOpen == old(writeOpen)
    {
      message := None;
      refresh := false;
      if reply.Saved? {
        message := Some(PostSavedMessage);
        form := EmptyForm;
        writeOpen := false;
        refresh := true;
      } else if reply.NetworkError? {
        message := Some(PostErrorMessage);
      }
      uploadButtonDisabled := false;
      pendingPost := None;
    }
  }
}
