/** The responses the services return: a post or a comment as seen by one
    viewer, with its derived counts and, for a comment, one level of
    replies. A user appears in a response by id only. */
module Views {
  import opened Domain
  import Likes
  import CommentQueries

  /** PostResponse without `updatedAt`. */
  datatype PostView = PostView(
    id: PostId,
    owner: UserId,
    content: string,
    imageUrl: Option<string>,
    isPublic: bool,
    likeCount: nat,
    commentCount: nat,
    likedByCurrentUser: bool,
    likedBy: seq<UserId>,
    createdAt: nat)

  /** CommentResponse without `updatedAt`; `replies` is null (None) unless
      the comment was rendered with its replies. */
  datatype CommentView = CommentView(
    id: CommentId,
    post: PostId,
    author: UserId,
    parent: Option<CommentId>,
    content: string,
    likeCount: nat,
    likedByCurrentUser: bool,
    likedBy: seq<UserId>,
    replies: Option<seq<CommentView>>,
    createdAt: nat)

  /** mapToPostResponse: the post's fields, its likers, the size of its like
      set and of its comment set (replies included), and whether the viewer
      is among the likers. */
  function PostViewOf(p: Post, likes: seq<Like>, cs: map<CommentId, Comment>, viewer: UserId): (v: PostView)
    ensures v.id == p.id && v.owner == p.owner && v.createdAt == p.createdAt
    ensures v.content == p.content && v.imageUrl == p.imageUrl && v.isPublic == p.isPublic
    ensures forall u :: u in v.likedBy <==> Likes.Exists(likes, p.id, u)
    ensures v.likedByCurrentUser <==> viewer in v.likedBy
    ensures v.likeCount == |v.likedBy| == Likes.LikeCount(likes, p.id)
    ensures v.commentCount == |CommentQueries.PostCommentIds(cs, p.id)|
  {
    PostView(p.id, p.owner, p.content, p.imageUrl, p.isPublic,
             Likes.LikeCount(likes, p.id), CommentQueries.CommentCount(cs, p.id),
             Likes.Exists(likes, p.id, viewer), Likes.Likers(likes, p.id), p.createdAt)
  }

  /** mapToCommentResponse: like PostViewOf, with `replies` left null. */
  function CommentViewOf(c: Comment, likes: seq<Like>, viewer: UserId): (v: CommentView)
    ensures v.id == c.id && v.post == c.post && v.author == c.author && v.createdAt == c.createdAt
    ensures v.parent == c.parent && v.content == c.content
    ensures forall u :: u in v.likedBy <==> Likes.Exists(likes, c.id, u)
    ensures v.likedByCurrentUser <==> viewer in v.likedBy
    ensures v.likeCount == |v.likedBy| == Likes.LikeCount(likes, c.id)
    ensures v.replies.None?
  {
    CommentView(c.id, c.post, c.author, c.parent, c.content,
                Likes.LikeCount(likes, c.id), Likes.Exists(likes, c.id, viewer),
                Likes.Likers(likes, c.id), None, c.createdAt)
  }

  /** Renders each comment of a listing without its replies. */
  function ViewsOf(rows: seq<Comment>, likes: seq<Like>, viewer: UserId): seq<CommentView>
  {
    seq(|rows|, i requires 0 <= i < |rows| => CommentViewOf(rows[i], likes, viewer))
  }

  /** mapToCommentResponseWithReplies: the comment's own response, with
      `replies` set to its direct replies, oldest first, each rendered with
      `replies` null. The rendering goes one level deep and no further. */
  function CommentViewWithReplies(c: Comment, cs: map<CommentId, Comment>, hi: nat, likes: seq<Like>, viewer: UserId): (v: CommentView)
    ensures v.replies.Some?
    ensures v == CommentViewOf(c, likes, viewer).(replies := v.replies)
  {
    CommentViewOf(c, likes, viewer).(replies := Some(ViewsOf(CommentQueries.Replies(cs, c.id, hi), likes, viewer)))
  }

  /** The fields a rendered listing keeps from the rows it renders. */
  ghost predicate RendersRows(r: seq<CommentView>, rows: seq<Comment>) {
    && |r| == |rows|
    && forall i | 0 <= i < |r| ::
         r[i].id == rows[i].id && r[i].post == rows[i].post && r[i].parent == rows[i].parent && r[i].createdAt == rows[i].createdAt
  }

  /** Every entry of a rendered listing is a matching row with an id below
      `hi`. */
  lemma RenderedSound(cs: map<CommentId, Comment>, q: CommentQueries.CommentQuery, hi: nat, rows: seq<Comment>, r: seq<CommentView>)
    requires CommentQueries.WellKeyed(cs)
    requires rows == CommentQueries.Select(cs, q, 0, hi)
    requires RendersRows(r, rows)
    ensures forall v | v in r :: v.id in cs && v.id < hi && v.post == cs[v.id].post && v.parent == cs[v.id].parent && CommentQueries.Matches(q, cs[v.id])
  {
    CommentQueries.SelectExact(cs, q, 0, hi);
    forall v | v in r ensures v.id in cs && v.id < hi && v.post == cs[v.id].post && v.parent == cs[v.id].parent && CommentQueries.Matches(q, cs[v.id]) {
      var i :| 0 <= i < |r| && r[i] == v;
      assert rows[i] in rows;
    }
  }

  /** Every matching row with an id below `hi` has an entry in a rendered
      listing. */
  lemma RenderedComplete(cs: map<CommentId, Comment>, q: CommentQueries.CommentQuery, hi: nat, rows: seq<Comment>, r: seq<CommentView>)
    requires CommentQueries.WellKeyed(cs)
    requires rows == CommentQueries.Select(cs, q, 0, hi)
    requires RendersRows(r, rows)
    ensures forall k | k in cs && k < hi && CommentQueries.Matches(q, cs[k]) :: exists v | v in r :: v.id == k
  {
    CommentQueries.SelectExact(cs, q, 0, hi);
    forall k | k in cs && k < hi && CommentQueries.Matches(q, cs[k]) ensures exists v | v in r :: v.id == k {
      var i :| 0 <= i < |rows| && rows[i] == cs[k];
      assert r[i] in r && r[i].id == k;
    }
  }

  /** A rendered listing is oldest first. */
  lemma RenderedOrdered(cs: map<CommentId, Comment>, q: CommentQueries.CommentQuery, hi: nat, rows: seq<Comment>, r: seq<CommentView>)
    requires CommentQueries.WellKeyed(cs) && CommentQueries.CreatedInIdOrder(cs)
    requires rows == CommentQueries.Select(cs, q, 0, hi)
    requires RendersRows(r, rows)
    ensures forall i, j | 0 <= i < j < |r| :: r[i].createdAt < r[j].createdAt
  {
    CommentQueries.SelectOldestFirst(cs, q, 0, hi);
  }

  /** A rendering of a repository listing has one entry per matching row
      with an id below `hi`, and no other entry, oldest first. */
  lemma RenderedSelection(cs: map<CommentId, Comment>, q: CommentQueries.CommentQuery, hi: nat, rows: seq<Comment>, r: seq<CommentView>)
    requires CommentQueries.WellKeyed(cs) && CommentQueries.CreatedInIdOrder(cs)
    requires rows == CommentQueries.Select(cs, q, 0, hi)
    requires RendersRows(r, rows)
    ensures forall v | v in r :: v.id in cs && v.id < hi && v.post == cs[v.id].post && v.parent == cs[v.id].parent && CommentQueries.Matches(q, cs[v.id])
    ensures forall k | k in cs && k < hi && CommentQueries.Matches(q, cs[k]) :: exists v | v in r :: v.id == k
    ensures forall i, j | 0 <= i < j < |r| :: r[i].createdAt < r[j].createdAt
  {
    RenderedSound(cs, q, hi, rows, r);
    RenderedComplete(cs, q, hi, rows, r);
    RenderedOrdered(cs, q, hi, rows, r);
  }

  /** What a comment rendered with its replies contains: exactly one entry
      per stored direct reply with an id below `hi`, oldest first, and no
      entry carries replies of its own. Replies to replies are therefore
      never shown under the comment. Each entry is its stored reply's own
      response, like data included. */
  lemma RepliesAreDirectAndFlat(c: Comment, cs: map<CommentId, Comment>, hi: nat, likes: seq<Like>, viewer: UserId)
    requires CommentQueries.WellKeyed(cs) && CommentQueries.CreatedInIdOrder(cs)
    ensures var rs := CommentViewWithReplies(c, cs, hi, likes, viewer).replies.value;
      && (forall w | w in rs :: w.id in cs && w.id < hi && w.parent == Some(c.id) && w.replies.None?)
      && (forall k | k in cs && k < hi && cs[k].parent == Some(c.id) :: exists w | w in rs :: w.id == k)
      && (forall i, j | 0 <= i < j < |rs| :: rs[i].createdAt < rs[j].createdAt)
      && (forall w | w in rs :: w.id in cs && w == CommentViewOf(cs[w.id], likes, viewer))
  {
    var rows := CommentQueries.Replies(cs, c.id, hi);
    var rs := CommentViewWithReplies(c, cs, hi, likes, viewer).replies.value;
    assert rs == ViewsOf(rows, likes, viewer);
    assert forall w | w in rs :: w.id in cs && w == CommentViewOf(cs[w.id], likes, viewer) by {
      CommentQueries.SelectExact(cs, CommentQueries.RepliesTo(c.id), 0, hi);
      forall w | w in rs ensures w.id in cs && w == CommentViewOf(cs[w.id], likes, viewer) {
        var i :| 0 <= i < |rs| && rs[i] == w;
        assert rows[i] in rows;
      }
    }
    RenderedSelection(cs, CommentQueries.RepliesTo(c.id), hi, rows, rs);
  }

  /** getCommentsByPost: the post's top-level comments, oldest first, each
      rendered with its direct replies. */
  function ThreadOf(p: PostId, cs: map<CommentId, Comment>, hi: nat, likes: seq<Like>, viewer: UserId): (r: seq<CommentView>)
    ensures RendersRows(r, CommentQueries.TopLevel(cs, p, hi))
    ensures forall v | v in r :: v.replies.Some?
  {
    var top := CommentQueries.TopLevel(cs, p, hi);
    seq(|top|, i requires 0 <= i < |top| => CommentViewWithReplies(top[i], cs, hi, likes, viewer))
  }

  /** The thread of a post lists exactly its stored top-level comments with
      ids below `hi`, oldest first; each entry is a comment of the post with
      no parent, rendered with its own replies. */
  lemma ThreadIsTopLevel(p: PostId, cs: map<CommentId, Comment>, hi: nat, likes: seq<Like>, viewer: UserId)
    requires CommentQueries.WellKeyed(cs) && CommentQueries.CreatedInIdOrder(cs)
    ensures var r := ThreadOf(p, cs, hi, likes, viewer);
      && (forall v | v in r :: v.id in cs && v.id < hi && v.post == p && v.parent.None?)
      && (forall k | k in cs && k < hi && cs[k].post == p && cs[k].parent.None? :: exists v | v in r :: v.id == k)
      && (forall i, j | 0 <= i < j < |r| :: r[i].createdAt < r[j].createdAt)
      && (forall v | v in r :: v.id in cs && v == CommentViewWithReplies(cs[v.id], cs, hi, likes, viewer))
  {
    var r := ThreadOf(p, cs, hi, likes, viewer);
    var top := CommentQueries.TopLevel(cs, p, hi);
    RenderedSelection(cs, CommentQueries.TopLevelOf(p), hi, top, r);
    assert forall v | v in r :: v.id in cs && v == CommentViewWithReplies(cs[v.id], cs, hi, likes, viewer) by {
      CommentQueries.SelectExact(cs, CommentQueries.TopLevelOf(p), 0, hi);
      forall v | v in r ensures v.id in cs && v == CommentViewWithReplies(cs[v.id], cs, hi, likes, viewer) {
        var i :| 0 <= i < |r| && r[i] == v;
        assert top[i] in top;
      }
    }
  }
}
