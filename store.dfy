/** The content graph held in one store, with the operations of PostService
    and CommentService as its methods and functions.

    Each operation runs as one transaction: it either fails with an error
    and changes nothing, or it succeeds and applies all of its writes. The
    caller is a user id; a caller who is not a registered user is refused
    with NotFound, as the lookup by e-mail does. The checks of every
    operation come in the source's order: the caller, then the entity, then
    the visibility or ownership gate, then anything else. */
module Store {
  import opened Domain
  import Likes
  import CommentQueries
  import opened PostQueries
  import opened Views
  import opened StoreInvariants

  /** The posts rendered for one viewer, in listing order. */
  function PostViews(rows: seq<Post>, likes: seq<Like>, cs: map<CommentId, Comment>, viewer: UserId): seq<PostView>
  {
    seq(|rows|, i requires 0 <= i < |rows| => PostViewOf(rows[i], likes, cs, viewer))
  }

  /** One page of a post listing, rendered for the viewer. */
  function ListingPage(ps: map<PostId, Post>, q: PostQuery, hi: nat, likes: seq<Like>, cs: map<CommentId, Comment>,
                       viewer: UserId, page: int, size: int): Result<Page<PostView>>
  {
    var pg := Paged(NewestFirst(ps, q, hi), page, size);
    if pg.Err? then Err(pg.error)
    else Ok(Page(PostViews(pg.value.content, likes, cs, viewer), pg.value.totalElements))
  }

  /** A rendered page of a listing: refused exactly for a bad page request;
      otherwise it shows the listing's rows from offset page * size on, at
      most `size` of them, each rendered for the viewer. Those are posts the
      listing matches, newest first, and the total is how many posts match
      in all. */
  lemma ListingPageFacts(ps: map<PostId, Post>, q: PostQuery, hi: nat, likes: seq<Like>, cs: map<CommentId, Comment>,
                         viewer: UserId, page: int, size: int)
    requires WellKeyed(ps) && CreatedInIdOrder(ps)
    ensures var r := ListingPage(ps, q, hi, likes, cs, viewer, page, size);
      var rows := NewestFirst(ps, q, hi);
      && (r.Err? <==> page < 0 || size < 1)
      && (r.Err? ==> r.error == InvalidArgument)
      && (r.Ok? ==> r.value.totalElements == |MatchingIds(ps, q, hi)|)
      && (r.Ok? ==> |r.value.content| == if page * size >= |rows| then 0 else Min(size, |rows| - page * size))
      && (r.Ok? ==> forall i | 0 <= i < |r.value.content| :: r.value.content[i] == PostViewOf(rows[page * size + i], likes, cs, viewer))
      && (r.Ok? ==> forall v | v in r.value.content :: v.id in ps && Matches(q, ps[v.id]) && v == PostViewOf(ps[v.id], likes, cs, viewer))
      && (r.Ok? ==> forall i, j | 0 <= i < j < |r.value.content| :: r.value.content[i].createdAt > r.value.content[j].createdAt)
  {
    var rows := NewestFirst(ps, q, hi);
    NewestFirstExact(ps, q, hi);
    NewestFirstIsByCreatedAt(ps, q, hi);
    NewestFirstCount(ps, q, hi);
    PageKeepsOrder(rows, page, size);
    var r := ListingPage(ps, q, hi, likes, cs, viewer, page, size);
    if r.Ok? {
      var c := Paged(rows, page, size).value.content;
      forall v | v in r.value.content ensures v.id in ps && Matches(q, ps[v.id]) && v == PostViewOf(ps[v.id], likes, cs, viewer) {
        var i :| 0 <= i < |r.value.content| && r.value.content[i] == v;
        assert c[i] in c;
      }
    }
  }

  /** Every post a listing matches is shown on one of its rendered pages,
      whatever the page size. */
  lemma ListingPageHoldsAll(ps: map<PostId, Post>, q: PostQuery, hi: nat, likes: seq<Like>, cs: map<CommentId, Comment>,
                            viewer: UserId, size: int, k: PostId)
    requires WellKeyed(ps) && size >= 1
    requires k in ps && k < hi && Matches(q, ps[k])
    ensures exists page: int | 0 <= page ::
      ListingPage(ps, q, hi, likes, cs, viewer, page, size).Ok? &&
      PostViewOf(ps[k], likes, cs, viewer) in ListingPage(ps, q, hi, likes, cs, viewer, page, size).value.content
  {
    var rows := NewestFirst(ps, q, hi);
    NewestFirstExact(ps, q, hi);
    var i :| 0 <= i < |rows| && rows[i] == ps[k];
    PageLocates(rows, size, i);
    var page := i / size;
    var c := ListingPage(ps, q, hi, likes, cs, viewer, page, size).value.content;
    assert c[i % size] == PostViewOf(ps[k], likes, cs, viewer);
  }

  class SocialStore {
    /** The registered users; registration is not part of this model. */
    const users: set<UserId>
    var posts: map<PostId, Post>
    var comments: map<CommentId, Comment>
    /** post_likes and comment_likes, in insertion order. */
    var postLikes: seq<Like>
    var commentLikes: seq<Like>
    /** The next identity value of each table. */
    var nextPostId: nat
    var nextCommentId: nat
    var nextPostLikeId: nat
    var nextCommentLikeId: nat
    /** The creation clock: every new row is stamped with it, then it ticks. */
    var clock: nat

    /** The current contents of every table and counter. */
    ghost function Snapshot(): Tables
      reads this
    {
      Tables(users, posts, comments, postLikes, commentLikes,
             nextPostId, nextCommentId, nextPostLikeId, nextCommentLikeId, clock)
    }

    ghost predicate Valid()
      reads this
    {
      StoreOk(Snapshot())
    }

    /** An empty store over a set of registered users. */
    constructor(registered: set<UserId>)
      ensures Valid()
      ensures users == registered
      ensures posts == map[] && comments == map[] && postLikes == [] && commentLikes == []
    {
      users := registered;
      posts, comments := map[], map[];
      postLikes, commentLikes := [], [];
      nextPostId, nextCommentId, nextPostLikeId, nextCommentLikeId := 1, 1, 1, 1;
      clock := 0;
    }

    /** The post a stored comment hangs off. */
    function PostOf(c: CommentId): Post
      requires Valid() && c in comments
      reads this
    {
      posts[comments[c].post]
    }

    // -------------------------------------------------------------------
    // PostService: reads

    /** getAllPosts: a page of the viewer's feed, which holds the public
        posts and the viewer's own, newest first. */
    function GetAllPosts(viewer: UserId, page: int, size: int): (r: Result<Page<PostView>>)
      requires Valid()
      reads this
      ensures r.Err? <==> viewer !in users || page < 0 || size < 1
      ensures r.Err? ==> r.error == if viewer !in users then NotFound else InvalidArgument
      ensures r.Ok? ==> forall v | v in r.value.content :: v.id in posts && CanView(posts[v.id], viewer)
      ensures r.Ok? ==> forall i, j | 0 <= i < j < |r.value.content| :: r.value.content[i].createdAt > r.value.content[j].createdAt
      ensures r.Ok? ==> r.value.totalElements == |MatchingIds(posts, VisibleTo(viewer), nextPostId)|
      ensures r.Ok? ==> var rows := NewestFirst(posts, VisibleTo(viewer), nextPostId);
        |r.value.content| == if page * size >= |rows| then 0 else Min(size, |rows| - page * size)
      ensures r.Ok? ==> var rows := NewestFirst(posts, VisibleTo(viewer), nextPostId);
        forall i | 0 <= i < |r.value.content| :: r.value.content[i] == PostViewOf(rows[page * size + i], postLikes, comments, viewer)
    {
      if viewer !in users then Err(NotFound)
      else
        ListingPageFacts(posts, VisibleTo(viewer), nextPostId, postLikes, comments, viewer, page, size);
        ListingPage(posts, VisibleTo(viewer), nextPostId, postLikes, comments, viewer, page, size)
    }

    /** getUserPosts: a page of the caller's own posts, private ones
        included, newest first. */
    function GetUserPosts(caller: UserId, page: int, size: int): (r: Result<Page<PostView>>)
      requires Valid()
      reads this
      ensures r.Err? <==> caller !in users || page < 0 || size < 1
      ensures r.Err? ==> r.error == if caller !in users then NotFound else InvalidArgument
      ensures r.Ok? ==> forall v | v in r.value.content :: v.id in posts && v.owner == caller
      ensures r.Ok? ==> forall i, j | 0 <= i < j < |r.value.content| :: r.value.content[i].createdAt > r.value.content[j].createdAt
      ensures r.Ok? ==> r.value.totalElements == |MatchingIds(posts, OwnedBy(caller), nextPostId)|
      ensures r.Ok? ==> var rows := NewestFirst(posts, OwnedBy(caller), nextPostId);
        |r.value.content| == if page * size >= |rows| then 0 else Min(size, |rows| - page * size)
      ensures r.Ok? ==> var rows := NewestFirst(posts, OwnedBy(caller), nextPostId);
        forall i | 0 <= i < |r.value.content| :: r.value.content[i] == PostViewOf(rows[page * size + i], postLikes, comments, caller)
    {
      if caller !in users then Err(NotFound)
      else
        ListingPageFacts(posts, OwnedBy(caller), nextPostId, postLikes, comments, caller, page, size);
        ListingPage(posts, OwnedBy(caller), nextPostId, postLikes, comments, caller, page, size)
    }

    /** The feed misses nothing: every post the viewer may see is on one of
        the viewer's pages, whatever the page size. */
    lemma FeedHoldsEveryVisiblePost(viewer: UserId, size: int, k: PostId)
      requires Valid() && viewer in users && size >= 1
      requires k in posts && CanView(posts[k], viewer)
      ensures exists page: int | 0 <= page ::
        GetAllPosts(viewer, page, size).Ok? && PostViewOf(posts[k], postLikes, comments, viewer) in GetAllPosts(viewer, page, size).value.content
    {
      ListingPageHoldsAll(posts, VisibleTo(viewer), nextPostId, postLikes, comments, viewer, size, k);
      var page: int :| 0 <= page && ListingPage(posts, VisibleTo(viewer), nextPostId, postLikes, comments, viewer, page, size).Ok? &&
        PostViewOf(posts[k], postLikes, comments, viewer) in ListingPage(posts, VisibleTo(viewer), nextPostId, postLikes, comments, viewer, page, size).value.content;
      assert GetAllPosts(viewer, page, size) == ListingPage(posts, VisibleTo(viewer), nextPostId, postLikes, comments, viewer, page, size);
    }

    /** "My posts" misses nothing: every post of the caller, private ones
        included, is on one of the caller's pages, whatever the page size. */
    lemma OwnPagesHoldEveryOwnPost(caller: UserId, size: int, k: PostId)
      requires Valid() && caller in users && size >= 1
      requires k in posts && posts[k].owner == caller
      ensures exists page: int | 0 <= page ::
        GetUserPosts(caller, page, size).Ok? && PostViewOf(posts[k], postLikes, comments, caller) in GetUserPosts(caller, page, size).value.content
    {
      ListingPageHoldsAll(posts, OwnedBy(caller), nextPostId, postLikes, comments, caller, size, k);
      var page: int :| 0 <= page && ListingPage(posts, OwnedBy(caller), nextPostId, postLikes, comments, caller, page, size).Ok? &&
        PostViewOf(posts[k], postLikes, comments, caller) in ListingPage(posts, OwnedBy(caller), nextPostId, postLikes, comments, caller, page, size).value.content;
      assert GetUserPosts(caller, page, size) == ListingPage(posts, OwnedBy(caller), nextPostId, postLikes, comments, caller, page, size);
    }

    /** getPostById: the post as the viewer sees it, behind the gate. */
    function GetPostById(id: PostId, viewer: UserId): (r: Result<PostView>)
      requires Valid()
      reads this
      ensures viewer !in users ==> r == Err(NotFound)
      ensures viewer in users && id !in posts ==> r == Err(NotFound)
      ensures viewer in users && id in posts && !CanView(posts[id], viewer) ==> r == Err(Unauthorized)
      ensures r.Ok? <==> viewer in users && id in posts && CanView(posts[id], viewer)
      ensures r.Ok? ==> r.value.id == id && r.value.content == posts[id].content && r.value.owner == posts[id].owner
      ensures r.Ok? ==> (r.value.likedByCurrentUser <==> Likes.Exists(postLikes, id, viewer))
      ensures r.Ok? ==> r.value.likeCount == Likes.LikeCount(postLikes, id)
      ensures r.Ok? ==> r.value.commentCount == |CommentQueries.PostCommentIds(comments, id)|
      ensures r.Ok? ==> r.value == PostViewOf(posts[id], postLikes, comments, viewer)
    {
      if viewer !in users || id !in posts then Err(NotFound)
      else if !CanView(posts[id], viewer) then Err(Unauthorized)
      else Ok(PostViewOf(posts[id], postLikes, comments, viewer))
    }

    /** getPostLikes: the users who like the post, behind the gate. */
    function GetPostLikes(id: PostId, viewer: UserId): (r: Result<seq<UserId>>)
      requires Valid()
      reads this
      ensures viewer !in users ==> r == Err(NotFound)
      ensures viewer in users && id !in posts ==> r == Err(NotFound)
      ensures viewer in users && id in posts && !CanView(posts[id], viewer) ==> r == Err(Unauthorized)
      ensures r.Ok? <==> viewer in users && id in posts && CanView(posts[id], viewer)
      ensures r.Ok? ==> forall u :: u in r.value <==> Likes.Exists(postLikes, id, u)
      ensures r.Ok? ==> |r.value| == Likes.LikeCount(postLikes, id)
    {
      if viewer !in users || id !in posts then Err(NotFound)
      else if !CanView(posts[id], viewer) then Err(Unauthorized)
      else Ok(Likes.Likers(postLikes, id))
    }

    // -------------------------------------------------------------------
    // CommentService: reads

    /** getCommentsByPost: the post's top-level comments, oldest first, each
        with its direct replies, behind the gate. */
    function GetCommentsByPost(postId: PostId, viewer: UserId): (r: Result<seq<CommentView>>)
      requires Valid()
      reads this
      ensures viewer !in users ==> r == Err(NotFound)
      ensures viewer in users && postId !in posts ==> r == Err(NotFound)
      ensures viewer in users && postId in posts && !CanView(posts[postId], viewer) ==> r == Err(Unauthorized)
      ensures r.Ok? <==> viewer in users && postId in posts && CanView(posts[postId], viewer)
      ensures r.Ok? ==> forall v | v in r.value :: v.id in comments && v.post == postId && v.parent.None? && v.replies.Some?
      ensures r.Ok? ==> forall k | k in comments && comments[k].post == postId && comments[k].parent.None? :: exists v | v in r.value :: v.id == k
      ensures r.Ok? ==> forall i, j | 0 <= i < j < |r.value| :: r.value[i].createdAt < r.value[j].createdAt
      ensures r.Ok? ==> forall v | v in r.value :: v == CommentViewWithReplies(comments[v.id], comments, nextCommentId, commentLikes, viewer)
    {
      if viewer !in users || postId !in posts then Err(NotFound)
      else if !CanView(posts[postId], viewer) then Err(Unauthorized)
      else
        ThreadIsTopLevel(postId, comments, nextCommentId, commentLikes, viewer);
        Ok(ThreadOf(postId, comments, nextCommentId, commentLikes, viewer))
    }

    /** getCommentById: the comment with its direct replies, behind the
        gate of the comment's post. */
    function GetCommentById(id: CommentId, viewer: UserId): (r: Result<CommentView>)
      requires Valid()
      reads this
      ensures viewer !in users ==> r == Err(NotFound)
      ensures viewer in users && id !in comments ==> r == Err(NotFound)
      ensures viewer in users && id in comments && !CanView(PostOf(id), viewer) ==> r == Err(Unauthorized)
      ensures r.Ok? <==> viewer in users && id in comments && CanView(PostOf(id), viewer)
      ensures r.Ok? ==> r.value.id == id && r.value.content == comments[id].content && r.value.replies.Some?
      ensures r.Ok? ==> forall w | w in r.value.replies.value :: w.id in comments && w.parent == Some(id) && w.replies.None?
      ensures r.Ok? ==> forall k | k in comments && comments[k].parent == Some(id) :: exists w | w in r.value.replies.value :: w.id == k
      ensures r.Ok? ==> forall i, j | 0 <= i < j < |r.value.replies.value| :: r.value.replies.value[i].createdAt < r.value.replies.value[j].createdAt
      ensures r.Ok? ==> forall w | w in r.value.replies.value :: w == CommentViewOf(comments[w.id], commentLikes, viewer)
      ensures r.Ok? ==> r.value == CommentViewWithReplies(comments[id], comments, nextCommentId, commentLikes, viewer)
    {
      if viewer !in users || id !in comments then Err(NotFound)
      else if !CanView(PostOf(id), viewer) then Err(Unauthorized)
      else
        RepliesAreDirectAndFlat(comments[id], comments, nextCommentId, commentLikes, viewer);
        Ok(CommentViewWithReplies(comments[id], comments, nextCommentId, commentLikes, viewer))
    }

    /** getCommentLikes: the users who like the comment, behind the gate of
        the comment's post. */
    function GetCommentLikes(id: CommentId, viewer: UserId): (r: Result<seq<UserId>>)
      requires Valid()
      reads this
      ensures viewer !in users ==> r == Err(NotFound)
      ensures viewer in users && id !in comments ==> r == Err(NotFound)
      ensures viewer in users && id in comments && !CanView(PostOf(id), viewer) ==> r == Err(Unauthorized)
      ensures r.Ok? <==> viewer in users && id in comments && CanView(PostOf(id), viewer)
      ensures r.Ok? ==> forall u :: u in r.value <==> Likes.Exists(commentLikes, id, u)
      ensures r.Ok? ==> |r.value| == Likes.LikeCount(commentLikes, id)
    {
      if viewer !in users || id !in comments then Err(NotFound)
      else if !CanView(PostOf(id), viewer) then Err(Unauthorized)
      else Ok(Likes.Likers(commentLikes, id))
    }

    /** getReplies: the direct replies of the comment, oldest first, each
        without replies of its own, behind the gate of the comment's post. */
    function GetReplies(id: CommentId, viewer: UserId): (r: Result<seq<CommentView>>)
      requires Valid()
      reads this
      ensures viewer !in users ==> r == Err(NotFound)
      ensures viewer in users && id !in comments ==> r == Err(NotFound)
      ensures viewer in users && id in comments && !CanView(PostOf(id), viewer) ==> r == Err(Unauthorized)
      ensures r.Ok? <==> viewer in users && id in comments && CanView(PostOf(id), viewer)
      ensures r.Ok? ==> forall w | w in r.value :: w.id in comments && w.parent == Some(id) && w.replies.None?
      ensures r.Ok? ==> forall k | k in comments && comments[k].parent == Some(id) :: exists w | w in r.value :: w.id == k
      ensures r.Ok? ==> forall i, j | 0 <= i < j < |r.value| :: r.value[i].createdAt < r.value[j].createdAt
      ensures r.Ok? ==> forall w | w in r.value :: w == CommentViewOf(comments[w.id], commentLikes, viewer)
    {
      if viewer !in users || id !in comments then Err(NotFound)
      else if !CanView(PostOf(id), viewer) then Err(Unauthorized)
      else
        RepliesAreDirectAndFlat(comments[id], comments, nextCommentId, commentLikes, viewer);
        Ok(CommentViewWithReplies(comments[id], comments, nextCommentId, commentLikes, viewer).replies.value)
    }
  
    // -------------------------------------------------------------------
    // PostService: writes

    /** createPost: the caller becomes the owner; a visibility left out of
        the request makes the post public. The new post has no likes and no
        comments. */
    method CreatePost(caller: UserId, content: string, imageUrl: Option<string>, isPublic: Option<bool>)
      returns (r: Result<PostView>)
      requires Valid()
      modifies this
      ensures Valid()
      ensures r.Err? <==> caller !in users
      ensures r.Err? ==> r.error == NotFound && unchanged(this)
      ensures r.Ok? ==> old(nextPostId) !in old(posts)
      ensures r.Ok? ==> posts == old(posts)[old(nextPostId) := Post(old(nextPostId), caller, content, imageUrl, isPublic.GetOr(true), old(clock))]
      ensures r.Ok? ==> nextPostId == old(nextPostId) + 1 && clock == old(clock) + 1
      ensures r.Ok? ==> comments == old(comments) && postLikes == old(postLikes) && commentLikes == old(commentLikes)
      ensures r.Ok? ==> nextCommentId == old(nextCommentId) && nextPostLikeId == old(nextPostLikeId) && nextCommentLikeId == old(nextCommentLikeId)
      ensures r.Ok? ==> r.value.id == old(nextPostId) && r.value.owner == caller && r.value.isPublic == isPublic.GetOr(true)
      ensures r.Ok? ==> r.value.likeCount == 0 && r.value.commentCount == 0 && !r.value.likedByCurrentUser
      ensures r.Ok? ==> r.value == PostViewOf(posts[old(nextPostId)], postLikes, comments, caller)
    {
      if caller !in users {
        return Err(NotFound);
      }
      var p := Post(nextPostId, caller, content, imageUrl, isPublic.GetOr(true), clock);
      FreshIdsUnused(Snapshot());
      ghost var before := Snapshot();
      AddPostKeeps(before, p);
      Likes.NoLikesOn(postLikes, p.id);
      assert CommentQueries.PostCommentIds(comments, p.id) == {};
      posts := posts[p.id := p];
      nextPostId := nextPostId + 1;
      clock := clock + 1;
      assert Snapshot() == before.(posts := before.posts[p.id := p], nextPostId := before.nextPostId + 1, clock := before.clock + 1);
      var v := PostViewOf(p, postLikes, comments, caller);
      return Ok(v);
    }

    /** updatePost: owner only, whatever the visibility. The content is
        always replaced; the image and the visibility only when given. */
    method UpdatePost(id: PostId, caller: UserId, content: string, imageUrl: Option<string>, isPublic: Option<bool>)
      returns (r: Result<PostView>)
      requires Valid()
      modifies this
      ensures Valid()
      ensures caller !in users ==> r == Err(NotFound)
      ensures caller in users && id !in old(posts) ==> r == Err(NotFound)
      ensures caller in users && id in old(posts) && !CanMutate(old(posts[id].owner), caller) ==> r == Err(Unauthorized)
      ensures r.Ok? <==> caller in users && id in old(posts) && CanMutate(old(posts[id].owner), caller)
      ensures r.Err? ==> unchanged(this)
      ensures r.Ok? ==> posts == old(posts)[id := old(posts[id]).(
                content := content,
                imageUrl := if imageUrl.Some? then imageUrl else old(posts[id].imageUrl),
                isPublic := isPublic.GetOr(old(posts[id].isPublic)))]
      ensures r.Ok? ==> comments == old(comments) && postLikes == old(postLikes) && commentLikes == old(commentLikes)
      ensures r.Ok? ==> nextPostId == old(nextPostId) && nextCommentId == old(nextCommentId) && clock == old(clock)
      ensures r.Ok? ==> nextPostLikeId == old(nextPostLikeId) && nextCommentLikeId == old(nextCommentLikeId)
      ensures r.Ok? ==> r.value.id == id && r.value.content == content
      ensures r.Ok? ==> r.value == PostViewOf(posts[id], postLikes, comments, caller)
    {
      if caller !in users || id !in posts {
        return Err(NotFound);
      }
      if !CanMutate(posts[id].owner, caller) {
        return Err(Unauthorized);
      }
      var p := posts[id];
      p := p.(content := content);
      if imageUrl.Some? {
        p := p.(imageUrl := imageUrl);
      }
      if isPublic.Some? {
        p := p.(isPublic := isPublic.value);
      }
      ghost var before := Snapshot();
      EditPostKeeps(before, p);
      posts := posts[id := p];
      assert Snapshot() == before.(posts := before.posts[p.id := p]);
      return Ok(PostViewOf(p, postLikes, comments, caller));
    }

    /** deletePost: owner only, whatever the visibility. The post goes with
        its comments, replies included, the likes on the post and the likes
        on those comments. */
    method DeletePost(id: PostId, caller: UserId) returns (r: Result<()>)
      requires Valid()
      modifies this
      ensures Valid()
      ensures caller !in users ==> r == Err(NotFound)
      ensures caller in users && id !in old(posts) ==> r == Err(NotFound)
      ensures caller in users && id in old(posts) && !CanMutate(old(posts[id].owner), caller) ==> r == Err(Unauthorized)
      ensures r.Ok? <==> caller in users && id in old(posts) && CanMutate(old(posts[id].owner), caller)
      ensures r.Err? ==> unchanged(this)
      ensures r.Ok? ==> posts == old(posts) - {id}
      ensures r.Ok? ==> comments == CommentQueries.RemovePostComments(old(comments), id)
      ensures r.Ok? ==> postLikes == Likes.Restrict(old(postLikes), posts.Keys)
      ensures r.Ok? ==> commentLikes == Likes.Restrict(old(commentLikes), comments.Keys)
      ensures r.Ok? ==> nextPostId == old(nextPostId) && nextCommentId == old(nextCommentId) && clock == old(clock)
      ensures r.Ok? ==> nextPostLikeId == old(nextPostLikeId) && nextCommentLikeId == old(nextCommentLikeId)
      ensures r.Ok? ==> (forall k | k in comments :: comments[k].post != id) && (forall l | l in postLikes :: l.subject != id)
    {
      if caller !in users || id !in posts {
        return Err(NotFound);
      }
      if !CanMutate(posts[id].owner, caller) {
        return Err(Unauthorized);
      }
      ghost var before := Snapshot();
      DeletePostKeeps(before, id);
      posts := posts - {id};
      comments := CommentQueries.RemovePostComments(comments, id);
      postLikes := Likes.Restrict(postLikes, posts.Keys);
      commentLikes := Likes.Restrict(commentLikes, comments.Keys);
      assert Snapshot() == before.(posts := posts, comments := comments, postLikes := postLikes, commentLikes := commentLikes);
      return Ok(());
    }

    /** toggleLike on a post, behind the gate: an existing like of the
        caller is removed, otherwise exactly one is added. */
    method TogglePostLike(id: PostId, caller: UserId) returns (r: Result<PostView>)
      requires Valid()
      modifies this
      ensures Valid()
      ensures caller !in users ==> r == Err(NotFound)
      ensures caller in users && id !in old(posts) ==> r == Err(NotFound)
      ensures caller in users && id in old(posts) && !CanView(old(posts[id]), caller) ==> r == Err(Unauthorized)
      ensures r.Ok? <==> caller in users && id in old(posts) && CanView(old(posts[id]), caller)
      ensures r.Err? ==> unchanged(this)
      ensures r.Ok? ==> postLikes == Likes.Toggle(old(postLikes), id, caller, old(nextPostLikeId), old(clock))
      ensures r.Ok? ==> nextPostLikeId == old(nextPostLikeId) + (if old(Likes.Exists(postLikes, id, caller)) then 0 else 1)
      ensures r.Ok? ==> clock == old(clock) + (if old(Likes.Exists(postLikes, id, caller)) then 0 else 1)
      ensures r.Ok? ==> posts == old(posts) && comments == old(comments) && commentLikes == old(commentLikes)
      ensures r.Ok? ==> nextPostId == old(nextPostId) && nextCommentId == old(nextCommentId) && nextCommentLikeId == old(nextCommentLikeId)
      ensures r.Ok? ==> r.value.likedByCurrentUser == !old(Likes.Exists(postLikes, id, caller))
      ensures r.Ok? ==>
        r.value.likeCount == if old(Likes.Exists(postLikes, id, caller)) then old(Likes.LikeCount(postLikes, id)) - 1 else old(Likes.LikeCount(postLikes, id)) + 1
      ensures r.Ok? ==> r.value == PostViewOf(posts[id], postLikes, comments, caller)
    {
      if caller !in users || id !in posts {
        return Err(NotFound);
      }
      if !CanView(posts[id], caller) {
        return Err(Unauthorized);
      }
      ghost var before := Snapshot();
      TogglePostLikeKeeps(before, id, caller);
      Likes.ToggleCount(postLikes, id, caller, nextPostLikeId, clock);
      var liked := Likes.Exists(postLikes, id, caller);
      if liked {
        postLikes := Likes.DeletePair(postLikes, id, caller);
      } else {
        postLikes := Likes.Insert(postLikes, id, caller, nextPostLikeId, clock);
        nextPostLikeId := nextPostLikeId + 1;
        clock := clock + 1;
      }
      assert Snapshot() == before.(postLikes := Likes.Toggle(before.postLikes, id, caller, before.nextPostLikeId, before.clock),
                                   nextPostLikeId := if liked then before.nextPostLikeId else before.nextPostLikeId + 1,
                                   clock := if liked then before.clock else before.clock + 1);
      return Ok(PostViewOf(posts[id], postLikes, comments, caller));
    }

    // -------------------------------------------------------------------
    // CommentService: writes

    /** createComment: the caller, then the post, then the gate, then the
        parent must exist, then it must belong to this post. A parent that
        is itself a reply is accepted. */
    method CreateComment(postId: PostId, caller: UserId, content: string, parent: Option<CommentId>)
      returns (r: Result<CommentView>)
      requires Valid()
      modifies this
      ensures Valid()
      ensures caller !in users ==> r == Err(NotFound)
      ensures caller in users && postId !in old(posts) ==> r == Err(NotFound)
      ensures caller in users && postId in old(posts) && !CanView(old(posts[postId]), caller) ==> r == Err(Unauthorized)
      ensures (caller in users && postId in old(posts) && CanView(old(posts[postId]), caller) &&
               parent.Some? && parent.value !in old(comments)) ==> r == Err(NotFound)
      ensures (caller in users && postId in old(posts) && CanView(old(posts[postId]), caller) &&
               parent.Some? && parent.value in old(comments) && old(comments[parent.value].post) != postId) ==> r == Err(InvalidArgument)
      ensures r.Ok? <==> (caller in users && postId in old(posts) && CanView(old(posts[postId]), caller) &&
               (parent.Some? ==> parent.value in old(comments) && old(comments[parent.value].post) == postId))
      ensures r.Err? ==> unchanged(this)
      ensures r.Ok? ==> old(nextCommentId) !in old(comments)
      ensures r.Ok? ==> comments == old(comments)[old(nextCommentId) := Comment(old(nextCommentId), postId, caller, parent, content, old(clock))]
      ensures r.Ok? ==> nextCommentId == old(nextCommentId) + 1 && clock == old(clock) + 1
      ensures r.Ok? ==> posts == old(posts) && postLikes == old(postLikes) && commentLikes == old(commentLikes)
      ensures r.Ok? ==> nextPostId == old(nextPostId) && nextPostLikeId == old(nextPostLikeId) && nextCommentLikeId == old(nextCommentLikeId)
      ensures r.Ok? ==> r.value.id == old(nextCommentId) && r.value.post == postId && r.value.parent == parent
      ensures r.Ok? ==> r.value.likeCount == 0 && r.value.replies.None?
      ensures r.Ok? ==> r.value.id in comments && r.value == CommentViewOf(comments[r.value.id], commentLikes, caller)
    {
      if caller !in users || postId !in posts {
        return Err(NotFound);
      }
      if !CanView(posts[postId], caller) {
        return Err(Unauthorized);
      }
      if parent.Some? {
        if parent.value !in comments {
          return Err(NotFound);
        }
        if comments[parent.value].post != postId {
          return Err(InvalidArgument);
        }
      }
      r := SaveComment(postId, caller, content, parent);
    }

    /** replyToComment: the caller, then the parent comment, then the gate
        of the parent's post. The reply joins the parent's post. */
    method ReplyToComment(parentId: CommentId, caller: UserId, content: string) returns (r: Result<CommentView>)
      requires Valid()
      modifies this
      ensures Valid()
      ensures caller !in users ==> r == Err(NotFound)
      ensures caller in users && parentId !in old(comments) ==> r == Err(NotFound)
      ensures caller in users && parentId in old(comments) && !CanView(old(PostOf(parentId)), caller) ==> r == Err(Unauthorized)
      ensures r.Ok? <==> caller in users && parentId in old(comments) && CanView(old(PostOf(parentId)), caller)
      ensures r.Err? ==> unchanged(this)
      ensures r.Ok? ==> old(nextCommentId) !in old(comments)
      ensures r.Ok? ==> comments == old(comments)[old(nextCommentId) :=
                Comment(old(nextCommentId), old(comments[parentId].post), caller, Some(parentId), content, old(clock))]
      ensures r.Ok? ==> nextCommentId == old(nextCommentId) + 1 && clock == old(clock) + 1
      ensures r.Ok? ==> posts == old(posts) && postLikes == old(postLikes) && commentLikes == old(commentLikes)
      ensures r.Ok? ==> nextPostId == old(nextPostId) && nextPostLikeId == old(nextPostLikeId) && nextCommentLikeId == old(nextCommentLikeId)
      ensures r.Ok? ==> r.value.id == old(nextCommentId) && r.value.post == old(comments[parentId].post) && r.value.parent == Some(parentId)
      ensures r.Ok? ==> r.value.likeCount == 0 && r.value.replies.None?
      ensures r.Ok? ==> r.value.id in comments && r.value == CommentViewOf(comments[r.value.id], commentLikes, caller)
    {
      if caller !in users || parentId !in comments {
        return Err(NotFound);
      }
      if !CanView(PostOf(parentId), caller) {
        return Err(Unauthorized);
      }
      r := SaveComment(comments[parentId].post, caller, content, Some(parentId));
    }

    /** Saves a new comment once every check has passed: the next id, the
        current time, and a response with no likes and no replies. */
    method SaveComment(postId: PostId, author: UserId, content: string, parent: Option<CommentId>)
      returns (r: Result<CommentView>)
      requires Valid()
      requires postId in posts && author in users
      requires parent.Some? ==> parent.value in comments && comments[parent.value].post == postId
      modifies this
      ensures Valid()
      ensures old(nextCommentId) !in old(comments)
      ensures comments == old(comments)[old(nextCommentId) := Comment(old(nextCommentId), postId, author, parent, content, old(clock))]
      ensures nextCommentId == old(nextCommentId) + 1 && clock == old(clock) + 1
      ensures posts == old(posts) && postLikes == old(postLikes) && commentLikes == old(commentLikes)
      ensures nextPostId == old(nextPostId) && nextPostLikeId == old(nextPostLikeId) && nextCommentLikeId == old(nextCommentLikeId)
      ensures r.Ok? && r.value.id == old(nextCommentId) && r.value.post == postId && r.value.parent == parent
      ensures r.value.likeCount == 0 && r.value.replies.None?
      ensures r.value == CommentViewOf(comments[old(nextCommentId)], commentLikes, author)
    {
      var c := Comment(nextCommentId, postId, author, parent, content, clock);
      FreshIdsUnused(Snapshot());
      ghost var before := Snapshot();
      AddCommentKeeps(before, c);
      Likes.NoLikesOn(commentLikes, c.id);
      comments := comments[c.id := c];
      nextCommentId := nextCommentId + 1;
      clock := clock + 1;
      assert Snapshot() == before.(comments := before.comments[c.id := c], nextCommentId := before.nextCommentId + 1, clock := before.clock + 1);
      var v := CommentViewOf(c, commentLikes, author);
      return Ok(v);
    }

    /** updateComment: author only, even on a public post and with no
        visibility check; only the content changes. */
    method UpdateComment(id: CommentId, caller: UserId, content: string) returns (r: Result<CommentView>)
      requires Valid()
      modifies this
      ensures Valid()
      ensures caller !in users ==> r == Err(NotFound)
      ensures caller in users && id !in old(comments) ==> r == Err(NotFound)
      ensures caller in users && id in old(comments) && !CanMutate(old(comments[id].author), caller) ==> r == Err(Unauthorized)
      ensures r.Ok? <==> caller in users && id in old(comments) && CanMutate(old(comments[id].author), caller)
      ensures r.Err? ==> unchanged(this)
      ensures r.Ok? ==> comments == old(comments)[id := old(comments[id]).(content := content)]
      ensures r.Ok? ==> posts == old(posts) && postLikes == old(postLikes) && commentLikes == old(commentLikes)
      ensures r.Ok? ==> nextPostId == old(nextPostId) && nextCommentId == old(nextCommentId) && clock == old(clock)
      ensures r.Ok? ==> nextPostLikeId == old(nextPostLikeId) && nextCommentLikeId == old(nextCommentLikeId)
      ensures r.Ok? ==> r.value.id == id && r.value.content == content && r.value.replies.None?
      ensures r.Ok? ==> r.value == CommentViewOf(comments[id], commentLikes, caller)
    {
      if caller !in users || id !in comments {
        return Err(NotFound);
      }
      if !CanMutate(comments[id].author, caller) {
        return Err(Unauthorized);
      }
      ghost var before := Snapshot();
      EditCommentKeeps(before, id, content);
      comments := comments[id := comments[id].(content := content)];
      assert Snapshot() == before.(comments := before.comments[id := before.comments[id].(content := content)]);
      return Ok(CommentViewOf(comments[id], commentLikes, caller));
    }

    /** deleteComment: author only, with no visibility check. The comment
        goes with its replies at every depth and the likes on all of them. */
    method DeleteComment(id: CommentId, caller: UserId) returns (r: Result<()>)
      requires Valid()
      modifies this
      ensures Valid()
      ensures caller !in users ==> r == Err(NotFound)
      ensures caller in users && id !in old(comments) ==> r == Err(NotFound)
      ensures caller in users && id in old(comments) && !CanMutate(old(comments[id].author), caller) ==> r == Err(Unauthorized)
      ensures r.Ok? <==> caller in users && id in old(comments) && CanMutate(old(comments[id].author), caller)
      ensures r.Err? ==> unchanged(this)
      ensures r.Ok? ==> comments == CommentQueries.RemoveSubtree(old(comments), id)
      ensures r.Ok? ==> commentLikes == Likes.Restrict(old(commentLikes), comments.Keys)
      ensures r.Ok? ==> posts == old(posts) && postLikes == old(postLikes)
      ensures r.Ok? ==> nextPostId == old(nextPostId) && nextCommentId == old(nextCommentId) && clock == old(clock)
      ensures r.Ok? ==> nextPostLikeId == old(nextPostLikeId) && nextCommentLikeId == old(nextCommentLikeId)
      ensures r.Ok? ==> id !in comments && forall l | l in commentLikes :: l.subject != id
    {
      if caller !in users || id !in comments {
        return Err(NotFound);
      }
      if !CanMutate(comments[id].author, caller) {
        return Err(Unauthorized);
      }
      ghost var before := Snapshot();
      DeleteCommentKeeps(before, id);
      comments := CommentQueries.RemoveSubtree(comments, id);
      commentLikes := Likes.Restrict(commentLikes, comments.Keys);
      assert Snapshot() == before.(comments := comments, commentLikes := commentLikes);
      return Ok(());
    }

    /** toggleLike on a comment, behind the gate of the comment's post. */
    method ToggleCommentLike(id: CommentId, caller: UserId) returns (r: Result<CommentView>)
      requires Valid()
      modifies this
      ensures Valid()
      ensures caller !in users ==> r == Err(NotFound)
      ensures caller in users && id !in old(comments) ==> r == Err(NotFound)
      ensures caller in users && id in old(comments) && !CanView(old(PostOf(id)), caller) ==> r == Err(Unauthorized)
      ensures r.Ok? <==> caller in users && id in old(comments) && CanView(old(PostOf(id)), caller)
      ensures r.Err? ==> unchanged(this)
      ensures r.Ok? ==> commentLikes == Likes.Toggle(old(commentLikes), id, caller, old(nextCommentLikeId), old(clock))
      ensures r.Ok? ==> nextCommentLikeId == old(nextCommentLikeId) + (if old(Likes.Exists(commentLikes, id, caller)) then 0 else 1)
      ensures r.Ok? ==> clock == old(clock) + (if old(Likes.Exists(commentLikes, id, caller)) then 0 else 1)
      ensures r.Ok? ==> posts == old(posts) && comments == old(comments) && postLikes == old(postLikes)
      ensures r.Ok? ==> nextPostId == old(nextPostId) && nextCommentId == old(nextCommentId) && nextPostLikeId == old(nextPostLikeId)
      ensures r.Ok? ==> r.value.likedByCurrentUser == !old(Likes.Exists(commentLikes, id, caller))
      ensures r.Ok? ==>
        r.value.likeCount == if old(Likes.Exists(commentLikes, id, caller)) then old(Likes.LikeCount(commentLikes, id)) - 1 else old(Likes.LikeCount(commentLikes, id)) + 1
      ensures r.Ok? ==> r.value == CommentViewOf(comments[id], commentLikes, caller)
    {
      if caller !in users || id !in comments {
        return Err(NotFound);
      }
      if !CanView(PostOf(id), caller) {
        return Err(Unauthorized);
      }
      ghost var before := Snapshot();
      ToggleCommentLikeKeeps(before, id, caller);
      Likes.ToggleCount(commentLikes, id, caller, nextCommentLikeId, clock);
      var liked := Likes.Exists(commentLikes, id, caller);
      if liked {
        commentLikes := Likes.DeletePair(commentLikes, id, caller);
      } else {
        commentLikes := Likes.Insert(commentLikes, id, caller, nextCommentLikeId, clock);
        nextCommentLikeId := nextCommentLikeId + 1;
        clock := clock + 1;
      }
      assert Snapshot() == before.(commentLikes := Likes.Toggle(before.commentLikes, id, caller, before.nextCommentLikeId, before.clock),
                                   nextCommentLikeId := if liked then before.nextCommentLikeId else before.nextCommentLikeId + 1,
                                   clock := if liked then before.clock else before.clock + 1);
      return Ok(CommentViewOf(comments[id], commentLikes, caller));
    }
}
}
