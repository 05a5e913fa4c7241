/** The consistency of the whole store, and the proof that each write of
    the services keeps it: no row references a post, comment or user that
    does not exist, ids and timestamps come from their counters, and each
    like table holds at most one like per (subject, user). */
module StoreInvariants {
  import opened Domain
  import Likes
  import CommentQueries
  import PostQueries

  /** A snapshot of every table and counter of the store. */
  datatype Tables = Tables(
    users: set<UserId>,
    posts: map<PostId, Post>,
    comments: map<CommentId, Comment>,
    postLikes: seq<Like>,
    commentLikes: seq<Like>,
    nextPostId: nat,
    nextCommentId: nat,
    nextPostLikeId: nat,
    nextCommentLikeId: nat,
    clock: nat)

  ghost predicate StoreOk(t: Tables) {
    && PostQueries.TableOk(t.posts, t.users, t.nextPostId, t.clock)
    && CommentQueries.TableOk(t.comments, t.posts.Keys, t.users, t.nextCommentId, t.clock)
    && Likes.TableOk(t.postLikes, t.posts.Keys, t.users, t.nextPostLikeId, t.clock)
    && Likes.TableOk(t.commentLikes, t.comments.Keys, t.users, t.nextCommentLikeId, t.clock)
  }

  /** The next post id and the next comment id are unused, and so no like
      refers to them. */
  lemma FreshIdsUnused(t: Tables)
    requires StoreOk(t)
    ensures t.nextPostId !in t.posts && t.nextCommentId !in t.comments
    ensures forall l | l in t.postLikes :: l.subject != t.nextPostId
    ensures forall l | l in t.commentLikes :: l.subject != t.nextCommentId
    ensures forall k | k in t.comments :: t.comments[k].post != t.nextPostId
  {
  }

  /** createPost: saving a new post with the next id and the current time. */
  lemma AddPostKeeps(t: Tables, p: Post)
    requires StoreOk(t)
    requires p.id == t.nextPostId && p.createdAt == t.clock && p.owner in t.users
    ensures StoreOk(t.(posts := t.posts[p.id := p], nextPostId := t.nextPostId + 1, clock := t.clock + 1))
  {
    var keys := t.posts[p.id := p].Keys;
    PostQueries.AddKeepsTable(t.posts, t.users, t.nextPostId, t.clock, p);
    CommentQueries.TableGrows(t.comments, t.posts.Keys, keys, t.users, t.nextCommentId, t.nextCommentId, t.clock, t.clock + 1);
    Likes.TableGrows(t.postLikes, t.posts.Keys, keys, t.users, t.nextPostLikeId, t.nextPostLikeId, t.clock, t.clock + 1);
    Likes.TableGrows(t.commentLikes, t.comments.Keys, t.comments.Keys, t.users, t.nextCommentLikeId, t.nextCommentLikeId, t.clock, t.clock + 1);
  }

  /** updatePost: rewriting a post's content, image or visibility. */
  lemma EditPostKeeps(t: Tables, p: Post)
    requires StoreOk(t) && p.id in t.posts
    requires p.owner == t.posts[p.id].owner && p.createdAt == t.posts[p.id].createdAt
    ensures StoreOk(t.(posts := t.posts[p.id := p]))
  {
    assert t.posts[p.id := p].Keys == t.posts.Keys;
    PostQueries.EditKeepsTable(t.posts, t.users, t.nextPostId, t.clock, p.id, p);
  }

  /** deletePost: the post goes, with its comments and every like on the
      post or on one of those comments. */
  lemma DeletePostKeeps(t: Tables, id: PostId)
    requires StoreOk(t)
    ensures var posts := t.posts - {id};
            var comments := CommentQueries.RemovePostComments(t.comments, id);
      StoreOk(t.(posts := posts, comments := comments,
                 postLikes := Likes.Restrict(t.postLikes, posts.Keys),
                 commentLikes := Likes.Restrict(t.commentLikes, comments.Keys)))
  {
    var posts := t.posts - {id};
    var comments := CommentQueries.RemovePostComments(t.comments, id);
    assert posts.Keys == t.posts.Keys - {id};
    assert t.posts.Keys * posts.Keys == posts.Keys;
    assert t.comments.Keys * comments.Keys == comments.Keys;
    PostQueries.RemoveKeepsTable(t.posts, t.users, t.nextPostId, t.clock, id);
    CommentQueries.RemovePostCommentsKeepsTable(t.comments, t.posts.Keys, t.users, t.nextCommentId, t.clock, id);
    Likes.RestrictKeepsTable(t.postLikes, t.posts.Keys, posts.Keys, t.users, t.nextPostLikeId, t.clock);
    Likes.RestrictKeepsTable(t.commentLikes, t.comments.Keys, comments.Keys, t.users, t.nextCommentLikeId, t.clock);
  }

  /** createComment and replyToComment: saving a new comment whose parent,
      if any, is a stored comment of the same post. */
  lemma AddCommentKeeps(t: Tables, c: Comment)
    requires StoreOk(t)
    requires c.id == t.nextCommentId && c.createdAt == t.clock && c.post in t.posts && c.author in t.users
    requires c.parent.Some? ==> c.parent.value in t.comments && t.comments[c.parent.value].post == c.post
    ensures StoreOk(t.(comments := t.comments[c.id := c], nextCommentId := t.nextCommentId + 1, clock := t.clock + 1))
  {
    var keys := t.comments[c.id := c].Keys;
    CommentQueries.AddKeepsTable(t.comments, t.posts.Keys, t.users, t.nextCommentId, t.clock, c);
    PostQueries.TableGrows(t.posts, t.users, t.nextPostId, t.nextPostId, t.clock, t.clock + 1);
    Likes.TableGrows(t.postLikes, t.posts.Keys, t.posts.Keys, t.users, t.nextPostLikeId, t.nextPostLikeId, t.clock, t.clock + 1);
    Likes.TableGrows(t.commentLikes, t.comments.Keys, keys, t.users, t.nextCommentLikeId, t.nextCommentLikeId, t.clock, t.clock + 1);
  }

  /** updateComment: rewriting a comment's content. */
  lemma EditCommentKeeps(t: Tables, k: CommentId, content: string)
    requires StoreOk(t) && k in t.comments
    ensures StoreOk(t.(comments := t.comments[k := t.comments[k].(content := content)]))
  {
    assert t.comments[k := t.comments[k].(content := content)].Keys == t.comments.Keys;
    CommentQueries.EditKeepsTable(t.comments, t.posts.Keys, t.users, t.nextCommentId, t.clock, k, content);
  }

  /** deleteComment: the comment goes, with its replies at every depth and
      every like on any of them. */
  lemma DeleteCommentKeeps(t: Tables, root: CommentId)
    requires StoreOk(t)
    ensures var comments := CommentQueries.RemoveSubtree(t.comments, root);
      StoreOk(t.(comments := comments, commentLikes := Likes.Restrict(t.commentLikes, comments.Keys)))
  {
    var comments := CommentQueries.RemoveSubtree(t.comments, root);
    assert t.comments.Keys * comments.Keys == comments.Keys;
    CommentQueries.RemoveSubtreeKeepsTable(t.comments, t.posts.Keys, t.users, t.nextCommentId, t.clock, root);
    Likes.RestrictKeepsTable(t.commentLikes, t.comments.Keys, comments.Keys, t.users, t.nextCommentLikeId, t.clock);
  }

  /** The like toggle on a post: an unlike uses no id and no time; a like
      takes the next id and the current time. */
  lemma TogglePostLikeKeeps(t: Tables, s: PostId, u: UserId)
    requires StoreOk(t) && s in t.posts && u in t.users
    ensures var liked := Likes.Exists(t.postLikes, s, u);
      StoreOk(t.(postLikes := Likes.Toggle(t.postLikes, s, u, t.nextPostLikeId, t.clock),
                 nextPostLikeId := if liked then t.nextPostLikeId else t.nextPostLikeId + 1,
                 clock := if liked then t.clock else t.clock + 1))
  {
    if Likes.Exists(t.postLikes, s, u) {
      Likes.DeletePairKeepsTable(t.postLikes, t.posts.Keys, t.users, t.nextPostLikeId, t.clock, s, u);
    } else {
      Likes.ToggleKeepsTable(t.postLikes, t.posts.Keys, t.users, t.nextPostLikeId, t.clock, s, u);
      PostQueries.TableGrows(t.posts, t.users, t.nextPostId, t.nextPostId, t.clock, t.clock + 1);
      CommentQueries.TableGrows(t.comments, t.posts.Keys, t.posts.Keys, t.users, t.nextCommentId, t.nextCommentId, t.clock, t.clock + 1);
      Likes.TableGrows(t.commentLikes, t.comments.Keys, t.comments.Keys, t.users, t.nextCommentLikeId, t.nextCommentLikeId, t.clock, t.clock + 1);
    }
  }

  /** The like toggle on a comment, likewise. */
  lemma ToggleCommentLikeKeeps(t: Tables, s: CommentId, u: UserId)
    requires StoreOk(t) && s in t.comments && u in t.users
    ensures var liked := Likes.Exists(t.commentLikes, s, u);
      StoreOk(t.(commentLikes := Likes.Toggle(t.commentLikes, s, u, t.nextCommentLikeId, t.clock),
                 nextCommentLikeId := if liked then t.nextCommentLikeId else t.nextCommentLikeId + 1,
                 clock := if liked then t.clock else t.clock + 1))
  {
    if Likes.Exists(t.commentLikes, s, u) {
      Likes.DeletePairKeepsTable(t.commentLikes, t.comments.Keys, t.users, t.nextCommentLikeId, t.clock, s, u);
    } else {
      Likes.ToggleKeepsTable(t.commentLikes, t.comments.Keys, t.users, t.nextCommentLikeId, t.clock, s, u);
      PostQueries.TableGrows(t.posts, t.users, t.nextPostId, t.nextPostId, t.clock, t.clock + 1);
      CommentQueries.TableGrows(t.comments, t.posts.Keys, t.posts.Keys, t.users, t.nextCommentId, t.nextCommentId, t.clock, t.clock + 1);
      Likes.TableGrows(t.postLikes, t.posts.Keys, t.posts.Keys, t.users, t.nextPostLikeId, t.nextPostLikeId, t.clock, t.clock + 1);
    }
  }
}
