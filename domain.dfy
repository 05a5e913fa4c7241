/** The entities of the content graph and the outcome of a service call.

    Users are referenced by identifier only; who the caller is has been
    established before any operation here runs. Identifiers are the
    database's auto-increment keys and `createdAt` is a creation counter, so
    "older" means "smaller". */
module Domain {

  type UserId = nat
  type PostId = nat
  type CommentId = nat
  type LikeId = nat

  datatype Option<+T> = None | Some(value: T) {
    function GetOr(default: T): T {
      match this
      case Some(v) => v
      case None => default
    }
  }

  /** The three exceptions the services throw: ResourceNotFoundException,
      UnauthorizedException and IllegalArgumentException. */
  datatype Error = NotFound | Unauthorized | InvalidArgument

  datatype Result<+T> = Ok(value: T) | Err(error: Error)

  /** A post row. `imageUrl` is nullable, `isPublic` defaults to true. */
  datatype Post = Post(
    id: PostId,
    owner: UserId,
    content: string,
    imageUrl: Option<string>,
    isPublic: bool,
    createdAt: nat)

  /** A comment row; `parent` is None for a top-level comment. */
  datatype Comment = Comment(
    id: CommentId,
    post: PostId,
    author: UserId,
    parent: Option<CommentId>,
    content: string,
    createdAt: nat)
  {
    predicate IsReply() { parent.Some? }
  }

  /** A row of post_likes or comment_likes: `subject` is the post id or the
      comment id. A like has nothing to edit; it is only added or removed. */
  datatype Like = Like(id: LikeId, subject: nat, user: UserId, createdAt: nat)

  /** Visibility policy: a post and everything hanging off it may be read,
      liked or commented on by anyone when public, by its owner otherwise. */
  predicate CanView(p: Post, viewer: UserId) {
    p.isPublic || p.owner == viewer
  }

  /** Edit and delete are for the author only, whatever the visibility. */
  predicate CanMutate(owner: UserId, caller: UserId) {
    owner == caller
  }

  /** A public post is open to every viewer; a private one to its owner
      and to no one else. */
  lemma PrivateIsOwnerOnly(p: Post, viewer: UserId)
    ensures p.isPublic ==> CanView(p, viewer)
    ensures !p.isPublic ==> (CanView(p, viewer) <==> viewer == p.owner)
  {
  }

  /** The ownership gate ignores visibility, and whoever passes it also
      passes the view gate. */
  lemma OwnerGateIgnoresVisibility(p: Post, caller: UserId)
    ensures CanMutate(p.owner, caller) == CanMutate(p.(isPublic := !p.isPublic).owner, caller)
    ensures CanMutate(p.owner, caller) ==> CanView(p, caller) && CanView(p.(isPublic := !p.isPublic), caller)
  {
  }
}
