/** The comments table: the derived queries of CommentRepository, the
    comment count of a post, and the cascades that remove comments.

    Comments are kept in a map from id to row. Ids are issued in creation
    order and so are the `createdAt` stamps, so listing ids in increasing
    order lists comments oldest first. */
module CommentQueries {
  import opened Domain
  import opened Seqs

  /** The three list queries of the repository. */
  datatype CommentQuery =
    | TopLevelOf(post: PostId)     // post = ? and parentComment is null
    | RepliesTo(parent: CommentId) // parentComment = ?
    | AllOf(post: PostId)          // post = ?, replies included

  predicate Matches(q: CommentQuery, c: Comment) {
    match q
    case TopLevelOf(p) => c.post == p && !c.IsReply()
    case RepliesTo(k) => c.parent == Some(k)
    case AllOf(p) => c.post == p
  }

  /** Each row is stored under its own id. */
  ghost predicate WellKeyed(cs: map<CommentId, Comment>) {
    forall k | k in cs :: cs[k].id == k
  }

  /** A reply's parent is stored, is older and belongs to the same post. */
  ghost predicate ParentsOk(cs: map<CommentId, Comment>) {
    forall k | k in cs && cs[k].parent.Some? ::
      cs[k].parent.value in cs && cs[k].parent.value < k && cs[cs[k].parent.value].post == cs[k].post
  }

  /** Higher ids were created later. */
  ghost predicate CreatedInIdOrder(cs: map<CommentId, Comment>) {
    forall i, j | i in cs && j in cs && i < j :: cs[i].createdAt < cs[j].createdAt
  }

  /** The table invariant: every row references an existing post and user,
      its id and timestamp were issued before now, and parents are sound. */
  ghost predicate TableOk(cs: map<CommentId, Comment>, posts: set<PostId>, users: set<UserId>, nextId: nat, clock: nat) {
    && WellKeyed(cs)
    && (forall k | k in cs :: k < nextId && cs[k].post in posts && cs[k].author in users && cs[k].createdAt < clock)
    && ParentsOk(cs)
    && CreatedInIdOrder(cs)
  }

  /** The rows with ids in [lo, hi) that match `q`, in increasing id order. */
  function Select(cs: map<CommentId, Comment>, q: CommentQuery, lo: nat, hi: nat): seq<Comment>
    decreases hi - lo
  {
    if lo >= hi then []
    else (if lo in cs && Matches(q, cs[lo]) then [cs[lo]] else []) + Select(cs, q, lo + 1, hi)
  }

  /** A listing holds exactly the matching rows with ids in [lo, hi), each
      once, in strictly increasing id order. */
  lemma {:induction false} SelectExact(cs: map<CommentId, Comment>, q: CommentQuery, lo: nat, hi: nat)
    requires WellKeyed(cs)
    decreases hi - lo
    ensures forall c | c in Select(cs, q, lo, hi) :: lo <= c.id < hi && c.id in cs && cs[c.id] == c && Matches(q, c)
    ensures forall k | lo <= k < hi && k in cs && Matches(q, cs[k]) :: cs[k] in Select(cs, q, lo, hi)
    ensures forall i, j | 0 <= i < j < |Select(cs, q, lo, hi)| :: Select(cs, q, lo, hi)[i].id < Select(cs, q, lo, hi)[j].id
  {
    if lo < hi {
      SelectExact(cs, q, lo + 1, hi);
      var rest := Select(cs, q, lo + 1, hi);
      var r := Select(cs, q, lo, hi);
      if lo in cs && Matches(q, cs[lo]) {
        assert r == [cs[lo]] + rest;
        forall i | 0 < i < |r| ensures r[i] == rest[i - 1] && r[i] in rest {}
      } else {
        assert r == rest;
      }
    }
  }

  /** findByPostAndParentCommentIsNullOrderByCreatedAtAsc. */
  function TopLevel(cs: map<CommentId, Comment>, p: PostId, hi: nat): seq<Comment>
  {
    Select(cs, TopLevelOf(p), 0, hi)
  }

  /** findByParentCommentOrderByCreatedAtAsc. */
  function Replies(cs: map<CommentId, Comment>, parent: CommentId, hi: nat): seq<Comment>
  {
    Select(cs, RepliesTo(parent), 0, hi)
  }

  /** findByPostOrderByCreatedAtAsc. */
  function OfPost(cs: map<CommentId, Comment>, p: PostId, hi: nat): seq<Comment>
  {
    Select(cs, AllOf(p), 0, hi)
  }

  /** countByPost: the length of the all-for-post listing. */
  function CountByPost(cs: map<CommentId, Comment>, p: PostId, hi: nat): nat
  {
    |OfPost(cs, p, hi)|
  }

  /** findByPostAndParentCommentIsNull: exactly the post's comments that
      are not replies, each once, oldest first. */
  lemma TopLevelExact(cs: map<CommentId, Comment>, p: PostId, hi: nat)
    requires WellKeyed(cs) && CreatedInIdOrder(cs)
    ensures forall c | c in TopLevel(cs, p, hi) :: c.id in cs && cs[c.id] == c && c.post == p && !c.IsReply()
    ensures forall k | k < hi && k in cs && cs[k].post == p && !cs[k].IsReply() :: cs[k] in TopLevel(cs, p, hi)
    ensures OldestFirst(TopLevel(cs, p, hi))
  {
    SelectExact(cs, TopLevelOf(p), 0, hi);
    SelectOldestFirst(cs, TopLevelOf(p), 0, hi);
  }

  /** findByParentComment: exactly the direct replies of `parent`, each
      once, oldest first; replies to those replies are not among them. */
  lemma RepliesExact(cs: map<CommentId, Comment>, parent: CommentId, hi: nat)
    requires WellKeyed(cs) && CreatedInIdOrder(cs)
    ensures forall c | c in Replies(cs, parent, hi) :: c.id in cs && cs[c.id] == c && c.parent == Some(parent)
    ensures forall k | k < hi && k in cs && cs[k].parent == Some(parent) :: cs[k] in Replies(cs, parent, hi)
    ensures OldestFirst(Replies(cs, parent, hi))
  {
    SelectExact(cs, RepliesTo(parent), 0, hi);
    SelectOldestFirst(cs, RepliesTo(parent), 0, hi);
  }

  /** findByPost: exactly the post's comments, replies included, each once,
      oldest first. */
  lemma OfPostExact(cs: map<CommentId, Comment>, p: PostId, hi: nat)
    requires WellKeyed(cs) && CreatedInIdOrder(cs)
    ensures forall c | c in OfPost(cs, p, hi) :: c.id in cs && cs[c.id] == c && c.post == p
    ensures forall k | k < hi && k in cs && cs[k].post == p :: cs[k] in OfPost(cs, p, hi)
    ensures OldestFirst(OfPost(cs, p, hi))
  {
    SelectExact(cs, AllOf(p), 0, hi);
    SelectOldestFirst(cs, AllOf(p), 0, hi);
  }

  /** Comment.isReply decides where a comment is listed: a comment that is
      not a reply is in its post's top-level listing; a reply is not, and is
      in its parent's replies instead. */
  lemma IsReplyPlacesComment(cs: map<CommentId, Comment>, k: CommentId, hi: nat)
    requires WellKeyed(cs) && k in cs && k < hi
    ensures !cs[k].IsReply() ==> cs[k] in TopLevel(cs, cs[k].post, hi)
    ensures cs[k].IsReply() ==> cs[k] !in TopLevel(cs, cs[k].post, hi) && cs[k] in Replies(cs, cs[k].parent.value, hi)
  {
    SelectExact(cs, TopLevelOf(cs[k].post), 0, hi);
    if cs[k].IsReply() {
      SelectExact(cs, RepliesTo(cs[k].parent.value), 0, hi);
    }
  }

  /** The ids in the post's `comments` collection, replies included. */
  function PostCommentIds(cs: map<CommentId, Comment>, p: PostId): set<CommentId>
  {
    set k | k in cs && cs[k].post == p
  }

  /** Post.getCommentCount: the size of the post's comment collection. */
  function CommentCount(cs: map<CommentId, Comment>, p: PostId): nat {
    |PostCommentIds(cs, p)|
  }

  /** A listing is oldest first: in increasing `createdAt` order. */
  ghost predicate OldestFirst(r: seq<Comment>) {
    forall i, j | 0 <= i < j < |r| :: r[i].createdAt < r[j].createdAt
  }

  /** Every listing of the repository is oldest first. */
  lemma SelectOldestFirst(cs: map<CommentId, Comment>, q: CommentQuery, lo: nat, hi: nat)
    requires WellKeyed(cs) && CreatedInIdOrder(cs)
    ensures OldestFirst(Select(cs, q, lo, hi))
  {
    var r := Select(cs, q, lo, hi);
    SelectExact(cs, q, lo, hi);
    forall i, j | 0 <= i < j < |r| ensures r[i].createdAt < r[j].createdAt {
      assert r[i] in r && r[j] in r;
    }
  }

  function TopLevelRow(): Comment -> bool {
    (c: Comment) => !c.IsReply()
  }

  /** The top-level listing is the all-for-post listing with the replies
      taken out: a sub-sequence of it, in the same order. */
  lemma {:induction false} TopLevelWithinOfPost(cs: map<CommentId, Comment>, p: PostId, lo: nat, hi: nat)
    requires WellKeyed(cs)
    decreases hi - lo
    ensures Select(cs, TopLevelOf(p), lo, hi) == Filter(Select(cs, AllOf(p), lo, hi), TopLevelRow())
  {
    if lo < hi {
      TopLevelWithinOfPost(cs, p, lo + 1, hi);
      var rest := Select(cs, AllOf(p), lo + 1, hi);
      var top := Select(cs, TopLevelOf(p), lo + 1, hi);
      var mine := lo in cs && cs[lo].post == p;
      if mine {
        var c := cs[lo];
        assert Select(cs, AllOf(p), lo, hi) == [c] + rest;
        FilterCons(c, rest, TopLevelRow());
        assert TopLevelRow()(c) == !c.IsReply();
        assert Select(cs, TopLevelOf(p), lo, hi) == (if !c.IsReply() then [c] else []) + top;
      } else {
        assert Select(cs, AllOf(p), lo, hi) == rest;
        assert Select(cs, TopLevelOf(p), lo, hi) == top;
      }
    }
  }

  /** The ids in [lo, hi) of the comments of `p`. */
  function IdsOfPostIn(cs: map<CommentId, Comment>, p: PostId, lo: nat, hi: nat): set<CommentId> {
    set k | k in cs && lo <= k < hi && cs[k].post == p
  }

  lemma IdsOfPostInSplit(cs: map<CommentId, Comment>, p: PostId, lo: nat, hi: nat)
    requires lo < hi
    ensures |IdsOfPostIn(cs, p, lo, hi)| ==
            (if lo in cs && cs[lo].post == p then 1 else 0) + |IdsOfPostIn(cs, p, lo + 1, hi)|
  {
    var later := IdsOfPostIn(cs, p, lo + 1, hi);
    if lo in cs && cs[lo].post == p {
      assert IdsOfPostIn(cs, p, lo, hi) == {lo} + later;
    } else {
      assert IdsOfPostIn(cs, p, lo, hi) == later;
    }
  }

  /** The all-for-post listing of ids [lo, hi) has one entry per comment of
      the post in that range. */
  lemma {:induction false} SelectCount(cs: map<CommentId, Comment>, p: PostId, lo: nat, hi: nat)
    requires WellKeyed(cs)
    decreases hi - lo
    ensures |Select(cs, AllOf(p), lo, hi)| == |IdsOfPostIn(cs, p, lo, hi)|
  {
    if lo >= hi {
      assert IdsOfPostIn(cs, p, lo, hi) == {};
    } else {
      SelectCount(cs, p, lo + 1, hi);
      IdsOfPostInSplit(cs, p, lo, hi);
      var mine := lo in cs && cs[lo].post == p;
      assert Select(cs, AllOf(p), lo, hi) == (if mine then [cs[lo]] else []) + Select(cs, AllOf(p), lo + 1, hi);
    }
  }

  /** countByPost agrees with Post.getCommentCount once every id is below
      `hi`: both count every comment of the post, replies included. */
  lemma CountByPostIsCommentCount(cs: map<CommentId, Comment>, p: PostId, hi: nat)
    requires WellKeyed(cs)
    requires forall k | k in cs :: k < hi
    ensures CountByPost(cs, p, hi) == CommentCount(cs, p)
  {
    SelectCount(cs, p, 0, hi);
    assert IdsOfPostIn(cs, p, 0, hi) == PostCommentIds(cs, p);
  }

  // ---------------------------------------------------------------------
  // Saving and editing rows

  /** A new row with the next id and the current time whose parent, if
      any, is a stored comment of the same post keeps the table sound. */
  lemma AddKeepsTable(cs: map<CommentId, Comment>, posts: set<PostId>, users: set<UserId>, nextId: nat, clock: nat, c: Comment)
    requires TableOk(cs, posts, users, nextId, clock)
    requires c.id == nextId && c.createdAt == clock && c.post in posts && c.author in users
    requires c.parent.Some? ==> c.parent.value in cs && cs[c.parent.value].post == c.post
    ensures TableOk(cs[c.id := c], posts, users, nextId + 1, clock + 1)
  {
  }

  /** The table stays sound when more posts exist and the counters have
      moved on. */
  lemma TableGrows(cs: map<CommentId, Comment>, posts: set<PostId>, posts': set<PostId>, users: set<UserId>, nextId: nat, nextId': nat, clock: nat, clock': nat)
    requires TableOk(cs, posts, users, nextId, clock)
    requires posts <= posts' && nextId <= nextId' && clock <= clock'
    ensures TableOk(cs, posts', users, nextId', clock')
  {
  }

  /** Changing the content of a row keeps the table sound. */
  lemma EditKeepsTable(cs: map<CommentId, Comment>, posts: set<PostId>, users: set<UserId>, nextId: nat, clock: nat, k: CommentId, content: string)
    requires TableOk(cs, posts, users, nextId, clock) && k in cs
    ensures TableOk(cs[k := cs[k].(content := content)], posts, users, nextId, clock)
  {
  }

  // ---------------------------------------------------------------------
  // Cascades

  /** `k` is `root` or a reply, at any depth, under `root`. The walk goes up
      the parent links; parents have smaller ids, which bounds it. */
  predicate InSubtree(cs: map<CommentId, Comment>, k: CommentId, root: CommentId)
    decreases k
  {
    k == root ||
    (k in cs && cs[k].parent.Some? && cs[k].parent.value < k && InSubtree(cs, cs[k].parent.value, root))
  }

  /** Deleting a comment: its replies go with it, transitively (cascade ALL
      with orphan removal on `replies`). */
  function RemoveSubtree(cs: map<CommentId, Comment>, root: CommentId): (r: map<CommentId, Comment>)
    ensures root !in r
    ensures forall k | k in r :: k in cs && r[k] == cs[k]
  {
    map k | k in cs && !InSubtree(cs, k, root) :: cs[k]
  }

  /** What the comment cascade removes is exactly the root and everything
      below it: the replies of a removed comment are removed, every removed
      comment is the root or a reply to a removed comment, and no reply is
      left whose parent is gone. */
  lemma RemoveSubtreeIsCascade(cs: map<CommentId, Comment>, root: CommentId)
    requires ParentsOk(cs)
    ensures var r := RemoveSubtree(cs, root);
      && (forall k | k in cs && cs[k].parent.Some? && cs[k].parent.value !in r :: k !in r)
      && (forall k | k in cs && k !in r :: k == root || (cs[k].parent.Some? && cs[k].parent.value !in r))
      && ParentsOk(r)
  {
    var r := RemoveSubtree(cs, root);
    forall k | k in cs && cs[k].parent.Some? && cs[k].parent.value !in r ensures k !in r {
      assert InSubtree(cs, cs[k].parent.value, root);
    }
    forall k | k in cs && k !in r ensures k == root || (cs[k].parent.Some? && cs[k].parent.value !in r) {
      assert InSubtree(cs, k, root);
    }
    forall k | k in r && r[k].parent.Some?
      ensures r[k].parent.value in r && r[k].parent.value < k && r[r[k].parent.value].post == r[k].post
    {
      var p := cs[k].parent.value;
    }
  }

  /** Deleting a comment keeps the table sound. */
  lemma RemoveSubtreeKeepsTable(cs: map<CommentId, Comment>, posts: set<PostId>, users: set<UserId>, nextId: nat, clock: nat, root: CommentId)
    requires TableOk(cs, posts, users, nextId, clock)
    ensures TableOk(RemoveSubtree(cs, root), posts, users, nextId, clock)
  {
    RemoveSubtreeIsCascade(cs, root);
  }

  /** Deleting a post: all of its comments go, replies included (cascade ALL
      with orphan removal on the post's `comments`). */
  function RemovePostComments(cs: map<CommentId, Comment>, p: PostId): (r: map<CommentId, Comment>)
    ensures forall k | k in r :: k in cs && r[k] == cs[k] && r[k].post != p
    ensures forall k | k in cs && cs[k].post != p :: k in r
  {
    map k | k in cs && cs[k].post != p :: cs[k]
  }

  /** Deleting a post leaves the comments of the other posts sound and
      referencing only the posts that remain. */
  lemma RemovePostCommentsKeepsTable(cs: map<CommentId, Comment>, posts: set<PostId>, users: set<UserId>, nextId: nat, clock: nat, p: PostId)
    requires TableOk(cs, posts, users, nextId, clock)
    ensures TableOk(RemovePostComments(cs, p), posts - {p}, users, nextId, clock)
  {
  }
}
