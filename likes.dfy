/** A like table: the rows of post_likes or of comment_likes, in insertion
    order, with the lookups of PostLikeRepository / CommentLikeRepository and
    the toggle both services perform. The two tables have the same shape
    (id, subject, user, createdAt) and the same unique key (subject, user),
    so one definition serves both. */
module Likes {
  import opened Domain
  import opened Seqs

  /** Does the row record `u` liking subject `s`? */
  predicate Is(l: Like, s: nat, u: UserId) {
    l.subject == s && l.user == u
  }

  /** The unique constraint on (subject, user): no two rows share it. */
  ghost predicate Unique(t: seq<Like>) {
    forall i, j | 0 <= i < j < |t| :: !(t[i].subject == t[j].subject && t[i].user == t[j].user)
  }

  /** The primary key: no two rows share an id. */
  ghost predicate DistinctIds(t: seq<Like>) {
    forall i, j | 0 <= i < j < |t| :: t[i].id != t[j].id
  }

  /** The table invariant: both keys hold, every row references an existing
      subject and user, and ids and timestamps were issued before now. */
  ghost predicate TableOk(t: seq<Like>, subjects: set<nat>, users: set<UserId>, nextId: nat, clock: nat) {
    && Unique(t)
    && DistinctIds(t)
    && forall l | l in t :: l.subject in subjects && l.user in users && l.id < nextId && l.createdAt < clock
  }

  // Row selectors, named so that every use denotes the same function.
  function OfSubject(s: nat): Like -> bool { (l: Like) => l.subject == s }
  function NotPair(s: nat, u: UserId): Like -> bool { (l: Like) => !Is(l, s, u) }
  function SubjectIn(keep: set<nat>): Like -> bool { (l: Like) => l.subject in keep }

  /** findByCommentAndUser / findByPostAndUser. */
  function Find(t: seq<Like>, s: nat, u: UserId): (r: Option<Like>)
    ensures r.Some? ==> r.value in t && Is(r.value, s, u)
    ensures r.None? ==> forall l | l in t :: !Is(l, s, u)
  {
    if t == [] then None
    else if Is(t[0], s, u) then Some(t[0])
    else Find(t[1..], s, u)
  }

  /** Under the unique constraint there is at most one row for (s, u), and
      Find returns it. */
  lemma {:induction false} FindIsTheOnlyRow(t: seq<Like>, s: nat, u: UserId, l: Like)
    requires Unique(t)
    requires l in t && Is(l, s, u)
    ensures Find(t, s, u) == Some(l)
  {
    var k :| 0 <= k < |t| && t[k] == l;
    if !Is(t[0], s, u) {
      assert t[1..][k - 1] == l;
      assert Unique(t[1..]) by {
        forall i, j | 0 <= i < j < |t[1..]|
          ensures !(t[1..][i].subject == t[1..][j].subject && t[1..][i].user == t[1..][j].user)
        {
          assert t[1..][i] == t[i + 1] && t[1..][j] == t[j + 1];
        }
      }
      FindIsTheOnlyRow(t[1..], s, u, l);
    }
  }

  /** existsByCommentAndUser / existsByPostAndUser. */
  function Exists(t: seq<Like>, s: nat, u: UserId): (b: bool)
    ensures b <==> exists l :: l in t && Is(l, s, u)
  {
    Find(t, s, u).Some?
  }

  /** findByComment / findByPost: the subject's rows in table order. */
  function OnSubject(t: seq<Like>, s: nat): (r: seq<Like>)
    ensures forall l | l in r :: l in t && l.subject == s
    ensures forall l | l in t && l.subject == s :: l in r
  {
    Filter(t, OfSubject(s))
  }

  /** Comment.getLikeCount / Post.getLikeCount: the size of the subject's
      like collection. */
  function LikeCount(t: seq<Like>, s: nat): nat {
    |OnSubject(t, s)|
  }

  /** The users who like `s`, as a set. */
  function LikerSet(t: seq<Like>, s: nat): set<UserId> {
    set l | l in t && l.subject == s :: l.user
  }

  /** The `likedBy` list of a response: one user per like row of `s`. */
  function Likers(t: seq<Like>, s: nat): (r: seq<UserId>)
    ensures |r| == LikeCount(t, s)
    ensures forall u :: u in r <==> Exists(t, s, u)
  {
    var rows := OnSubject(t, s);
    var r := seq(|rows|, i requires 0 <= i < |rows| => rows[i].user);
    assert forall u | u in r :: Exists(t, s, u) by {
      forall u | u in r ensures Exists(t, s, u) {
        var i :| 0 <= i < |r| && r[i] == u;
        assert rows[i] in rows;
      }
    }
    assert forall u | Exists(t, s, u) :: u in r by {
      forall u | Exists(t, s, u) ensures u in r {
        var l :| l in t && Is(l, s, u);
        assert l in rows;
        var i :| 0 <= i < |rows| && rows[i] == l;
        assert r[i] == u;
      }
    }
    r
  }

  /** Under the unique constraint the like count is the number of distinct
      users who like the subject. */
  lemma {:induction false} LikeCountIsLikers(t: seq<Like>, s: nat)
    requires Unique(t)
    ensures LikeCount(t, s) == |LikerSet(t, s)|
  {
    if t != [] {
      var h, rest := t[0], t[1..];
      assert t == [h] + rest;
      UniqueTail(t);
      HeadDiffers(t);
      LikeCountIsLikers(rest, s);
      FilterCons(h, rest, OfSubject(s));
      LikerSetCons(h, rest, s);
    }
  }

  /** The first row's keys differ from those of every later row. */
  lemma HeadDiffers(t: seq<Like>)
    requires |t| > 0
    ensures Unique(t) ==> forall l | l in t[1..] :: !(l.subject == t[0].subject && l.user == t[0].user)
    ensures DistinctIds(t) ==> forall l | l in t[1..] :: l.id != t[0].id
  {
    forall l | l in t[1..] ensures t[1..][IndexOf(t[1..], l)] == t[IndexOf(t[1..], l) + 1] == l {}
  }

  function IndexOf(t: seq<Like>, l: Like): (k: nat)
    requires l in t
    ensures k < |t| && t[k] == l
  {
    if t[0] == l then 0 else 1 + IndexOf(t[1..], l)
  }

  lemma LikerSetCons(h: Like, rest: seq<Like>, s: nat)
    ensures LikerSet([h] + rest, s) == (if h.subject == s then {h.user} else {}) + LikerSet(rest, s)
  {
    assert forall l :: l in [h] + rest <==> l == h || l in rest;
  }

  /** The tail of a table keeps both keys. */
  lemma UniqueTail(t: seq<Like>)
    requires |t| > 0
    ensures Unique(t) ==> Unique(t[1..])
    ensures DistinctIds(t) ==> DistinctIds(t[1..])
  {
    forall i, j | 0 <= i < j < |t[1..]| ensures t[1..][i] == t[i + 1] && t[1..][j] == t[j + 1] {}
  }

  /** A row whose key differs from every row of a consistent table can be
      put in front of it. */
  lemma UniqueCons(h: Like, f: seq<Like>)
    requires Unique(f)
    requires forall l | l in f :: !(l.subject == h.subject && l.user == h.user)
    ensures Unique([h] + f)
  {
    var r := [h] + f;
    forall i, j | 0 <= i < j < |r| ensures !(r[i].subject == r[j].subject && r[i].user == r[j].user) {
      assert r[j] == f[j - 1];
      if i > 0 { assert r[i] == f[i - 1]; } else { assert f[j - 1] in f; }
    }
  }

  lemma DistinctIdsCons(h: Like, f: seq<Like>)
    requires DistinctIds(f)
    requires forall l | l in f :: l.id != h.id
    ensures DistinctIds([h] + f)
  {
    var r := [h] + f;
    forall i, j | 0 <= i < j < |r| ensures r[i].id != r[j].id {
      assert r[j] == f[j - 1];
      if i > 0 { assert r[i] == f[i - 1]; } else { assert f[j - 1] in f; }
    }
  }

  /** Removing rows keeps the unique constraint. */
  lemma {:induction false} FilterKeepsUnique(t: seq<Like>, keep: Like -> bool)
    requires Unique(t)
    ensures Unique(Filter(t, keep))
  {
    if t != [] {
      var h, rest := t[0], t[1..];
      UniqueTail(t);
      FilterKeepsUnique(rest, keep);
      if keep(h) {
        HeadDiffers(t);
        UniqueCons(h, Filter(rest, keep));
      }
    }
  }

  /** Removing rows keeps the primary key. */
  lemma {:induction false} FilterKeepsDistinctIds(t: seq<Like>, keep: Like -> bool)
    requires DistinctIds(t)
    ensures DistinctIds(Filter(t, keep))
  {
    if t != [] {
      var h, rest := t[0], t[1..];
      UniqueTail(t);
      FilterKeepsDistinctIds(rest, keep);
      if keep(h) {
        HeadDiffers(t);
        DistinctIdsCons(h, Filter(rest, keep));
      }
    }
  }

  /** deleteByCommentAndUser / deleteByPostAndUser. */
  function DeletePair(t: seq<Like>, s: nat, u: UserId): (r: seq<Like>)
    ensures !Exists(r, s, u)
    ensures forall l | l in t && !Is(l, s, u) :: l in r
    ensures forall l | l in r :: l in t
  {
    Filter(t, NotPair(s, u))
  }

  /** The cascade from deleted posts or comments: the rows whose subject
      survives. */
  function Restrict(t: seq<Like>, keep: set<nat>): (r: seq<Like>)
    ensures forall l | l in r :: l in t && l.subject in keep
    ensures forall l | l in t && l.subject in keep :: l in r
  {
    Filter(t, SubjectIn(keep))
  }

  /** Likes of the deleted subjects go, and the table stays consistent with
      what is left. */
  lemma RestrictKeepsTable(t: seq<Like>, subjects: set<nat>, keep: set<nat>, users: set<UserId>, nextId: nat, clock: nat)
    requires TableOk(t, subjects, users, nextId, clock)
    ensures TableOk(Restrict(t, keep), subjects * keep, users, nextId, clock)
  {
    FilterKeepsUnique(t, SubjectIn(keep));
    FilterKeepsDistinctIds(t, SubjectIn(keep));
  }

  /** A subject no row refers to has no likes and no likers. */
  lemma NoLikesOn(t: seq<Like>, s: nat)
    requires forall l | l in t :: l.subject != s
    ensures LikeCount(t, s) == 0 && Likers(t, s) == []
    ensures forall u :: !Exists(t, s, u)
  {
    FilterNone(t, OfSubject(s));
  }

  /** Removing the like of (s, u) keeps the table consistent. */
  lemma DeletePairKeepsTable(t: seq<Like>, subjects: set<nat>, users: set<UserId>, nextId: nat, clock: nat, s: nat, u: UserId)
    requires TableOk(t, subjects, users, nextId, clock)
    ensures TableOk(DeletePair(t, s, u), subjects, users, nextId, clock)
  {
    FilterKeepsUnique(t, NotPair(s, u));
    FilterKeepsDistinctIds(t, NotPair(s, u));
  }

  /** The table stays consistent when more subjects exist and the counters
      have moved on. */
  lemma TableGrows(t: seq<Like>, subjects: set<nat>, subjects': set<nat>, users: set<UserId>, nextId: nat, nextId': nat, clock: nat, clock': nat)
    requires TableOk(t, subjects, users, nextId, clock)
    requires subjects <= subjects' && nextId <= nextId' && clock <= clock'
    ensures TableOk(t, subjects', users, nextId', clock')
  {
  }

  /** The save of a new like row (the inherited JpaRepository.save). */
  function Insert(t: seq<Like>, s: nat, u: UserId, id: LikeId, at: nat): seq<Like> {
    t + [Like(id, s, u, at)]
  }

  /** A save adds exactly the liked state of (s, u): every other pair keeps
      its state, the subject's count grows by one and every other subject's
      count stays. */
  lemma InsertAdds(t: seq<Like>, s: nat, u: UserId, id: LikeId, at: nat)
    ensures forall s', u' :: Exists(Insert(t, s, u, id, at), s', u') <==> Exists(t, s', u') || (s' == s && u' == u)
    ensures LikeCount(Insert(t, s, u, id, at), s) == LikeCount(t, s) + 1
    ensures forall s' | s' != s :: LikeCount(Insert(t, s, u, id, at), s') == LikeCount(t, s')
  {
    var l := Like(id, s, u, at);
    assert l in Insert(t, s, u, id, at);
    forall s' ensures |Filter(Insert(t, s, u, id, at), OfSubject(s'))| == |Filter(t, OfSubject(s'))| + (if s' == s then 1 else 0) {
      FilterAppend(t, [l], OfSubject(s'));
      FilterCons(l, [], OfSubject(s'));
    }
  }

  /** The toggle of both services: remove the caller's like if it exists,
      otherwise add exactly one. The liked flag flips, every other
      (subject, user) pair keeps its state, and no row is ever edited. */
  function Toggle(t: seq<Like>, s: nat, u: UserId, id: LikeId, at: nat): (r: seq<Like>)
    ensures Exists(r, s, u) == !Exists(t, s, u)
    ensures forall s', u' | !(s' == s && u' == u) :: Exists(r, s', u') == Exists(t, s', u')
    ensures forall l | l in r :: l in t || l == Like(id, s, u, at)
  {
    if Exists(t, s, u) then DeletePair(t, s, u)
    else
      var r := Insert(t, s, u, id, at);
      assert Like(id, s, u, at) in r;
      r
  }

  /** A toggle with a fresh id and timestamp keeps the table consistent:
      in particular it never creates a second like for (s, u). */
  lemma ToggleKeepsTable(t: seq<Like>, subjects: set<nat>, users: set<UserId>, nextId: nat, clock: nat, s: nat, u: UserId)
    requires TableOk(t, subjects, users, nextId, clock)
    requires s in subjects && u in users
    ensures TableOk(Toggle(t, s, u, nextId, clock), subjects, users, nextId + 1, clock + 1)
  {
    if Exists(t, s, u) {
      FilterKeepsUnique(t, NotPair(s, u));
      FilterKeepsDistinctIds(t, NotPair(s, u));
    } else {
      var r := Toggle(t, s, u, nextId, clock);
      assert r == t + [Like(nextId, s, u, clock)];
      forall i, j | 0 <= i < j < |r|
        ensures !(r[i].subject == r[j].subject && r[i].user == r[j].user) && r[i].id != r[j].id
      {
        assert r[i] == t[i] && r[i] in t;
        if j == |t| {
          assert !Is(t[i], s, u);
        } else {
          assert r[j] == t[j];
        }
      }
    }
  }

  /** Deleting the one row of (s, u) lowers the subject's count by one. */
  lemma {:induction false} DeletePairCount(t: seq<Like>, s: nat, u: UserId)
    requires Unique(t) && Exists(t, s, u)
    ensures LikeCount(DeletePair(t, s, u), s) + 1 == LikeCount(t, s)
  {
    var h, rest := t[0], t[1..];
    assert t == [h] + rest;
    assert OnSubject(t, s) == (if h.subject == s then [h] else []) + OnSubject(rest, s) by {
      FilterCons(h, rest, OfSubject(s));
    }
    if Is(h, s, u) {
      assert DeletePair(t, s, u) == rest by {
        HeadDiffers(t);
        assert forall l | l in rest :: NotPair(s, u)(l);
        FilterAll(rest, NotPair(s, u));
        FilterCons(h, rest, NotPair(s, u));
      }
    } else {
      var d := DeletePair(rest, s, u);
      assert LikeCount(d, s) + 1 == LikeCount(rest, s) by {
        UniqueTail(t);
        assert Exists(rest, s, u) by {
          var l :| l in t && Is(l, s, u);
          assert l in rest;
        }
        DeletePairCount(rest, s, u);
      }
      assert DeletePair(t, s, u) == [h] + d by {
        FilterCons(h, rest, NotPair(s, u));
      }
      assert OnSubject([h] + d, s) == (if h.subject == s then [h] else []) + OnSubject(d, s) by {
        FilterCons(h, d, OfSubject(s));
      }
    }
  }

  /** The count a toggle reports: one less after an unlike, one more after
      a like. */
  lemma ToggleCount(t: seq<Like>, s: nat, u: UserId, id: LikeId, at: nat)
    requires Unique(t)
    ensures LikeCount(Toggle(t, s, u, id, at), s) ==
            if Exists(t, s, u) then LikeCount(t, s) - 1 else LikeCount(t, s) + 1
  {
    if Exists(t, s, u) {
      DeletePairCount(t, s, u);
    } else {
      FilterAppend(t, [Like(id, s, u, at)], OfSubject(s));
    }
  }

  /** Two successive toggles by the same user restore the liked state of
      every pair and the subject's count; starting from "not liked" they
      restore the table exactly, and starting from "liked" the old row is
      replaced by a new one at the end of the table. */
  lemma ToggleTwice(t: seq<Like>, s: nat, u: UserId, id1: LikeId, at1: nat, id2: LikeId, at2: nat)
    requires Unique(t)
    ensures var t2 := Toggle(Toggle(t, s, u, id1, at1), s, u, id2, at2);
      && (forall s', u' :: Exists(t2, s', u') == Exists(t, s', u'))
      && LikeCount(t2, s) == LikeCount(t, s)
      && (!Exists(t, s, u) ==> t2 == t)
      && (Exists(t, s, u) ==> t2 == DeletePair(t, s, u) + [Like(id2, s, u, at2)])
  {
    var t1 := Toggle(t, s, u, id1, at1);
    ToggleCount(t, s, u, id1, at1);
    if Exists(t, s, u) {
      FilterKeepsUnique(t, NotPair(s, u));
    } else {
      assert t1 == t + [Like(id1, s, u, at1)];
      assert Unique(t1) by {
        forall i, j | 0 <= i < j < |t1|
          ensures !(t1[i].subject == t1[j].subject && t1[i].user == t1[j].user)
        {
          assert t1[i] == t[i] && t[i] in t;
          if j < |t| { assert t1[j] == t[j]; }
        }
      }
      forall l | l in t ensures NotPair(s, u)(l) {}
      FilterAll(t, NotPair(s, u));
      FilterAppend(t, [Like(id1, s, u, at1)], NotPair(s, u));
    }
    ToggleCount(t1, s, u, id2, at2);
  }
}
