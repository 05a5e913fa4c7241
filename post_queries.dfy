/** The posts table: the three listings of PostRepository, Spring's
    page-by-(page, size) slicing, and the saves that change rows.

    Posts are kept in a map from id to row. Ids are issued in creation order
    and so are the `createdAt` stamps, so listing ids in decreasing order
    lists posts newest first. */
module PostQueries {
  import opened Domain
  import opened Seqs

  /** The three listings of the repository. */
  datatype PostQuery =
    | VisibleTo(viewer: UserId) // isPublic = true or user.id = viewer
    | OwnedBy(owner: UserId)    // user = owner, private posts included
    | PublicOnly                // isPublic = true

  predicate Matches(q: PostQuery, p: Post) {
    match q
    case VisibleTo(u) => CanView(p, u)
    case OwnedBy(u) => p.owner == u
    case PublicOnly => p.isPublic
  }

  /** Each row is stored under its own id. */
  ghost predicate WellKeyed(ps: map<PostId, Post>) {
    forall k | k in ps :: ps[k].id == k
  }

  /** Higher ids were created later. */
  ghost predicate CreatedInIdOrder(ps: map<PostId, Post>) {
    forall i, j | i in ps && j in ps && i < j :: ps[i].createdAt < ps[j].createdAt
  }

  /** The table invariant: every row has an existing owner, and its id and
      timestamp were issued before now. */
  ghost predicate TableOk(ps: map<PostId, Post>, users: set<UserId>, nextId: nat, clock: nat) {
    && WellKeyed(ps)
    && (forall k | k in ps :: k < nextId && ps[k].owner in users && ps[k].createdAt < clock)
    && CreatedInIdOrder(ps)
  }

  /** The rows with ids below `hi` that match `q`, in decreasing id order. */
  function NewestFirst(ps: map<PostId, Post>, q: PostQuery, hi: nat): seq<Post> {
    if hi == 0 then []
    else (if hi - 1 in ps && Matches(q, ps[hi - 1]) then [ps[hi - 1]] else []) + NewestFirst(ps, q, hi - 1)
  }

  /** Unfolding a listing by its newest candidate id. */
  lemma NewestFirstStep(ps: map<PostId, Post>, q: PostQuery, hi: nat)
    requires hi > 0
    ensures hi - 1 in ps && Matches(q, ps[hi - 1]) ==> NewestFirst(ps, q, hi) == [ps[hi - 1]] + NewestFirst(ps, q, hi - 1)
    ensures !(hi - 1 in ps && Matches(q, ps[hi - 1])) ==> NewestFirst(ps, q, hi) == NewestFirst(ps, q, hi - 1)
  {
    assert [] + NewestFirst(ps, q, hi - 1) == NewestFirst(ps, q, hi - 1);
  }

  /** A listing holds only matching rows with ids below `hi`. */
  lemma {:induction false} NewestFirstSound(ps: map<PostId, Post>, q: PostQuery, hi: nat)
    requires WellKeyed(ps)
    ensures forall p | p in NewestFirst(ps, q, hi) :: p.id < hi && p.id in ps && ps[p.id] == p && Matches(q, p)
  {
    if hi > 0 {
      NewestFirstSound(ps, q, hi - 1);
      NewestFirstStep(ps, q, hi);
    }
  }

  /** A listing holds every matching row with an id below `hi`. */
  lemma {:induction false} NewestFirstComplete(ps: map<PostId, Post>, q: PostQuery, hi: nat)
    ensures forall k | k < hi && k in ps && Matches(q, ps[k]) :: ps[k] in NewestFirst(ps, q, hi)
  {
    if hi > 0 {
      var rest := NewestFirst(ps, q, hi - 1);
      NewestFirstComplete(ps, q, hi - 1);
      NewestFirstStep(ps, q, hi);
      forall k | k < hi && k in ps && Matches(q, ps[k]) ensures ps[k] in NewestFirst(ps, q, hi) {
        if k < hi - 1 {
          assert ps[k] in rest;
        }
      }
    }
  }

  /** Ids strictly decrease along `r`. */
  ghost predicate IdsDescending(r: seq<Post>) {
    forall i, j | 0 <= i < j < |r| :: r[i].id > r[j].id
  }

  /** A row with an id above every id of a descending sequence can go in
      front of it. */
  lemma PrependDescending(p: Post, rest: seq<Post>, r: seq<Post>)
    requires IdsDescending(rest)
    requires forall x | x in rest :: x.id < p.id
    requires r == [p] + rest
    ensures IdsDescending(r)
  {
    forall i, j | 0 <= i < j < |r| ensures r[i].id > r[j].id {
      assert r[j] == rest[j - 1] && rest[j - 1] in rest;
      if i > 0 {
        assert r[i] == rest[i - 1];
      }
    }
  }

  /** A listing is in strictly decreasing id order, so holds no row twice. */
  lemma {:induction false} NewestFirstDescending(ps: map<PostId, Post>, q: PostQuery, hi: nat)
    requires WellKeyed(ps)
    ensures IdsDescending(NewestFirst(ps, q, hi))
  {
    if hi > 0 {
      var rest := NewestFirst(ps, q, hi - 1);
      var r := NewestFirst(ps, q, hi);
      assert IdsDescending(rest) by {
        NewestFirstDescending(ps, q, hi - 1);
      }
      if hi - 1 in ps && Matches(q, ps[hi - 1]) {
        assert r == [ps[hi - 1]] + rest by {
          NewestFirstStep(ps, q, hi);
        }
        assert forall x | x in rest :: x.id < hi - 1 by {
          NewestFirstSound(ps, q, hi - 1);
        }
        PrependDescending(ps[hi - 1], rest, r);
      } else {
        assert r == rest by {
          NewestFirstStep(ps, q, hi);
        }
      }
    }
  }

  /** A listing holds exactly the matching rows with ids below `hi`, each
      once, in strictly decreasing id order. */
  lemma NewestFirstExact(ps: map<PostId, Post>, q: PostQuery, hi: nat)
    requires WellKeyed(ps)
    ensures forall p | p in NewestFirst(ps, q, hi) :: p.id < hi && p.id in ps && ps[p.id] == p && Matches(q, p)
    ensures forall k | k < hi && k in ps && Matches(q, ps[k]) :: ps[k] in NewestFirst(ps, q, hi)
    ensures forall i, j | 0 <= i < j < |NewestFirst(ps, q, hi)| :: NewestFirst(ps, q, hi)[i].id > NewestFirst(ps, q, hi)[j].id
  {
    NewestFirstSound(ps, q, hi);
    NewestFirstComplete(ps, q, hi);
    NewestFirstDescending(ps, q, hi);
  }

  /** A listing is newest first: in strictly decreasing `createdAt` order. */
  ghost predicate NewestFirstOrder(r: seq<Post>) {
    forall i, j | 0 <= i < j < |r| :: r[i].createdAt > r[j].createdAt
  }

  /** Every listing of the repository is ordered by `createdAt` descending. */
  lemma NewestFirstIsByCreatedAt(ps: map<PostId, Post>, q: PostQuery, hi: nat)
    requires WellKeyed(ps) && CreatedInIdOrder(ps)
    ensures NewestFirstOrder(NewestFirst(ps, q, hi))
  {
    var r := NewestFirst(ps, q, hi);
    NewestFirstExact(ps, q, hi);
    forall i, j | 0 <= i < j < |r| ensures r[i].createdAt > r[j].createdAt {
      assert r[i] in r && r[j] in r;
    }
  }

  /** The ids below `hi` of the rows matching `q`. */
  function MatchingIds(ps: map<PostId, Post>, q: PostQuery, hi: nat): set<PostId>
  {
    set k | k in ps && k < hi && Matches(q, ps[k])
  }

  lemma MatchingIdsSplit(ps: map<PostId, Post>, q: PostQuery, hi: nat)
    requires hi > 0
    ensures |MatchingIds(ps, q, hi)| ==
            (if hi - 1 in ps && Matches(q, ps[hi - 1]) then 1 else 0) + |MatchingIds(ps, q, hi - 1)|
  {
    var below := MatchingIds(ps, q, hi - 1);
    if hi - 1 in ps && Matches(q, ps[hi - 1]) {
      assert MatchingIds(ps, q, hi) == {hi - 1} + below;
    } else {
      assert MatchingIds(ps, q, hi) == below;
    }
  }

  /** A listing has one entry per matching row: its length is the number of
      matching posts, which the page reports as its total. */
  lemma {:induction false} NewestFirstCount(ps: map<PostId, Post>, q: PostQuery, hi: nat)
    ensures |NewestFirst(ps, q, hi)| == |MatchingIds(ps, q, hi)|
  {
    if hi == 0 {
      assert MatchingIds(ps, q, hi) == {};
    } else {
      NewestFirstCount(ps, q, hi - 1);
      MatchingIdsSplit(ps, q, hi);
      var mine := hi - 1 in ps && Matches(q, ps[hi - 1]);
      assert NewestFirst(ps, q, hi) == (if mine then [ps[hi - 1]] else []) + NewestFirst(ps, q, hi - 1);
    }
  }

  /** When every condition of `narrow` is a condition of `wide` plus `keep`,
      the narrow listing is the wide one with the rows failing `keep` taken
      out, in the same order. */
  lemma {:induction false} NarrowerIsFilter(ps: map<PostId, Post>, wide: PostQuery, narrow: PostQuery, keep: Post -> bool, hi: nat)
    requires forall p: Post :: Matches(narrow, p) <==> Matches(wide, p) && keep(p)
    ensures NewestFirst(ps, narrow, hi) == Filter(NewestFirst(ps, wide, hi), keep)
  {
    if hi > 0 {
      NarrowerIsFilter(ps, wide, narrow, keep, hi - 1);
      NarrowStep(ps, wide, narrow, keep, hi);
    }
  }

  /** One step of NarrowerIsFilter: if the narrow listing below `hi - 1` is
      the filtered wide one, so is the narrow listing below `hi`. */
  lemma NarrowStep(ps: map<PostId, Post>, wide: PostQuery, narrow: PostQuery, keep: Post -> bool, hi: nat)
    requires hi > 0
    requires forall p: Post :: Matches(narrow, p) <==> Matches(wide, p) && keep(p)
    requires NewestFirst(ps, narrow, hi - 1) == Filter(NewestFirst(ps, wide, hi - 1), keep)
    ensures NewestFirst(ps, narrow, hi) == Filter(NewestFirst(ps, wide, hi), keep)
  {
    NewestFirstStep(ps, wide, hi);
    NewestFirstStep(ps, narrow, hi);
    if hi - 1 in ps && Matches(wide, ps[hi - 1]) {
      var p := ps[hi - 1];
      assert Matches(narrow, p) == keep(p);
      FilterCons(p, NewestFirst(ps, wide, hi - 1), keep);
    } else {
      assert hi - 1 in ps ==> !Matches(narrow, ps[hi - 1]);
    }
  }

  function PublicRow(): Post -> bool { (p: Post) => p.isPublic }
  function OwnedRow(u: UserId): Post -> bool { (p: Post) => p.owner == u }

  /** The public listing is, for any user, the user's visible listing with
      the private posts taken out: every public post is in every feed. */
  lemma PublicWithinVisible(ps: map<PostId, Post>, u: UserId, hi: nat)
    ensures NewestFirst(ps, PublicOnly, hi) == Filter(NewestFirst(ps, VisibleTo(u), hi), PublicRow())
  {
    NarrowerIsFilter(ps, VisibleTo(u), PublicOnly, PublicRow(), hi);
  }

  /** A user's own listing is the user's visible listing with other users'
      posts taken out: the feed holds all of the user's posts. */
  lemma OwnWithinVisible(ps: map<PostId, Post>, u: UserId, hi: nat)
    ensures NewestFirst(ps, OwnedBy(u), hi) == Filter(NewestFirst(ps, VisibleTo(u), hi), OwnedRow(u))
  {
    NarrowerIsFilter(ps, VisibleTo(u), OwnedBy(u), OwnedRow(u), hi);
  }

  // ---------------------------------------------------------------------
  // Paging

  /** One page of a listing, with the size of the whole listing. */
  datatype Page<T> = Page(content: seq<T>, totalElements: nat)

  /** PageRequest.of(page, size) applied to a listing: a negative page
      index or a size below one is refused; otherwise the page holds the
      rows from offset page * size on, at most `size` of them, and is empty
      past the end. */
  function Paged<T>(rows: seq<T>, page: int, size: int): (r: Result<Page<T>>)
    ensures r.Err? <==> page < 0 || size < 1
    ensures r.Err? ==> r.error == InvalidArgument
    ensures r.Ok? ==> r.value.totalElements == |rows|
    ensures r.Ok? ==> |r.value.content| == if page * size >= |rows| then 0 else Min(size, |rows| - page * size)
    ensures r.Ok? ==> forall i | 0 <= i < |r.value.content| :: r.value.content[i] == rows[page * size + i]
  {
    if page < 0 || size < 1 then Err(InvalidArgument)
    else
      var from := Min(page * size, |rows|);
      var to := Min(from + size, |rows|);
      Ok(Page(rows[from..to], |rows|))
  }

  function Min(a: int, b: int): int {
    if a <= b then a else b
  }

  /** Every row of a listing is on exactly the page its position says:
      row k is entry k % size of page k / size. */
  lemma PageLocates<T>(rows: seq<T>, size: int, k: nat)
    requires size >= 1 && k < |rows|
    ensures Paged(rows, k / size, size).Ok?
    ensures k % size < |Paged(rows, k / size, size).value.content|
    ensures Paged(rows, k / size, size).value.content[k % size] == rows[k]
  {
    var page := k / size;
    assert page * size + k % size == k;
    assert page * size <= k;
  }

  /** A page of a newest-first listing is itself newest first, and holds
      rows of the listing only. */
  lemma PageKeepsOrder(rows: seq<Post>, page: int, size: int)
    requires NewestFirstOrder(rows)
    ensures Paged(rows, page, size).Ok? ==> NewestFirstOrder(Paged(rows, page, size).value.content)
    ensures Paged(rows, page, size).Ok? ==> forall p | p in Paged(rows, page, size).value.content :: p in rows
  {
    if page >= 0 && size >= 1 {
      var c := Paged(rows, page, size).value.content;
      forall i, j | 0 <= i < j < |c| ensures c[i].createdAt > c[j].createdAt {
        assert c[i] == rows[page * size + i] && c[j] == rows[page * size + j];
      }
      forall p | p in c ensures p in rows {
        var i :| 0 <= i < |c| && c[i] == p;
        assert c[i] == rows[page * size + i];
      }
    }
  }

  /** Every post a listing matches is on one of its pages, whatever the
      page size. */
  lemma ListingComplete(ps: map<PostId, Post>, q: PostQuery, hi: nat, size: int, k: PostId)
    requires WellKeyed(ps) && size >= 1
    requires k in ps && k < hi && Matches(q, ps[k])
    ensures exists page: int | 0 <= page :: Paged(NewestFirst(ps, q, hi), page, size).Ok? && ps[k] in Paged(NewestFirst(ps, q, hi), page, size).value.content
  {
    var rows := NewestFirst(ps, q, hi);
    NewestFirstExact(ps, q, hi);
    var i :| 0 <= i < |rows| && rows[i] == ps[k];
    PageLocates(rows, size, i);
    var page := i / size;
    assert ps[k] in Paged(rows, page, size).value.content;
  }

  // ---------------------------------------------------------------------
  // Saving rows

  /** A new row with the next id and the current time, owned by an existing
      user, keeps the table sound. */
  lemma AddKeepsTable(ps: map<PostId, Post>, users: set<UserId>, nextId: nat, clock: nat, p: Post)
    requires TableOk(ps, users, nextId, clock)
    requires p.id == nextId && p.createdAt == clock && p.owner in users
    ensures TableOk(ps[p.id := p], users, nextId + 1, clock + 1)
  {
  }

  /** The table stays sound when the counters have moved on. */
  lemma TableGrows(ps: map<PostId, Post>, users: set<UserId>, nextId: nat, nextId': nat, clock: nat, clock': nat)
    requires TableOk(ps, users, nextId, clock)
    requires nextId <= nextId' && clock <= clock'
    ensures TableOk(ps, users, nextId', clock')
  {
  }

  /** Changing a row's content, image or visibility keeps the table sound. */
  lemma EditKeepsTable(ps: map<PostId, Post>, users: set<UserId>, nextId: nat, clock: nat, k: PostId, p: Post)
    requires TableOk(ps, users, nextId, clock) && k in ps
    requires p.id == k && p.owner == ps[k].owner && p.createdAt == ps[k].createdAt
    ensures TableOk(ps[k := p], users, nextId, clock)
  {
  }

  /** Removing a row keeps the table sound. */
  lemma RemoveKeepsTable(ps: map<PostId, Post>, users: set<UserId>, nextId: nat, clock: nat, k: PostId)
    requires TableOk(ps, users, nextId, clock)
    ensures TableOk(ps - {k}, users, nextId, clock)
  {
  }
}
