/** Whole cursor walks (internal/store/mem.go, Range; internal/store/paginate.go): exact on a fixed store, and stable
    while the store grows between pages. */
module Walks {
  import opened Bytes
  import opened Strconv
  import opened Codec
  import opened SortedMembers
  import opened Paging
  import Cursors

  /** The position a request starts from: the given cursor, or the lower bound of the window. */
  function PositionOf(from: int64, cur: bytes): Option<Cursors.Position> {
    if cur == [] then Some(Cursors.Position(from, 0)) else Cursors.Decode(cur)
  }

  function NextCursor(p: Page): bytes {
    if p.next.None? then [] else Cursors.Encode(p.next.value.ts, p.next.value.skip)
  }

  /** Range: None stands for the invalid-cursor error. */
  function Range(ms: seq<bytes>, from: int64, to: int64, limit: nat, cur: bytes): Option<Page>
    requires (AllStored(ms) || AllEncoded(ms)) && limit >= 1
  {
    var pos := PositionOf(from, cur);
    if pos.None? then None else Some(PageAt(ms, to, limit, pos.value))
  }

  // The fixed store.

  ghost predicate CursorStands(ms: seq<bytes>, from: int64, to: int64, cur: bytes, e: nat)
    requires AllStored(ms)
  {
    var pos := PositionOf(from, cur);
    pos.Some? && from <= pos.value.ts && Stands(Window(ms, from, to), pos.value, e)
  }

  /** A valid store, a valid limit, and a cursor that stands behind the first `e` members of the window. */
  ghost predicate Ready(ms: seq<bytes>, from: int64, to: int64, limit: nat, cur: bytes, e: nat) {
    && AllStored(ms) && StrictlySorted(ms) && |ms| < TWO63 && limit >= 1
    && CursorStands(ms, from, to, cur, e) && e <= |Window(ms, from, to)|
  }

  /** The page and cursor served to a standing cursor. */
  ghost predicate Serves(ms: seq<bytes>, from: int64, to: int64, limit: nat, e: nat, p: Page)
    requires AllStored(ms)
  {
    var w := Window(ms, from, to);
    && (|w| <= e + limit ==> e <= |w| && p.members == w[e..] && NextCursor(p) == [])
    && (|w| > e + limit ==>
          p.members == w[e..e + limit] && NextCursor(p) != [] && Ready(ms, from, to, limit, NextCursor(p), e + limit))
  }

  lemma StandsSkip(w: seq<bytes>, pos: Cursors.Position, e: nat)
    requires AllStored(w) && Stands(w, pos, e)
    ensures pos.skip <= |w| && e <= |w|
  {
  }

  lemma RangeServes(ms: seq<bytes>, from: int64, to: int64, limit: nat, cur: bytes, e: nat)
    requires Ready(ms, from, to, limit, cur, e)
    ensures Range(ms, from, to, limit, cur).Some? && Serves(ms, from, to, limit, e, Range(ms, from, to, limit, cur).value)
  {
    hide Stands, Window, PageAt, Less, MemTS, Stored, StrictlySorted, NextCursor, Cursors.Encode, Cursors.Decode;
    var pos := PositionOf(from, cur).value;
    PageIsNext(ms, from, to, limit, pos, e);
    var p := PageAt(ms, to, limit, pos);
    var w := Window(ms, from, to);
    if p.next.Some? {
      StandsSkip(w, p.next.value, e + limit);
      NextDecodes(p, from);
    } else {
      NoNext(p);
    }
  }

  lemma NoNext(p: Page)
    requires p.next.None?
    ensures NextCursor(p) == []
  {
  }

  /** The cursor string a client sends back decodes to the position it was made from. */
  lemma NextDecodes(p: Page, from: int64)
    requires p.next.Some? && p.next.value.skip < TWO63
    ensures NextCursor(p) != [] && PositionOf(from, NextCursor(p)) == p.next
  {
    hide Cursors.Encode, Cursors.Decode;
    Cursors.RoundTrip(p.next.value.ts, p.next.value.skip);
    Cursors.CursorText(p.next.value.ts, p.next.value.skip);
  }

  datatype Pages = Pages(pages: seq<seq<bytes>>, done: bool)

  /** The first `n` pages a client gets by following cursors, or fewer when there is no further cursor. */
  function Walk(ms: seq<bytes>, from: int64, to: int64, limit: nat, cur: bytes, n: nat): Pages
    requires AllStored(ms) && limit >= 1
    decreases n
  {
    if n == 0 then Pages([], false) else
      var p := Range(ms, from, to, limit, cur);
      if p.None? then Pages([], false)
      else if NextCursor(p.value) == [] then Pages([p.value.members], true)
      else
        var rest := Walk(ms, from, to, limit, NextCursor(p.value), n - 1);
        Pages([p.value.members] + rest.pages, rest.done)
  }

  function Flatten(pages: seq<seq<bytes>>): seq<bytes> {
    if pages == [] then [] else pages[0] + Flatten(pages[1..])
  }

  lemma FlattenStep(page: seq<bytes>, rest: seq<seq<bytes>>)
    ensures Flatten([page] + rest) == page + Flatten(rest)
  {
    assert ([page] + rest)[1..] == rest;
  }

  lemma {:induction false} WalkFrom(ms: seq<bytes>, from: int64, to: int64, limit: nat, cur: bytes, e: nat, n: nat)
    requires Ready(ms, from, to, limit, cur, e) && n > |Window(ms, from, to)| - e
    ensures Walk(ms, from, to, limit, cur, n).done
    ensures Flatten(Walk(ms, from, to, limit, cur, n).pages) == Window(ms, from, to)[e..]
    decreases n
  {
    hide Window, Range, NextCursor, StrictlySorted, CursorStands, Flatten, Stored;
    var w := Window(ms, from, to);
    RangeServes(ms, from, to, limit, cur, e);
    var p := Range(ms, from, to, limit, cur).value;
    if |w| > e + limit {
      WalkFrom(ms, from, to, limit, NextCursor(p), e + limit, n - 1);
      FlattenStep(p.members, Walk(ms, from, to, limit, NextCursor(p), n - 1).pages);
      assert w[e..e + limit] + w[e + limit..] == w[e..];
    } else {
      FlattenStep(p.members, []);
      FlattenNone();
      assert [p.members] + [] == [p.members];
    }
  }

  lemma FlattenNone()
    ensures Flatten([]) == []
  {
  }

  ghost predicate AllShort(pages: seq<seq<bytes>>, limit: nat) {
    forall k | 0 <= k < |pages| :: |pages[k]| <= limit
  }

  /** Pages are never longer than the limit. */
  lemma {:induction false} PageSizes(ms: seq<bytes>, from: int64, to: int64, limit: nat, cur: bytes, n: nat)
    requires AllStored(ms) && limit >= 1
    ensures AllShort(Walk(ms, from, to, limit, cur, n).pages, limit)
    decreases n
  {
    hide Stored, Range, NextCursor;
    if n > 0 {
      RangeSize(ms, from, to, limit, cur);
      var p := Range(ms, from, to, limit, cur);
      if p.Some? && NextCursor(p.value) != [] {
        PageSizes(ms, from, to, limit, NextCursor(p.value), n - 1);
      }
    }
  }

  lemma RangeSize(ms: seq<bytes>, from: int64, to: int64, limit: nat, cur: bytes)
    requires AllStored(ms) && limit >= 1
    ensures Range(ms, from, to, limit, cur).Some? ==> |Range(ms, from, to, limit, cur).value.members| <= limit
  {
    hide Stored, PageAt, PositionOf;
  }

  /** Pagination is exact and ends: after at most one page more than the window has members there is no further cursor,
      and the pages put together are the window: every member once, in order. */
  lemma WalkIsExact(ms: seq<bytes>, from: int64, to: int64, limit: nat, n: nat)
    requires AllStored(ms) && StrictlySorted(ms) && limit >= 1 && |ms| < TWO63 && n > |Window(ms, from, to)|
    ensures var v := Walk(ms, from, to, limit, [], n);
            && v.done && StrictlySorted(Flatten(v.pages))
            && forall x :: x in Flatten(v.pages) <==> x in ms && from <= MemTS(x) <= to
  {
    hide Walk, Flatten, Less, MemTS, Stands;
    StartStands(ms, from, to);
    WalkFrom(ms, from, to, limit, [], 0, n);
    var w := Window(ms, from, to);
    assert w[0..] == w;
    WindowSorted(ms, from, to);
    forall x ensures x in w <==> x in ms && from <= MemTS(x) <= to {
      InWindow(ms, from, to, x);
    }
  }

  // A store that grows between pages.

  /** What the appends of one writer make of a device's members: a newcomer sorts behind every older member of its own
      timestamp. Members may have been evicted. */
  ghost predicate Follows(a: seq<bytes>, b: seq<bytes>)
    requires AllStored(a) && AllStored(b)
  {
    forall x, y | x in b && x !in a && y in a && MemTS(x) == MemTS(y) :: Less(y, x)
  }

  /** The same without eviction. */
  ghost predicate Grows(a: seq<bytes>, b: seq<bytes>)
    requires AllStored(a) && AllStored(b)
  {
    (forall x | x in a :: x in b) && Follows(a, b)
  }

  /** Of the members that a cursor behind `last` skips, those of timestamp `t` not above it, none is gone. */
  ghost predicate Spared(a: seq<bytes>, b: seq<bytes>, t: int64, last: bytes)
    requires AllStored(a)
  {
    forall y | y in a && MemTS(y) == t && !Less(last, y) :: y in b
  }

  /** The cursor stands right behind the member `last` of the window. */
  ghost predicate StandsBehind(ms: seq<bytes>, from: int64, to: int64, pos: Cursors.Position, last: bytes, e: nat)
    requires AllStored(ms)
  {
    var w := Window(ms, from, to);
    from <= pos.ts && Stands(w, pos, e) && e > 0 && w[e - 1] == last && MemTS(last) == pos.ts
  }

  /** The members a cursor behind place `e` skips: those from its timestamp on. */
  function SkipRun(w: seq<bytes>, t: int64, e: nat): seq<bytes>
    requires AllStored(w)
  {
    if Below(w, t) <= e <= |w| then w[Below(w, t)..e] else []
  }

  lemma Skipped(w: seq<bytes>, t: int64, last: bytes, e: nat, x: bytes)
    requires AllStored(w) && StrictlySorted(w) && 0 < e <= |w| && w[e - 1] == last && MemTS(last) == t
    ensures Below(w, t) < e && |SkipRun(w, t, e)| == e - Below(w, t)
    ensures x in SkipRun(w, t, e) <==> x in w && MemTS(x) == t && !Less(last, x)
  {
    BelowSplits(w, t, e - 1);
    if x in w {
      var i :| 0 <= i < |w| && w[i] == x;
      hide Less, MemTS, Below;
      BelowSplits(w, t, i);
      StrictIndex(w, i, e - 1);
      if i < e {
        SortedByTs(w, i, e - 1);
      }
      InSlice(w, Below(w, t), e, i);
    } else {
      hide Less, MemTS, Below, StrictlySorted, Stored;
      SliceIn(w, Below(w, t), e, x);
    }
  }

  lemma InSlice(w: seq<bytes>, i: nat, j: nat, k: nat)
    requires i <= j <= |w| && k < |w| && StrictlySorted(w)
    ensures w[k] in w[i..j] <==> i <= k < j
  {
    if w[k] in w[i..j] {
      var n :| 0 <= n < |w[i..j]| && w[i..j][n] == w[k];
      StrictIndex(w, i + n, k);
      StrictIndex(w, k, i + n);
      assert i + n == k by {
        LessIrreflexive(w[k]);
      }
    }
    if i <= k < j {
      assert w[i..j][k - i] == w[k];
    }
  }

  lemma SliceIn(w: seq<bytes>, i: nat, j: nat, x: bytes)
    requires i <= j <= |w|
    ensures x in w[i..j] ==> x in w
  {
    if x in w[i..j] {
      var n :| 0 <= n < |w[i..j]| && w[i..j][n] == x;
      assert w[i + n] == x;
    }
  }

  lemma RunSorted(w: seq<bytes>, t: int64, e: nat)
    requires AllStored(w) && StrictlySorted(w)
    ensures StrictlySorted(SkipRun(w, t, e))
  {
    hide Less, MemTS, Below, Stored;
    if Below(w, t) <= e <= |w| {
      SubSorted(w, Below(w, t), e);
    }
  }

  /** The run skipped behind the member `last`, in terms of the store alone. */
  lemma SkippedOf(ms: seq<bytes>, from: int64, to: int64, t: int64, last: bytes, e: nat, x: bytes)
    requires AllStored(ms) && StrictlySorted(ms) && Stored(last) && MemTS(last) == t
    requires var w := Window(ms, from, to); 0 < e <= |w| && w[e - 1] == last
    ensures var w := Window(ms, from, to);
            && last in ms && Below(w, t) < e && |SkipRun(w, t, e)| == e - Below(w, t) && StrictlySorted(SkipRun(w, t, e))
            && (x in SkipRun(w, t, e) <==> x in ms && MemTS(x) == t && !Less(last, x))
  {
    hide Less, MemTS, Below, StrictlySorted, Window, SkipRun, Stored;
    var w := Window(ms, from, to);
    WindowSorted(ms, from, to);
    Skipped(w, t, last, e, x);
    RunSorted(w, t, e);
    assert last in w;
    InWindow(ms, from, to, last);
    InWindow(ms, from, to, x);
  }

  /** In a strictly ascending list the order of members is the order of their places. */
  lemma StrictIndex(w: seq<bytes>, i: nat, j: nat)
    requires StrictlySorted(w) && i < |w| && j < |w|
    ensures Less(w[j], w[i]) <==> j < i
  {
    if j < i {
    } else if i < j {
      LessAsymmetric(w[i], w[j]);
    } else {
      LessIrreflexive(w[i]);
    }
  }

  lemma SubSorted(w: seq<bytes>, i: nat, j: nat)
    requires StrictlySorted(w) && i <= j <= |w|
    ensures StrictlySorted(w[i..j])
  {
    hide Less;
  }

  /** Behind the member `last` of timestamp `t` both stores have the same members to skip. */
  ghost predicate SameSkipped(a: seq<bytes>, b: seq<bytes>, t: int64, last: bytes)
    requires AllStored(a) && AllStored(b)
  {
    forall y :: (y in a && MemTS(y) == t && !Less(last, y)) <==> (y in b && MemTS(y) == t && !Less(last, y))
  }

  lemma FollowsSameSkipped(a: seq<bytes>, b: seq<bytes>, t: int64, last: bytes)
    requires AllStored(a) && AllStored(b) && Follows(a, b) && Spared(a, b, t, last) && last in a && MemTS(last) == t
    ensures SameSkipped(a, b, t, last) && last in b
  {
    LessIrreflexive(last);
    hide Less, MemTS;
  }

  /** While the members to skip stay the same, so does their number. */
  lemma RunsAgree(a: seq<bytes>, b: seq<bytes>, from: int64, to: int64, t: int64, last: bytes, e: nat, k: nat)
    requires AllStored(a) && AllStored(b) && StrictlySorted(a) && StrictlySorted(b) && SameSkipped(a, b, t, last)
    requires var w := Window(a, from, to); 0 < e <= |w| && w[e - 1] == last && MemTS(last) == t
    requires var v := Window(b, from, to); k < |v| && v[k] == last
    ensures var w := Window(a, from, to); var v := Window(b, from, to);
            Below(v, t) <= k && e - Below(w, t) == k + 1 - Below(v, t)
  {
    var w := Window(a, from, to);
    var v := Window(b, from, to);
    assert Stored(w[e - 1]);
    hide Less, MemTS, Below, Window, StrictlySorted, Stored, AllStored, SkipRun;
    SkippedOf(a, from, to, t, last, e, last);
    SkippedOf(b, from, to, t, last, k + 1, last);
    forall x ensures x in SkipRun(w, t, e) <==> x in SkipRun(v, t, k + 1) {
      SkippedOf(a, from, to, t, last, e, x);
      SkippedOf(b, from, to, t, last, k + 1, x);
    }
    SameElements(SkipRun(w, t, e), SkipRun(v, t, k + 1));
  }

  /** A cursor keeps its place under appends by one writer that evict nothing it skips. */
  lemma PlaceKept(a: seq<bytes>, b: seq<bytes>, from: int64, to: int64, pos: Cursors.Position, last: bytes, e: nat)
      returns (e': nat)
    requires AllStored(a) && AllStored(b) && StrictlySorted(a) && StrictlySorted(b) && Follows(a, b)
    requires StandsBehind(a, from, to, pos, last, e) && Spared(a, b, pos.ts, last)
    ensures StandsBehind(b, from, to, pos, last, e')
  {
    var w := Window(a, from, to);
    var v := Window(b, from, to);
    assert last in w;
    InWindow(a, from, to, last);
    FollowsSameSkipped(a, b, pos.ts, last);
    InWindow(b, from, to, last);
    var k :| 0 <= k < |v| && v[k] == last;
    e' := k + 1;
    hide Less, MemTS, Below, Stands, Window, StrictlySorted, Stored, Follows, Spared, SameSkipped;
    RunsAgree(a, b, from, to, pos.ts, last, e, k);
    StandsFrom(w, v, pos, e, e');
  }

  lemma StandsFrom(w: seq<bytes>, v: seq<bytes>, pos: Cursors.Position, e: nat, e': nat)
    requires AllStored(w) && AllStored(v) && Stands(w, pos, e) && 0 < e' <= |v| && MemTS(v[e' - 1]) == pos.ts
    requires Below(v, pos.ts) <= e' && e - Below(w, pos.ts) == e' - Below(v, pos.ts)
    ensures Stands(v, pos, e')
  {
  }

  datatype Visit = Visit(emitted: seq<bytes>, done: bool)

  /** A walk in which each page is read from a later state of the store; it may still be going on. */
  function WalkOver(snaps: seq<seq<bytes>>, from: int64, to: int64, limit: nat, cur: bytes): Visit
    requires limit >= 1 && forall k | 0 <= k < |snaps| :: AllStored(snaps[k])
    decreases |snaps|
  {
    if snaps == [] then Visit([], false) else
      var p := Range(snaps[0], from, to, limit, cur);
      if p.None? then Visit([], false)
      else if p.value.next.None? then Visit(p.value.members, true)
      else
        var rest := WalkOver(snaps[1..], from, to, limit, NextCursor(p.value));
        Visit(p.value.members + rest.emitted, rest.done)
  }

  ghost predicate GoodSnaps(snaps: seq<seq<bytes>>) {
    forall k | 0 <= k < |snaps| :: AllStored(snaps[k]) && StrictlySorted(snaps[k]) && |snaps[k]| < TWO63
  }

  ghost predicate GrowingRun(snaps: seq<seq<bytes>>) {
    GoodSnaps(snaps) && forall k | 0 <= k < |snaps| - 1 :: Grows(snaps[k], snaps[k + 1])
  }

  ghost predicate FollowingRun(snaps: seq<seq<bytes>>) {
    GoodSnaps(snaps) && forall k | 0 <= k < |snaps| - 1 :: Follows(snaps[k], snaps[k + 1])
  }

  /** No member that the walk's cursor skips goes between one page and the next. */
  ghost predicate Spares(snaps: seq<seq<bytes>>, from: int64, to: int64, limit: nat, cur: bytes)
    requires limit >= 1 && forall k | 0 <= k < |snaps| :: AllStored(snaps[k])
    decreases |snaps|
  {
    |snaps| >= 2 ==>
      var p := Range(snaps[0], from, to, limit, cur);
      p.Some? && p.value.next.Some? && p.value.members != [] ==>
        && Spared(snaps[0], snaps[1], p.value.next.value.ts, p.value.members[|p.value.members| - 1])
        && Spares(snaps[1..], from, to, limit, NextCursor(p.value))
  }

  /** Stored in every state that a page is read from. */
  ghost predicate Stays(snaps: seq<seq<bytes>>, x: bytes) {
    forall k | 0 <= k < |snaps| :: x in snaps[k]
  }

  ghost predicate AllAfter(ms: seq<bytes>, last: Option<bytes>) {
    last.Some? ==> forall i | 0 <= i < |ms| :: Less(last.value, ms[i])
  }

  ghost predicate InBounds(ms: seq<bytes>, from: int64, to: int64) {
    forall i | 0 <= i < |ms| :: Stored(ms[i]) && from <= MemTS(ms[i]) <= to
  }

  /** What a walk owes from a place on: members in strictly ascending order, all behind the place, all in the time
      window, and at its end every member of the first state that lies behind the place and stays. */
  ghost predicate Owed(v: Visit, snaps: seq<seq<bytes>>, w: seq<bytes>, e: nat, last: Option<bytes>, from: int64, to: int64)
    requires e <= |w|
  {
    && StrictlySorted(v.emitted) && AllAfter(v.emitted, last)
    && InBounds(v.emitted, from, to)
    && (v.done ==> forall x | x in w[e..] && Stays(snaps, x) :: x in v.emitted)
  }

  /** Where the walk stands in its first state: in front of everything, or behind the last member emitted. */
  ghost predicate WalkPlace(ms: seq<bytes>, from: int64, to: int64, cur: bytes, last: Option<bytes>, e: nat)
    requires AllStored(ms)
  {
    match last
    case None => cur == [] && e == 0
    case Some(m) => PositionOf(from, cur).Some? && StandsBehind(ms, from, to, PositionOf(from, cur).value, m, e)
  }

  lemma PlaceStands(ms: seq<bytes>, from: int64, to: int64, cur: bytes, last: Option<bytes>, e: nat)
    requires AllStored(ms) && WalkPlace(ms, from, to, cur, last, e)
    ensures CursorStands(ms, from, to, cur, e) && e <= |Window(ms, from, to)|
  {
    StartStands(ms, from, to);
  }

  /** The page and its cursor: what it emits, and where the walk stands then. */
  lemma PageStep(ms: seq<bytes>, from: int64, to: int64, limit: nat, cur: bytes, last: Option<bytes>, e: nat)
    requires AllStored(ms) && StrictlySorted(ms) && limit >= 1 && |ms| < TWO63 && WalkPlace(ms, from, to, cur, last, e)
    ensures Range(ms, from, to, limit, cur).Some? && e <= |Window(ms, from, to)|
    ensures var w := Window(ms, from, to); var p := Range(ms, from, to, limit, cur).value;
            && (p.next.None? ==> p.members == w[e..])
            && (p.next.Some? ==>
                  && e + limit < |w| && p.members == w[e..e + limit]
                  && WalkPlace(ms, from, to, NextCursor(p), Some(w[e + limit - 1]), e + limit))
  {
    hide Stands, Window, PageAt, Less, MemTS, Stored, StrictlySorted, NextCursor, Cursors.Encode, Cursors.Decode;
    PlaceStands(ms, from, to, cur, last, e);
    var w := Window(ms, from, to);
    var pos := PositionOf(from, cur).value;
    PageIsNext(ms, from, to, limit, pos, e);
    var p := PageAt(ms, to, limit, pos);
    if p.next.Some? {
      StandsSkip(w, p.next.value, e + limit);
      NextDecodes(p, from);
    }
  }

  /** All members of the window behind place `e` come after the member in front of it. */
  lemma RestAfter(ms: seq<bytes>, from: int64, to: int64, cur: bytes, last: Option<bytes>, e: nat)
    requires AllStored(ms) && StrictlySorted(ms) && WalkPlace(ms, from, to, cur, last, e)
    ensures e <= |Window(ms, from, to)| && AllAfter(Window(ms, from, to)[e..], last)
  {
    hide Less, MemTS;
    PlaceStands(ms, from, to, cur, last, e);
    WindowSorted(ms, from, to);
    if last.Some? {
      var w := Window(ms, from, to);
      forall i | 0 <= i < |w[e..]| ensures Less(last.value, w[e..][i]) {
        assert Less(w[e - 1], w[e + i]);
      }
    }
  }

  /** A piece of the window is in ascending order and inside the time bounds. */
  lemma Piece(ms: seq<bytes>, from: int64, to: int64, i: nat, j: nat)
    requires AllStored(ms) && StrictlySorted(ms) && i <= j <= |Window(ms, from, to)|
    ensures var p := Window(ms, from, to)[i..j];
            StrictlySorted(p) && InBounds(p, from, to)
  {
    hide Less, MemTS;
    var w := Window(ms, from, to);
    WindowSorted(ms, from, to);
    SubSorted(w, i, j);
    forall k | 0 <= k < |w[i..j]| ensures Stored(w[i..j][k]) && from <= MemTS(w[i..j][k]) <= to {
      InWindow(ms, from, to, w[i + k]);
    }
  }

  /** Joining a page with what the rest of the walk owes. */
  lemma JoinOwed(snaps: seq<seq<bytes>>, w: seq<bytes>, e: nat, n: nat, v: seq<bytes>, e': nat, rest: Visit,
                 last: Option<bytes>, from: int64, to: int64)
    requires e + n <= |w| && n >= 1 && e' <= |v| && snaps != []
    requires StrictlySorted(w[e..e + n]) && AllAfter(w[e..e + n], last)
    requires InBounds(w[e..e + n], from, to)
    requires Owed(rest, snaps[1..], v, e', Some(w[e + n - 1]), from, to)
    requires forall x | x in w[e + n..] && Stays(snaps, x) :: x in v[e'..]
    ensures Owed(Visit(w[e..e + n] + rest.emitted, rest.done), snaps, w, e, last, from, to)
  {
    hide Less, MemTS, Stored;
    var page := w[e..e + n];
    var all := page + rest.emitted;
    Ascending(page, rest.emitted, last);
    assert w[e..] == page + w[e + n..];
    forall x | x in w[e..] && rest.done && Stays(snaps, x) ensures x in all {
      assert Stays(snaps[1..], x);
    }
  }

  lemma Ascending(page: seq<bytes>, rest: seq<bytes>, last: Option<bytes>)
    requires page != [] && StrictlySorted(page) && StrictlySorted(rest)
    requires AllAfter(page, last) && AllAfter(rest, Some(page[|page| - 1]))
    ensures StrictlySorted(page + rest) && AllAfter(page + rest, last)
  {
    hide Less;
    var n := |page|;
    var all := page + rest;
    forall i, j | 0 <= i < j < |all| ensures Less(all[i], all[j]) {
      if i < n && j >= n {
        assert Less(page[n - 1], rest[j - n]);
        if i < n - 1 {
          LessTransitive(page[i], page[n - 1], all[j]);
        }
      }
    }
    if last.Some? {
      forall i | 0 <= i < |all| ensures Less(last.value, all[i]) {
        if i >= n {
          assert Less(page[n - 1], rest[i - n]);
          LessTransitive(last.value, page[n - 1], all[i]);
        }
      }
    }
  }

  /** The members behind the walk's place that stay are behind it in the next state. */
  lemma StillAhead(a: seq<bytes>, b: seq<bytes>, from: int64, to: int64, cur: bytes, last: bytes, e: nat, e': nat, x: bytes)
    requires AllStored(a) && AllStored(b) && StrictlySorted(a) && StrictlySorted(b) && x in b
    requires WalkPlace(a, from, to, cur, Some(last), e) && WalkPlace(b, from, to, cur, Some(last), e')
    requires e <= |Window(a, from, to)| && e' <= |Window(b, from, to)| && x in Window(a, from, to)[e..]
    ensures x in Window(b, from, to)[e'..]
  {
    PlaceIndex(a, from, to, cur, last, e);
    PlaceIndex(b, from, to, cur, last, e');
    hide Less, MemTS, Stands, Window, AllStored, Stored, WalkPlace;
    WindowSorted(a, from, to);
    WindowSorted(b, from, to);
    hide StrictlySorted;
    BehindLast(Window(a, from, to), e, x);
    InWindow(a, from, to, x);
    InWindow(b, from, to, x);
    BehindLast(Window(b, from, to), e', x);
  }

  lemma AllStillAhead(snaps: seq<seq<bytes>>, from: int64, to: int64, cur: bytes, last: bytes, e: nat, e': nat)
    requires |snaps| >= 2 && GoodSnaps(snaps)
    requires WalkPlace(snaps[0], from, to, cur, Some(last), e) && WalkPlace(snaps[1], from, to, cur, Some(last), e')
    requires e <= |Window(snaps[0], from, to)| && e' <= |Window(snaps[1], from, to)|
    ensures forall x | x in Window(snaps[0], from, to)[e..] && Stays(snaps, x) :: x in Window(snaps[1], from, to)[e'..]
  {
    hide Less, MemTS, Window, WalkPlace, StrictlySorted, AllStored, Stored;
    forall x | x in Window(snaps[0], from, to)[e..] && Stays(snaps, x) ensures x in Window(snaps[1], from, to)[e'..] {
      assert x in snaps[1];
      StillAhead(snaps[0], snaps[1], from, to, cur, last, e, e', x);
    }
  }

  lemma PlaceIndex(ms: seq<bytes>, from: int64, to: int64, cur: bytes, last: bytes, e: nat)
    requires AllStored(ms) && WalkPlace(ms, from, to, cur, Some(last), e)
    ensures var w := Window(ms, from, to); 0 < e <= |w| && w[e - 1] == last
  {
    hide MemTS, Window, Below, Stored;
  }

  lemma BehindLast(w: seq<bytes>, e: nat, x: bytes)
    requires StrictlySorted(w) && 0 < e <= |w|
    ensures x in w[e..] <==> x in w && Less(w[e - 1], x)
  {
    hide Less, StrictlySorted;
    if x in w[e..] {
      var i :| 0 <= i < |w[e..]| && w[e..][i] == x;
      assert w[e + i] == x;
      StrictIndex(w, e + i, e - 1);
    }
    if x in w && Less(w[e - 1], x) {
      var k :| 0 <= k < |w| && w[k] == x;
      StrictIndex(w, k, e - 1);
      assert w[e..][k - e] == x;
    }
  }

  /** Pagination under concurrent appends, from any place of a walk. */
  lemma {:induction false} WalkOwes(snaps: seq<seq<bytes>>, from: int64, to: int64, limit: nat, cur: bytes,
                                    last: Option<bytes>, e: nat)
    requires FollowingRun(snaps) && limit >= 1 && snaps != [] && WalkPlace(snaps[0], from, to, cur, last, e)
    requires Spares(snaps, from, to, limit, cur)
    ensures e <= |Window(snaps[0], from, to)|
    ensures Owed(WalkOver(snaps, from, to, limit, cur), snaps, Window(snaps[0], from, to), e, last, from, to)
    decreases |snaps|
  {
    hide Window, Range, WalkPlace, Owed, Less, MemTS, Stored, StrictlySorted, AllAfter, Follows, Stays, Spared;
    var ms := snaps[0];
    PageStep(ms, from, to, limit, cur, last, e);
    var p := Range(ms, from, to, limit, cur).value;
    if p.next.None? {
      LastPageOwes(snaps, from, to, cur, last, e);
    } else {
      var tail := snaps[1..];
      var ell := Window(ms, from, to)[e + limit - 1];
      if tail == [] {
        StopsOwing(snaps, from, to, limit, cur, last, e);
        assert WalkOver(tail, from, to, limit, NextCursor(p)) == Visit([], false);
        assert p.members + [] == p.members;
      } else {
        TailRun(snaps);
        assert p.members[|p.members| - 1] == ell;
        NextPosition(ms, from, to, limit, cur, p, ell, e + limit);
        var e' := NextPlace(ms, tail[0], from, to, NextCursor(p), ell, e + limit);
        WalkOwes(tail, from, to, limit, NextCursor(p), Some(ell), e');
        AllStillAhead(snaps, from, to, NextCursor(p), ell, e + limit, e');
        PageOwes(snaps, from, to, limit, cur, last, e, Window(tail[0], from, to), e',
                 WalkOver(tail, from, to, limit, NextCursor(p)));
      }
    }
  }

  /** The timestamp of the next cursor is that of the last member of the page. */
  lemma NextPosition(ms: seq<bytes>, from: int64, to: int64, limit: nat, cur: bytes, p: Page, last: bytes, e: nat)
    requires AllStored(ms) && limit >= 1 && Range(ms, from, to, limit, cur) == Some(p) && p.next.Some?
    requires WalkPlace(ms, from, to, NextCursor(p), Some(last), e)
    requires p.members != [] && p.members[|p.members| - 1] == last
    ensures PositionOf(from, NextCursor(p)).value.ts == p.next.value.ts
  {
    hide Window, MemTS, Less, Stands, Stored, Cursors.Decode, Cursors.Encode, Fetched, Paging.Run;
  }

  lemma NextPlace(a: seq<bytes>, b: seq<bytes>, from: int64, to: int64, cur: bytes, last: bytes, e: nat) returns (e': nat)
    requires AllStored(a) && AllStored(b) && StrictlySorted(a) && StrictlySorted(b) && Follows(a, b)
    requires WalkPlace(a, from, to, cur, Some(last), e) && Spared(a, b, PositionOf(from, cur).value.ts, last)
    ensures WalkPlace(b, from, to, cur, Some(last), e')
  {
    hide StandsBehind, Follows, Spared;
    e' := PlaceKept(a, b, from, to, PositionOf(from, cur).value, last, e);
  }

  lemma LastPageOwes(snaps: seq<seq<bytes>>, from: int64, to: int64, cur: bytes, last: Option<bytes>, e: nat)
    requires snaps != [] && AllStored(snaps[0]) && StrictlySorted(snaps[0]) && WalkPlace(snaps[0], from, to, cur, last, e)
    requires e <= |Window(snaps[0], from, to)|
    ensures var w := Window(snaps[0], from, to); Owed(Visit(w[e..], true), snaps, w, e, last, from, to)
  {
    hide Window, WalkPlace, Less, MemTS, Stored, Stays;
    var w := Window(snaps[0], from, to);
    RestAfter(snaps[0], from, to, cur, last, e);
    Piece(snaps[0], from, to, e, |w|);
    assert w[e..|w|] == w[e..];
  }

  lemma PageOwes(snaps: seq<seq<bytes>>, from: int64, to: int64, limit: nat, cur: bytes, last: Option<bytes>, e: nat,
                 v: seq<bytes>, e': nat, rest: Visit)
    requires snaps != [] && AllStored(snaps[0]) && StrictlySorted(snaps[0]) && WalkPlace(snaps[0], from, to, cur, last, e)
    requires limit >= 1 && e + limit <= |Window(snaps[0], from, to)| && e' <= |v|
    requires Owed(rest, snaps[1..], v, e', Some(Window(snaps[0], from, to)[e + limit - 1]), from, to)
    requires forall x | x in Window(snaps[0], from, to)[e + limit..] && Stays(snaps, x) :: x in v[e'..]
    ensures var w := Window(snaps[0], from, to);
            Owed(Visit(w[e..e + limit] + rest.emitted, rest.done), snaps, w, e, last, from, to)
  {
    hide Window, WalkPlace, Owed, Less, MemTS, Stored, StrictlySorted, Stays;
    var w := Window(snaps[0], from, to);
    RestAfter(snaps[0], from, to, cur, last, e);
    Piece(snaps[0], from, to, e, e + limit);
    PageAfter(w, e, limit, last);
    hide AllAfter, InBounds;
    JoinOwed(snaps, w, e, limit, v, e', rest, last, from, to);
  }

  lemma StopsOwing(snaps: seq<seq<bytes>>, from: int64, to: int64, limit: nat, cur: bytes, last: Option<bytes>, e: nat)
    requires snaps != [] && AllStored(snaps[0]) && StrictlySorted(snaps[0]) && WalkPlace(snaps[0], from, to, cur, last, e)
    requires limit >= 1 && e + limit <= |Window(snaps[0], from, to)|
    ensures var w := Window(snaps[0], from, to); Owed(Visit(w[e..e + limit], false), snaps, w, e, last, from, to)
  {
    hide Window, WalkPlace, Less, MemTS, Stored;
    RestAfter(snaps[0], from, to, cur, last, e);
    Piece(snaps[0], from, to, e, e + limit);
    PageAfter(Window(snaps[0], from, to), e, limit, last);
  }

  lemma TailRun(snaps: seq<seq<bytes>>)
    requires FollowingRun(snaps) && |snaps| > 1
    ensures FollowingRun(snaps[1..]) && Follows(snaps[0], snaps[1])
  {
    hide Follows, AllStored, StrictlySorted;
    forall k | 0 <= k < |snaps[1..]| - 1 ensures Follows(snaps[1..][k], snaps[1..][k + 1]) {
      assert Follows(snaps[k + 1], snaps[k + 2]);
    }
  }

  lemma PageAfter(w: seq<bytes>, e: nat, limit: nat, last: Option<bytes>)
    requires e + limit <= |w| && AllAfter(w[e..], last)
    ensures AllAfter(w[e..e + limit], last)
  {
    hide Less;
    assert forall i | 0 <= i < limit :: w[e..e + limit][i] == w[e..][i];
  }

  /** What a walk promises: members in strictly ascending (ts, seq) order, so none twice, all inside the time window; and
      when it ends it has emitted every member of the window that stayed from its first page to its last. */
  ghost predicate Safe(v: Visit, snaps: seq<seq<bytes>>, from: int64, to: int64)
    requires snaps != [] && AllStored(snaps[0])
  {
    && StrictlySorted(v.emitted) && InBounds(v.emitted, from, to)
    && (v.done ==> forall x | x in snaps[0] && Stays(snaps, x) && from <= MemTS(x) <= to :: x in v.emitted)
  }

  /** A walk over a store that one writer keeps appending to is safe, evictions included, as long as none takes a member
      that the cursor of the moment skips. */
  lemma WalkIsSafe(snaps: seq<seq<bytes>>, from: int64, to: int64, limit: nat)
    requires FollowingRun(snaps) && limit >= 1 && snaps != [] && Spares(snaps, from, to, limit, [])
    ensures Safe(WalkOver(snaps, from, to, limit, []), snaps, from, to)
  {
    hide WalkOver, Less, MemTS, Stays, Spares;
    WalkOwes(snaps, from, to, limit, [], None, 0);
    var w := Window(snaps[0], from, to);
    assert w[0..] == w;
    forall x | x in snaps[0] && from <= MemTS(x) <= to ensures x in w {
      InWindow(snaps[0], from, to, x);
    }
  }

  /** Where nothing goes, everything stays. */
  lemma {:induction false} GrowingStays(snaps: seq<seq<bytes>>, k: nat)
    requires GrowingRun(snaps) && k < |snaps|
    ensures forall x | x in snaps[0] :: x in snaps[k]
    decreases k
  {
    hide Follows, AllStored, StrictlySorted;
    if k > 0 {
      GrowingStays(snaps, k - 1);
      assert Grows(snaps[k - 1], snaps[k - 1 + 1]);
    }
  }

  lemma {:induction false} GrowingSpares(snaps: seq<seq<bytes>>, from: int64, to: int64, limit: nat, cur: bytes)
    requires GrowingRun(snaps) && limit >= 1
    ensures Spares(snaps, from, to, limit, cur)
    decreases |snaps|
  {
    hide Range, NextCursor, Follows, Less, MemTS, StrictlySorted, AllStored;
    if |snaps| >= 2 {
      assert Grows(snaps[0], snaps[0 + 1]);
      forall k | 0 <= k < |snaps[1..]| - 1 ensures Grows(snaps[1..][k], snaps[1..][k + 1]) {
        assert Grows(snaps[k + 1], snaps[k + 2]);
      }
      var p := Range(snaps[0], from, to, limit, cur);
      if p.Some? {
        GrowingSpares(snaps[1..], from, to, limit, NextCursor(p.value));
      }
    }
  }

  /** Without evictions nothing is asked, and every member that was there when the walk began is emitted. */
  lemma WalkIsStable(snaps: seq<seq<bytes>>, from: int64, to: int64, limit: nat)
    requires GrowingRun(snaps) && limit >= 1 && snaps != []
    ensures var v := WalkOver(snaps, from, to, limit, []);
            && StrictlySorted(v.emitted)
            && InBounds(v.emitted, from, to)
            && (v.done ==> forall x | x in snaps[0] && from <= MemTS(x) <= to :: x in v.emitted)
  {
    hide WalkOver, Less, MemTS, Spares, StrictlySorted, AllStored, InBounds;
    forall k | 0 <= k < |snaps| - 1 ensures Follows(snaps[k], snaps[k + 1]) {
      assert Grows(snaps[k], snaps[k + 1]);
    }
    GrowingSpares(snaps, from, to, limit, []);
    WalkIsSafe(snaps, from, to, limit);
    forall x | x in snaps[0] ensures Stays(snaps, x) {
      forall k | 0 <= k < |snaps| ensures x in snaps[k] {
        GrowingStays(snaps, k);
      }
    }
  }

  // Exactly when an append disturbs a cursor.

  /** One more member, none evicted, keeps the cursor's place unless it has the cursor's timestamp and sorts before the
      last member emitted, as a second writer or an overtaken call can bring about; then the next page repeats that member. */
  lemma OneAppend(a: seq<bytes>, x: bytes, from: int64, to: int64, limit: nat, pos: Cursors.Position, last: bytes, e: nat)
      returns (e': nat)
    requires AllStored(a) && StrictlySorted(a) && x !in a && Stored(x) && limit >= 1
    requires StandsBehind(a, from, to, pos, last, e)
    ensures AllStored(Insert(a, x)) && StrictlySorted(Insert(a, x))
    ensures !Slips(x, pos, last) ==> StandsBehind(Insert(a, x), from, to, pos, last, e')
    ensures Slips(x, pos, last) ==> Repeats(PageAt(Insert(a, x), to, limit, pos), last)
  {
    var b := Insert(a, x);
    InsertedStored(a, x);
    InsertStrict(a, x);
    InsertedIn(a, x, last);
    var v := Window(b, from, to);
    assert Adds(a, x, b) by {
      forall y ensures y in b <==> y in a || y == x {
        InsertedIn(a, x, y);
      }
    }
    assert last in Window(a, from, to);
    InWindow(a, from, to, last);
    InWindow(b, from, to, last);
    hide Less, MemTS, Stands, Insert, StrictlySorted, Window, Stored;
    var k :| 0 <= k < |v| && v[k] == last;
    if Slips(x, pos, last) {
      e' := k;
      SlipsBack(a, x, b, from, to, pos, last, e, k);
      PageIsNext(b, from, to, limit, pos, k);
      assert v[k..] != [] && v[k..][0] == last;
    } else {
      e' := k + 1;
      KeepsPlace(a, x, b, from, to, pos, last, e, k);
    }
  }

  ghost predicate Slips(x: bytes, pos: Cursors.Position, last: bytes)
    requires Stored(x)
  {
    MemTS(x) == pos.ts && Less(x, last)
  }

  ghost predicate Repeats(p: Page, last: bytes) {
    p.members != [] && p.members[0] == last
  }

  /** `b` is `a` with the one member `x` added. */
  ghost predicate Adds(a: seq<bytes>, x: bytes, b: seq<bytes>) {
    forall y :: y in b <==> y in a || y == x
  }

  lemma NotSkipped(a: seq<bytes>, x: bytes, b: seq<bytes>, from: int64, to: int64, pos: Cursors.Position, last: bytes, e: nat)
    requires AllStored(a) && AllStored(b) && Stored(x) && Adds(a, x, b)
    requires StandsBehind(a, from, to, pos, last, e) && !Slips(x, pos, last) && x !in a
    ensures SameSkipped(a, b, pos.ts, last) && 0 < e <= |Window(a, from, to)|
  {
    hide Less, MemTS, Window, Below;
    assert last in Window(a, from, to);
    InWindow(a, from, to, last);
    LessTotal(x, last);
  }

  lemma KeepsPlace(a: seq<bytes>, x: bytes, b: seq<bytes>, from: int64, to: int64, pos: Cursors.Position, last: bytes, e: nat, k: nat)
    requires AllStored(a) && AllStored(b) && StrictlySorted(a) && StrictlySorted(b) && Stored(x) && Adds(a, x, b) && x !in a
    requires StandsBehind(a, from, to, pos, last, e) && !Slips(x, pos, last)
    requires var v := Window(b, from, to); k < |v| && v[k] == last
    ensures StandsBehind(b, from, to, pos, last, k + 1)
  {
    var w := Window(a, from, to);
    var v := Window(b, from, to);
    NotSkipped(a, x, b, from, to, pos, last, e);
    hide Less, MemTS, Below, Stands, StrictlySorted, Window, Adds, AllStored, Stored, Slips, SameSkipped;
    RunsAgree(a, b, from, to, pos.ts, last, e, k);
    StandsFrom(w, v, pos, e, k + 1);
  }

  /** The run the cursor skips, with the newcomer in it. */
  lemma OneLonger(a: seq<bytes>, x: bytes, b: seq<bytes>, from: int64, to: int64, pos: Cursors.Position, last: bytes, e: nat, k: nat)
    requires AllStored(a) && AllStored(b) && StrictlySorted(a) && StrictlySorted(b) && Stored(x) && Adds(a, x, b) && x !in a
    requires StandsBehind(a, from, to, pos, last, e) && MemTS(x) == pos.ts && !Less(last, x)
    requires var v := Window(b, from, to); k < |v| && v[k] == last
    ensures var w := Window(a, from, to); var v := Window(b, from, to);
            Below(v, pos.ts) <= k && e - Below(w, pos.ts) == k - Below(v, pos.ts)
  {
    var w := Window(a, from, to);
    var v := Window(b, from, to);
    assert 0 < e <= |w| && w[e - 1] == last && MemTS(last) == pos.ts;
    var t := pos.ts;
    hide Less, MemTS, Below, Stands, StandsBehind, StrictlySorted, Window, SkipRun, Insert, AllStored, Stored;
    SkippedOf(a, from, to, t, last, e, x);
    SkippedOf(b, from, to, t, last, k + 1, last);
    var r := SkipRun(w, t, e);
    InsertStrict(r, x);
    forall y ensures y in SkipRun(v, t, k + 1) <==> y in Insert(r, x) {
      SkippedOf(a, from, to, t, last, e, y);
      SkippedOf(b, from, to, t, last, k + 1, y);
      InsertedIn(r, x, y);
    }
    SameElements(SkipRun(v, t, k + 1), Insert(r, x));
  }

  /** The newcomer is one more member of the run in front of `last`: the cursor skips one too few. */
  lemma SlipsBack(a: seq<bytes>, x: bytes, b: seq<bytes>, from: int64, to: int64, pos: Cursors.Position, last: bytes, e: nat, k: nat)
    requires AllStored(a) && AllStored(b) && StrictlySorted(a) && StrictlySorted(b) && Stored(x) && Adds(a, x, b) && x !in a
    requires StandsBehind(a, from, to, pos, last, e) && Slips(x, pos, last)
    requires var v := Window(b, from, to); k < |v| && v[k] == last
    ensures Stands(Window(b, from, to), pos, k)
  {
    var w := Window(a, from, to);
    var v := Window(b, from, to);
    LessAsymmetric(x, last);
    hide Less, MemTS, Below, Stands, StrictlySorted, Window, Adds, Insert;
    OneLonger(a, x, b, from, to, pos, last, e, k);
    StandsFromBefore(b, from, to, w, pos, e, k);
  }

  lemma InsertedIn(a: seq<bytes>, x: bytes, y: bytes)
    ensures y in Insert(a, x) <==> y in a || y == x
  {
    InsertMultiset(a, x);
    assert y in Insert(a, x) <==> y in multiset(Insert(a, x));
    assert y in a <==> y in multiset(a);
  }

  lemma InsertedStored(a: seq<bytes>, x: bytes)
    requires AllStored(a) && Stored(x)
    ensures AllStored(Insert(a, x))
  {
    hide MemTS;
    forall i | 0 <= i < |Insert(a, x)| ensures Stored(Insert(a, x)[i]) {
      InsertedIn(a, x, Insert(a, x)[i]);
    }
  }

  lemma StandsFromBefore(b: seq<bytes>, from: int64, to: int64, w: seq<bytes>, pos: Cursors.Position, e: nat, k: nat)
    requires AllStored(b) && StrictlySorted(b) && AllStored(w) && Stands(w, pos, e)
    requires var v := Window(b, from, to);
             k < |v| && MemTS(v[k]) == pos.ts && Below(v, pos.ts) <= k && e - Below(w, pos.ts) == k - Below(v, pos.ts)
    ensures Stands(Window(b, from, to), pos, k)
  {
    WindowSorted(b, from, to);
    hide Less, MemTS, Window;
    if k > 0 {
      SortedByTs(Window(b, from, to), k - 1, k);
    }
  }
}
