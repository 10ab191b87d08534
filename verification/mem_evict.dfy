/** Cursor walks on the in-memory store at its cap (internal/store/mem.go, Append and Range): what evictions do to them, in
    runs of one process. */
module MemEvictions {
  import opened Bytes
  import opened Strconv
  import opened Points
  import opened Codec
  import opened SortedMembers
  import opened Paging
  import opened Walks
  import opened CursorDrift
  import opened MemStores
  import Cursors

  /** What is in `b` and not in `a` is numbered above `top`. */
  ghost predicate Newer(a: seq<bytes>, b: seq<bytes>, top: nat)
    requires AllStored(b)
  {
    forall x | x in b && x !in a :: MemSeq(x) > top
  }

  lemma NewerFollows(a: seq<bytes>, b: seq<bytes>, top: nat)
    requires GoodDevice(a, top) && AllStored(b) && Newer(a, b, top)
    ensures Follows(a, b)
  {
    hide Less, MemTS, MemSeq, StrictlySorted;
    forall x, y | x in b && x !in a && y in a && MemTS(x) == MemTS(y) ensures Less(y, x) {
      assert MemSeq(y) <= top < MemSeq(x);
      LowerNumber(y, x);
    }
  }

  lemma NewerTransitive(a: seq<bytes>, b: seq<bytes>, c: seq<bytes>, low: nat, high: nat)
    requires AllStored(b) && AllStored(c) && Newer(a, b, low) && Newer(b, c, high) && low <= high
    ensures Newer(a, c, low)
  {
    hide MemSeq, MemTS;
  }

  lemma InBatch(pts: seq<StoredPoint>, start: uint64, x: bytes)
    requires start + |pts| < TWO64 && x in EncodeBatch(pts, start)
    ensures |x| == ENCODED_LEN && MemSeq(x) > start
  {
    hide Encode, MemSeq;
    var ms := EncodeBatch(pts, start);
    var i :| 0 <= i < |ms| && ms[i] == x;
    DecodeEncode(pts[i], NextSeq(start, i + 1));
  }

  lemma AddedNewer(ms: seq<bytes>, pts: seq<StoredPoint>, start: uint64)
    requires ValidTimes(pts) && GoodDevice(ms, start) && start + |pts| < TWO64
    ensures var r := InsertAll(ms, EncodeBatch(pts, start)); GoodDevice(r, start + |pts|) && Newer(ms, r, start)
  {
    hide MemSeq, MemTS, Less, StrictlySorted, InsertAll, EncodeBatch, Grows;
    var batch := EncodeBatch(pts, start);
    var r := InsertAll(ms, batch);
    MemStores.BatchGrows(ms, pts, start);
    InsertAllMultiset(ms, batch);
    forall x | x in r && x !in ms ensures MemSeq(x) > start {
      assert x in multiset(r) && x !in multiset(ms);
      assert x in multiset(batch);
      InBatch(pts, start, x);
    }
  }

  lemma StepNewer(cap: nat, m: State, op: Op, id: string)
    requires GoodDevice(Get(m.dev, id), m.count) && ValidTimes(op.pts) && m.count + |op.pts| < TWO64
    ensures var t := Step(cap, m, op);
            && t.count == m.count + |op.pts| && GoodDevice(Get(t.dev, id), t.count)
            && Newer(Get(m.dev, id), Get(t.dev, id), m.count)
  {
    hide MemSeq, MemTS, Less, StrictlySorted, InsertAll, EncodeBatch, Stored;
    if op.id == id {
      AddedNewer(Get(m.dev, id), op.pts, m.count);
      var r := InsertAll(Get(m.dev, id), EncodeBatch(op.pts, m.count));
      LastGood(cap, r, m.count + |op.pts|);
      LastIn(cap, r);
    }
  }

  lemma LastIn(cap: nat, r: seq<bytes>)
    ensures forall x | x in Last(cap, r) :: x in r
  {
  }

  /** Between any two moments of a process, evictions included, only members numbered above the counter come in. */
  lemma {:induction false} RunNewer(cap: nat, s: State, ops: seq<Op>, id: string)
    requires GoodDevice(Get(s.dev, id), s.count) && s.count + |Flat(ops)| < TWO64 && AllValid(ops)
    ensures var t := MemStores.Run(cap, s, ops);
            && t.count == s.count + |Flat(ops)| && GoodDevice(Get(t.dev, id), t.count)
            && Newer(Get(s.dev, id), Get(t.dev, id), s.count)
    decreases |ops|
  {
    hide MemSeq, MemTS, Less, StrictlySorted, Newer, GoodDevice, ValidTimes, Step, Stored;
    if ops == [] {
      GoodStored(Get(s.dev, id), s.count);
      NewerItself(Get(s.dev, id), s.count);
    } else {
      var k := |ops| - 1;
      RunNewer(cap, s, ops[..k], id);
      var m := MemStores.Run(cap, s, ops[..k]);
      var t := Step(cap, m, ops[k]);
      StepNewer(cap, m, ops[k], id);
      GoodStored(Get(m.dev, id), m.count);
      GoodStored(Get(t.dev, id), t.count);
      NewerTransitive(Get(s.dev, id), Get(m.dev, id), Get(t.dev, id), s.count, m.count);
    }
  }

  lemma NewerItself(a: seq<bytes>, top: nat)
    requires AllStored(a)
    ensures Newer(a, a, top)
  {
  }

  // Whole runs.

  /** The calls `ops` follow the calls `before` in a process whose counter does not wrap, and all points have valid times. */
  ghost predicate ProcessRun(cap: nat, before: seq<Op>, ops: seq<Op>) {
    cap < TWO63 && |Flat(before)| + |Flat(ops)| < TWO64 && AllValid(before) && AllValid(ops)
  }

  lemma SeenIsGood(cap: nat, before: seq<Op>, ops: seq<Op>, id: string, cut: nat)
    requires ProcessRun(cap, before, ops) && cut <= |ops|
    ensures |Flat(before + ops[..cut])| < TWO64
    ensures GoodDevice(Seen(cap, before, ops, id, cut), |Flat(before + ops[..cut])|)
    ensures |Seen(cap, before, ops, id, cut)| < TWO63
  {
    hide GoodDevice, AllValid, Flat, MemStores.Run;
    CallsBefore(before, ops, cut);
    RunGood(cap, before + ops[..cut], id);
    RunSize(cap, before + ops[..cut], id);
  }

  lemma SeenFollows(cap: nat, before: seq<Op>, ops: seq<Op>, id: string, i: nat, j: nat)
    requires ProcessRun(cap, before, ops) && i <= j <= |ops|
    ensures AllStored(Seen(cap, before, ops, id, i)) && AllStored(Seen(cap, before, ops, id, j))
    ensures Follows(Seen(cap, before, ops, id, i), Seen(cap, before, ops, id, j))
  {
    hide Stored, StrictlySorted, Follows, MemSeq, Flat, ValidTimes, MemStores.Run, Get, Newer;
    SeenIsGood(cap, before, ops, id, i);
    SeenIsGood(cap, before, ops, id, j);
    hide GoodDevice;
    var early := before + ops[..i];
    var mid := ops[i..j];
    assert before + ops[..j] == early + mid;
    RunCompose(cap, EMPTY, early, mid);
    FlatCompose(early, mid);
    CallsBefore(before, ops, i);
    CallsBefore(before, ops, j);
    RunGood(cap, early, id);
    RunNewer(cap, MemStores.Run(cap, EMPTY, early), mid, id);
    NewerFollows(Seen(cap, before, ops, id, i), Seen(cap, before, ops, id, j), |Flat(early)|);
  }

  lemma SnapsFollow(cap: nat, before: seq<Op>, ops: seq<Op>, id: string, cuts: seq<nat>)
    requires ProcessRun(cap, before, ops) && Cuts(cuts, |ops|)
    ensures FollowingRun(Snaps(cap, before, ops, id, cuts))
  {
    hide ProcessRun, Seen, StrictlySorted, Follows, Stored, MemSeq;
    var snaps := Snaps(cap, before, ops, id, cuts);
    forall k | 0 <= k < |snaps| ensures AllStored(snaps[k]) && StrictlySorted(snaps[k]) && |snaps[k]| < TWO63 {
      SeenIsGood(cap, before, ops, id, cuts[k]);
    }
    forall k | 0 <= k < |snaps| - 1 ensures Follows(snaps[k], snaps[k + 1]) {
      SeenFollows(cap, before, ops, id, cuts[k], cuts[k + 1]);
    }
  }

  /** Walks in any run of one process, evictions included: in order, none twice, all in the window, and none missed that
      stayed, as long as no eviction between two pages takes a member that the cursor skips. */
  lemma WalkDuringEvictions(cap: nat, before: seq<Op>, ops: seq<Op>, id: string, cuts: seq<nat>, from: int64, to: int64, limit: nat)
    requires ProcessRun(cap, before, ops) && Cuts(cuts, |ops|) && limit >= 1
    ensures var snaps := Snaps(cap, before, ops, id, cuts);
            && FollowingRun(snaps)
            && (Spares(snaps, from, to, limit, []) ==> Safe(WalkOver(snaps, from, to, limit, []), snaps, from, to))
            && (Straight(snaps, from, to, limit, []) ==>
                  var v := WalkOver(snaps, from, to, limit, []); StrictlySorted(v.emitted) && InBounds(v.emitted, from, to))
  {
    hide ProcessRun, WalkOver, Spares, Straight, Safe, Snaps, StrictlySorted, InBounds;
    var snaps := Snaps(cap, before, ops, id, cuts);
    SnapsFollow(cap, before, ops, id, cuts);
    SnapsSome(cap, before, ops, id, cuts);
    if Spares(snaps, from, to, limit, []) {
      WalkIsSafe(snaps, from, to, limit);
    }
    if Straight(snaps, from, to, limit, []) {
      WalkIsOrdered(snaps, from, to, limit);
    }
  }

  lemma SnapsSome(cap: nat, before: seq<Op>, ops: seq<Op>, id: string, cuts: seq<nat>)
    requires Cuts(cuts, |ops|)
    ensures Snaps(cap, before, ops, id, cuts) != []
  {
  }

  /** One whole call of Append: the cursor behind the last member emitted keeps its place if and only if the call evicts no
      member that it skips. If it evicts `d`, the next page starts `d` places further on, leaving out what is there. */
  lemma StepDrift(cap: nat, m: State, op: Op, id: string, from: int64, to: int64, limit: nat, pos: Cursors.Position, last: bytes)
    requires GoodDevice(Get(m.dev, id), m.count) && ValidTimes(op.pts) && m.count + |op.pts| < TWO64 && limit >= 1
    requires Behind(Get(m.dev, id), from, to, pos, last)
    ensures var a := Get(m.dev, id); var b := Get(Step(cap, m, op).dev, id);
            && AllStored(b) && StrictlySorted(b)
            && var v := Window(b, from, to); var d := |Gone(a, b, pos.ts, last)|;
               && Start(v, pos) == Passed(v, last) + d
               && (d == 0 <==> Spared(a, b, pos.ts, last))
               && PageAt(b, to, limit, pos).members == Slice(v, Passed(v, last) + d, limit)
  {
    hide MemSeq, MemTS, Less, Step, Window, Below, PageAt, Follows, Gone, Slice, Passed, Spared, Behind, Newer, Stored;
    var a, b := Get(m.dev, id), Get(Step(cap, m, op).dev, id);
    StepNewer(cap, m, op, id);
    NewerFollows(a, b, m.count);
    EvictionDrift(a, b, from, to, limit, pos, last);
  }

  // A device at its cap.

  lemma {:induction false} WholeWindow(ms: seq<bytes>, lo: int64, hi: int64)
    requires InBounds(ms, lo, hi)
    ensures AllStored(ms) && Window(ms, lo, hi) == ms
    decreases |ms|
  {
    hide MemTS;
    if ms != [] {
      WholeWindow(ms[..|ms| - 1], lo, hi);
      assert ms == ms[..|ms| - 1] + [ms[|ms| - 1]];
    }
  }

  /** A page of one member. */
  lemma SinglePage(ms: seq<bytes>, from: int64, to: int64, pos: Cursors.Position)
    requires StrictlySorted(ms) && InBounds(ms, from, to) && from <= pos.ts
    requires AllStored(ms) ==> Start(ms, pos) < |ms|
    ensures AllStored(ms) && Window(ms, from, to) == ms
    ensures var s := Start(ms, pos); var ts := MemTS(ms[s]);
            PageAt(ms, to, 1, pos) ==
            Page([ms[s]], if |ms| == s + 1 then None
                          else Some(Cursors.Position(ts, if ts == pos.ts then 1 + pos.skip else 1)))
  {
    hide MemTS, Less, Below, Window, StrictlySorted, PageAt;
    WholeWindow(ms, from, to);
    PageFrom(ms, from, to, 1, pos);
    var s := Start(ms, pos);
    if |ms| > s + 1 {
      NextValue(ms, from, to, 1, pos);
      assert ms[s..s + 1] == [ms[s]];
      assert Paging.Run([ms[s]], MemTS(ms[s])) == 1 + Paging.Run([ms[s]][..0], MemTS(ms[s]));
    } else {
      assert ms[s..] == [ms[s]];
    }
  }

  lemma {:induction false} InsertInOrder(ms: seq<bytes>, xs: seq<bytes>)
    requires StrictlySorted(ms + xs)
    ensures InsertAll(ms, xs) == ms + xs
    decreases |xs|
  {
    hide Less, Insert;
    if xs == [] {
      assert ms + xs == ms;
    } else {
      var more := ms + [xs[0]];
      assert more + xs[1..] == ms + xs;
      InsertLast(ms, xs[0], ms + xs);
      InsertInOrder(more, xs[1..]);
    }
  }

  lemma InsertLast(ms: seq<bytes>, x: bytes, all: seq<bytes>)
    requires StrictlySorted(all) && |ms| < |all| && all[..|ms|] == ms && all[|ms|] == x
    ensures Insert(ms, x) == ms + [x]
  {
    hide Less, Position;
    forall i | 0 <= i < |ms| ensures Less(ms[i], x) {
      assert all[i] == ms[i];
    }
    forall i, j | 0 <= i < j < |ms| ensures Less(ms[i], ms[j]) {
      assert all[i] == ms[i] && all[j] == ms[j];
    }
    StrictIsSorted(ms);
    PositionUnique(ms, x, |ms|);
  }

  function Stamp(t: int64): StoredPoint {
    Point(t, 0, 0, 0, false, 0, 0, 0)
  }

  /** Four members, one of timestamp 1 and three of timestamp 2, numbered in order. */
  function Four(): (m: seq<bytes>)
    ensures |m| == 4
  {
    [Encode(Stamp(1), 1), Encode(Stamp(2), 2), Encode(Stamp(2), 3), Encode(Stamp(2), 4)]
  }

  /** The first of timestamp 1, the others of timestamp 2, in order. */
  ghost predicate OneAndThree(m: seq<bytes>) {
    && |m| == 4 && StrictlySorted(m) && InBounds(m, 1, 2)
    && MemTS(m[0]) == 1 && MemTS(m[1]) == 2 && MemTS(m[2]) == 2 && MemTS(m[3]) == 2
  }

  lemma InOrderOfFour(m: seq<bytes>)
    requires |m| == 4 && Less(m[0], m[1]) && Less(m[1], m[2]) && Less(m[2], m[3])
    ensures StrictlySorted(m)
  {
    LessTransitive(m[0], m[1], m[2]);
    LessTransitive(m[0], m[2], m[3]);
    LessTransitive(m[1], m[2], m[3]);
    hide Less;
  }

  lemma Stamped(t: int64, n: uint64)
    requires t >= 0
    ensures Stored(Encode(Stamp(t), n)) && MemTS(Encode(Stamp(t), n)) == t
  {
    hide Encode;
    DecodeEncode(Stamp(t), n);
  }

  lemma FourInOrder()
    ensures OneAndThree(Four())
  {
    hide Encode, Less, MemTS, StrictlySorted;
    Stamped(1, 1);
    Stamped(2, 2);
    Stamped(2, 3);
    Stamped(2, 4);
    MemberOrder(Stamp(1), 1, Stamp(2), 2);
    MemberOrder(Stamp(2), 2, Stamp(2), 3);
    MemberOrder(Stamp(2), 3, Stamp(2), 4);
    InOrderOfFour(Four());
  }

  const FULL: seq<StoredPoint> := [Stamp(1), Stamp(2), Stamp(2)]

  /** A device with room for three, filled, and then written once more. */
  lemma FullDevice(id: string)
    ensures var m := Four(); var s := MemStores.Run(3, EMPTY, [Op(id, FULL)]);
            && s.count == 3 && Get(s.dev, id) == m[..3]
            && Get(Step(3, s, Op(id, [Stamp(2)])).dev, id) == m[1..]
  {
    hide Encode, StrictlySorted, InsertAll, Insert;
    var m := Four();
    FourInOrder();
    OneCall(3, EMPTY, Op(id, FULL));
    assert EncodeBatch(FULL, 0) == m[..3];
    assert StrictlySorted([] + m[..3]) by {
      SubSorted(m, 0, 3);
      assert [] + m[..3] == m[0..3];
    }
    InsertInOrder([], m[..3]);
    var s := Step(3, EMPTY, Op(id, FULL));
    assert EncodeBatch([Stamp(2)], 3) == [m[3]];
    assert m[..3] + [m[3]] == m;
    InsertInOrder(m[..3], [m[3]]);
  }

  lemma OneCall(cap: nat, s: State, op: Op)
    ensures MemStores.Run(cap, s, [op]) == Step(cap, s, op)
  {
    hide Step;
    assert [op][..0] == [];
  }

  /** The four pages, one member each: behind the first page the member it ended with is evicted. */
  lemma FourPages(m: seq<bytes>, a: seq<bytes>, b: seq<bytes>)
    requires OneAndThree(m) && a == m[..3] && b == m[1..]
    ensures AllStored(a) && AllStored(b) && StrictlySorted(a) && StrictlySorted(b)
    ensures PageAt(a, 2, 1, Cursors.Position(1, 0)) == Page([m[0]], Some(Cursors.Position(1, 1)))
    ensures PageAt(b, 2, 1, Cursors.Position(1, 1)) == Page([m[2]], Some(Cursors.Position(2, 1)))
    ensures PageAt(b, 2, 1, Cursors.Position(2, 1)) == Page([m[2]], Some(Cursors.Position(2, 2)))
    ensures PageAt(b, 2, 1, Cursors.Position(2, 2)) == Page([m[3]], None)
  {
    hide Less, MemTS, Window, PageAt;
    assert InBounds(a, 1, 2) && InBounds(b, 1, 2);
    assert StrictlySorted(a) && StrictlySorted(b);
    assert a[0] == m[0] && b[0] == m[1] && b[1] == m[2] && b[2] == m[3];
    hide StrictlySorted;
    assert Below(a, 1) == 0 && Below(b, 1) == 0 && Below(b, 2) == 0;
    hide Below;
    SinglePage(a, 1, 2, Cursors.Position(1, 0));
    SinglePage(b, 1, 2, Cursors.Position(1, 1));
    SinglePage(b, 1, 2, Cursors.Position(2, 1));
    SinglePage(b, 1, 2, Cursors.Position(2, 2));
  }

  const CUTS: seq<nat> := [0, 1, 1, 1]

  lemma OneOp(id: string, pts: seq<StoredPoint>)
    requires ValidTimes(pts)
    ensures var ops := [Op(id, pts)]; AllValid(ops) && |Flat(ops)| == |pts| && ops[..0] == [] && ops[..1] == ops
  {
    var ops := [Op(id, pts)];
    assert Flat(ops[..0]) == [];
  }

  lemma FullRun(id: string)
    ensures ProcessRun(3, [Op(id, FULL)], [Op(id, [Stamp(2)])]) && Cuts(CUTS, 1)
  {
    hide Flat, AllValid;
    OneOp(id, FULL);
    OneOp(id, [Stamp(2)]);
  }

  lemma FullSnaps(id: string)
    requires Cuts(CUTS, 1)
    ensures var m := Four(); Snaps(3, [Op(id, FULL)], [Op(id, [Stamp(2)])], id, CUTS) == [m[..3], m[1..], m[1..], m[1..]]
  {
    hide Four, Step, Get;
    var before, ops := [Op(id, FULL)], [Op(id, [Stamp(2)])];
    FullDevice(id);
    OneOp(id, [Stamp(2)]);
    assert before + [] == before;
    assert (before + ops)[..1] == before;
  }

  /** On a device at its cap a walk of one process can serve a member twice and leave out one that is stored throughout:
      with room for three, one page before and three pages after a fourth append. */
  lemma EvictionBreaksWalk(id: string)
    ensures var m := Four(); var before := [Op(id, FULL)]; var ops := [Op(id, [Stamp(2)])];
            && ProcessRun(3, before, ops) && Cuts(CUTS, |ops|)
            && var snaps := Snaps(3, before, ops, id, CUTS);
               && GoodSnaps(snaps)
               && WalkOver(snaps, 1, 2, 1, []) == Visit([m[0], m[2], m[2], m[3]], true)
               && Stays(snaps, m[1]) && m[1] !in [m[0], m[2], m[2], m[3]]
  {
    hide PageAt, StrictlySorted, AllStored, InBounds, MemTS, WalkOver, Four, Flat, Snaps, ProcessRun, Cuts;
    var m := Four();
    var a, b := m[..3], m[1..];
    FourDiffer();
    FourInOrder();
    FourPages(m, a, b);
    FullRun(id);
    FullSnaps(id);
    FourSteps(a, b, m);
    assert m[1] == a[1] && m[1] == b[0];
  }

  lemma FourDiffer()
    ensures var m := Four(); |m| == 4 && m[1] != m[0] && m[1] != m[2] && m[1] != m[3]
  {
    hide Encode;
    var m := Four();
    if m[1] == m[0] {
      EncodeInjective(Stamp(2), 2, Stamp(1), 1);
    }
    if m[1] == m[2] {
      EncodeInjective(Stamp(2), 2, Stamp(2), 3);
    }
    if m[1] == m[3] {
      EncodeInjective(Stamp(2), 2, Stamp(2), 4);
    }
  }

  lemma FourSteps(a: seq<bytes>, b: seq<bytes>, m: seq<bytes>)
    requires |m| == 4 && AllStored(a) && AllStored(b)
    requires PageAt(a, 2, 1, Cursors.Position(1, 0)) == Page([m[0]], Some(Cursors.Position(1, 1)))
    requires PageAt(b, 2, 1, Cursors.Position(1, 1)) == Page([m[2]], Some(Cursors.Position(2, 1)))
    requires PageAt(b, 2, 1, Cursors.Position(2, 1)) == Page([m[2]], Some(Cursors.Position(2, 2)))
    requires PageAt(b, 2, 1, Cursors.Position(2, 2)) == Page([m[3]], None)
    ensures WalkOver([a, b, b, b], 1, 2, 1, []) == Visit([m[0], m[2], m[2], m[3]], true)
  {
    hide PageAt, AllStored, NextCursor, Cursors.Decode;
    var p1 := PageAt(a, 2, 1, Cursors.Position(1, 0));
    var p2 := PageAt(b, 2, 1, Cursors.Position(1, 1));
    var p3 := PageAt(b, 2, 1, Cursors.Position(2, 1));
    NextDecodes(p1, 1);
    NextDecodes(p2, 1);
    NextDecodes(p3, 1);
    assert [b][1..] == [] && [b, b][1..] == [b] && [b, b, b][1..] == [b, b] && [a, b, b, b][1..] == [b, b, b];
    assert WalkOver([b], 1, 2, 1, NextCursor(p3)) == Visit([m[3]], true);
    assert WalkOver([b, b], 1, 2, 1, NextCursor(p2)) == Visit([m[2], m[3]], true);
    assert WalkOver([b, b, b], 1, 2, 1, NextCursor(p1)) == Visit([m[2], m[2], m[3]], true);
  }
}
