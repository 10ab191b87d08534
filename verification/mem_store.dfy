/** The in-memory store as the code runs it (internal/store/mem.go) and the page builder both stores share
    (internal/store/paginate.go). */
module MemStoreCode {
  import opened Bytes
  import opened Strconv
  import opened Points
  import opened Codec
  import opened SortedMembers
  import opened Paging
  import opened Walks
  import opened MemStores
  import Cursors

  function PointsOf(ms: seq<bytes>): (ps: seq<StoredPoint>)
    requires AllEncoded(ms)
    ensures |ps| == |ms|
  {
    seq(|ms|, i requires 0 <= i < |ms| => Codec.Decode(ms[i]).value)
  }

  lemma LessOrEqualBelow(a: bytes, b: bytes, x: bytes)
    requires !Less(b, a) && Less(b, x)
    ensures Less(a, x)
  {
    LessTotal(a, b);
    if a != b {
      LessTransitive(a, b, x);
    }
  }

  /** sort.Search: the first index whose member is not less than `x`, by halving. */
  method Search(ms: seq<bytes>, x: bytes) returns (i: nat)
    requires Sorted(ms)
    ensures i == Position(ms, x)
  {
    hide Less;
    i := 0;
    var j := |ms|;
    while i < j
      invariant 0 <= i <= j <= |ms|
      invariant forall k | 0 <= k < i :: Less(ms[k], x)
      invariant j < |ms| ==> !Less(ms[j], x)
    {
      var h := (i + j) / 2;
      if Less(ms[h], x) {
        forall k | 0 <= k < h + 1 ensures Less(ms[k], x) {
          if k < h {
            LessOrEqualBelow(ms[k], ms[h], x);
          }
        }
        i := h + 1;
      } else {
        j := h;
      }
    }
    PositionUnique(ms, x, i);
  }

  /** How many points at the end of `page` have timestamp `ts`. */
  function RunOfPoints(page: seq<StoredPoint>, ts: int64): (n: nat)
    ensures n <= |page|
  {
    if page == [] || page[|page| - 1].ts != ts then 0 else 1 + RunOfPoints(page[..|page| - 1], ts)
  }

  /** BuildPage as the code has it, on points: the page and the next cursor, "" when nothing more remains. */
  function PagePoints(fetched: seq<StoredPoint>, limit: nat, pos: Cursors.Position): (r: (seq<StoredPoint>, bytes))
    requires limit >= 1
    ensures r.0 <= fetched
  {
    if |fetched| <= limit then (fetched, []) else
      var page := fetched[..limit];
      var lastTs := page[limit - 1].ts;
      var run := RunOfPoints(page, lastTs);
      (page, Cursors.Encode(lastTs, if lastTs == pos.ts then run + pos.skip else run))
  }

  lemma {:induction false} RunOfPointsIs(page: seq<StoredPoint>, ts: int64, n: nat)
    requires n <= |page| && forall i | |page| - n <= i < |page| :: page[i].ts == ts
    requires n < |page| ==> page[|page| - n - 1].ts != ts
    ensures RunOfPoints(page, ts) == n
    decreases n
  {
    if n > 0 {
      RunOfPointsIs(page[..|page| - 1], ts, n - 1);
    }
  }

  method PageOfPoints(fetched: seq<StoredPoint>, limit: nat, curTs: int64, curSkip: nat)
      returns (page: seq<StoredPoint>, next: bytes)
    requires limit >= 1
    ensures (page, next) == PagePoints(fetched, limit, Cursors.Position(curTs, curSkip))
  {
    hide Cursors.Encode;
    if |fetched| <= limit {
      return fetched, [];
    }
    page := fetched[..limit];
    var lastTs := page[limit - 1].ts;
    var run := 0;
    var i := limit - 1;
    while i >= 0 && page[i].ts == lastTs
      invariant -1 <= i < limit && run == limit - 1 - i
      invariant forall k | i < k < limit :: page[k].ts == lastTs
    {
      run := run + 1;
      i := i - 1;
    }
    RunOfPointsIs(page, lastTs, run);
    var skip: nat := run;
    if lastTs == curTs {
      skip := skip + curSkip;
    }
    return page, Cursors.Encode(lastTs, skip);
  }

  lemma {:induction false} SameRun(ms: seq<bytes>, ts: int64)
    requires AllEncoded(ms)
    ensures RunOfPoints(PointsOf(ms), ts) == Paging.Run(ms, ts)
    decreases |ms|
  {
    hide Codec.Decode, MemTS;
    if ms != [] {
      var k := |ms| - 1;
      DecodedTs(ms[k]);
      SameRun(ms[..k], ts);
      assert PointsOf(ms)[..k] == PointsOf(ms[..k]);
    }
  }

  /** The page of the points is the points of the page, with the same cursor. */
  lemma PagePointsIs(ms: seq<bytes>, limit: nat, pos: Cursors.Position)
    requires AllEncoded(ms) && limit >= 1
    ensures var p := Paging.BuildPage(ms, limit, pos);
            AllEncoded(p.members) && PagePoints(PointsOf(ms), limit, pos) == (PointsOf(p.members), NextCursor(p))
  {
    hide Codec.Decode, Cursors.Encode, MemTS, Paging.Run, RunOfPoints;
    if |ms| > limit {
      var cut := ms[..limit];
      assert PointsOf(ms)[..limit] == PointsOf(cut);
      DecodedTs(cut[limit - 1]);
      SameRun(cut, MemTS(cut[limit - 1]));
    }
  }

  lemma DecodedTs(m: bytes)
    requires |m| == ENCODED_LEN
    ensures Codec.Decode(m).value.ts == MemTS(m)
  {
    hide FromBE8, FromLE8;
  }

  method TsOf(m: bytes) returns (ts: int64)
    requires |m| == ENCODED_LEN
    ensures ts == MemTS(m)
  {
    ts := MemTS(m);
  }

  method DecodeStored(m: bytes) returns (p: StoredPoint)
    requires |m| == ENCODED_LEN
    ensures Codec.Decode(m) == Some(p)
  {
    p := Codec.Decode(m).value;
  }

  lemma FetchedIs(w: seq<bytes>, skip: nat, limit: nat)
    requires AllEncoded(w)
    ensures AllEncoded(Fetched(w, skip, limit))
    ensures forall k | 0 <= k < |Fetched(w, skip, limit)| :: Fetched(w, skip, limit)[k] == w[skip + k]
  {
  }

  /** The scan under the read lock: the members inside the window. */
  method ScanWindow(members: seq<bytes>, curTs: int64, to: int64) returns (window: seq<bytes>)
    requires AllEncoded(members)
    ensures window == Window(members, curTs, to)
  {
    hide MemTS;
    window := [];
    var k := 0;
    while k < |members|
      invariant 0 <= k <= |members| && window == Window(members[..k], curTs, to)
    {
      assert members[..k + 1][..k] == members[..k];
      var ts := TsOf(members[k]);
      if ts >= curTs && ts <= to {
        window := window + [members[k]];
      }
      k := k + 1;
    }
    assert members[..k] == members;
  }

  /** At most limit+1 points, from place `skip` of the window on. */
  method DecodeFrom(window: seq<bytes>, skip: nat, limit: nat) returns (fetched: seq<StoredPoint>)
    requires AllEncoded(window)
    ensures AllEncoded(Fetched(window, skip, limit))
    ensures fetched == PointsOf(Fetched(window, skip, limit))
  {
    hide Codec.Decode, Fetched;
    fetched := [];
    var i := skip;
    while i < |window| && |fetched| < limit + 1
      invariant skip <= i && |fetched| == i - skip <= limit + 1 && (i > skip ==> i <= |window|)
      invariant forall k | 0 <= k < |fetched| :: Codec.Decode(window[skip + k]) == Some(fetched[k])
    {
      var p := DecodeStored(window[i]);
      fetched := fetched + [p];
      i := i + 1;
    }
    FetchedIs(window, skip, limit);
    assert |Fetched(window, skip, limit)| == |fetched| by {
      FetchedSize(window, skip, limit);
    }
  }

  lemma FetchedSize(w: seq<bytes>, skip: nat, limit: nat)
    ensures |Fetched(w, skip, limit)| ==
            if skip >= |w| then 0 else if skip + limit + 1 >= |w| then |w| - skip else limit + 1
  {
  }

  /** The points of `tail`, last member first. */
  method DecodeBackwards(tail: seq<bytes>) returns (out: seq<StoredPoint>)
    requires AllEncoded(tail)
    ensures out == Reversed(PointsOf(tail))
  {
    hide Codec.Decode;
    out := [];
    var i := |tail| - 1;
    while i >= 0
      invariant -1 <= i < |tail| && |out| == |tail| - 1 - i
      invariant forall k | 0 <= k < |out| :: Codec.Decode(tail[|tail| - 1 - k]) == Some(out[k])
    {
      var p := DecodeStored(tail[i]);
      out := out + [p];
      i := i - 1;
    }
  }

  lemma InsertedEncoded(ms: seq<bytes>, x: bytes)
    requires AllEncoded(ms) && |x| == ENCODED_LEN
    ensures AllEncoded(Insert(ms, x))
  {
    forall i | 0 <= i < |Insert(ms, x)| ensures |Insert(ms, x)[i]| == ENCODED_LEN {
      InsertedIn(ms, x, Insert(ms, x)[i]);
    }
  }

  /** The shift and overwrite behind the binary search. */
  method InsertMember(ms: seq<bytes>, enc: bytes) returns (members: seq<bytes>)
    requires Sorted(ms) && AllEncoded(ms) && |enc| == ENCODED_LEN
    ensures members == Insert(ms, enc) && Sorted(members) && AllEncoded(members)
  {
    hide Insert, Position, Less, Sorted;
    var i := Search(ms, enc);
    members := ms + [[]];
    members := members[..i + 1] + members[i..|members| - 1];
    members := members[i := enc];
    InsertAt(ms, enc, i);
    InsertSorted(ms, enc);
    InsertedEncoded(ms, enc);
  }

  class MemStore {
    const cap: nat
    var count: uint64
    var dev: map<string, seq<bytes>>

    constructor (cap: nat)
      ensures this.cap == cap && Contents() == EMPTY && Valid()
    {
      this.cap := cap;
      count := 0;
      dev := map[];
    }

    function Contents(): State
      reads this
    {
      State(count, dev)
    }

    /** Every list is in order and holds members of the fixed length only. */
    ghost predicate Valid()
      reads this
    {
      forall id | id in dev :: Sorted(dev[id]) && AllEncoded(dev[id])
    }

    method Append(id: string, pts: seq<StoredPoint>) returns (n: nat)
      requires Valid()
      modifies this
      ensures Valid() && n == |pts|
      ensures Contents() == Step(cap, old(Contents()), Op(id, pts))
    {
      hide Insert, InsertAll, Position, Encode, EncodeBatch, Less, Sorted, MemTS, NextSeq, Last;
      var members := if id in dev then dev[id] else [];
      ghost var before := members;
      ghost var start := count;
      assert Sorted(members) && AllEncoded(members) by {
        EmptyIsGood();
      }
      var k := 0;
      NoneYet(before, pts, start);
      while k < |pts|
        invariant 0 <= k <= |pts| && count == NextSeq(start, k)
        invariant dev == old(dev)
        invariant members == InsertAll(before, EncodeBatch(pts[..k], start))
        invariant Sorted(members) && AllEncoded(members)
      {
        CountOn(start, k);
        NextIs(count);
        count := (count + 1) % TWO64;
        var enc := Encode(pts[k], count);
        members := InsertMember(members, enc);
        OneMoreInBatch(before, pts, k, start);
        k := k + 1;
      }
      assert pts[..k] == pts;
      LastOf(cap, members);
      if |members| > cap {
        members := members[|members| - cap..];
      }
      dev := dev[id := members];
      n := |pts|;
    }

    /** The points in the window from the cursor on, at most `limit`, and the cursor for the rest. */
    method Range(id: string, from: int64, to: int64, limit: nat, cur: bytes) returns (r: Option<(seq<StoredPoint>, bytes)>)
      requires Valid() && limit >= 1
      ensures AllEncoded(Get(dev, id))
      ensures var p := Walks.Range(Get(dev, id), from, to, limit, cur);
              && (p.None? <==> r.None?)
              && (r.Some? ==> AllEncoded(p.value.members) && r.value == (PointsOf(p.value.members), NextCursor(p.value)))
    {
      hide Cursors.Decode, Codec.Decode, MemTS, Paging.BuildPage, NextCursor;
      EmptyIsGood();
      var curTs, curSkip := from, 0;
      if cur != [] {
        var c := Cursors.Decode(cur);
        if c.None? {
          return None;
        }
        curTs, curSkip := c.value.ts, c.value.skip;
      }
      var members := if id in dev then dev[id] else [];
      var window := ScanWindow(members, curTs, to);
      var fetched := DecodeFrom(window, curSkip, limit);
      ghost var taken := Fetched(window, curSkip, limit);
      var page, next := PageOfPoints(fetched, limit, curTs, curSkip);
      PagePointsIs(taken, limit, Cursors.Position(curTs, curSkip));
      return Some((page, next));
    }

    /** The newest n points, newest first. */
    method Recent(id: string, n: nat) returns (out: seq<StoredPoint>)
      requires Valid()
      ensures AllEncoded(Last(n, Get(dev, id)))
      ensures out == Reversed(PointsOf(Last(n, Get(dev, id))))
    {
      hide Codec.Decode, MemTS;
      EmptyIsGood();
      var members := if id in dev then dev[id] else [];
      var start := |members| - n;
      if start < 0 {
        start := 0;
      }
      var tail := members[start..];
      assert tail == Last(n, members);
      out := DecodeBackwards(tail);
    }
  }

  lemma NoneYet(ms: seq<bytes>, pts: seq<StoredPoint>, start: uint64)
    ensures NextSeq(start, 0) == start && InsertAll(ms, EncodeBatch(pts[..0], start)) == ms
  {
  }

  lemma NextIs(v: uint64)
    ensures NextSeq(v, 1) == (v + 1) % TWO64
  {
  }

  lemma EmptyIsGood()
    ensures Sorted([]) && AllEncoded([])
  {
  }

  lemma InsertAt(ms: seq<bytes>, x: bytes, i: nat)
    requires i == Position(ms, x)
    ensures var longer := ms + [[]]; (longer[..i + 1] + longer[i..|ms|])[i := x] == Insert(ms, x)
  {
    hide Position;
  }

  lemma OneMoreInBatch(ms: seq<bytes>, pts: seq<StoredPoint>, k: nat, start: uint64)
    requires k < |pts|
    ensures InsertAll(ms, EncodeBatch(pts[..k + 1], start)) ==
            Insert(InsertAll(ms, EncodeBatch(pts[..k], start)), Encode(pts[k], NextSeq(start, k + 1)))
  {
    hide Encode, Insert;
    var x := Encode(pts[k], NextSeq(start, k + 1));
    assert EncodeBatch(pts[..k + 1], start) == EncodeBatch(pts[..k], start) + [x];
    InsertAllAppend(ms, EncodeBatch(pts[..k], start), [x]);
    var m := InsertAll(ms, EncodeBatch(pts[..k], start));
    var one := [x];
    assert one[1..] == [];
    assert InsertAll(m, one) == InsertAll(Insert(m, x), one[1..]);
  }

  lemma LastOf(cap: nat, ms: seq<bytes>)
    requires Sorted(ms) && AllEncoded(ms)
    ensures Sorted(Last(cap, ms)) && AllEncoded(Last(cap, ms))
    ensures Last(cap, ms) == if |ms| > cap then ms[|ms| - cap..] else ms
  {
    hide Less;
  }
}
