/** The in-memory store (internal/store/mem.go): a sorted, capped list of members per device. */
module MemStores {
  import opened Bytes
  import opened Strconv
  import opened Points
  import opened Codec
  import opened SortedMembers
  import opened Paging
  import opened Walks
  import Cursors

  /** The members of a batch, numbered from the counter value `start` on. */
  function EncodeBatch(pts: seq<StoredPoint>, start: uint64): (ms: seq<bytes>)
    ensures |ms| == |pts|
  {
    seq(|pts|, i requires 0 <= i < |pts| => Encode(pts[i], NextSeq(start, i + 1)))
  }

  datatype State = State(count: uint64, dev: map<string, seq<bytes>>)
  datatype Op = Op(id: string, pts: seq<StoredPoint>)

  const EMPTY := State(0, map[])

  /** One Append call. */
  function Step(cap: nat, s: State, op: Op): State {
    State(NextSeq(s.count, |op.pts|),
          s.dev[op.id := Last(cap, InsertAll(Get(s.dev, op.id), EncodeBatch(op.pts, s.count)))])
  }

  function Run(cap: nat, s: State, ops: seq<Op>): State {
    if ops == [] then s else Step(cap, Run(cap, s, ops[..|ops| - 1]), ops[|ops| - 1])
  }

  // The history of a device.

  function Tagged(id: string, pts: seq<StoredPoint>): (t: seq<(string, StoredPoint)>)
    ensures |t| == |pts|
  {
    seq(|pts|, i requires 0 <= i < |pts| => (id, pts[i]))
  }

  /** All points appended, to whatever device, one by one in the order of the calls. */
  function Flat(ops: seq<Op>): seq<(string, StoredPoint)> {
    if ops == [] then [] else
      var op := ops[|ops| - 1];
      Flat(ops[..|ops| - 1]) + Tagged(op.id, op.pts)
  }

  /** The members ever appended to a device: the k-th point of all carries sequence number k. */
  function History(flat: seq<(string, StoredPoint)>, id: string): seq<bytes> {
    if flat == [] then [] else
      var n := |flat|;
      var h := History(flat[..n - 1], id);
      if flat[n - 1].0 == id then h + [Encode(flat[n - 1].1, NextSeq(0, n))] else h
  }

  lemma {:induction false} HistoryOfBatch(flat: seq<(string, StoredPoint)>, pts: seq<StoredPoint>, to: string, id: string)
    ensures History(flat + Tagged(to, pts), id) ==
            if to == id then History(flat, id) + EncodeBatch(pts, NextSeq(0, |flat|)) else History(flat, id)
    decreases |pts|
  {
    hide Encode;
    var more := Tagged(to, pts);
    if pts == [] {
      assert flat + more == flat;
      assert EncodeBatch(pts, NextSeq(0, |flat|)) == [];
    } else {
      var k := |pts| - 1;
      var front := pts[..k];
      HistoryOfBatch(flat, front, to, id);
      assert (flat + more)[..|flat + more| - 1] == flat + Tagged(to, front);
      CountFrom(|flat|, k + 1);
      assert EncodeBatch(pts, NextSeq(0, |flat|)) ==
             EncodeBatch(front, NextSeq(0, |flat|)) + [Encode(pts[k], NextSeq(0, |flat| + k + 1))];
    }
  }

  lemma CountFrom(n: nat, k: nat)
    ensures NextSeq(NextSeq(0, n), k) == NextSeq(0, n + k)
  {
  }

  lemma NoneCounted()
    ensures NextSeq(0, 0) == 0
  {
  }

  lemma {:induction false} CountIs(cap: nat, ops: seq<Op>)
    ensures Run(cap, EMPTY, ops).count == NextSeq(0, |Flat(ops)|)
    decreases |ops|
  {
    hide NextSeq, InsertAll, EncodeBatch, Last, Get, Tagged;
    if ops == [] {
      NoneCounted();
    } else {
      var front := ops[..|ops| - 1];
      CountIs(cap, front);
      CountFrom(|Flat(front)|, |ops[|ops| - 1].pts|);
    }
  }

  /** After any run of Append calls over any devices, a device holds exactly the newest `cap` of everything ever
      appended to it, in order. */
  lemma {:induction false} CappedHistory(cap: nat, ops: seq<Op>, id: string)
    ensures Get(Run(cap, EMPTY, ops).dev, id) == Last(cap, InsertAll([], History(Flat(ops), id)))
    decreases |ops|
  {
    hide Insert, InsertAll, Encode, Last, EncodeBatch, History, Tagged;
    if ops == [] {
      LastNone(cap);
    } else {
      var front := ops[..|ops| - 1];
      var op := ops[|ops| - 1];
      CappedHistory(cap, front, id);
      CountIs(cap, front);
      HistoryOfBatch(Flat(front), op.pts, op.id, id);
      if op.id == id {
        var h := History(Flat(front), id);
        var batch := EncodeBatch(op.pts, Run(cap, EMPTY, front).count);
        InsertAllSorted([], h);
        LastInsertAll(cap, InsertAll([], h), batch);
        InsertAllAppend([], h, batch);
      }
    }
  }

  lemma LastNone(cap: nat)
    ensures Last(cap, InsertAll([], History([], ""))) == []
    ensures forall id :: History([], id) == []
  {
  }

  /** How the points were cut into batches makes no difference to any device. */
  lemma BatchingIrrelevant(cap: nat, a: seq<Op>, b: seq<Op>, id: string)
    requires Flat(a) == Flat(b)
    ensures Get(Run(cap, EMPTY, a).dev, id) == Get(Run(cap, EMPTY, b).dev, id)
  {
    CappedHistory(cap, a, id);
    CappedHistory(cap, b, id);
  }

  ghost predicate Numbered(h: seq<bytes>, top: nat) {
    && (forall i | 0 <= i < |h| :: |h[i]| == ENCODED_LEN && MemSeq(h[i]) <= top)
    && (forall i, j | 0 <= i < j < |h| :: MemSeq(h[i]) < MemSeq(h[j]))
  }

  /** While the counter has not wrapped, the members of a device carry ascending sequence numbers. */
  lemma {:induction false} HistoryNumbered(flat: seq<(string, StoredPoint)>, id: string)
    requires |flat| < TWO64
    ensures Numbered(History(flat, id), |flat|)
    decreases |flat|
  {
    hide Encode, MemSeq;
    if flat != [] {
      var n := |flat|;
      HistoryNumbered(flat[..n - 1], id);
      DecodeEncode(flat[n - 1].1, n);
    }
  }

  lemma NumberedDistinct(h: seq<bytes>, top: nat)
    requires Numbered(h, top)
    ensures Distinct(h)
  {
    hide MemSeq;
    forall i, j | 0 <= i < j < |h| ensures h[i] != h[j] {
      assert MemSeq(h[i]) < MemSeq(h[j]);
    }
  }

  /** The same without reference to insertion: the stored list is strictly ascending, comes from the history, is as long
      as it can be, and every evicted member is older than every one kept. */
  lemma HoldsNewest(cap: nat, ops: seq<Op>, id: string)
    requires |Flat(ops)| < TWO64
    ensures IsNewest(cap, History(Flat(ops), id), Get(Run(cap, EMPTY, ops).dev, id))
  {
    hide InsertAll, Encode, Last, IsNewest, MemSeq;
    var h := History(Flat(ops), id);
    HistoryNumbered(Flat(ops), id);
    NumberedDistinct(h, |Flat(ops)|);
    InsertAllStrict([], h);
    InsertAllMultiset([], h);
    assert multiset([]) + multiset(h) == multiset(h);
    CappedHistory(cap, ops, id);
    NewestOfSorted(cap, h, InsertAll([], h));
  }

  // What appends by one process mean to a cursor.

  /** All of a device's members are stored members in order, and none is numbered above the counter. */
  ghost predicate GoodDevice(ms: seq<bytes>, count: nat) {
    AllStored(ms) && StrictlySorted(ms) && forall i | 0 <= i < |ms| :: MemSeq(ms[i]) <= count
  }

  predicate ValidTimes(pts: seq<StoredPoint>) {
    forall i | 0 <= i < |pts| :: pts[i].ts >= 0
  }

  ghost predicate AllValid(ops: seq<Op>) {
    forall k | 0 <= k < |ops| :: ValidTimes(ops[k].pts)
  }

  lemma Newcomer(p: StoredPoint, n: uint64, y: bytes)
    requires p.ts >= 0 && Stored(y) && MemSeq(y) < n
    ensures Stored(Encode(p, n)) && MemSeq(Encode(p, n)) == n && MemTS(Encode(p, n)) == p.ts
    ensures MemTS(y) == p.ts ==> Less(y, Encode(p, n))
  {
    hide Encode, Less;
    var x := Encode(p, n);
    DecodeEncode(p, n);
    if MemTS(y) == p.ts {
      LowerNumber(y, x);
    }
  }

  /** Of two members with one timestamp the one with the lower number comes first. */
  lemma LowerNumber(a: bytes, b: bytes)
    requires Stored(a) && Stored(b) && MemTS(a) == MemTS(b) && MemSeq(a) < MemSeq(b)
    ensures Less(a, b)
  {
    hide Less, FromBigEndian, BigEndian;
    BigEndianOnto(a[0..8]);
    BigEndianOnto(b[0..8]);
    BigEndianOnto(a[8..16]);
    BigEndianOnto(b[8..16]);
    BigEndianBound(b[8..16]);
    assert a == a[0..8] + (a[8..16] + a[16..]) && b == b[0..8] + (b[8..16] + b[16..]);
    assert a[0..8] == b[0..8];
    BigEndianOrder(8, MemSeq(a), MemSeq(b), a[16..], b[16..]);
    LessBehind(a[0..8], a[8..16] + a[16..], b[8..16] + b[16..]);
  }

  lemma GrowsTransitive(a: seq<bytes>, b: seq<bytes>, c: seq<bytes>)
    requires AllStored(a) && AllStored(b) && AllStored(c) && Grows(a, b) && Grows(b, c)
    ensures Grows(a, c)
  {
    hide Less, MemTS;
  }

  lemma GrowsReflexive(a: seq<bytes>)
    requires AllStored(a)
    ensures Grows(a, a)
  {
  }

  /** Inserting the next number only lets the device grow. */
  lemma InsertGrows(ms: seq<bytes>, p: StoredPoint, n: uint64)
    requires p.ts >= 0 && n >= 1 && GoodDevice(ms, n - 1)
    ensures GoodDevice(Insert(ms, Encode(p, n)), n) && Grows(ms, Insert(ms, Encode(p, n)))
  {
    hide Encode, Less, MemTS, MemSeq, Insert, StrictlySorted;
    var x := Encode(p, n);
    DecodeEncode(p, n);
    StoredNew(p, n);
    assert x !in ms;
    InsertedStored(ms, x);
    InsertStrict(ms, x);
    var r := Insert(ms, x);
    forall i | 0 <= i < |r| ensures MemSeq(r[i]) <= n {
      InsertedIn(ms, x, r[i]);
    }
    forall y | y in ms ensures y in r {
      InsertedIn(ms, x, y);
    }
    forall z, y | z in r && z !in ms && y in ms && MemTS(z) == MemTS(y) ensures Less(y, z) {
      InsertedIn(ms, x, z);
      Newcomer(p, n, y);
    }
  }

  lemma StoredNew(p: StoredPoint, n: uint64)
    requires p.ts >= 0
    ensures Stored(Encode(p, n))
  {
    hide Encode;
    DecodeEncode(p, n);
  }

  lemma {:induction false} BatchGrows(ms: seq<bytes>, pts: seq<StoredPoint>, start: uint64)
    requires ValidTimes(pts) && GoodDevice(ms, start) && start + |pts| < TWO64
    ensures var r := InsertAll(ms, EncodeBatch(pts, start)); GoodDevice(r, start + |pts|) && Grows(ms, r)
    decreases |pts|
  {
    hide Encode, Less, MemTS, MemSeq, Insert, StrictlySorted, Grows, Stored;
    if pts == [] {
      GrowsReflexive(ms);
    } else {
      var x := Encode(pts[0], start + 1);
      InsertGrows(ms, pts[0], start + 1);
      BatchGrows(Insert(ms, x), pts[1..], start + 1);
      assert EncodeBatch(pts, start) == [x] + EncodeBatch(pts[1..], start + 1);
      var r := InsertAll(ms, EncodeBatch(pts, start));
      assert EncodeBatch(pts, start)[1..] == EncodeBatch(pts[1..], start + 1);
      GrowsTransitive(ms, Insert(ms, x), r);
    }
  }

  /** No call of the run evicts anything from the device. */
  ghost predicate Roomy(cap: nat, s: State, ops: seq<Op>, id: string) {
    forall k | 0 <= k < |ops| :: |Get(Run(cap, s, ops[..k]).dev, id)| + (if ops[k].id == id then |ops[k].pts| else 0) <= cap
  }

  /** Between any two moments of a process, with no eviction and no wrap of the counter, a device has only grown in the
      way a cursor can follow: this is what the walks over a changing store ask for. */
  lemma {:induction false} RunGrows(cap: nat, s: State, ops: seq<Op>, id: string)
    requires GoodDevice(Get(s.dev, id), s.count) && s.count + |Flat(ops)| < TWO64 && Roomy(cap, s, ops, id)
    requires AllValid(ops)
    ensures var t := Run(cap, s, ops);
            && t.count == s.count + |Flat(ops)| && GoodDevice(Get(t.dev, id), t.count)
            && Grows(Get(s.dev, id), Get(t.dev, id))
    decreases |ops|
  {
    hide Less, MemTS, MemSeq, StrictlySorted, Grows, GoodDevice, Roomy, ValidTimes, Step, Stored;
    if ops == [] {
      GoodStored(Get(s.dev, id), s.count);
      GrowsReflexive(Get(s.dev, id));
    } else {
      var k := |ops| - 1;
      var front := ops[..k];
      var op := ops[k];
      FrontRoomy(cap, s, ops, id);
      RunGrows(cap, s, front, id);
      var m := Run(cap, s, front);
      StepGrows(cap, m, op, id);
      GoodStored(Get(s.dev, id), s.count);
      GoodStored(Get(m.dev, id), m.count);
      GoodStored(Get(Step(cap, m, op).dev, id), m.count + |op.pts|);
      GrowsTransitive(Get(s.dev, id), Get(m.dev, id), Get(Step(cap, m, op).dev, id));
    }
  }

  lemma GoodStored(ms: seq<bytes>, count: nat)
    requires GoodDevice(ms, count)
    ensures AllStored(ms)
  {
  }

  lemma FrontRoomy(cap: nat, s: State, ops: seq<Op>, id: string)
    requires ops != [] && Roomy(cap, s, ops, id)
    ensures var k := |ops| - 1;
            && Roomy(cap, s, ops[..k], id)
            && |Get(Run(cap, s, ops[..k]).dev, id)| + (if ops[k].id == id then |ops[k].pts| else 0) <= cap
  {
    hide Run, Get;
    var front := ops[..|ops| - 1];
    forall j | 0 <= j < |front|
      ensures |Get(Run(cap, s, front[..j]).dev, id)| + (if front[j].id == id then |front[j].pts| else 0) <= cap
    {
      assert front[..j] == ops[..j] && front[j] == ops[j];
    }
  }

  lemma StepGrows(cap: nat, m: State, op: Op, id: string)
    requires GoodDevice(Get(m.dev, id), m.count) && ValidTimes(op.pts) && m.count + |op.pts| < TWO64
    requires |Get(m.dev, id)| + (if op.id == id then |op.pts| else 0) <= cap
    ensures var t := Step(cap, m, op);
            && t.count == m.count + |op.pts| && GoodDevice(Get(t.dev, id), t.count)
            && Grows(Get(m.dev, id), Get(t.dev, id))
  {
    hide Less, MemTS, MemSeq, StrictlySorted, Grows, InsertAll, EncodeBatch, Stored;
    if op.id == id {
      BatchGrows(Get(m.dev, id), op.pts, m.count);
    } else {
      GrowsReflexive(Get(m.dev, id));
    }
  }

  /** Every state a process can reach from its start holds good devices, whatever it has evicted. */
  lemma {:induction false} RunGood(cap: nat, ops: seq<Op>, id: string)
    requires |Flat(ops)| < TWO64 && AllValid(ops)
    ensures var t := Run(cap, EMPTY, ops); t.count == |Flat(ops)| && GoodDevice(Get(t.dev, id), t.count)
    decreases |ops|
  {
    hide Less, MemTS, MemSeq, StrictlySorted, Grows, InsertAll, Stored, Last;
    if ops == [] {
      NoMembersGood();
    } else {
      var k := |ops| - 1;
      var op := ops[k];
      RunGood(cap, ops[..k], id);
      var m := Run(cap, EMPTY, ops[..k]);
      if op.id == id {
        BatchGrows(Get(m.dev, id), op.pts, m.count);
        LastGood(cap, InsertAll(Get(m.dev, id), EncodeBatch(op.pts, m.count)), m.count + |op.pts|);
      }
    }
  }

  lemma NoMembersGood()
    ensures GoodDevice([], 0)
  {
  }

  lemma LastGood(cap: nat, ms: seq<bytes>, count: nat)
    requires GoodDevice(ms, count)
    ensures GoodDevice(Last(cap, ms), count)
  {
    hide Less, MemSeq, MemTS;
  }

  lemma {:induction false} RunCompose(cap: nat, s: State, a: seq<Op>, b: seq<Op>)
    ensures Run(cap, s, a + b) == Run(cap, Run(cap, s, a), b)
    decreases |b|
  {
    hide Step;
    if b == [] {
      assert a + b == a;
    } else {
      var k := |b| - 1;
      assert (a + b)[..|a + b| - 1] == a + b[..k];
      RunCompose(cap, s, a, b[..k]);
    }
  }

  lemma {:induction false} FlatCompose(a: seq<Op>, b: seq<Op>)
    ensures Flat(a + b) == Flat(a) + Flat(b)
    decreases |b|
  {
    hide Tagged;
    if b == [] {
      assert a + b == a;
    } else {
      var k := |b| - 1;
      assert (a + b)[..|a + b| - 1] == a + b[..k];
      FlatCompose(a, b[..k]);
    }
  }

  /** The device as the k-th page of a walk finds it: `cuts[k]` of the calls are through by then. */
  function Seen(cap: nat, before: seq<Op>, ops: seq<Op>, id: string, cut: nat): seq<bytes>
    requires cut <= |ops|
  {
    Get(Run(cap, EMPTY, before + ops[..cut]).dev, id)
  }

  ghost predicate Cuts(cuts: seq<nat>, top: nat) {
    && cuts != []
    && (forall k | 0 <= k < |cuts| :: cuts[k] <= top)
    && forall k | 0 <= k < |cuts| - 1 :: cuts[k] <= cuts[k + 1]
  }

  function Snaps(cap: nat, before: seq<Op>, ops: seq<Op>, id: string, cuts: seq<nat>): seq<seq<bytes>>
    requires Cuts(cuts, |ops|)
  {
    seq(|cuts|, k requires 0 <= k < |cuts| => Seen(cap, before, ops, id, cuts[k]))
  }

  /** The calls `ops` follow the calls `before` in a process whose counter does not wrap, all points have valid times,
      and `ops` evict nothing from the device. */
  ghost predicate QuietRun(cap: nat, before: seq<Op>, ops: seq<Op>, id: string) {
    && cap < TWO63 && |Flat(before)| + |Flat(ops)| < TWO64
    && AllValid(before) && AllValid(ops)
    && Roomy(cap, Run(cap, EMPTY, before), ops, id)
  }

  lemma CallsBefore(before: seq<Op>, ops: seq<Op>, cut: nat)
    requires AllValid(before) && AllValid(ops) && cut <= |ops|
    ensures AllValid(before + ops[..cut]) && |Flat(before + ops[..cut])| <= |Flat(before)| + |Flat(ops)|
  {
    hide ValidTimes, Flat;
    FlatCompose(before, ops[..cut]);
    FlatCompose(ops[..cut], ops[cut..]);
    assert ops[..cut] + ops[cut..] == ops;
  }

  lemma RunSize(cap: nat, ops: seq<Op>, id: string)
    ensures |Get(Run(cap, EMPTY, ops).dev, id)| <= cap
  {
    hide Get, Run, InsertAll, History, Flat;
    CappedHistory(cap, ops, id);
  }

  lemma SeenGood(cap: nat, before: seq<Op>, ops: seq<Op>, id: string, cut: nat)
    requires QuietRun(cap, before, ops, id) && cut <= |ops|
    ensures |Flat(before + ops[..cut])| < TWO64
    ensures GoodDevice(Seen(cap, before, ops, id, cut), |Flat(before + ops[..cut])|) && |Seen(cap, before, ops, id, cut)| <= cap
  {
    hide GoodDevice, AllValid, Flat, Roomy, Run;
    CallsBefore(before, ops, cut);
    RunGood(cap, before + ops[..cut], id);
    RunSize(cap, before + ops[..cut], id);
  }

  lemma SeenGrows(cap: nat, before: seq<Op>, ops: seq<Op>, id: string, i: nat, j: nat)
    requires QuietRun(cap, before, ops, id) && i <= j <= |ops|
    ensures AllStored(Seen(cap, before, ops, id, i)) && AllStored(Seen(cap, before, ops, id, j))
    ensures Grows(Seen(cap, before, ops, id, i), Seen(cap, before, ops, id, j))
  {
    hide Stored, StrictlySorted, Grows, MemSeq, Flat, ValidTimes, Run, Roomy, Get;
    SeenGood(cap, before, ops, id, i);
    SeenGood(cap, before, ops, id, j);
    hide GoodDevice;
    var early := before + ops[..i];
    var mid := ops[i..j];
    RoomyPart(cap, before, ops, id, i, j);
    assert before + ops[..j] == early + mid;
    RunCompose(cap, EMPTY, early, mid);
    FlatCompose(early, mid);
    CallsBefore(before, ops, i);
    RunGood(cap, early, id);
    RunGrows(cap, Run(cap, EMPTY, early), mid, id);
  }

  lemma RoomyPart(cap: nat, before: seq<Op>, ops: seq<Op>, id: string, i: nat, j: nat)
    requires Roomy(cap, Run(cap, EMPTY, before), ops, id) && i <= j <= |ops|
    ensures Roomy(cap, Run(cap, EMPTY, before + ops[..i]), ops[i..j], id)
  {
    hide Get, Run;
    var s := Run(cap, EMPTY, before);
    var t := Run(cap, EMPTY, before + ops[..i]);
    var mid := ops[i..j];
    RunCompose(cap, EMPTY, before, ops[..i]);
    forall k | 0 <= k < |mid|
      ensures |Get(Run(cap, t, mid[..k]).dev, id)| + (if mid[k].id == id then |mid[k].pts| else 0) <= cap
    {
      RunCompose(cap, s, ops[..i], mid[..k]);
      assert ops[..i] + mid[..k] == ops[..i + k];
      assert mid[k] == ops[i + k];
    }
  }

  /** Pagination under concurrent appends, over whole runs of one process: a walk whose pages are read at any moments
      between the Append calls emits points in strictly ascending (ts, seq) order, hence none twice, all inside the time
      window; and when it ends, every point of the window that was stored when it began has been emitted. */
  lemma WalkDuringAppends(cap: nat, before: seq<Op>, ops: seq<Op>, id: string, cuts: seq<nat>, from: int64, to: int64, limit: nat)
    requires QuietRun(cap, before, ops, id) && Cuts(cuts, |ops|) && limit >= 1
    ensures var snaps := Snaps(cap, before, ops, id, cuts);
            && GrowingRun(snaps)
            && var v := WalkOver(snaps, from, to, limit, []);
               && StrictlySorted(v.emitted) && InBounds(v.emitted, from, to)
               && (v.done ==> forall x | x in snaps[0] && from <= MemTS(x) <= to :: x in v.emitted)
  {
    hide QuietRun, WalkOver, MemTS, Less, Seen, StrictlySorted, Grows, Stored, MemSeq;
    var snaps := Snaps(cap, before, ops, id, cuts);
    forall k | 0 <= k < |snaps| ensures AllStored(snaps[k]) && StrictlySorted(snaps[k]) && |snaps[k]| < TWO63 {
      SeenGood(cap, before, ops, id, cuts[k]);
      CapFits(cap, before, ops, id);
    }
    forall k | 0 <= k < |snaps| - 1 ensures Grows(snaps[k], snaps[k + 1]) {
      SeenGrows(cap, before, ops, id, cuts[k], cuts[k + 1]);
    }
    WalkIsStable(snaps, from, to, limit);
  }

  lemma CapFits(cap: nat, before: seq<Op>, ops: seq<Op>, id: string)
    requires QuietRun(cap, before, ops, id)
    ensures cap < TWO63
  {
  }
}
