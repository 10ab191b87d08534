/** Building runs of the trimming protocol: runs joined together, members that never repeat, and what each command does to
    the size of a device (internal/store/redis.go, Append). */
module TrimRuns {
  import opened Bytes
  import opened Strconv
  import opened Points
  import opened Codec
  import opened SortedMembers
  import opened SortedSets
  import opened TrimSchedule
  import MemStores

  function Size(cap: nat, s: Sys, id: string): nat {
    |Get(Exec(cap, s.log), id)|
  }

  // Runs joined together.

  lemma {:induction false} RunAppend(s: Sys, a: seq<Event>, b: seq<Event>)
    requires Possible(s, a) && Possible(Run(s, a), b)
    ensures Possible(s, a + b) && Run(s, a + b) == Run(Run(s, a), b)
    decreases |a|
  {
    hide Enabled, Next;
    if a == [] {
      assert a + b == b;
    } else {
      assert (a + b)[1..] == a[1..] + b;
      RunAppend(Next(s, a[0]), a[1..], b);
    }
  }

  lemma {:induction false} LawfulAppend(s: Sys, a: seq<Event>, b: seq<Event>, tr: Traffic)
    requires Possible(s, a) && Possible(Run(s, a), b) && LawfulRun(s, a, tr) && LawfulRun(Run(s, a), b, tr)
    ensures Possible(s, a + b) && LawfulRun(s, a + b, tr)
    decreases |a|
  {
    hide Enabled, Next, Lawful;
    RunAppend(s, a, b);
    if a == [] {
      assert a + b == b;
    } else {
      assert (a + b)[1..] == a[1..] + b;
      LawfulAppend(Next(s, a[0]), a[1..], b, tr);
    }
  }

  /** Some run of that traffic leads from `s` to `t`. */
  ghost predicate Leads(s: Sys, t: Sys, tr: Traffic) {
    exists es :: Possible(s, es) && LawfulRun(s, es, tr) && Run(s, es) == t
  }

  lemma LeadsSelf(s: Sys, tr: Traffic)
    ensures Leads(s, s, tr)
  {
    var es: seq<Event> := [];
    assert Possible(s, es) && LawfulRun(s, es, tr) && Run(s, es) == s;
  }

  lemma LeadsJoin(s: Sys, t: Sys, u: Sys, tr: Traffic)
    requires Leads(s, t, tr) && Leads(t, u, tr)
    ensures Leads(s, u, tr)
  {
    hide Possible, LawfulRun, Run;
    var x :| Possible(s, x) && LawfulRun(s, x, tr) && Run(s, x) == t;
    var y :| Possible(t, y) && LawfulRun(t, y, tr) && Run(t, y) == u;
    RunAppend(s, x, y);
    LawfulAppend(s, x, y, tr);
  }

  /** One more step at the end. */
  lemma LeadsNext(s: Sys, t: Sys, e: Event, tr: Traffic)
    requires Leads(s, t, tr) && Enabled(t, e) && Lawful(t, e, tr)
    ensures Leads(s, Next(t, e), tr)
  {
    hide Next, Enabled, Lawful;
    var u := Next(t, e);
    var es := [e];
    assert es[1..] == [];
    assert Possible(u, es[1..]) && LawfulRun(u, es[1..], tr) && Run(u, es[1..]) == u;
    assert Possible(t, es) && LawfulRun(t, es, tr) && Run(t, es) == u;
    LeadsJoin(s, t, u, tr);
  }

  lemma LeadsStep(s: Sys, e: Event, tr: Traffic)
    requires Enabled(s, e) && Lawful(s, e, tr)
    ensures Leads(s, Next(s, e), tr)
  {
    hide Next, Enabled, Lawful, Leads;
    LeadsSelf(s, tr);
    LeadsNext(s, s, e, tr);
  }

  // A supply of different members.

  /** Batches of `unit` members: encoded points, enough of them for `MOST` calls, or the texts of all numbers. */
  datatype Supply = Supply(encoded: bool, unit: nat)

  const MOST: nat := TWO64 * (TWO64 * TWO64)

  predicate Fits(sup: Supply, j: nat) {
    sup.encoded ==> j < MOST && sup.unit <= TWO64
  }

  lemma Leading(j: nat)
    requires j < MOST
    ensures (j / TWO64) / TWO64 < TWO64
  {
  }

  /** The i-th point of call `j`. */
  function PointOf(j: nat, i: nat): StoredPoint
    requires j < MOST && i < TWO64
  {
    Leading(j);
    Point(1, j % TWO64, (j / TWO64) % TWO64, 0, false, (j / TWO64) / TWO64, i, 0)
  }

  function CallPoints(j: nat, n: nat): (pts: seq<StoredPoint>)
    requires j < MOST && n <= TWO64
    ensures |pts| == n
  {
    seq(n, i requires 0 <= i < n => PointOf(j, i))
  }

  /** The members of call `j`. */
  function Stock(sup: Supply, j: nat, count: uint64): (ms: seq<bytes>)
    requires Fits(sup, j)
    ensures |ms| == sup.unit
  {
    if sup.encoded then MemStores.EncodeBatch(CallPoints(j, sup.unit), count)
    else seq(sup.unit, i requires 0 <= i < sup.unit => FormatNat(j * sup.unit + i))
  }

  /** The call a member was made for. */
  function CallOf(sup: Supply, x: bytes): nat {
    if sup.encoded then
      if |x| != ENCODED_LEN then 0 else
        var p := Decode(x).value;
        p.lat + TWO64 * (p.lon + TWO64 * p.ax)
    else if AllDigits(x) && sup.unit > 0 then Val(x) / sup.unit else 0
  }

  lemma Recomposed(j: nat)
    requires j < MOST
    ensures var p := PointOf(j, 0); p.lat + TWO64 * (p.lon + TWO64 * p.ax) == j
  {
  }

  lemma StockAt(sup: Supply, j: nat, count: uint64, i: nat)
    requires Fits(sup, j) && i < sup.unit
    ensures sup.encoded ==> Stock(sup, j, count)[i] == Encode(PointOf(j, i), NextSeq(count, i + 1))
    ensures !sup.encoded ==> Stock(sup, j, count)[i] == FormatNat(j * sup.unit + i)
  {
    hide Encode, FormatNat, PointOf, NextSeq;
  }

  lemma StockCall(sup: Supply, j: nat, count: uint64, x: bytes)
    requires Fits(sup, j) && x in Stock(sup, j, count)
    ensures CallOf(sup, x) == j
  {
    hide Encode, Decode, FormatNat, Val, NextSeq, Stock;
    var i :| 0 <= i < sup.unit && Stock(sup, j, count)[i] == x;
    StockAt(sup, j, count, i);
    if sup.encoded {
      DecodeEncode(PointOf(j, i), NextSeq(count, i + 1));
      Recomposed(j);
    } else {
      ValFormatNat(j * sup.unit + i);
      Digits(j, i, sup.unit);
    }
  }

  lemma StockDistinct(sup: Supply, j: nat, count: uint64)
    requires Fits(sup, j)
    ensures Distinct(Stock(sup, j, count))
  {
    hide Encode, FormatNat, Val, NextSeq, Stock;
    var ms := Stock(sup, j, count);
    forall a, b | 0 <= a < b < |ms| ensures ms[a] != ms[b] {
      StockAt(sup, j, count, a);
      StockAt(sup, j, count, b);
      if sup.encoded {
        if ms[a] == ms[b] {
          EncodeInjective(PointOf(j, a), NextSeq(count, a + 1), PointOf(j, b), NextSeq(count, b + 1));
        }
      } else {
        ValFormatNat(j * sup.unit + a);
        ValFormatNat(j * sup.unit + b);
      }
    }
  }

  lemma {:induction false} DistinctBag(ms: seq<bytes>, x: bytes)
    requires Distinct(ms)
    ensures multiset(ms)[x] <= 1
    decreases |ms|
  {
    if ms != [] {
      var k := |ms| - 1;
      DistinctBag(ms[..k], x);
      assert ms == ms[..k] + [ms[k]];
      if x == ms[k] {
        assert x !in ms[..k];
        assert x !in multiset(ms[..k]);
      }
    }
  }

  lemma StockBag(sup: Supply, j: nat, count: uint64, x: bytes)
    requires Fits(sup, j)
    ensures multiset(Stock(sup, j, count))[x] <= 1
  {
    hide Stock;
    StockDistinct(sup, j, count);
    DistinctBag(Stock(sup, j, count), x);
  }

  lemma StockNumbered(sup: Supply, j: nat, count: uint64)
    requires Fits(sup, j) && sup.encoded
    ensures Numbered(Stock(sup, j, count), count)
  {
    hide MemStores.EncodeBatch;
    var pts := CallPoints(j, sup.unit);
    assert MemStores.ValidTimes(pts);
    assert Stock(sup, j, count) == MemStores.EncodeBatch(pts, count);
  }

  // The members on their way.

  /** How often the member `x` of the device is on its way in a pipeline, in a queue, and in all queues. */
  function PipeCount(p: Pipe, id: string, x: bytes): nat {
    if p.added || p.id != id then 0 else multiset(p.members)[x]
  }

  function QueueCount(q: seq<Pipe>, id: string, x: bytes): nat {
    if q == [] then 0 else QueueCount(q[..|q| - 1], id, x) + PipeCount(q[|q| - 1], id, x)
  }

  lemma {:induction false} QueueCountAppend(a: seq<Pipe>, b: seq<Pipe>, id: string, x: bytes)
    ensures QueueCount(a + b, id, x) == QueueCount(a, id, x) + QueueCount(b, id, x)
    decreases |b|
  {
    hide PipeCount;
    if b == [] {
      assert a + b == a;
    } else {
      assert (a + b)[..|a + b| - 1] == a + b[..|b| - 1];
      QueueCountAppend(a, b[..|b| - 1], id, x);
    }
  }

  lemma QueueCountOne(p: Pipe, id: string, x: bytes)
    ensures QueueCount([p], id, x) == PipeCount(p, id, x)
  {
    hide PipeCount;
    assert QueueCount([p][..0], id, x) == 0;
  }

  lemma QueueCountAt(q: seq<Pipe>, j: nat, p: Pipe, id: string, x: bytes)
    requires j < |q|
    ensures QueueCount(q[j := p], id, x) == QueueCount(Without(q, j), id, x) + PipeCount(p, id, x)
    ensures QueueCount(q, id, x) == QueueCount(Without(q, j), id, x) + PipeCount(q[j], id, x)
  {
    hide PipeCount, QueueCount;
    QueueCountAppend(q[..j], q[j + 1..], id, x);
    QueueCountSplit(q, j, p, id, x);
    QueueCountSplit(q, j, q[j], id, x);
    assert q[j := q[j]] == q;
  }

  lemma QueueCountSplit(q: seq<Pipe>, j: nat, p: Pipe, id: string, x: bytes)
    requires j < |q|
    ensures QueueCount(q[j := p], id, x) == QueueCount(q[..j], id, x) + PipeCount(p, id, x) + QueueCount(q[j + 1..], id, x)
  {
    hide PipeCount, QueueCount;
    QueueCountAppend(q[..j], [p], id, x);
    QueueCountAppend(q[..j] + [p], q[j + 1..], id, x);
    QueueCountOne(p, id, x);
    assert q[j := p] == (q[..j] + [p]) + q[j + 1..];
  }

  function PendingCount(insts: seq<Inst>, id: string, x: bytes): nat {
    if insts == [] then 0 else PendingCount(insts[..|insts| - 1], id, x) + QueueCount(insts[|insts| - 1].queue, id, x)
  }

  /** What changes in one instance changes in the whole. */
  lemma {:induction false} PendingUpdate(insts: seq<Inst>, i: nat, inst: Inst, id: string, x: bytes)
    requires i < |insts|
    ensures PendingCount(insts[i := inst], id, x) + QueueCount(insts[i].queue, id, x)
            == PendingCount(insts, id, x) + QueueCount(inst.queue, id, x)
    decreases |insts|
  {
    hide QueueCount;
    var k := |insts| - 1;
    if i == k {
      assert insts[i := inst][..k] == insts[..k];
    } else {
      assert insts[i := inst][..k] == insts[..k][i := inst];
      PendingUpdate(insts[..k], i, inst, id, x);
    }
  }

  function Count(s: Sys, id: string, x: bytes): nat {
    multiset(Added(s.log, id))[x] + PendingCount(s.insts, id, x)
  }

  /** No member of the device was added or sent twice, and the calls from `next` on are not used yet. */
  ghost predicate Supplied(s: Sys, id: string, sup: Supply, next: nat) {
    forall x :: Count(s, id, x) <= 1 && (Count(s, id, x) > 0 ==> CallOf(sup, x) < next)
  }

  lemma BagDistinct(ms: seq<bytes>)
    requires forall x :: multiset(ms)[x] <= 1
    ensures Distinct(ms)
  {
    forall i, j | 0 <= i < j < |ms| ensures ms[i] != ms[j] {
      var front, rest := ms[..j], ms[j..];
      assert ms == front + rest;
      assert front[i] in multiset(front) && rest[0] in multiset(rest);
      assert multiset(ms)[ms[i]] == multiset(front)[ms[i]] + multiset(rest)[ms[i]];
    }
  }

  lemma SentIsPending(s: Sys, i: nat, j: nat, id: string, x: bytes)
    requires i < |s.insts| && j < |s.insts[i].queue|
    ensures PipeCount(s.insts[i].queue[j], id, x) <= PendingCount(s.insts, id, x)
  {
    hide PipeCount, QueueCount, PendingCount;
    var inst := s.insts[i];
    QueueCountAt(inst.queue, j, inst.queue[j], id, x);
    PendingUpdate(s.insts, i, inst.(queue := Without(inst.queue, j)), id, x);
  }

  // What one command does to the size.

  ghost predicate Fresh(log: seq<Cmd>, id: string, ms: seq<bytes>) {
    forall x | x in ms :: x !in Added(log, id)
  }

  /** New members all count. */
  lemma AddFills(cap: nat, log: seq<Cmd>, i: nat, id: string, ms: seq<bytes>)
    requires Distinct(ms) && Fresh(log, id, ms)
    ensures |Get(Exec(cap, log + [Add(i, id, ms)]), id)| == |Get(Exec(cap, log), id)| + |ms|
  {
    hide ZAddAll, InsertAll;
    var more := log + [Add(i, id, ms)];
    assert more[..|more| - 1] == log;
    var z := Get(Exec(cap, log), id);
    KeepsNewest(cap, log, id);
    ZAddAllDistinct(z, ms);
  }

  function Min(a: nat, b: nat): nat {
    if a <= b then a else b
  }

  lemma TrimCaps(cap: nat, log: seq<Cmd>, i: nat, id: string)
    ensures |Get(Exec(cap, log + [Trim(i, id)]), id)| == Min(|Get(Exec(cap, log), id)|, cap)
    ensures Added(log + [Trim(i, id)], id) == Added(log, id)
  {
    hide ZAddAll, RemRangeByRank;
    var more := log + [Trim(i, id)];
    assert more[..|more| - 1] == log;
    TrimKeepsNewest(cap, Get(Exec(cap, log), id));
  }

  lemma AddedMore(log: seq<Cmd>, i: nat, id: string, ms: seq<bytes>)
    ensures Added(log + [Add(i, id, ms)], id) == Added(log, id) + ms
  {
    assert (log + [Add(i, id, ms)])[..|log + [Add(i, id, ms)]| - 1] == log;
  }

  lemma Elsewhere(cap: nat, log: seq<Cmd>, cmd: Cmd, id: string)
    requires cmd.id != id
    ensures Get(Exec(cap, log + [cmd]), id) == Get(Exec(cap, log), id) && Added(log + [cmd], id) == Added(log, id)
  {
    hide ZAddAll, RemRangeByRank;
    assert (log + [cmd])[..|log + [cmd]| - 1] == log;
  }

  lemma SentIsFresh(s: Sys, i: nat, j: nat, id: string, sup: Supply, next: nat)
    requires Supplied(s, id, sup, next) && i < |s.insts| && j < |s.insts[i].queue|
    requires s.insts[i].queue[j].id == id && !s.insts[i].queue[j].added
    ensures Distinct(s.insts[i].queue[j].members) && Fresh(s.log, id, s.insts[i].queue[j].members)
  {
    var ms := s.insts[i].queue[j].members;
    hide PendingCount, Added, CallOf;
    forall x ensures multiset(ms)[x] <= 1 && (x in ms ==> x !in Added(s.log, id)) {
      SentIsPending(s, i, j, id, x);
      assert Count(s, id, x) <= 1;
      assert x in ms ==> x in multiset(ms);
      assert x in Added(s.log, id) ==> x in multiset(Added(s.log, id));
    }
    BagDistinct(ms);
  }

  /** Sending new members to the device. */
  lemma StartKeeps(s: Sys, i: nat, id: string, sup: Supply, next: nat)
    requires Supplied(s, id, sup, next) && i < |s.insts| && Fits(sup, next)
    ensures Supplied(Next(s, Start(i, id, Stock(sup, next, s.insts[i].count))), id, sup, next + 1)
  {
    hide QueueCount, PendingCount, Added, CallOf, Stock, NextSeq;
    var ms := Stock(sup, next, s.insts[i].count);
    var t := Next(s, Start(i, id, ms));
    var p := t.insts[i].queue[|s.insts[i].queue|];
    forall x ensures Count(t, id, x) <= 1 && (Count(t, id, x) > 0 ==> CallOf(sup, x) < next + 1) {
      QueueCountAppend(s.insts[i].queue, [p], id, x);
      QueueCountOne(p, id, x);
      PendingUpdate(s.insts, i, t.insts[i], id, x);
      assert Count(t, id, x) == Count(s, id, x) + multiset(ms)[x];
      StockBag(sup, next, s.insts[i].count, x);
      assert Count(s, id, x) <= 1 && (Count(s, id, x) > 0 ==> CallOf(sup, x) < next);
      if x in multiset(ms) {
        assert x in ms;
        StockCall(sup, next, s.insts[i].count, x);
      }
    }
  }

  /** Sending anything to another device. */
  lemma StartElsewhere(s: Sys, i: nat, id: string, other: string, ms: seq<bytes>, sup: Supply, next: nat)
    requires Supplied(s, id, sup, next) && i < |s.insts| && other != id
    ensures Supplied(Next(s, Start(i, other, ms)), id, sup, next)
  {
    hide QueueCount, PendingCount, Added, CallOf, NextSeq;
    var t := Next(s, Start(i, other, ms));
    var p := t.insts[i].queue[|s.insts[i].queue|];
    forall x ensures Count(t, id, x) == Count(s, id, x) {
      QueueCountAppend(s.insts[i].queue, [p], id, x);
      QueueCountOne(p, id, x);
      PendingUpdate(s.insts, i, t.insts[i], id, x);
    }
    SameCounts(s, t, id, sup, next);
  }

  lemma SameCounts(s: Sys, t: Sys, id: string, sup: Supply, next: nat)
    requires Supplied(s, id, sup, next) && forall x :: Count(t, id, x) <= Count(s, id, x)
    ensures Supplied(t, id, sup, next)
  {
    hide Count, CallOf;
  }

  lemma AdvanceKeeps(s: Sys, i: nat, j: nat, id: string, sup: Supply, next: nat)
    requires Supplied(s, id, sup, next) && i < |s.insts| && j < |s.insts[i].queue|
    ensures Supplied(Next(s, Advance(i, j)), id, sup, next)
  {
    hide QueueCount, PendingCount, Added, CallOf, Without, Exec;
    var t := Next(s, Advance(i, j));
    forall x ensures Count(t, id, x) == Count(s, id, x) {
      AdvanceCount(s, i, j, id, x);
    }
    SameCounts(s, t, id, sup, next);
  }

  /** A ZADD that runs takes its members out of the pipeline and puts them into the history. */
  lemma AdvanceCount(s: Sys, i: nat, j: nat, id: string, x: bytes)
    requires i < |s.insts| && j < |s.insts[i].queue|
    ensures Count(Next(s, Advance(i, j)), id, x) == Count(s, id, x)
  {
    hide QueueCount, PendingCount, Added, Without, Exec;
    var inst := s.insts[i];
    var p := inst.queue[j];
    var t := Next(s, Advance(i, j));
    QueueCountAt(inst.queue, j, p.(added := true), id, x);
    PendingUpdate(s.insts, i, t.insts[i], id, x);
    if p.id != id {
      Elsewhere(0, s.log, t.log[|s.log|], id);
    } else if p.added {
      TrimCaps(0, s.log, i, id);
    } else {
      AddedMore(s.log, i, id, p.members);
    }
  }

  /** The size after one more command of some pipeline. */
  lemma AdvanceSize(cap: nat, s: Sys, i: nat, j: nat, id: string, sup: Supply, next: nat)
    requires Supplied(s, id, sup, next) && i < |s.insts| && j < |s.insts[i].queue|
    ensures var p := s.insts[i].queue[j]; var t := Next(s, Advance(i, j));
            Size(cap, t, id) == if p.id != id then Size(cap, s, id)
                                else if p.added then Min(Size(cap, s, id), cap)
                                else Size(cap, s, id) + |p.members|
  {
    var p := s.insts[i].queue[j];
    hide Exec, Without, Supplied;
    if p.id != id {
      Elsewhere(cap, s.log, Next(s, Advance(i, j)).log[|s.log|], id);
    } else if p.added {
      TrimCaps(cap, s.log, i, id);
    } else {
      SentIsFresh(s, i, j, id, sup, next);
      AddFills(cap, s.log, i, id, p.members);
    }
  }

  /** A pipeline that is cut off. */
  lemma FailKeeps(s: Sys, i: nat, j: nat, id: string, sup: Supply, next: nat)
    requires Supplied(s, id, sup, next) && i < |s.insts| && j < |s.insts[i].queue|
    ensures Supplied(Next(s, Fail(i, j)), id, sup, next)
  {
    hide QueueCount, PendingCount, Added, CallOf, Without;
    var inst := s.insts[i];
    var t := Next(s, Fail(i, j));
    forall x ensures Count(t, id, x) <= Count(s, id, x) {
      QueueCountAt(inst.queue, j, inst.queue[j], id, x);
      PendingUpdate(s.insts, i, t.insts[i], id, x);
    }
    SameCounts(s, t, id, sup, next);
  }

  lemma BootSupplied(k: nat, id: string, sup: Supply)
    ensures Supplied(Boot(k), id, sup, 0)
  {
    hide PendingCount;
    forall x ensures PendingCount(Boot(k).insts, id, x) == 0 {
      BootPending(k, id, x);
    }
  }

  lemma {:induction false} BootPending(k: nat, id: string, x: bytes)
    ensures PendingCount(Boot(k).insts, id, x) == 0
    decreases k
  {
    if k > 0 {
      assert Boot(k).insts[..k - 1] == Boot(k - 1).insts;
      BootPending(k - 1, id, x);
    }
  }
}
