/** Amortized trimming as a protocol (internal/store/redis.go, Append): any number of instances, each with its own write
    counter, send pipelines that the server runs command by command, interleaved in any way. */
module TrimSchedule {
  import opened Bytes
  import opened Strconv
  import opened Points
  import opened Codec
  import opened SortedMembers
  import opened SortedSets
  import MemStores

  const TRIM_EVERY: nat := 16

  /** A pipeline under way: ZADD, and behind it the trim if this was a sixteenth write. */
  datatype Pipe = Pipe(id: string, members: seq<bytes>, trims: bool, added: bool)
  /** An instance has two counters: of its writes, and of the points it has numbered. */
  datatype Inst = Inst(writes: uint64, count: uint64, queue: seq<Pipe>)
  datatype Sys = Sys(insts: seq<Inst>, log: seq<Cmd>)

  /** A call counts its write and sends its pipeline; the server runs the next command of some pipeline; a pipeline is
      cut off by a failed connection. */
  datatype Event = Start(i: nat, id: string, members: seq<bytes>) | Advance(i: nat, j: nat) | Fail(i: nat, j: nat)

  predicate Enabled(s: Sys, e: Event) {
    e.i < |s.insts| && (e.Start? || e.j < |s.insts[e.i].queue|)
  }

  function Without(q: seq<Pipe>, j: nat): (r: seq<Pipe>)
    requires j < |q|
    ensures |r| == |q| - 1
  {
    q[..j] + q[j + 1..]
  }

  function Next(s: Sys, e: Event): Sys
    requires Enabled(s, e)
  {
    var inst := s.insts[e.i];
    match e
    case Start(i, id, ms) =>
      var w := NextSeq(inst.writes, 1);
      Sys(s.insts[i := Inst(w, NextSeq(inst.count, |ms|), inst.queue + [Pipe(id, ms, w % TRIM_EVERY == 0, false)])], s.log)
    case Advance(i, j) =>
      var p := inst.queue[j];
      if p.added then Sys(s.insts[i := inst.(queue := Without(inst.queue, j))], s.log + [Trim(i, p.id)])
      else if p.trims then
        Sys(s.insts[i := inst.(queue := inst.queue[j := p.(added := true)])], s.log + [Add(i, p.id, p.members)])
      else Sys(s.insts[i := inst.(queue := Without(inst.queue, j))], s.log + [Add(i, p.id, p.members)])
    case Fail(i, j) =>
      Sys(s.insts[i := inst.(queue := Without(inst.queue, j))], s.log)
  }

  predicate Possible(s: Sys, es: seq<Event>)
    decreases |es|
  {
    es == [] || (Enabled(s, es[0]) && Possible(Next(s, es[0]), es[1..]))
  }

  function Run(s: Sys, es: seq<Event>): Sys
    requires Possible(s, es)
    decreases |es|
  {
    if es == [] then s else Run(Next(s, es[0]), es[1..])
  }

  function Boot(k: nat): (s: Sys)
    ensures |s.insts| == k
  {
    Sys(seq(k, _ => Inst(0, 0, [])), [])
  }

  /** The devices that are written, the size of a batch, the calls an instance has under way, whether connections may fail,
      and whether the members are points encoded with the numbers of the instance that sends them. */
  datatype Traffic = Traffic(ids: set<string>, batch: nat, calls: nat, failing: bool, encoded: bool)

  /** Points numbered from the counter value `count` on. */
  ghost predicate Numbered(ms: seq<bytes>, count: uint64) {
    exists pts :: MemStores.ValidTimes(pts) && ms == MemStores.EncodeBatch(pts, count)
  }

  ghost predicate Lawful(s: Sys, e: Event, tr: Traffic)
    requires Enabled(s, e)
  {
    match e
    case Start(i, to, ms) =>
      && to in tr.ids && |ms| <= tr.batch && |s.insts[i].queue| < tr.calls
      && (tr.encoded ==> Numbered(ms, s.insts[i].count))
    case Advance(_, _) => true
    case Fail(_, _) => tr.failing
  }

  ghost predicate LawfulRun(s: Sys, es: seq<Event>, tr: Traffic)
    requires Possible(s, es)
    decreases |es|
  {
    es == [] || (Lawful(s, es[0], tr) && LawfulRun(Next(s, es[0]), es[1..], tr))
  }

  /** All traffic goes to one device in batches of at most `b`, no connection fails, and an instance has at most `c`
      calls under way. */
  function Orderly(id: string, b: nat, c: nat): Traffic {
    Traffic({id}, b, c, false, false)
  }

  // Counting.

  /** The batches an instance has added to a device since a trim last landed on it. */
  function SinceBy(log: seq<Cmd>, id: string, i: nat): nat {
    if log == [] then 0 else
      var c := log[|log| - 1];
      var n := SinceBy(log[..|log| - 1], id, i);
      if c.id != id then n else if c.Trim? then 0 else if c.inst == i then n + 1 else n
  }

  function SinceAll(log: seq<Cmd>, id: string, k: nat): nat {
    if k == 0 then 0 else SinceAll(log, id, k - 1) + SinceBy(log, id, k - 1)
  }

  predicate SmallLog(log: seq<Cmd>, id: string, b: nat, k: nat) {
    forall n | 0 <= n < |log| :: log[n].Add? && log[n].id == id ==> |log[n].members| <= b && log[n].inst < k
  }

  lemma {:induction false} OneMore(log: seq<Cmd>, c: Cmd, id: string, k: nat)
    requires c.Add? && c.id == id
    ensures SinceAll(log + [c], id, k) == SinceAll(log, id, k) + if c.inst < k then 1 else 0
    decreases k
  {
    if k > 0 {
      assert (log + [c])[..|log + [c]| - 1] == log;
      OneMore(log, c, id, k - 1);
    }
  }

  /** Members since the last trim, in terms of batches. */
  lemma {:induction false} MembersOfBatches(log: seq<Cmd>, id: string, b: nat, k: nat)
    requires SmallLog(log, id, b, k)
    ensures SinceTrim(log, id) <= b * SinceAll(log, id, k)
    decreases |log|
  {
    if log != [] {
      var front := log[..|log| - 1];
      var c := log[|log| - 1];
      MembersOfBatches(front, id, b, k);
      assert log == front + [c];
      if c.id == id && c.Add? {
        OneMore(front, c, id, k);
        assert b * (SinceAll(front, id, k) + 1) == b * SinceAll(front, id, k) + b;
      } else if c.id != id {
        SameCount(front, c, id, k);
      }
    }
  }

  lemma {:induction false} SameCount(log: seq<Cmd>, c: Cmd, id: string, k: nat)
    requires c.id != id
    ensures SinceAll(log + [c], id, k) == SinceAll(log, id, k)
    decreases k
  {
    if k > 0 {
      assert (log + [c])[..|log + [c]| - 1] == log;
      SameCount(log, c, id, k - 1);
    }
  }

  /** What the pipelines under way add to an instance's allowance: a pending trim excuses sixteen batches, a batch not yet
      added is one still to come. */
  function Debt(q: seq<Pipe>): int {
    if q == [] then 0 else
      var p := q[|q| - 1];
      Debt(q[..|q| - 1]) + (if p.trims then TRIM_EVERY else 0) - (if p.added then 0 else 1)
  }

  lemma {:induction false} DebtAppend(a: seq<Pipe>, b: seq<Pipe>)
    ensures Debt(a + b) == Debt(a) + Debt(b)
    decreases |b|
  {
    if b == [] {
      assert a + b == a;
    } else {
      assert (a + b)[..|a + b| - 1] == a + b[..|b| - 1];
      DebtAppend(a, b[..|b| - 1]);
    }
  }

  lemma DebtOne(p: Pipe)
    ensures Debt([p]) == (if p.trims then TRIM_EVERY else 0) - (if p.added then 0 else 1)
  {
  }

  lemma DebtSplit(q: seq<Pipe>, j: nat)
    requires j < |q|
    ensures Debt(q) == Debt(Without(q, j)) + Debt([q[j]])
    ensures forall p: Pipe :: Debt(q[j := p]) == Debt(Without(q, j)) + Debt([p])
  {
    DebtAppend(q[..j], q[j + 1..]);
    DebtAppend(q[..j], [q[j]]);
    DebtAppend(q[..j] + [q[j]], q[j + 1..]);
    assert q == (q[..j] + [q[j]]) + q[j + 1..];
    forall p: Pipe ensures Debt(q[j := p]) == Debt(Without(q, j)) + Debt([p]) {
      DebtAppend(q[..j], [p]);
      DebtAppend(q[..j] + [p], q[j + 1..]);
      assert q[j := p] == (q[..j] + [p]) + q[j + 1..];
    }
  }

  lemma {:induction false} DebtFloor(q: seq<Pipe>)
    ensures Debt(q) >= -|q|
    decreases |q|
  {
    if q != [] {
      DebtFloor(q[..|q| - 1]);
    }
  }

  // The invariant.

  predicate PipesFor(q: seq<Pipe>, id: string, b: nat) {
    forall j | 0 <= j < |q| :: q[j].id == id && |q[j].members| <= b && (q[j].added ==> q[j].trims)
  }

  /** An instance never has more batches in front of the next trim than its allowance. */
  predicate InstGood(log: seq<Cmd>, i: nat, inst: Inst, id: string, b: nat, c: nat) {
    && |inst.queue| <= c && PipesFor(inst.queue, id, b)
    && (|inst.queue| == c > 0 ==> (inst.queue[c - 1].trims <==> inst.writes % TRIM_EVERY == 0))
    && SinceBy(log, id, i) <= Allowance(inst, c)
  }

  function Allowance(inst: Inst, c: nat): int {
    c - 1 + inst.writes % TRIM_EVERY + Debt(inst.queue)
  }

  predicate Good(s: Sys, id: string, b: nat, c: nat) {
    && c >= 1 && SmallLog(s.log, id, b, |s.insts|)
    && forall i | 0 <= i < |s.insts| :: InstGood(s.log, i, s.insts[i], id, b, c)
  }

  lemma BootGood(k: nat, id: string, b: nat, c: nat)
    requires c >= 1
    ensures Good(Boot(k), id, b, c)
  {
  }

  lemma WriteCount(w: uint64)
    ensures NextSeq(w, 1) % TRIM_EVERY == (w % TRIM_EVERY + 1) % TRIM_EVERY
  {
  }

  lemma StartGood(log: seq<Cmd>, i: nat, inst: Inst, ms: seq<bytes>, id: string, b: nat, c: nat)
    requires c >= 1 && InstGood(log, i, inst, id, b, c) && |ms| <= b && |inst.queue| < c
    ensures var w := NextSeq(inst.writes, 1); var n := NextSeq(inst.count, |ms|);
            InstGood(log, i, Inst(w, n, inst.queue + [Pipe(id, ms, w % TRIM_EVERY == 0, false)]), id, b, c)
  {
    hide SinceBy, NextSeq;
    WriteCount(inst.writes);
    var w := NextSeq(inst.writes, 1);
    var p := Pipe(id, ms, w % TRIM_EVERY == 0, false);
    DebtAppend(inst.queue, [p]);
    DebtOne(p);
    hide Debt;
  }

  /** The device's count of one instance after one more command. */
  lemma SinceAfter(log: seq<Cmd>, cmd: Cmd, id: string, i: nat)
    requires cmd.id == id
    ensures SinceBy(log + [cmd], id, i) ==
            if cmd.Trim? then 0 else if cmd.inst == i then SinceBy(log, id, i) + 1 else SinceBy(log, id, i)
  {
    assert (log + [cmd])[..|log + [cmd]| - 1] == log;
  }

  /** The instance whose pipeline moves. */
  lemma AdvanceGood(log: seq<Cmd>, i: nat, inst: Inst, j: nat, id: string, b: nat, c: nat)
    requires c >= 1 && InstGood(log, i, inst, id, b, c) && j < |inst.queue|
    ensures var p := inst.queue[j];
            && p.id == id && |p.members| <= b
            && (p.added ==> InstGood(log + [Trim(i, id)], i, inst.(queue := Without(inst.queue, j)), id, b, c))
            && (!p.added && p.trims ==>
                  InstGood(log + [Add(i, id, p.members)], i, inst.(queue := inst.queue[j := p.(added := true)]), id, b, c))
            && (!p.added && !p.trims ==>
                  InstGood(log + [Add(i, id, p.members)], i, inst.(queue := Without(inst.queue, j)), id, b, c))
  {
    var p := inst.queue[j];
    var rest := Without(inst.queue, j);
    DebtSplit(inst.queue, j);
    DebtOne(p);
    DebtOne(p.(added := true));
    DebtFloor(rest);
    SinceAfter(log, Trim(i, id), id, i);
    SinceAfter(log, Add(i, id, p.members), id, i);
    hide Debt, SinceBy;
    assert PipesFor(rest, id, b);
    assert PipesFor(inst.queue[j := p.(added := true)], id, b) || !p.trims;
  }

  /** All the others. */
  lemma OthersGood(log: seq<Cmd>, cmd: Cmd, i: nat, inst: Inst, id: string, b: nat, c: nat)
    requires InstGood(log, i, inst, id, b, c) && cmd.id == id && cmd.inst != i && c >= 1
    ensures InstGood(log + [cmd], i, inst, id, b, c)
  {
    SinceAfter(log, cmd, id, i);
    DebtFloor(inst.queue);
    hide Debt, SinceBy, PipesFor;
  }

  lemma NextGood(s: Sys, e: Event, id: string, b: nat, c: nat)
    requires Good(s, id, b, c) && Enabled(s, e) && Lawful(s, e, Orderly(id, b, c))
    ensures Good(Next(s, e), id, b, c)
  {
    hide InstGood, Without;
    var t := Next(s, e);
    var i := e.i;
    assert InstGood(s.log, i, s.insts[i], id, b, c);
    if e.Start? {
      StartGood(s.log, i, s.insts[i], e.members, id, b, c);
    } else {
      AdvanceGood(s.log, i, s.insts[i], e.j, id, b, c);
      forall n | 0 <= n < |t.insts| ensures InstGood(t.log, n, t.insts[n], id, b, c) {
        if n != i {
          assert InstGood(s.log, n, s.insts[n], id, b, c);
          OthersGood(s.log, t.log[|t.log| - 1], n, s.insts[n], id, b, c);
        }
      }
    }
  }

  lemma {:induction false} RunGood(s: Sys, es: seq<Event>, id: string, b: nat, c: nat)
    requires Good(s, id, b, c) && Possible(s, es) && LawfulRun(s, es, Orderly(id, b, c))
    ensures Good(Run(s, es), id, b, c) && |Run(s, es).insts| == |s.insts|
    decreases |es|
  {
    hide Good, Lawful, Orderly;
    if es != [] {
      NextGood(s, es[0], id, b, c);
      RunGood(Next(s, es[0]), es[1..], id, b, c);
    }
  }

  // The bound.

  function Allowed(insts: seq<Inst>, c: nat): int {
    if insts == [] then 0 else Allowed(insts[..|insts| - 1], c) + Allowance(insts[|insts| - 1], c)
  }

  lemma {:induction false} SumAllowed(log: seq<Cmd>, insts: seq<Inst>, id: string, b: nat, c: nat)
    requires forall i | 0 <= i < |insts| :: InstGood(log, i, insts[i], id, b, c)
    ensures SinceAll(log, id, |insts|) <= Allowed(insts, c)
    decreases |insts|
  {
    hide SinceBy, Allowance;
    if insts != [] {
      SumAllowed(log, insts[..|insts| - 1], id, b, c);
    }
  }

  lemma {:induction false} DebtCeiling(q: seq<Pipe>)
    ensures Debt(q) <= TRIM_EVERY * |q|
    decreases |q|
  {
    if q != [] {
      DebtCeiling(q[..|q| - 1]);
    }
  }

  /** No instance is ever allowed more than sixteen batches for each call it may have under way, and one less for each of
      these that could be overtaken by a trim. */
  lemma AllowanceEver(log: seq<Cmd>, i: nat, inst: Inst, id: string, b: nat, c: nat)
    requires c >= 1 && InstGood(log, i, inst, id, b, c)
    ensures Allowance(inst, c) <= 17 * c - 1
  {
    hide SinceBy;
    var q := inst.queue;
    DebtCeiling(q);
    if |q| == c {
      DebtCeiling(q[..c - 1]);
    }
  }

  lemma {:induction false} AllowedEver(log: seq<Cmd>, insts: seq<Inst>, id: string, b: nat, c: nat)
    requires c >= 1 && forall i | 0 <= i < |insts| :: InstGood(log, i, insts[i], id, b, c)
    ensures Allowed(insts, c) <= |insts| * (17 * c - 1)
    decreases |insts|
  {
    hide InstGood, Allowance;
    if insts != [] {
      var k := |insts| - 1;
      assert InstGood(log, k, insts[k], id, b, c);
      AllowanceEver(log, k, insts[k], id, b, c);
      AllowedEver(log, insts[..k], id, b, c);
      assert (k + 1) * (17 * c - 1) == k * (17 * c - 1) + (17 * c - 1);
    }
  }

  /** With `k` instances writing one device in batches of at most `b`, each with at most `c` calls under way and no
      failures, the device holds at most `cap` plus `b` times what the instances' counters and pipelines allow. */
  lemma SizeBound(cap: nat, k: nat, es: seq<Event>, id: string, b: nat, c: nat)
    requires c >= 1 && Possible(Boot(k), es) && LawfulRun(Boot(k), es, Orderly(id, b, c))
    ensures var s := Run(Boot(k), es); |Get(Exec(cap, s.log), id)| <= cap + b * Allowed(s.insts, c)
  {
    hide Boot, Run, Exec, SinceAll, Allowed, LawfulRun, Possible, SmallLog, InstGood;
    var s := Run(Boot(k), es);
    BootGood(k, id, b, c);
    RunGood(Boot(k), es, id, b, c);
    SumAllowed(s.log, s.insts, id, b, c);
    MembersOfBatches(s.log, id, b, |s.insts|);
    SizeSinceTrim(cap, s.log, id);
    var x, y := SinceAll(s.log, id, |s.insts|), Allowed(s.insts, c);
    assert b * x <= b * y;
  }

  /** Instances whose ZADD has run and whose trim has not. */
  function HalfWay(insts: seq<Inst>): nat {
    if insts == [] then 0 else
      var q := insts[|insts| - 1].queue;
      HalfWay(insts[..|insts| - 1]) + if q != [] && q[0].added then 1 else 0
  }

  lemma SerialAllowance(log: seq<Cmd>, i: nat, inst: Inst, id: string, b: nat)
    requires InstGood(log, i, inst, id, b, 1)
    ensures Allowance(inst, 1) <= 15 + if inst.queue != [] && inst.queue[0].added then 1 else 0
  {
    hide SinceBy;
    if inst.queue != [] {
      assert inst.queue == [inst.queue[0]];
      DebtOne(inst.queue[0]);
    }
  }

  lemma {:induction false} SerialAllowed(log: seq<Cmd>, insts: seq<Inst>, id: string, b: nat)
    requires forall i | 0 <= i < |insts| :: InstGood(log, i, insts[i], id, b, 1)
    ensures Allowed(insts, 1) <= 15 * |insts| + HalfWay(insts)
    decreases |insts|
  {
    hide InstGood, Allowance;
    if insts != [] {
      var k := |insts| - 1;
      assert InstGood(log, k, insts[k], id, b, 1);
      SerialAllowance(log, k, insts[k], id, b);
      SerialAllowed(log, insts[..k], id, b);
    }
  }

  /** With one call at a time per instance: fifteen batches each, and one more for each instance between its ZADD and its
      trim. After completed pipelines only, that is cap + 15kb; with a single instance never more than the documented
      cap + 16b. */
  lemma SerialBound(cap: nat, k: nat, es: seq<Event>, id: string, b: nat)
    requires Possible(Boot(k), es) && LawfulRun(Boot(k), es, Orderly(id, b, 1))
    ensures var s := Run(Boot(k), es);
            && |Get(Exec(cap, s.log), id)| <= cap + b * (15 * k + HalfWay(s.insts))
            && ((forall i | 0 <= i < |s.insts| :: s.insts[i].queue == []) ==> HalfWay(s.insts) == 0)
            && (k == 1 ==> |Get(Exec(cap, s.log), id)| <= cap + TRIM_EVERY * b)
  {
    hide Boot, Run, Exec, LawfulRun, Possible, SmallLog, InstGood, Allowed, HalfWay;
    var s := Run(Boot(k), es);
    BootGood(k, id, b, 1);
    RunGood(Boot(k), es, id, b, 1);
    SizeBound(cap, k, es, id, b, 1);
    SerialAllowed(s.log, s.insts, id, b);
    var x, y := Allowed(s.insts, 1), 15 * k + HalfWay(s.insts);
    assert b * x <= b * y;
    if forall i | 0 <= i < |s.insts| :: s.insts[i].queue == [] {
      NoneHalfWay(s.insts);
    }
    if k == 1 {
      OneHalfWay(s.insts);
      assert b * y <= b * TRIM_EVERY;
    }
  }

  lemma {:induction false} NoneHalfWay(insts: seq<Inst>)
    requires forall i | 0 <= i < |insts| :: insts[i].queue == []
    ensures HalfWay(insts) == 0
    decreases |insts|
  {
    if insts != [] {
      NoneHalfWay(insts[..|insts| - 1]);
    }
  }

  lemma OneHalfWay(insts: seq<Inst>)
    requires |insts| == 1
    ensures HalfWay(insts) <= 1
  {
    assert HalfWay(insts[..0]) == 0;
  }
}
