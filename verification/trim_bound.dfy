/** How large a device can get under amortized trimming (internal/store/redis.go, Append): the exact bounds at rest and in
    every state, when the bound in the comment there holds, and the traffic for which there is no bound at all. */
module TrimBound {
  import opened Bytes
  import opened Strconv
  import opened Codec
  import opened SortedMembers
  import opened SortedSets
  import opened TrimSchedule
  import opened TrimRuns

  // Steps of one instance, the others standing still.

  function SupplyOf(tr: Traffic): Supply {
    Supply(tr.encoded, tr.batch)
  }

  /** The traffic includes the device, and its supply lasts for `n` calls. */
  predicate Covers(tr: Traffic, id: string, n: nat) {
    id in tr.ids && (tr.encoded ==> n <= MOST && tr.batch <= TWO64)
  }

  /** `h` pipelines wait with their ZADD still to run, none of them with a trim. */
  ghost predicate Holding(inst: Inst, h: nat, id: string, b: nat) {
    && |inst.queue| == h
    && forall j | 0 <= j < h ::
         inst.queue[j].id == id && |inst.queue[j].members| == b && !inst.queue[j].trims && !inst.queue[j].added
  }

  ghost predicate Only(s: Sys, t: Sys, i: nat) {
    |t.insts| == |s.insts| && i < |s.insts| && t.insts == s.insts[i := t.insts[i]]
  }

  /** A call is sent and its ZADD does not run yet. */
  lemma Sent(cap: nat, s: Sys, i: nat, id: string, tr: Traffic, next: nat) returns (t: Sys)
    requires i < |s.insts| && |s.insts[i].queue| < tr.calls && Supplied(s, id, SupplyOf(tr), next) && Covers(tr, id, next + 1)
    ensures Leads(s, t, tr) && Only(s, t, i) && Supplied(t, id, SupplyOf(tr), next + 1)
    ensures Size(cap, t, id) == Size(cap, s, id)
    ensures var w := NextSeq(s.insts[i].writes, 1);
            && t.insts[i].writes == w && |t.insts[i].queue| == |s.insts[i].queue| + 1
            && t.insts[i].queue[..|s.insts[i].queue|] == s.insts[i].queue
            && var p := t.insts[i].queue[|s.insts[i].queue|];
               p.id == id && |p.members| == tr.batch && p.trims == (w % TRIM_EVERY == 0) && !p.added
  {
    hide NextSeq, Supplied, Exec, Stock, Leads, Numbered;
    var sup := SupplyOf(tr);
    var e := Start(i, id, Stock(sup, next, s.insts[i].count));
    t := Next(s, e);
    StartKeeps(s, i, id, sup, next);
    if tr.encoded {
      StockNumbered(sup, next, s.insts[i].count);
    }
    LeadsStep(s, e, tr);
  }

  /** The next command of a pipeline of the device runs. */
  lemma Ran(cap: nat, s: Sys, i: nat, j: nat, id: string, tr: Traffic, next: nat) returns (t: Sys)
    requires i < |s.insts| && j < |s.insts[i].queue| && Supplied(s, id, SupplyOf(tr), next)
    requires s.insts[i].queue[j].id == id && (s.insts[i].queue[j].added ==> s.insts[i].queue[j].trims)
    ensures Leads(s, t, tr) && Only(s, t, i) && Supplied(t, id, SupplyOf(tr), next)
    ensures var p := s.insts[i].queue[j]; var q := t.insts[i].queue;
            && t.insts[i].writes == s.insts[i].writes
            && q == (if p.trims && !p.added then s.insts[i].queue[j := p.(added := true)] else Without(s.insts[i].queue, j))
            && Size(cap, t, id) == if p.added then Min(Size(cap, s, id), cap) else Size(cap, s, id) + |p.members|
  {
    hide Supplied, Exec, Leads, Without, Size;
    t := Next(s, Advance(i, j));
    AdvanceKeeps(s, i, j, id, SupplyOf(tr), next);
    AdvanceSize(cap, s, i, j, id, SupplyOf(tr), next);
    LeadsStep(s, Advance(i, j), tr);
  }

  /** One more call waits. */
  lemma Hold(cap: nat, s: Sys, i: nat, h: nat, id: string, tr: Traffic, next: nat) returns (t: Sys)
    requires i < |s.insts| && Holding(s.insts[i], h, id, tr.batch) && h < tr.calls
    requires Supplied(s, id, SupplyOf(tr), next) && Covers(tr, id, next + 1)
    requires NextSeq(s.insts[i].writes, 1) % TRIM_EVERY != 0
    ensures Leads(s, t, tr) && Only(s, t, i) && Supplied(t, id, SupplyOf(tr), next + 1)
    ensures Size(cap, t, id) == Size(cap, s, id)
    ensures Holding(t.insts[i], h + 1, id, tr.batch) && t.insts[i].writes == NextSeq(s.insts[i].writes, 1)
  {
    hide NextSeq, Supplied, Size, Leads;
    t := Sent(cap, s, i, id, tr, next);
    forall j | 0 <= j < h ensures t.insts[i].queue[j] == s.insts[i].queue[j] {
      assert t.insts[i].queue[..h][j] == t.insts[i].queue[j];
    }
  }

  /** The first waiting ZADD runs. */
  lemma Release(cap: nat, s: Sys, i: nat, h: nat, id: string, tr: Traffic, next: nat) returns (t: Sys)
    requires i < |s.insts| && Holding(s.insts[i], h, id, tr.batch) && h >= 1 && Supplied(s, id, SupplyOf(tr), next)
    ensures Leads(s, t, tr) && Only(s, t, i) && Supplied(t, id, SupplyOf(tr), next)
    ensures Size(cap, t, id) == Size(cap, s, id) + tr.batch
    ensures Holding(t.insts[i], h - 1, id, tr.batch) && t.insts[i].writes == s.insts[i].writes
  {
    hide Supplied, Size, Leads;
    t := Ran(cap, s, i, 0, id, tr, next);
  }

  lemma WithoutLast(q: seq<Pipe>, r: seq<Pipe>)
    requires |r| == |q| + 1 && r[..|q|] == q
    ensures Without(r, |q|) == q
  {
  }

  /** A call of which the ZADD has run and the trim, if it has one, has not. */
  lemma HalfCall(cap: nat, s: Sys, i: nat, id: string, tr: Traffic, next: nat) returns (t: Sys)
    requires i < |s.insts| && |s.insts[i].queue| < tr.calls && Supplied(s, id, SupplyOf(tr), next) && Covers(tr, id, next + 1)
    ensures Leads(s, t, tr) && Only(s, t, i) && Supplied(t, id, SupplyOf(tr), next + 1)
    ensures Size(cap, t, id) == Size(cap, s, id) + tr.batch
    ensures var w := NextSeq(s.insts[i].writes, 1); var q := s.insts[i].queue;
            && t.insts[i].writes == w
            && if w % TRIM_EVERY != 0 then t.insts[i].queue == q
               else |t.insts[i].queue| == |q| + 1 && t.insts[i].queue[..|q|] == q
                    && var p := t.insts[i].queue[|q|]; p.id == id && p.trims && p.added
  {
    hide NextSeq, Supplied, Size, Leads, Without;
    var u := Sent(cap, s, i, id, tr, next);
    var q := s.insts[i].queue;
    t := Ran(cap, u, i, |q|, id, tr, next + 1);
    WithoutLast(q, u.insts[i].queue);
    LeadsJoin(s, u, t, tr);
  }

  /** A whole call beside the waiting ones. */
  lemma Call(cap: nat, s: Sys, i: nat, id: string, tr: Traffic, next: nat) returns (t: Sys)
    requires i < |s.insts| && |s.insts[i].queue| < tr.calls && Supplied(s, id, SupplyOf(tr), next) && Covers(tr, id, next + 1)
    ensures Leads(s, t, tr) && Only(s, t, i) && Supplied(t, id, SupplyOf(tr), next + 1)
    ensures var w := NextSeq(s.insts[i].writes, 1);
            && t.insts[i].writes == w && t.insts[i].queue == s.insts[i].queue
            && Size(cap, t, id) == if w % TRIM_EVERY == 0 then Min(Size(cap, s, id) + tr.batch, cap)
                                   else Size(cap, s, id) + tr.batch
  {
    hide NextSeq, Supplied, Size, Leads, Without;
    t := HalfCall(cap, s, i, id, tr, next);
    var q := s.insts[i].queue;
    if t.insts[i].queue != q {
      var u := t;
      t := Ran(cap, u, i, |q|, id, tr, next + 1);
      WithoutLast(q, u.insts[i].queue);
      LeadsJoin(s, u, t, tr);
    }
  }

  /** Calls up to the next trim and not including it. */
  lemma {:induction false} Calls(cap: nat, s: Sys, i: nat, id: string, tr: Traffic, next: nat, n: nat) returns (t: Sys)
    requires i < |s.insts| && |s.insts[i].queue| < tr.calls && Supplied(s, id, SupplyOf(tr), next) && Covers(tr, id, next + n)
    requires s.insts[i].writes % TRIM_EVERY + n < TRIM_EVERY
    ensures Leads(s, t, tr) && Only(s, t, i) && Supplied(t, id, SupplyOf(tr), next + n)
    ensures t.insts[i].queue == s.insts[i].queue && t.insts[i].writes % TRIM_EVERY == s.insts[i].writes % TRIM_EVERY + n
    ensures Size(cap, t, id) == Size(cap, s, id) + n * tr.batch
    decreases n
  {
    hide NextSeq, Supplied, Size, Leads;
    if n == 0 {
      t := s;
      LeadsSelf(s, tr);
    } else {
      WriteCount(s.insts[i].writes);
      var u := Call(cap, s, i, id, tr, next);
      t := Calls(cap, u, i, id, tr, next + 1, n - 1);
      LeadsJoin(s, u, t, tr);
      OneMoreTime(n, tr.batch);
    }
  }

  lemma OneMoreTime(n: nat, b: nat)
    requires n >= 1
    ensures n * b == (n - 1) * b + b
  {
  }

  ghost predicate Prepared(inst: Inst, h: nat, id: string, b: nat) {
    Holding(inst, h, id, b) && inst.writes % TRIM_EVERY == 0
  }

  /** Calls are held back until `m` wait; one that would trim goes through instead. */
  lemma {:induction false} HoldUpTo(cap: nat, s: Sys, i: nat, h: nat, m: nat, id: string, tr: Traffic, next: nat)
      returns (t: Sys, next': nat)
    requires i < |s.insts| && Holding(s.insts[i], h, id, tr.batch) && h <= m < tr.calls
    requires Supplied(s, id, SupplyOf(tr), next) && Covers(tr, id, next + 2 * (m - h))
    ensures Leads(s, t, tr) && Only(s, t, i) && Supplied(t, id, SupplyOf(tr), next') && Holding(t.insts[i], m, id, tr.batch)
    ensures next' <= next + 2 * (m - h)
    decreases m - h
  {
    hide NextSeq, Supplied, Size, Leads;
    WriteCount(s.insts[i].writes);
    if h == m {
      t, next' := s, next;
      LeadsSelf(s, tr);
    } else if NextSeq(s.insts[i].writes, 1) % TRIM_EVERY != 0 {
      var u := Hold(cap, s, i, h, id, tr, next);
      t, next' := HoldUpTo(cap, u, i, h + 1, m, id, tr, next + 1);
      LeadsJoin(s, u, t, tr);
    } else {
      var u := Call(cap, s, i, id, tr, next);
      WriteCount(u.insts[i].writes);
      var v := Hold(cap, u, i, h, id, tr, next + 1);
      LeadsJoin(s, u, v, tr);
      t, next' := HoldUpTo(cap, v, i, h + 1, m, id, tr, next + 2);
      LeadsJoin(s, v, t, tr);
    }
  }

  /** Calls up to and including the next trim. */
  lemma {:induction false} TopUp(cap: nat, s: Sys, i: nat, h: nat, id: string, tr: Traffic, next: nat)
      returns (t: Sys, next': nat)
    requires i < |s.insts| && Holding(s.insts[i], h, id, tr.batch) && h < tr.calls
    requires Supplied(s, id, SupplyOf(tr), next) && Covers(tr, id, next + Missing(s.insts[i].writes))
    ensures Leads(s, t, tr) && Only(s, t, i) && Supplied(t, id, SupplyOf(tr), next') && Prepared(t.insts[i], h, id, tr.batch)
    ensures next' <= next + Missing(s.insts[i].writes)
    decreases Missing(s.insts[i].writes)
  {
    hide NextSeq, Supplied, Size, Leads;
    if s.insts[i].writes % TRIM_EVERY == 0 {
      t, next' := s, next;
      LeadsSelf(s, tr);
    } else {
      WriteCount(s.insts[i].writes);
      var u := Call(cap, s, i, id, tr, next);
      t, next' := TopUp(cap, u, i, h, id, tr, next + 1);
      LeadsJoin(s, u, t, tr);
    }
  }

  /** The writes up to the next one that trims. */
  function Missing(w: uint64): (n: nat)
    ensures n < TRIM_EVERY
  {
    (TRIM_EVERY - w % TRIM_EVERY) % TRIM_EVERY
  }

  // Steps of all instances in turn.

  /** The first `n` instances hold `m` calls back, the others none; all stand right behind a trim. */
  ghost predicate Ranks(s: Sys, n: nat, m: nat, id: string, b: nat) {
    forall j | 0 <= j < |s.insts| :: Prepared(s.insts[j], if j < n then m else 0, id, b)
  }

  lemma {:induction false} PrepareAll(cap: nat, k: nat, n: nat, m: nat, id: string, tr: Traffic) returns (t: Sys, next: nat)
    requires n <= k && m < tr.calls && Covers(tr, id, n * (2 * m + 16))
    ensures Leads(Boot(k), t, tr) && |t.insts| == k && Supplied(t, id, SupplyOf(tr), next) && Ranks(t, n, m, id, tr.batch)
    ensures next <= n * (2 * m + 16)
    decreases n
  {
    hide Supplied, Leads, Prepared, Missing;
    if n == 0 {
      t, next := Boot(k), 0;
      BootSupplied(k, id, SupplyOf(tr));
      BootRanks(k, m, id, tr.batch);
      LeadsSelf(t, tr);
    } else {
      OneMoreTime(n, 2 * m + 16);
      var s, next0 := PrepareAll(cap, k, n - 1, m, id, tr);
      assert Prepared(s.insts[n - 1], 0, id, tr.batch);
      PreparedHolds(s.insts[n - 1], 0, id, tr.batch);
      var u, next1 := HoldUpTo(cap, s, n - 1, 0, m, id, tr, next0);
      t, next := TopUp(cap, u, n - 1, m, id, tr, next1);
      LeadsJoin(Boot(k), s, u, tr);
      LeadsJoin(Boot(k), u, t, tr);
      forall j | 0 <= j < |t.insts| ensures Prepared(t.insts[j], if j < n then m else 0, id, tr.batch) {
        assert Prepared(s.insts[j], if j < n - 1 then m else 0, id, tr.batch);
      }
    }
  }

  lemma BootRanks(k: nat, m: nat, id: string, b: nat)
    ensures Ranks(Boot(k), 0, m, id, b)
  {
  }

  lemma PreparedHolds(inst: Inst, h: nat, id: string, b: nat)
    requires Prepared(inst, h, id, b)
    ensures Holding(inst, h, id, b) && inst.writes % TRIM_EVERY == 0 && |inst.queue| == h
  {
  }

  /** Sixteen calls, the last of which trims. */
  lemma Round(cap: nat, s: Sys, i: nat, h: nat, id: string, tr: Traffic, next: nat) returns (t: Sys)
    requires i < |s.insts| && Prepared(s.insts[i], h, id, tr.batch) && h < tr.calls
    requires Supplied(s, id, SupplyOf(tr), next) && Covers(tr, id, next + 16)
    ensures Leads(s, t, tr) && Only(s, t, i) && Supplied(t, id, SupplyOf(tr), next + 16)
    ensures Prepared(t.insts[i], h, id, tr.batch) && Size(cap, t, id) == Min(Size(cap, s, id) + 16 * tr.batch, cap)
  {
    hide NextSeq, Supplied, Size, Leads;
    var u := Calls(cap, s, i, id, tr, next, 15);
    WriteCount(u.insts[i].writes);
    t := Call(cap, u, i, id, tr, next + 15);
    LeadsJoin(s, u, t, tr);
  }

  /** Rounds until the device is full. */
  lemma {:induction false} WarmUp(cap: nat, s: Sys, i: nat, h: nat, id: string, tr: Traffic, next: nat)
      returns (t: Sys, next': nat)
    requires i < |s.insts| && Prepared(s.insts[i], h, id, tr.batch) && h < tr.calls && tr.batch >= 1 && Size(cap, s, id) <= cap
    requires Supplied(s, id, SupplyOf(tr), next) && Covers(tr, id, next + 16 * (cap - Size(cap, s, id)))
    ensures Leads(s, t, tr) && Only(s, t, i) && Supplied(t, id, SupplyOf(tr), next')
    ensures Prepared(t.insts[i], h, id, tr.batch) && Size(cap, t, id) == cap
    ensures next' <= next + 16 * (cap - Size(cap, s, id))
    decreases cap - Size(cap, s, id)
  {
    hide Supplied, Size, Leads, Prepared;
    if Size(cap, s, id) == cap {
      t, next' := s, next;
      LeadsSelf(s, tr);
    } else {
      var u := Round(cap, s, i, h, id, tr, next);
      t, next' := WarmUp(cap, u, i, h, id, tr, next + 16);
      LeadsJoin(s, u, t, tr);
    }
  }

  lemma {:induction false} ReleaseHeld(cap: nat, s: Sys, i: nat, h: nat, id: string, tr: Traffic, next: nat) returns (t: Sys)
    requires i < |s.insts| && Prepared(s.insts[i], h, id, tr.batch) && Supplied(s, id, SupplyOf(tr), next)
    ensures Leads(s, t, tr) && Only(s, t, i) && Supplied(t, id, SupplyOf(tr), next) && Prepared(t.insts[i], 0, id, tr.batch)
    ensures Size(cap, t, id) == Size(cap, s, id) + h * tr.batch
    decreases h
  {
    hide Supplied, Size, Leads;
    if h == 0 {
      t := s;
      LeadsSelf(s, tr);
    } else {
      var u := Release(cap, s, i, h, id, tr, next);
      t := ReleaseHeld(cap, u, i, h - 1, id, tr, next);
      LeadsJoin(s, u, t, tr);
      OneMoreTime(h, tr.batch);
    }
  }

  /** `h` times fifteen calls and one of which the trim waits. */
  lemma {:induction false} Pile(cap: nat, s: Sys, i: nat, h: nat, id: string, tr: Traffic, next: nat) returns (t: Sys)
    requires i < |s.insts| && s.insts[i].writes % TRIM_EVERY == 0 && |s.insts[i].queue| + h <= tr.calls
    requires Supplied(s, id, SupplyOf(tr), next) && Covers(tr, id, next + 16 * h)
    ensures Leads(s, t, tr) && Only(s, t, i) && Supplied(t, id, SupplyOf(tr), next + 16 * h)
    ensures Size(cap, t, id) == Size(cap, s, id) + h * (16 * tr.batch)
    decreases h
  {
    hide NextSeq, Supplied, Size, Leads;
    if h == 0 {
      t := s;
      LeadsSelf(s, tr);
    } else {
      var u := Calls(cap, s, i, id, tr, next, 15);
      WriteCount(u.insts[i].writes);
      var v := HalfCall(cap, u, i, id, tr, next + 15);
      t := Pile(cap, v, i, h - 1, id, tr, next + 16);
      LeadsJoin(s, u, v, tr);
      LeadsJoin(s, v, t, tr);
      OneMoreTime(h, 16 * tr.batch);
    }
  }

  /** What an instance adds that has held `m` calls back behind a trim: those, and then either fifteen more and nothing under
      way, or sixteen more for each call it may have under way, all the trims waiting. */
  function Burst(m: nat, piles: bool, tr: Traffic): nat {
    m * tr.batch + if piles then tr.calls * (16 * tr.batch) else 15 * tr.batch
  }

  function BurstCalls(piles: bool, tr: Traffic): nat {
    if piles then 16 * tr.calls else 15
  }

  lemma Spend(cap: nat, s: Sys, i: nat, m: nat, piles: bool, id: string, tr: Traffic, next: nat) returns (t: Sys)
    requires i < |s.insts| && Prepared(s.insts[i], m, id, tr.batch) && m < tr.calls
    requires Supplied(s, id, SupplyOf(tr), next) && Covers(tr, id, next + BurstCalls(piles, tr))
    ensures Leads(s, t, tr) && Only(s, t, i) && Supplied(t, id, SupplyOf(tr), next + BurstCalls(piles, tr))
    ensures !piles ==> t.insts[i].queue == []
    ensures Size(cap, t, id) == Size(cap, s, id) + Burst(m, piles, tr)
  {
    hide Supplied, Size, Leads, Holding;
    var v := ReleaseHeld(cap, s, i, m, id, tr, next);
    PreparedHolds(v.insts[i], 0, id, tr.batch);
    if piles {
      t := Pile(cap, v, i, tr.calls, id, tr, next);
    } else {
      t := Calls(cap, v, i, id, tr, next, 15);
    }
    LeadsJoin(s, v, t, tr);
  }

  /** The first `n` instances have spent what they could, the others hold `m` calls back behind a trim. */
  ghost predicate Spent(s: Sys, n: nat, m: nat, piles: bool, id: string, b: nat) {
    forall j | 0 <= j < |s.insts| ::
      if j < n then piles || s.insts[j].queue == [] else Prepared(s.insts[j], m, id, b)
  }

  lemma {:induction false} SpendAll(cap: nat, s: Sys, n: nat, m: nat, piles: bool, id: string, tr: Traffic, next: nat)
      returns (t: Sys)
    requires n <= |s.insts| && Spent(s, 0, m, piles, id, tr.batch) && m < tr.calls
    requires Supplied(s, id, SupplyOf(tr), next) && Covers(tr, id, next + n * BurstCalls(piles, tr))
    ensures Leads(s, t, tr) && |t.insts| == |s.insts| && Supplied(t, id, SupplyOf(tr), next + n * BurstCalls(piles, tr))
    ensures Spent(t, n, m, piles, id, tr.batch)
    ensures Size(cap, t, id) == Size(cap, s, id) + n * Burst(m, piles, tr)
    decreases n
  {
    hide Supplied, Size, Leads, Prepared, Burst, BurstCalls;
    if n == 0 {
      t := s;
      LeadsSelf(s, tr);
    } else {
      var i := n - 1;
      OneMoreTime(n, BurstCalls(piles, tr));
      OneMoreTime(n, Burst(m, piles, tr));
      var u := SpendAll(cap, s, i, m, piles, id, tr, next);
      assert Prepared(u.insts[i], m, id, tr.batch);
      t := Spend(cap, u, i, m, piles, id, tr, next + i * BurstCalls(piles, tr));
      LeadsJoin(s, u, t, tr);
      forall j | 0 <= j < |t.insts|
        ensures if j < n then piles || t.insts[j].queue == [] else Prepared(t.insts[j], m, id, tr.batch)
      {
        assert if j < i then piles || u.insts[j].queue == [] else Prepared(u.insts[j], m, id, tr.batch);
      }
    }
  }

  // The exact bounds.

  ghost predicate AtRest(s: Sys) {
    forall i | 0 <= i < |s.insts| :: s.insts[i].queue == []
  }

  /** One device, no failure, and, where the members are encoded points, numbers that fit the service's integers. */
  predicate Regular(cap: nat, k: nat, id: string, tr: Traffic) {
    && tr.ids == {id} && !tr.failing && tr.batch >= 1 && tr.calls >= 1
    && (tr.encoded ==> cap < TWO63 && k < TWO63 && tr.batch < TWO63 && tr.calls < TWO63)
  }

  lemma Products(x: nat, y: nat, m: nat, n: nat)
    requires x <= m && y <= n
    ensures x * y <= m * n
  {
    assert x * y <= m * y;
    assert m * y <= m * n;
  }

  /** The calls of the worst case, and that the supply of points lasts for them. */
  lemma Enough(cap: nat, k: nat, m: nat, piles: bool, id: string, tr: Traffic)
    requires Regular(cap, k, id, tr) && m < tr.calls
    ensures Covers(tr, id, k * (2 * m + 16) + 16 + 16 * cap + k * BurstCalls(piles, tr))
  {
    if tr.encoded {
      Products(k, 2 * m + 16, TWO63, 4 * TWO63);
      Products(k, BurstCalls(piles, tr), TWO63, 16 * TWO63);
    }
  }

  /** The worst case: every instance kept all but one of its calls waiting while the last trim landed, and then they landed;
      and then fifteen more calls of each, or sixteen for each call it may have under way, with all the trims waiting. */
  lemma Attained(cap: nat, k: nat, piles: bool, id: string, tr: Traffic) returns (t: Sys)
    requires k >= 1 && Regular(cap, k, id, tr)
    ensures Leads(Boot(k), t, tr) && (!piles ==> AtRest(t))
    ensures Size(cap, t, id) == cap + tr.batch * (k * if piles then 17 * tr.calls - 1 else tr.calls + 14)
  {
    hide Supplied, Size, Leads, Prepared, BurstCalls;
    var m := tr.calls - 1;
    Enough(cap, k, m, piles, id, tr);
    var s, n0 := PrepareAll(cap, k, k, m, id, tr);
    assert Prepared(s.insts[0], m, id, tr.batch);
    var u := Round(cap, s, 0, m, id, tr, n0);
    var v, n2 := WarmUp(cap, u, 0, m, id, tr, n0 + 16);
    forall j | 0 <= j < |v.insts| ensures Prepared(v.insts[j], m, id, tr.batch) {
      assert Prepared(s.insts[j], m, id, tr.batch);
    }
    t := SpendAll(cap, v, k, m, piles, id, tr, n2);
    LeadsJoin(Boot(k), s, u, tr);
    LeadsJoin(Boot(k), u, v, tr);
    LeadsJoin(Boot(k), v, t, tr);
    BurstIs(m, piles, tr);
    Regroup(k, tr.batch, if piles then 17 * tr.calls - 1 else tr.calls + 14);
  }

  lemma BurstIs(m: nat, piles: bool, tr: Traffic)
    requires m + 1 == tr.calls
    ensures Burst(m, piles, tr) == (if piles then 17 * tr.calls - 1 else tr.calls + 14) * tr.batch
  {
  }

  lemma Regroup(k: nat, b: nat, x: nat)
    ensures k * (x * b) == b * (k * x)
  {
  }

  lemma {:induction false} AllowedAtRest(insts: seq<Inst>, c: nat)
    requires forall i | 0 <= i < |insts| :: insts[i].queue == []
    ensures Allowed(insts, c) <= |insts| * (c + 14)
    decreases |insts|
  {
    if insts != [] {
      AllowedAtRest(insts[..|insts| - 1], c);
      OneMoreTime(|insts|, c + 14);
    }
  }

  /** What is lawful with encoded points is lawful without. */
  lemma {:induction false} LawfulPlain(s: Sys, es: seq<Event>, tr: Traffic)
    requires Possible(s, es) && LawfulRun(s, es, tr)
    ensures LawfulRun(s, es, tr.(encoded := false))
    decreases |es|
  {
    hide Next;
    if es != [] {
      LawfulPlain(Next(s, es[0]), es[1..], tr);
    }
  }

  /** What SizeBound says, about a state that is led to. */
  lemma LedSize(cap: nat, k: nat, s: Sys, id: string, tr: Traffic)
    requires tr.ids == {id} && !tr.failing && tr.calls >= 1 && Leads(Boot(k), s, tr)
    ensures |s.insts| == k && Size(cap, s, id) <= cap + tr.batch * Allowed(s.insts, tr.calls)
    ensures Good(s, id, tr.batch, tr.calls)
  {
    hide Exec, Boot, LawfulRun, Possible, Run, Allowed, Good;
    var es :| Possible(Boot(k), es) && LawfulRun(Boot(k), es, tr) && Run(Boot(k), es) == s;
    LawfulPlain(Boot(k), es, tr);
    assert tr.(encoded := false) == Orderly(id, tr.batch, tr.calls);
    SizeBound(cap, k, es, id, tr.batch, tr.calls);
    BootGood(k, id, tr.batch, tr.calls);
    RunGood(Boot(k), es, id, tr.batch, tr.calls);
    BootSize(k);
  }

  lemma BootSize(k: nat)
    ensures |Boot(k).insts| == k
  {
  }

  lemma Monotone(b: nat, x: int, y: int)
    requires x <= y
    ensures b * x <= b * y
  {
  }

  /** With `k` instances, batches of at most `b` and at most `c` calls at a time each, no device exceeds this at rest, and
      none exceeds the second in any state. */
  lemma NeverMore(cap: nat, k: nat, s: Sys, id: string, tr: Traffic)
    requires tr.ids == {id} && !tr.failing && tr.calls >= 1 && Leads(Boot(k), s, tr)
    ensures AtRest(s) ==> Size(cap, s, id) <= cap + tr.batch * (k * (tr.calls + 14))
    ensures Size(cap, s, id) <= cap + tr.batch * (k * (17 * tr.calls - 1))
  {
    hide Leads, Size, Allowed;
    LedSize(cap, k, s, id, tr);
    if AtRest(s) {
      AllowedAtRest(s.insts, tr.calls);
      Monotone(tr.batch, Allowed(s.insts, tr.calls), k * (tr.calls + 14));
    }
    AllowedEver(s.log, s.insts, id, tr.batch, tr.calls);
    Monotone(tr.batch, Allowed(s.insts, tr.calls), k * (17 * tr.calls - 1));
  }

  /** The device stays within `cap` plus `m` batches in every state, or in every state with nothing under way. */
  ghost predicate BoundHolds(cap: nat, k: nat, rest: bool, id: string, tr: Traffic, m: nat) {
    forall s | Leads(Boot(k), s, tr) && (rest ==> AtRest(s)) :: Size(cap, s, id) <= cap + m * tr.batch
  }

  /** The exact bounds, whatever the cap and the batch size: `k` instances with at most `c` calls at a time each exceed the
      cap by `k * (c + 14)` batches at most when nothing is under way, by `k * (17 * c - 1)` batches at most at any time,
      and no smaller numbers of batches will do. */
  lemma ExactBound(cap: nat, k: nat, rest: bool, id: string, tr: Traffic, m: nat)
    requires Regular(cap, k, id, tr)
    ensures BoundHolds(cap, k, rest, id, tr, m) <==> m >= k * if rest then tr.calls + 14 else 17 * tr.calls - 1
  {
    hide Leads, AtRest, Size;
    var worst := k * if rest then tr.calls + 14 else 17 * tr.calls - 1;
    if m >= worst {
      forall s | Leads(Boot(k), s, tr) && (rest ==> AtRest(s)) ensures Size(cap, s, id) <= cap + m * tr.batch {
        NeverMore(cap, k, s, id, tr);
        Monotone(tr.batch, worst, m);
      }
    } else {
      var t := Attained(cap, k, !rest, id, tr);
      Monotone(tr.batch, m + 1, worst);
    }
  }

  /** The bound of the comment, `cap` plus sixteen batches, holds at rest exactly without instances or with a single one
      that has at most two calls under way at a time, and at any time exactly with one call at a time. */
  lemma DocumentedBound(cap: nat, k: nat, rest: bool, id: string, tr: Traffic)
    requires Regular(cap, k, id, tr)
    ensures BoundHolds(cap, k, rest, id, tr, TRIM_EVERY) <==> k == 0 || (k == 1 && tr.calls <= if rest then 2 else 1)
  {
    ExactBound(cap, k, rest, id, tr, TRIM_EVERY);
    hide BoundHolds;
    Sixteen(k, if rest then tr.calls + 14 else 17 * tr.calls - 1);
  }

  lemma Sixteen(k: nat, x: nat)
    requires x >= 9
    ensures TRIM_EVERY >= k * x <==> k == 0 || (k == 1 && x <= TRIM_EVERY)
  {
    if k >= 2 {
      Products(2, x, k, x);
    }
  }

  // Traffic without a bound.

  const ONE := Supply(false, 1)

  /** A call of the first instance whose trim, if it has one, is lost with the connection. */
  lemma CutOffCall(cap: nat, k: nat, s: Sys, id: string, tr: Traffic, next: nat) returns (t: Sys)
    requires Leads(Boot(k), s, tr) && |s.insts| >= 1 && AtRest(s) && Supplied(s, id, ONE, next)
    requires id in tr.ids && tr.batch >= 1 && tr.calls >= 1 && !tr.encoded && tr.failing
    ensures Leads(Boot(k), t, tr) && |t.insts| >= 1 && AtRest(t) && Supplied(t, id, ONE, next + 1)
    ensures Size(cap, t, id) == Size(cap, s, id) + 1
  {
    hide Boot, NextSeq, Supplied, Exec, Stock, Leads;
    var e := Start(0, id, Stock(ONE, next, s.insts[0].count));
    var u := Next(s, e);
    StartKeeps(s, 0, id, ONE, next);
    LeadsNext(Boot(k), s, e, tr);
    assert Size(cap, u, id) == Size(cap, s, id);
    t := Next(u, Advance(0, 0));
    AdvanceKeeps(u, 0, 0, id, ONE, next + 1);
    AdvanceSize(cap, u, 0, 0, id, ONE, next + 1);
    LeadsNext(Boot(k), u, Advance(0, 0), tr);
    if t.insts[0].queue != [] {
      var v := t;
      t := Next(v, Fail(0, 0));
      FailKeeps(v, 0, 0, id, ONE, next + 1);
      LeadsNext(Boot(k), v, Fail(0, 0), tr);
      assert Size(cap, t, id) == Size(cap, v, id);
    }
  }

  /** With failing connections one device written by one call at a time reaches any size. */
  lemma {:induction false} CutOff(cap: nat, k: nat, id: string, tr: Traffic, n: nat) returns (t: Sys)
    requires k >= 1 && id in tr.ids && tr.batch >= 1 && tr.calls >= 1 && !tr.encoded && tr.failing
    ensures Leads(Boot(k), t, tr) && |t.insts| >= 1 && AtRest(t) && Supplied(t, id, ONE, n)
    ensures Size(cap, t, id) == n
    decreases n
  {
    hide Supplied, Leads;
    if n == 0 {
      t := Boot(k);
      LeadsSelf(t, tr);
      BootSupplied(k, id, ONE);
    } else {
      var s := CutOff(cap, k, id, tr, n - 1);
      t := CutOffCall(cap, k, s, id, tr, n - 1);
    }
  }

  /** The first instance writes the device and then another one: its trims fall to the other. */
  lemma StarvingCalls(cap: nat, k: nat, s: Sys, id: string, other: string, tr: Traffic, next: nat) returns (t: Sys)
    requires Leads(Boot(k), s, tr) && |s.insts| >= 1 && AtRest(s) && Supplied(s, id, ONE, next) && s.insts[0].writes % 2 == 0
    requires id in tr.ids && other in tr.ids && id != other && tr.batch >= 1 && tr.calls >= 1 && !tr.encoded
    ensures Leads(Boot(k), t, tr) && |t.insts| >= 1 && AtRest(t) && Supplied(t, id, ONE, next + 1) && t.insts[0].writes % 2 == 0
    ensures Size(cap, t, id) == Size(cap, s, id) + 1
  {
    hide Boot, NextSeq, Supplied, Exec, Stock, Leads, AtRest;
    var u := OddCall(cap, k, s, id, tr, next);
    t := OtherCall(cap, k, u, id, other, tr, next + 1);
    EvenThenOdd(s.insts[0].writes);
  }

  lemma EvenThenOdd(w: uint64)
    requires w % 2 == 0
    ensures NextSeq(w, 1) % TRIM_EVERY != 0 && NextSeq(NextSeq(w, 1), 1) % 2 == 0
  {
  }

  /** An odd write trims nothing. */
  lemma OddCall(cap: nat, k: nat, s: Sys, id: string, tr: Traffic, next: nat) returns (t: Sys)
    requires Leads(Boot(k), s, tr) && |s.insts| >= 1 && AtRest(s) && Supplied(s, id, ONE, next) && s.insts[0].writes % 2 == 0
    requires id in tr.ids && tr.batch >= 1 && tr.calls >= 1 && !tr.encoded
    ensures Leads(Boot(k), t, tr) && |t.insts| >= 1 && AtRest(t) && Supplied(t, id, ONE, next + 1)
    ensures t.insts[0].writes == NextSeq(s.insts[0].writes, 1) && Size(cap, t, id) == Size(cap, s, id) + 1
  {
    hide Boot, NextSeq, Supplied, Exec, Stock, Leads;
    EvenThenOdd(s.insts[0].writes);
    var e := Start(0, id, Stock(ONE, next, s.insts[0].count));
    var u := Next(s, e);
    StartKeeps(s, 0, id, ONE, next);
    LeadsNext(Boot(k), s, e, tr);
    assert Size(cap, u, id) == Size(cap, s, id);
    t := Next(u, Advance(0, 0));
    AdvanceKeeps(u, 0, 0, id, ONE, next + 1);
    AdvanceSize(cap, u, 0, 0, id, ONE, next + 1);
    LeadsNext(Boot(k), u, Advance(0, 0), tr);
  }

  /** A call for another device, trim and all. */
  lemma OtherCall(cap: nat, k: nat, s: Sys, id: string, other: string, tr: Traffic, next: nat) returns (t: Sys)
    requires Leads(Boot(k), s, tr) && |s.insts| >= 1 && AtRest(s) && Supplied(s, id, ONE, next)
    requires other in tr.ids && other != id && tr.batch >= 1 && tr.calls >= 1 && !tr.encoded
    ensures Leads(Boot(k), t, tr) && |t.insts| >= 1 && AtRest(t) && Supplied(t, id, ONE, next)
    ensures t.insts[0].writes == NextSeq(s.insts[0].writes, 1) && Size(cap, t, id) == Size(cap, s, id)
  {
    hide Boot, NextSeq, Supplied, Exec, Stock, Leads;
    var e := Start(0, other, Stock(ONE, next, s.insts[0].count));
    var u := Next(s, e);
    StartElsewhere(s, 0, id, other, Stock(ONE, next, s.insts[0].count), ONE, next);
    LeadsNext(Boot(k), s, e, tr);
    assert Size(cap, u, id) == Size(cap, s, id);
    t := Next(u, Advance(0, 0));
    AdvanceKeeps(u, 0, 0, id, ONE, next);
    AdvanceSize(cap, u, 0, 0, id, ONE, next);
    LeadsNext(Boot(k), u, Advance(0, 0), tr);
    if t.insts[0].queue != [] {
      var v := t;
      t := Next(v, Advance(0, 0));
      AdvanceKeeps(v, 0, 0, id, ONE, next);
      AdvanceSize(cap, v, 0, 0, id, ONE, next);
      LeadsNext(Boot(k), v, Advance(0, 0), tr);
    }
  }

  /** The counter is shared by all devices: one instance that writes two devices in turn trims only the second. The first
      reaches any size, whatever the cap, one call at a time and with no failure. */
  lemma {:induction false} StarvedDevice(cap: nat, k: nat, id: string, other: string, tr: Traffic, n: nat) returns (t: Sys)
    requires k >= 1 && id in tr.ids && other in tr.ids && id != other && tr.batch >= 1 && tr.calls >= 1 && !tr.encoded
    ensures Leads(Boot(k), t, tr) && |t.insts| >= 1 && AtRest(t) && Supplied(t, id, ONE, n) && t.insts[0].writes % 2 == 0
    ensures Size(cap, t, id) == n
    decreases n
  {
    hide Supplied, Leads;
    if n == 0 {
      t := Boot(k);
      LeadsSelf(t, tr);
      BootSupplied(k, id, ONE);
    } else {
      var s := StarvedDevice(cap, k, id, other, tr, n - 1);
      t := StarvingCalls(cap, k, s, id, other, tr, n - 1);
    }
  }

  /** Some number bounds the device whenever nothing is under way. */
  ghost predicate Bounded(cap: nat, k: nat, id: string, tr: Traffic) {
    exists m: nat :: Within(cap, k, id, tr, m)
  }

  ghost predicate Within(cap: nat, k: nat, id: string, tr: Traffic, m: nat) {
    forall s | Leads(Boot(k), s, tr) && AtRest(s) :: Size(cap, s, id) <= m
  }

  /** There is a bound at all exactly when the instances write no other device and no connection fails. */
  lemma BoundedExactly(cap: nat, k: nat, id: string, tr: Traffic)
    requires k >= 1 && id in tr.ids && tr.batch >= 1 && tr.calls >= 1 && !tr.encoded
    ensures Bounded(cap, k, id, tr) <==> tr.ids == {id} && !tr.failing
  {
    hide Leads, AtRest, Size, Boot, Supplied;
    if tr.ids == {id} && !tr.failing {
      var m := cap + tr.batch * (k * (tr.calls + 14));
      forall s | Leads(Boot(k), s, tr) && AtRest(s) ensures Size(cap, s, id) <= m {
        NeverMore(cap, k, s, id, tr);
      }
      assert Within(cap, k, id, tr, m);
    } else if Bounded(cap, k, id, tr) {
      var m: nat :| Within(cap, k, id, tr, m);
      if tr.failing {
        var t := CutOff(cap, k, id, tr, m + 1);
      } else {
        var other :| other in tr.ids && other != id;
        var t := StarvedDevice(cap, k, id, other, tr, m + 1);
      }
    }
  }
}
