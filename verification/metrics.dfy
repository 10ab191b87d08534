/** Counters created on first use (internal/metrics/metrics.go, With, Inc, Add, Render) as atomic steps of any number of
    threads: a look under the read lock, a second look under the write lock before a new cell is stored, and a scrape that
    loads the cells one by one under the read lock. */
module Metrics {
  import opened Bytes
  import opened Strconv

  /** Where a thread is in With(label); `cell` is what it found. A cell that With has
      returned can be kept and shared: any thread may add to it at any later time. */
  datatype Pc =
    | Outside
    | Called(name: string)
    | Reading(name: string)
    | Looked(name: string, cell: Option<nat>)
    | Missed(name: string)
    | Writing(name: string)
    | Relooked(name: string, cell: Option<nat>)
    | Stored(name: string, own: nat)
    | Holds(name: string, own: nat)
    | Scraping(since: nat)

  /** A value loaded by a scrape: how many additions had completed then, and when the scrape began. */
  datatype Load = Load(name: string, value: int64, at: nat, since: nat)

  /** `got` lists the calls of With that returned, `added` the additions that completed, `loads` what scrapes loaded. */
  datatype State = State(series: map<string, nat>, cells: seq<int64>, readers: set<nat>, writer: Option<nat>,
                         threads: seq<Pc>, got: seq<(string, nat)>, added: seq<(string, int64)>,
                         loads: seq<Load>)

  datatype Event =
    | Call(t: nat, name: string)
    | RLock(t: nat)
    | Look(t: nat)
    | RUnlock(t: nat)
    | Lock(t: nat)
    | Relook(t: nat)
    | Store(t: nat)
    | Unlock(t: nat)
    | Add(t: nat, k: nat, n: int64)
    | Leave(t: nat)
    | Scrape(t: nat)
    | Read(t: nat, name: string)
    | Finish(t: nat)

  predicate Enabled(s: State, e: Event) {
    e.t < |s.threads| && var pc := s.threads[e.t];
    match e
    case Call(_, _) => pc.Outside?
    case RLock(_) => pc.Called? && s.writer.None?
    case Look(_) => pc.Reading?
    case RUnlock(_) => pc.Looked?
    case Lock(_) => pc.Missed? && s.writer.None? && s.readers == {}
    case Relook(_) => pc.Writing?
    case Store(_) => pc.Relooked?
    case Unlock(_) => pc.Stored?
    case Add(_, k, _) => k < |s.got| && s.got[k].1 < |s.cells|
    case Leave(_) => pc.Holds?
    case Scrape(_) => pc.Outside? && s.writer.None?
    case Read(_, name) => pc.Scraping? && name in s.series && s.series[name] < |s.cells|
    case Finish(_) => pc.Scraping?
  }

  function Find(series: map<string, nat>, name: string): Option<nat> {
    if name in series then Some(series[name]) else None
  }

  function Next(s: State, e: Event): State
    requires Enabled(s, e)
  {
    var t := e.t;
    var pc := s.threads[t];
    match e
    case Call(_, name) => s.(threads := s.threads[t := Called(name)])
    case RLock(_) => s.(threads := s.threads[t := Reading(pc.name)], readers := s.readers + {t})
    case Look(_) => s.(threads := s.threads[t := Looked(pc.name, Find(s.series, pc.name))])
    case RUnlock(_) =>
      var u := s.(readers := s.readers - {t});
      if pc.cell.Some? then
        u.(threads := s.threads[t := Holds(pc.name, pc.cell.value)], got := s.got + [(pc.name, pc.cell.value)])
      else u.(threads := s.threads[t := Missed(pc.name)])
    case Lock(_) => s.(threads := s.threads[t := Writing(pc.name)], writer := Some(t))
    case Relook(_) => s.(threads := s.threads[t := Relooked(pc.name, Find(s.series, pc.name))])
    case Store(_) =>
      if pc.cell.Some? then s.(threads := s.threads[t := Stored(pc.name, pc.cell.value)])
      else
        s.(series := s.series[pc.name := |s.cells|], cells := s.cells + [0],
           threads := s.threads[t := Stored(pc.name, |s.cells|)])
    case Unlock(_) =>
      s.(threads := s.threads[t := Holds(pc.name, pc.own)], writer := None, got := s.got + [(pc.name, pc.own)])
    case Add(_, k, n) =>
      var (name, own) := s.got[k];
      s.(cells := s.cells[own := Wrap64(s.cells[own] + n)], added := s.added + [(name, n)])
    case Leave(_) => s.(threads := s.threads[t := Outside])
    case Scrape(_) => s.(threads := s.threads[t := Scraping(|s.added|)], readers := s.readers + {t})
    case Read(_, name) => s.(loads := s.loads + [Load(name, s.cells[s.series[name]], |s.added|, pc.since)])
    case Finish(_) => s.(threads := s.threads[t := Outside], readers := s.readers - {t})
  }

  predicate Possible(s: State, es: seq<Event>)
    decreases |es|
  {
    es == [] || (Enabled(s, es[0]) && Possible(Next(s, es[0]), es[1..]))
  }

  function Run(s: State, es: seq<Event>): State
    requires Possible(s, es)
    decreases |es|
  {
    if es == [] then s else Run(Next(s, es[0]), es[1..])
  }

  function Start(n: nat): State {
    State(map[], [], {}, None, seq(n, _ => Outside), [], [], [])
  }

  /** The sum of all additions made through the label. */
  function Total(added: seq<(string, int64)>, name: string): int {
    if added == [] then 0 else
      var a := added[|added| - 1];
      Total(added[..|added| - 1], name) + if a.0 == name then a.1 else 0
  }

  lemma TotalMore(added: seq<(string, int64)>, name: string, n: int64, l: string)
    ensures Total(added + [(name, n)], l) == Total(added, l) + if l == name then n else 0
  {
    var more := added + [(name, n)];
    assert more[..|more| - 1] == added;
  }

  // The invariant.

  /** One cell for each label, and no other cells. */
  ghost predicate OneCellEach(s: State) {
    && (forall l | l in s.series :: s.series[l] < |s.cells|)
    && (forall l, m | l in s.series && m in s.series && s.series[l] == s.series[m] :: l == m)
    && (forall c | 0 <= c < |s.cells| :: InUse(s.series, c))
  }

  ghost predicate InUse(series: map<string, nat>, c: nat) {
    exists l :: Bound(series, l, c)
  }

  predicate Bound(series: map<string, nat>, name: string, c: nat) {
    name in series && series[name] == c
  }

  predicate PcOk(series: map<string, nat>, pc: Pc) {
    match pc
    case Looked(l, c) => c.Some? ==> Bound(series, l, c.value)
    case Relooked(l, c) => if c.Some? then Bound(series, l, c.value) else l !in series
    case Stored(l, c) => Bound(series, l, c)
    case Holds(l, c) => Bound(series, l, c)
    case _ => true
  }

  predicate HasReadLock(pc: Pc) {
    pc.Reading? || pc.Looked? || pc.Scraping?
  }

  predicate HasWriteLock(pc: Pc) {
    pc.Writing? || pc.Relooked? || pc.Stored?
  }

  ghost predicate Locks(s: State) {
    && (forall t | 0 <= t < |s.threads| :: HasReadLock(s.threads[t]) <==> t in s.readers)
    && (forall t | 0 <= t < |s.threads| :: HasWriteLock(s.threads[t]) <==> s.writer == Some(t))
    && (s.writer.Some? ==> s.readers == {})
  }

  ghost predicate Sums(s: State) {
    && (forall l | l in s.series :: s.series[l] < |s.cells| && s.cells[s.series[l]] == Wrap64(Total(s.added, l)))
    && (forall l | l !in s.series :: Total(s.added, l) == 0)
  }

  ghost predicate Good(s: State) {
    && OneCellEach(s) && Locks(s) && Sums(s)
    && (forall t | 0 <= t < |s.threads| :: PcOk(s.series, s.threads[t]))
    && (forall k | 0 <= k < |s.got| :: Bound(s.series, s.got[k].0, s.got[k].1))
  }

  /** Every loaded value is the sum of the additions completed when it was loaded, no earlier than the scrape began. */
  ghost predicate LoadsOk(s: State) {
    && (forall k | 0 <= k < |s.loads| ::
          var d := s.loads[k]; d.since <= d.at <= |s.added| && d.value == Wrap64(Total(s.added[..d.at], d.name)))
    && (forall t | 0 <= t < |s.threads| && s.threads[t].Scraping? :: s.threads[t].since <= |s.added|)
  }

  lemma StartGood(n: nat)
    ensures Good(Start(n))
  {
  }

  /** The locks exclude as they should: several readers or one writer. */
  lemma LocksKept(s: State, e: Event)
    requires Locks(s) && Enabled(s, e)
    ensures Locks(Next(s, e))
  {
    hide Wrap64, Find, Total;
  }

  /** What the moving thread knows after its step, when no new cell is stored. */
  lemma MoverOk(s: State, e: Event)
    requires Enabled(s, e) && Quiet(s, e) && PcOk(s.series, s.threads[e.t])
    ensures PcOk(s.series, Next(s, e).threads[e.t])
  {
    hide Wrap64;
  }

  predicate Quiet(s: State, e: Event)
    requires Enabled(s, e)
  {
    !e.Add? && !(e.Store? && s.threads[e.t].cell.None?)
  }

  /** Steps that store no new cell and add nothing: only the moving thread changes, and a cell it returns is its label's. */
  lemma QuietFrame(s: State, e: Event)
    requires Enabled(s, e) && Quiet(s, e) && PcOk(s.series, s.threads[e.t])
    ensures var u := Next(s, e);
            && u.series == s.series && u.cells == s.cells && u.added == s.added
            && u.threads == s.threads[e.t := u.threads[e.t]]
            && (u.got == s.got
                || (|u.got| == |s.got| + 1 && u.got[..|s.got|] == s.got
                    && Bound(s.series, u.got[|s.got|].0, u.got[|s.got|].1)))
  {
    hide Find;
  }

  lemma QuietStep(s: State, e: Event)
    requires Good(s) && Enabled(s, e) && Quiet(s, e)
    ensures Good(Next(s, e))
  {
    hide Total, Wrap64, Next, Enabled, Quiet, PcOk;
    var u := Next(s, e);
    InPlace(s, e);
    assert PcOk(s.series, s.threads[e.t]);
    QuietFrame(s, e);
    assert OneCellEach(u) && Sums(u);
    hide OneCellEach, Sums, Locks;
    LocksKept(s, e);
    MoverOk(s, e);
    forall k | 0 <= k < |u.got| ensures Bound(u.series, u.got[k].0, u.got[k].1) {
      assert k < |s.got| ==> u.got[k] == u.got[..|s.got|][k] == s.got[k];
    }
  }

  lemma InPlace(s: State, e: Event)
    requires Enabled(s, e)
    ensures e.t < |s.threads|
  {
  }

  /** Only the thread with the write lock is between its second look and its store, so nobody else has stored the label. */
  lemma StoreStep(s: State, t: nat)
    requires Good(s) && Enabled(s, Store(t)) && s.threads[t].cell.None?
    ensures Good(Next(s, Store(t)))
  {
    hide Wrap64;
    var name := s.threads[t].name;
    var u := Next(s, Store(t));
    assert PcOk(s.series, s.threads[t]);
    StoredOnce(s, u, name);
    ZeroSum(s, u, name);
    LocksKept(s, Store(t));
    assert s.writer == Some(t);
    hide OneCellEach, Sums;
    forall r | 0 <= r < |u.threads| ensures PcOk(u.series, u.threads[r]) {
      assert PcOk(s.series, s.threads[r]);
      assert r != t ==> !HasWriteLock(s.threads[r]);
    }
  }

  lemma StoredOnce(s: State, u: State, name: string)
    requires OneCellEach(s) && name !in s.series
    requires u.series == s.series[name := |s.cells|] && |u.cells| == |s.cells| + 1
    ensures OneCellEach(u)
  {
    forall c | 0 <= c < |u.cells| ensures InUse(u.series, c) {
      if c == |s.cells| {
        assert Bound(u.series, name, c);
      } else {
        assert InUse(s.series, c);
        var l :| Bound(s.series, l, c);
        assert Bound(u.series, l, c);
      }
    }
  }

  lemma ZeroSum(s: State, u: State, name: string)
    requires Sums(s) && name !in s.series && u.added == s.added
    requires u.series == s.series[name := |s.cells|] && u.cells == s.cells + [0]
    ensures Sums(u)
  {
    hide Total;
    assert Total(u.added, name) == 0;
  }

  lemma AddStep(s: State, t: nat, k: nat, n: int64)
    requires Good(s) && Enabled(s, Add(t, k, n))
    ensures Good(Next(s, Add(t, k, n)))
  {
    hide Wrap64, Total;
    var (name, own) := s.got[k];
    var u := Next(s, Add(t, k, n));
    assert Bound(s.series, name, own);
    forall l | l in u.series ensures u.series[l] < |u.cells| && u.cells[u.series[l]] == Wrap64(Total(u.added, l)) {
      TotalMore(s.added, name, n, l);
      WrapAdd(Total(s.added, l), n);
    }
    forall l | l !in u.series ensures Total(u.added, l) == 0 {
      TotalMore(s.added, name, n, l);
    }
    assert OneCellEach(u);
    LocksKept(s, Add(t, k, n));
  }

  /** Wrapping at each addition is wrapping once. */
  lemma WrapAdd(x: int, n: int64)
    ensures Wrap64(Wrap64(x) + n) == Wrap64(x + n)
  {
  }

  lemma {:induction false} RunGood(s: State, es: seq<Event>)
    requires Good(s) && Possible(s, es)
    ensures Good(Run(s, es))
    decreases |es|
  {
    hide Good, Next, Enabled;
    if es != [] {
      NextGood(s, es[0]);
      RunGood(Next(s, es[0]), es[1..]);
    }
  }

  lemma NextGood(s: State, e: Event)
    requires Good(s) && Enabled(s, e)
    ensures Good(Next(s, e))
  {
    hide Good;
    if e.Add? {
      AddStep(s, e.t, e.k, e.n);
    } else if e.Store? && s.threads[e.t].cell.None? {
      StoreStep(s, e.t);
    } else {
      QuietStep(s, e);
    }
  }

  // The results.

  lemma NextKeeps(s: State, e: Event, name: string)
    requires Good(s) && Enabled(s, e) && name in s.series
    ensures var u := Next(s, e); name in u.series && u.series[name] == s.series[name]
  {
    assert PcOk(s.series, s.threads[e.t]);
    hide OneCellEach, Locks, Sums, Wrap64;
  }

  /** A cell once stored for a label stays, over any further steps. */
  lemma {:induction false} SeriesKept(s: State, es: seq<Event>, name: string)
    requires Good(s) && Possible(s, es) && name in s.series
    ensures var u := Run(s, es); name in u.series && u.series[name] == s.series[name]
    decreases |es|
  {
    if es != [] {
      hide Good, Next, Enabled;
      var u := Next(s, es[0]);
      NextGood(s, es[0]);
      NextKeeps(s, es[0], name);
      SeriesKept(u, es[1..], name);
    }
  }

  /** Over all interleavings, two calls of With return one cell exactly when they asked for one label; there are never
      more cells than labels in use, and two threads never both hold the write lock. */
  lemma OneCellPerLabel(n: nat, es: seq<Event>, i: nat, j: nat)
    requires Possible(Start(n), es)
    requires var s := Run(Start(n), es); i < |s.got| && j < |s.got|
    ensures var s := Run(Start(n), es);
            && (s.got[i].1 == s.got[j].1 <==> s.got[i].0 == s.got[j].0)
            && |s.cells| == |s.series|
  {
    StartGood(n);
    RunGood(Start(n), es);
    var s := Run(Start(n), es);
    hide Run, Possible, Locks, Sums, PcOk;
    assert Bound(s.series, s.got[i].0, s.got[i].1) && Bound(s.series, s.got[j].0, s.got[j].1);
    CellCount(s);
  }

  lemma CellCount(s: State)
    requires OneCellEach(s)
    ensures |s.cells| == |s.series|
  {
    LabelCount(s.series, |s.cells|);
  }

  lemma {:induction false} LabelCount(series: map<string, nat>, n: nat)
    requires forall l | l in series :: series[l] < n
    requires forall l, m | l in series && m in series && series[l] == series[m] :: l == m
    requires forall c | 0 <= c < n :: InUse(series, c)
    ensures |series| == n
    decreases n
  {
    if n == 0 {
      assert forall l :: l !in series;
      assert series == map[];
    } else {
      assert InUse(series, n - 1);
      var last :| Bound(series, last, n - 1);
      var rest := series - {last};
      forall c | 0 <= c < n - 1 ensures InUse(rest, c) {
        assert InUse(series, c);
        var l :| Bound(series, l, c);
        assert Bound(rest, l, c);
      }
      LabelCount(rest, n - 1);
      assert series.Keys == rest.Keys + {last};
    }
  }

  /** No addition is lost: at any moment a label's cell holds the sum of all additions completed through it, modulo 2^64;
      a label without a cell has none. */
  lemma NothingLost(n: nat, es: seq<Event>, name: string)
    requires Possible(Start(n), es)
    ensures var s := Run(Start(n), es);
            && (name in s.series ==>
                  s.series[name] < |s.cells| && s.cells[s.series[name]] == Wrap64(Total(s.added, name)))
            && (name !in s.series ==> Total(s.added, name) == 0)
  {
    StartGood(n);
    RunGood(Start(n), es);
    hide Run, Possible, Locks, OneCellEach, PcOk, Total, Wrap64;
    assert Sums(Run(Start(n), es));
  }

  /** A cell that a call of With returned is the label's cell from then on, for every later state of the run. */
  lemma CellIsForGood(n: nat, es: seq<Event>, more: seq<Event>, k: nat)
    requires Possible(Start(n), es) && Possible(Run(Start(n), es), more)
    requires k < |Run(Start(n), es).got|
    ensures var g := Run(Start(n), es).got[k]; var u := Run(Run(Start(n), es), more);
            g.0 in u.series && u.series[g.0] == g.1
  {
    StartGood(n);
    RunGood(Start(n), es);
    var s := Run(Start(n), es);
    assert Bound(s.series, s.got[k].0, s.got[k].1);
    hide Run, Possible, Good;
    SeriesKept(s, more, s.got[k].0);
  }

  // Render.

  lemma LoadsKept(s: State, e: Event)
    requires Good(s) && LoadsOk(s) && Enabled(s, e)
    ensures LoadsOk(Next(s, e))
  {
    if e.Read? {
      assert Sums(s);
      hide Good;
      ReadLoads(s, e.t, e.name);
    } else {
      hide Good;
      OtherLoads(s, e);
    }
  }

  lemma ReadLoads(s: State, t: nat, name: string)
    requires Sums(s) && LoadsOk(s) && Enabled(s, Read(t, name))
    ensures LoadsOk(Next(s, Read(t, name)))
  {
    Loaded(s, name);
    hide Total, Wrap64, Sums, Find;
    assert s.added[..|s.added|] == s.added;
  }

  lemma OtherLoads(s: State, e: Event)
    requires LoadsOk(s) && Enabled(s, e) && !e.Read?
    ensures LoadsOk(Next(s, e))
  {
    hide Total, Wrap64, Find;
    var u := Next(s, e);
    forall k | 0 <= k < |u.loads| ensures u.added[..u.loads[k].at] == s.added[..u.loads[k].at] {}
  }

  lemma Loaded(s: State, name: string)
    requires Sums(s) && name in s.series
    ensures s.series[name] < |s.cells| && s.cells[s.series[name]] == Wrap64(Total(s.added, name))
  {
  }

  lemma {:induction false} RunLoads(s: State, es: seq<Event>)
    requires Good(s) && LoadsOk(s) && Possible(s, es)
    ensures LoadsOk(Run(s, es))
    decreases |es|
  {
    hide Good, LoadsOk, Next, Enabled;
    if es != [] {
      NextGood(s, es[0]);
      LoadsKept(s, es[0]);
      RunLoads(Next(s, es[0]), es[1..]);
    }
  }

  predicate NonNegative(added: seq<(string, int64)>) {
    forall k | 0 <= k < |added| :: added[k].1 >= 0
  }

  lemma {:induction false} TotalGrows(added: seq<(string, int64)>, k: nat, name: string)
    requires k <= |added| && NonNegative(added)
    ensures 0 <= Total(added[..k], name) <= Total(added, name)
    decreases |added|
  {
    var m := |added| - 1;
    if k == |added| {
      assert added[..k] == added;
      if k > 0 {
        TotalGrows(added[..m], m, name);
        assert added[..m][..m] == added[..m];
      }
    } else {
      TotalGrows(added[..m], k, name);
      assert added[..m][..k] == added[..k];
    }
  }

  /** A rendered value is never behind what had completed when the scrape began, nor ahead of what has completed since: for
      counters that only go up and have not passed 2^63. */
  lemma RenderBetween(n: nat, es: seq<Event>, k: nat)
    requires Possible(Start(n), es) && k < |Run(Start(n), es).loads|
    requires var s := Run(Start(n), es); NonNegative(s.added) && Total(s.added, s.loads[k].name) < TWO63
    ensures var s := Run(Start(n), es); var d := s.loads[k];
            && d.since <= |s.added|
            && Total(s.added[..d.since], d.name) <= d.value <= Total(s.added, d.name)
  {
    StartGood(n);
    RunLoads(Start(n), es);
    var s := Run(Start(n), es);
    var d := s.loads[k];
    hide Run, Possible, Total;
    TotalGrows(s.added, d.at, d.name);
    assert s.added[..d.at][..d.since] == s.added[..d.since];
    TotalGrows(s.added[..d.at], d.since, d.name);
    Unwrapped(Total(s.added[..d.at], d.name));
  }

  lemma Unwrapped(x: int)
    requires 0 <= x < TWO63
    ensures Wrap64(x) == x
  {
  }

  // By the events.

  lemma {:induction false} RunLast(s: State, es: seq<Event>)
    requires Possible(s, es) && es != []
    ensures var front := es[..|es| - 1]; var e := es[|es| - 1];
            Possible(s, front) && Enabled(Run(s, front), e) && Run(s, es) == Next(Run(s, front), e)
    decreases |es|
  {
    hide Enabled, Next;
    if |es| == 1 {
      assert es[1..] == [] && es[..0] == [];
    } else {
      RunLast(Next(s, es[0]), es[1..]);
      assert es[1..][..|es| - 2] == es[..|es| - 1][1..];
    }
  }

  /** The label of a thread's latest call of With. */
  function Asked(es: seq<Event>, t: nat): Option<string> {
    if es == [] then None else
      var e := es[|es| - 1];
      if e.Call? && e.t == t then Some(e.name) else Asked(es[..|es| - 1], t)
  }

  predicate InCall(pc: Pc) {
    !pc.Outside? && !pc.Scraping?
  }

  function LabelOf(pc: Pc): string
    requires InCall(pc)
  {
    pc.name
  }

  lemma {:induction false} LabelAsked(n: nat, es: seq<Event>, t: nat)
    requires Possible(Start(n), es)
    ensures var s := Run(Start(n), es);
            t < |s.threads| && InCall(s.threads[t]) ==> Asked(es, t) == Some(LabelOf(s.threads[t]))
    decreases |es|
  {
    hide Possible, Run, Wrap64, Find;
    if es == [] {
      RunNothing(Start(n), es);
    } else {
      RunLast(Start(n), es);
      LabelAsked(n, es[..|es| - 1], t);
    }
  }

  lemma RunNothing(s: State, es: seq<Event>)
    requires es == []
    ensures Possible(s, es) && Run(s, es) == s
  {
  }

  /** A cell is returned for the label that the thread's call of With asked for, and only at the end of such a call. */
  lemma ReturnsAsked(n: nat, es: seq<Event>, e: Event)
    requires Possible(Start(n), es) && Enabled(Run(Start(n), es), e)
    ensures var got := Run(Start(n), es).got; var more := Next(Run(Start(n), es), e).got;
            && (more == got || (|more| == |got| + 1 && more[..|got|] == got && (e.RUnlock? || e.Unlock?)
                                && Asked(es, e.t) == Some(more[|got|].0)))
            && (e.Unlock? ==> |more| == |got| + 1)
  {
    hide Possible, Run, Wrap64, Find, Asked;
    LabelAsked(n, es, e.t);
  }

  /** The sum of the additions that the events make through cells returned for the label. */
  function SumOf(es: seq<Event>, got: seq<(string, nat)>, name: string): int {
    if es == [] then 0 else
      var e := es[|es| - 1];
      SumOf(es[..|es| - 1], got, name) + if e.Add? && e.k < |got| && got[e.k].0 == name then e.n else 0
  }

  lemma {:induction false} TotalByEvents(n: nat, es: seq<Event>, got: seq<(string, nat)>, name: string)
    requires Possible(Start(n), es) && Run(Start(n), es).got <= got
    ensures Total(Run(Start(n), es).added, name) == SumOf(es, got, name)
    decreases |es|
  {
    hide Possible, Run, Wrap64, Find, Total;
    if es == [] {
      RunNothing(Start(n), es);
      assert Total([], name) == 0 by { NothingAdded(name); }
    } else {
      var front := es[..|es| - 1];
      var e := es[|es| - 1];
      RunLast(Start(n), es);
      var s := Run(Start(n), front);
      TotalByEvents(n, front, got, name);
      if e.Add? {
        TotalMore(s.added, s.got[e.k].0, e.n, name);
      }
    }
  }

  lemma NothingAdded(name: string)
    ensures Total([], name) == 0
  {
  }

  /** No addition is lost, by the events alone: a label's cell holds the sum of everything that was added through the cells
      that With returned for the label. */
  lemma CellsByEvents(n: nat, es: seq<Event>, name: string)
    requires Possible(Start(n), es)
    ensures var s := Run(Start(n), es); var sum := SumOf(es, s.got, name);
            && (name in s.series ==> s.series[name] < |s.cells| && s.cells[s.series[name]] == Wrap64(sum))
            && (name !in s.series ==> sum == 0)
  {
    hide Possible, Run, Wrap64, SumOf, Total;
    NothingLost(n, es, name);
    TotalByEvents(n, es, Run(Start(n), es).got, name);
  }

  /** Where a thread's latest scrape began: how many events had happened. */
  function ScrapeStart(es: seq<Event>, t: nat): (i: nat)
    ensures i <= |es|
  {
    if es == [] then 0 else
      var e := es[|es| - 1];
      if e.Scrape? && e.t == t then |es| - 1 else ScrapeStart(es[..|es| - 1], t)
  }

  lemma {:induction false} ScrapesSince(n: nat, es: seq<Event>, t: nat)
    requires Possible(Start(n), es)
    ensures var s := Run(Start(n), es); var i := ScrapeStart(es, t);
            t < |s.threads| && s.threads[t].Scraping? ==>
              Possible(Start(n), es[..i]) && s.threads[t].since == |Run(Start(n), es[..i]).added|
    decreases |es|
  {
    hide Possible, Run, Wrap64, Find;
    if es == [] {
      RunNothing(Start(n), es);
    } else {
      var front := es[..|es| - 1];
      RunLast(Start(n), es);
      ScrapesSince(n, front, t);
      assert es[..ScrapeStart(front, t)] == front[..ScrapeStart(front, t)];
    }
  }

  lemma {:induction false} AddedGrows(n: nat, es: seq<Event>, i: nat)
    requires Possible(Start(n), es) && i <= |es| && Possible(Start(n), es[..i])
    ensures Run(Start(n), es[..i]).added <= Run(Start(n), es).added
    decreases |es|
  {
    hide Possible, Run, Wrap64, Find;
    if i == |es| {
      assert es[..i] == es;
    } else {
      var front := es[..|es| - 1];
      RunLast(Start(n), es);
      assert front[..i] == es[..i];
      AddedGrows(n, front, i);
    }
  }

  /** What a scrape reads of a label lies between the sum of the additions at the moment the scrape began and the sum now. */
  lemma ReadBetween(n: nat, es: seq<Event>, t: nat, name: string)
    requires Possible(Start(n), es) && Enabled(Run(Start(n), es), Read(t, name))
    requires var s := Run(Start(n), es); NonNegative(s.added) && Total(s.added, name) < TWO63
    ensures var s := Run(Start(n), es); var u := Next(s, Read(t, name)); var i := ScrapeStart(es, t);
            && Possible(Start(n), es[..i])
            && |u.loads| == |s.loads| + 1 && u.loads[..|s.loads|] == s.loads && u.loads[|s.loads|].name == name
            && Total(Run(Start(n), es[..i]).added, name) <= u.loads[|s.loads|].value <= Total(s.added, name)
  {
    var s := Run(Start(n), es);
    ScrapesSince(n, es, t);
    var i := ScrapeStart(es, t);
    AddedGrows(n, es, i);
    NothingLost(n, es, name);
    hide Possible, Run, Total, Wrap64;
    var since := |Run(Start(n), es[..i]).added|;
    TotalGrows(s.added, since, name);
    TotalGrows(s.added, 0, name);
    Unwrapped(Total(s.added, name));
    assert s.added[..since] == Run(Start(n), es[..i]).added;
  }
}
