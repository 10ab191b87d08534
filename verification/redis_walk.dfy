/** Cursor walks on the Redis store (internal/store/redis.go, Append and Range): calls take their numbers before their
    commands reach the server, so whether a walk is stable depends on how many calls can overtake each other. */
module RedisWalks {
  import opened Bytes
  import opened Strconv
  import opened Points
  import opened Codec
  import opened SortedMembers
  import opened Paging
  import opened Walks
  import opened SortedSets
  import opened TrimSchedule
  import CursorDrift
  import MemStores
  import TrimRuns
  import MemEvictions
  import Cursors

  // Runs and what the pages of a walk see of them.

  /** How many points the calls of a run send. */
  function PointsSent(es: seq<Event>): nat {
    if es == [] then 0 else PointsSent(es[1..]) + if es[0].Start? then |es[0].members| else 0
  }

  /** The commands that some run of that traffic has brought to the server; no counter has come near its end. */
  ghost predicate Served(k: nat, tr: Traffic, log: seq<Cmd>) {
    exists es :: Possible(Boot(k), es) && LawfulRun(Boot(k), es, tr) && PointsSent(es) < TWO63
                 && TrimSchedule.Run(Boot(k), es).log == log
  }

  /** The device when `cut` commands have run. */
  function Seen(cap: nat, log: seq<Cmd>, id: string, cut: nat): seq<bytes>
    requires cut <= |log|
  {
    Get(Exec(cap, log[..cut]), id)
  }

  function Snaps(cap: nat, log: seq<Cmd>, id: string, cuts: seq<nat>): seq<seq<bytes>>
    requires MemStores.Cuts(cuts, |log|)
  {
    seq(|cuts|, k requires 0 <= k < |cuts| => Seen(cap, log, id, cuts[k]))
  }

  /** No trim of the device lands while the pages are read. */
  ghost predicate Untrimmed(log: seq<Cmd>, id: string, cuts: seq<nat>)
    requires MemStores.Cuts(cuts, |log|)
  {
    forall n | cuts[0] <= n < cuts[|cuts| - 1] :: log[n].id == id ==> log[n].Add?
  }

  // A log whose members are numbered in the order they arrive.

  ghost predicate FromCount(ms: seq<bytes>, m: nat) {
    m + |ms| < TWO63 && Numbered(ms, m)
  }

  ghost predicate InOrder(log: seq<Cmd>, n: nat) {
    log == [] ||
    var c := log[|log| - 1];
    var front := log[..|log| - 1];
    if c.Trim? then InOrder(front, n)
    else exists m: nat :: m + |c.members| <= n && FromCount(c.members, m) && InOrder(front, m)
  }

  lemma {:induction false} InOrderUpTo(log: seq<Cmd>, n: nat, n': nat)
    requires InOrder(log, n) && n <= n'
    ensures InOrder(log, n')
    decreases |log|
  {
    if log != [] && log[|log| - 1].Trim? {
      InOrderUpTo(log[..|log| - 1], n, n');
    }
  }

  lemma InOrderAdd(log: seq<Cmd>, c: Cmd, m: nat)
    requires InOrder(log, m) && c.Add? && FromCount(c.members, m)
    ensures InOrder(log + [c], m + |c.members|)
  {
    assert (log + [c])[..|log + [c]| - 1] == log;
  }

  lemma InOrderTrim(log: seq<Cmd>, c: Cmd, m: nat)
    requires InOrder(log, m) && c.Trim?
    ensures InOrder(log + [c], m)
  {
    assert (log + [c])[..|log + [c]| - 1] == log;
  }

  /** Adding the next numbers to a device that has lower ones. */
  lemma AddNumbered(z: seq<bytes>, ms: seq<bytes>, m: nat)
    requires MemStores.GoodDevice(z, m) && FromCount(ms, m)
    ensures var r := ZAddAll(z, ms); MemStores.GoodDevice(r, m + |ms|) && MemEvictions.Newer(z, r, m)
  {
    hide MemSeq, MemTS, Less, StrictlySorted, InsertAll, ZAddAll, MemStores.EncodeBatch, MemStores.GoodDevice;
    var pts :| MemStores.ValidTimes(pts) && ms == MemStores.EncodeBatch(pts, m);
    MemEvictions.AddedNewer(z, pts, m);
    BatchIsNew(z, pts, m);
    ZAddAllDistinct(z, ms);
  }

  lemma BatchIsNew(z: seq<bytes>, pts: seq<StoredPoint>, m: uint64)
    requires MemStores.GoodDevice(z, m) && m + |pts| < TWO64
    ensures var ms := MemStores.EncodeBatch(pts, m); Distinct(ms) && forall x | x in ms :: x !in z
  {
    hide MemSeq, MemTS, Less, StrictlySorted, Codec.Encode;
    var ms := MemStores.EncodeBatch(pts, m);
    forall i, j | 0 <= i < j < |ms| ensures ms[i] != ms[j] {
      DecodeEncode(pts[i], NextSeq(m, i + 1));
      DecodeEncode(pts[j], NextSeq(m, j + 1));
    }
    forall x | x in ms ensures x !in z {
      MemEvictions.InBatch(pts, m, x);
    }
  }

  lemma GoodUpTo(z: seq<bytes>, m: nat, n: nat)
    requires MemStores.GoodDevice(z, m) && m <= n
    ensures MemStores.GoodDevice(z, n)
  {
    hide MemSeq, MemTS, Less;
  }

  /** One more command on a device. */
  lemma CommandNumbered(cap: nat, db: map<string, seq<bytes>>, log: seq<Cmd>, id: string, m: nat, n: nat)
    requires log != [] && db == Exec(cap, log[..|log| - 1]) && MemStores.GoodDevice(Get(db, id), m)
    requires var c := log[|log| - 1]; if c.Trim? then m == n else FromCount(c.members, m) && m + |c.members| <= n
    ensures var z := Get(Exec(cap, log), id); MemStores.GoodDevice(z, n) && MemEvictions.Newer(Get(db, id), z, m)
  {
    hide MemSeq, MemTS, Less, StrictlySorted, ZAddAll, RemRangeByRank, FromCount;
    var c := log[|log| - 1];
    var z := Get(db, id);
    MemEvictions.NewerItself(z, m);
    GoodUpTo(z, m, n);
    if c.id == id {
      if c.Add? {
        AddNumbered(z, c.members, m);
        GoodUpTo(ZAddAll(z, c.members), m + |c.members|, n);
      } else {
        TrimKeepsNewest(cap, z);
        MemStores.LastGood(cap, z, m);
        LastIn(cap, z);
      }
    }
  }

  lemma {:induction false} NumberedGood(cap: nat, log: seq<Cmd>, id: string, n: nat)
    requires InOrder(log, n)
    ensures MemStores.GoodDevice(Get(Exec(cap, log), id), n)
    decreases |log|
  {
    hide MemSeq, MemTS, Less, StrictlySorted, FromCount, MemStores.GoodDevice, Exec;
    if log == [] {
      NothingGood(cap, id, n);
    } else {
      var c := log[|log| - 1];
      var front := log[..|log| - 1];
      if c.Trim? {
        NumberedGood(cap, front, id, n);
        CommandNumbered(cap, Exec(cap, front), log, id, n, n);
      } else {
        var m: nat :| m + |c.members| <= n && FromCount(c.members, m) && InOrder(front, m);
        NumberedGood(cap, front, id, m);
        CommandNumbered(cap, Exec(cap, front), log, id, m, n);
      }
    }
  }

  lemma NothingGood(cap: nat, id: string, n: nat)
    ensures MemStores.GoodDevice(Get(Exec(cap, []), id), n)
  {
  }

  /** Between two moments only members come in that are numbered above everything there was. */
  lemma {:induction false} NumberedNewer(cap: nat, log: seq<Cmd>, i: nat, id: string, n: nat) returns (p: nat)
    requires InOrder(log, n) && i <= |log|
    ensures p <= n && MemStores.GoodDevice(Seen(cap, log, id, i), p) && AllStored(Get(Exec(cap, log), id))
    ensures MemEvictions.Newer(Seen(cap, log, id, i), Get(Exec(cap, log), id), p)
    decreases |log|
  {
    hide MemSeq, MemTS, Less, StrictlySorted, FromCount, MemStores.GoodDevice, Exec, MemEvictions.Newer, Stored;
    NumberedGood(cap, log, id, n);
    MemStores.GoodStored(Get(Exec(cap, log), id), n);
    if i == |log| {
      p := n;
      assert log[..i] == log;
      MemEvictions.NewerItself(Get(Exec(cap, log), id), n);
    } else {
      var c := log[|log| - 1];
      var front := log[..|log| - 1];
      assert front[..i] == log[..i];
      var m: nat := n;
      if c.Add? {
        m :| m + |c.members| <= n && FromCount(c.members, m) && InOrder(front, m);
      }
      p := NumberedNewer(cap, front, i, id, m);
      NumberedGood(cap, front, id, m);
      CommandNumbered(cap, Exec(cap, front), log, id, m, n);
      MemEvictions.NewerTransitive(Seen(cap, log, id, i), Get(Exec(cap, front), id), Get(Exec(cap, log), id), p, m);
    }
  }

  lemma {:induction false} PrefixInOrder(log: seq<Cmd>, n: nat, cut: nat)
    requires InOrder(log, n) && cut <= |log|
    ensures InOrder(log[..cut], n)
    decreases |log|
  {
    if cut == |log| {
      assert log[..cut] == log;
    } else {
      var c := log[|log| - 1];
      var front := log[..|log| - 1];
      assert front[..cut] == log[..cut];
      if c.Trim? {
        PrefixInOrder(front, n, cut);
      } else {
        var m: nat :| m + |c.members| <= n && FromCount(c.members, m) && InOrder(front, m);
        PrefixInOrder(front, m, cut);
        InOrderUpTo(log[..cut], m, n);
      }
    }
  }

  /** A device never holds more members than were numbered. */
  lemma {:induction false} NumberedSize(cap: nat, log: seq<Cmd>, id: string, n: nat)
    requires InOrder(log, n)
    ensures |Get(Exec(cap, log), id)| <= n
    decreases |log|
  {
    hide ZAddAll, RemRangeByRank, FromCount;
    if log != [] {
      var c := log[|log| - 1];
      var front := log[..|log| - 1];
      var z := Get(Exec(cap, front), id);
      ExecStrict(cap, front, id);
      if c.Trim? {
        NumberedSize(cap, front, id, n);
        TrimKeepsNewest(cap, z);
      } else {
        var m: nat :| m + |c.members| <= n && FromCount(c.members, m) && InOrder(front, m);
        NumberedSize(cap, front, id, m);
        ZAddAllStrict(z, c.members);
      }
    }
  }

  // One instance, one call at a time.

  /** The members on their way carry the next numbers, and everything at the server carries lower ones in order. */
  ghost predicate OneWriter(s: Sys, n: nat) {
    if |s.insts| == 0 then s.log == [] else
      && |s.insts| == 1 && s.insts[0].count == n && |s.insts[0].queue| <= 1
      && exists m: nat :: Pending(s, m, n)
  }

  ghost predicate Pending(s: Sys, m: nat, n: nat)
    requires |s.insts| == 1
  {
    && m <= n && InOrder(s.log, m)
    && (s.insts[0].queue != [] && !s.insts[0].queue[0].added ==>
          FromCount(s.insts[0].queue[0].members, m) && m + |s.insts[0].queue[0].members| <= n)
  }

  /** The traffic of the theorems: any devices, failures or none, but encoded points; a single instance sends one call at a
      time. */
  predicate Serial(k: nat, tr: Traffic) {
    tr.encoded && (k == 0 || (k == 1 && tr.calls == 1))
  }

  lemma BootOneWriter(k: nat)
    requires k <= 1
    ensures OneWriter(Boot(k), 0)
  {
    if k == 1 {
      assert Pending(Boot(k), 0, 0);
    }
  }

  lemma StartOneWriter(s: Sys, e: Event, tr: Traffic, n: nat)
    requires OneWriter(s, n) && Enabled(s, e) && Lawful(s, e, tr) && e.Start?
    requires tr.encoded && tr.calls == 1 && n + |e.members| < TWO63
    ensures OneWriter(Next(s, e), n + |e.members|)
  {
    hide InOrder, Numbered;
    var m: nat :| Pending(s, m, n);
    InOrderUpTo(s.log, m, n);
    var t := Next(s, e);
    assert t.insts[0].queue == [t.insts[0].queue[0]];
    assert Pending(t, n, n + |e.members|);
  }

  lemma StepOneWriter(s: Sys, e: Event, tr: Traffic, n: nat)
    requires OneWriter(s, n) && Enabled(s, e) && !e.Start?
    ensures OneWriter(Next(s, e), n)
  {
    hide InOrder, FromCount;
    var m: nat :| Pending(s, m, n);
    var t := Next(s, e);
    var p := s.insts[0].queue[0];
    if e.Fail? {
      assert Pending(t, m, n);
    } else if p.added {
      InOrderTrim(s.log, Trim(0, p.id), m);
      assert Pending(t, m, n);
    } else {
      InOrderAdd(s.log, Add(0, p.id, p.members), m);
      assert Pending(t, m + |p.members|, n);
    }
  }

  lemma {:induction false} RunOneWriter(s: Sys, es: seq<Event>, tr: Traffic, n: nat) returns (n': nat)
    requires OneWriter(s, n) && Possible(s, es) && LawfulRun(s, es, tr) && tr.encoded && tr.calls == 1
    requires n + PointsSent(es) < TWO63
    ensures OneWriter(TrimSchedule.Run(s, es), n') && n' < TWO63
    decreases |es|
  {
    hide OneWriter, Lawful, Enabled, Next;
    if es == [] {
      n' := n;
    } else {
      var e := es[0];
      if e.Start? {
        StartOneWriter(s, e, tr, n);
        n' := RunOneWriter(Next(s, e), es[1..], tr, n + |e.members|);
      } else {
        StepOneWriter(s, e, tr, n);
        n' := RunOneWriter(Next(s, e), es[1..], tr, n);
      }
    }
  }

  lemma ServedInOrder(k: nat, tr: Traffic, log: seq<Cmd>) returns (n: nat)
    requires Serial(k, tr) && Served(k, tr, log)
    ensures InOrder(log, n) && n < TWO63
  {
    hide Possible, LawfulRun, TrimSchedule.Run, PointsSent, InOrder;
    var es :| Possible(Boot(k), es) && LawfulRun(Boot(k), es, tr) && PointsSent(es) < TWO63
              && TrimSchedule.Run(Boot(k), es).log == log;
    if k == 0 {
      NoInstances(es);
      n := 0;
      assert InOrder([], 0) by { EmptyInOrder(); }
    } else {
      BootOneWriter(k);
      var top := RunOneWriter(Boot(k), es, tr, 0);
      var s := TrimSchedule.Run(Boot(k), es);
      if |s.insts| == 0 {
        n := 0;
        EmptyInOrder();
      } else {
        var m: nat :| Pending(s, m, top);
        n := m;
      }
    }
  }

  lemma EmptyInOrder()
    ensures InOrder([], 0)
  {
  }

  lemma NoInstances(es: seq<Event>)
    requires Possible(Boot(0), es)
    ensures TrimSchedule.Run(Boot(0), es).log == []
  {
  }

  // Stable walks.

  lemma SnapsGood(cap: nat, log: seq<Cmd>, id: string, cuts: seq<nat>, n: nat)
    requires InOrder(log, n) && n < TWO63 && MemStores.Cuts(cuts, |log|)
    ensures FollowingRun(Snaps(cap, log, id, cuts))
  {
    hide MemSeq, MemTS, Less, InOrder, Exec, MemEvictions.Newer, Follows, StrictlySorted, Stored;
    var snaps := Snaps(cap, log, id, cuts);
    forall k | 0 <= k < |snaps| ensures AllStored(snaps[k]) && StrictlySorted(snaps[k]) && |snaps[k]| < TWO63 {
      PrefixInOrder(log, n, cuts[k]);
      NumberedGood(cap, log[..cuts[k]], id, n);
      NumberedSize(cap, log[..cuts[k]], id, n);
    }
    forall k | 0 <= k < |snaps| - 1 ensures Follows(snaps[k], snaps[k + 1]) {
      SeenFollows(cap, log, id, cuts[k], cuts[k + 1], n);
    }
  }

  lemma SeenFollows(cap: nat, log: seq<Cmd>, id: string, i: nat, j: nat, n: nat)
    requires InOrder(log, n) && i <= j <= |log|
    ensures AllStored(Seen(cap, log, id, i)) && AllStored(Seen(cap, log, id, j))
    ensures Follows(Seen(cap, log, id, i), Seen(cap, log, id, j))
  {
    hide MemSeq, MemTS, Less, InOrder, Exec, MemEvictions.Newer, Follows, StrictlySorted, Stored, MemStores.GoodDevice;
    PrefixInOrder(log, n, j);
    assert log[..j][..i] == log[..i];
    var p := NumberedNewer(cap, log[..j], i, id, n);
    MemStores.GoodStored(Seen(cap, log, id, i), p);
    MemEvictions.NewerFollows(Seen(cap, log, id, i), Seen(cap, log, id, j), p);
  }

  /** What no trim takes away stays. */
  lemma {:induction false} Accumulates(cap: nat, log: seq<Cmd>, id: string, i: nat, j: nat)
    requires i <= j <= |log| && forall n | i <= n < j :: log[n].id == id ==> log[n].Add?
    ensures forall x | x in Seen(cap, log, id, i) :: x in Seen(cap, log, id, j)
    decreases j
  {
    hide ZAddAll, RemRangeByRank;
    if i < j {
      Accumulates(cap, log, id, i, j - 1);
      var c := log[j - 1];
      assert log[..j][..j - 1] == log[..j - 1];
      if c.id == id {
        ExecStrict(cap, log[..j - 1], id);
        ZAddAllStrict(Get(Exec(cap, log[..j - 1]), id), c.members);
      }
    }
  }

  lemma SnapsGrow(cap: nat, log: seq<Cmd>, id: string, cuts: seq<nat>, n: nat)
    requires InOrder(log, n) && n < TWO63 && MemStores.Cuts(cuts, |log|) && Untrimmed(log, id, cuts)
    ensures GrowingRun(Snaps(cap, log, id, cuts))
  {
    hide InOrder, Exec, Follows, StrictlySorted, Stored;
    SnapsGood(cap, log, id, cuts, n);
    var snaps := Snaps(cap, log, id, cuts);
    forall k | 0 <= k < |snaps| - 1 ensures Grows(snaps[k], snaps[k + 1]) {
      assert Follows(snaps[k], snaps[k + 1]);
      CutsBetween(cuts, |log|, k);
      Accumulates(cap, log, id, cuts[k], cuts[k + 1]);
    }
  }

  lemma {:induction false} CutsOrdered(cuts: seq<nat>, top: nat, i: nat, j: nat)
    requires MemStores.Cuts(cuts, top) && i <= j < |cuts|
    ensures cuts[i] <= cuts[j]
    decreases j
  {
    if i < j {
      CutsOrdered(cuts, top, i, j - 1);
      assert cuts[j - 1] <= cuts[j - 1 + 1];
    }
  }

  lemma CutsBetween(cuts: seq<nat>, top: nat, k: nat)
    requires MemStores.Cuts(cuts, top) && k + 1 < |cuts|
    ensures cuts[0] <= cuts[k] <= cuts[k + 1] <= cuts[|cuts| - 1]
  {
    CutsOrdered(cuts, top, 0, k);
    CutsOrdered(cuts, top, k, k + 1);
    CutsOrdered(cuts, top, k + 1, |cuts| - 1);
  }

  /** Range of the Redis store, page by page, each page read from a later state. */
  function WalkRedis(snaps: seq<seq<bytes>>, from: int64, to: int64, limit: nat, cur: bytes): Visit
    requires limit >= 1 && forall k | 0 <= k < |snaps| :: AllStored(snaps[k])
    decreases |snaps|
  {
    if snaps == [] then Visit([], false) else
      var p := SortedSets.Range(snaps[0], from, to, limit, cur);
      if p.None? then Visit([], false)
      else if p.value.next.None? then Visit(p.value.members, true)
      else
        var rest := WalkRedis(snaps[1..], from, to, limit, NextCursor(p.value));
        Visit(p.value.members + rest.emitted, rest.done)
  }

  /** Only timestamps that score windows find exactly. */
  ghost predicate ExactSnaps(snaps: seq<seq<bytes>>) {
    forall k | 0 <= k < |snaps| :: AllStored(snaps[k]) && AllExact(snaps[k])
  }

  lemma {:induction false} WalksAgree(snaps: seq<seq<bytes>>, from: int64, to: int64, limit: nat, cur: bytes)
    requires limit >= 1 && ExactSnaps(snaps)
    ensures WalkRedis(snaps, from, to, limit, cur) == WalkOver(snaps, from, to, limit, cur)
    decreases |snaps|
  {
    hide SortedSets.Range, Walks.Range, NextCursor, AllExact, AllStored;
    if snaps != [] {
      StoresAgree(snaps[0], from, to, limit, cur);
      var p := Walks.Range(snaps[0], from, to, limit, cur);
      if p.Some? {
        WalksAgree(snaps[1..], from, to, limit, NextCursor(p.value));
      }
    }
  }

  /** In order, none twice, all in the time window, and at its end nothing missed that was there when it began. */
  ghost predicate Stable(v: Visit, first: seq<bytes>, from: int64, to: int64)
    requires AllStored(first)
  {
    && StrictlySorted(v.emitted) && InBounds(v.emitted, from, to)
    && (v.done ==> forall x | x in first && from <= MemTS(x) <= to :: x in v.emitted)
  }

  /** Walks read while trims land are safe as well, as long as none takes a member that the cursor of the moment skips. */
  lemma WalkDuringTrims(cap: nat, k: nat, id: string, tr: Traffic, log: seq<Cmd>, cuts: seq<nat>,
                        from: int64, to: int64, limit: nat)
    requires Serial(k, tr) && Served(k, tr, log) && MemStores.Cuts(cuts, |log|) && limit >= 1
    ensures var snaps := Snaps(cap, log, id, cuts);
            && FollowingRun(snaps)
            && (ExactSnaps(snaps) && Spares(snaps, from, to, limit, []) ==>
                  Safe(WalkRedis(snaps, from, to, limit, []), snaps, from, to))
  {
    hide WalkRedis, WalkOver, Spares, Safe, Served, InOrder, ExactSnaps, Seen;
    var n := ServedInOrder(k, tr, log);
    SnapsGood(cap, log, id, cuts, n);
    var snaps := Snaps(cap, log, id, cuts);
    if ExactSnaps(snaps) && Spares(snaps, from, to, limit, []) {
      WalkIsSafe(snaps, from, to, limit);
      WalksAgree(snaps, from, to, limit, []);
    }
  }

  /** In every run, whatever the moments at which the pages are read: the device has only grown in the way a cursor can
      follow, as long as no trim of it lands in between. */
  ghost predicate AlwaysGrowing(cap: nat, k: nat, id: string, tr: Traffic) {
    forall log, cuts | Served(k, tr, log) && MemStores.Cuts(cuts, |log|) && Untrimmed(log, id, cuts) ::
      GrowingRun(Snaps(cap, log, id, cuts))
  }

  ghost predicate StableIn(cap: nat, id: string, log: seq<Cmd>, cuts: seq<nat>)
    requires MemStores.Cuts(cuts, |log|)
  {
    var snaps := Snaps(cap, log, id, cuts);
    forall from: int64, to: int64, limit: nat | limit >= 1 && ExactSnaps(snaps) ::
      Stable(WalkRedis(snaps, from, to, limit, []), snaps[0], from, to)
  }

  ghost predicate AlwaysStable(cap: nat, k: nat, id: string, tr: Traffic) {
    forall log, cuts | Served(k, tr, log) && MemStores.Cuts(cuts, |log|) && Untrimmed(log, id, cuts) ::
      StableIn(cap, id, log, cuts)
  }

  lemma GrowingIsStable(cap: nat, id: string, log: seq<Cmd>, cuts: seq<nat>)
    requires MemStores.Cuts(cuts, |log|) && GrowingRun(Snaps(cap, log, id, cuts))
    ensures StableIn(cap, id, log, cuts)
  {
    hide WalkRedis, WalkOver, Stable, Seen, StrictlySorted, InBounds, MemTS;
    var snaps := Snaps(cap, log, id, cuts);
    forall from: int64, to: int64, limit: nat | limit >= 1 && ExactSnaps(snaps)
      ensures Stable(WalkRedis(snaps, from, to, limit, []), snaps[0], from, to)
    {
      WalkIsStable(snaps, from, to, limit);
      WalksAgree(snaps, from, to, limit, []);
      StableFrom(WalkRedis(snaps, from, to, limit, []), snaps[0], from, to);
    }
  }

  lemma StableFrom(v: Visit, first: seq<bytes>, from: int64, to: int64)
    requires AllStored(first) && StrictlySorted(v.emitted) && InBounds(v.emitted, from, to)
    requires v.done ==> forall x | x in first && from <= MemTS(x) <= to :: x in v.emitted
    ensures Stable(v, first, from, to)
  {
  }

  lemma SerialGrows(cap: nat, k: nat, id: string, tr: Traffic)
    requires Serial(k, tr)
    ensures AlwaysGrowing(cap, k, id, tr) && AlwaysStable(cap, k, id, tr)
  {
    hide Served, Serial, StableIn, GrowingRun, Snaps, Untrimmed, InOrder;
    forall log, cuts | Served(k, tr, log) && MemStores.Cuts(cuts, |log|) && Untrimmed(log, id, cuts)
      ensures GrowingRun(Snaps(cap, log, id, cuts)) && StableIn(cap, id, log, cuts)
    {
      var n := ServedInOrder(k, tr, log);
      SnapsGrow(cap, log, id, cuts, n);
      GrowingIsStable(cap, id, log, cuts);
    }
  }

  // Calls that are overtaken.

  /** A member of timestamp `t` and number `n`. */
  function Mark(t: int64, n: uint64): bytes {
    Codec.Encode(MemEvictions.Stamp(t), n)
  }

  lemma MarkNumbered(t: int64, n: uint64)
    requires t >= 0
    ensures NextSeq(n, 1) == n + 1 || n == TWO64 - 1
    ensures Numbered([Mark(t, NextSeq(n, 1))], n)
  {
    hide Codec.Encode;
    var pts := [MemEvictions.Stamp(t)];
    assert MemStores.ValidTimes(pts);
    assert MemStores.EncodeBatch(pts, n) == [Mark(t, NextSeq(n, 1))];
  }

  /** A run of the traffic that has sent at most `n` points leads to `s`. */
  ghost predicate Arrives(k: nat, tr: Traffic, s: Sys, n: nat) {
    exists es :: Possible(Boot(k), es) && LawfulRun(Boot(k), es, tr) && PointsSent(es) <= n && TrimSchedule.Run(Boot(k), es) == s
  }

  lemma {:induction false} PointsAppend(a: seq<Event>, b: seq<Event>)
    ensures PointsSent(a + b) == PointsSent(a) + PointsSent(b)
    decreases |a|
  {
    if a == [] {
      assert a + b == b;
    } else {
      assert (a + b)[1..] == a[1..] + b;
      PointsAppend(a[1..], b);
    }
  }

  lemma ArrivesNext(k: nat, tr: Traffic, s: Sys, n: nat, e: Event)
    requires Arrives(k, tr, s, n) && Enabled(s, e) && Lawful(s, e, tr)
    ensures Arrives(k, tr, Next(s, e), n + if e.Start? then |e.members| else 0)
  {
    hide Next, Enabled, Lawful, Boot;
    var es :| Possible(Boot(k), es) && LawfulRun(Boot(k), es, tr) && PointsSent(es) <= n && TrimSchedule.Run(Boot(k), es) == s;
    var one := [e];
    assert one[1..] == [];
    var u := Next(s, e);
    assert Possible(u, one[1..]) && LawfulRun(u, one[1..], tr) && TrimSchedule.Run(u, one[1..]) == u;
    assert Possible(s, one) && LawfulRun(s, one, tr) && TrimSchedule.Run(s, one) == u;
    TrimRuns.RunAppend(Boot(k), es, one);
    TrimRuns.LawfulAppend(Boot(k), es, one, tr);
    PointsAppend(es, one);
  }

  /** What the server gets: a later member, then `y`, then `x`, which was numbered before `y`. */
  function Overtaken(id: string, i: nat, n: uint64, n': uint64): seq<Cmd> {
    [Add(0, id, [Mark(2, 1)]), Add(0, id, [Mark(1, n')]), Add(i, id, [Mark(1, n)])]
  }

  lemma MarksInOrder(n: uint64, n': uint64)
    requires n < n'
    ensures var a := [Mark(1, n'), Mark(2, 1)]; var b := [Mark(1, n), Mark(1, n'), Mark(2, 1)];
            && StrictlySorted(a) && StrictlySorted(b) && InBounds(a, 1, 2) && InBounds(b, 1, 2)
            && MemTS(a[0]) == 1 && MemTS(b[0]) == 1 && MemTS(b[1]) == 1
            && Insert([], a[1]) == [a[1]] && Insert([a[1]], a[0]) == a && Insert(a, b[0]) == b
            && a[0] != a[1] && b[0] !in a
  {
    hide Codec.Encode, Less, MemTS, Insert, Mark, StrictlySorted, InBounds;
    var x, y, z := Mark(1, n), Mark(1, n'), Mark(2, 1);
    MarksLess(n, n');
    ThreeInOrder(x, y, z);
    MarkBounds(1, n);
    MarkBounds(1, n');
    MarkBounds(2, 1);
    assert InBounds([y, z], 1, 2) && InBounds([x, y, z], 1, 2) by { TwoAndThree(x, y, z); }
  }

  lemma MarksLess(n: uint64, n': uint64)
    requires n < n'
    ensures Less(Mark(1, n), Mark(1, n')) && Less(Mark(1, n'), Mark(2, 1))
  {
    hide Codec.Encode, Less;
    MemberOrder(MemEvictions.Stamp(1), n, MemEvictions.Stamp(1), n');
    MemberOrder(MemEvictions.Stamp(1), n', MemEvictions.Stamp(2), 1);
  }

  lemma MarkBounds(t: int64, n: uint64)
    requires t >= 0
    ensures Stored(Mark(t, n)) && MemTS(Mark(t, n)) == t
  {
    hide Codec.Encode;
    MemEvictions.Stamped(t, n);
  }

  lemma TwoAndThree(x: bytes, y: bytes, z: bytes)
    requires Stored(x) && Stored(y) && Stored(z)
    requires 1 <= MemTS(x) <= 2 && 1 <= MemTS(y) <= 2 && 1 <= MemTS(z) <= 2
    ensures InBounds([y, z], 1, 2) && InBounds([x, y, z], 1, 2)
  {
    hide MemTS;
  }

  lemma ThreeInOrder(x: bytes, y: bytes, z: bytes)
    requires Less(x, y) && Less(y, z)
    ensures StrictlySorted([y, z]) && StrictlySorted([x, y, z]) && y != z && x !in [y, z]
    ensures Insert([], z) == [z] && Insert([z], y) == [y, z] && Insert([y, z], x) == [x, y, z]
  {
    LessTransitive(x, y, z);
    LessAsymmetric(x, y);
    LessAsymmetric(y, z);
    LessAsymmetric(x, z);
    hide Less;
  }

  /** What the pages see of it. */
  lemma OvertakenSeen(cap: nat, id: string, i: nat, n: uint64, n': uint64)
    requires n < n'
    ensures var log := Overtaken(id, i, n, n');
            && Seen(cap, log, id, 2) == [Mark(1, n'), Mark(2, 1)]
            && Seen(cap, log, id, 3) == [Mark(1, n), Mark(1, n'), Mark(2, 1)]
  {
    hide Mark, Insert, StrictlySorted, InBounds, MemTS;
    MarksInOrder(n, n');
    var log := Overtaken(id, i, n, n');
    var x, y, z := Mark(1, n), Mark(1, n'), Mark(2, 1);
    OneAdd(cap, log, id, 0, z);
    assert Seen(cap, log, id, 0) == [] by { assert log[..0] == []; }
    OneAdd(cap, log, id, 1, y);
    OneAdd(cap, log, id, 2, x);
  }

  lemma OneAdd(cap: nat, log: seq<Cmd>, id: string, k: nat, x: bytes)
    requires k < |log| && log[k].Add? && log[k].id == id && log[k].members == [x]
    ensures Seen(cap, log, id, k + 1) == ZAdd(Seen(cap, log, id, k), x)
  {
    hide ZAdd;
    assert log[..k + 1][..k] == log[..k];
    var z := Seen(cap, log, id, k);
    assert [x][1..] == [];
    assert ZAddAll(z, [x]) == ZAddAll(ZAdd(z, x), []);
  }

  /** A page of one before the overtaken call lands and one after it hold the same member. */
  lemma ServedTwice(n: uint64, n': uint64)
    requires n < n'
    ensures var a := [Mark(1, n'), Mark(2, 1)]; var b := [Mark(1, n), Mark(1, n'), Mark(2, 1)];
            && AllStored(a) && AllStored(b) && AllExact(a) && AllExact(b)
            && !StrictlySorted(WalkOver([a, b], 1, 2, 1, []).emitted)
  {
    hide Mark, Insert, Less, MemTS, PageAt, Window, NextCursor, Cursors.Decode, Cursors.Encode;
    var a, b := [Mark(1, n'), Mark(2, 1)], [Mark(1, n), Mark(1, n'), Mark(2, 1)];
    MarksInOrder(n, n');
    assert CursorDrift.Start(a, Cursors.Position(1, 0)) == 0 && CursorDrift.Start(b, Cursors.Position(1, 1)) == 1;
    MemEvictions.SinglePage(a, 1, 2, Cursors.Position(1, 0));
    MemEvictions.SinglePage(b, 1, 2, Cursors.Position(1, 1));
    var p := PageAt(a, 2, 1, Cursors.Position(1, 0));
    var q := PageAt(b, 2, 1, Cursors.Position(1, 1));
    NextDecodes(p, 1);
    var y := Mark(1, n');
    TwicePages(a, b, p, q);
    var v := WalkOver([a, b], 1, 2, 1, []).emitted;
    assert v == [y, y];
    LessIrreflexive(y);
    assert !Less(v[0], v[1]);
  }

  lemma TwicePages(a: seq<bytes>, b: seq<bytes>, p: Page, q: Page)
    requires AllStored(a) && AllStored(b)
    requires PageAt(a, 2, 1, Cursors.Position(1, 0)) == p && p.next.Some? && PositionOf(1, NextCursor(p)) == p.next
    requires PageAt(b, 2, 1, p.next.value) == q && q.next.Some?
    ensures WalkOver([a, b], 1, 2, 1, []).emitted == p.members + q.members
  {
    hide PageAt, AllStored, NextCursor, Cursors.Decode;
    var none: seq<seq<bytes>> := [];
    assert [a, b][1..] == [b] && [b][1..] == none;
    assert WalkOver(none, 1, 2, 1, NextCursor(q)) == Visit([], false);
    assert WalkOver([b], 1, 2, 1, NextCursor(p)) == Visit(q.members + [], false);
    assert q.members + [] == q.members;
  }

  /** No run in which that happens is stable. */
  lemma OvertakenUnstable(cap: nat, k: nat, id: string, tr: Traffic, i: nat, n: uint64, n': uint64)
    requires n < n' && Served(k, tr, Overtaken(id, i, n, n'))
    ensures !AlwaysGrowing(cap, k, id, tr) && !AlwaysStable(cap, k, id, tr)
  {
    hide Served, WalkOver, WalkRedis, Seen, Overtaken, StrictlySorted, InBounds, GrowingRun, Mark;
    var log := Overtaken(id, i, n, n');
    var cuts: seq<nat> := [2, 3];
    OvertakenAdds(id, i, n, n');
    assert MemStores.Cuts(cuts, |log|) && Untrimmed(log, id, cuts);
    OvertakenSeen(cap, id, i, n, n');
    ServedTwice(n, n');
    var a, b := [Mark(1, n'), Mark(2, 1)], [Mark(1, n), Mark(1, n'), Mark(2, 1)];
    assert Snaps(cap, log, id, cuts) == [a, b];
    TwoExact(a, b);
    WalksAgree([a, b], 1, 2, 1, []);
    assert !Stable(WalkRedis([a, b], 1, 2, 1, []), a, 1, 2);
    assert !StableIn(cap, id, log, cuts);
    if GrowingRun(Snaps(cap, log, id, cuts)) {
      GrowingIsStable(cap, id, log, cuts);
    }
  }

  lemma TwoExact(a: seq<bytes>, b: seq<bytes>)
    requires AllStored(a) && AllStored(b) && AllExact(a) && AllExact(b)
    ensures ExactSnaps([a, b])
  {
  }

  lemma OvertakenAdds(id: string, i: nat, n: uint64, n': uint64)
    ensures var log := Overtaken(id, i, n, n'); |log| == 3 && forall j | 0 <= j < 3 :: log[j].Add?
  {
  }

  /** A call under way with one member. */
  function One(id: string, m: bytes): Pipe {
    Pipe(id, [m], false, false)
  }

  /** The counters of an instance after `n` single writes, with these calls under way. */
  function After(n: nat, q: seq<Pipe>): Inst
    requires n < 16
  {
    Inst(n, n, q)
  }

  lemma FirstWrites(n: nat)
    requires n < 15
    ensures NextSeq(n, 1) == n + 1 && NextSeq(n, 1) % TRIM_EVERY != 0
  {
  }

  ghost predicate Only(s: Sys, t: Sys, i: nat, n: nat, q: seq<Pipe>)
    requires n < 16
  {
    i < |s.insts| && t.insts == s.insts[i := After(n, q)]
  }

  /** An instance sends one member with its next number. */
  lemma SendOne(k: nat, s: Sys, i: nat, n: nat, q: seq<Pipe>, id: string, t: int64, tr: Traffic, sent: nat) returns (u: Sys)
    requires Arrives(k, tr, s, sent) && i < |s.insts| && n < 15 && s.insts[i] == After(n, q) && |q| < tr.calls
    requires id in tr.ids && tr.batch >= 1 && t >= 0
    ensures Arrives(k, tr, u, sent + 1) && Only(s, u, i, n + 1, q + [One(id, Mark(t, n + 1))]) && u.log == s.log
  {
    hide Mark, NextSeq, Arrives, Numbered;
    FirstWrites(n);
    MarkNumbered(t, n);
    var e := Start(i, id, [Mark(t, n + 1)]);
    ArrivesNext(k, tr, s, sent, e);
    u := Next(s, e);
  }

  /** The ZADD of a call runs. */
  lemma LandOne(k: nat, s: Sys, i: nat, j: nat, n: nat, q: seq<Pipe>, id: string, m: bytes, tr: Traffic, sent: nat)
      returns (u: Sys)
    requires Arrives(k, tr, s, sent) && i < |s.insts| && n < 16 && s.insts[i] == After(n, q) && j < |q| && q[j] == One(id, m)
    ensures Arrives(k, tr, u, sent) && Only(s, u, i, n, Without(q, j)) && u.log == s.log + [Add(i, id, [m])]
  {
    hide Arrives, Without;
    ArrivesNext(k, tr, s, sent, Advance(i, j));
    u := Next(s, Advance(i, j));
  }

  lemma ArrivesAtBoot(k: nat, tr: Traffic)
    ensures Arrives(k, tr, Boot(k), 0)
    ensures forall i | 0 <= i < k :: Boot(k).insts[i] == After(0, [])
  {
    var es: seq<Event> := [];
    assert Possible(Boot(k), es) && LawfulRun(Boot(k), es, tr) && PointsSent(es) <= 0 && TrimSchedule.Run(Boot(k), es) == Boot(k);
  }

  lemma Taken(p: Pipe, q: Pipe)
    ensures [] + [p] == [p] && Without([p], 0) == [] && [p] + [q] == [p, q] && Without([p, q], 1) == [p]
  {
  }

  lemma ArrivedLog(k: nat, tr: Traffic, s: Sys, n: nat)
    requires Arrives(k, tr, s, n) && n < TWO63
    ensures Served(k, tr, s.log)
  {
  }

  /** Two calls of one instance at a time: the second overtakes the first. */
  lemma CallsOvertake(k: nat, id: string, tr: Traffic)
    requires k >= 1 && id in tr.ids && tr.batch >= 1 && tr.calls >= 2
    ensures Served(k, tr, Overtaken(id, 0, 2, 3))
  {
    hide Mark, Arrives, Without, Boot, Served;
    var z, x, y := One(id, Mark(2, 1)), One(id, Mark(1, 2)), One(id, Mark(1, 3));
    Taken(z, z);
    Taken(x, y);
    ArrivesAtBoot(k, tr);
    var s1 := SendOne(k, Boot(k), 0, 0, [], id, 2, tr, 0);
    var s2 := LandOne(k, s1, 0, 0, 1, [z], id, Mark(2, 1), tr, 1);
    var s3 := SendOne(k, s2, 0, 1, [], id, 1, tr, 1);
    var s4 := SendOne(k, s3, 0, 2, [x], id, 1, tr, 2);
    var s5 := LandOne(k, s4, 0, 1, 3, [x, y], id, Mark(1, 3), tr, 3);
    var s6 := LandOne(k, s5, 0, 0, 3, [x], id, Mark(1, 2), tr, 3);
    BootLog(k);
    assert s6.log == Overtaken(id, 0, 2, 3);
    ArrivedLog(k, tr, s6, 3);
  }

  lemma BootLog(k: nat)
    ensures Boot(k).log == []
  {
  }

  /** Two instances number on their own: the second is behind. */
  lemma InstancesOvertake(k: nat, id: string, tr: Traffic)
    requires k >= 2 && id in tr.ids && tr.batch >= 1 && tr.calls >= 1
    ensures Served(k, tr, Overtaken(id, 1, 1, 2))
  {
    hide Mark, Arrives, Without, Boot, Served;
    var z, x, y := One(id, Mark(2, 1)), One(id, Mark(1, 1)), One(id, Mark(1, 2));
    Taken(z, z);
    Taken(x, y);
    Taken(y, y);
    ArrivesAtBoot(k, tr);
    var s1 := SendOne(k, Boot(k), 0, 0, [], id, 2, tr, 0);
    var s2 := LandOne(k, s1, 0, 0, 1, [z], id, Mark(2, 1), tr, 1);
    var s3 := SendOne(k, s2, 0, 1, [], id, 1, tr, 1);
    var s4 := LandOne(k, s3, 0, 0, 2, [y], id, Mark(1, 2), tr, 2);
    var s5 := SendOne(k, s4, 1, 0, [], id, 1, tr, 2);
    var s6 := LandOne(k, s5, 1, 0, 1, [x], id, Mark(1, 1), tr, 3);
    BootLog(k);
    assert s6.log == Overtaken(id, 1, 1, 2);
    ArrivedLog(k, tr, s6, 3);
  }

  /** When cursor walks on the Redis store are stable: in every run of the traffic, whatever the moments at which the pages
      are read, the device has only grown in the way a cursor can follow, and the pages that Redis serves ascend and miss
      nothing, if and only if there is no instance, or a single one that has one call at a time. With two calls at a time,
      or two instances, a member numbered later can arrive first, and then it is served twice. */
  lemma WhenStable(cap: nat, k: nat, id: string, tr: Traffic)
    requires id in tr.ids && tr.batch >= 1 && tr.calls >= 1 && tr.encoded
    ensures AlwaysGrowing(cap, k, id, tr) <==> k == 0 || (k == 1 && tr.calls == 1)
    ensures AlwaysStable(cap, k, id, tr) <==> k == 0 || (k == 1 && tr.calls == 1)
  {
    hide AlwaysGrowing, AlwaysStable, Served, Overtaken;
    if Serial(k, tr) {
      SerialGrows(cap, k, id, tr);
    } else if tr.calls >= 2 {
      CallsOvertake(k, id, tr);
      OvertakenUnstable(cap, k, id, tr, 0, 2, 3);
    } else {
      InstancesOvertake(k, id, tr);
      OvertakenUnstable(cap, k, id, tr, 1, 1, 2);
    }
  }
}
