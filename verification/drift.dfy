/** What any change of a store does to a cursor (internal/store/mem.go, Range; internal/store/paginate.go): how far it is
    moved, which members the next page repeats or leaves out, and when a walk still ascends. */
module CursorDrift {
  import opened Bytes
  import opened Strconv
  import opened Codec
  import opened SortedMembers
  import opened Paging
  import opened Walks
  import Cursors

  // Any page from any cursor.

  /** The place of the window that a cursor's page starts from. */
  function Start(w: seq<bytes>, pos: Cursors.Position): nat
    requires AllStored(w)
  {
    Below(w, pos.ts) + pos.skip
  }

  function Slice(w: seq<bytes>, s: nat, limit: nat): seq<bytes> {
    if s >= |w| then [] else if s + limit >= |w| then w[s..] else w[s..s + limit]
  }

  /** A page is a slice of the window, wherever the cursor came from. */
  lemma PageFrom(ms: seq<bytes>, from: int64, to: int64, limit: nat, pos: Cursors.Position)
    requires AllStored(ms) && StrictlySorted(ms) && limit >= 1 && from <= pos.ts
    ensures var w := Window(ms, from, to); var s := Start(w, pos); var p := PageAt(ms, to, limit, pos);
            && p.members == Slice(w, s, limit)
            && (p.next.Some? <==> |w| > s + limit)
            && (p.next.Some? ==> p.next.value.ts == MemTS(w[s + limit - 1]))
  {
    hide Less, MemTS, Below, Window, Stored, StrictlySorted, Paging.Run;
    var w := Window(ms, from, to);
    var c := Below(w, pos.ts);
    WindowSuffix(ms, from, pos.ts, to);
    var v := w[c..];
    assert Window(ms, pos.ts, to) == v;
    if pos.skip < |v| {
      assert v[pos.skip..] == w[c + pos.skip..];
      if pos.skip + limit + 1 < |v| {
        assert v[pos.skip..pos.skip + limit + 1] == w[c + pos.skip..c + pos.skip + limit + 1];
      }
    }
  }

  // The members a cursor has passed and those it skips.

  /** How many members at the front are not above `last`. */
  function Passed(w: seq<bytes>, last: bytes): (n: nat)
    ensures n <= |w|
  {
    if w == [] || Less(last, w[0]) then 0 else 1 + Passed(w[1..], last)
  }

  lemma {:induction false} PassedAt(w: seq<bytes>, last: bytes, i: nat)
    requires i < |w|
    ensures i < Passed(w, last) ==> !Less(last, w[i])
    ensures i == Passed(w, last) ==> Less(last, w[i])
    decreases |w|
  {
    hide Less;
    if i > 0 && !Less(last, w[0]) {
      PassedAt(w[1..], last, i - 1);
    }
  }

  lemma PassedSplits(w: seq<bytes>, last: bytes, i: nat)
    requires StrictlySorted(w) && i < |w|
    ensures i < Passed(w, last) <==> !Less(last, w[i])
  {
    hide Less, Passed;
    var n := Passed(w, last);
    PassedAt(w, last, i);
    if i > n {
      PassedAt(w, last, n);
      LessTransitive(last, w[n], w[i]);
    }
  }

  lemma PassedIs(w: seq<bytes>, e: nat)
    requires StrictlySorted(w) && 0 < e <= |w|
    ensures Passed(w, w[e - 1]) == e
  {
    hide Less, Passed, StrictlySorted;
    var last := w[e - 1];
    LessIrreflexive(last);
    PassedSplits(w, last, e - 1);
    if e < |w| {
      StrictIndex(w, e, e - 1);
      PassedSplits(w, last, e);
    }
  }

  /** The members of timestamp `t` not above `last`: what a cursor behind `last` skips. */
  ghost function Skips(ms: seq<bytes>, t: int64, last: bytes): set<bytes>
    requires AllStored(ms)
  {
    set y | y in ms && MemTS(y) == t && !Less(last, y)
  }

  lemma NotAfter(x: bytes, last: bytes)
    requires Stored(x) && Stored(last) && !Less(last, x)
    ensures MemTS(x) <= MemTS(last)
  {
    hide Less, MemTS;
    LessTotal(x, last);
    if Less(x, last) {
      LessMeansNotLater(x, last);
    }
  }

  lemma BelowPassed(w: seq<bytes>, t: int64, last: bytes)
    requires AllStored(w) && StrictlySorted(w) && Stored(last) && MemTS(last) == t
    ensures Below(w, t) <= Passed(w, last)
  {
    hide Less, MemTS, Passed, Below, StrictlySorted;
    var n := Passed(w, last);
    if n < Below(w, t) {
      BelowSplits(w, t, n);
      PassedSplits(w, last, n);
      LessMeansNotLater(last, w[n]);
    }
  }

  lemma SkipsAt(w: seq<bytes>, t: int64, last: bytes, x: bytes)
    requires AllStored(w) && StrictlySorted(w) && Stored(last) && MemTS(last) == t && Below(w, t) <= Passed(w, last)
    ensures x in w[Below(w, t)..Passed(w, last)] <==> x in w && MemTS(x) == t && !Less(last, x)
  {
    hide Less, MemTS, Passed, Below, StrictlySorted;
    var i, j := Below(w, t), Passed(w, last);
    SliceIn(w, i, j, x);
    if x in w {
      var k :| 0 <= k < |w| && w[k] == x;
      assert Stored(w[k]);
      hide Stored;
      InSlice(w, i, j, k);
      BelowSplits(w, t, k);
      PassedSplits(w, last, k);
      if !Less(last, x) {
        NotAfter(x, last);
      }
    }
  }

  lemma {:induction false} SkipCount(ms: seq<bytes>, from: int64, to: int64, t: int64, last: bytes)
    requires AllStored(ms) && StrictlySorted(ms) && Stored(last) && MemTS(last) == t && from <= t <= to
    ensures var w := Window(ms, from, to);
            Below(w, t) <= Passed(w, last) && |Skips(ms, t, last)| == Passed(w, last) - Below(w, t)
  {
    hide Less, MemTS, Passed, Below, Window, StrictlySorted, Stored;
    var w := Window(ms, from, to);
    WindowSorted(ms, from, to);
    BelowPassed(w, t, last);
    var r := w[Below(w, t)..Passed(w, last)];
    SubSorted(w, Below(w, t), Passed(w, last));
    StrictCount(r);
    forall x ensures x in r <==> x in Skips(ms, t, last) {
      SkipsAt(w, t, last, x);
      InWindow(ms, from, to, x);
    }
    assert (set x | x in r) == Skips(ms, t, last);
  }

  lemma Parts(a: set<bytes>, b: set<bytes>)
    ensures |a| - |a - b| == |b| - |b - a|
  {
    assert a == (a - b) + (a * b) && b == (b - a) + (a * b);
  }

  // Drift.

  ghost predicate Behind(ms: seq<bytes>, from: int64, to: int64, pos: Cursors.Position, last: bytes)
    requires AllStored(ms)
  {
    exists e :: StandsBehind(ms, from, to, pos, last, e)
  }

  lemma BehindSkips(a: seq<bytes>, from: int64, to: int64, pos: Cursors.Position, last: bytes)
    requires AllStored(a) && StrictlySorted(a) && Behind(a, from, to, pos, last)
    ensures last in a && Stored(last) && MemTS(last) == pos.ts && from <= pos.ts <= to
    ensures |Skips(a, pos.ts, last)| == pos.skip && Start(Window(a, from, to), pos) == Passed(Window(a, from, to), last)
  {
    hide Less, MemTS, Passed, Below, Window, StrictlySorted, Stored;
    var w := Window(a, from, to);
    var e :| StandsBehind(a, from, to, pos, last, e);
    assert last in w;
    InWindow(a, from, to, last);
    WindowSorted(a, from, to);
    PassedIs(w, e);
    SkipCount(a, from, to, pos.ts, last);
  }

  /** Whatever becomes of a store, a cursor behind `last` is moved from there by as many places as skipped members are gone,
      and back by as many as have come to be skipped; the next page is the slice from that place on. */
  lemma Drift(a: seq<bytes>, b: seq<bytes>, from: int64, to: int64, limit: nat, pos: Cursors.Position, last: bytes)
    requires AllStored(a) && StrictlySorted(a) && AllStored(b) && StrictlySorted(b) && limit >= 1
    requires Behind(a, from, to, pos, last)
    ensures var v := Window(b, from, to); var s := Start(v, pos);
            && s == Passed(v, last) + |Gone(a, b, pos.ts, last)| - |Slipped(a, b, pos.ts, last)|
            && PageAt(b, to, limit, pos).members == Slice(v, s, limit)
  {
    hide Less, MemTS, Passed, Below, Window, StrictlySorted, Stored, Slice, PageAt;
    BehindSkips(a, from, to, pos, last);
    SkipCount(b, from, to, pos.ts, last);
    Parts(Skips(a, pos.ts, last), Skips(b, pos.ts, last));
    PageFrom(b, from, to, limit, pos);
  }

  ghost function Gone(a: seq<bytes>, b: seq<bytes>, t: int64, last: bytes): set<bytes>
    requires AllStored(a) && AllStored(b)
  {
    Skips(a, t, last) - Skips(b, t, last)
  }

  ghost function Slipped(a: seq<bytes>, b: seq<bytes>, t: int64, last: bytes): set<bytes>
    requires AllStored(a) && AllStored(b)
  {
    Skips(b, t, last) - Skips(a, t, last)
  }

  /** Appends of one writer never slip a member in front of a cursor. */
  lemma FollowsSlipsNone(a: seq<bytes>, b: seq<bytes>, t: int64, last: bytes)
    requires AllStored(a) && AllStored(b) && Follows(a, b) && last in a && MemTS(last) == t
    ensures Slipped(a, b, t, last) == {}
    ensures Gone(a, b, t, last) == {} <==> Spared(a, b, t, last)
  {
    hide Less, MemTS;
    forall x | x in Skips(b, t, last) ensures x in Skips(a, t, last) {
      if x !in a {
        assert Less(last, x);
      }
    }
    if Gone(a, b, t, last) == {} {
      forall y | y in a && MemTS(y) == t && !Less(last, y) ensures y in b {
        assert y in Skips(a, t, last);
        assert y !in Gone(a, b, t, last);
      }
    }
  }

  /** With one writer a cursor keeps its place if and only if no skipped member is evicted. If `d` are, the next page leaves
      out the next `d` members behind the last one emitted. */
  lemma EvictionDrift(a: seq<bytes>, b: seq<bytes>, from: int64, to: int64, limit: nat, pos: Cursors.Position, last: bytes)
    requires AllStored(a) && StrictlySorted(a) && AllStored(b) && StrictlySorted(b) && limit >= 1
    requires Behind(a, from, to, pos, last) && Follows(a, b)
    ensures var v := Window(b, from, to); var d := |Gone(a, b, pos.ts, last)|;
            && Start(v, pos) == Passed(v, last) + d
            && (d == 0 <==> Spared(a, b, pos.ts, last))
            && PageAt(b, to, limit, pos).members == Slice(v, Passed(v, last) + d, limit)
  {
    hide Less, MemTS, Passed, Below, Window, StrictlySorted, Stored, Slice, PageAt, Follows, Gone, Slipped, Spared;
    BehindSkips(a, from, to, pos, last);
    FollowsSlipsNone(a, b, pos.ts, last);
    Drift(a, b, from, to, limit, pos, last);
  }

  /** One append to a list of at most `c`: the newcomer, and no more than one member evicted. */
  lemma CappedInsert(c: nat, a: seq<bytes>, x: bytes)
    requires AllStored(a) && StrictlySorted(a) && x !in a && Stored(x) && |a| <= c
    ensures var b := Last(c, Insert(a, x));
            && AllStored(b) && StrictlySorted(b)
            && (forall y | y in b :: y in a || y == x)
            && (forall y, z | y in a && z in a && y !in b && z !in b :: y == z)
  {
    hide Less, Stored, StrictlySorted, Insert;
    var r := Insert(a, x);
    InsertedStored(a, x);
    InsertStrict(a, x);
    forall y ensures y in r <==> y in a || y == x {
      InsertedIn(a, x, y);
    }
    LastOfOneMore(c, r);
  }

  lemma LastOfOneMore(c: nat, r: seq<bytes>)
    requires AllStored(r) && StrictlySorted(r) && 1 <= |r| <= c + 1
    ensures var b := Last(c, r);
            AllStored(b) && StrictlySorted(b) && (forall y | y in b :: y in r) && forall y | y in r && y !in b :: y == r[0]
  {
    hide Less, Stored;
    var b := Last(c, r);
    if |r| == c + 1 {
      assert r == [r[0]] + b;
    }
  }

  lemma AtMostOne(s: set<bytes>)
    requires forall y, z | y in s && z in s :: y == z
    ensures |s| <= 1
  {
    if s != {} {
      var y :| y in s;
      assert s == {y};
    }
  }

  lemma TakenIsGone(a: seq<bytes>, b: seq<bytes>, t: int64, last: bytes)
    requires AllStored(a) && AllStored(b)
    ensures !Spared(a, b, t, last) <==> Gone(a, b, t, last) != {}
  {
    hide Less, MemTS;
    if !Spared(a, b, t, last) {
      var y :| y in a && |y| == ENCODED_LEN && MemTS(y) == t && !Less(last, y) && y !in b;
      assert y in Gone(a, b, t, last);
    } else {
      assert forall y | y in Skips(a, t, last) :: y in Skips(b, t, last);
    }
  }

  /** One append to a capped list, by whatever writer: the cursor loses its place if and only if the newcomer is kept and
      slips in front of the last member emitted, or a skipped member is evicted, and not both. */
  lemma OneCappedAppend(c: nat, a: seq<bytes>, x: bytes, from: int64, to: int64, pos: Cursors.Position, last: bytes)
    requires AllStored(a) && StrictlySorted(a) && x !in a && Stored(x) && |a| <= c && Behind(a, from, to, pos, last)
    ensures var b := Last(c, Insert(a, x));
            && AllStored(b) && StrictlySorted(b)
            && var v := Window(b, from, to);
               Start(v, pos) == Passed(v, last) <==> ((x in b && Slips(x, pos, last)) <==> !Spared(a, b, pos.ts, last))
  {
    hide MemTS, Passed, Below, Window, StrictlySorted, Stored, Insert, Last;
    CappedInsert(c, a, x);
    BehindSkips(a, from, to, pos, last);
    LessTotal(x, last);
    if Less(x, last) {
      LessAsymmetric(x, last);
    }
    hide Less;
    var b := Last(c, Insert(a, x));
    var t := pos.ts;
    Drift(a, b, from, to, 1, pos, last);
    var gone, slipped := Gone(a, b, t, last), Slipped(a, b, t, last);
    AtMostOne(gone);
    AtMostOne(slipped);
    if x in b && Slips(x, pos, last) {
      assert x in slipped;
    } else {
      assert slipped == {};
    }
    if !Spared(a, b, t, last) {
      assert gone != {} by { TakenIsGone(a, b, t, last); }
    } else {
      TakenIsGone(a, b, t, last);
    }
  }

  // The cursor behind a page.

  /** The page skipped members of the timestamp it ends with, a later one than the cursor's: the next cursor does not
      count them. */
  predicate Overlooks(w: seq<bytes>, pos: Cursors.Position, limit: nat)
    requires AllStored(w) && limit >= 1 && Start(w, pos) + limit <= |w|
  {
    var s := Start(w, pos);
    var ts := MemTS(w[s + limit - 1]);
    ts > pos.ts && Below(w, ts) < s
  }

  lemma AllAtOnce(w: seq<bytes>, s: nat, limit: nat)
    requires AllStored(w) && StrictlySorted(w) && limit >= 1 && s + limit <= |w|
    requires Below(w, MemTS(w[s + limit - 1])) <= s
    ensures Paging.Run(w[s..s + limit], MemTS(w[s + limit - 1])) == limit
  {
    hide Less, MemTS, Below, StrictlySorted, Paging.Run;
    var page := w[s..s + limit];
    var ts := MemTS(w[s + limit - 1]);
    forall i | 0 <= i < |page| ensures MemTS(page[i]) == ts {
      BelowSplits(w, ts, s + i);
      SortedByTs(w, s + i, s + limit - 1);
    }
    StoredSlice(w, s, limit);
    RunIs(page, ts, limit);
  }

  lemma StoredSlice(w: seq<bytes>, s: nat, limit: nat)
    requires AllStored(w) && s + limit <= |w|
    ensures AllStored(w[s..s + limit])
  {
    hide Stored;
  }

  lemma PartlyAtOnce(w: seq<bytes>, s: nat, limit: nat)
    requires AllStored(w) && StrictlySorted(w) && limit >= 1 && s + limit <= |w|
    requires Below(w, MemTS(w[s + limit - 1])) > s
    ensures var c := Below(w, MemTS(w[s + limit - 1]));
            c <= s + limit && Paging.Run(w[s..s + limit], MemTS(w[s + limit - 1])) == s + limit - c
  {
    hide Less, MemTS, Below, StrictlySorted, Paging.Run;
    var page := w[s..s + limit];
    var last := s + limit - 1;
    var ts := MemTS(w[last]);
    var c := Below(w, ts);
    BelowSplits(w, ts, last);
    var n := s + limit - c;
    forall i | limit - n <= i < limit ensures MemTS(page[i]) == ts {
      BelowSplits(w, ts, s + i);
      SortedByTs(w, s + i, last);
    }
    BelowSplits(w, ts, c - 1);
    assert page[limit - n - 1] == w[c - 1];
    StoredSlice(w, s, limit);
    RunIs(page, ts, n);
  }

  /** The cursor handed out with a page stands right behind it if and only if the page overlooked nothing; otherwise it
      stands as many places back as members were overlooked. */
  lemma NextStart(ms: seq<bytes>, from: int64, to: int64, limit: nat, pos: Cursors.Position)
    requires AllStored(ms) && StrictlySorted(ms) && limit >= 1 && from <= pos.ts && PageAt(ms, to, limit, pos).next.Some?
    ensures var w := Window(ms, from, to); var s := Start(w, pos); var next := PageAt(ms, to, limit, pos).next.value;
            && s + limit < |w| && next.ts == MemTS(w[s + limit - 1]) >= pos.ts
            && Start(w, next) == if Overlooks(w, pos, limit) then Below(w, next.ts) + limit else s + limit
  {
    hide Less, MemTS, Below, Window, StrictlySorted, Stored, Paging.Run, PageAt, Overlooks, Slice;
    PageFrom(ms, from, to, limit, pos);
    WindowSorted(ms, from, to);
    NextValue(ms, from, to, limit, pos);
    CursorPlace(Window(ms, from, to), pos, limit);
  }

  /** The place of the cursor that the page builder makes. */
  lemma CursorPlace(w: seq<bytes>, pos: Cursors.Position, limit: nat)
    requires AllStored(w) && StrictlySorted(w) && limit >= 1 && Start(w, pos) + limit <= |w|
    ensures var s := Start(w, pos); var ts := MemTS(w[s + limit - 1]);
            && ts >= pos.ts && AllStored(w[s..s + limit])
            && var run := Paging.Run(w[s..s + limit], ts);
               Below(w, ts) + (if ts == pos.ts then run + pos.skip else run) ==
               if Overlooks(w, pos, limit) then Below(w, ts) + limit else s + limit
  {
    hide Less, MemTS, Below, StrictlySorted, Paging.Run;
    var s := Start(w, pos);
    BelowSplits(w, pos.ts, s + limit - 1);
    hide Stored;
    NextRun(w, s, limit);
  }

  lemma NextRun(w: seq<bytes>, s: nat, limit: nat)
    requires AllStored(w) && StrictlySorted(w) && limit >= 1 && s + limit <= |w|
    ensures AllStored(w[s..s + limit])
    ensures var ts := MemTS(w[s + limit - 1]); var c := Below(w, ts);
            Paging.Run(w[s..s + limit], ts) == if c <= s then limit else s + limit - c
  {
    hide Less, MemTS, Below, StrictlySorted, Paging.Run;
    StoredSlice(w, s, limit);
    if Below(w, MemTS(w[s + limit - 1])) <= s {
      AllAtOnce(w, s, limit);
    } else {
      PartlyAtOnce(w, s, limit);
    }
  }

  lemma NextValue(ms: seq<bytes>, from: int64, to: int64, limit: nat, pos: Cursors.Position)
    requires AllStored(ms) && StrictlySorted(ms) && limit >= 1 && from <= pos.ts && PageAt(ms, to, limit, pos).next.Some?
    requires var w := Window(ms, from, to); Start(w, pos) + limit < |w|
    ensures var w := Window(ms, from, to); var s := Start(w, pos);
            && AllStored(w[s..s + limit])
            && var ts := MemTS(w[s + limit - 1]);
               var run := Paging.Run(w[s..s + limit], ts);
               PageAt(ms, to, limit, pos).next.value == Cursors.Position(ts, if ts == pos.ts then run + pos.skip else run)
  {
    hide Less, MemTS, Window, StrictlySorted, Stored, Paging.Run, Below, AllStored, BuildPage, Fetched;
    var w := Window(ms, from, to);
    var c := Below(w, pos.ts);
    var s := c + pos.skip;
    WindowSuffix(ms, from, pos.ts, to);
    FetchedFrom(w, c, pos.skip, limit);
    StoredSlice(w, s, limit + 1);
    BuiltCursor(w[s..s + limit + 1], limit, pos);
    TakeSlice(w, s, limit);
  }

  lemma TakeSlice(w: seq<bytes>, s: nat, n: nat)
    requires s + n < |w|
    ensures w[s..s + n + 1][..n] == w[s..s + n]
  {
  }

  lemma BuiltCursor(f: seq<bytes>, limit: nat, pos: Cursors.Position)
    requires AllStored(f) && limit >= 1 && |f| == limit + 1
    ensures AllStored(f[..limit])
    ensures var ts := MemTS(f[limit - 1]); var run := Paging.Run(f[..limit], ts);
            BuildPage(f, limit, pos).next == Some(Cursors.Position(ts, if ts == pos.ts then run + pos.skip else run))
  {
    hide MemTS, Paging.Run;
  }

  /** The same as a statement about the members: the next cursor stands behind the last member of the page. */
  lemma NextBehind(ms: seq<bytes>, from: int64, to: int64, limit: nat, pos: Cursors.Position)
    requires AllStored(ms) && StrictlySorted(ms) && limit >= 1 && from <= pos.ts && PageAt(ms, to, limit, pos).next.Some?
    ensures var w := Window(ms, from, to); var s := Start(w, pos); var next := PageAt(ms, to, limit, pos).next.value;
            && s + limit < |w|
            && (Overlooks(w, pos, limit) ==> Start(w, next) < s + limit)
            && (!Overlooks(w, pos, limit) ==> StandsBehind(ms, from, to, next, w[s + limit - 1], s + limit))
  {
    hide Less, MemTS, Below, Window, StrictlySorted, Stored, PageAt;
    NextStart(ms, from, to, limit, pos);
  }

  /** From a cursor that stands where it should, no page overlooks anything: only an eviction brings that about. */
  lemma BehindOverlooksNone(ms: seq<bytes>, from: int64, to: int64, limit: nat, pos: Cursors.Position, last: bytes)
    requires AllStored(ms) && StrictlySorted(ms) && limit >= 1 && Behind(ms, from, to, pos, last)
    requires var w := Window(ms, from, to); Start(w, pos) + limit <= |w|
    ensures !Overlooks(Window(ms, from, to), pos, limit)
  {
    hide Less, MemTS, Below, Window, StrictlySorted;
    var w := Window(ms, from, to);
    var e: nat :| StandsBehind(ms, from, to, pos, last, e);
    WindowSorted(ms, from, to);
    var ts := MemTS(w[Start(w, pos) + limit - 1]);
    BelowSplits(w, ts, e - 1);
  }

  // Walks that ascend.

  /** The cursor's page starts behind `last`. */
  ghost predicate Ahead(ms: seq<bytes>, from: int64, to: int64, pos: Cursors.Position, last: bytes)
    requires AllStored(ms)
  {
    from <= pos.ts && Start(Window(ms, from, to), pos) >= Passed(Window(ms, from, to), last)
  }

  lemma SliceAfter(w: seq<bytes>, s: nat, limit: nat, last: bytes)
    requires StrictlySorted(w) && s >= Passed(w, last)
    ensures AllAfter(Slice(w, s, limit), Some(last))
  {
    hide Less, Passed, StrictlySorted;
    var p := Slice(w, s, limit);
    forall i | 0 <= i < |p| ensures Less(last, p[i]) {
      PassedSplits(w, last, s + i);
    }
  }

  /** A cursor that stands behind `last` never falls back behind it through the appends of one writer. */
  lemma StaysAhead(a: seq<bytes>, b: seq<bytes>, from: int64, to: int64, pos: Cursors.Position, last: bytes)
    requires AllStored(a) && StrictlySorted(a) && AllStored(b) && StrictlySorted(b)
    requires Behind(a, from, to, pos, last) && Follows(a, b)
    ensures Ahead(b, from, to, pos, last)
  {
    hide Less, MemTS, Passed, Below, Window, StrictlySorted, Stored, Slice, PageAt, Follows, Gone, Spared;
    BehindSkips(a, from, to, pos, last);
    EvictionDrift(a, b, from, to, 1, pos, last);
  }

  /** Every page that one writer's store serves to the next cursor comes behind what was emitted, if and only if the page
      overlooked nothing. If it did, the unchanged store already serves a member again. */
  lemma OrderKept(ms: seq<bytes>, from: int64, to: int64, limit: nat, pos: Cursors.Position)
    requires AllStored(ms) && StrictlySorted(ms) && limit >= 1 && from <= pos.ts && PageAt(ms, to, limit, pos).next.Some?
    ensures var w := Window(ms, from, to); var s := Start(w, pos); var next := PageAt(ms, to, limit, pos).next.value;
            && s + limit < |w|
            && ((forall b | AllStored(b) && StrictlySorted(b) && Follows(ms, b) ::
                   AllAfter(PageAt(b, to, limit, next).members, Some(w[s + limit - 1])))
                <==> !Overlooks(w, pos, limit))
  {
    hide Less, MemTS, Below, Window, StrictlySorted, Stored, PageAt, Follows, AllAfter, Slice, Passed;
    var w := Window(ms, from, to);
    var s := Start(w, pos);
    var next := PageAt(ms, to, limit, pos).next.value;
    NextBehind(ms, from, to, limit, pos);
    NextStart(ms, from, to, limit, pos);
    var last := w[s + limit - 1];
    WindowSorted(ms, from, to);
    if !Overlooks(w, pos, limit) {
      assert Behind(ms, from, to, next, last);
      forall b | AllStored(b) && StrictlySorted(b) && Follows(ms, b)
        ensures AllAfter(PageAt(b, to, limit, next).members, Some(last))
      {
        StaysAhead(ms, b, from, to, next, last);
        PageFrom(b, from, to, limit, next);
        WindowSorted(b, from, to);
        SliceAfter(Window(b, from, to), Start(Window(b, from, to), next), limit, last);
      }
    } else {
      PageFrom(ms, from, to, limit, next);
      assert Follows(ms, ms) by { FollowsItself(ms); }
      NotAllAfter(w, Start(w, next), limit, s + limit - 1);
    }
  }

  lemma FollowsItself(ms: seq<bytes>)
    requires AllStored(ms)
    ensures Follows(ms, ms)
  {
  }

  lemma NotAllAfter(w: seq<bytes>, s: nat, limit: nat, k: nat)
    requires StrictlySorted(w) && s <= k < |w| && limit >= 1
    ensures !AllAfter(Slice(w, s, limit), Some(w[k]))
  {
    hide Less, StrictlySorted;
    assert Slice(w, s, limit)[0] == w[s];
    StrictIndex(w, s, k);
  }

  /** No page of the walk but its last overlooks anything. */
  ghost predicate Straight(snaps: seq<seq<bytes>>, from: int64, to: int64, limit: nat, cur: bytes)
    requires GoodSnaps(snaps) && limit >= 1
    decreases |snaps|
  {
    |snaps| >= 2 && PositionOf(from, cur).Some? && from <= PositionOf(from, cur).value.ts ==>
      var pos := PositionOf(from, cur).value;
      var w := Window(snaps[0], from, to);
      Start(w, pos) + limit < |w| ==>
        && !Overlooks(w, pos, limit)
        && Straight(snaps[1..], from, to, limit, NextCursor(PageAt(snaps[0], to, limit, pos)))
  }

  ghost predicate CursorAhead(ms: seq<bytes>, from: int64, to: int64, cur: bytes, last: Option<bytes>)
    requires AllStored(ms)
  {
    && PositionOf(from, cur).Some? && from <= PositionOf(from, cur).value.ts
    && (last.Some? ==> Ahead(ms, from, to, PositionOf(from, cur).value, last.value))
  }

  ghost predicate Ascends(v: Visit, last: Option<bytes>, from: int64, to: int64) {
    StrictlySorted(v.emitted) && AllAfter(v.emitted, last) && InBounds(v.emitted, from, to)
  }

  lemma PageAscends(ms: seq<bytes>, from: int64, to: int64, limit: nat, cur: bytes, last: Option<bytes>, done: bool)
    requires AllStored(ms) && StrictlySorted(ms) && limit >= 1 && CursorAhead(ms, from, to, cur, last)
    ensures Ascends(Visit(PageAt(ms, to, limit, PositionOf(from, cur).value).members, done), last, from, to)
  {
    hide Less, MemTS, Below, Window, StrictlySorted, Stored, PageAt, Passed, PositionOf, InBounds, AllAfter, AllStored;
    var pos := PositionOf(from, cur).value;
    var w := Window(ms, from, to);
    var s := Start(w, pos);
    PageFrom(ms, from, to, limit, pos);
    WindowSorted(ms, from, to);
    Piece(ms, from, to, 0, 0);
    if s < |w| {
      Piece(ms, from, to, s, if s + limit >= |w| then |w| else s + limit);
      assert w[s..|w|] == w[s..];
    } else {
      assert w[0..0] == [];
    }
    if last.Some? {
      SliceAfter(w, s, limit, last.value);
    } else {
      hide Slice;
      NoFloor(Slice(w, s, limit));
    }
  }

  lemma NoFloor(p: seq<bytes>)
    ensures AllAfter(p, None)
  {
  }

  lemma {:induction false} WalkAscends(snaps: seq<seq<bytes>>, from: int64, to: int64, limit: nat, cur: bytes,
                                       last: Option<bytes>)
    requires FollowingRun(snaps) && limit >= 1 && snaps != [] && Straight(snaps, from, to, limit, cur)
    requires CursorAhead(snaps[0], from, to, cur, last)
    ensures Ascends(WalkOver(snaps, from, to, limit, cur), last, from, to)
    decreases |snaps|
  {
    hide Less, MemTS, Below, Window, StrictlySorted, Stored, PageAt, PositionOf, Follows, NextCursor, Ahead, Overlooks;
    hide AllAfter, InBounds;
    var ms := snaps[0];
    var tail := snaps[1..];
    var pos := PositionOf(from, cur).value;
    var p := PageAt(ms, to, limit, pos);
    PageFrom(ms, from, to, limit, pos);
    PageAscends(ms, from, to, limit, cur, last, true);
    if p.next.Some? {
      if tail == [] {
        assert WalkOver(tail, from, to, limit, NextCursor(p)) == Visit([], false);
        assert p.members + [] == p.members;
      } else {
        TailRun(snaps);
        var w := Window(ms, from, to);
        var ell := w[Start(w, pos) + limit - 1];
        NextAhead(ms, tail[0], from, to, limit, pos);
        WalkAscends(tail, from, to, limit, NextCursor(p), Some(ell));
        Ascending(p.members, WalkOver(tail, from, to, limit, NextCursor(p)).emitted, last);
        BoundsJoin(p.members, WalkOver(tail, from, to, limit, NextCursor(p)).emitted, from, to);
      }
    }
  }

  lemma BoundsJoin(p: seq<bytes>, q: seq<bytes>, from: int64, to: int64)
    requires InBounds(p, from, to) && InBounds(q, from, to)
    ensures InBounds(p + q, from, to)
  {
    hide MemTS;
  }

  lemma NextAhead(a: seq<bytes>, b: seq<bytes>, from: int64, to: int64, limit: nat, pos: Cursors.Position)
    requires AllStored(a) && StrictlySorted(a) && |a| < TWO63 && AllStored(b) && StrictlySorted(b) && Follows(a, b)
    requires limit >= 1 && from <= pos.ts
    requires PageAt(a, to, limit, pos).next.Some?
    requires var w := Window(a, from, to); Start(w, pos) + limit < |w| && !Overlooks(w, pos, limit)
    ensures var w := Window(a, from, to); var p := PageAt(a, to, limit, pos);
            && CursorAhead(b, from, to, NextCursor(p), Some(w[Start(w, pos) + limit - 1]))
            && p.members != [] && p.members[|p.members| - 1] == w[Start(w, pos) + limit - 1]
  {
    hide Less, MemTS, Below, Window, StrictlySorted, Stored, PageAt, PositionOf, NextCursor, Follows, Passed, Overlooks;
    var w := Window(a, from, to);
    var p := PageAt(a, to, limit, pos);
    PageFrom(a, from, to, limit, pos);
    NextStart(a, from, to, limit, pos);
    NextBehind(a, from, to, limit, pos);
    var last := w[Start(w, pos) + limit - 1];
    assert Behind(a, from, to, p.next.value, last);
    NextDecodes(p, from);
    StaysAhead(a, b, from, to, p.next.value, last);
  }

  /** Walks over the states of one writer's store, whatever is evicted: members in strictly ascending order, so none twice,
      all inside the time window, as long as no page overlooks anything. */
  lemma WalkIsOrdered(snaps: seq<seq<bytes>>, from: int64, to: int64, limit: nat)
    requires FollowingRun(snaps) && limit >= 1 && snaps != [] && Straight(snaps, from, to, limit, [])
    ensures var v := WalkOver(snaps, from, to, limit, []); StrictlySorted(v.emitted) && InBounds(v.emitted, from, to)
  {
    hide WalkOver, Straight, FollowingRun, StrictlySorted, InBounds;
    assert snaps[0] == snaps[0];
    WalkAscends(snaps, from, to, limit, [], None);
  }
}
