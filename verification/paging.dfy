/** Cursor pagination (internal/store/paginate.go, and the window scan of Range in internal/store/mem.go). */
module Paging {
  import opened Bytes
  import opened Strconv
  import opened Codec
  import opened SortedMembers
  import Cursors
  import opened Points

  /** A stored member: the fixed length, and a timestamp that is not negative, as validation guarantees. */
  predicate Stored(m: bytes) {
    |m| == ENCODED_LEN && MemTS(m) >= 0
  }

  predicate AllStored(ms: seq<bytes>) {
    forall i | 0 <= i < |ms| :: Stored(ms[i])
  }

  /** Members of the fixed length, whatever their timestamps. */
  predicate AllEncoded(ms: seq<bytes>) {
    forall i | 0 <= i < |ms| :: |ms[i]| == ENCODED_LEN
  }

  /** The members with lo <= ts <= hi, in order. */
  function Window(ms: seq<bytes>, lo: int64, hi: int64): (w: seq<bytes>)
    requires AllStored(ms) || AllEncoded(ms)
    ensures |w| <= |ms| && (AllStored(ms) ==> AllStored(w)) && (AllEncoded(ms) ==> AllEncoded(w))
    decreases |ms|
  {
    if ms == [] then [] else
      var w := Window(ms[..|ms| - 1], lo, hi);
      var m := ms[|ms| - 1];
      if lo <= MemTS(m) <= hi then w + [m] else w
  }

  lemma {:induction false} InWindow(ms: seq<bytes>, lo: int64, hi: int64, x: bytes)
    requires AllStored(ms)
    ensures x in Window(ms, lo, hi) <==> x in ms && lo <= MemTS(x) <= hi
    decreases |ms|
  {
    hide MemTS;
    if ms != [] {
      var front := ms[..|ms| - 1];
      InWindow(front, lo, hi, x);
      assert ms == front + [ms[|ms| - 1]];
    }
  }

  /** The store's answer before it is cut into a page: at most limit+1 members from `skip` on. */
  function Fetched(w: seq<bytes>, skip: nat, limit: nat): seq<bytes> {
    if skip >= |w| then []
    else if skip + limit + 1 >= |w| then w[skip..]
    else w[skip..skip + limit + 1]
  }

  /** How many members at the end of `page` have timestamp `ts`. */
  function Run(page: seq<bytes>, ts: int64): (n: nat)
    requires AllStored(page) || AllEncoded(page)
    ensures n <= |page|
  {
    if page == [] || MemTS(page[|page| - 1]) != ts then 0 else 1 + Run(page[..|page| - 1], ts)
  }

  datatype Page = Page(members: seq<bytes>, next: Option<Cursors.Position>)

  function BuildPage(fetched: seq<bytes>, limit: nat, pos: Cursors.Position): (p: Page)
    requires (AllStored(fetched) || AllEncoded(fetched)) && limit >= 1
    ensures |p.members| <= limit && p.members <= fetched
  {
    if |fetched| <= limit then Page(fetched, None) else
      var page := fetched[..limit];
      var lastTs := MemTS(page[limit - 1]);
      var run := Run(page, lastTs);
      Page(page, Some(Cursors.Position(lastTs, if lastTs == pos.ts then run + pos.skip else run)))
  }

  function PageAt(ms: seq<bytes>, to: int64, limit: nat, pos: Cursors.Position): (p: Page)
    requires (AllStored(ms) || AllEncoded(ms)) && limit >= 1
    ensures |p.members| <= limit
  {
    BuildPage(Fetched(Window(ms, pos.ts, to), pos.skip, limit), limit, pos)
  }

  // Order and timestamps.

  /** Stored members in byte order are in timestamp order. */
  lemma LessMeansNotLater(a: bytes, b: bytes)
    requires Stored(a) && Stored(b) && Less(a, b)
    ensures MemTS(a) <= MemTS(b)
  {
    var x := FromBE8(a[0..8]);
    var y := FromBE8(b[0..8]);
    if y < x {
      hide Less;
      BigEndianOnto(a[0..8]);
      BigEndianOnto(b[0..8]);
      BigEndianBound(a[0..8]);
      assert a == a[0..8] + a[8..] && b == b[0..8] + b[8..];
      BigEndianOrder(8, y, x, b[8..], a[8..]);
      LessAsymmetric(a, b);
    }
  }

  lemma SortedByTs(ms: seq<bytes>, i: nat, j: nat)
    requires AllStored(ms) && StrictlySorted(ms) && i <= j < |ms|
    ensures MemTS(ms[i]) <= MemTS(ms[j])
  {
    hide Less, MemTS;
    if i < j {
      LessMeansNotLater(ms[i], ms[j]);
    }
  }

  lemma {:induction false} WindowSorted(ms: seq<bytes>, lo: int64, hi: int64)
    requires AllStored(ms) && StrictlySorted(ms)
    ensures StrictlySorted(Window(ms, lo, hi))
    decreases |ms|
  {
    hide Less, MemTS;
    if ms != [] {
      var front := ms[..|ms| - 1];
      WindowSorted(front, lo, hi);
      var w := Window(front, lo, hi);
      var m := ms[|ms| - 1];
      forall i | 0 <= i < |w| ensures Less(w[i], m) {
        InWindow(front, lo, hi, w[i]);
        var k :| 0 <= k < |front| && front[k] == w[i];
        assert Less(ms[k], ms[|ms| - 1]);
      }
    }
  }

  /** The members before timestamp `ts`, up to the first one at or after it. */
  function Below(w: seq<bytes>, ts: int64): (c: nat)
    requires AllStored(w)
    ensures c <= |w|
  {
    if w == [] || MemTS(w[0]) >= ts then 0 else 1 + Below(w[1..], ts)
  }

  lemma {:induction false} BelowAt(w: seq<bytes>, ts: int64, i: nat)
    requires AllStored(w) && i < |w|
    ensures i < Below(w, ts) ==> MemTS(w[i]) < ts
    ensures i == Below(w, ts) ==> MemTS(w[i]) >= ts
    decreases |w|
  {
    hide MemTS;
    if i > 0 && MemTS(w[0]) < ts {
      BelowAt(w[1..], ts, i - 1);
    }
  }

  /** In a list in order, exactly the members from `Below` on are at or after the timestamp. */
  lemma BelowSplits(w: seq<bytes>, ts: int64, i: nat)
    requires AllStored(w) && StrictlySorted(w) && i < |w|
    ensures i < Below(w, ts) <==> MemTS(w[i]) < ts
  {
    hide Less, MemTS, Below, StrictlySorted;
    var c := Below(w, ts);
    BelowAt(w, ts, i);
    if i >= c {
      BelowAt(w, ts, c);
      SortedByTs(w, c, i);
    }
  }

  lemma AtOrAfter(w: seq<bytes>, ts: int64, x: bytes)
    requires AllStored(w) && StrictlySorted(w)
    ensures x in w[Below(w, ts)..] <==> x in w && MemTS(x) >= ts
  {
    hide Less, MemTS, StrictlySorted, Below;
    var c := Below(w, ts);
    if x in w[c..] {
      var i :| 0 <= i < |w[c..]| && w[c..][i] == x;
      assert w[c + i] == x;
      BelowSplits(w, ts, c + i);
    }
    if x in w && MemTS(x) >= ts {
      var i :| 0 <= i < |w| && w[i] == x;
      BelowSplits(w, ts, i);
      assert w[c..][i - c] == x;
    }
  }

  /** Narrowing the window from below drops exactly the members before the new bound. */
  lemma WindowSuffix(ms: seq<bytes>, lo: int64, mid: int64, hi: int64)
    requires AllStored(ms) && StrictlySorted(ms) && lo <= mid
    ensures var w := Window(ms, lo, hi); Window(ms, mid, hi) == w[Below(w, mid)..]
  {
    hide Less, MemTS, Below, Stored, Window;
    var w := Window(ms, lo, hi);
    var v := Window(ms, mid, hi);
    var c := Below(w, mid);
    WindowSorted(ms, lo, hi);
    WindowSorted(ms, mid, hi);
    assert StrictlySorted(w[c..]);
    hide StrictlySorted, AllStored;
    forall x | x in w[c..] ensures x in v {
      AtOrAfter(w, mid, x);
      InWindow(ms, lo, hi, x);
      InWindow(ms, mid, hi, x);
    }
    forall x | x in v ensures x in w[c..] {
      InWindow(ms, lo, hi, x);
      InWindow(ms, mid, hi, x);
      AtOrAfter(w, mid, x);
    }
    SameElements(v, w[c..]);
  }

  // One page.

  /** The cursor stands behind the first `e` members of the window: those before its timestamp and, of those at its
      timestamp, as many as it skips. */
  ghost predicate Stands(w: seq<bytes>, pos: Cursors.Position, e: nat)
    requires AllStored(w)
  {
    && Below(w, pos.ts) + pos.skip == e <= |w|
    && (e > 0 ==> MemTS(w[e - 1]) <= pos.ts)
  }

  lemma {:induction false} RunIs(page: seq<bytes>, ts: int64, n: nat)
    requires AllStored(page) && n <= |page|
    requires forall i | |page| - n <= i < |page| :: MemTS(page[i]) == ts
    requires n < |page| ==> MemTS(page[|page| - n - 1]) != ts
    ensures Run(page, ts) == n
    decreases n
  {
    if n > 0 {
      RunIs(page[..|page| - 1], ts, n - 1);
    }
  }

  /** The skip count of the next cursor: the page's trailing run, plus the old skip when the page never left the
      cursor's timestamp. */
  lemma NextSkip(w: seq<bytes>, pos: Cursors.Position, e: nat, limit: nat)
    requires AllStored(w) && StrictlySorted(w) && Stands(w, pos, e) && limit >= 1 && e + limit <= |w|
    ensures var lastTs := MemTS(w[e + limit - 1]); var run := Run(w[e..e + limit], lastTs);
            && lastTs >= pos.ts
            && Stands(w, Cursors.Position(lastTs, if lastTs == pos.ts then run + pos.skip else run), e + limit)
  {
    hide Less, MemTS, Below, StrictlySorted;
    var page := w[e..e + limit];
    var last := e + limit - 1;
    var lastTs := MemTS(w[last]);
    var c := Below(w, pos.ts);
    var c' := Below(w, lastTs);
    BelowSplits(w, pos.ts, last);
    BelowSplits(w, lastTs, last);
    if lastTs == pos.ts {
      forall i | 0 <= i < |page| ensures MemTS(page[i]) == lastTs {
        BelowSplits(w, pos.ts, e + i);
        SortedByTs(w, e + i, last);
      }
      hide AllStored;
      RunIs(page, lastTs, limit);
    } else {
      // The run starts inside the page: everything emitted before is at or before the old cursor's timestamp.
      if e > 0 {
        BelowSplits(w, lastTs, e - 1);
      }
      var n := last + 1 - c';
      forall i | limit - n <= i < limit ensures MemTS(page[i]) == lastTs {
        BelowSplits(w, lastTs, e + i);
        SortedByTs(w, e + i, last);
      }
      if n < limit {
        BelowSplits(w, lastTs, c' - 1);
        assert page[limit - n - 1] == w[c' - 1];
      }
      hide AllStored;
      RunIs(page, lastTs, n);
    }
  }

  /** `p` is exactly the next `limit` members of the window behind place `e`, or all that are left; it has a next
      cursor exactly when more are left, and that cursor stands behind the page. */
  ghost predicate IsNextPage(w: seq<bytes>, e: nat, limit: nat, pos: Cursors.Position, p: Page)
    requires AllStored(w) && e <= |w|
  {
    && (|w| <= e + limit ==> p == Page(w[e..], None))
    && (|w| > e + limit ==>
          && limit >= 1 && p.members == w[e..e + limit] && p.next.Some? && Stands(w, p.next.value, e + limit)
          && p.next.value.ts == MemTS(w[e + limit - 1]) >= pos.ts)
  }

  /** What the store hands to BuildPage from place `e` of the window on. */
  function From(w: seq<bytes>, e: nat, limit: nat): seq<bytes>
    requires e <= |w|
  {
    if |w| <= e + limit then w[e..] else w[e..e + limit + 1]
  }

  /** Cutting a page out of the members fetched from place `e` of the window on. */
  lemma CutPage(w: seq<bytes>, e: nat, limit: nat, pos: Cursors.Position)
    requires AllStored(w) && StrictlySorted(w) && limit >= 1 && Stands(w, pos, e)
    ensures AllStored(From(w, e, limit)) && IsNextPage(w, e, limit, pos, BuildPage(From(w, e, limit), limit, pos))
  {
    hide Less, MemTS, Below, Run;
    if |w| > e + limit {
      assert w[e..e + limit + 1][..limit] == w[e..e + limit];
      hide Stands;
      NextSkip(w, pos, e, limit);
    }
  }

  /** A page served from a standing cursor is the next page of the window. */
  lemma PageIsNext(ms: seq<bytes>, from: int64, to: int64, limit: nat, pos: Cursors.Position, e: nat)
    requires AllStored(ms) && StrictlySorted(ms) && limit >= 1 && from <= pos.ts
    requires Stands(Window(ms, from, to), pos, e)
    ensures IsNextPage(Window(ms, from, to), e, limit, pos, PageAt(ms, to, limit, pos))
  {
    var w := Window(ms, from, to);
    hide Less, MemTS, Window, Below, Fetched, BuildPage, IsNextPage, From, Stored;
    WindowSuffix(ms, from, pos.ts, to);
    WindowSorted(ms, from, to);
    FetchedFrom(w, Below(w, pos.ts), pos.skip, limit);
    CutPage(w, e, limit, pos);
  }

  lemma FetchedFrom(w: seq<bytes>, c: nat, skip: nat, limit: nat)
    requires c + skip <= |w|
    ensures Fetched(w[c..], skip, limit) == From(w, c + skip, limit)
  {
    var e := c + skip;
    assert w[c..][skip..] == w[e..];
    if |w| > e + limit {
      assert w[c..][skip..skip + limit + 1] == w[e..e + limit + 1];
    }
  }

  /** A request without a cursor stands in front of the window. */
  lemma StartStands(ms: seq<bytes>, from: int64, to: int64)
    requires AllStored(ms)
    ensures Stands(Window(ms, from, to), Cursors.Position(from, 0), 0)
  {
    hide Stored;
    hide MemTS;
    var w := Window(ms, from, to);
    if w != [] {
      InWindow(ms, from, to, w[0]);
    }
  }
}
