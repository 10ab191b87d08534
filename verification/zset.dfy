/** The Redis sorted set as internal/store/redis.go uses it: ZADD, ZREMRANGEBYRANK, ZREVRANGE and ZRANGEBYSCORE on a set
    of (score, member) pairs ordered by score and then by member bytes. */
module SortedSets {
  import opened Bytes
  import opened Strconv
  import opened Codec
  import opened SortedMembers
  import opened Paging
  import Walks
  import Cursors

  // Scores.

  const TWO52: nat := 0x10_0000_0000_0000
  const TWO53: nat := 0x20_0000_0000_0000

  /** The distance between neighbouring doubles around a number below 2^64: one up to 2^53, doubling with every power of
      two from there on. */
  function Ulp(t: nat): (u: nat)
    ensures u >= 1
  {
    if t < TWO53 then 1 else 2 * Ulp(t / 2)
  }

  /** To the nearest multiple of `u`, ties to the even one. */
  function RoundTo(t: nat, u: nat): nat
    requires u >= 1
  {
    var q, r := t / u, t % u;
    if 2 * r < u || (2 * r == u && q % 2 == 0) then q * u else (q + 1) * u
  }

  /** The double that a timestamp becomes as a score. */
  function Score(t: int64): int {
    if t < 0 then -(Double(-(t as int)) as int) else Double(t)
  }

  function Double(t: nat): nat {
    RoundTo(t, Ulp(t))
  }

  lemma UlpSteps(t: nat)
    ensures t < TWO53 ==> Ulp(t) == 1
    ensures t >= TWO53 ==> Ulp(t) == 2 * Ulp(t / 2)
  {
  }

  lemma {:induction false} UlpBounds(t: nat)
    ensures t < Ulp(t) * TWO53
    ensures t >= TWO53 ==> Ulp(t) * TWO52 <= t
    decreases t
  {
    hide Ulp;
    UlpSteps(t);
    if t >= TWO53 {
      UlpBounds(t / 2);
      UlpSteps(t / 2);
    }
  }

  /** The first ranges above 2^53. */
  lemma FirstRanges(t: nat)
    ensures TWO53 <= t < 2 * TWO53 ==> Ulp(t) == 2
    ensures 2 * TWO53 <= t < 4 * TWO53 ==> Ulp(t) == 4
    ensures t >= 4 * TWO53 ==> Ulp(t) % 8 == 0
  {
    hide Ulp;
    UlpSteps(t);
    UlpSteps(t / 2);
    UlpSteps(t / 4);
    UlpSteps(t / 8);
    assert (t / 2) / 2 == t / 4 && (t / 4) / 2 == t / 8;
  }

  /** The doubles of a higher range are among those of a lower one, as far as they reach. */
  lemma {:induction false} UlpGrows(s: nat, t: nat) returns (m: nat)
    requires s <= t
    ensures Ulp(t) == m * Ulp(s) && m >= 1 && (m == 1 || m % 2 == 0)
    decreases t
  {
    hide Ulp;
    UlpSteps(s);
    UlpSteps(t);
    if t < TWO53 {
      m := 1;
    } else if s < TWO53 {
      m := Ulp(t);
      assert m * Ulp(s) == m;
    } else {
      m := UlpGrows(s / 2, t / 2);
      Doubled(m, Ulp(s / 2));
    }
  }

  lemma Doubled(m: nat, u: nat)
    ensures 2 * (m * u) == m * (2 * u)
  {
  }

  lemma Multiples(a: nat, b: nat, u: nat)
    ensures a <= b ==> a * u <= b * u
  {
  }

  lemma Quotient(t: nat, u: nat, k: nat)
    requires u >= 1
    ensures t == (t / u) * u + t % u && t % u < u
    ensures t < k * u ==> t / u < k
    ensures t >= k * u ==> t / u >= k
  {
    Multiples(k, t / u, u);
    Multiples(t / u + 1, k, u);
    assert (t / u + 1) * u == (t / u) * u + u;
  }

  /** Rounding does not pass a representable number. */
  lemma RoundStays(t: nat, u: nat, k: nat)
    requires u >= 1
    ensures t < k * u ==> RoundTo(t, u) <= k * u
    ensures t >= k * u ==> RoundTo(t, u) >= k * u
  {
    Quotient(t, u, k);
    Multiples(t / u + 1, k, u);
    Multiples(k, t / u, u);
    Multiples(k, t / u + 1, u);
  }

  lemma RoundMonotone(s: nat, t: nat, u: nat)
    requires u >= 1 && s <= t
    ensures RoundTo(s, u) <= RoundTo(t, u)
  {
    var q, r := s / u, s % u;
    Quotient(s, u, 0);
    Quotient(t, u, q);
    if t / u == q {
      Multiples(q, q + 1, u);
    } else {
      Quotient(t, u, q + 1);
      RoundStays(t, u, q + 1);
      Multiples(q, q + 1, u);
    }
  }

  lemma NatScoreMonotone(s: nat, t: nat)
    requires s <= t
    ensures Double(s) <= Double(t)
  {
    hide RoundTo, Ulp;
    var us, ut := Ulp(s), Ulp(t);
    var m := UlpGrows(s, t);
    if m == 1 {
      RoundMonotone(s, t, us);
    } else {
      var h := m / 2;
      UlpBounds(s);
      UlpSteps(t);
      UlpBounds(t);
      var k := h * TWO53;
      assert k * us == ut * TWO52 by {
        assert k * us == (h * TWO53) * us == (2 * h * us) * TWO52 == (m * us) * TWO52;
      }
      assert us * TWO53 <= k * us by {
        Multiples(TWO53, k, us);
      }
      RoundStays(s, us, k);
      RoundStays(t, ut, TWO52);
      assert t >= TWO53;
    }
  }

  /** Rounding never reverses the order. */
  lemma ScoreMonotone(s: int64, t: int64)
    requires s <= t
    ensures Score(s) <= Score(t)
  {
    hide Double;
    if s >= 0 {
      NatScoreMonotone(s, t);
    } else if t < 0 {
      NatScoreMonotone(-(t as int), -(s as int));
    }
  }

  /** The order of the set: score first, member bytes second. */
  predicate ScoreLess(a: bytes, b: bytes)
    requires Stored(a) && Stored(b)
  {
    var s, t := Score(MemTS(a)), Score(MemTS(b));
    s < t || (s == t && Less(a, b))
  }

  /** Rounding of scores, however coarse, never changes the order of the set: it is the byte order of the members. */
  lemma OrderIsByteOrder(a: bytes, b: bytes)
    requires Stored(a) && Stored(b)
    ensures ScoreLess(a, b) <==> Less(a, b)
  {
    hide Less, MemTS, Score;
    LessTotal(a, b);
    if Less(a, b) {
      LessMeansNotLater(a, b);
      ScoreMonotone(MemTS(a), MemTS(b));
    } else if Less(b, a) {
      LessMeansNotLater(b, a);
      ScoreMonotone(MemTS(b), MemTS(a));
      LessAsymmetric(b, a);
    } else {
      LessIrreflexive(a);
    }
  }

  predicate InScoreWindow(ts: int64, lo: int64, hi: int64) {
    Score(lo) <= Score(ts) <= Score(hi)
  }

  /** Every window finds the timestamp exactly when it should. */
  ghost predicate FoundExactly(ts: int64) {
    forall lo: int64, hi: int64 :: InScoreWindow(ts, lo, hi) <==> lo <= ts <= hi
  }

  /** The score is shared with no other timestamp. */
  ghost predicate Alone(ts: int64) {
    forall t: int64 :: Score(t) == Score(ts) ==> t == ts
  }

  lemma AloneIsExact(ts: int64)
    requires Alone(ts)
    ensures FoundExactly(ts)
  {
    hide Score;
    forall lo: int64, hi: int64 ensures InScoreWindow(ts, lo, hi) <==> lo <= ts <= hi {
      if lo <= ts {
        ScoreMonotone(lo, ts);
      } else {
        ScoreMonotone(ts, lo);
      }
      if ts <= hi {
        ScoreMonotone(ts, hi);
      } else {
        ScoreMonotone(hi, ts);
      }
    }
  }

  lemma SharedIsInexact(ts: int64, t: int64)
    requires Score(t) == Score(ts) && t != ts
    ensures !FoundExactly(ts)
  {
    hide Score;
    assert InScoreWindow(ts, t, t);
  }

  /** The timestamps that no neighbour is rounded to: all below 2^53, and every other even one from there to 2^54. */
  predicate ExactTs(ts: int64) {
    0 <= ts < TWO53 || (TWO53 < ts < 2 * TWO53 && ts % 4 == 2)
  }

  lemma Units(t: nat)
    requires t < TWO53
    ensures Double(t) == t
  {
    hide Ulp;
    UlpSteps(t);
  }

  lemma Digits(q: nat, r: nat, u: nat)
    requires r < u
    ensures (q * u + r) / u == q && (q * u + r) % u == r
  {
    Quotient(q * u + r, u, q);
    Multiples(q + 1, (q * u + r) / u, u);
    assert (q + 1) * u == q * u + u;
  }

  /** With `h` half the distance: the remainder `r` behind the multiple `q` is rounded down. */
  predicate Down(q: nat, r: nat, h: nat) {
    r < h || (r == h && q % 2 == 0)
  }

  lemma RoundDigits(q: nat, r: nat, u: nat, h: nat)
    requires r < u == 2 * h
    ensures RoundTo(q * u + r, u) == (if Down(q, r, h) then q else q + 1) * u
  {
    Digits(q, r, u);
  }

  /** From 2^53 to 2^54 the double of an odd number is the neighbour divisible by four, and that of an even one is itself. */
  lemma HalfDigits(k: nat, m: nat)
    requires m < 4 && TWO53 <= 4 * k + m <= 2 * TWO53
    ensures Double(4 * k + m) == 4 * k + if m <= 1 then 0 else if m == 2 then 2 else 4
  {
    hide Ulp, RoundTo;
    var t := 4 * k + m;
    FirstRanges(t);
    if t < 2 * TWO53 {
      var q := if m < 2 then 2 * k else 2 * k + 1;
      var r := if m < 2 then m else m - 2;
      assert t == q * 2 + r;
      RoundDigits(q, r, 2, 1);
    } else {
      RoundDigits(k, 0, 4, 2);
    }
  }

  lemma Neighbours(ts: int64)
    requires 0 < ts < TWO63 - 1 && Double(ts - 1) < Double(ts) < Double(ts + 1)
    ensures Alone(ts)
  {
    hide Double;
    forall t: int64 | Score(t) == Score(ts) ensures t == ts {
      if t < ts {
        ScoreMonotone(t, ts - 1);
      } else if t > ts {
        ScoreMonotone(ts + 1, t);
      }
    }
  }

  /** Such a timestamp shares its score with no other. */
  lemma ExactAlone(ts: int64)
    requires ExactTs(ts)
    ensures Alone(ts)
  {
    hide Double, Alone;
    if ts == 0 {
      ZeroAlone();
    } else if ts < TWO53 {
      Units(ts - 1);
      Units(ts);
      if ts + 1 < TWO53 {
        Units(ts + 1);
      } else {
        HalfDigits((ts + 1) / 4, 0);
      }
      Neighbours(ts);
    } else {
      HalfDigits(ts / 4, 1);
      HalfDigits(ts / 4, 2);
      HalfDigits(ts / 4, 3);
      Neighbours(ts);
    }
  }

  lemma ZeroAlone()
    ensures Alone(0)
  {
    hide Double;
    Units(0);
    Units(1);
    forall t: int64 | Score(t) == Score(0) ensures t == 0 {
      if t > 0 {
        NatScoreMonotone(1, t);
      } else if t < 0 {
        NatScoreMonotone(1, -(t as int));
      }
    }
  }

  /** All numbers of one range have the same distance between doubles. */
  lemma {:induction false} UlpOfRange(t: nat, n: nat)
    requires Ulp(t) >= 2 && Ulp(t) * TWO52 <= n < Ulp(t) * TWO53
    ensures Ulp(n) == Ulp(t)
    decreases t
  {
    hide Ulp;
    UlpSteps(t);
    UlpSteps(n);
    UlpSteps(n / 2);
    if Ulp(t / 2) >= 2 {
      UlpOfRange(t / 2, n / 2);
    }
  }

  /** Two numbers between the same multiples have the same distance. */
  lemma UlpOfDigits(t: nat, q: nat, r: nat)
    requires t >= TWO53 && TWO52 <= q < TWO53 && r < Ulp(t)
    ensures Ulp(q * Ulp(t) + r) == Ulp(t)
  {
    hide Ulp;
    var u := Ulp(t);
    UlpSteps(t);
    Multiples(TWO52, q, u);
    Multiples(q + 1, TWO53, u);
    assert (q + 1) * u == q * u + u;
    UlpOfRange(t, q * u + r);
  }

  /** The digits of a number from 2^54 on, over the distance of its doubles. */
  lemma RangeDigits(t: nat) returns (u: nat, h: nat, q: nat, r: nat)
    requires t >= 2 * TWO53
    ensures u == 2 * h == Ulp(t) && (h == 2 || h % 4 == 0) && h > 0
    ensures t == q * u + r && r < u && TWO52 <= q < TWO53
  {
    hide Ulp;
    FirstRanges(t);
    UlpBounds(t);
    u := Ulp(t);
    h := u / 2;
    q, r := DigitsOf(t, u, TWO52, TWO53);
  }

  lemma DigitsOf(t: nat, u: nat, lo: nat, hi: nat) returns (q: nat, r: nat)
    requires u >= 1 && lo * u <= t < hi * u
    ensures t == q * u + r && r < u && lo <= q < hi
  {
    q, r := t / u, t % u;
    Quotient(t, u, lo);
    Quotient(t, u, hi);
  }

  /** Every number from 2^54 on shares its double with another. */
  lemma SharedAbove(ts: int64) returns (t: int64)
    requires ts >= 2 * TWO53
    ensures t != ts && t >= 0 && Double(t) == Double(ts)
  {
    hide Ulp, RoundTo, Down;
    var u, h, q, r := RangeDigits(ts);
    var q', r' := Sharer(q, r, h);
    InRange(q, r, q', r', u, h);
    t := q' * u + r';
    NotSame(q, r, q', r', u);
    UlpOfDigits(ts, q', r');
    RoundDigits(q, r, u, h);
    RoundDigits(q', r', u, h);
  }

  lemma NotSame(q: nat, r: nat, q': nat, r': nat, u: nat)
    requires (q' == q && r' != r) || (q' == q + 1 && r' == 0 && r < u)
    ensures q' * u + r' != q * u + r
  {
    assert (q + 1) * u == q * u + u;
  }

  /** Other digits that are rounded to the same multiple. */
  lemma Sharer(q: nat, r: nat, h: nat) returns (q': nat, r': nat)
    requires r < 2 * h && h > 0 && (h == 2 || h % 4 == 0) && TWO52 <= q < TWO53
    ensures r' < 2 * h && TWO52 <= q' < TWO53 && ((q' == q && r' != r) || (q' == q + 1 && r' == 0 && h == 2))
    ensures (if Down(q', r', h) then q' else q' + 1) == if Down(q, r, h) then q else q + 1
    ensures q' == q ==> r' < r || (r' == r + 1 && (r == 0 || r == h || (h % 4 == 0 && r == h + 1)))
  {
    q' := q;
    if r == 0 {
      r' := 1;
    } else if Down(q, r, h) {
      r' := 0;
    } else if !Down(q, r - 1, h) {
      r' := r - 1;
    } else if h == 2 && r == 3 {
      q', r' := q + 1, 0;
    } else {
      r' := r + 1;
    }
  }

  /** The other number is an int64 as well. */
  lemma InRange(q: nat, r: nat, q': nat, r': nat, u: nat, h: nat)
    requires r < u == 2 * h && (h == 2 || h % 4 == 0) && q < TWO53 && q * u + r < TWO63
    requires (q' == q && (r' < r || (r' == r + 1 && (r == 0 || r == h || (h % 4 == 0 && r == h + 1)))))
             || (q' == q + 1 && r' == 0 && h == 2)
    ensures q' * u + r' < TWO63
  {
    if q' == q {
      var e := h / 2;
      assert u == 4 * e;
      FourTimes(q, e);
    }
  }

  lemma FourTimes(q: nat, e: nat)
    ensures q * (4 * e) == 4 * (q * e)
  {
  }

  /** In the range below, all but the even ones between the multiples of four share theirs. */
  lemma SharedHalf(k: nat, m: nat) returns (n: nat)
    requires m < 4 && m != 2 && TWO53 <= 4 * k + m <= 2 * TWO53
    ensures n != 4 * k + m && n <= 2 * TWO53 && Double(n) == Double(4 * k + m)
  {
    hide Double;
    HalfDigits(k, m);
    if m == 1 {
      n := 4 * k + 0;
      HalfDigits(k, 0);
    } else if m == 3 {
      n := 4 * (k + 1) + 0;
      HalfDigits(k + 1, 0);
    } else if 4 * k == 2 * TWO53 {
      n := 4 * (k - 1) + 3;
      HalfDigits(k - 1, 3);
    } else {
      n := 4 * k + 1;
      HalfDigits(k, 1);
    }
  }

  lemma SharedWith(ts: int64) returns (t: int64)
    requires ts >= 0 && !ExactTs(ts)
    ensures t != ts && t >= 0 && Double(t) == Double(ts)
  {
    hide Double;
    if ts > 2 * TWO53 {
      t := SharedAbove(ts);
    } else {
      t := SharedHalf(ts / 4, ts % 4);
    }
  }

  /** Windows find a timestamp exactly if and only if it is below 2^53, or below 2^54 and leaves remainder two when divided
      by four. Every other one shares its double with a timestamp next to it, 2^53 itself included. */
  lemma WindowExact(ts: int64)
    requires ts >= 0
    ensures FoundExactly(ts) <==> ExactTs(ts)
  {
    hide Double, FoundExactly, Alone;
    if ExactTs(ts) {
      ExactAlone(ts);
      AloneIsExact(ts);
    } else {
      var t := SharedWith(ts);
      SharedIsInexact(ts, t);
    }
  }

  // Commands that read.

  /** ZRANGEBYSCORE key lo hi: the members whose scores are in the window, in order. */
  function RangeByScore(z: seq<bytes>, lo: int64, hi: int64): (w: seq<bytes>)
    requires AllStored(z) || AllEncoded(z)
    ensures (AllStored(z) ==> AllStored(w)) && (AllEncoded(z) ==> AllEncoded(w))
  {
    if z == [] then [] else
      var w := RangeByScore(z[..|z| - 1], lo, hi);
      var m := z[|z| - 1];
      if InScoreWindow(MemTS(m), lo, hi) then w + [m] else w
  }

  ghost predicate AllExact(z: seq<bytes>)
    requires AllStored(z)
  {
    forall i | 0 <= i < |z| :: ExactTs(MemTS(z[i]))
  }

  lemma {:induction false} RangeByScoreIsWindow(z: seq<bytes>, lo: int64, hi: int64)
    requires AllStored(z) && AllExact(z)
    ensures RangeByScore(z, lo, hi) == Window(z, lo, hi)
    decreases |z|
  {
    hide MemTS, InScoreWindow, Score, Alone, ExactTs;
    if z != [] {
      RangeByScoreIsWindow(z[..|z| - 1], lo, hi);
      var ts := MemTS(z[|z| - 1]);
      ExactAlone(ts);
      AloneIsExact(ts);
    }
  }

  function PageByScore(z: seq<bytes>, to: int64, limit: nat, pos: Cursors.Position): Page
    requires (AllStored(z) || AllEncoded(z)) && limit >= 1
  {
    BuildPage(Fetched(RangeByScore(z, pos.ts, to), pos.skip, limit), limit, pos)
  }

  /** Range of the Redis store: ZRANGEBYSCORE key curTs to LIMIT curSkip limit+1, cut into a page. */
  function Range(z: seq<bytes>, from: int64, to: int64, limit: nat, cur: bytes): Option<Page>
    requires (AllStored(z) || AllEncoded(z)) && limit >= 1
  {
    var pos := Walks.PositionOf(from, cur);
    if pos.None? then None else Some(PageByScore(z, to, limit, pos.value))
  }

  /** From one and the same state both stores answer every range query alike, page and cursor, as long as every timestamp is
      one that windows find exactly. A walk reads its pages from different states, and those of Redis need not grow as
      those of one process do. */
  lemma StoresAgree(z: seq<bytes>, from: int64, to: int64, limit: nat, cur: bytes)
    requires AllStored(z) && AllExact(z) && limit >= 1
    ensures Range(z, from, to, limit, cur) == Walks.Range(z, from, to, limit, cur)
  {
    hide AllExact, AllStored, RangeByScore, Window, Fetched, BuildPage, Cursors.Decode;
    var pos := Walks.PositionOf(from, cur);
    if pos.Some? {
      RangeByScoreIsWindow(z, pos.value.ts, to);
    }
  }

  /** Index arguments count from the end when negative. */
  function FromEnd(n: nat, i: int): int {
    if i < 0 then n + i else i
  }

  /** ZREVRANGE key start stop. */
  function RevRange(z: seq<bytes>, start: int, stop: int): seq<bytes> {
    var n := |z|;
    var i := if FromEnd(n, start) < 0 then 0 else FromEnd(n, start);
    var j := if FromEnd(n, stop) >= n then n - 1 else FromEnd(n, stop);
    if i > j || i >= n then [] else seq(j - i + 1, k requires 0 <= k < j - i + 1 => z[n - 1 - (i + k)])
  }

  /** Recent(n): the newest n, newest first. It holds exactly when n is at least one or there is nothing to return: for
      n = 0 the command asks for rank 0 to rank -1, which is everything. */
  lemma RecentIsNewest(z: seq<bytes>, n: nat)
    ensures RevRange(z, 0, n - 1) == Reversed(Last(n, z)) <==> n >= 1 || z == []
    ensures n == 0 ==> RevRange(z, 0, n - 1) == Reversed(z)
  {
  }

  // Commands that write.

  /** ZREMRANGEBYRANK key start stop. */
  function RemRangeByRank(z: seq<bytes>, start: int, stop: int): seq<bytes> {
    var n := |z|;
    var i := if FromEnd(n, start) < 0 then 0 else FromEnd(n, start);
    var j := if FromEnd(n, stop) >= n then n - 1 else FromEnd(n, stop);
    if i > j || i >= n then z else z[..i] + z[j + 1..]
  }

  /** The trim command keeps exactly the newest `cap`. */
  lemma TrimKeepsNewest(cap: nat, z: seq<bytes>)
    ensures RemRangeByRank(z, 0, -(cap + 1)) == Last(cap, z)
  {
  }

  /** ZADD of one member: a member already there stays where it is. */
  function ZAdd(z: seq<bytes>, m: bytes): seq<bytes> {
    if m in z then z else Insert(z, m)
  }

  function ZAddAll(z: seq<bytes>, ms: seq<bytes>): seq<bytes>
    decreases |ms|
  {
    if ms == [] then z else ZAddAll(ZAdd(z, ms[0]), ms[1..])
  }

  lemma ZAddStrict(z: seq<bytes>, m: bytes)
    requires StrictlySorted(z)
    ensures StrictlySorted(ZAdd(z, m)) && |ZAdd(z, m)| <= |z| + 1
    ensures forall x :: x in ZAdd(z, m) <==> x in z || x == m
  {
    hide Insert, Less, StrictlySorted;
    if m !in z {
      InsertStrict(z, m);
      forall x ensures x in Insert(z, m) <==> x in z || x == m {
        Walks.InsertedIn(z, m, x);
      }
    }
  }

  /** ZADD keeps the set sorted, holds what was there and what was added, and grows by no more than the batch. */
  lemma {:induction false} ZAddAllStrict(z: seq<bytes>, ms: seq<bytes>)
    requires StrictlySorted(z)
    ensures StrictlySorted(ZAddAll(z, ms)) && |ZAddAll(z, ms)| <= |z| + |ms|
    ensures forall x :: x in ZAddAll(z, ms) <==> x in z || x in ms
    decreases |ms|
  {
    hide ZAdd, StrictlySorted;
    if ms != [] {
      ZAddStrict(z, ms[0]);
      ZAddAllStrict(ZAdd(z, ms[0]), ms[1..]);
      assert ms == [ms[0]] + ms[1..];
    }
  }

  lemma {:induction false} ZAddAllAppend(z: seq<bytes>, ms: seq<bytes>, more: seq<bytes>)
    ensures ZAddAll(z, ms + more) == ZAddAll(ZAddAll(z, ms), more)
    decreases |ms|
  {
    hide ZAdd;
    if ms == [] {
      assert ms + more == more;
    } else {
      assert (ms + more)[1..] == ms[1..] + more;
      ZAddAllAppend(ZAdd(z, ms[0]), ms[1..], more);
    }
  }

  /** Members that are new one after the other are simply inserted. */
  lemma {:induction false} ZAddAllDistinct(z: seq<bytes>, ms: seq<bytes>)
    requires Distinct(ms) && forall x | x in ms :: x !in z
    ensures ZAddAll(z, ms) == InsertAll(z, ms)
    decreases |ms|
  {
    hide Insert;
    if ms != [] {
      var next := Insert(z, ms[0]);
      forall x | x in ms[1..] ensures x !in next {
        Walks.InsertedIn(z, ms[0], x);
        var j :| 0 <= j < |ms[1..]| && ms[1..][j] == x;
        assert ms[0] != ms[j + 1];
        assert x in ms;
      }
      ZAddAllDistinct(next, ms[1..]);
    }
  }

  lemma LastZAdd(c: nat, z: seq<bytes>, m: bytes)
    requires StrictlySorted(z)
    ensures Last(c, ZAdd(z, m)) == Last(c, ZAdd(Last(c, z), m))
  {
    hide Less, StrictlySorted, Insert;
    StrictIsSorted(z);
    var t := Last(c, z);
    if m in z && m !in t {
      EvictedGoesInFront(c, z, m);
      assert |t| == c;
    } else if m in z {
      LastLast(c, c, z);
    } else {
      LastInsert(c, z, m);
    }
  }

  lemma InLast(c: nat, z: seq<bytes>, i: nat)
    requires |z| - |Last(c, z)| <= i < |z|
    ensures z[i] in Last(c, z)
  {
    assert Last(c, z)[i - (|z| - |Last(c, z)|)] == z[i];
  }

  lemma EvictedGoesInFront(c: nat, z: seq<bytes>, m: bytes)
    requires StrictlySorted(z) && m in z && m !in Last(c, z)
    ensures |Last(c, z)| == c && Insert(Last(c, z), m) == [m] + Last(c, z)
  {
    hide Less;
    var t := Last(c, z);
    var i: nat :| i < |z| && z[i] == m;
    if i >= |z| - |t| {
      InLast(c, z, i);
      assert false;
    }
    if t != [] {
      assert Less(z[i], z[|z| - |t|]);
      LessAsymmetric(m, t[0]);
    }
  }

  /** Trimming at any earlier time makes no difference to the newest `c`, even if an evicted member is added again. */
  lemma {:induction false} LastZAddAll(c: nat, z: seq<bytes>, ms: seq<bytes>)
    requires StrictlySorted(z)
    ensures Last(c, ZAddAll(Last(c, z), ms)) == Last(c, ZAddAll(z, ms))
    decreases |ms|
  {
    hide ZAdd, Last, Less;
    LastStrict(c, z);
    if ms == [] {
      LastLast(c, c, z);
    } else {
      hide StrictlySorted;
      ZAddStrict(z, ms[0]);
      ZAddStrict(Last(c, z), ms[0]);
      LastZAdd(c, z, ms[0]);
      LastZAddAll(c, ZAdd(z, ms[0]), ms[1..]);
      LastZAddAll(c, ZAdd(Last(c, z), ms[0]), ms[1..]);
    }
  }

  lemma LastStrict(c: nat, z: seq<bytes>)
    requires StrictlySorted(z)
    ensures StrictlySorted(Last(c, z))
  {
    hide Less;
  }

  // The server: commands of any number of instances, one at a time, in any order.

  /** A command, with the instance that sent it. */
  datatype Cmd = Add(inst: nat, id: string, members: seq<bytes>) | Trim(inst: nat, id: string)

  function Exec(cap: nat, cs: seq<Cmd>): map<string, seq<bytes>> {
    if cs == [] then map[] else
      var db := Exec(cap, cs[..|cs| - 1]);
      match cs[|cs| - 1]
      case Add(_, id, ms) => db[id := ZAddAll(Get(db, id), ms)]
      case Trim(_, id) => db[id := RemRangeByRank(Get(db, id), 0, -(cap + 1))]
  }

  /** Everything ever added to a device, in the order of arrival. */
  function Added(cs: seq<Cmd>, id: string): seq<bytes> {
    if cs == [] then [] else
      var front := Added(cs[..|cs| - 1], id);
      var c := cs[|cs| - 1];
      if c.Add? && c.id == id then front + c.members else front
  }

  /** The set the device would hold had nothing ever been trimmed. */
  function Full(cs: seq<Cmd>, id: string): seq<bytes> {
    ZAddAll([], Added(cs, id))
  }

  lemma FullStrict(cs: seq<Cmd>, id: string)
    ensures StrictlySorted(Full(cs, id)) && forall x :: x in Full(cs, id) <==> x in Added(cs, id)
  {
    ZAddAllStrict([], Added(cs, id));
  }

  lemma {:induction false} ExecStrict(cap: nat, cs: seq<Cmd>, id: string)
    ensures StrictlySorted(Get(Exec(cap, cs), id))
    decreases |cs|
  {
    hide ZAddAll, RemRangeByRank, StrictlySorted;
    if cs == [] {
      EmptyStrict();
    } else {
      var front := cs[..|cs| - 1];
      var c := cs[|cs| - 1];
      ExecStrict(cap, front, id);
      var z := Get(Exec(cap, front), id);
      if c.id == id {
        if c.Add? {
          ZAddAllStrict(z, c.members);
        } else {
          TrimKeepsNewest(cap, z);
          LastStrict(cap, z);
        }
      }
    }
  }

  lemma EmptyStrict()
    ensures StrictlySorted([])
  {
  }

  /** Lazy trimming is invisible: after any commands of any instances, in any order and with any of them lost, a device
      holds the newest `cap` of everything ever added to it, and nothing that was not added. */
  lemma {:induction false} KeepsNewest(cap: nat, cs: seq<Cmd>, id: string)
    ensures var z := Get(Exec(cap, cs), id);
            && Last(cap, z) == Last(cap, Full(cs, id))
            && forall x | x in z :: x in Added(cs, id)
    decreases |cs|
  {
    hide ZAddAll, RemRangeByRank, Last, StrictlySorted;
    if cs == [] {
      FullOfNone(id);
    } else {
      var front := cs[..|cs| - 1];
      var c := cs[|cs| - 1];
      KeepsNewest(cap, front, id);
      var z := Get(Exec(cap, front), id);
      var f := Full(front, id);
      ExecStrict(cap, front, id);
      FullStrict(front, id);
      if c.id == id {
        if c.Add? {
          ZAddAllStrict(z, c.members);
          ZAddAllAppend([], Added(front, id), c.members);
          LastZAddAll(cap, z, c.members);
          LastZAddAll(cap, f, c.members);
        } else {
          TrimKeepsNewest(cap, z);
          LastLast(cap, cap, z);
          LastIn(cap, z);
        }
      }
    }
  }

  lemma FullOfNone(id: string)
    ensures Full([], id) == []
  {
  }

  lemma LastIn(c: nat, z: seq<bytes>)
    ensures forall x | x in Last(c, z) :: x in z
  {
  }

  /** Recent(n) for 1 <= n <= cap answers with the n newest of the full history, newest first, whenever it is asked. */
  lemma RecentSeesHistory(cap: nat, cs: seq<Cmd>, id: string, n: nat)
    requires 1 <= n <= cap
    ensures RevRange(Get(Exec(cap, cs), id), 0, n - 1) == Reversed(Last(n, Full(cs, id)))
    ensures IsNewest(n, Full(cs, id), Last(n, Full(cs, id)))
  {
    hide Exec, Full, RevRange, Reversed, IsNewest, StrictlySorted, Last;
    var z := Get(Exec(cap, cs), id);
    KeepsNewest(cap, cs, id);
    RecentIsNewest(z, n);
    LastLast(cap, n, z);
    LastLast(cap, n, Full(cs, id));
    FullStrict(cs, id);
    NewestOfSorted(n, Full(cs, id), Full(cs, id));
  }

  /** How many members were added to a device since a trim last landed on it. */
  function SinceTrim(cs: seq<Cmd>, id: string): nat {
    if cs == [] then 0 else
      var c := cs[|cs| - 1];
      if c.id != id then SinceTrim(cs[..|cs| - 1], id)
      else if c.Trim? then 0
      else SinceTrim(cs[..|cs| - 1], id) + |c.members|
  }

  /** The size of a device, for any traffic: never more than `cap` plus what was added since the last trim. */
  lemma {:induction false} SizeSinceTrim(cap: nat, cs: seq<Cmd>, id: string)
    ensures |Get(Exec(cap, cs), id)| <= cap + SinceTrim(cs, id)
    decreases |cs|
  {
    hide ZAddAll, RemRangeByRank;
    if cs != [] {
      var front := cs[..|cs| - 1];
      var c := cs[|cs| - 1];
      SizeSinceTrim(cap, front, id);
      if c.id == id {
        if c.Add? {
          ExecStrict(cap, front, id);
          ZAddAllStrict(Get(Exec(cap, front), id), c.members);
        } else {
          TrimKeepsNewest(cap, Get(Exec(cap, front), id));
        }
      }
    }
  }
}
