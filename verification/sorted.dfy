/** Sorted lists of members: insertion, the newest few, and why capping early loses nothing. Both stores are built on
    these (internal/store/mem.go, and the sorted set behind internal/store/redis.go). */
module SortedMembers {
  import opened Bytes
  import opened Codec

  /** The members kept for a device, none when it has never been written. */
  function Get(dev: map<string, seq<bytes>>, id: string): seq<bytes> {
    if id in dev then dev[id] else []
  }

  function Reversed<T>(s: seq<T>): (r: seq<T>)
    ensures |r| == |s|
  {
    seq(|s|, k requires 0 <= k < |s| => s[|s| - 1 - k])
  }

  /** Ascending in byte order. */
  ghost predicate Sorted(ms: seq<bytes>) {
    forall i, j | 0 <= i < j < |ms| :: !Less(ms[j], ms[i])
  }

  ghost predicate StrictlySorted(ms: seq<bytes>) {
    forall i, j | 0 <= i < j < |ms| :: Less(ms[i], ms[j])
  }

  lemma LessAsymmetric(a: bytes, b: bytes)
    requires Less(a, b)
    ensures !Less(b, a) && a != b
  {
    LessIrreflexive(a);
    if Less(b, a) {
      LessTransitive(a, b, a);
    }
  }

  lemma StrictIsSorted(ms: seq<bytes>)
    requires StrictlySorted(ms)
    ensures Sorted(ms)
  {
    forall i, j | 0 <= i < j < |ms| ensures !Less(ms[j], ms[i]) {
      LessAsymmetric(ms[i], ms[j]);
    }
  }

  /** The first index whose member is not less than `x`. */
  function Position(ms: seq<bytes>, x: bytes): (k: nat)
    ensures k <= |ms|
    ensures forall i | 0 <= i < k :: Less(ms[i], x)
    ensures k < |ms| ==> !Less(ms[k], x)
  {
    if ms == [] || !Less(ms[0], x) then 0 else 1 + Position(ms[1..], x)
  }

  lemma BehindPosition(ms: seq<bytes>, x: bytes, i: nat)
    requires Sorted(ms) && Position(ms, x) <= i < |ms|
    ensures !Less(ms[i], x)
  {
    var k := Position(ms, x);
    if k < i && Less(ms[i], x) {
      LessTotal(ms[k], ms[i]);
      if ms[k] != ms[i] {
        LessTransitive(ms[k], ms[i], x);
      }
    }
  }

  function Insert(ms: seq<bytes>, x: bytes): (r: seq<bytes>)
    ensures |r| == |ms| + 1
  {
    var k := Position(ms, x);
    ms[..k] + [x] + ms[k..]
  }

  function InsertAll(ms: seq<bytes>, xs: seq<bytes>): (r: seq<bytes>)
    ensures |r| == |ms| + |xs|
    decreases |xs|
  {
    if xs == [] then ms else InsertAll(Insert(ms, xs[0]), xs[1..])
  }

  /** The last `c` members, all of them when there are no more. */
  function Last(c: nat, ms: seq<bytes>): (r: seq<bytes>)
    ensures |r| == if |ms| <= c then |ms| else c
    ensures forall i | 0 <= i < |r| :: r[i] == ms[|ms| - |r| + i]
  {
    if |ms| <= c then ms else ms[|ms| - c..]
  }

  lemma InsertSorted(ms: seq<bytes>, x: bytes)
    requires Sorted(ms)
    ensures Sorted(Insert(ms, x))
  {
    var k := Position(ms, x);
    var r := Insert(ms, x);
    forall i, j | 0 <= i < j < |r| ensures !Less(r[j], r[i]) {
      if j == k {
        LessAsymmetric(ms[i], x);
      } else if i == k {
        BehindPosition(ms, x, j - 1);
      }
    }
  }

  lemma InsertStrict(ms: seq<bytes>, x: bytes)
    requires StrictlySorted(ms) && x !in ms
    ensures StrictlySorted(Insert(ms, x))
  {
    var k := Position(ms, x);
    var r := Insert(ms, x);
    StrictIsSorted(ms);
    forall i, j | 0 <= i < j < |r| ensures Less(r[i], r[j]) {
      if i == k {
        BehindPosition(ms, x, j - 1);
        LessTotal(ms[j - 1], x);
      }
    }
  }

  lemma InsertMultiset(ms: seq<bytes>, x: bytes)
    ensures multiset(Insert(ms, x)) == multiset(ms) + multiset{x}
  {
    var k := Position(ms, x);
    assert ms == ms[..k] + ms[k..];
  }

  lemma {:induction false} InsertAllSorted(ms: seq<bytes>, xs: seq<bytes>)
    requires Sorted(ms)
    ensures Sorted(InsertAll(ms, xs))
    decreases |xs|
  {
    if xs != [] {
      InsertSorted(ms, xs[0]);
      InsertAllSorted(Insert(ms, xs[0]), xs[1..]);
    }
  }

  /** Nothing is lost and nothing added: the result is a permutation of the inputs. */
  lemma {:induction false} InsertAllMultiset(ms: seq<bytes>, xs: seq<bytes>)
    ensures multiset(InsertAll(ms, xs)) == multiset(ms) + multiset(xs)
    decreases |xs|
  {
    if xs != [] {
      InsertMultiset(ms, xs[0]);
      InsertAllMultiset(Insert(ms, xs[0]), xs[1..]);
      assert xs == [xs[0]] + xs[1..];
    }
  }

  ghost predicate Distinct(xs: seq<bytes>) {
    forall i, j | 0 <= i < j < |xs| :: xs[i] != xs[j]
  }

  lemma {:induction false} InsertAllStrict(ms: seq<bytes>, xs: seq<bytes>)
    requires StrictlySorted(ms) && Distinct(xs) && forall x | x in xs :: x !in ms
    ensures StrictlySorted(InsertAll(ms, xs))
    decreases |xs|
  {
    if xs != [] {
      var next := Insert(ms, xs[0]);
      InsertStrict(ms, xs[0]);
      forall x | x in xs[1..] ensures x !in next {
        var j :| 0 <= j < |xs[1..]| && xs[1..][j] == x;
        assert xs[0] != xs[j + 1];
        InsertMultiset(ms, xs[0]);
        assert x in xs && x !in multiset(ms);
        assert multiset(next)[x] == multiset(ms)[x] + multiset{xs[0]}[x] == 0;
      }
      InsertAllStrict(next, xs[1..]);
    }
  }

  lemma {:induction false} InsertAllAppend(ms: seq<bytes>, xs: seq<bytes>, ys: seq<bytes>)
    ensures InsertAll(ms, xs + ys) == InsertAll(InsertAll(ms, xs), ys)
    decreases |xs|
  {
    if xs == [] {
      assert xs + ys == ys;
    } else {
      assert (xs + ys)[1..] == xs[1..] + ys;
      InsertAllAppend(Insert(ms, xs[0]), xs[1..], ys);
    }
  }

  lemma PositionUnique(ms: seq<bytes>, x: bytes, k: nat)
    requires Sorted(ms) && k <= |ms| && (forall i | 0 <= i < k :: Less(ms[i], x)) && (k < |ms| ==> !Less(ms[k], x))
    ensures Position(ms, x) == k
  {
  }

  /** The tail from `d` on decides by itself where in it a newcomer goes, and whether it goes in front. */
  lemma PositionInTail(ms: seq<bytes>, d: nat, x: bytes)
    requires Sorted(ms) && d <= |ms|
    ensures var k := Position(ms, x); Position(ms[d..], x) == if k >= d then k - d else 0
  {
    var t := ms[d..];
    var k := Position(ms, x);
    forall i | 0 <= i < |t| ensures t[i] == ms[d + i] {}
    if k < d && t != [] {
      BehindPosition(ms, x, d);
    }
    forall i | 0 <= i < k - d ensures Less(t[i], x) {}
    hide Less;
    PositionUnique(t, x, if k >= d then k - d else 0);
  }

  /** Inserting into the newest `c` and capping again is inserting into everything and capping once. */
  lemma LastInsert(c: nat, ms: seq<bytes>, x: bytes)
    requires Sorted(ms)
    ensures Last(c, Insert(ms, x)) == Last(c, Insert(Last(c, ms), x))
  {
    hide Position, Less, Sorted, Insert;
    if |ms| > c {
      var d := |ms| - c;
      PositionInTail(ms, d, x);
      if Position(ms, x) >= d {
        InsertBehind(ms, d, x);
        assert Insert(ms, x)[d..][1..] == Insert(ms, x)[d + 1..];
      } else {
        InsertBefore(ms, d, x);
        assert ([x] + ms[d..])[1..] == ms[d..];
      }
    }
  }

  lemma InsertBehind(ms: seq<bytes>, d: nat, x: bytes)
    requires d <= Position(ms, x) && Position(ms[d..], x) == Position(ms, x) - d
    ensures d <= |ms| && Insert(ms[d..], x) == Insert(ms, x)[d..]
  {
    hide Position;
  }

  lemma InsertBefore(ms: seq<bytes>, d: nat, x: bytes)
    requires Position(ms, x) < d <= |ms| && Position(ms[d..], x) == 0
    ensures Insert(ms[d..], x) == [x] + ms[d..] && Insert(ms, x)[d + 1..] == ms[d..]
  {
    hide Position;
  }

  lemma LastSorted(c: nat, ms: seq<bytes>)
    requires Sorted(ms)
    ensures Sorted(Last(c, ms))
  {
  }

  lemma LastLast(c: nat, n: nat, ms: seq<bytes>)
    requires n <= c
    ensures Last(n, Last(c, ms)) == Last(n, ms)
  {
  }

  /** The same for any number of insertions: capping at any earlier time makes no difference to the newest `c`. */
  lemma {:induction false} LastInsertAll(c: nat, ms: seq<bytes>, xs: seq<bytes>)
    requires Sorted(ms)
    ensures Last(c, InsertAll(Last(c, ms), xs)) == Last(c, InsertAll(ms, xs))
    decreases |xs|
  {
    hide Insert, Last;
    if xs == [] {
      LastLast(c, c, ms);
    } else {
      var x := xs[0];
      var capped := Insert(Last(c, ms), x);
      LastSorted(c, ms);
      InsertSorted(ms, x);
      InsertSorted(Last(c, ms), x);
      LastInsert(c, ms, x);
      LastInsertAll(c, Insert(ms, x), xs[1..]);
      LastInsertAll(c, capped, xs[1..]);
    }
  }

  /** `r` is exactly the newest `c` of the members `h`: in ascending order, from `h`, as many as there can be, and
      behind every member that was left out. */
  ghost predicate IsNewest(c: nat, h: seq<bytes>, r: seq<bytes>) {
    && StrictlySorted(r)
    && |r| == (if |h| <= c then |h| else c)
    && multiset(r) <= multiset(h)
    && forall x, y | x in h && x !in r && y in r :: Less(x, y)
  }

  lemma SameBag(h: seq<bytes>, s: seq<bytes>)
    requires multiset(s) == multiset(h)
    ensures |s| == |h| && forall x | x in h :: x in s
  {
    assert |multiset(s)| == |s| && |multiset(h)| == |h|;
    forall x | x in h ensures x in s {
      assert x in multiset(h);
    }
  }

  lemma TailBag(s: seq<bytes>, d: nat)
    requires d <= |s|
    ensures multiset(s[d..]) <= multiset(s)
  {
    assert s == s[..d] + s[d..];
  }

  lemma NewestOfSorted(c: nat, h: seq<bytes>, s: seq<bytes>)
    requires StrictlySorted(s) && multiset(s) == multiset(h)
    ensures IsNewest(c, h, Last(c, s))
  {
    hide Less;
    var r := Last(c, s);
    var d := |s| - |r|;
    SameBag(h, s);
    assert r == s[d..];
    TailBag(s, d);
    forall x, y | x in h && x !in r && y in r ensures Less(x, y) {
      OlderIsLess(s, d, r, x, y);
    }
  }

  lemma OlderIsLess(s: seq<bytes>, d: nat, r: seq<bytes>, x: bytes, y: bytes)
    requires StrictlySorted(s) && d <= |s| && r == s[d..] && x in s && x !in r && y in r
    ensures Less(x, y)
  {
    hide Less;
    var i: nat :| i < |s| && s[i] == x;
    var j: nat :| j < |r| && r[j] == y;
    if i >= d {
      InTail(s, d, i);
      assert false;
    }
    assert s[d + j] == y;
  }

  lemma InTail(s: seq<bytes>, d: nat, i: nat)
    requires d <= i < |s|
    ensures s[i] in s[d..]
  {
    assert s[d..][i - d] == s[i];
  }

  lemma NewestIncluded(c: nat, h: seq<bytes>, r: seq<bytes>, t: seq<bytes>)
    requires Distinct(h) && IsNewest(c, h, r) && IsNewest(c, h, t)
    ensures forall x | x in r :: x in t
  {
    hide Less;
    forall x | x in r ensures x in t {
      if x !in t {
        assert x in multiset(r) && x in h;
        // Every member of t is above x, so none of them was left out of r; then r holds t and x.
        forall y | y in t ensures y in r {
          assert y in multiset(t) && y in h;
          if y !in r {
            assert Less(x, y) && Less(y, x);
            LessAsymmetric(x, y);
          }
        }
        MoreElements(t, r, x);
      }
    }
  }

  /** Being the newest `c` determines the list. */
  lemma NewestUnique(c: nat, h: seq<bytes>, r: seq<bytes>, t: seq<bytes>)
    requires Distinct(h) && IsNewest(c, h, r) && IsNewest(c, h, t)
    ensures r == t
  {
    NewestIncluded(c, h, r, t);
    NewestIncluded(c, h, t, r);
    SameElements(r, t);
  }

  /** A strictly ascending list is determined by its elements. */
  lemma {:induction false} SameElements(s: seq<bytes>, t: seq<bytes>)
    requires StrictlySorted(s) && StrictlySorted(t) && forall x :: x in s <==> x in t
    ensures s == t
    decreases |s|
  {
    hide Less;
    BothEmpty(s, t);
    if s != [] {
      var a, b := s[|s| - 1], t[|t| - 1];
      assert a in t && b in s;
      NotAboveLast(s, b);
      NotAboveLast(t, a);
      LessTotal(a, b);
      var s', t' := s[..|s| - 1], t[..|t| - 1];
      forall x | x in s' ensures x in t' {
        InFront(s, x);
        InFront(t, x);
      }
      forall x | x in t' ensures x in s' {
        InFront(s, x);
        InFront(t, x);
      }
      SameElements(s', t');
      assert s == s[..|s| - 1] + [a] && t == t[..|t| - 1] + [b];
    }
  }

  lemma BothEmpty(s: seq<bytes>, t: seq<bytes>)
    requires forall x :: x in s <==> x in t
    ensures s == [] <==> t == []
  {
    if s != [] {
      assert s[0] in s;
    }
    if t != [] {
      assert t[0] in t;
    }
  }

  lemma NotAboveLast(s: seq<bytes>, x: bytes)
    requires StrictlySorted(s) && x in s
    ensures !Less(s[|s| - 1], x)
  {
    var i :| 0 <= i < |s| && s[i] == x;
    if i < |s| - 1 {
      LessAsymmetric(s[i], s[|s| - 1]);
    } else {
      LessIrreflexive(x);
    }
  }

  lemma InFront(s: seq<bytes>, x: bytes)
    requires StrictlySorted(s) && s != []
    ensures x in s[..|s| - 1] <==> x in s && x != s[|s| - 1]
  {
    var f := s[..|s| - 1];
    if x in f {
      var i :| 0 <= i < |f| && f[i] == x;
      assert Less(s[i], s[|s| - 1]);
      LessIrreflexive(x);
    }
    assert s == f + [s[|s| - 1]];
  }

  lemma {:induction false} StrictCount(s: seq<bytes>)
    requires StrictlySorted(s)
    ensures |set x | x in s| == |s|
    decreases |s|
  {
    if s != [] {
      var last := s[|s| - 1];
      var rest := s[..|s| - 1];
      StrictCount(rest);
      assert last !in rest by {
        if last in rest {
          var i :| 0 <= i < |rest| && rest[i] == last;
          assert Less(s[i], s[|s| - 1]);
          LessIrreflexive(last);
        }
      }
      assert s == rest + [last];
      assert (set x | x in s) == (set x | x in rest) + {last};
    }
  }

  lemma MoreElements(t: seq<bytes>, r: seq<bytes>, x: bytes)
    requires StrictlySorted(t) && StrictlySorted(r) && x in r && x !in t && forall y | y in t :: y in r
    ensures |t| < |r|
  {
    StrictCount(t);
    StrictCount(r);
    var a := set y | y in t;
    var b := set y | y in r;
    assert a + {x} <= b;
    Subset(a + {x}, b);
  }

  lemma {:induction false} Subset(a: set<bytes>, b: set<bytes>)
    requires a <= b
    ensures |a| <= |b|
    decreases |b|
  {
    if a != {} {
      var x :| x in a;
      Subset(a - {x}, b - {x});
    }
  }
}
