/** Scanning one JSON number. `ScanNumber` is what the index loops of the scanner compute, as a function that also
    names the parts it passed; the lemmas place it exactly inside the number grammar of RFC 8259, section 6. */
module NumberScan {
  import opened Bytes
  import opened Json

  datatype Scan = Scan(n: Number, end: nat)

  /** The first index at or after `i` that holds no digit. */
  function DigitEnd(b: bytes, i: nat): (j: nat)
    ensures i <= j && (i <= |b| ==> j <= |b|)
    ensures forall k | i <= k < j :: k < |b| && IsDigit(b[k])
    ensures j < |b| ==> !IsDigit(b[j])
    decreases |b| - i
  {
    if i < |b| && IsDigit(b[i]) then DigitEnd(b, i + 1) else i
  }

  function ScanFraction(b: bytes, i: nat): (r: Option<(Option<bytes>, nat)>)
    ensures r.Some? ==> i <= r.value.1 && (i <= |b| ==> r.value.1 <= |b|)
  {
    if i < |b| && b[i] == DOT then
      if i + 1 < |b| && IsDigit(b[i + 1]) then
        var j := DigitEnd(b, i + 1);
        Some((Some(b[i + 1..j]), j))
      else None
    else Some((None, i))
  }

  function ScanExponent(b: bytes, i: nat): (r: Option<(Option<Exponent>, nat)>)
    ensures r.Some? ==> i <= r.value.1 && (i <= |b| ==> r.value.1 <= |b|)
  {
    if i < |b| && (b[i] == LOWER_E || b[i] == UPPER_E) then
      var sign: bytes := if i + 1 < |b| && (b[i + 1] == PLUS || b[i + 1] == MINUS) then [b[i + 1]] else [];
      var k := i + 1 + |sign|;
      if k < |b| && IsDigit(b[k]) then
        var j := DigitEnd(b, k);
        Some((Some(Exponent(b[i], sign, b[k..j])), j))
      else None
    else Some((None, i))
  }

  /** The integer part: one zero standing alone, or a run of digits. */
  function ScanWhole(b: bytes, i: nat): (r: Option<(bytes, nat)>)
    ensures r.Some? ==> i < r.value.1 <= |b| && r.value.0 == b[i..r.value.1] && AllDigits(r.value.0)
  {
    if i >= |b| || !IsDigit(b[i]) then None else
      var j := if b[i] == ZERO then i + 1 else DigitEnd(b, i);
      Some((b[i..j], j))
  }

  function ScanNumber(b: bytes, start: nat): (r: Option<Scan>)
    ensures r.Some? ==> start < r.value.end <= |b|
  {
    var minus := start < |b| && b[start] == MINUS;
    var w := ScanWhole(b, if minus then start + 1 else start);
    if w.None? then None else
      var f := ScanFraction(b, w.value.1);
      if f.None? then None else
        var x := ScanExponent(b, f.value.1);
        if x.None? then None else
          Some(Scan(Number(minus, w.value.0, f.value.0, x.value.0), x.value.1))
  }

  /** No byte of a number can follow: the text ends, or the next byte starts no further part. */
  predicate NumberEnds(b: bytes, j: nat) {
    j >= |b| || (!IsDigit(b[j]) && b[j] != DOT && b[j] != LOWER_E && b[j] != UPPER_E)
  }

  lemma {:induction false} DigitsAt(b: bytes, i: nat, ds: bytes)
    requires At(b, i, ds) && AllDigits(ds)
    ensures DigitEnd(b, i) >= i + |ds|
    ensures (i + |ds| >= |b| || !IsDigit(b[i + |ds|])) ==> DigitEnd(b, i) == i + |ds| && b[i..i + |ds|] == ds
    decreases |ds|
  {
    if ds != [] {
      AtByte(b, i, ds, 0);
      AtSplit(b, i, [ds[0]], ds[1..]);
      assert [ds[0]] + ds[1..] == ds;
      assert IsDigit(ds[0]);
      DigitsAt(b, i + 1, ds[1..]);
    }
  }

  lemma DigitsOfRun(b: bytes, i: nat)
    requires i <= |b|
    ensures AllDigits(b[i..DigitEnd(b, i)])
  {
  }

  lemma FractionSound(b: bytes, i: nat)
    requires i <= |b| && ScanFraction(b, i).Some?
    ensures var (f, j) := ScanFraction(b, i).value; At(b, i, FracText(f)) && j == i + |FracText(f)|
    ensures var f := ScanFraction(b, i).value.0; f.Some? ==> f.value != [] && AllDigits(f.value)
  {
    var (f, j) := ScanFraction(b, i).value;
    if f.Some? {
      DigitsOfRun(b, i + 1);
    }
    assert b[i..j] == FracText(f);
  }

  lemma ExponentSound(b: bytes, i: nat)
    requires i <= |b| && ScanExponent(b, i).Some?
    ensures var (x, j) := ScanExponent(b, i).value; At(b, i, ExpText(x)) && j == i + |ExpText(x)|
    ensures var x := ScanExponent(b, i).value.0; x.Some? ==> ValidExponent(x.value)
  {
    var (x, j) := ScanExponent(b, i).value;
    if x.Some? {
      var k := i + 1 + |x.value.sign|;
      DigitsOfRun(b, k);
      hide DigitEnd, AllDigits;
      assert b[i..j] == [b[i]] + (x.value.sign + x.value.digits);
    }
  }

  lemma WholeSound(b: bytes, i: nat)
    requires ScanWhole(b, i).Some?
    ensures var (w, j) := ScanWhole(b, i).value;
            At(b, i, w) && j == i + |w| && w != [] && AllDigits(w) && (w[0] == ZERO ==> |w| == 1)
  {
  }

  lemma SignAt(b: bytes, i: nat)
    requires i < |b|
    ensures At(b, i, SignText(b[i] == MINUS))
  {
  }

  /** The four parts of a number, each next to the one before, make up its text. */
  lemma JoinParts(b: bytes, i: nat, n: Number)
    requires var w := i + |SignText(n.minus)|; var f := w + |n.whole|; var x := f + |FracText(n.frac)|;
             At(b, i, SignText(n.minus)) && At(b, w, n.whole) && At(b, f, FracText(n.frac)) && At(b, x, ExpText(n.exp))
    ensures At(b, i, NumText(n))
  {
    hide At;
    var w := i + |SignText(n.minus)|;
    var rest := FracText(n.frac) + ExpText(n.exp);
    AtSplit(b, w + |n.whole|, FracText(n.frac), ExpText(n.exp));
    AtSplit(b, w, n.whole, rest);
    AtSplit(b, i, SignText(n.minus), n.whole + rest);
  }

  /** Soundness: whatever is accepted is a section 6 number, byte for byte. */
  lemma ScanSound(b: bytes, start: nat)
    requires ScanNumber(b, start).Some?
    ensures var s := ScanNumber(b, start).value;
            ValidNumber(s.n) && At(b, start, NumText(s.n)) && s.end == start + |NumText(s.n)|
  {
    hide At, ScanFraction, ScanExponent, AllDigits, FracText, ExpText, IsDigit;
    var s := ScanNumber(b, start).value;
    var i := if b[start] == MINUS then start + 1 else start;
    WholeSound(b, i);
    var j := ScanWhole(b, i).value.1;
    FractionSound(b, j);
    ExponentSound(b, ScanFraction(b, j).value.1);
    assert At(b, start, SignText(s.n.minus)) by { SignAt(b, start); }
    JoinParts(b, start, s.n);
  }

  lemma FractionAt(b: bytes, i: nat, f: Option<bytes>)
    requires At(b, i, FracText(f)) && (f.Some? ==> f.value != [] && AllDigits(f.value))
    requires f.None? ==> i >= |b| || b[i] != DOT
    ensures ScanFraction(b, i).Some? ==> ScanFraction(b, i).value.1 >= i + |FracText(f)|
    ensures var e := i + |FracText(f)|; (f.Some? ==> e >= |b| || !IsDigit(b[e])) ==> ScanFraction(b, i) == Some((f, e))
  {
    if f.Some? {
      AtSplit(b, i, [DOT], f.value);
      AtByte(b, i, [DOT], 0);
      AtByte(b, i + 1, f.value, 0);
      DigitsAt(b, i + 1, f.value);
    }
  }

  lemma ExponentDigitsAt(b: bytes, i: nat, x: Exponent)
    requires ValidExponent(x) && i < |b| && b[i] == x.e
    requires x.sign == [] || (i + 1 < |b| && [b[i + 1]] == x.sign)
    requires var k := i + 1 + |x.sign|; At(b, k, x.digits) && k < |b| && IsDigit(b[k])
    ensures var k := i + 1 + |x.sign|; var e := k + |x.digits|;
            && ScanExponent(b, i).Some? && ScanExponent(b, i).value.1 >= e
            && ((e >= |b| || !IsDigit(b[e])) ==> ScanExponent(b, i) == Some((Some(x), e)))
  {
    DigitsAt(b, i + 1 + |x.sign|, x.digits);
    hide At, AllDigits, DigitEnd;
  }

  lemma ExponentParts(b: bytes, i: nat, x: Exponent)
    requires At(b, i, ExpText(Some(x))) && ValidExponent(x)
    ensures var k := i + 1 + |x.sign|;
            && i < |b| && b[i] == x.e && |ExpText(Some(x))| == 1 + |x.sign| + |x.digits|
            && (x.sign == [] || (i + 1 < |b| && [b[i + 1]] == x.sign))
            && At(b, k, x.digits) && k < |b| && b[k] == x.digits[0]
  {
    hide At, AllDigits;
    AtSplit(b, i, [x.e], x.sign + x.digits);
    AtSplit(b, i + 1, x.sign, x.digits);
    AtByte(b, i, [x.e], 0);
    if x.sign != [] {
      AtByte(b, i + 1, x.sign, 0);
    }
    AtByte(b, i + 1 + |x.sign|, x.digits, 0);
  }

  lemma FirstDigit(x: Exponent)
    requires ValidExponent(x)
    ensures IsDigit(x.digits[0])
  {
  }

  lemma SomeExponentAt(b: bytes, i: nat, x: Exponent)
    requires At(b, i, ExpText(Some(x))) && ValidExponent(x)
    ensures var e := i + |ExpText(Some(x))|;
            && ScanExponent(b, i).Some? && ScanExponent(b, i).value.1 >= e
            && ((e >= |b| || !IsDigit(b[e])) ==> ScanExponent(b, i) == Some((Some(x), e)))
  {
    hide At, ScanExponent, AllDigits, ExpText, IsDigit, ValidExponent;
    FirstDigit(x);
    ExponentParts(b, i, x);
    ExponentDigitsAt(b, i, x);
  }

  lemma ExponentAt(b: bytes, i: nat, x: Option<Exponent>)
    requires At(b, i, ExpText(x)) && (x.Some? ==> ValidExponent(x.value))
    requires x.None? ==> i >= |b| || (b[i] != LOWER_E && b[i] != UPPER_E)
    ensures ScanExponent(b, i).Some? ==> ScanExponent(b, i).value.1 >= i + |ExpText(x)|
    ensures var e := i + |ExpText(x)|; (x.Some? ==> e >= |b| || !IsDigit(b[e])) ==> ScanExponent(b, i) == Some((x, e))
  {
    if x.Some? {
      hide At, ScanExponent, AllDigits, ExpText, IsDigit, ValidExponent;
      SomeExponentAt(b, i, x.value);
    }
  }

  lemma WholeAt(b: bytes, i: nat, w: bytes)
    requires At(b, i, w) && w != [] && AllDigits(w) && (w[0] == ZERO ==> |w| == 1)
    ensures ScanWhole(b, i).Some? && ScanWhole(b, i).value.1 >= i + |w|
    ensures (i + |w| >= |b| || !IsDigit(b[i + |w|])) ==> ScanWhole(b, i) == Some((w, i + |w|))
  {
    AtByte(b, i, w, 0);
    assert IsDigit(w[0]);
    DigitsAt(b, i, w);
  }

  /** The parts of a number text, each where the scanner looks for it. */
  lemma NumberParts(b: bytes, i: nat, n: Number)
    requires ValidNumber(n) && At(b, i, NumText(n))
    ensures var w := i + |SignText(n.minus)|; var f := w + |n.whole|; var x := f + |FracText(n.frac)|;
            && At(b, w, n.whole) && At(b, f, FracText(n.frac)) && At(b, x, ExpText(n.exp))
            && i < |b| && (b[i] == MINUS <==> n.minus)
            && w < |b| && IsDigit(b[w]) && (b[w] == ZERO <==> n.whole == [ZERO])
            && x + |ExpText(n.exp)| == i + |NumText(n)|
  {
    hide At;
    var rest := FracText(n.frac) + ExpText(n.exp);
    AtSplit(b, i, SignText(n.minus), n.whole + rest);
    var w := i + |SignText(n.minus)|;
    AtSplit(b, w, n.whole, rest);
    AtSplit(b, w + |n.whole|, FracText(n.frac), ExpText(n.exp));
    AtByte(b, w, n.whole, 0);
    assert IsDigit(n.whole[0]);
    if n.minus {
      AtByte(b, i, [MINUS], 0);
    }
  }

  /** What stands behind the fraction, and behind the integer part. */
  lemma BeforeExponent(b: bytes, x: nat, exp: Option<Exponent>)
    requires At(b, x, ExpText(exp)) && NumberEnds(b, x + |ExpText(exp)|) && (exp.Some? ==> ValidExponent(exp.value))
    ensures x >= |b| || (!IsDigit(b[x]) && b[x] != DOT)
    ensures exp.None? ==> x >= |b| || (b[x] != LOWER_E && b[x] != UPPER_E)
  {
    if exp.Some? {
      AtByte(b, x, ExpText(exp), 0);
    }
  }

  lemma BeforeFraction(b: bytes, f: nat, frac: Option<bytes>)
    requires At(b, f, FracText(frac))
    requires var x := f + |FracText(frac)|; x >= |b| || (!IsDigit(b[x]) && b[x] != DOT)
    ensures f >= |b| || !IsDigit(b[f])
    ensures frac.None? ==> f >= |b| || b[f] != DOT
  {
    if frac.Some? {
      AtByte(b, f, FracText(frac), 0);
    }
  }

  /** Completeness: a section 6 number that nothing extends is accepted whole, and its parts are recovered. */
  lemma ScanComplete(b: bytes, i: nat, n: Number)
    requires ValidNumber(n) && At(b, i, NumText(n)) && NumberEnds(b, i + |NumText(n)|)
    ensures ScanNumber(b, i) == Some(Scan(n, i + |NumText(n)|))
  {
    hide At, NumText, ScanWhole, ScanFraction, ScanExponent, FracText, ExpText, AllDigits, IsDigit;
    NumberParts(b, i, n);
    var w := i + |SignText(n.minus)|;
    var f := w + |n.whole|;
    var x := f + |FracText(n.frac)|;
    BeforeExponent(b, x, n.exp);
    BeforeFraction(b, f, n.frac);
    WholeAt(b, w, n.whole);
    FractionAt(b, f, n.frac);
    ExponentAt(b, x, n.exp);
  }

  lemma PartFirst(b: bytes, f: nat, frac: Option<bytes>, x: nat, exp: Option<Exponent>)
    requires At(b, f, FracText(frac)) && At(b, x, ExpText(exp)) && (exp.Some? ==> ValidExponent(exp.value))
    ensures frac.Some? ==> f < |b| && b[f] == DOT
    ensures exp.Some? ==> x < |b| && (b[x] == LOWER_E || b[x] == UPPER_E)
  {
    if frac.Some? {
      AtByte(b, f, FracText(frac), 0);
    }
    if exp.Some? {
      AtByte(b, x, ExpText(exp), 0);
    }
  }

  lemma ScanStops(b: bytes, i: nat)
    requires ScanNumber(b, i).Some?
    ensures var w := if b[i] == MINUS then i + 1 else i; var f := ScanWhole(b, w); 
            && f.Some? && ScanFraction(b, f.value.1).Some?
            && var x := ScanFraction(b, f.value.1).value.1;
               ScanExponent(b, x).Some? && ScanNumber(b, i).value.end == ScanExponent(b, x).value.1
               && f.value.1 <= x <= ScanExponent(b, x).value.1
  {
    hide ScanWhole, ScanFraction, ScanExponent;
  }

  /** Maximal munch: an accepted literal is never a proper prefix of another number at the same place. */
  lemma ScanMaximal(b: bytes, i: nat, n: Number)
    requires ValidNumber(n) && At(b, i, NumText(n)) && ScanNumber(b, i).Some?
    ensures ScanNumber(b, i).value.end >= i + |NumText(n)|
  {
    hide At, NumText, ScanNumber, ScanWhole, ScanFraction, ScanExponent, FracText, ExpText, AllDigits;
    NumberParts(b, i, n);
    ScanStops(b, i);
    var w := i + |SignText(n.minus)|;
    var f := w + |n.whole|;
    var x := f + |FracText(n.frac)|;
    PartFirst(b, f, n.frac, x, n.exp);
    WholeAt(b, w, n.whole);
    NoText(n);
    if n.frac.Some? {
      FractionAt(b, f, n.frac);
      if n.exp.Some? {
        ExponentAt(b, x, n.exp);
      }
    } else if n.exp.Some? {
      FractionAt(b, f, n.frac);
      ExponentAt(b, x, n.exp);
    }
  }

  lemma NoText(n: Number)
    ensures n.frac.None? ==> FracText(n.frac) == []
    ensures n.exp.None? ==> ExpText(n.exp) == []
  {
  }

  /** Scans a number with an index that only moves forward; returns the literal and the index past it. */
  method ScanNumberLiteral(b: bytes, start: nat) returns (lit: bytes, end: nat, ok: bool)
    ensures ok <==> ScanNumber(b, start).Some?
    ensures ok ==> end == ScanNumber(b, start).value.end && lit == b[start..end]
    ensures !ok ==> end == start && lit == []
  {
    var i := start;
    if i < |b| && b[i] == MINUS {
      i := i + 1;
    }
    if i >= |b| || !IsDigit(b[i]) {
      return [], start, false;
    }
    if b[i] == ZERO {
      i := i + 1;
    } else {
      i := PassDigits(b, i);
    }
    ok, i := PassFraction(b, i);
    if !ok {
      return [], start, false;
    }
    ok, i := PassExponent(b, i);
    if !ok {
      return [], start, false;
    }
    return b[start..i], i, true;
  }

  method PassFraction(b: bytes, start: nat) returns (ok: bool, i: nat)
    ensures ok <==> ScanFraction(b, start).Some?
    ensures ok ==> i == ScanFraction(b, start).value.1
  {
    i := start;
    if i < |b| && b[i] == DOT {
      i := i + 1;
      if i >= |b| || !IsDigit(b[i]) {
        return false, i;
      }
      i := PassDigits(b, i);
    }
    return true, i;
  }

  method PassExponent(b: bytes, start: nat) returns (ok: bool, i: nat)
    ensures ok <==> ScanExponent(b, start).Some?
    ensures ok ==> i == ScanExponent(b, start).value.1
  {
    i := start;
    if i < |b| && (b[i] == LOWER_E || b[i] == UPPER_E) {
      i := i + 1;
      if i < |b| && (b[i] == PLUS || b[i] == MINUS) {
        i := i + 1;
      }
      if i >= |b| || !IsDigit(b[i]) {
        return false, i;
      }
      i := PassDigits(b, i);
    }
    return true, i;
  }

  method PassDigits(b: bytes, start: nat) returns (i: nat)
    ensures i == DigitEnd(b, start)
  {
    i := start;
    while i < |b| && IsDigit(b[i])
      invariant DigitEnd(b, i) == DigitEnd(b, start)
    {
      i := i + 1;
    }
  }
}
