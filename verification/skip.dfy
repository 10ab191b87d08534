/** Skipping JSON values (internal/model/fastjson.go, skipWS to consumeLiteral). The index functions are the
    specification of the loops below them; the theorems say that on any value of the grammar the scanner stops
    exactly at its end, although a container is skipped by counting one kind of bracket only. */
module SkipScan {
  import opened Bytes
  import opened Json
  import opened NumberScan

  function SkipWS(b: bytes, i: nat): (j: nat)
    ensures i <= j && (i <= |b| ==> j <= |b|)
    ensures j < |b| ==> !IsSpace(b[j])
    decreases |b| - i
  {
    if i < |b| && IsSpace(b[i]) then SkipWS(b, i + 1) else i
  }

  /** From behind an opening quote to behind the closing one; a backslash passes over the byte after it. */
  function StringEnd(b: bytes, i: nat): (r: Option<nat>)
    ensures r.Some? ==> i < r.value <= |b| && b[r.value - 1] == QUOTE
    decreases |b| - i
  {
    if i >= |b| then None
    else if b[i] == BACKSLASH then StringEnd(b, i + 2)
    else if b[i] == QUOTE then Some(i + 1)
    else StringEnd(b, i + 1)
  }

  /** Skips while counting `open` and `close` outside strings, until the depth returns to zero. */
  function ContainerEnd(b: bytes, i: nat, depth: int, open: byte, close: byte): (r: Option<nat>)
    ensures r.Some? ==> i < r.value <= |b| && b[r.value - 1] == close
    decreases |b| - i
  {
    if i >= |b| then None
    else if b[i] == QUOTE then
      var q := StringEnd(b, i + 1);
      if q.None? then None else ContainerEnd(b, q.value, depth, open, close)
    else if b[i] == open then ContainerEnd(b, i + 1, depth + 1, open, close)
    else if b[i] == close then
      if depth == 1 then Some(i + 1) else ContainerEnd(b, i + 1, depth - 1, open, close)
    else ContainerEnd(b, i + 1, depth, open, close)
  }

  function LiteralEnd(b: bytes, i: nat, lit: bytes): Option<nat> {
    if i + |lit| <= |b| && b[i..i + |lit|] == lit then Some(i + |lit|) else None
  }

  function NumberEnd(b: bytes, i: nat): Option<nat> {
    var s := ScanNumber(b, i);
    if s.Some? then Some(s.value.end) else None
  }

  function ValueEnd(b: bytes, i: nat): (r: Option<nat>)
    ensures r.Some? ==> i < r.value <= |b|
  {
    if i >= |b| then None
    else if b[i] == QUOTE then StringEnd(b, i + 1)
    else if b[i] == LBRACE then ContainerEnd(b, i, 0, LBRACE, RBRACE)
    else if b[i] == LBRACKET then ContainerEnd(b, i, 0, LBRACKET, RBRACKET)
    else if b[i] == TRUE_TEXT[0] then LiteralEnd(b, i, TRUE_TEXT)
    else if b[i] == FALSE_TEXT[0] then LiteralEnd(b, i, FALSE_TEXT)
    else if b[i] == NULL_TEXT[0] then LiteralEnd(b, i, NULL_TEXT)
    else NumberEnd(b, i)
  }

  // The loops of the scanner.

  method PassSpace(b: bytes, start: nat) returns (i: nat)
    ensures i == SkipWS(b, start)
  {
    i := start;
    while i < |b| && IsSpace(b[i])
      invariant SkipWS(b, i) == SkipWS(b, start)
    {
      i := i + 1;
    }
  }

  method PassString(b: bytes, start: nat) returns (i: nat, ok: bool)
    ensures ok <==> StringEnd(b, start + 1).Some?
    ensures ok ==> i == StringEnd(b, start + 1).value
  {
    i := start + 1;
    while i < |b|
      invariant StringEnd(b, i) == StringEnd(b, start + 1)
      decreases |b| - i
    {
      if b[i] == BACKSLASH {
        i := i + 2;
      } else if b[i] == QUOTE {
        return i + 1, true;
      } else {
        i := i + 1;
      }
    }
    return i, false;
  }

  method PassContainer(b: bytes, start: nat, open: byte, close: byte) returns (i: nat, ok: bool)
    requires open != QUOTE && close != QUOTE && open != close
    ensures ok <==> ContainerEnd(b, start, 0, open, close).Some?
    ensures ok ==> i == ContainerEnd(b, start, 0, open, close).value
  {
    var depth := 0;
    i := start;
    while i < |b|
      invariant ContainerEnd(b, i, depth, open, close) == ContainerEnd(b, start, 0, open, close)
      decreases |b| - i
    {
      if b[i] == QUOTE {
        var ni, closed := PassString(b, i);
        if !closed {
          return i, false;
        }
        i := ni;
        continue;
      } else if b[i] == open {
        depth := depth + 1;
      } else if b[i] == close {
        depth := depth - 1;
        if depth == 0 {
          return i + 1, true;
        }
      }
      i := i + 1;
    }
    return i, false;
  }

  method PassLiteral(b: bytes, i: nat, lit: bytes) returns (ni: nat, ok: bool)
    ensures ok <==> LiteralEnd(b, i, lit).Some?
    ensures ok ==> ni == LiteralEnd(b, i, lit).value
    ensures !ok ==> ni == i
  {
    if i + |lit| <= |b| && b[i..i + |lit|] == lit {
      return i + |lit|, true;
    }
    return i, false;
  }

  method PassValue(b: bytes, i: nat) returns (ni: nat, ok: bool)
    ensures ok <==> ValueEnd(b, i).Some?
    ensures ok ==> ni == ValueEnd(b, i).value
  {
    if i >= |b| {
      return i, false;
    } else if b[i] == QUOTE {
      ni, ok := PassString(b, i);
    } else if b[i] == LBRACE {
      ni, ok := PassContainer(b, i, LBRACE, RBRACE);
    } else if b[i] == LBRACKET {
      ni, ok := PassContainer(b, i, LBRACKET, RBRACKET);
    } else if b[i] == TRUE_TEXT[0] {
      ni, ok := PassLiteral(b, i, TRUE_TEXT);
    } else if b[i] == FALSE_TEXT[0] {
      ni, ok := PassLiteral(b, i, FALSE_TEXT);
    } else if b[i] == NULL_TEXT[0] {
      ni, ok := PassLiteral(b, i, NULL_TEXT);
    } else {
      var lit;
      lit, ni, ok := ScanNumberLiteral(b, i);
    }
  }

  // Exactness on the grammar.

  lemma {:induction false} SkipWSAt(b: bytes, i: nat, ws: bytes)
    requires At(b, i, ws) && IsWS(ws)
    ensures i + |ws| >= |b| || !IsSpace(b[i + |ws|]) ==> SkipWS(b, i) == i + |ws|
    decreases |ws|
  {
    if ws != [] {
      AtByte(b, i, ws, 0);
      assert IsSpace(ws[0]);
      assert [ws[0]] + ws[1..] == ws;
      AtSplit(b, i, [ws[0]], ws[1..]);
      SkipWSAt(b, i + 1, ws[1..]);
    }
  }

  lemma UnitAt(b: bytes, i: nat, u: CharUnit)
    requires At(b, i, UnitText(u)) && ValidUnit(u)
    ensures StringEnd(b, i) == StringEnd(b, i + |UnitText(u)|)
  {
    var t := UnitText(u);
    AtByte(b, i, t, 0);
    match u {
      case Plain(c) =>
      case Escaped(c) =>
      case Unicode(h0, h1, h2, h3) =>
        AtByte(b, i, t, 2);
        AtByte(b, i, t, 3);
        AtByte(b, i, t, 4);
        AtByte(b, i, t, 5);
        assert StringEnd(b, i + 2) == StringEnd(b, i + 3) == StringEnd(b, i + 4) == StringEnd(b, i + 5);
    }
  }

  lemma {:induction false} CharsAt(b: bytes, i: nat, s: seq<CharUnit>)
    requires At(b, i, CharsText(s)) && ValidString(s)
    ensures StringEnd(b, i) == StringEnd(b, i + |CharsText(s)|)
    decreases |s|
  {
    hide At, UnitText;
    if s != [] {
      AtSplit(b, i, UnitText(s[0]), CharsText(s[1..]));
      UnitAt(b, i, s[0]);
      CharsAt(b, i + |UnitText(s[0])|, s[1..]);
    }
  }

  /** A string of the grammar is left exactly behind its closing quote. */
  lemma StringAt(b: bytes, i: nat, s: seq<CharUnit>)
    requires At(b, i, StringText(s)) && ValidString(s)
    ensures i < |b| && b[i] == QUOTE
    ensures StringEnd(b, i + 1) == Some(i + |StringText(s)|)
    ensures b[i + 1..i + |StringText(s)| - 1] == CharsText(s)
  {
    hide At, CharsText, ValidString, StringEnd;
    var n := |CharsText(s)|;
    AtSplit(b, i, [QUOTE], CharsText(s) + [QUOTE]);
    AtSplit(b, i + 1, CharsText(s), [QUOTE]);
    AtByte(b, i, [QUOTE], 0);
    AtByte(b, i + 1 + n, [QUOTE], 0);
    AtSlice(b, i + 1, CharsText(s));
    CharsAt(b, i + 1, s);
    ClosingQuote(b, i + 1 + n);
  }

  lemma ClosingQuote(b: bytes, j: nat)
    requires j < |b| && b[j] == QUOTE
    ensures StringEnd(b, j) == Some(j + 1)
  {
  }

  ghost predicate IsPair(open: byte, close: byte) {
    (open == LBRACE && close == RBRACE) || (open == LBRACKET && close == RBRACKET)
  }

  ghost predicate Inert(c: byte) {
    c != QUOTE && c != LBRACE && c != RBRACE && c != LBRACKET && c != RBRACKET
  }

  ghost predicate AllInert(t: bytes) {
    forall k | 0 <= k < |t| :: Inert(t[k])
  }

  /** Inside a container of depth `d` the text `t` leaves the count as it found it. */
  ghost predicate Neutral(b: bytes, i: nat, t: bytes, d: int, open: byte, close: byte) {
    ContainerEnd(b, i, d, open, close) == ContainerEnd(b, i + |t|, d, open, close)
  }

  lemma {:induction false} InertAt(b: bytes, i: nat, t: bytes, d: int, open: byte, close: byte)
    requires At(b, i, t) && AllInert(t) && IsPair(open, close)
    ensures Neutral(b, i, t, d, open, close)
    decreases |t|
  {
    if t != [] {
      AtByte(b, i, t, 0);
      assert Inert(t[0]);
      assert [t[0]] + t[1..] == t;
      AtSplit(b, i, [t[0]], t[1..]);
      InertAt(b, i + 1, t[1..], d, open, close);
    }
  }

  lemma NumberInert(n: Number)
    requires ValidNumber(n)
    ensures AllInert(NumText(n))
  {
    forall c: byte | IsDigit(c) ensures Inert(c) {}
    assert AllInert(SignText(n.minus)) && AllInert(n.whole);
    assert AllInert(FracText(n.frac));
    if n.exp.Some? {
      var x := n.exp.value;
      assert AllInert(x.sign + x.digits);
    }
    assert AllInert(ExpText(n.exp));
  }

  lemma SpaceInert(ws: bytes)
    requires IsWS(ws)
    ensures AllInert(ws)
  {
    forall c: byte | IsSpace(c) ensures Inert(c) {}
  }

  lemma {:induction false} StringNeutral(b: bytes, i: nat, s: seq<CharUnit>, d: int, open: byte, close: byte)
    requires At(b, i, StringText(s)) && ValidString(s)
    ensures Neutral(b, i, StringText(s), d, open, close)
  {
    StringAt(b, i, s);
  }

  /** Brackets around `inner`, whichever kind is being counted. */
  lemma BracketsNeutral(b: bytes, i: nat, o: byte, inner: bytes, c: byte, d: int, open: byte, close: byte)
    requires IsPair(o, c) && IsPair(open, close) && d >= 1
    requires At(b, i, [o] + (inner + [c]))
    requires o == open ==> Neutral(b, i + 1, inner, d + 1, open, close)
    requires o != open ==> Neutral(b, i + 1, inner, d, open, close)
    ensures Neutral(b, i, [o] + (inner + [c]), d, open, close)
  {
    AtSplit(b, i, [o], inner + [c]);
    AtSplit(b, i + 1, inner, [c]);
    AtByte(b, i, [o], 0);
    AtByte(b, i + 1 + |inner|, [c], 0);
  }

  /** The heart of value skipping: below depth one, no value of the grammar changes the depth, whichever single
      kind of bracket is counted, and none brings it to zero. */
  lemma {:induction false} ValueNeutral(b: bytes, i: nat, v: Value, d: int, open: byte, close: byte)
    requires At(b, i, Text(v)) && ValidValue(v) && IsPair(open, close) && d >= 1
    ensures Neutral(b, i, Text(v), d, open, close)
    decreases v
  {
    hide At, ContainerEnd, NumText, StringText, ElementsText, MembersText;
    match v {
      case Null => InertAt(b, i, NULL_TEXT, d, open, close);
      case True => InertAt(b, i, TRUE_TEXT, d, open, close);
      case False => InertAt(b, i, FALSE_TEXT, d, open, close);
      case Num(n) =>
        NumberInert(n);
        InertAt(b, i, NumText(n), d, open, close);
      case Str(s) => StringNeutral(b, i, s, d, open, close);
      case EmptyArr(ws) => BracketsAround(b, i, LBRACKET, ws, RBRACKET);
        SpaceInert(ws);
        InertAt(b, i + 1, ws, if open == LBRACKET then d + 1 else d, open, close);
        BracketsNeutral(b, i, LBRACKET, ws, RBRACKET, d, open, close);
      case Arr(es) => BracketsAround(b, i, LBRACKET, ElementsText(es), RBRACKET);
        ElementsNeutral(b, i + 1, es, if open == LBRACKET then d + 1 else d, open, close);
        BracketsNeutral(b, i, LBRACKET, ElementsText(es), RBRACKET, d, open, close);
      case EmptyObj(ws) => BracketsAround(b, i, LBRACE, ws, RBRACE);
        SpaceInert(ws);
        InertAt(b, i + 1, ws, if open == LBRACE then d + 1 else d, open, close);
        BracketsNeutral(b, i, LBRACE, ws, RBRACE, d, open, close);
      case Obj(ms) => BracketsAround(b, i, LBRACE, MembersText(ms), RBRACE);
        MembersNeutral(b, i + 1, ms, if open == LBRACE then d + 1 else d, open, close);
        BracketsNeutral(b, i, LBRACE, MembersText(ms), RBRACE, d, open, close);
    }
  }

  lemma BracketsAround(b: bytes, i: nat, o: byte, inner: bytes, c: byte)
    requires At(b, i, [o] + (inner + [c]))
    ensures At(b, i + 1, inner) && i < |b| && b[i] == o && i + 1 + |inner| < |b| && b[i + 1 + |inner|] == c
  {
    AtSplit(b, i, [o], inner + [c]);
    AtSplit(b, i + 1, inner, [c]);
    AtByte(b, i, [o], 0);
    AtByte(b, i + 1 + |inner|, [c], 0);
  }

  lemma ByteNeutral(b: bytes, i: nat, c: byte, d: int, open: byte, close: byte)
    requires At(b, i, [c]) && Inert(c) && IsPair(open, close)
    ensures Neutral(b, i, [c], d, open, close)
  {
    InertAt(b, i, [c], d, open, close);
  }

  lemma {:induction false} ElementsNeutral(b: bytes, i: nat, es: Elements, d: int, open: byte, close: byte)
    requires At(b, i, ElementsText(es)) && ValidElements(es) && IsPair(open, close) && d >= 1
    ensures Neutral(b, i, ElementsText(es), d, open, close)
    decreases es
  {
    hide At, ContainerEnd, Text;
    var more := if es.MoreElements? then [COMMA] + ElementsText(es.rest) else [];
    AtSplit(b, i, es.pre, Text(es.v) + (es.post + more));
    var i1 := i + |es.pre|;
    AtSplit(b, i1, Text(es.v), es.post + more);
    var i2 := i1 + |Text(es.v)|;
    AtSplit(b, i2, es.post, more);
    var i3 := i2 + |es.post|;
    SpaceInert(es.pre);
    SpaceInert(es.post);
    InertAt(b, i, es.pre, d, open, close);
    ValueNeutral(b, i1, es.v, d, open, close);
    InertAt(b, i2, es.post, d, open, close);
    if es.MoreElements? {
      AtSplit(b, i3, [COMMA], ElementsText(es.rest));
      ByteNeutral(b, i3, COMMA, d, open, close);
      ElementsNeutral(b, i3 + 1, es.rest, d, open, close);
    }
  }

  lemma MemberHeadNeutral(b: bytes, i: nat, ms: Members, d: int, open: byte, close: byte)
    requires At(b, i, MemberHead(ms)) && ValidMembers(ms) && IsPair(open, close)
    ensures Neutral(b, i, MemberHead(ms), d, open, close)
  {
    hide At, ContainerEnd, StringText;
    AtSplit(b, i, ms.pre, StringText(ms.key) + (ms.mid + ([COLON] + ms.post)));
    var i1 := i + |ms.pre|;
    AtSplit(b, i1, StringText(ms.key), ms.mid + ([COLON] + ms.post));
    var i2 := i1 + |StringText(ms.key)|;
    SpaceInert(ms.pre);
    SpaceInert(ms.mid);
    SpaceInert(ms.post);
    InertAt(b, i, ms.pre, d, open, close);
    StringNeutral(b, i1, ms.key, d, open, close);
    InertAt(b, i2, ms.mid + ([COLON] + ms.post), d, open, close);
  }

  lemma {:induction false} MembersNeutral(b: bytes, i: nat, ms: Members, d: int, open: byte, close: byte)
    requires At(b, i, MembersText(ms)) && ValidMembers(ms) && IsPair(open, close) && d >= 1
    ensures Neutral(b, i, MembersText(ms), d, open, close)
    decreases ms
  {
    hide At, ContainerEnd, Text, MemberHead;
    var more := if ms.MoreMembers? then [COMMA] + MembersText(ms.rest) else [];
    AtSplit(b, i, MemberHead(ms), Text(ms.v) + (ms.tail + more));
    var i1 := i + |MemberHead(ms)|;
    AtSplit(b, i1, Text(ms.v), ms.tail + more);
    var i2 := i1 + |Text(ms.v)|;
    AtSplit(b, i2, ms.tail, more);
    var i3 := i2 + |ms.tail|;
    MemberHeadNeutral(b, i, ms, d, open, close);
    ValueNeutral(b, i1, ms.v, d, open, close);
    SpaceInert(ms.tail);
    InertAt(b, i2, ms.tail, d, open, close);
    if ms.MoreMembers? {
      AtSplit(b, i3, [COMMA], MembersText(ms.rest));
      ByteNeutral(b, i3, COMMA, d, open, close);
      MembersNeutral(b, i3 + 1, ms.rest, d, open, close);
    }
  }

  /** A container is left exactly behind its matching close. */
  lemma ContainerAt(b: bytes, i: nat, o: byte, inner: bytes, c: byte)
    requires IsPair(o, c) && At(b, i, [o] + (inner + [c])) && Neutral(b, i + 1, inner, 1, o, c)
    ensures ContainerEnd(b, i, 0, o, c) == Some(i + |inner| + 2)
  {
    BracketsAround(b, i, o, inner, c);
  }

  /** Value skipping is exact: any value of the grammar, embedded anywhere, is left exactly at its end
      (a number needs a byte behind it that cannot belong to a number). */
  lemma SkipValueExact(b: bytes, i: nat, v: Value)
    requires At(b, i, Text(v)) && ValidValue(v)
    requires v.Num? ==> NumberEnds(b, i + |Text(v)|)
    ensures ValueEnd(b, i) == Some(i + |Text(v)|)
  {
    hide ContainerEnd, NumText, StringText, ElementsText, MembersText;
    FirstByte(v);
    AtByte(b, i, Text(v), 0);
    match v {
      case Null =>
      case True =>
      case False =>
      case Num(n) => ScanComplete(b, i, n);
      case Str(s) => StringAt(b, i, s);
      case EmptyArr(ws) =>
        BracketsAround(b, i, LBRACKET, ws, RBRACKET);
        SpaceInert(ws);
        InertAt(b, i + 1, ws, 1, LBRACKET, RBRACKET);
        ContainerAt(b, i, LBRACKET, ws, RBRACKET);
      case Arr(es) =>
        BracketsAround(b, i, LBRACKET, ElementsText(es), RBRACKET);
        ElementsNeutral(b, i + 1, es, 1, LBRACKET, RBRACKET);
        ContainerAt(b, i, LBRACKET, ElementsText(es), RBRACKET);
      case EmptyObj(ws) =>
        BracketsAround(b, i, LBRACE, ws, RBRACE);
        SpaceInert(ws);
        InertAt(b, i + 1, ws, 1, LBRACE, RBRACE);
        ContainerAt(b, i, LBRACE, ws, RBRACE);
      case Obj(ms) =>
        BracketsAround(b, i, LBRACE, MembersText(ms), RBRACE);
        MembersNeutral(b, i + 1, ms, 1, LBRACE, RBRACE);
        ContainerAt(b, i, LBRACE, MembersText(ms), RBRACE);
    }
  }
}
