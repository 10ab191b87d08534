/** A strict reader of the grammar, and by it the exact looseness of the scanner (internal/model/fastjson.go): the scanner
    looks for the ends of strings and containers only, so it accepts texts that RFC 8259 does not have. */
module JsonParse {
  import opened Bytes
  import opened Strconv
  import opened Json
  import opened NumberScan
  import opened SkipScan
  import opened Decimals
  import opened Points
  import opened Scanner

  // Strings.

  /** The unit a raw string text starts with. */
  function FirstUnit(raw: bytes): (r: Option<CharUnit>)
    requires raw != []
    ensures r.Some? ==> ValidUnit(r.value) && UnitText(r.value) <= raw && UnitText(r.value) != []
  {
    if raw[0] != BACKSLASH then
      var u := Plain(raw[0]);
      if ValidUnit(u) then Some(u) else None
    else if |raw| >= 6 && raw[1] == 117 then
      var u := Unicode(raw[2], raw[3], raw[4], raw[5]);
      if ValidUnit(u) then Some(u) else None
    else if |raw| >= 2 && ValidUnit(Escaped(raw[1])) then Some(Escaped(raw[1]))
    else None
  }

  /** Every byte of a raw string text belongs to a unit of section 7: no control byte, no quote, no other escape. */
  function Units(raw: bytes): (r: Option<seq<CharUnit>>)
    ensures r.Some? ==> ValidString(r.value) && CharsText(r.value) == raw
  {
    if raw == [] then Some([]) else
      var u := FirstUnit(raw);
      if u.None? then None else
        var rest := Units(raw[|UnitText(u.value)|..]);
        if rest.None? then None else Some([u.value] + rest.value)
  }

  lemma UnitFirst(u: CharUnit, rest: bytes)
    requires ValidUnit(u)
    ensures UnitText(u) + rest != [] && FirstUnit(UnitText(u) + rest) == Some(u)
  {
  }

  /** The units of a text are unique, and the strict reader finds them. */
  lemma {:induction false} UnitsComplete(s: seq<CharUnit>)
    requires ValidString(s)
    ensures Units(CharsText(s)) == Some(s)
    decreases |s|
  {
    if s != [] {
      hide FirstUnit, ValidUnit, UnitText;
      var rest := CharsText(s[1..]);
      UnitFirst(s[0], rest);
      UnitsComplete(s[1..]);
      assert (UnitText(s[0]) + rest)[|UnitText(s[0])|..] == rest;
      assert s == [s[0]] + s[1..];
    }
  }

  // Values.

  function ParseString(b: bytes, i: nat): (r: Option<(seq<CharUnit>, nat)>)
    ensures r.Some? ==> i < r.value.1 <= |b|
  {
    if i >= |b| || b[i] != QUOTE then None else
      var e := StringEnd(b, i + 1);
      if e.None? then None else
        var s := Units(b[i + 1..e.value - 1]);
        if s.None? then None else Some((s.value, e.value))
  }

  function ParseLiteral(b: bytes, i: nat, lit: bytes, v: Value): (r: Option<(Value, nat)>)
    requires lit != []
    ensures r.Some? ==> i < r.value.1 <= |b|
  {
    var e := LiteralEnd(b, i, lit);
    if e.None? then None else Some((v, e.value))
  }

  function ParseValue(b: bytes, i: nat): (r: Option<(Value, nat)>)
    ensures r.Some? ==> i < r.value.1 <= |b|
    decreases |b| - i, 1
  {
    if i >= |b| then None
    else if b[i] == QUOTE then
      var s := ParseString(b, i);
      if s.None? then None else Some((Str(s.value.0), s.value.1))
    else if b[i] == LBRACE then ParseObject(b, i)
    else if b[i] == LBRACKET then ParseArray(b, i)
    else if b[i] == TRUE_TEXT[0] then ParseLiteral(b, i, TRUE_TEXT, True)
    else if b[i] == FALSE_TEXT[0] then ParseLiteral(b, i, FALSE_TEXT, False)
    else if b[i] == NULL_TEXT[0] then ParseLiteral(b, i, NULL_TEXT, Null)
    else
      var n := ScanNumber(b, i);
      if n.None? then None else Some((Num(n.value.n), n.value.end))
  }

  function ParseObject(b: bytes, i: nat): (r: Option<(Value, nat)>)
    requires i < |b|
    ensures r.Some? ==> i < r.value.1 <= |b| && (r.value.0.Obj? || r.value.0.EmptyObj?)
    decreases |b| - i, 0
  {
    var j := SkipWS(b, i + 1);
    if j < |b| && b[j] == RBRACE then Some((EmptyObj(b[i + 1..j]), j + 1)) else
      var ms := ParseMembers(b, i + 1);
      if ms.Some? && ms.value.1 < |b| && b[ms.value.1] == RBRACE then Some((Obj(ms.value.0), ms.value.1 + 1)) else None
  }

  function ParseArray(b: bytes, i: nat): (r: Option<(Value, nat)>)
    requires i < |b|
    ensures r.Some? ==> i < r.value.1 <= |b| && (r.value.0.Arr? || r.value.0.EmptyArr?)
    decreases |b| - i, 0
  {
    var j := SkipWS(b, i + 1);
    if j < |b| && b[j] == RBRACKET then Some((EmptyArr(b[i + 1..j]), j + 1)) else
      var es := ParseElements(b, i + 1);
      if es.Some? && es.value.1 < |b| && b[es.value.1] == RBRACKET then Some((Arr(es.value.0), es.value.1 + 1)) else None
  }

  function ParseElements(b: bytes, i: nat): (r: Option<(Elements, nat)>)
    requires i <= |b|
    ensures r.Some? ==> i < r.value.1 <= |b|
    decreases |b| - i, 2
  {
    var i1 := SkipWS(b, i);
    var v := ParseValue(b, i1);
    if v.None? then None else
      var i2 := v.value.1;
      var i3 := SkipWS(b, i2);
      if i3 < |b| && b[i3] == COMMA then
        var more := ParseElements(b, i3 + 1);
        if more.None? then None else
          Some((MoreElements(b[i..i1], v.value.0, b[i2..i3], more.value.0), more.value.1))
      else Some((LastElement(b[i..i1], v.value.0, b[i2..i3]), i3))
  }

  /** What stands in front of a member's value: white space, key, white space, white space, and the value's place. */
  datatype Head = Head(pre: bytes, key: seq<CharUnit>, mid: bytes, post: bytes, end: nat)

  function ParseHead(b: bytes, i: nat): (r: Option<Head>)
    requires i <= |b|
    ensures r.Some? ==> i < r.value.end <= |b|
  {
    var i1 := SkipWS(b, i);
    var k := ParseString(b, i1);
    if k.None? then None else
      var i2 := SkipWS(b, k.value.1);
      if i2 >= |b| || b[i2] != COLON then None else
        var i3 := SkipWS(b, i2 + 1);
        Some(Head(b[i..i1], k.value.0, b[k.value.1..i2], b[i2 + 1..i3], i3))
  }

  function ParseMembers(b: bytes, i: nat): (r: Option<(Members, nat)>)
    requires i <= |b|
    ensures r.Some? ==> i < r.value.1 <= |b|
    decreases |b| - i, 2
  {
    var h := ParseHead(b, i);
    if h.None? then None else
      var v := ParseValue(b, h.value.end);
      if v.None? then None else
        var i2 := v.value.1;
        var i3 := SkipWS(b, i2);
        if i3 < |b| && b[i3] == COMMA then
          var more := ParseMembers(b, i3 + 1);
          if more.None? then None else
            Some((MoreMembers(h.value.pre, h.value.key, h.value.mid, h.value.post, v.value.0, b[i2..i3], more.value.0),
                  more.value.1))
        else
          Some((LastMember(h.value.pre, h.value.key, h.value.mid, h.value.post, v.value.0, b[i2..i3]), i3))
  }

  // Soundness.

  /** `v` is a value of the grammar that occupies the bytes from `i` to `e`. */
  ghost predicate Stands(b: bytes, i: nat, v: Value, e: nat) {
    ValidValue(v) && At(b, i, Text(v)) && e == i + |Text(v)|
  }

  lemma {:induction false} SpaceStands(b: bytes, i: nat)
    requires i <= |b|
    ensures IsWS(b[i..SkipWS(b, i)]) && At(b, i, b[i..SkipWS(b, i)])
    decreases |b| - i
  {
    if i < |b| && IsSpace(b[i]) {
      SpaceStands(b, i + 1);
      assert b[i..SkipWS(b, i)] == [b[i]] + b[i + 1..SkipWS(b, i + 1)];
    }
  }

  lemma StringStands(b: bytes, i: nat)
    requires ParseString(b, i).Some?
    ensures var (s, e) := ParseString(b, i).value;
            ValidString(s) && At(b, i, StringText(s)) && e == i + |StringText(s)|
  {
    hide Units, StringEnd, CharsText;
    var (s, e) := ParseString(b, i).value;
    assert b[i..e] == [QUOTE] + (CharsText(s) + [QUOTE]);
  }

  lemma LiteralStands(b: bytes, i: nat, lit: bytes)
    requires LiteralEnd(b, i, lit).Some?
    ensures At(b, i, lit) && LiteralEnd(b, i, lit).value == i + |lit|
  {
  }

  lemma {:induction false} ValueStands(b: bytes, i: nat)
    requires ParseValue(b, i).Some?
    ensures var (v, e) := ParseValue(b, i).value; Stands(b, i, v, e)
    decreases |b| - i, 1
  {
    hide At, ParseString, ParseObject, ParseArray, StringText, NumText, ElementsText, MembersText, LiteralEnd, ScanNumber;
    hide IsWS, ValidString, ValidNumber, ValidElements, ValidMembers;
    if b[i] == QUOTE {
      StringStands(b, i);
    } else if b[i] == LBRACE {
      ObjectStands(b, i);
    } else if b[i] == LBRACKET {
      ArrayStands(b, i);
    } else if b[i] == TRUE_TEXT[0] {
      LiteralStands(b, i, TRUE_TEXT);
    } else if b[i] == FALSE_TEXT[0] {
      LiteralStands(b, i, FALSE_TEXT);
    } else if b[i] == NULL_TEXT[0] {
      LiteralStands(b, i, NULL_TEXT);
    } else {
      ScanSound(b, i);
    }
  }

  lemma {:induction false} ObjectStands(b: bytes, i: nat)
    requires i < |b| && b[i] == LBRACE && ParseObject(b, i).Some?
    ensures var (v, e) := ParseObject(b, i).value; Stands(b, i, v, e)
    decreases |b| - i, 0
  {
    hide At, ParseMembers, MembersText, SkipWS, IsWS, ValidMembers;
    var (v, e) := ParseObject(b, i).value;
    OneByte(b, i);
    OneByte(b, e - 1);
    if v.EmptyObj? {
      SpaceStands(b, i + 1);
      AroundBrackets(b, i, LBRACE, v.ws, RBRACE);
    } else {
      MembersStand(b, i + 1);
      AroundBrackets(b, i, LBRACE, MembersText(v.members), RBRACE);
    }
  }

  lemma {:induction false} ArrayStands(b: bytes, i: nat)
    requires i < |b| && b[i] == LBRACKET && ParseArray(b, i).Some?
    ensures var (v, e) := ParseArray(b, i).value; Stands(b, i, v, e)
    decreases |b| - i, 0
  {
    hide At, ParseElements, ElementsText, SkipWS, IsWS, ValidElements;
    var (v, e) := ParseArray(b, i).value;
    OneByte(b, i);
    OneByte(b, e - 1);
    if v.EmptyArr? {
      SpaceStands(b, i + 1);
      AroundBrackets(b, i, LBRACKET, v.ws, RBRACKET);
    } else {
      ElementsStand(b, i + 1);
      AroundBrackets(b, i, LBRACKET, ElementsText(v.elems), RBRACKET);
    }
  }

  lemma OneByte(b: bytes, i: nat)
    requires i < |b|
    ensures At(b, i, [b[i]])
  {
  }

  lemma AroundBrackets(b: bytes, i: nat, o: byte, inner: bytes, c: byte)
    requires At(b, i, [o]) && At(b, i + 1, inner) && At(b, i + 1 + |inner|, [c])
    ensures At(b, i, [o] + (inner + [c]))
  {
    AtSplit(b, i + 1, inner, [c]);
    AtSplit(b, i, [o], inner + [c]);
  }

  lemma {:induction false} ElementsStand(b: bytes, i: nat)
    requires i <= |b| && ParseElements(b, i).Some?
    ensures var (es, e) := ParseElements(b, i).value;
            ValidElements(es) && At(b, i, ElementsText(es)) && e == i + |ElementsText(es)|
    decreases |b| - i, 2
  {
    hide At, ParseValue, Text, IsWS, SkipWS;
    var (es, e) := ParseElements(b, i).value;
    var i1 := SkipWS(b, i);
    var i2 := ParseValue(b, i1).value.1;
    var i3 := SkipWS(b, i2);
    SpaceStands(b, i);
    ValueStands(b, i1);
    SpaceStands(b, i2);
    var more := if es.MoreElements? then [COMMA] + ElementsText(es.rest) else [];
    if es.MoreElements? {
      ElementsStand(b, i3 + 1);
      OneByte(b, i3);
      AtSplit(b, i3, [COMMA], ElementsText(es.rest));
    } else {
      AtNothing(b, i3);
    }
    AtSplit(b, i2, es.post, more);
    AtSplit(b, i1, Text(es.v), es.post + more);
    AtSplit(b, i, es.pre, Text(es.v) + (es.post + more));
  }

  lemma AtNothing(b: bytes, i: nat)
    requires i <= |b|
    ensures At(b, i, [])
  {
  }

  lemma HeadStands(b: bytes, i: nat)
    requires i <= |b| && ParseHead(b, i).Some?
    ensures var h := ParseHead(b, i).value; var t := h.pre + (StringText(h.key) + (h.mid + ([COLON] + h.post)));
            && IsWS(h.pre) && ValidString(h.key) && IsWS(h.mid) && IsWS(h.post)
            && At(b, i, t) && h.end == i + |t|
  {
    hide At, ParseString, IsWS, SkipWS, StringText, ValidString;
    var h := ParseHead(b, i).value;
    var i1 := SkipWS(b, i);
    var k := ParseString(b, i1).value.1;
    var i2 := SkipWS(b, k);
    SpaceStands(b, i);
    StringStands(b, i1);
    SpaceStands(b, k);
    OneByte(b, i2);
    SpaceStands(b, i2 + 1);
    AtSplit(b, i2, [COLON], h.post);
    AtSplit(b, k, h.mid, [COLON] + h.post);
    AtSplit(b, i1, StringText(h.key), h.mid + ([COLON] + h.post));
    AtSplit(b, i, h.pre, StringText(h.key) + (h.mid + ([COLON] + h.post)));
  }

  lemma {:induction false} MembersStand(b: bytes, i: nat)
    requires i <= |b| && ParseMembers(b, i).Some?
    ensures var (ms, e) := ParseMembers(b, i).value;
            ValidMembers(ms) && At(b, i, MembersText(ms)) && e == i + |MembersText(ms)|
    decreases |b| - i, 2
  {
    hide At, ParseValue, ParseHead, Text, IsWS, ValidString, SkipWS, StringText;
    var (ms, e) := ParseMembers(b, i).value;
    var i1 := ParseHead(b, i).value.end;
    var i2 := ParseValue(b, i1).value.1;
    var i3 := SkipWS(b, i2);
    HeadStands(b, i);
    ValueStands(b, i1);
    SpaceStands(b, i2);
    var more := if ms.MoreMembers? then [COMMA] + MembersText(ms.rest) else [];
    if ms.MoreMembers? {
      MembersStand(b, i3 + 1);
      OneByte(b, i3);
      AtSplit(b, i3, [COMMA], MembersText(ms.rest));
    } else {
      AtNothing(b, i3);
    }
    AtSplit(b, i2, ms.tail, more);
    AtSplit(b, i1, Text(ms.v), ms.tail + more);
    AtSplit(b, i, MemberHead(ms), Text(ms.v) + (ms.tail + more));
  }

  // Completeness.

  lemma SpaceFound(b: bytes, i: nat, ws: bytes)
    requires At(b, i, ws) && IsWS(ws) && i + |ws| < |b| && !IsSpace(b[i + |ws|])
    ensures SkipWS(b, i) == i + |ws| && b[i..SkipWS(b, i)] == ws
  {
    SkipWSAt(b, i, ws);
    AtSlice(b, i, ws);
  }

  lemma StringFound(b: bytes, i: nat, s: seq<CharUnit>)
    requires At(b, i, StringText(s)) && ValidString(s)
    ensures ParseString(b, i) == Some((s, i + |StringText(s)|)) && i < |b| && b[i] == QUOTE
  {
    hide At, StringText, CharsText, StringEnd, Units, ValidString;
    StringAt(b, i, s);
    UnitsComplete(s);
  }

  lemma {:induction false} ValueFound(b: bytes, i: nat, v: Value)
    requires ValidValue(v) && At(b, i, Text(v)) && (v.Num? ==> NumberEnds(b, i + |Text(v)|))
    ensures ParseValue(b, i) == Some((v, i + |Text(v)|))
    decreases v, 1
  {
    hide At, ParseString, ParseObject, ParseArray, StringText, NumText, ElementsText, MembersText, ScanNumber;
    hide ValidString, ValidNumber, ValidElements, ValidMembers, NumberEnds;
    FirstByte(v);
    AtByte(b, i, Text(v), 0);
    match v {
      case Null => AtSlice(b, i, NULL_TEXT);
      case True => AtSlice(b, i, TRUE_TEXT);
      case False => AtSlice(b, i, FALSE_TEXT);
      case Num(n) => ScanComplete(b, i, n);
      case Str(s) => StringFound(b, i, s);
      case EmptyArr(ws) => ArrayFound(b, i, v);
      case Arr(es) => ArrayFound(b, i, v);
      case EmptyObj(ws) => ObjectFound(b, i, v);
      case Obj(ms) => ObjectFound(b, i, v);
    }
  }

  lemma {:induction false} ObjectFound(b: bytes, i: nat, v: Value)
    requires ValidValue(v) && At(b, i, Text(v)) && (v.EmptyObj? || v.Obj?)
    ensures i < |b| && ParseObject(b, i) == Some((v, i + |Text(v)|))
    decreases v, 0
  {
    hide At, ParseMembers, MembersText, SkipWS, ValidMembers, IsWS;
    if v.EmptyObj? {
      BracketsAround(b, i, LBRACE, v.ws, RBRACE);
      SpaceFound(b, i + 1, v.ws);
    } else {
      BracketsAround(b, i, LBRACE, MembersText(v.members), RBRACE);
      MembersFound(b, i + 1, v.members);
      MembersFirst(b, i + 1, v.members);
    }
  }

  lemma {:induction false} ArrayFound(b: bytes, i: nat, v: Value)
    requires ValidValue(v) && At(b, i, Text(v)) && (v.EmptyArr? || v.Arr?)
    ensures i < |b| && ParseArray(b, i) == Some((v, i + |Text(v)|))
    decreases v, 0
  {
    hide At, ParseElements, ElementsText, SkipWS, ValidElements, IsWS;
    if v.EmptyArr? {
      BracketsAround(b, i, LBRACKET, v.ws, RBRACKET);
      SpaceFound(b, i + 1, v.ws);
    } else {
      BracketsAround(b, i, LBRACKET, ElementsText(v.elems), RBRACKET);
      ElementsFound(b, i + 1, v.elems);
      ElementsFirst(b, i + 1, v.elems);
    }
  }

  /** An element list does not start with its closing bracket. */
  lemma ElementsFirst(b: bytes, i: nat, es: Elements)
    requires ValidElements(es) && At(b, i, ElementsText(es))
    ensures SkipWS(b, i) < |b| && b[SkipWS(b, i)] != RBRACKET
  {
    hide At, Text, SkipWS, IsWS, ValidValue;
    var more := if es.MoreElements? then [COMMA] + ElementsText(es.rest) else [];
    var i1 := i + |es.pre|;
    AtSplit(b, i, es.pre, Text(es.v) + (es.post + more));
    AtSplit(b, i1, Text(es.v), es.post + more);
    NoBracketFirst(es.v);
    AtByte(b, i1, Text(es.v), 0);
    SpaceFound(b, i, es.pre);
  }

  lemma NoBracketFirst(v: Value)
    requires ValidValue(v)
    ensures Text(v) != [] && !IsSpace(Text(v)[0]) && Text(v)[0] != RBRACKET
  {
    if v.Num? {
      NumberFirst(v.n);
    }
  }

  lemma {:induction false} ElementsFound(b: bytes, i: nat, es: Elements)
    requires ValidElements(es) && At(b, i, ElementsText(es))
    requires var e := i + |ElementsText(es)|; e < |b| && b[e] == RBRACKET
    ensures i <= |b| && ParseElements(b, i) == Some((es, i + |ElementsText(es)|))
    decreases es, 2
  {
    hide At, ParseValue, Text, SkipWS, IsWS, IsSpace, ValidValue;
    var more := if es.MoreElements? then [COMMA] + ElementsText(es.rest) else [];
    var i1 := i + |es.pre|;
    var i2 := i1 + |Text(es.v)|;
    var i3 := i2 + |es.post|;
    AtSplit(b, i, es.pre, Text(es.v) + (es.post + more));
    AtSplit(b, i1, Text(es.v), es.post + more);
    AtSplit(b, i2, es.post, more);
    NoBracketFirst(es.v);
    AtByte(b, i1, Text(es.v), 0);
    SpaceFound(b, i, es.pre);
    if es.MoreElements? {
      AtSplit(b, i3, [COMMA], ElementsText(es.rest));
      AtByte(b, i3, [COMMA], 0);
      ElementsFound(b, i3 + 1, es.rest);
    }
    ValueBefore(b, i1, es.v, es.post);
  }

  lemma HeadFound(b: bytes, i: nat, ms: Members)
    requires ValidMembers(ms) && At(b, i, MemberHead(ms))
    requires var e := i + |MemberHead(ms)|; e < |b| && !IsSpace(b[e])
    ensures i <= |b| && ParseHead(b, i) == Some(Head(ms.pre, ms.key, ms.mid, ms.post, i + |MemberHead(ms)|))
  {
    hide At, StringText, SkipWS, IsWS, ValidValue, ParseString, ValidString;
    var i1 := i + |ms.pre|;
    var i2 := i1 + |StringText(ms.key)|;
    var i3 := i2 + |ms.mid|;
    AtSplit(b, i, ms.pre, StringText(ms.key) + (ms.mid + ([COLON] + ms.post)));
    AtSplit(b, i1, StringText(ms.key), ms.mid + ([COLON] + ms.post));
    AtSplit(b, i2, ms.mid, [COLON] + ms.post);
    AtSplit(b, i3, [COLON], ms.post);
    AtByte(b, i3, [COLON], 0);
    StringFound(b, i1, ms.key);
    SpaceFound(b, i, ms.pre);
    SpaceFound(b, i2, ms.mid);
    SpaceFound(b, i3 + 1, ms.post);
  }

  /** The parts of a member, each at its place, and what the strict reader finds of them. */
  lemma MemberFound(b: bytes, i: nat, ms: Members, more: bytes)
    requires ValidMembers(ms) && At(b, i, MemberHead(ms) + (Text(ms.v) + (ms.tail + more)))
    ensures var i1 := i + |MemberHead(ms)|; var i2 := i1 + |Text(ms.v)|;
            && At(b, i1, Text(ms.v)) && At(b, i2, ms.tail) && At(b, i2 + |ms.tail|, more)
            && At(b, i, MemberHead(ms)) && i1 < |b| && !IsSpace(b[i1])
            && ParseHead(b, i) == Some(Head(ms.pre, ms.key, ms.mid, ms.post, i1))
  {
    hide At, ParseHead, Text, MemberHead, IsSpace, IsWS, ValidString;
    var i1 := i + |MemberHead(ms)|;
    AtSplit(b, i, MemberHead(ms), Text(ms.v) + (ms.tail + more));
    AtSplit(b, i1, Text(ms.v), ms.tail + more);
    AtSplit(b, i1 + |Text(ms.v)|, ms.tail, more);
    NoBracketFirst(ms.v);
    AtByte(b, i1, Text(ms.v), 0);
    hide ValidValue;
    HeadFound(b, i, ms);
  }

  /** A value in a container, and the white space behind it. */
  lemma {:induction false} ValueBefore(b: bytes, i: nat, v: Value, tail: bytes)
    requires ValidValue(v) && At(b, i, Text(v)) && At(b, i + |Text(v)|, tail) && IsWS(tail)
    requires var e := i + |Text(v)| + |tail|; e < |b| && (b[e] == COMMA || b[e] == RBRACE || b[e] == RBRACKET)
    ensures ParseValue(b, i) == Some((v, i + |Text(v)|))
    ensures var j := i + |Text(v)|; SkipWS(b, j) == j + |tail| && b[j..SkipWS(b, j)] == tail
    decreases v, 2
  {
    hide At, ParseValue, Text, SkipWS, IsWS, ValidValue, NumberEnds;
    SpaceFound(b, i + |Text(v)|, tail);
    TailEndsNumber(b, i + |Text(v)|, tail);
    ValueFound(b, i, v);
  }

  lemma {:induction false} MembersFound(b: bytes, i: nat, ms: Members)
    requires ValidMembers(ms) && At(b, i, MembersText(ms))
    requires var e := i + |MembersText(ms)|; e < |b| && b[e] == RBRACE
    ensures i <= |b| && ParseMembers(b, i) == Some((ms, i + |MembersText(ms)|))
    decreases ms, 2
  {
    hide At, ParseValue, ParseHead, Text, MemberHead, SkipWS, IsWS, ValidValue, ValidString, IsSpace;
    var more := if ms.MoreMembers? then [COMMA] + MembersText(ms.rest) else [];
    var i1 := i + |MemberHead(ms)|;
    var i3 := i1 + |Text(ms.v)| + |ms.tail|;
    MemberFound(b, i, ms, more);
    if ms.MoreMembers? {
      AtSplit(b, i3, [COMMA], MembersText(ms.rest));
      AtByte(b, i3, [COMMA], 0);
      MembersFound(b, i3 + 1, ms.rest);
    }
    ValueBefore(b, i1, ms.v, ms.tail);
  }

  /** The strict reader decides the grammar: it returns a value exactly when that value stands at the index, and for a
      number, when no further byte belongs to it. */
  lemma ParseExact(b: bytes, i: nat, v: Value, e: nat)
    requires v.Num? ==> NumberEnds(b, e)
    ensures ParseValue(b, i) == Some((v, e)) <==> Stands(b, i, v, e)
  {
    hide At, ParseValue, Text, ValidValue, NumberEnds;
    if ParseValue(b, i) == Some((v, e)) {
      ValueStands(b, i);
    } else if Stands(b, i, v, e) {
      ValueFound(b, i, v);
    }
  }

  /** No two values have one text. */
  lemma TextInjective(v: Value, w: Value)
    requires ValidValue(v) && ValidValue(w) && Text(v) == Text(w)
    ensures v == w
  {
    hide ParseValue, Text, ValidValue;
    ValueFound(Text(v), 0, v);
    ValueFound(Text(w), 0, w);
  }

  // What skipping lets through.

  lemma NumberByte(b: bytes, i: nat)
    requires ScanNumber(b, i).Some?
    ensures b[i] == MINUS || IsDigit(b[i])
  {
  }

  /** The strict reader stops where the scanner does. */
  lemma SameEnd(b: bytes, i: nat)
    requires ParseValue(b, i).Some?
    ensures ValueEnd(b, i) == Some(ParseValue(b, i).value.1)
  {
    hide At, Text, ValidValue, StringEnd, ContainerEnd, ScanNumber;
    ValueStands(b, i);
    var v := ParseValue(b, i).value.0;
    if !v.Num? {
      SkipValueExact(b, i, v);
    } else {
      NumberCase(b, i);
    }
  }

  lemma NumberCase(b: bytes, i: nat)
    requires ParseValue(b, i).Some? && ParseValue(b, i).value.0.Num?
    ensures ScanNumber(b, i).Some? && ParseValue(b, i).value.1 == ScanNumber(b, i).value.end
    ensures ValueEnd(b, i) == Some(ScanNumber(b, i).value.end)
  {
    hide ParseMembers, ParseElements, ParseString, StringEnd, ContainerEnd, ScanNumber;
  }

  lemma NumberFound(b: bytes, i: nat)
    requires ValueEnd(b, i).Some? && (b[i] == MINUS || IsDigit(b[i]))
    ensures ParseValue(b, i).Some?
  {
    hide StringEnd, ContainerEnd, ScanNumber;
  }

  /** A skipped value is a value of the grammar, exactly as long, if and only if the strict reader accepts it. */
  lemma SkippedExactly(b: bytes, i: nat)
    requires ValueEnd(b, i).Some?
    ensures (exists v :: Stands(b, i, v, ValueEnd(b, i).value)) <==> ParseValue(b, i).Some?
  {
    hide At, Text, ValidValue, StringEnd, ContainerEnd, ScanNumber, ParseValue;
    if ParseValue(b, i).Some? {
      SameEnd(b, i);
      ValueStands(b, i);
    } else if exists v :: Stands(b, i, v, ValueEnd(b, i).value) {
      var v :| Stands(b, i, v, ValueEnd(b, i).value);
      FirstByte(v);
      AtByte(b, i, Text(v), 0);
      if !v.Num? {
        ValueFound(b, i, v);
      } else {
        NumberFound(b, i);
      }
    }
  }

  /** The first byte decides: values that start with no quote, brace or bracket are never accepted wrongly. */
  lemma OthersStrict(b: bytes, i: nat)
    requires ValueEnd(b, i).Some? && b[i] != QUOTE && b[i] != LBRACE && b[i] != LBRACKET
    ensures exists v :: Stands(b, i, v, ValueEnd(b, i).value)
  {
    hide At, Text, ValidValue, ScanNumber, Stands;
    assert ParseValue(b, i).Some?;
    SkippedExactly(b, i);
  }

  /** A raw control byte in quotes, and one letter in brackets or braces, are skipped as values. */
  lemma LooseWitness(c: byte) returns (b: bytes)
    requires c == QUOTE || c == LBRACE || c == LBRACKET
    ensures |b| == 3 && b[0] == c && ValueEnd(b, 0) == Some(3) && ParseValue(b, 0).None?
  {
    if c == QUOTE {
      b := [c, 1, c];
      assert StringEnd(b, 2) == Some(3);
      assert StringEnd(b, 1) == Some(3);
      assert b[1..2] == [1];
      assert FirstUnit([1]).None?;
      assert Units([1]).None?;
      assert ParseString(b, 0).None?;
    } else {
      var d: byte := if c == LBRACE then RBRACE else RBRACKET;
      b := [c, 120, d];
      assert ContainerEnd(b, 2, 1, c, d) == Some(3);
      assert ContainerEnd(b, 1, 1, c, d) == Some(3);
      assert SkipWS(b, 1) == 1;
      assert ScanNumber(b, 1).None?;
      assert ParseValue(b, 1).None?;
      assert ParseHead(b, 1).None?;
      assert ParseMembers(b, 1).None? && ParseElements(b, 1).None?;
    }
  }

  /** The exact condition on the first byte: everything that is skipped is a value of the grammar, in every text and at
      every place, exactly for the first bytes that are no quote, brace or bracket. */
  lemma LooseFirstBytes(c: byte)
    ensures (forall b, i: nat | i < |b| && b[i] == c && ValueEnd(b, i).Some? ::
               exists v :: Stands(b, i, v, ValueEnd(b, i).value))
            <==> c != QUOTE && c != LBRACE && c != LBRACKET
  {
    hide Stands, ValueEnd, ParseValue;
    if c != QUOTE && c != LBRACE && c != LBRACKET {
      forall b, i: nat | i < |b| && b[i] == c && ValueEnd(b, i).Some?
        ensures exists v :: Stands(b, i, v, ValueEnd(b, i).value)
      {
        OthersStrict(b, i);
      }
    } else {
      var b := LooseWitness(c);
      SkippedExactly(b, 0);
    }
  }

  /** The raw bytes between quotes are a string's exactly when the strict reader splits them into units. */
  lemma RawExact(raw: bytes)
    ensures (exists s :: ValidString(s) && CharsText(s) == raw) <==> Units(raw).Some?
  {
    hide ValidString, CharsText, Units;
    if exists s :: ValidString(s) && CharsText(s) == raw {
      var s :| ValidString(s) && CharsText(s) == raw;
      UnitsComplete(s);
    }
  }

  /** A skipped string is a string of the grammar if and only if its raw bytes split into units. */
  lemma SkippedString(b: bytes, i: nat)
    requires ValueEnd(b, i).Some? && b[i] == QUOTE
    ensures (exists v :: Stands(b, i, v, ValueEnd(b, i).value)) <==> Units(b[i + 1..ValueEnd(b, i).value - 1]).Some?
  {
    hide Stands, Units, StringEnd;
    SkippedExactly(b, i);
  }

  // What the scanner lets through.

  /** The parts of a scanned member that the scanner does not look into: the raw key, and an unknown field's value. */
  predicate StrictMember(b: bytes, i: nat, pj: Fields)
    requires ScanMember(b, i, pj).Some?
  {
    var k := ReadKey(b, SkipWS(b, i)).value;
    && Units(k.0).Some?
    && (FieldOf(k.0).None? ==> ParseValue(b, SkipWS(b, SkipWS(b, k.1) + 1)).Some?)
  }

  predicate StrictMembers(b: bytes, i: nat, pj: Fields)
    requires ScanMembers(b, i, pj).Some?
    decreases |b| - i
  {
    var (next, j) := ScanMember(b, i, pj).value;
    StrictMember(b, i, pj) && (b[j] == COMMA ==> StrictMembers(b, j + 1, next))
  }

  /** Every key of an accepted text is a string of the grammar, and every unknown field holds a value of it. */
  predicate StrictPoint(b: bytes)
    requires ScanPoint(b).Some?
  {
    var j := SkipWS(b, SkipWS(b, 0) + 1);
    b[j] == RBRACE || StrictMembers(b, j, NO_FIELDS)
  }

  lemma ReadKeyStrict(b: bytes, i: nat)
    requires ReadKey(b, i).Some?
    ensures var (raw, e) := ReadKey(b, i).value;
            ParseString(b, i) == if Units(raw).Some? then Some((Units(raw).value, e)) else None
  {
  }

  /** A number or null read into a field is a value of the grammar. */
  lemma NumberOrNull(b: bytes, i: nat)
    requires LiteralEnd(b, i, NULL_TEXT).Some? || ScanNumber(b, i).Some?
    ensures ParseValue(b, i).Some?
    ensures ParseValue(b, i).value.1 ==
            if LiteralEnd(b, i, NULL_TEXT).Some? then i + 4 else ScanNumber(b, i).value.end
  {
    hide ParseObject, ParseArray, ParseString, ScanNumber;
    if LiteralEnd(b, i, NULL_TEXT).Some? {
      assert b[i] == b[i..i + 4][0];
    } else {
      NumberByte(b, i);
    }
  }

  lemma FieldStrict(b: bytes, i: nat, key: bytes, pj: Fields)
    requires ReadField(b, i, key, pj).Some? && (FieldOf(key).None? ==> ParseValue(b, i).Some?)
    ensures ParseValue(b, i).Some? && ParseValue(b, i).value.1 == ReadField(b, i, key, pj).value.1
  {
    hide FieldOf, ParseValue, ValueEnd, LiteralEnd, ScanNumber, ParseInt, ParseFloat;
    if FieldOf(key).None? {
      SameEnd(b, i);
    } else {
      NumberOrNull(b, i);
    }
  }

  lemma MemberStrict(b: bytes, i: nat, pj: Fields)
    requires i <= |b| && ScanMember(b, i, pj).Some? && StrictMember(b, i, pj)
    ensures var h := ParseHead(b, i);
            && h.Some? && ParseValue(b, h.value.end).Some?
            && SkipWS(b, ParseValue(b, h.value.end).value.1) == ScanMember(b, i, pj).value.1
  {
    hide SkipWS, ReadKey, ReadField, ParseString, ParseValue, Units, FieldOf, IsSpace, ReadableFields, ValidString, CharsText;
    var k := ReadKey(b, SkipWS(b, i)).value;
    ReadKeyStrict(b, SkipWS(b, i));
    FieldStrict(b, SkipWS(b, SkipWS(b, k.1) + 1), k.0, pj);
  }

  lemma {:induction false} MembersStrict(b: bytes, i: nat, pj: Fields)
    requires i <= |b| && ScanMembers(b, i, pj).Some? && StrictMembers(b, i, pj)
    ensures var r := ParseMembers(b, i);
            && r.Some? && r.value.1 < |b| && b[r.value.1] == RBRACE && SkipWS(b, r.value.1 + 1) == |b|
    decreases |b| - i
  {
    hide SkipWS, ScanMember, StrictMember, ParseHead, ParseValue;
    MemberStrict(b, i, pj);
    var (next, j) := ScanMember(b, i, pj).value;
    if b[j] == COMMA {
      MembersStrict(b, j + 1, next);
    }
  }

  /** Leading white space makes no difference to the strict reader. */
  lemma HeadSkips(b: bytes, i: nat)
    requires i <= |b|
    ensures ParseHead(b, SkipWS(b, i)).Some? <==> ParseHead(b, i).Some?
    ensures ParseHead(b, i).Some? ==> ParseHead(b, SkipWS(b, i)).value.end == ParseHead(b, i).value.end
  {
    hide SkipWS, ParseString;
    SkipWSIdle(b, i);
  }

  lemma MembersSkip(b: bytes, i: nat)
    requires i <= |b|
    ensures ParseMembers(b, SkipWS(b, i)).Some? <==> ParseMembers(b, i).Some?
    ensures ParseMembers(b, i).Some? ==> ParseMembers(b, SkipWS(b, i)).value.1 == ParseMembers(b, i).value.1
  {
    hide SkipWS, ParseHead, ParseValue;
    HeadSkips(b, i);
  }

  lemma MembersInside(b: bytes, i: nat, pj: Fields)
    requires ScanMembers(b, i, pj).Some?
    ensures i < |b|
  {
  }

  lemma StrictObject(b: bytes)
    requires ScanPoint(b).Some? && StrictPoint(b)
    ensures var i := SkipWS(b, 0);
            && i < |b| && b[i] == LBRACE && ParseObject(b, i).Some?
            && SkipWS(b, ParseObject(b, i).value.1) == |b|
  {
    hide SkipWS, ScanMembers, StrictMembers, ParseMembers;
    var i := SkipWS(b, 0);
    var j := SkipWS(b, i + 1);
    if j >= |b| || b[j] != RBRACE {
      MembersInside(b, j, NO_FIELDS);
      MembersStrict(b, j, NO_FIELDS);
      MembersSkip(b, i + 1);
    }
  }

  lemma StrictIsDocument(b: bytes)
    requires ScanPoint(b).Some? && StrictPoint(b)
    ensures exists d :: ValidDocument(d) && DocumentText(d) == b
  {
    hide SkipWS, ScanPoint, StrictPoint, ParseObject, Text, ValidValue, IsWS, IsSpace;
    StrictObject(b);
    var i := SkipWS(b, 0);
    ObjectStands(b, i);
    var (v, e) := ParseObject(b, i).value;
    SpaceStands(b, 0);
    SpaceStands(b, e);
    var d := Document(b[0..i], v, b[e..SkipWS(b, e)]);
    AtSlice(b, i, Text(v));
    assert b == b[0..i] + (b[i..e] + b[e..|b|]);
    assert ValidDocument(d) && DocumentText(d) == b;
  }

  lemma {:induction false} GrammarIsStrict(b: bytes, i: nat, ms: Members, pj: Fields)
    requires ValidMembers(ms) && At(b, i, MembersText(ms)) && Acceptable(ms)
    requires var e := i + |MembersText(ms)|; e < |b| && b[e] == RBRACE && SkipWS(b, e + 1) == |b|
    ensures ScanMembers(b, i, pj).Some? && StrictMembers(b, i, pj)
    decreases ms
  {
    hide At, Text, MemberHead, ScanMember, StrictMember, SkipWS, AcceptableMember, Apply, ValidValue, ValidString, IsWS;
    MembersAt(b, i, ms, pj);
    var one := MemberHead(ms) + (Text(ms.v) + ms.tail);
    if ms.MoreMembers? {
      var more := [COMMA] + MembersText(ms.rest);
      assert MembersText(ms) == one + more;
      AtSplit(b, i, one, more);
      var j := i + |one|;
      AtSplit(b, j, [COMMA], MembersText(ms.rest));
      AtByte(b, j, [COMMA], 0);
      MemberAt(b, i, ms, pj);
      GrammarMember(b, i, ms, pj);
      hide MembersText;
      GrammarIsStrict(b, j + 1, ms.rest, Apply(pj, ms));
    } else {
      assert MembersText(ms) == one;
      MemberAt(b, i, ms, pj);
      GrammarMember(b, i, ms, pj);
    }
  }

  lemma GrammarMember(b: bytes, i: nat, ms: Members, pj: Fields)
    requires ValidMembers(ms) && At(b, i, MemberHead(ms) + (Text(ms.v) + ms.tail))
    requires var e := i + |MemberHead(ms)| + |Text(ms.v)| + |ms.tail|; e < |b| && (b[e] == COMMA || b[e] == RBRACE)
    requires ScanMember(b, i, pj).Some?
    ensures StrictMember(b, i, pj)
  {
    hide At, Text, MemberHead, ScanMember, ReadKey, SkipWS, Units, ParseHead, ParseValue, FieldOf, ValidValue, ValidString, IsWS;
    assert ms.tail + [] == ms.tail;
    MemberFound(b, i, ms, []);
    ValueBefore(b, i + |MemberHead(ms)|, ms.v, ms.tail);
    KeyAt(b, i, ms);
    UnitsComplete(ms.key);
  }

  /** Which accepted points are JSON: exactly those whose keys, and whose values of unknown fields, are strings and values
      of the grammar. White space, punctuation and the known fields are never accepted wrongly. */
  lemma ScannedIsJson(b: bytes)
    requires ScanPoint(b).Some?
    ensures (exists d :: ValidDocument(d) && DocumentText(d) == b) <==> StrictPoint(b)
  {
    hide ScanPoint, StrictPoint, ValidDocument, DocumentText;
    if StrictPoint(b) {
      StrictIsDocument(b);
    } else if exists d :: ValidDocument(d) && DocumentText(d) == b {
      var d :| ValidDocument(d) && DocumentText(d) == b;
      DocumentIsStrict(d);
    }
  }

  lemma DocumentIsStrict(d: Document)
    requires ValidDocument(d) && ScanPoint(DocumentText(d)).Some?
    ensures StrictPoint(DocumentText(d))
  {
    hide At, Text, SkipWS, ScanMembers, StrictMembers, ScanMember, Holds, IsWS, ValidMembers, Acceptable;
    var b := DocumentText(d);
    var i := |d.before|;
    ScanPointOnGrammar(d);
    DocumentParts(d);
    if d.v.EmptyObj? {
      assert b[SkipWS(b, i + 1)] == RBRACE by {
        EmptyText(d.v);
        BracketsAround(b, i, LBRACE, d.v.ws, RBRACE);
        SpaceFound(b, i + 1, d.v.ws);
      }
    } else {
      ObjectText(d.v);
      var ms := d.v.members;
      BracketsAround(b, i, LBRACE, MembersText(ms), RBRACE);
      GrammarIsStrict(b, i + 1, ms, NO_FIELDS);
      StrictSkips(b, i + 1, NO_FIELDS);
    }
  }

  lemma EmptyText(v: Value)
    requires v.EmptyObj? && ValidValue(v)
    ensures Text(v) == [LBRACE] + (v.ws + [RBRACE]) && IsWS(v.ws)
  {
  }

  lemma ObjectText(v: Value)
    requires v.Obj? && ValidValue(v)
    ensures Text(v) == [LBRACE] + (MembersText(v.members) + [RBRACE]) && ValidMembers(v.members)
  {
  }

  lemma StrictSkips(b: bytes, i: nat, pj: Fields)
    requires ScanMembers(b, i, pj).Some? && StrictMembers(b, i, pj)
    ensures ScanMembers(b, SkipWS(b, i), pj).Some? && StrictMembers(b, SkipWS(b, i), pj)
  {
    hide ScanMember, SkipWS, StrictMember;
    SkipTwice(b, i, pj);
    SkipTwiceMember(b, i, pj);
    StrictSkipsMember(b, i, pj);
  }

  lemma StrictSkipsMember(b: bytes, i: nat, pj: Fields)
    requires ScanMember(b, i, pj).Some? && StrictMember(b, i, pj)
    ensures ScanMember(b, SkipWS(b, i), pj).Some? && StrictMember(b, SkipWS(b, i), pj)
  {
    hide ScanMember, SkipWS, Units, ParseValue;
    SkipTwiceMember(b, i, pj);
    SkipWSIdle(b, i);
  }

  /** An object with a raw control byte for a key is a point to the scanner and no JSON text. */
  lemma LooseKey()
    ensures var b := [LBRACE, QUOTE, 1, QUOTE, COLON, ZERO, RBRACE];
            ScanPoint(b) == Some(NO_FIELDS) && forall d | ValidDocument(d) :: DocumentText(d) != b
  {
    var b: bytes := [LBRACE, QUOTE, 1, QUOTE, COLON, ZERO, RBRACE];
    var raw: bytes := [1];
    assert b[2..3] == raw;
    assert StringEnd(b, 3) == Some(4);
    assert StringEnd(b, 2) == Some(4);
    assert SkipWS(b, 1) == 1 && SkipWS(b, 4) == 4 && SkipWS(b, 5) == 5 && SkipWS(b, 6) == 6 && SkipWS(b, 7) == 7;
    assert ReadKey(b, 1) == Some((raw, 4));
    assert Units(raw).None?;
    assert FieldOf(raw).None? by { assert |Lower(raw)| == 1; }
    assert DigitEnd(b, 6) == 6;
    assert ValueEnd(b, 5) == Some(6);
    assert ScanMember(b, 1, NO_FIELDS) == Some((NO_FIELDS, 6));
    assert ScanMembers(b, 1, NO_FIELDS) == Some(NO_FIELDS);
    assert SkipWS(b, 0) == 0;
    assert ScanPoint(b) == Some(NO_FIELDS);
    assert !StrictPoint(b);
    ScannedIsJson(b);
  }
}
