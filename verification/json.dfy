/** The grammar of RFC 8259 (sections 2 to 7) as concrete syntax trees: a tree records every byte of the
    text it stands for, white space included, so `Text` is the exact byte string and nothing is normalised. */
module Json {
  import opened Bytes

  // Section 6: numbers.
  datatype Exponent = Exponent(e: byte, sign: bytes, digits: bytes)
  datatype Number = Number(minus: bool, whole: bytes, frac: Option<bytes>, exp: Option<Exponent>)

  // Section 7: one unit of the inside of a string.
  datatype CharUnit = Plain(c: byte) | Escaped(c: byte) | Unicode(h0: byte, h1: byte, h2: byte, h3: byte)

  // Sections 3 to 5. Element and member lists are never empty: the empty array and object have their own forms.
  datatype Value =
    | Null
    | True
    | False
    | Num(n: Number)
    | Str(s: seq<CharUnit>)
    | EmptyArr(ws: bytes)
    | Arr(elems: Elements)
    | EmptyObj(ws: bytes)
    | Obj(members: Members)
  datatype Elements =
    | LastElement(pre: bytes, v: Value, post: bytes)
    | MoreElements(pre: bytes, v: Value, post: bytes, rest: Elements)
  datatype Members =
    | LastMember(pre: bytes, key: seq<CharUnit>, mid: bytes, post: bytes, v: Value, tail: bytes)
    | MoreMembers(pre: bytes, key: seq<CharUnit>, mid: bytes, post: bytes, v: Value, tail: bytes, rest: Members)

  const NULL_TEXT: bytes := [110, 117, 108, 108]
  const TRUE_TEXT: bytes := [116, 114, 117, 101]
  const FALSE_TEXT: bytes := [102, 97, 108, 115, 101]

  predicate IsSpace(c: byte) {
    c == SPACE || c == TAB || c == LF || c == CR
  }

  predicate IsWS(s: bytes) {
    forall k | 0 <= k < |s| :: IsSpace(s[k])
  }

  predicate IsHex(c: byte) {
    IsDigit(c) || 97 <= c <= 102 || 65 <= c <= 70
  }

  predicate ValidUnit(u: CharUnit) {
    match u
    case Plain(c) => c >= 32 && c != QUOTE && c != BACKSLASH
    case Escaped(c) => c in [QUOTE, BACKSLASH, 47, 98, 102, 110, 114, 116]
    case Unicode(h0, h1, h2, h3) => IsHex(h0) && IsHex(h1) && IsHex(h2) && IsHex(h3)
  }

  predicate ValidString(s: seq<CharUnit>) {
    forall k | 0 <= k < |s| :: ValidUnit(s[k])
  }

  predicate ValidExponent(x: Exponent) {
    && (x.e == LOWER_E || x.e == UPPER_E)
    && (x.sign == [] || x.sign == [PLUS] || x.sign == [MINUS])
    && x.digits != [] && AllDigits(x.digits)
  }

  predicate ValidNumber(n: Number) {
    && n.whole != [] && AllDigits(n.whole)
    && (n.whole[0] == ZERO ==> |n.whole| == 1)
    && (n.frac.Some? ==> n.frac.value != [] && AllDigits(n.frac.value))
    && (n.exp.Some? ==> ValidExponent(n.exp.value))
  }

  predicate ValidValue(v: Value) {
    match v
    case Null => true
    case True => true
    case False => true
    case Num(n) => ValidNumber(n)
    case Str(s) => ValidString(s)
    case EmptyArr(ws) => IsWS(ws)
    case Arr(es) => ValidElements(es)
    case EmptyObj(ws) => IsWS(ws)
    case Obj(ms) => ValidMembers(ms)
  }

  predicate ValidElements(es: Elements) {
    && IsWS(es.pre) && ValidValue(es.v) && IsWS(es.post)
    && (es.MoreElements? ==> ValidElements(es.rest))
  }

  predicate ValidMembers(ms: Members) {
    && IsWS(ms.pre) && ValidString(ms.key) && IsWS(ms.mid) && IsWS(ms.post) && ValidValue(ms.v) && IsWS(ms.tail)
    && (ms.MoreMembers? ==> ValidMembers(ms.rest))
  }

  function FracText(f: Option<bytes>): bytes {
    if f.Some? then [DOT] + f.value else []
  }

  function ExpText(x: Option<Exponent>): bytes {
    if x.Some? then [x.value.e] + (x.value.sign + x.value.digits) else []
  }

  function SignText(minus: bool): bytes {
    if minus then [MINUS] else []
  }

  function NumText(n: Number): bytes {
    SignText(n.minus) + (n.whole + (FracText(n.frac) + ExpText(n.exp)))
  }

  function UnitText(u: CharUnit): bytes {
    match u
    case Plain(c) => [c]
    case Escaped(c) => [BACKSLASH, c]
    case Unicode(h0, h1, h2, h3) => [BACKSLASH, 117, h0, h1, h2, h3]
  }

  /** The raw bytes between the quotes. */
  function CharsText(s: seq<CharUnit>): bytes {
    if s == [] then [] else UnitText(s[0]) + CharsText(s[1..])
  }

  function StringText(s: seq<CharUnit>): bytes {
    [QUOTE] + (CharsText(s) + [QUOTE])
  }

  function Text(v: Value): bytes {
    match v
    case Null => NULL_TEXT
    case True => TRUE_TEXT
    case False => FALSE_TEXT
    case Num(n) => NumText(n)
    case Str(s) => StringText(s)
    case EmptyArr(ws) => [LBRACKET] + (ws + [RBRACKET])
    case Arr(es) => [LBRACKET] + (ElementsText(es) + [RBRACKET])
    case EmptyObj(ws) => [LBRACE] + (ws + [RBRACE])
    case Obj(ms) => [LBRACE] + (MembersText(ms) + [RBRACE])
  }

  function ElementsText(es: Elements): bytes {
    var more := if es.MoreElements? then [COMMA] + ElementsText(es.rest) else [];
    es.pre + (Text(es.v) + (es.post + more))
  }

  function MemberHead(ms: Members): bytes {
    ms.pre + (StringText(ms.key) + (ms.mid + ([COLON] + ms.post)))
  }

  function MembersText(ms: Members): bytes {
    var more := if ms.MoreMembers? then [COMMA] + MembersText(ms.rest) else [];
    MemberHead(ms) + (Text(ms.v) + (ms.tail + more))
  }

  /** Section 2: JSON-text = ws value ws. */
  datatype Document = Document(before: bytes, v: Value, after: bytes)

  predicate ValidDocument(d: Document) {
    IsWS(d.before) && ValidValue(d.v) && IsWS(d.after)
  }

  function DocumentText(d: Document): bytes {
    d.before + (Text(d.v) + d.after)
  }

  /** The first byte of a value decides which production it is. */
  lemma FirstByte(v: Value)
    requires ValidValue(v)
    ensures Text(v) != []
    ensures Text(v)[0] == QUOTE <==> v.Str?
    ensures Text(v)[0] == LBRACKET <==> v.Arr? || v.EmptyArr?
    ensures Text(v)[0] == LBRACE <==> v.Obj? || v.EmptyObj?
    ensures Text(v)[0] == NULL_TEXT[0] <==> v.Null?
    ensures Text(v)[0] == TRUE_TEXT[0] <==> v.True?
    ensures Text(v)[0] == FALSE_TEXT[0] <==> v.False?
    ensures (Text(v)[0] == MINUS || IsDigit(Text(v)[0])) <==> v.Num?
    ensures !IsSpace(Text(v)[0])
  {
    if v.Num? {
      NumberFirst(v.n);
    }
  }

  lemma NumberFirst(n: Number)
    requires ValidNumber(n)
    ensures NumText(n) != []
    ensures NumText(n)[0] == MINUS || IsDigit(NumText(n)[0])
  {
    if !n.minus {
      assert NumText(n)[0] == n.whole[0];
    }
  }
}
