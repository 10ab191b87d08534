/** Byte strings, the `Option` and `Result` wrappers, and the one fact every parser proof here
    rests on: a text sits at a position of a buffer exactly when its parts sit one after the other. */
module Bytes {
  type byte = x: int | 0 <= x < 256
  type bytes = seq<byte>

  datatype Option<+T> = None | Some(value: T)
  datatype Result<+T, +E> = Ok(value: T) | Err(error: E)

  const TAB: byte := 9
  const LF: byte := 10
  const CR: byte := 13
  const SPACE: byte := 32
  const QUOTE: byte := 34
  const STAR: byte := 42
  const DOLLAR: byte := 36
  const PLUS: byte := 43
  const COMMA: byte := 44
  const MINUS: byte := 45
  const DOT: byte := 46
  const ZERO: byte := 48
  const NINE: byte := 57
  const COLON: byte := 58
  const UPPER_E: byte := 69
  const LBRACKET: byte := 91
  const BACKSLASH: byte := 92
  const RBRACKET: byte := 93
  const LOWER_E: byte := 101
  const LBRACE: byte := 123
  const RBRACE: byte := 125
  const CRLF: bytes := [13, 10]

  /** The bytes of an ASCII text. */
  function Ascii(s: string): (b: bytes)
    requires forall i | 0 <= i < |s| :: s[i] as int < 128
    ensures |b| == |s|
  {
    seq(|s|, i requires 0 <= i < |s| => s[i] as int)
  }

  predicate IsDigit(c: byte) {
    ZERO <= c <= NINE
  }

  predicate AllDigits(s: bytes) {
    forall k | 0 <= k < |s| :: IsDigit(s[k])
  }

  /** The text `t` occupies the bytes of `b` that start at `i`. */
  ghost predicate At(b: bytes, i: nat, t: bytes) {
    i + |t| <= |b| && b[i..i + |t|] == t
  }

  lemma AtByte(b: bytes, i: nat, t: bytes, k: nat)
    requires At(b, i, t) && k < |t|
    ensures i + k < |b| && b[i + k] == t[k]
  {
    assert b[i..i + |t|][k] == t[k];
  }

  lemma AtSplit(b: bytes, i: nat, s: bytes, t: bytes)
    ensures At(b, i, s + t) <==> At(b, i, s) && At(b, i + |s|, t)
  {
    if i + |s + t| <= |b| {
      var w := b[i..i + |s + t|];
      assert w == b[i..i + |s|] + b[i + |s|..i + |s| + |t|];
      if w == s + t {
        assert w[..|s|] == s && w[|s|..] == t;
        assert w[..|s|] == b[i..i + |s|];
      }
    }
  }

  lemma AtWhole(b: bytes, pre: bytes, t: bytes, post: bytes)
    requires b == pre + t + post
    ensures At(b, |pre|, t)
  {
    assert b[|pre|..|pre| + |t|] == t;
  }

  lemma AtSlice(b: bytes, i: nat, t: bytes)
    requires At(b, i, t)
    ensures i + |t| <= |b| && b[i..i + |t|] == t
  {
  }

  lemma AtInside(b: bytes, i: nat, t: bytes)
    requires At(b, i, t)
    ensures i <= |b|
  {
  }
}
