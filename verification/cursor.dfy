/** Pagination cursors (internal/cursor/cursor.go): "ts:skip" in unpadded base64url (section 5 of RFC 4648). */
module Cursors {
  import opened Bytes
  import opened Strconv

  datatype Position = Position(ts: int64, skip: nat)

  type sextet = x: int | 0 <= x < 64

  function Letter(v: sextet): byte {
    if v < 26 then 65 + v
    else if v < 52 then 97 + (v - 26)
    else if v < 62 then ZERO + (v - 52)
    else if v == 62 then MINUS
    else 95
  }

  function Sextet(c: byte): Option<sextet> {
    if 65 <= c <= 90 then Some(c - 65)
    else if 97 <= c <= 122 then Some(c - 97 + 26)
    else if IsDigit(c) then Some(c - ZERO + 52)
    else if c == MINUS then Some(62)
    else if c == 95 then Some(63)
    else None
  }

  /** [A-Za-z0-9_-] */
  predicate InAlphabet(s: bytes) {
    forall k | 0 <= k < |s| :: Sextet(s[k]).Some?
  }

  function EncodeToString(s: bytes): bytes {
    if |s| == 0 then []
    else if |s| == 1 then [Letter(s[0] / 4), Letter(s[0] % 4 * 16)]
    else if |s| == 2 then [Letter(s[0] / 4), Letter(s[0] % 4 * 16 + s[1] / 16), Letter(s[1] % 16 * 4)]
    else
      [Letter(s[0] / 4), Letter(s[0] % 4 * 16 + s[1] / 16), Letter(s[1] % 16 * 4 + s[2] / 64), Letter(s[2] % 64)]
      + EncodeToString(s[3..])
  }

  /** The decoder passes over line breaks wherever they stand. */
  function WithoutBreaks(s: bytes): bytes {
    if s == [] then []
    else (if s[0] == CR || s[0] == LF then [] else [s[0]]) + WithoutBreaks(s[1..])
  }

  /** Decodes groups of four; the last group may have two or three letters, whose spare bits are not checked. */
  function DecodeGroups(s: bytes): Option<bytes> {
    if |s| == 0 then Some([])
    else if !InAlphabet(if |s| < 4 then s else s[..4]) then None
    else if |s| == 1 then None
    else
      var v0 := Sextet(s[0]).value;
      var v1 := Sextet(s[1]).value;
      var b0 := v0 * 4 + v1 / 16;
      if |s| == 2 then Some([b0]) else
        var v2 := Sextet(s[2]).value;
        var b1 := v1 % 16 * 16 + v2 / 4;
        if |s| == 3 then Some([b0, b1]) else
          var v3 := Sextet(s[3]).value;
          var rest := DecodeGroups(s[4..]);
          if rest.None? then None else Some([b0, b1, v2 % 4 * 64 + v3] + rest.value)
  }

  function DecodeString(s: bytes): Option<bytes> {
    DecodeGroups(WithoutBreaks(s))
  }

  function FirstColon(s: bytes): (k: nat)
    ensures k <= |s|
    ensures forall i | 0 <= i < k :: s[i] != COLON
    ensures k < |s| ==> s[k] == COLON
  {
    if s == [] || s[0] == COLON then 0 else 1 + FirstColon(s[1..])
  }

  function RawCursor(ts: int64, skip: nat): bytes {
    FormatInt(ts) + [COLON] + FormatInt(skip)
  }

  function Encode(ts: int64, skip: nat): bytes {
    EncodeToString(RawCursor(ts, skip))
  }

  function Decode(s: bytes): Option<Position> {
    if s == [] then None else
      var raw := DecodeString(s);
      if raw.None? then None else
        var k := FirstColon(raw.value);
        if k == |raw.value| then None else
          var ts := ParseInt(raw.value[..k]);
          if ts.None? then None else
            var skip := ParseInt(raw.value[k + 1..]);
            if skip.None? || skip.value < 0 then None else Some(Position(ts.value, skip.value))
  }

  lemma SextetLetter(v: sextet)
    ensures Sextet(Letter(v)) == Some(v)
    ensures Letter(v) != CR && Letter(v) != LF
  {
  }

  lemma {:induction false} AlphabetHasNoBreaks(s: bytes)
    requires InAlphabet(s)
    ensures WithoutBreaks(s) == s
    decreases |s|
  {
    if s != [] {
      assert Sextet(s[0]).Some?;
      AlphabetHasNoBreaks(s[1..]);
    }
  }

  lemma {:induction false} EncodedAlphabet(s: bytes)
    ensures InAlphabet(EncodeToString(s))
    ensures s != [] ==> EncodeToString(s) != []
    decreases |s|
  {
    forall v: sextet ensures Sextet(Letter(v)).Some? {}
    if |s| >= 3 {
      EncodedAlphabet(s[3..]);
    }
  }

  /** One full group: three bytes in four letters and back. */
  lemma GroupRoundTrip(b0: byte, b1: byte, b2: byte)
    ensures var v0 := b0 / 4; var v1 := b0 % 4 * 16 + b1 / 16; var v2 := b1 % 16 * 4 + b2 / 64; var v3 := b2 % 64;
            && v0 * 4 + v1 / 16 == b0 && v1 % 16 * 16 + v2 / 4 == b1 && v2 % 4 * 64 + v3 == b2
  {
  }

  lemma FullGroup(b0: byte, b1: byte, b2: byte, rest: bytes)
    requires DecodeGroups(rest).Some?
    ensures DecodeGroups([Letter(b0 / 4), Letter(b0 % 4 * 16 + b1 / 16), Letter(b1 % 16 * 4 + b2 / 64), Letter(b2 % 64)] + rest)
            == Some([b0, b1, b2] + DecodeGroups(rest).value)
  {
    var t := [Letter(b0 / 4), Letter(b0 % 4 * 16 + b1 / 16), Letter(b1 % 16 * 4 + b2 / 64), Letter(b2 % 64)];
    GroupRoundTrip(b0, b1, b2);
    SextetLetter(b0 / 4);
    SextetLetter(b0 % 4 * 16 + b1 / 16);
    SextetLetter(b1 % 16 * 4 + b2 / 64);
    SextetLetter(b2 % 64);
    hide Letter, Sextet;
    assert (t + rest)[..4] == t && (t + rest)[4..] == rest;
  }

  lemma TwoBytes(b0: byte, b1: byte)
    ensures var t := [b0, b1]; DecodeGroups(EncodeToString(t)) == Some(t)
  {
    var v0, v1, v2 := b0 / 4, b0 % 4 * 16 + b1 / 16, b1 % 16 * 4;
    SextetLetter(v0);
    SextetLetter(v1);
    SextetLetter(v2);
    assert v0 * 4 + v1 / 16 == b0 && v1 % 16 * 16 + v2 / 4 == b1;
    hide Letter, Sextet;
    assert EncodeToString([b0, b1]) == [Letter(v0), Letter(v1), Letter(v2)];
  }

  lemma OneByte(b0: byte)
    ensures var t := [b0]; DecodeGroups(EncodeToString(t)) == Some(t)
  {
    var v0, v1 := b0 / 4, b0 % 4 * 16;
    SextetLetter(v0);
    SextetLetter(v1);
    assert v0 * 4 + v1 / 16 == b0;
    hide Letter, Sextet;
    assert EncodeToString([b0]) == [Letter(v0), Letter(v1)];
  }

  lemma {:induction false} Base64RoundTrip(s: bytes)
    ensures DecodeGroups(EncodeToString(s)) == Some(s)
    decreases |s|
  {
    hide Letter, Sextet;
    if |s| == 1 {
      OneByte(s[0]);
      assert s == [s[0]];
    } else if |s| == 2 {
      TwoBytes(s[0], s[1]);
      assert s == [s[0], s[1]];
    } else if |s| > 2 {
      Base64RoundTrip(s[3..]);
      FullGroup(s[0], s[1], s[2], EncodeToString(s[3..]));
      assert s == [s[0], s[1], s[2]] + s[3..];
    }
  }

  lemma DigitsHoldNoColon(v: int64)
    ensures FirstColon(FormatInt(v) + [COLON]) == |FormatInt(v)|
  {
    FormatIntBytes(v);
    var t := FormatInt(v) + [COLON];
    assert t[|FormatInt(v)|] == COLON;
    assert forall k | 0 <= k < |FormatInt(v)| :: t[k] == FormatInt(v)[k];
  }

  lemma {:induction false} FirstColonPrefix(s: bytes, t: bytes)
    requires FirstColon(s) < |s|
    ensures FirstColon(s + t) == FirstColon(s)
    decreases |s|
  {
    if s[0] != COLON {
      assert (s + t)[1..] == s[1..] + t;
      FirstColonPrefix(s[1..], t);
    }
  }

  /** A cursor decodes to the position it was made from, for every timestamp and every skip an int can hold. */
  lemma RoundTrip(ts: int64, skip: nat)
    requires FitsInt64(skip)
    ensures Decode(Encode(ts, skip)) == Some(Position(ts, skip))
  {
    var raw := RawCursor(ts, skip);
    var e := Encode(ts, skip);
    EncodedAlphabet(raw);
    AlphabetHasNoBreaks(e);
    Base64RoundTrip(raw);
    hide EncodeToString, DecodeGroups, WithoutBreaks, FormatInt, ParseInt;
    var k := |FormatInt(ts)|;
    DigitsHoldNoColon(ts);
    FirstColonPrefix(FormatInt(ts) + [COLON], FormatInt(skip));
    assert FirstColon(raw) == k;
    assert raw[..k] == FormatInt(ts) && raw[k + 1..] == FormatInt(skip);
    ParseFormat(ts);
    ParseFormat(skip);
  }

  /** A cursor is never empty, so the empty string can stand for "no further page", and it never needs escaping. */
  lemma CursorText(ts: int64, skip: nat)
    ensures Encode(ts, skip) != []
    ensures forall k | 0 <= k < |Encode(ts, skip)| ::
              var c := Encode(ts, skip)[k]; Sextet(c).Some? && c >= 32 && c != QUOTE && c != BACKSLASH
  {
    EncodedAlphabet(RawCursor(ts, skip));
    assert RawCursor(ts, skip) != [];
    var e := Encode(ts, skip);
    forall k | 0 <= k < |e| ensures Sextet(e[k]).Some? && e[k] >= 32 && e[k] != QUOTE && e[k] != BACKSLASH {}
  }
}
