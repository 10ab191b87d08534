/** Exactly which texts are cursors, and for what (internal/cursor/cursor.go, Decode): base64url by the numbers that letters
    and bytes spell (sections 4 and 5 of RFC 4648), and the two decimal numbers inside. */
module CursorTexts {
  import opened Bytes
  import opened Strconv
  import opened Cursors
  import opened Paging
  import Walks
  import SortedSets

  // The alphabet.

  /** [A-Za-z0-9_-] */
  predicate IsLetter(c: byte) {
    || 'A' as int <= c <= 'Z' as int || 'a' as int <= c <= 'z' as int || '0' as int <= c <= '9' as int
    || c == '-' as int || c == '_' as int
  }

  /** The table of RFC 4648, section 5. */
  lemma LetterSpelled(v: sextet)
    ensures v < 26 ==> Letter(v) == 'A' as int + v
    ensures 26 <= v < 52 ==> Letter(v) == 'a' as int + (v - 26)
    ensures 52 <= v < 62 ==> Letter(v) == '0' as int + (v - 52)
    ensures v == 62 ==> Letter(v) == '-' as int
    ensures v == 63 ==> Letter(v) == '_' as int
  {
  }

  /** A letter counts as its place in the table, and no other byte counts. */
  lemma SextetSpelled(c: byte, v: sextet)
    ensures Sextet(c) == Some(v) <==> c == Letter(v)
    ensures Sextet(c).Some? <==> IsLetter(c)
  {
  }

  // Numbers.

  /** The number that letters spell behind the number `acc`, six bits each. */
  function LettersNumber(acc: nat, s: bytes): nat
    requires InAlphabet(s)
    decreases |s|
  {
    if s == [] then acc else LettersNumber(64 * acc + Sextet(s[0]).value, s[1..])
  }

  /** The number that bytes spell behind the number `acc`, eight bits each. */
  function BytesNumber(acc: nat, s: bytes): nat
    decreases |s|
  {
    if s == [] then acc else BytesNumber(256 * acc + s[0], s[1..])
  }

  /** The values of the bits that are left over behind the last whole byte. */
  function Spare(n: nat): nat {
    if n % 4 == 2 then 16 else if n % 4 == 3 then 4 else 1
  }

  /** `s` is a base64url text of `raw`: letters only, as many bytes as they have room for, and the bits of the bytes in front;
      left-over bits may be anything. */
  ghost predicate IsTextOf(s: bytes, raw: bytes) {
    InAlphabet(s) && |s| % 4 != 1 && |raw| == |s| * 6 / 8 && SameBits(0, s, raw)
  }

  ghost predicate SameBits(acc: nat, s: bytes, raw: bytes)
    requires InAlphabet(s)
  {
    BytesNumber(acc, raw) * Spare(|s|) <= LettersNumber(acc, s) < (BytesNumber(acc, raw) + 1) * Spare(|s|)
  }

  lemma LettersOfGroup(acc: nat, s: bytes)
    requires InAlphabet(s) && |s| >= 4
    ensures InAlphabet(s[4..])
    ensures LettersNumber(acc, s) ==
            LettersNumber(16777216 * acc + (Sextet(s[0]).value * 262144 + Sextet(s[1]).value * 4096
                                            + Sextet(s[2]).value * 64 + Sextet(s[3]).value), s[4..])
  {
    hide Sextet;
    var s1, s2, s3 := s[1..], s[2..], s[3..];
    assert s1[1..] == s2 && s2[1..] == s3 && s3[1..] == s[4..];
    var a1 := 64 * acc + Sextet(s[0]).value;
    var a2 := 64 * a1 + Sextet(s[1]).value;
    var a3 := 64 * a2 + Sextet(s[2]).value;
    assert LettersNumber(acc, s) == LettersNumber(a1, s1) && LettersNumber(a1, s1) == LettersNumber(a2, s2);
    assert LettersNumber(a2, s2) == LettersNumber(a3, s3);
    assert LettersNumber(a3, s3) == LettersNumber(64 * a3 + Sextet(s[3]).value, s[4..]);
  }

  lemma BytesOfGroup(acc: nat, r: bytes)
    requires |r| >= 3
    ensures BytesNumber(acc, r) == BytesNumber(16777216 * acc + (r[0] as int * 65536 + r[1] as int * 256 + r[2]), r[3..])
  {
    var r1, r2 := r[1..], r[2..];
    assert r1[1..] == r2 && r2[1..] == r[3..];
    var a1 := 256 * acc + r[0];
    var a2 := 256 * a1 + r[1];
    assert BytesNumber(acc, r) == BytesNumber(a1, r1) && BytesNumber(a1, r1) == BytesNumber(a2, r2);
    assert BytesNumber(a2, r2) == BytesNumber(256 * a2 + r[2], r[3..]);
  }

  lemma SameGroup(v0: sextet, v1: sextet, v2: sextet, v3: sextet)
    ensures (v0 * 4 + v1 / 16) * 65536 + (v1 % 16 * 16 + v2 / 4) * 256 + (v2 % 4 * 64 + v3)
            == v0 * 262144 + v1 * 4096 + v2 * 64 + v3
  {
  }

  /** Soundness: what is decoded is what the letters spell. */
  lemma {:induction false} DecodedIsText(acc: nat, s: bytes)
    requires DecodeGroups(s).Some?
    ensures var raw := DecodeGroups(s).value;
            InAlphabet(s) && |s| % 4 != 1 && |raw| == |s| * 6 / 8 && SameBits(acc, s, raw)
    decreases |s|
  {
    hide Sextet, LettersNumber, BytesNumber;
    var raw := DecodeGroups(s).value;
    if |s| < 4 {
      ShortIsText(acc, s);
    } else {
      var t, r := s[4..], raw[3..];
      var v0, v1, v2, v3 := Sextet(s[0]).value, Sextet(s[1]).value, Sextet(s[2]).value, Sextet(s[3]).value;
      var g: nat := v0 as int * 262144 + v1 as int * 4096 + v2 as int * 64 + v3;
      assert DecodeGroups(t) == Some(r);
      SameGroup(v0, v1, v2, v3);
      DecodedIsText(16777216 * acc + g, t);
      InFront(s);
      hide DecodeGroups, SameBits, InAlphabet;
      assert |s| == |t| + 4 && |raw| == |r| + 3;
      GroupInFront(acc, s, raw, g);
    }
  }

  lemma GroupInFront(acc: nat, s: bytes, raw: bytes, g: nat)
    requires InAlphabet(s) && |s| >= 4 && |raw| >= 3
    requires g == Sextet(s[0]).value as int * 262144 + Sextet(s[1]).value as int * 4096 + Sextet(s[2]).value as int * 64 + Sextet(s[3]).value
    requires g == raw[0] as int * 65536 + raw[1] as int * 256 + raw[2]
    requires InAlphabet(s[4..]) && SameBits(16777216 * acc + g, s[4..], raw[3..])
    ensures SameBits(acc, s, raw)
  {
    hide Sextet, LettersNumber, BytesNumber;
    LettersOfGroup(acc, s);
    BytesOfGroup(acc, raw);
    assert Spare(|s|) == Spare(|s[4..]|);
  }

  lemma InFront(s: bytes)
    requires |s| >= 4 && InAlphabet(s[..4]) && InAlphabet(s[4..])
    ensures InAlphabet(s)
  {
    hide Sextet;
    forall k | 0 <= k < |s| ensures Sextet(s[k]).Some? {
      assert s[k] == if k < 4 then s[..4][k] else s[4..][k - 4];
    }
  }

  lemma ShortIsText(acc: nat, s: bytes)
    requires |s| < 4 && DecodeGroups(s).Some?
    ensures var raw := DecodeGroups(s).value;
            InAlphabet(s) && |s| % 4 != 1 && |raw| == |s| * 6 / 8 && SameBits(acc, s, raw)
  {
    hide Sextet;
    var raw := DecodeGroups(s).value;
    if |s| == 2 {
      assert s[1..][1..] == [] && raw[1..] == [];
      var a1 := 64 * acc + Sextet(s[0]).value;
      assert LettersNumber(acc, s) == LettersNumber(a1, s[1..]);
      assert LettersNumber(a1, s[1..]) == LettersNumber(64 * a1 + Sextet(s[1]).value, []);
      assert BytesNumber(acc, raw) == BytesNumber(256 * acc + raw[0], []);
    } else if |s| == 3 {
      assert s[1..][1..] == s[2..] && s[2..][1..] == [] && raw[1..][1..] == [];
      var a1 := 64 * acc + Sextet(s[0]).value;
      var a2 := 64 * a1 + Sextet(s[1]).value;
      assert LettersNumber(acc, s) == LettersNumber(a1, s[1..]) && LettersNumber(a1, s[1..]) == LettersNumber(a2, s[2..]);
      assert LettersNumber(a2, s[2..]) == LettersNumber(64 * a2 + Sextet(s[2]).value, []);
      var b1 := 256 * acc + raw[0];
      assert BytesNumber(acc, raw) == BytesNumber(b1, raw[1..]) && BytesNumber(b1, raw[1..]) == BytesNumber(256 * b1 + raw[1], []);
    }
  }

  lemma {:induction false} TextDecodes(s: bytes)
    requires InAlphabet(s) && |s| % 4 != 1
    ensures DecodeGroups(s).Some?
    decreases |s|
  {
    hide Sextet;
    if |s| >= 4 {
      TextDecodes(s[4..]);
    }
  }

  lemma {:induction false} BytesInjective(x: nat, a: bytes, y: nat, b: bytes)
    requires |a| == |b| && BytesNumber(x, a) == BytesNumber(y, b)
    ensures x == y && a == b
    decreases |a|
  {
    if a != [] {
      BytesInjective(256 * x + a[0], a[1..], 256 * y + b[0], b[1..]);
      assert a == [a[0]] + a[1..] && b == [b[0]] + b[1..];
    }
  }

  /** The decoder accepts exactly the base64url texts, and gives the bytes that they are texts of. */
  lemma Base64Exact(s: bytes, raw: bytes)
    ensures DecodeGroups(s) == Some(raw) <==> IsTextOf(s, raw)
  {
    hide DecodeGroups, LettersNumber, BytesNumber, InAlphabet;
    if DecodeGroups(s) == Some(raw) {
      DecodedIsText(0, s);
    } else if IsTextOf(s, raw) {
      TextDecodes(s);
      DecodedIsText(0, s);
      var other := DecodeGroups(s).value;
      assert BytesNumber(0, raw) == BytesNumber(0, other);
      BytesInjective(0, raw, 0, other);
    }
  }

  // Line breaks.

  /** Line breaks are taken out and nothing else, wherever they stand. */
  lemma {:induction false} BreaksTakenOut(a: bytes, b: bytes)
    ensures WithoutBreaks(a + b) == WithoutBreaks(a) + WithoutBreaks(b)
    decreases |a|
  {
    if a == [] {
      assert a + b == b;
    } else {
      assert (a + b)[1..] == a[1..] + b;
      BreaksTakenOut(a[1..], b);
    }
  }

  lemma OneTakenOut(c: byte)
    ensures WithoutBreaks([c]) == if c == '\r' as int || c == '\n' as int then [] else [c]
  {
    assert [c][1..] == [];
  }

  lemma OthersStay(s: bytes, i: nat)
    requires i < |s| && s[i] != '\r' as int && s[i] != '\n' as int
    ensures s[i] in WithoutBreaks(s)
  {
    hide WithoutBreaks;
    assert s == (s[..i] + [s[i]]) + s[i + 1..];
    BreaksTakenOut(s[..i] + [s[i]], s[i + 1..]);
    BreaksTakenOut(s[..i], [s[i]]);
    OneTakenOut(s[i]);
  }

  // The cursor.

  /** Two decimal numbers with a colon between them, the second one not negative. */
  ghost predicate IsPosition(raw: bytes, a: bytes, b: bytes, t: int64, k: nat) {
    && raw == a + ([COLON] + b) && COLON !in a
    && ParseInt(a) == Some(t) && FitsInt64(k) && ParseInt(b) == Some(k)
  }

  lemma {:induction false} ColonAt(a: bytes, b: bytes)
    requires COLON !in a
    ensures FirstColon(a + ([COLON] + b)) == |a|
    decreases |a|
  {
    if a == [] {
      assert a + ([COLON] + b) == [COLON] + b;
    } else {
      assert (a + ([COLON] + b))[1..] == a[1..] + ([COLON] + b);
      ColonAt(a[1..], b);
    }
  }

  ghost predicate Splits(raw: bytes, t: int64, k: nat) {
    var c := FirstColon(raw);
    c < |raw| && ParseInt(raw[..c]) == Some(t) && FitsInt64(k) && ParseInt(raw[c + 1..]) == Some(k)
  }

  lemma SplitsAt(raw: bytes, t: int64, k: nat) returns (a: bytes, b: bytes)
    requires Splits(raw, t, k)
    ensures IsPosition(raw, a, b, t, k)
  {
    hide ParseInt;
    var c := FirstColon(raw);
    a, b := raw[..c], raw[c + 1..];
    assert raw == a + ([COLON] + b);
  }

  lemma PositionSplits(raw: bytes, a: bytes, b: bytes, t: int64, k: nat)
    requires IsPosition(raw, a, b, t, k)
    ensures Splits(raw, t, k)
  {
    hide ParseInt, FirstColon;
    ColonAt(a, b);
    assert raw[..|a|] == a && raw[|a| + 1..] == b;
  }

  /** Exactly which texts are cursors, and of what: not empty, and, line breaks taken out, a base64url text of a timestamp and
      a skip count in decimal with a colon between them. Everything else is an invalid cursor. */
  lemma DecodeExact(s: bytes, t: int64, k: nat)
    ensures Cursors.Decode(s) == Some(Position(t, k)) <==>
            s != [] && exists raw, a, b :: IsTextOf(WithoutBreaks(s), raw) && IsPosition(raw, a, b, t, k)
  {
    hide DecodeGroups, WithoutBreaks, ParseInt, IsTextOf, FirstColon, IsPosition;
    var w := WithoutBreaks(s);
    if Cursors.Decode(s) == Some(Position(t, k)) {
      var raw := DecodeGroups(w).value;
      Base64Exact(w, raw);
      var a, b := SplitsAt(raw, t, k);
    }
    if s != [] && exists raw, a, b :: IsTextOf(w, raw) && IsPosition(raw, a, b, t, k) {
      var raw, a, b :| IsTextOf(w, raw) && IsPosition(raw, a, b, t, k);
      Base64Exact(w, raw);
      PositionSplits(raw, a, b, t, k);
    }
  }

  /** The cursor handed out for a position is the text of its two numbers as they are usually written. */
  lemma EncodeSpelled(t: int64, k: nat)
    ensures IsTextOf(Cursors.Encode(t, k), FormatInt(t) + (Ascii(":") + FormatInt(k)))
  {
    hide FormatInt, EncodeToString, IsTextOf, DecodeGroups;
    var raw := FormatInt(t) + (Ascii(":") + FormatInt(k));
    assert raw == RawCursor(t, k);
    Base64RoundTrip(raw);
    Base64Exact(Cursors.Encode(t, k), raw);
  }

  /** A cursor with a byte that is neither a letter of the alphabet nor a line break is refused by both stores, whatever they
      hold. */
  lemma BadByteRefused(s: bytes, i: nat, ms: seq<bytes>, from: int64, to: int64, limit: nat)
    requires i < |s| && s[i] != '\r' as int && s[i] != '\n' as int && !IsLetter(s[i])
    requires AllEncoded(ms) && limit >= 1
    ensures Walks.Range(ms, from, to, limit, s).None? && SortedSets.Range(ms, from, to, limit, s).None?
  {
    hide DecodeGroups, WithoutBreaks, ParseInt, FirstColon, Sextet;
    var w := WithoutBreaks(s);
    OthersStay(s, i);
    SextetSpelled(s[i], 0);
    var k :| 0 <= k < |w| && w[k] == s[i];
    assert !InAlphabet(w);
    if DecodeGroups(w).Some? {
      Base64Exact(w, DecodeGroups(w).value);
    }
  }
}
