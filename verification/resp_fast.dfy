/** The fast array reader against the generic one (internal/resp/resp.go, ReadFixedBulkArray and parseIntLine).
    The fast reader accumulates integers in 64 bits without an overflow check, so the two agree exactly while every
    integer line it passes fits in 64 bits. */
module RespFast {
  import opened Bytes
  import opened Strconv
  import opened Resp

  /** An integer line as both readers accept it: an optional '-' and at least one digit. */
  predicate IsIntText(s: bytes) {
    var ds := if s != [] && s[0] == MINUS then s[1..] else s;
    ds != [] && AllDigits(ds)
  }

  /** The integer such a line spells, of any size. */
  function ExactValue(s: bytes): int
    requires IsIntText(s)
  {
    if s[0] == MINUS then -(Val(s[1..]) as int) else Val(s)
  }

  function LineText(d: bytes, p: nat): bytes
    requires p <= |d|
  {
    var j := LineFeed(d, p);
    if j == p then [] else d[p..j - 1]
  }

  predicate LineFits(d: bytes, p: nat) {
    p <= |d| && IsIntText(LineText(d, p)) && FitsInt64(ExactValue(LineText(d, p)))
  }

  lemma ParseIntText(s: bytes)
    requires IsIntText(s)
    ensures ParseInt(s) == if FitsInt64(ExactValue(s)) then Some(ExactValue(s)) else None
  {
    if s[0] == MINUS {
      assert s == [MINUS] + s[1..];
      ParseDigits(s[1..]);
    } else {
      ParseDigits(s);
    }
  }

  lemma ValSnoc(s: bytes, c: byte)
    requires AllDigits(s) && IsDigit(c)
    ensures AllDigits(s + [c]) && Val(s + [c]) == 10 * Val(s) + (c - ZERO)
  {
    assert (s + [c])[..|s|] == s;
  }

  /** The digits `done` are already in the 64-bit register; `tail` is the rest of the line. */
  lemma {:induction false} DigitsSound(d: bytes, p: nat, done: bytes, neg: bool) returns (tail: bytes)
    requires p <= |d| && AllDigits(done) && (neg || done != [])
    requires IntLineFrom(d, p, Wrap64(Val(done)), neg, done != []).r.Ok?
    ensures AllDigits(tail) && AllDigits(done + tail) && done + tail != [] && At(d, p, tail + CRLF)
    ensures var o := IntLineFrom(d, p, Wrap64(Val(done)), neg, done != []);
            && o.pos == p + |tail| + 2
            && o.r.value == Wrap64(if neg then -(Val(done + tail) as int) else Val(done + tail))
    decreases |d| - p
  {
    hide Wrap64, At, Val;
    if IsDigit(d[p]) {
      var c := d[p];
      ValSnoc(done, c);
      WrapDigit(Val(done), c - ZERO);
      var rest := DigitsSound(d, p + 1, done + [c], neg);
      tail := [c] + rest;
      assert done + [c] + rest == done + tail;
      PrependAt(d, p, rest);
    } else {
      tail := [];
      assert done + tail == done;
      WrapNegate(Val(done));
      EndAt(d, p);
    }
  }

  lemma PrependAt(d: bytes, p: nat, rest: bytes)
    requires p < |d| && At(d, p + 1, rest + CRLF)
    ensures At(d, p, [d[p]] + rest + CRLF)
  {
    assert At(d, p, [d[p]]);
    AtSplit(d, p, [d[p]], rest + CRLF);
    assert [d[p]] + rest + CRLF == [d[p]] + (rest + CRLF);
  }

  lemma EndAt(d: bytes, p: nat)
    requires p + 1 < |d| && d[p] == CR && d[p + 1] == LF
    ensures At(d, p, [] + CRLF)
  {
    assert d[p..p + 2] == [d[p], d[p + 1]];
  }

  lemma DigitStep(d: bytes, p: nat, acc: int64, neg: bool, seen: bool)
    requires p < |d| && IsDigit(d[p])
    ensures IntLineFrom(d, p, acc, neg, seen) == IntLineFrom(d, p + 1, Wrap64(10 * acc + (d[p] - ZERO)), neg, true)
  {
    hide Wrap64;
  }

  lemma SignStep(d: bytes, p: nat, acc: int64)
    requires p < |d| && d[p] == MINUS
    ensures IntLineFrom(d, p, acc, false, false) == IntLineFrom(d, p + 1, acc, true, false)
  {
    hide Wrap64;
  }

  lemma OkStep(d: bytes, p: nat, acc: int64)
    requires p <= |d| && IntLineFrom(d, p, acc, false, false).r.Ok?
    ensures p < |d| && (d[p] == MINUS || IsDigit(d[p]))
  {
    hide Wrap64;
  }

  lemma OneDigit(c: byte)
    requires IsDigit(c)
    ensures AllDigits([c]) && Val([c]) == c - ZERO && Val([]) == 0
  {
    ValSnoc([], c);
    assert [] + [c] == [c];
  }

  /** The first byte of an integer line: a sign leaves the register at zero, a digit enters it. */
  lemma StartLine(d: bytes, p: nat)
    requires p <= |d|
    ensures IntLine(d, p) == IntLineFrom(d, p, Wrap64(Val([])), false, false)
    ensures IntLine(d, p).r.Ok? ==> p < |d| && (d[p] == MINUS || IsDigit(d[p]))
    ensures p < |d| && d[p] == MINUS ==> IntLine(d, p) == IntLineFrom(d, p + 1, Wrap64(Val([])), true, false)
    ensures p < |d| && IsDigit(d[p]) ==>
              AllDigits([d[p]]) && IntLine(d, p) == IntLineFrom(d, p + 1, Wrap64(Val([d[p]])), false, true)
  {
    OneDigit(ZERO);
    hide IntLineFrom, Wrap64, Val;
    assert Wrap64(Val([])) == 0;
    if IntLine(d, p).r.Ok? {
      OkStep(d, p, 0);
    }
    if p < |d| && d[p] == MINUS {
      SignStep(d, p, 0);
    }
    if p < |d| && IsDigit(d[p]) {
      DigitStep(d, p, 0, false, false);
      OneDigit(d[p]);
    }
  }

  lemma SignedText(ds: bytes)
    requires ds != [] && AllDigits(ds)
    ensures IsIntText(ds) && ExactValue(ds) == Val(ds)
    ensures IsIntText([MINUS] + ds) && ExactValue([MINUS] + ds) == -(Val(ds) as int)
  {
    hide Val;
    assert IsDigit(ds[0]);
    assert ([MINUS] + ds)[1..] == ds;
  }

  lemma IntTextOfLine(d: bytes, p: nat) returns (s: bytes)
    requires p <= |d| && IntLine(d, p).r.Ok?
    ensures IsIntText(s) && At(d, p, s + CRLF)
    ensures IntLine(d, p) == Outcome(Ok(Wrap64(ExactValue(s))), p + |s| + 2)
  {
    hide At, IntLine, IntLineFrom, Wrap64, Val, IsIntText, ExactValue;
    StartLine(d, p);
    if d[p] == MINUS {
      var ds := DigitsSound(d, p + 1, [], true);
      assert [] + ds == ds;
      s := [MINUS] + ds;
      PrependAt(d, p, ds);
      SignedText(ds);
    } else {
      var rest := DigitsSound(d, p + 1, [d[p]], false);
      s := [d[p]] + rest;
      PrependAt(d, p, rest);
      SignedText(s);
    }
  }

  lemma IntTextHasNoBreak(s: bytes)
    requires IsIntText(s)
    ensures forall k | 0 <= k < |s| :: s[k] != LF
  {
    assert s[0] == MINUS ==> forall k | 1 <= k < |s| :: s[k] == s[1..][k - 1];
  }

  /** What an accepted integer line is: text, terminator, and the value modulo 2^64. */
  lemma IntLineSound(d: bytes, p: nat)
    requires p <= |d| && IntLine(d, p).r.Ok?
    ensures var o := IntLine(d, p);
            && IsIntText(LineText(d, p)) && o.r.value == Wrap64(ExactValue(LineText(d, p)))
            && ReadLine(d, p) == Outcome(Ok(LineText(d, p)), o.pos)
  {
    hide IsIntText, ExactValue, IntLine, ReadLine;
    var s := IntTextOfLine(d, p);
    IntTextHasNoBreak(s);
    ReadLineAt(d, p, s);
    LineFeedAt(d, p, s);
    AtSplit(d, p, s, CRLF);
    assert LineText(d, p) == s;
  }

  /** Reading from behind the digits `done` of a digit line. */
  lemma {:induction false} DigitsComplete(d: bytes, p: nat, done: bytes, tail: bytes, neg: bool)
    requires At(d, p, tail + CRLF) && AllDigits(done) && AllDigits(tail) && done + tail != []
    ensures p <= |d| && AllDigits(done + tail)
    ensures IntLineFrom(d, p, Wrap64(Val(done)), neg, done != []) ==
            Outcome(Ok(Wrap64(if neg then -(Val(done + tail) as int) else Val(done + tail))), p + |tail| + 2)
    decreases |tail|
  {
    hide Wrap64, Val;
    if tail != [] {
      assert tail + CRLF == [tail[0]] + (tail[1..] + CRLF);
      AtSplit(d, p, [tail[0]], tail[1..] + CRLF);
      AtByte(d, p, [tail[0]], 0);
      assert IsDigit(tail[0]);
      ValSnoc(done, tail[0]);
      WrapDigit(Val(done), tail[0] - ZERO);
      DigitsComplete(d, p + 1, done + [tail[0]], tail[1..], neg);
      assert done + [tail[0]] + tail[1..] == done + tail;
    } else {
      assert done + tail == done && tail + CRLF == CRLF;
      AtByte(d, p, CRLF, 0);
      AtByte(d, p, CRLF, 1);
      WrapNegate(Val(done));
    }
  }

  lemma IntLineAt(d: bytes, p: nat, v: int64)
    requires At(d, p, FormatInt(v) + CRLF)
    ensures p <= |d| && IntLine(d, p) == Outcome(Ok(v), p + |FormatInt(v)| + 2)
  {
    hide FormatNat, At, IntLine, IntLineFrom, Val;
    var n: nat := if v < 0 then -(v as int) else v;
    ValFormatNat(n);
    AtInside(d, p, FormatInt(v) + CRLF);
    UnsignedLineAt(d, if v < 0 then p + 1 else p, FormatNat(n)) by {
      if v < 0 {
        assert FormatInt(v) + CRLF == [MINUS] + (FormatNat(n) + CRLF);
        AtSplit(d, p, [MINUS], FormatNat(n) + CRLF);
      }
    }
    if v < 0 {
      assert FormatInt(v) + CRLF == [MINUS] + (FormatNat(n) + CRLF);
      AtByte(d, p, FormatInt(v) + CRLF, 0);
      StartLine(d, p);
    }
  }

  lemma UnsignedLineAt(d: bytes, p: nat, ds: bytes)
    requires At(d, p, ds + CRLF) && AllDigits(ds) && ds != []
    ensures p <= |d|
    ensures IntLine(d, p) == Outcome(Ok(Wrap64(Val(ds))), p + |ds| + 2)
    ensures IntLineFrom(d, p, Wrap64(Val([])), true, false) == Outcome(Ok(Wrap64(-(Val(ds) as int))), p + |ds| + 2)
  {
    hide At, IntLine, IntLineFrom, Val, Wrap64;
    AtInside(d, p, ds + CRLF);
    assert [] + ds == ds;
    StartLine(d, p);
    DigitsComplete(d, p, [], ds, false);
    DigitsComplete(d, p, [], ds, true);
  }

  // Refinement.

  function Bulks(ms: seq<bytes>): (vs: seq<Value>)
    ensures |vs| == |ms|
  {
    seq(|ms|, i requires 0 <= i < |ms| => Bulk(ms[i]))
  }

  ghost predicate MembersFit(d: bytes, p: nat, size: nat, n: nat)
    requires p <= |d|
    decreases n
  {
    n == 0 || (LineFits(d, p + 1) && MembersFit(d, FixedMember(d, p, size).pos, size, n - 1))
  }

  /** Every integer line of the array that starts at `p` spells a 64-bit integer. */
  ghost predicate AllLinesFit(d: bytes, p: nat, size: nat)
    requires p < |d|
  {
    LineFits(d, p + 1) &&
    var n := ExactValue(LineText(d, p + 1));
    n > 0 ==> MembersFit(d, IntLine(d, p + 1).pos, size, n)
  }

  lemma MemberRefines(d: bytes, p: nat, size: nat)
    requires p <= |d| && FixedMember(d, p, size).r.Ok?
    ensures p < |d|
    ensures LineFits(d, p + 1) ==>
              ReadReply(d, p) == Outcome(Ok(Bulk(FixedMember(d, p, size).r.value)), FixedMember(d, p, size).pos)
    ensures !LineFits(d, p + 1) ==> ReadReply(d, p).r.Err?
  {
    hide IntLine, ParseInt, ReadLine, LineText, IsIntText, ExactValue;
    IntLineSound(d, p + 1);
    ParseIntText(LineText(d, p + 1));
  }

  lemma {:induction false} MembersRefine(d: bytes, p: nat, size: nat, n: nat)
    requires p <= |d| && FixedMembers(d, p, size, n).r.Ok?
    ensures MembersFit(d, p, size, n) ==>
              ReadMany(d, p, n) == Outcome(Ok(Bulks(FixedMembers(d, p, size, n).r.value)), FixedMembers(d, p, size, n).pos)
    ensures !MembersFit(d, p, size, n) ==> ReadMany(d, p, n).r.Err?
    decreases n
  {
    hide FixedMember, ReadReply, LineFits;
    if n > 0 {
      var m := FixedMember(d, p, size);
      MemberRefines(d, p, size);
      MembersRefine(d, m.pos, size, n - 1);
      var rest := FixedMembers(d, m.pos, size, n - 1).r.value;
      assert Bulks([m.r.value] + rest) == [Bulk(m.r.value)] + Bulks(rest);
    }
  }

  /** Whenever the fast reader succeeds, the generic reader of the same stream gives the same members and stops at
      the same byte if every integer line fits in 64 bits, and fails if one does not. */
  lemma FastRefinesGeneric(d: bytes, p: nat, size: nat)
    requires p <= |d| && FixedArray(d, p, size).r.Ok?
    ensures p < |d|
    ensures var ms := FixedArray(d, p, size).r.value;
            AllLinesFit(d, p, size) ==>
              && ReadReply(d, p).pos == FixedArray(d, p, size).pos
              && (ReadReply(d, p).r == Ok(Array(Bulks(ms))) || (ms == [] && ReadReply(d, p).r == Ok(Nil)))
    ensures !AllLinesFit(d, p, size) ==> ReadReply(d, p).r.Err?
  {
    hide IntLine, ParseInt, ReadLine, LineText, IsIntText, ExactValue, FixedMembers, ReadMany, MembersFit;
    IntLineSound(d, p + 1);
    ParseIntText(LineText(d, p + 1));
    var h := IntLine(d, p + 1);
    if LineFits(d, p + 1) {
      var n := ExactValue(LineText(d, p + 1));
      assert h.r.value == n;
      if n > 0 {
        MembersRefine(d, h.pos, size, n);
      } else if n == 0 {
        assert ReadMany(d, h.pos, 0) == Outcome(Ok([]), h.pos) by {
          ReadNone(d, h.pos);
        }
        assert Bulks([]) == [];
      }
    }
  }

  lemma OverflowingLine(d: bytes, p: nat, huge: bytes)
    requires AllDigits(huge) && huge != [] && Val(huge) == TWO64 + 1 && At(d, p, huge + CRLF)
    ensures p <= |d| && IntLine(d, p) == Outcome(Ok(1), p + |huge| + 2) && !LineFits(d, p)
  {
    hide IntLine, IntLineFrom, Val, IsIntText, ExactValue, At, FormatNat;
    AtSplit(d, p, huge, CRLF);
    AtByte(d, p, huge, 0);
    AtInside(d, p, huge + CRLF);
    UnsignedLineAt(d, p, huge);
    SignedText(huge);
    IntTextHasNoBreak(huge);
    LineTextIs(d, p, huge);
  }

  lemma LineTextIs(d: bytes, p: nat, t: bytes)
    requires At(d, p, t + CRLF) && NoBreak(t) && p <= |d|
    ensures LineText(d, p) == t
  {
    hide At;
    LineFeedAt(d, p, t);
    AtSplit(d, p, t, CRLF);
    AtSlice(d, p, t);
  }

  lemma OverflowingMember(d: bytes, p: nat, huge: bytes)
    requires AllDigits(huge) && huge != [] && Val(huge) == TWO64 + 1
    requires At(d, p, [DOLLAR] + ((huge + CRLF) + [65, 13, 10]))
    ensures p < |d| && FixedMember(d, p, 1).r == Ok([65]) && !LineFits(d, p + 1)
  {
    hide IntLine, AllDigits, Val, At, LineFits;
    var q := p + 1 + |huge + CRLF|;
    AtSplit(d, p, [DOLLAR], (huge + CRLF) + [65, 13, 10]);
    AtSplit(d, p + 1, huge + CRLF, [65, 13, 10]);
    AtByte(d, p, [DOLLAR], 0);
    OverflowingLine(d, p + 1, huge);
    AtSlice(d, q, [65, 13, 10]);
    assert d[q..q + 1] == [d[q..q + 3][0]];
  }

  /** The missing overflow check at work: in a one-member array a length that spells 2^64 + 1 passes for 1, where the
      generic reader reports an error. */
  lemma OverflowIsAccepted(d: bytes, one: int64, huge: bytes)
    requires one == 1 && AllDigits(huge) && huge != [] && Val(huge) == TWO64 + 1
    requires d == Line(STAR, FormatInt(one)) + ([DOLLAR] + ((huge + CRLF) + [65, 13, 10]))
    ensures FixedArray(d, 0, 1).r == Ok([[65]]) && ReadReply(d, 0).r.Err?
  {
    hide FormatInt, AllDigits, IntLine, FixedMember, At, LineFits, Val, FixedArray, AllLinesFit, ReadReply;
    var head := Line(STAR, FormatInt(one));
    AtWhole(d, [], d, []);
    assert d == [] + d + [];
    AtSplit(d, 0, head, [DOLLAR] + ((huge + CRLF) + [65, 13, 10]));
    AtSplit(d, 0, [STAR], FormatInt(one) + CRLF);
    AtByte(d, 0, [STAR], 0);
    IntLineAt(d, 1, one);
    OverflowingMember(d, |head|, huge);
    OneMemberArray(d, 0, 1);
    FastRefinesGeneric(d, 0, 1);
  }

  /** Such a stream exists. */
  lemma OverflowExample() returns (d: bytes)
    ensures FixedArray(d, 0, 1).r == Ok([[65]]) && ReadReply(d, 0).r.Err?
  {
    var n: nat := TWO64 + 1;
    var one: int64 := 1;
    var huge := FormatNat(n);
    ValFormatNat(n);
    d := Line(STAR, FormatInt(one)) + ([DOLLAR] + ((huge + CRLF) + [65, 13, 10]));
    hide FormatInt, FormatNat, Val, FixedArray, ReadReply;
    OverflowIsAccepted(d, one, huge);
  }

  lemma OneMemberArray(d: bytes, p: nat, size: nat)
    requires p < |d| && d[p] == STAR && IntLine(d, p + 1).r == Ok(1)
    requires var q := IntLine(d, p + 1).pos; FixedMember(d, q, size).r.Ok? && !LineFits(d, q + 1)
    ensures FixedArray(d, p, size).r == Ok([FixedMember(d, IntLine(d, p + 1).pos, size).r.value])
    ensures !AllLinesFit(d, p, size)
  {
    hide FixedMembers, FixedMember, IntLine, LineFits, LineText, ExactValue, MembersFit;
    var q := IntLine(d, p + 1).pos;
    OneMember(d, q, size);
    if LineFits(d, p + 1) {
      LineFitsExactly(d, p + 1);
    }
  }

  lemma LineFitsExactly(d: bytes, p: nat)
    requires p <= |d| && IntLine(d, p).r.Ok? && LineFits(d, p)
    ensures ExactValue(LineText(d, p)) == IntLine(d, p).r.value
  {
    IntLineSound(d, p);
  }

  lemma OneMember(d: bytes, p: nat, size: nat)
    requires p <= |d| && FixedMember(d, p, size).r.Ok?
    ensures FixedMembers(d, p, size, 1).r == Ok([FixedMember(d, p, size).r.value])
    ensures MembersFit(d, p, size, 1) <==> LineFits(d, p + 1)
  {
    hide FixedMember, LineFits;
    var m := FixedMember(d, p, size);
    assert FixedMembers(d, m.pos, size, 0).r == Ok([]);
    assert [m.r.value] + [] == [m.r.value];
  }

  // The fast reader on what a server sends.

  predicate AllSized(ws: seq<Wire>, size: nat) {
    forall k | 0 <= k < |ws| :: ws[k].WBulk? && |ws[k].b| == size
  }

  function Bodies(ws: seq<Wire>): seq<bytes> {
    seq(|ws|, i requires 0 <= i < |ws| => if ws[i].WBulk? then ws[i].b else [])
  }

  lemma FixedMemberEncoded(d: bytes, p: nat, w: Wire, size: nat)
    requires At(d, p, Encode(w)) && WellFormed(w)
    ensures p <= |d|
    ensures FixedMember(d, p, size).r.Ok? <==> w.WBulk? && |w.b| == size
    ensures w.WBulk? && |w.b| == size ==> FixedMember(d, p, size) == Outcome(Ok(w.b), p + |Encode(w)|)
  {
    hide IntLine, FormatInt, Encode, EncodeAll;
    EncodeIs(w);
    if w.WBulk? {
      var n := FormatInt(|w.b|);
      AtSplit(d, p, Line(DOLLAR, n), w.b + CRLF);
      AtSplit(d, p, [DOLLAR], n + CRLF);
      AtByte(d, p, [DOLLAR], 0);
      IntLineAt(d, p + 1, |w.b|);
      BulkAt(d, p + |Line(DOLLAR, n)|, w.b);
    } else if w.WNullBulk? {
      AtSplit(d, p, [DOLLAR], FormatInt(-1) + CRLF);
      AtByte(d, p, [DOLLAR], 0);
      IntLineAt(d, p + 1, -1);
    } else {
      AtByte(d, p, Encode(w), 0);
    }
  }

  lemma {:induction false} FixedMembersEncoded(d: bytes, p: nat, ws: seq<Wire>, size: nat)
    requires At(d, p, EncodeAll(ws)) && AllWellFormed(ws)
    ensures p <= |d|
    ensures FixedMembers(d, p, size, |ws|).r.Ok? <==> AllSized(ws, size)
    ensures AllSized(ws, size) ==> FixedMembers(d, p, size, |ws|) == Outcome(Ok(Bodies(ws)), p + |EncodeAll(ws)|)
    decreases |ws|
  {
    hide At, FixedMember, Encode, EncodeAll, WellFormed;
    AtInside(d, p, EncodeAll(ws));
    AllNonEmpty(ws);
    if ws != [] {
      AtSplit(d, p, Encode(ws[0]), EncodeAll(ws[1..]));
      FixedMemberEncoded(d, p, ws[0], size);
      FixedMembersEncoded(d, p + |Encode(ws[0])|, ws[1..], size);
      assert ws == [ws[0]] + ws[1..];
      assert AllSized(ws, size) <==> ws[0].WBulk? && |ws[0].b| == size && AllSized(ws[1..], size);
      assert Bodies(ws) == [if ws[0].WBulk? then ws[0].b else []] + Bodies(ws[1..]);
    }
  }

  /** On a server's reply the fast reader succeeds exactly on arrays of bulk strings of the given size and on the null
      array; then it returns the members and stops exactly behind the reply. */
  lemma FixedEncoded(d: bytes, p: nat, w: Wire, size: nat)
    requires At(d, p, Encode(w)) && WellFormed(w)
    ensures p <= |d|
    ensures FixedArray(d, p, size).r.Ok? <==> w.WNullArray? || (w.WArray? && AllSized(w.ws, size))
    ensures w.WNullArray? ==> FixedArray(d, p, size) == Outcome(Ok([]), p + |Encode(w)|)
    ensures w.WArray? && AllSized(w.ws, size) ==> FixedArray(d, p, size) == Outcome(Ok(Bodies(w.ws)), p + |Encode(w)|)
  {
    hide IntLine, FormatInt, Encode, EncodeAll, FixedMembers;
    EncodeIs(w);
    if w.WArray? {
      var n := FormatInt(|w.ws|);
      AtSplit(d, p, Line(STAR, n), EncodeAll(w.ws));
      AtSplit(d, p, [STAR], n + CRLF);
      AtByte(d, p, [STAR], 0);
      IntLineAt(d, p + 1, |w.ws|);
      FixedMembersEncoded(d, p + |Line(STAR, n)|, w.ws, size);
      if w.ws == [] {
        assert EncodeAll(w.ws) == [] by {
          AllNonEmpty(w.ws);
        }
      }
    } else if w.WNullArray? {
      AtSplit(d, p, [STAR], FormatInt(-1) + CRLF);
      AtByte(d, p, [STAR], 0);
      IntLineAt(d, p + 1, -1);
    } else {
      EncodedFirst(w);
      AtByte(d, p, Encode(w), 0);
    }
  }

  lemma EncodedFirst(w: Wire)
    ensures Encode(w) != []
    ensures Encode(w)[0] == STAR <==> w.WArray? || w.WNullArray?
    ensures Encode(w)[0] == MINUS <==> w.WError?
    ensures Encode(w)[0] == DOLLAR <==> w.WBulk? || w.WNullBulk?
  {
  }
}
