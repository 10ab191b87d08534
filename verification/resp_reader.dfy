/** The RESP2 codec as the code runs it: a command buffer grown by appends, and a buffered reader consumed step by
    step (internal/resp/resp.go). */
module RespReader {
  import opened Bytes
  import opened Strconv
  import opened Resp
  import opened RespFast

  // Commands.

  function BulkWires(args: seq<bytes>): seq<Wire> {
    seq(|args|, i requires 0 <= i < |args| => WBulk(args[i]))
  }

  function Command(args: seq<bytes>): Wire {
    WArray(BulkWires(args))
  }

  /** The size computed up front: a header, and for each argument its length line, its bytes and a terminator. */
  function PresetSize(args: seq<bytes>, k: nat): nat
    requires k <= |args|
  {
    if k == 0 then 1 + |FormatInt(|args|)| + 2
    else PresetSize(args, k - 1) + (1 + |FormatInt(|args[k - 1]|)| + 2 + |args[k - 1]| + 2)
  }

  lemma {:induction false} EncodeAllSnoc(ws: seq<Wire>, w: Wire)
    ensures EncodeAll(ws + [w]) == EncodeAll(ws) + Encode(w)
    decreases |ws|
  {
    hide Encode, EncodeAll;
    var all := ws + [w];
    AllNonEmpty(all);
    AllNonEmpty(ws);
    if ws == [] {
      AllNonEmpty(all[1..]);
      assert all[1..] == [];
    } else {
      assert all[1..] == ws[1..] + [w];
      EncodeAllSnoc(ws[1..], w);
    }
  }

  lemma OneMoreArgument(args: seq<bytes>, k: nat)
    requires k < |args|
    ensures EncodeAll(BulkWires(args[..k + 1])) ==
            EncodeAll(BulkWires(args[..k])) + (Line(DOLLAR, FormatInt(|args[k]|)) + (args[k] + CRLF))
  {
    hide Encode, EncodeAll;
    EncodeAllSnoc(BulkWires(args[..k]), WBulk(args[k]));
    assert BulkWires(args[..k + 1]) == BulkWires(args[..k]) + [WBulk(args[k])];
    EncodeIs(WBulk(args[k]));
  }

  /** The encoded command, whose length is exactly the size reserved for it. */
  method EncodeCommand(args: seq<bytes>) returns (b: bytes)
    ensures b == Encode(Command(args))
    ensures |b| == PresetSize(args, |args|)
  {
    hide Encode, EncodeAll, FormatInt;
    var n := 1 + |FormatInt(|args|)| + 2;
    var j := 0;
    while j < |args|
      invariant 0 <= j <= |args| && n == PresetSize(args, j)
    {
      n := n + (1 + |FormatInt(|args[j]|)| + 2 + |args[j]| + 2);
      j := j + 1;
    }
    b := [STAR];
    b := b + FormatInt(|args|);
    b := b + [CR, LF];
    ghost var head := Line(STAR, FormatInt(|args|));
    assert b == head;
    var i := 0;
    assert args[..0] == [];
    AllNonEmpty(BulkWires(args[..0]));
    while i < |args|
      invariant 0 <= i <= |args|
      invariant b == head + EncodeAll(BulkWires(args[..i]))
      invariant |b| == PresetSize(args, i)
    {
      var a := args[i];
      b := b + [DOLLAR];
      b := b + FormatInt(|a|);
      b := b + [CR, LF];
      b := b + a;
      b := b + [CR, LF];
      OneMoreArgument(args, i);
      AppendedLine(head + EncodeAll(BulkWires(args[..i])), FormatInt(|a|), a);
      i := i + 1;
    }
    assert args[..|args|] == args;
    EncodeIs(Command(args));
  }

  lemma AppendedLine(base: bytes, n: bytes, a: bytes)
    ensures base + [DOLLAR] + n + [CR, LF] + a + [CR, LF] == base + (Line(DOLLAR, n) + (a + CRLF))
  {
  }

  predicate Sendable(args: seq<bytes>) {
    FitsInt64(|args|) && forall k | 0 <= k < |args| :: FitsInt64(|args[k]|)
  }

  lemma {:induction false} BulkWiresMean(args: seq<bytes>)
    requires forall k | 0 <= k < |args| :: FitsInt64(|args[k]|)
    ensures AllWellFormed(BulkWires(args)) && MeaningAll(BulkWires(args)) == Ok(Bulks(args))
    decreases |args|
  {
    if args == [] {
      assert BulkWires(args) == [] && Bulks(args) == [];
    } else {
      BulkWiresMean(args[1..]);
      assert BulkWires(args)[1..] == BulkWires(args[1..]);
      assert Bulks(args) == [Bulk(args[0])] + Bulks(args[1..]);
    }
  }

  /** A command read back gives exactly its arguments, whatever bytes they hold, and leaves exactly what follows it. */
  lemma CommandRoundTrip(args: seq<bytes>, rest: bytes)
    requires Sendable(args)
    ensures var b := Encode(Command(args));
            ReadReply(b + rest, 0) == Outcome(Ok(Array(Bulks(args))), |b|)
  {
    var b := Encode(Command(args));
    hide Encode;
    assert b + rest == [] + b + rest;
    AtWhole(b + rest, [], b, rest);
    BulkWiresMean(args);
    assert WellFormed(Command(args)) && Meaning(Command(args)) == Ok(Array(Bulks(args)));
    ReadEncoded(b + rest, 0, Command(args));
  }

  function Pipeline(cmds: seq<seq<bytes>>): bytes {
    if cmds == [] then [] else Encode(Command(cmds[0])) + Pipeline(cmds[1..])
  }

  predicate AllSendable(cmds: seq<seq<bytes>>) {
    forall k | 0 <= k < |cmds| :: Sendable(cmds[k])
  }

  lemma BulksInjective(a: seq<bytes>, b: seq<bytes>)
    requires Bulks(a) == Bulks(b)
    ensures a == b
  {
    assert |a| == |Bulks(a)| == |b|;
    forall k | 0 <= k < |a| ensures a[k] == b[k] {
      assert Bulks(a)[k] == Bulks(b)[k];
    }
  }

  lemma CommandNonEmpty(args: seq<bytes>)
    ensures Encode(Command(args)) != []
  {
    EncodedFirst(Command(args));
  }

  /** A pipelined byte stream splits into its commands in one way only. */
  lemma {:induction false} PipelineSplitsUniquely(xs: seq<seq<bytes>>, ys: seq<seq<bytes>>)
    requires AllSendable(xs) && AllSendable(ys) && Pipeline(xs) == Pipeline(ys)
    ensures xs == ys
    decreases |xs|
  {
    hide Encode, ReadReply, Command, Bulks;
    if xs == [] {
      if ys != [] {
        CommandNonEmpty(ys[0]);
      }
    } else if ys == [] {
      CommandNonEmpty(xs[0]);
    } else {
      CommandRoundTrip(xs[0], Pipeline(xs[1..]));
      CommandRoundTrip(ys[0], Pipeline(ys[1..]));
      BulksInjective(xs[0], ys[0]);
      var e := Encode(Command(xs[0]));
      assert Pipeline(xs)[|e|..] == Pipeline(xs[1..]) && Pipeline(ys)[|e|..] == Pipeline(ys[1..]);
      PipelineSplitsUniquely(xs[1..], ys[1..]);
      assert xs == [xs[0]] + xs[1..] && ys == [ys[0]] + ys[1..];
    }
  }

  // The buffered reader.

  class Reader {
    const data: bytes
    var pos: nat

    constructor (data: bytes)
      ensures this.data == data && pos == 0
    {
      this.data := data;
      pos := 0;
    }

    predicate Valid()
      reads this
    {
      pos <= |data|
    }

    method ReadByte() returns (c: byte, ok: bool)
      requires Valid()
      modifies this
      ensures Valid()
      ensures ok == (old(pos) < |data|)
      ensures pos == if ok then old(pos) + 1 else old(pos)
      ensures ok ==> c == data[old(pos)]
    {
      if pos == |data| {
        return 0, false;
      }
      c := data[pos];
      pos := pos + 1;
      return c, true;
    }

    method ReadLine() returns (line: Result<bytes, Fault>)
      requires Valid()
      modifies this
      ensures Valid() && Outcome(line, pos) == Resp.ReadLine(data, old(pos))
    {
      var j := pos;
      while j < |data| && data[j] != LF
        invariant pos <= j <= |data| && LineFeed(data, j) == LineFeed(data, pos)
      {
        j := j + 1;
      }
      if j == |data| {
        pos := |data|;
        return Err(Eof);
      }
      var start := pos;
      pos := j + 1;
      if j + 1 - start < 2 || data[j - 1] != CR {
        return Err(Malformed);
      }
      return Ok(data[start..j - 1]);
    }

    /** io.ReadFull into `buf[lo..hi]`: all of it or, at the end of the stream, an error. */
    method ReadFull(buf: array<byte>, lo: nat, hi: nat) returns (ok: bool)
      requires Valid() && lo <= hi <= buf.Length
      modifies this, buf
      ensures Valid() && ok == (old(pos) + (hi - lo) <= |data|)
      ensures ok ==> pos == old(pos) + (hi - lo) && buf[lo..hi] == data[old(pos)..pos]
      ensures !ok ==> pos == |data|
      ensures buf[..lo] == old(buf[..lo]) && buf[hi..] == old(buf[hi..])
    {
      var start := pos;
      if start + (hi - lo) > |data| {
        pos := |data|;
        return false;
      }
      forall k | lo <= k < hi {
        buf[k] := data[start + (k - lo)];
      }
      assert buf[lo..hi] == data[start..start + (hi - lo)];
      pos := start + (hi - lo);
      return true;
    }

    method Discard(n: nat) returns (ok: bool)
      requires Valid()
      modifies this
      ensures Valid() && ok == (old(pos) + n <= |data|)
      ensures pos == if ok then old(pos) + n else |data|
    {
      if pos + n > |data| {
        pos := |data|;
        return false;
      }
      pos := pos + n;
      return true;
    }
  }

  method ReadReplyFrom(r: Reader) returns (v: Result<Value, Fault>)
    requires r.Valid()
    modifies r
    ensures r.Valid() && Outcome(v, r.pos) == ReadReply(r.data, old(r.pos))
    decreases |r.data| - r.pos, 0
  {
    hide ParseInt;
    var prefix, ok := r.ReadByte();
    if !ok {
      return Err(Eof);
    }
    var line := r.ReadLine();
    if line.Err? {
      return Err(line.error);
    }
    if prefix == PLUS {
      return Ok(Simple(line.value));
    } else if prefix == MINUS {
      return Err(ErrorReply(line.value));
    } else if prefix == COLON {
      var n := ParseInt(line.value);
      return if n.None? then Err(Malformed) else Ok(Int(n.value));
    } else if prefix == DOLLAR {
      v := ReadBulkFrom(r, line.value);
    } else if prefix == STAR {
      v := ReadArrayFrom(r, line.value);
    } else {
      return Err(Malformed);
    }
  }

  method ReadBulkFrom(r: Reader, line: bytes) returns (v: Result<Value, Fault>)
    requires r.Valid()
    modifies r
    ensures r.Valid() && Outcome(v, r.pos) == ReadBulk(r.data, old(r.pos), line)
  {
    hide ParseInt;
    var n := ParseInt(line);
    if n.None? {
      return Err(Malformed);
    }
    if n.value < 0 {
      return Ok(Nil);
    }
    var need: nat := n.value as int + 2;
    var buf := new byte[need](_ => 0);
    var ok := r.ReadFull(buf, 0, need);
    if !ok {
      return Err(Eof);
    }
    assert buf[..n.value] == buf[0..need][..n.value];
    assert r.data[old(r.pos)..r.pos][..n.value] == r.data[old(r.pos)..old(r.pos) + n.value];
    return Ok(Bulk(buf[..n.value]));
  }

  function Prepended<T>(done: seq<T>, o: Outcome<seq<T>>): Outcome<seq<T>> {
    Outcome(if o.r.Ok? then Ok(done + o.r.value) else o.r, o.pos)
  }

  lemma PrependedNone<T>(o: Outcome<seq<T>>)
    ensures Prepended([], o) == o
  {
    if o.r.Ok? {
      assert [] + o.r.value == o.r.value;
    }
  }

  lemma PrependedMore<T>(done: seq<T>, x: T, o: Outcome<seq<T>>)
    ensures Prepended(done, Prepended([x], o)) == Prepended(done + [x], o)
  {
    if o.r.Ok? {
      assert done + ([x] + o.r.value) == (done + [x]) + o.r.value;
    }
  }

  method ReadArrayFrom(r: Reader, line: bytes) returns (v: Result<Value, Fault>)
    requires r.Valid()
    modifies r
    ensures r.Valid() && Outcome(v, r.pos) == ReadArray(r.data, old(r.pos), line)
    decreases |r.data| - r.pos, 1
  {
    hide ParseInt, ReadReply;
    var n := ParseInt(line);
    if n.None? {
      return Err(Malformed);
    }
    if n.value < 0 {
      return Ok(Nil);
    }
    var out := [];
    var i := 0;
    ghost var whole := ReadMany(r.data, r.pos, n.value);
    PrependedNone(whole);
    while i < n.value
      invariant 0 <= i <= n.value && |out| == i
      invariant r.Valid() && r.pos >= old(r.pos)
      invariant whole == Prepended(out, ReadMany(r.data, r.pos, n.value - i))
    {
      ghost var rest := ReadMany(r.data, r.pos, n.value - i);
      var e := ReadReplyFrom(r);
      if e.Err? {
        return Err(e.error);
      }
      ghost var next := ReadMany(r.data, r.pos, n.value - (i + 1));
      assert rest == Prepended([e.value], next);
      PrependedMore(out, e.value, next);
      out := out + [e.value];
      i := i + 1;
    }
    assert whole == Outcome(Ok(out + []), r.pos);
    assert out + [] == out;
    return Ok(Array(out));
  }

  method ParseIntLine(r: Reader) returns (v: Result<int64, Fault>)
    requires r.Valid()
    modifies r
    ensures r.Valid() && Outcome(v, r.pos) == IntLine(r.data, old(r.pos))
  {
    hide Wrap64;
    var n: int64 := 0;
    var neg, seen := false, false;
    while true
      invariant r.Valid()
      invariant IntLineFrom(r.data, r.pos, n, neg, seen) == IntLine(r.data, old(r.pos))
      decreases |r.data| - r.pos
    {
      var c, ok := r.ReadByte();
      if !ok {
        return Err(Eof);
      }
      if c == CR {
        var nl;
        nl, ok := r.ReadByte();
        if !ok {
          return Err(Eof);
        }
        if nl != LF || !seen {
          return Err(Malformed);
        }
        if neg {
          n := Wrap64(-(n as int));
        }
        return Ok(n);
      } else if c == MINUS && !seen && !neg {
        neg := true;
      } else if IsDigit(c) {
        n := Wrap64(10 * n + (c - ZERO));
        seen := true;
      } else {
        return Err(Malformed);
      }
    }
  }

  lemma {:induction false} ConcatSnoc(ms: seq<bytes>, m: bytes)
    ensures Concat(ms + [m]) == Concat(ms) + m
    decreases |ms|
  {
    if ms == [] {
      assert Concat([m]) == m + Concat([]);
    } else {
      assert (ms + [m])[1..] == ms[1..] + [m];
      ConcatSnoc(ms[1..], m);
    }
  }

  lemma {:induction false} ConcatLength(ms: seq<bytes>, size: nat)
    requires forall k | 0 <= k < |ms| :: |ms[k]| == size
    ensures |Concat(ms)| == |ms| * size
    decreases |ms|
  {
    if ms != [] {
      ConcatLength(ms[1..], size);
    }
  }

  lemma Scale(i: nat, size: nat)
    ensures (i + 1) * size == i * size + size
  {
  }

  /** Member i of the backing buffer is backing[i*size..(i+1)*size]. */
  lemma {:induction false} MemberSlice(ms: seq<bytes>, size: nat, i: nat)
    requires i < |ms| && forall k | 0 <= k < |ms| :: |ms[k]| == size
    ensures (i + 1) * size <= |Concat(ms)| && Concat(ms)[i * size..i * size + size] == ms[i]
    decreases |ms|
  {
    ConcatLength(ms[1..], size);
    Scale(i, size);
    if i > 0 {
      MemberSlice(ms[1..], size, i - 1);
      Scale(i - 1, size);
      assert Concat(ms)[i * size..i * size + size] ==
             Concat(ms[1..])[(i - 1) * size..(i - 1) * size + size];
    }
  }

  /** One member, read into its slice of the backing buffer. */
  method ReadFixedMember(r: Reader, size: nat, backing: array<byte>, at: nat) returns (e: Option<Fault>)
    requires r.Valid() && at + size <= backing.Length
    modifies r, backing
    ensures r.Valid()
    ensures var o := FixedMember(r.data, old(r.pos), size);
            && r.pos == o.pos
            && (o.r.Ok? ==> e.None? && backing[at..at + size] == o.r.value)
            && (o.r.Err? ==> e == Some(o.r.error))
    ensures backing[..at] == old(backing[..at])
  {
    hide IntLine;
    var bp, ok := r.ReadByte();
    if !ok {
      return Some(Eof);
    }
    if bp != DOLLAR {
      return Some(Malformed);
    }
    var ln := ParseIntLine(r);
    if ln.Err? {
      return Some(ln.error);
    }
    if ln.value != size {
      return Some(Malformed);
    }
    ok := r.ReadFull(backing, at, at + size);
    if !ok {
      return Some(Eof);
    }
    ok := r.Discard(2);
    return if ok then None else Some(Eof);
  }

  lemma FixedStep(d: bytes, p: nat, size: nat, n: nat, done: seq<bytes>)
    requires p <= |d| && n > 0
    ensures var m := FixedMember(d, p, size);
            && (m.r.Err? ==> Prepended(done, FixedMembers(d, p, size, n)) == Outcome(Err(m.r.error), m.pos))
            && (m.r.Ok? ==> Prepended(done, FixedMembers(d, p, size, n)) ==
                            Prepended(done + [m.r.value], FixedMembers(d, m.pos, size, n - 1)))
  {
    hide FixedMember;
    var m := FixedMember(d, p, size);
    if m.r.Ok? {
      PrependedMore(done, m.r.value, FixedMembers(d, m.pos, size, n - 1));
    }
  }

  lemma FixedNone(d: bytes, p: nat, size: nat, done: seq<bytes>)
    requires p <= |d|
    ensures Prepended(done, FixedMembers(d, p, size, 0)) == Outcome(Ok(done), p)
  {
    assert done + [] == done;
  }

  /** The member loop: each member into its own slice. */
  method ReadFixedMembers(r: Reader, size: nat, n: nat, backing: array<byte>) returns (e: Option<Fault>)
    requires r.Valid() && backing.Length == n * size
    modifies r, backing
    ensures r.Valid()
    ensures var o := FixedMembers(r.data, old(r.pos), size, n);
            && r.pos == o.pos
            && (o.r.Err? ==> e == Some(o.r.error))
            && (o.r.Ok? ==> e.None? && backing[..] == Concat(o.r.value))
  {
    hide IntLine, FixedMember, FixedMembers, Prepended, Concat;
    ghost var whole := FixedMembers(r.data, r.pos, size, n);
    ghost var done: seq<bytes> := [];
    PrependedNone(whole);
    ConcatNone();
    var i := 0;
    while i < n
      invariant 0 <= i <= n && r.Valid()
      invariant i * size <= backing.Length && backing[..i * size] == Concat(done)
      invariant whole == Prepended(done, FixedMembers(r.data, r.pos, size, n - i))
    {
      Fits(i, n, size);
      FixedStep(r.data, r.pos, size, n - i, done);
      ghost var m := FixedMember(r.data, r.pos, size);
      e := ReadFixedMember(r, size, backing, i * size);
      if e.Some? {
        return;
      }
      ConcatSnoc(done, m.r.value);
      Scale(i, size);
      assert backing[..(i + 1) * size] == backing[..i * size] + backing[i * size..i * size + size];
      done := done + [m.r.value];
      i := i + 1;
    }
    FixedNone(r.data, r.pos, size, done);
    assert backing[..] == backing[..i * size];
    e := None;
  }

  lemma ConcatNone()
    ensures Concat([]) == []
  {
  }

  method ReadFixedBulkArray(r: Reader, size: nat) returns (v: Result<(array<byte>, nat), Fault>)
    requires r.Valid()
    modifies r
    ensures r.Valid()
    ensures var o := FixedArray(r.data, old(r.pos), size);
            && r.pos == o.pos
            && (o.r.Err? ==> v == Err(o.r.error))
            && (o.r.Ok? ==> v.Ok? && v.value.1 == |o.r.value| && v.value.0[..] == Concat(o.r.value))
  {
    hide IntLine, FixedMembers;
    var prefix, ok := r.ReadByte();
    if !ok {
      return Err(Eof);
    }
    if prefix == MINUS {
      var line := r.ReadLine();
      return Err(if line.Err? then line.error else ErrorReply(line.value));
    }
    if prefix != STAR {
      return Err(Malformed);
    }
    var n := ParseIntLine(r);
    if n.Err? {
      return Err(n.error);
    }
    if n.value <= 0 {
      var empty := new byte[0];
      return Ok((empty, 0));
    }
    var backing := new byte[n.value * size](_ => 0);
    var e := ReadFixedMembers(r, size, n.value, backing);
    if e.Some? {
      return Err(e.value);
    }
    return Ok((backing, n.value));
  }

  lemma Fits(i: nat, n: nat, size: nat)
    requires i < n
    ensures i * size + size <= n * size
  {
    Scale(i, size);
    Monotone(i + 1, n, size);
  }

  lemma {:induction false} Monotone(i: nat, n: nat, size: nat)
    requires i <= n
    ensures i * size <= n * size
    decreases n
  {
    if i < n {
      Monotone(i, n - 1, size);
      Scale(n - 1, size);
    }
  }
}
