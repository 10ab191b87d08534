/** The binary member codec (internal/model/point.go, Encode to Decode; internal/store/redis.go, encodeMembers).
    Floats are their 64-bit patterns. */
module Codec {
  import opened Bytes
  import opened Strconv
  import opened Points

  type StoredPoint = Point<uint64>

  const ENCODED_LEN: nat := 65

  function Pow256(n: nat): (p: nat)
    ensures p >= 1
  {
    if n == 0 then 1 else 256 * Pow256(n - 1)
  }

  lemma Pow256Of8()
    ensures Pow256(8) == TWO64
  {
  }

  function BigEndian(n: nat, x: nat): (s: bytes)
    ensures |s| == n
  {
    if n == 0 then [] else BigEndian(n - 1, x / 256) + [x % 256]
  }

  function FromBigEndian(s: bytes): nat {
    if s == [] then 0 else FromBigEndian(s[..|s| - 1]) * 256 + s[|s| - 1]
  }

  function LittleEndian(n: nat, x: nat): (s: bytes)
    ensures |s| == n
  {
    if n == 0 then [] else [x % 256] + LittleEndian(n - 1, x / 256)
  }

  function FromLittleEndian(s: bytes): nat {
    if s == [] then 0 else s[0] + 256 * FromLittleEndian(s[1..])
  }

  lemma {:induction false} BigEndianRoundTrip(n: nat, x: nat)
    requires x < Pow256(n)
    ensures FromBigEndian(BigEndian(n, x)) == x
    decreases n
  {
    if n > 0 {
      BigEndianRoundTrip(n - 1, x / 256);
      var s := BigEndian(n, x);
      assert s[..|s| - 1] == BigEndian(n - 1, x / 256);
    }
  }

  lemma {:induction false} BigEndianBound(s: bytes)
    ensures FromBigEndian(s) < Pow256(|s|)
    decreases |s|
  {
    if s != [] {
      BigEndianBound(s[..|s| - 1]);
    }
  }

  lemma {:induction false} LittleEndianRoundTrip(n: nat, x: nat)
    requires x < Pow256(n)
    ensures FromLittleEndian(LittleEndian(n, x)) == x
    decreases n
  {
    if n > 0 {
      LittleEndianRoundTrip(n - 1, x / 256);
      var s := LittleEndian(n, x);
      assert s[1..] == LittleEndian(n - 1, x / 256);
    }
  }

  lemma {:induction false} LittleEndianBound(s: bytes)
    ensures FromLittleEndian(s) < Pow256(|s|)
    decreases |s|
  {
    if s != [] {
      LittleEndianBound(s[1..]);
    }
  }

  lemma {:induction false} BigEndianOnto(s: bytes)
    ensures BigEndian(|s|, FromBigEndian(s)) == s
    decreases |s|
  {
    if s != [] {
      BigEndianOnto(s[..|s| - 1]);
      assert s == s[..|s| - 1] + [s[|s| - 1]];
    }
  }

  lemma {:induction false} LittleEndianOnto(s: bytes)
    ensures LittleEndian(|s|, FromLittleEndian(s)) == s
    decreases |s|
  {
    if s != [] {
      LittleEndianOnto(s[1..]);
      LowestByte(s[0], FromLittleEndian(s[1..]));
      assert s == [s[0]] + s[1..];
    }
  }

  lemma LowestByte(b: byte, n: nat)
    ensures (b + 256 * n) % 256 == b && (b + 256 * n) / 256 == n
  {
  }

  // Byte order: bytes.Compare(a, b) < 0.

  predicate Less(a: bytes, b: bytes) {
    b != [] && (a == [] || a[0] < b[0] || (a[0] == b[0] && Less(a[1..], b[1..])))
  }

  lemma {:induction false} LessIrreflexive(a: bytes)
    ensures !Less(a, a)
    decreases |a|
  {
    if a != [] {
      LessIrreflexive(a[1..]);
    }
  }

  lemma {:induction false} LessTransitive(a: bytes, b: bytes, c: bytes)
    requires Less(a, b) && Less(b, c)
    ensures Less(a, c)
    decreases |a|
  {
    if a != [] && a[0] == b[0] == c[0] {
      LessTransitive(a[1..], b[1..], c[1..]);
    }
  }

  lemma {:induction false} LessTotal(a: bytes, b: bytes)
    ensures Less(a, b) || Less(b, a) || a == b
    decreases |a|
  {
    if a != [] && b != [] && a[0] == b[0] {
      LessTotal(a[1..], b[1..]);
      assert a == [a[0]] + a[1..] && b == [b[0]] + b[1..];
    }
  }

  lemma {:induction false} LessBehind(p: bytes, a: bytes, b: bytes)
    ensures Less(p + a, p + b) <==> Less(a, b)
    decreases |p|
  {
    if p == [] {
      assert p + a == a && p + b == b;
    } else {
      assert (p + a)[1..] == p[1..] + a && (p + b)[1..] == p[1..] + b;
      LessBehind(p[1..], a, b);
    }
  }

  /** Big-endian numbers of one width compare as numbers, whatever follows them. */
  lemma {:induction false} BigEndianOrder(n: nat, x: nat, y: nat, s: bytes, t: bytes)
    requires x < y < Pow256(n)
    ensures Less(BigEndian(n, x) + s, BigEndian(n, y) + t)
    decreases n
  {
    var u := [x % 256] + s;
    var v := [y % 256] + t;
    var px := BigEndian(n - 1, x / 256);
    var py := BigEndian(n - 1, y / 256);
    assert BigEndian(n, x) + s == px + u && BigEndian(n, y) + t == py + v;
    if x / 256 < y / 256 {
      BigEndianOrder(n - 1, x / 256, y / 256, u, v);
    } else {
      LessBehind(px, u, v);
    }
  }

  // The member.

  /** uint64(ts) and int64(x): two's complement. */
  function Unsigned(ts: int64): uint64 {
    if ts < 0 then ts as int + TWO64 else ts
  }

  function Signed(x: uint64): int64 {
    if x >= TWO63 then x as int - TWO64 else x
  }

  function BE8(x: uint64): (s: bytes)
    ensures |s| == 8
  {
    BigEndian(8, x)
  }

  function LE8(x: uint64): (s: bytes)
    ensures |s| == 8
  {
    LittleEndian(8, x)
  }

  /** The 49 bytes behind timestamp and sequence number. */
  function Payload(p: StoredPoint): (s: bytes)
    ensures |s| == 49
  {
    LE8(p.lat) + LE8(p.lon) + LE8(p.ax) + LE8(p.ay) + LE8(p.az) + LE8(p.battery) + [if p.hasBattery then 1 else 0]
  }

  function Encode(p: StoredPoint, s: uint64): (m: bytes)
    ensures |m| == ENCODED_LEN
  {
    BE8(Unsigned(p.ts)) + (BE8(s) + Payload(p))
  }

  function FromBE8(s: bytes): (x: uint64)
    requires |s| == 8
  {
    BigEndianBound(s);
    Pow256Of8();
    FromBigEndian(s)
  }

  function FromLE8(s: bytes): (x: uint64)
    requires |s| == 8
  {
    LittleEndianBound(s);
    Pow256Of8();
    FromLittleEndian(s)
  }

  /** memTS, and the sequence number behind it. */
  function MemTS(m: bytes): int64
    requires |m| == ENCODED_LEN
  {
    Signed(FromBE8(m[0..8]))
  }

  function MemSeq(m: bytes): uint64
    requires |m| == ENCODED_LEN
  {
    FromBE8(m[8..16])
  }

  function Decode(b: bytes): (r: Option<StoredPoint>)
    ensures r.Some? <==> |b| == ENCODED_LEN
  {
    if |b| != ENCODED_LEN then None
    else Some(Point(Signed(FromBE8(b[0..8])), FromLE8(b[16..24]), FromLE8(b[24..32]), FromLE8(b[56..64]), b[64] == 1,
                    FromLE8(b[32..40]), FromLE8(b[40..48]), FromLE8(b[48..56])))
  }

  lemma WordRoundTrip(x: uint64)
    ensures FromBE8(BE8(x)) == x && FromLE8(LE8(x)) == x
  {
    Pow256Of8();
    BigEndianRoundTrip(8, x);
    LittleEndianRoundTrip(8, x);
  }

  lemma PayloadSlices(p: StoredPoint)
    ensures var s := Payload(p);
            && s[0..8] == LE8(p.lat) && s[8..16] == LE8(p.lon) && s[16..24] == LE8(p.ax) && s[24..32] == LE8(p.ay)
            && s[32..40] == LE8(p.az) && s[40..48] == LE8(p.battery) && s[48] == if p.hasBattery then 1 else 0
  {
    hide LE8;
  }

  lemma EncodeSlices(p: StoredPoint, s: uint64)
    ensures var m := Encode(p, s);
            && m[0..8] == BE8(Unsigned(p.ts)) && m[8..16] == BE8(s) && m[64] == Payload(p)[48]
            && m[16..24] == Payload(p)[0..8] && m[24..32] == Payload(p)[8..16] && m[32..40] == Payload(p)[16..24]
            && m[40..48] == Payload(p)[24..32] && m[48..56] == Payload(p)[32..40] && m[56..64] == Payload(p)[40..48]
  {
    hide BE8, Payload;
    var m := Encode(p, s);
    var q := Payload(p);
    assert m[16..] == q;
    assert m[16..24] == m[16..][0..8] && m[24..32] == m[16..][8..16] && m[32..40] == m[16..][16..24];
    assert m[40..48] == m[16..][24..32] && m[48..56] == m[16..][32..40] && m[56..64] == m[16..][40..48];
    assert m[64] == m[16..][48];
  }

  /** The layout of the 65 bytes: timestamp and number with the highest byte first, the floats with the lowest byte first in
      the order lat, lon, ax, ay, az, battery, and the flag. */
  lemma Layout(p: StoredPoint, s: uint64)
    ensures var m := Encode(p, s);
            && |m| == 65
            && FromBigEndian(m[0..8]) == Unsigned(p.ts) && FromBigEndian(m[8..16]) == s
            && FromLittleEndian(m[16..24]) == p.lat && FromLittleEndian(m[24..32]) == p.lon
            && FromLittleEndian(m[32..40]) == p.ax && FromLittleEndian(m[40..48]) == p.ay
            && FromLittleEndian(m[48..56]) == p.az && FromLittleEndian(m[56..64]) == p.battery
            && m[64] == if p.hasBattery then 1 else 0
  {
    hide Encode, Payload, BE8, LE8, FromBigEndian, FromLittleEndian;
    EncodeSlices(p, s);
    PayloadSlices(p);
    WordRoundTrip(Unsigned(p.ts));
    WordRoundTrip(s);
    WordRoundTrip(p.lat);
    WordRoundTrip(p.lon);
    WordRoundTrip(p.battery);
    WordRoundTrip(p.ax);
    WordRoundTrip(p.ay);
    WordRoundTrip(p.az);
  }

  /** Decoding gives back every point, and the member carries its timestamp and sequence number. */
  lemma DecodeEncode(p: StoredPoint, s: uint64)
    ensures Decode(Encode(p, s)) == Some(p)
    ensures MemTS(Encode(p, s)) == p.ts && MemSeq(Encode(p, s)) == s
  {
    hide Encode, Payload, FromBE8, FromLE8, BE8, LE8;
    EncodeSlices(p, s);
    PayloadSlices(p);
    WordRoundTrip(Unsigned(p.ts));
    WordRoundTrip(s);
    WordRoundTrip(p.lat);
    WordRoundTrip(p.lon);
    WordRoundTrip(p.battery);
    WordRoundTrip(p.ax);
    WordRoundTrip(p.ay);
    WordRoundTrip(p.az);
  }

  lemma WordOnto(s: bytes)
    requires |s| == 8
    ensures BE8(FromBE8(s)) == s && LE8(FromLE8(s)) == s
  {
    BigEndianOnto(s);
    LittleEndianOnto(s);
  }

  lemma SignedOnto(x: uint64)
    ensures Unsigned(Signed(x)) == x
  {
  }

  /** Encoding what was decoded gives back the bytes, all of them, exactly when the flag is zero or one: any 65 bytes decode,
      and no byte but the flag is ever ignored. */
  lemma EncodeDecode(m: bytes)
    requires |m| == ENCODED_LEN
    ensures Encode(Decode(m).value, MemSeq(m)) == m <==> m[64] <= 1
    ensures Decode(m).value.hasBattery <==> m[64] == 1
  {
    hide BE8, LE8, FromBE8, FromLE8, Signed, Unsigned;
    SignedOnto(FromBE8(m[0..8]));
    WordOnto(m[0..8]);
    WordOnto(m[8..16]);
    WordOnto(m[16..24]);
    WordOnto(m[24..32]);
    WordOnto(m[32..40]);
    WordOnto(m[40..48]);
    WordOnto(m[48..56]);
    WordOnto(m[56..64]);
    var e := Encode(Decode(m).value, MemSeq(m));
    assert m == m[0..8] + (m[8..16] + (m[16..24] + m[24..32] + m[32..40] + m[40..48] + m[48..56] + m[56..64] + [m[64]]));
    assert e == m[0..8] + (m[8..16] + (m[16..24] + m[24..32] + m[32..40] + m[40..48] + m[48..56] + m[56..64]
                           + [if m[64] == 1 then 1 else 0]));
    assert e[64] == if m[64] == 1 then 1 else 0;
  }

  lemma EncodeInjective(p: StoredPoint, s: uint64, q: StoredPoint, t: uint64)
    requires Encode(p, s) == Encode(q, t)
    ensures p == q && s == t
  {
    hide Encode;
    DecodeEncode(p, s);
    DecodeEncode(q, t);
  }

  /** Members compare by unsigned timestamp first and by sequence number second. */
  lemma MemberOrder(p: StoredPoint, s: uint64, q: StoredPoint, t: uint64)
    requires Unsigned(p.ts) < Unsigned(q.ts) || (p.ts == q.ts && s < t)
    ensures Less(Encode(p, s), Encode(q, t))
  {
    hide Payload, Less;
    Pow256Of8();
    if p.ts == q.ts {
      BigEndianOrder(8, s, t, Payload(p), Payload(q));
      LessBehind(BE8(Unsigned(p.ts)), BE8(s) + Payload(p), BE8(t) + Payload(q));
    } else {
      BigEndianOrder(8, Unsigned(p.ts), Unsigned(q.ts), BE8(s) + Payload(p), BE8(t) + Payload(q));
    }
  }

  /** Byte order is (ts, seq) order for two members of different timestamps exactly when the timestamps have one sign:
      a negative timestamp sorts behind every other. */
  lemma OrderNeedsOneSign(p: StoredPoint, s: uint64, q: StoredPoint, t: uint64)
    requires p.ts < q.ts
    ensures Less(Encode(p, s), Encode(q, t)) <==> (p.ts < 0 <==> q.ts < 0)
  {
    if p.ts < 0 <==> q.ts < 0 {
      MemberOrder(p, s, q, t);
    } else {
      MemberOrder(q, t, p, s);
      if Less(Encode(p, s), Encode(q, t)) {
        LessTransitive(Encode(p, s), Encode(q, t), Encode(p, s));
        LessIrreflexive(Encode(p, s));
      }
    }
  }

  // Encoding in place.

  /** binary.BigEndian.PutUint64 and binary.LittleEndian.PutUint64 into dst[at..at+8]. */
  method PutWord(dst: array<byte>, at: nat, w: bytes)
    requires |w| == 8 && at + 8 <= dst.Length
    modifies dst
    ensures dst[..at + 8] == old(dst[..at]) + w
    ensures forall j | at + 8 <= j < dst.Length :: dst[j] == old(dst[j])
  {
    forall k | 0 <= k < 8 {
      dst[at + k] := w[k];
    }
  }

  method EncodeInto(p: StoredPoint, dst: array<byte>, at: nat, s: uint64)
    requires at + ENCODED_LEN <= dst.Length
    modifies dst
    ensures dst[..at + ENCODED_LEN] == old(dst[..at]) + Encode(p, s)
    ensures forall j | at + ENCODED_LEN <= j < dst.Length :: dst[j] == old(dst[j])
  {
    hide BE8, LE8;
    ghost var pre := dst[..at];
    PutWord(dst, at, BE8(Unsigned(p.ts)));
    PutWord(dst, at + 8, BE8(s));
    PutWord(dst, at + 16, LE8(p.lat));
    PutWord(dst, at + 24, LE8(p.lon));
    PutWord(dst, at + 32, LE8(p.ax));
    PutWord(dst, at + 40, LE8(p.ay));
    PutWord(dst, at + 48, LE8(p.az));
    PutWord(dst, at + 56, LE8(p.battery));
    ghost var body := dst[..at + 64];
    dst[at + 64] := 0;
    if p.hasBattery {
      dst[at + 64] := 1;
    }
    assert dst[..at + ENCODED_LEN] == body + [if p.hasBattery then 1 else 0];
    GrownTo(pre, p, s);
  }

  lemma GrownTo(pre: bytes, p: StoredPoint, s: uint64)
    ensures pre + BE8(Unsigned(p.ts)) + BE8(s) + LE8(p.lat) + LE8(p.lon) + LE8(p.ax) + LE8(p.ay) + LE8(p.az)
            + LE8(p.battery) + [if p.hasBattery then 1 else 0] == pre + Encode(p, s)
  {
    hide BE8, LE8;
  }

  // A batch in one shared backing array.

  /** The process-wide sequence counter: Add(1) wraps at 2^64. */
  class Counter {
    var value: uint64

    constructor ()
      ensures value == 0
    {
      value := 0;
    }

    method Add1() returns (v: uint64)
      modifies this
      ensures v == value == NextSeq(old(value), 1)
    {
      value := (value + 1) % TWO64;
      v := value;
    }
  }

  function NextSeq(v: uint64, n: nat): uint64 {
    (v + n) % TWO64
  }

  /** A command argument: bytes of its own, or a view of the backing array. */
  datatype Arg = Own(text: bytes) | View(lo: nat, hi: nat)

  /** What the argument list of a batch must hold: score text and member view, point by point. */
  predicate BatchArgs(args: seq<Arg>, pts: seq<StoredPoint>) {
    && |args| == 2 * |pts|
    && forall i | 0 <= i < |pts| ::
         args[2 * i] == Own(FormatInt(pts[i].ts)) && args[2 * i + 1] == View(i * ENCODED_LEN, (i + 1) * ENCODED_LEN)
  }

  /** `backing` holds the members of `pts` in order, numbered from the counter value `start` on. */
  predicate BatchMembers(backing: bytes, pts: seq<StoredPoint>, start: uint64) {
    && |backing| >= ENCODED_LEN * |pts|
    && forall i | 0 <= i < |pts| ::
         backing[i * ENCODED_LEN..(i + 1) * ENCODED_LEN] == Encode(pts[i], NextSeq(start, i + 1))
  }

  method EncodeMembers(pts: seq<StoredPoint>, counter: Counter) returns (args: seq<Arg>, backing: array<byte>)
    modifies counter
    ensures counter.value == NextSeq(old(counter.value), |pts|)
    ensures fresh(backing) && backing.Length == ENCODED_LEN * |pts|
    ensures BatchArgs(args, pts) && BatchMembers(backing[..], pts, old(counter.value))
  {
    hide Encode, BatchArgs, BatchMembers, FormatInt, NextSeq;
    backing := new byte[ENCODED_LEN * |pts|](_ => 0);
    args := [];
    var i := 0;
    ghost var start := counter.value;
    BatchEmpty(backing[..], pts, start);
    while i < |pts|
      invariant 0 <= i <= |pts|
      invariant counter.value == NextSeq(start, i)
      invariant BatchArgs(args, pts[..i]) && BatchMembers(backing[..], pts[..i], start)
    {
      ghost var before := backing[..];
      CountOn(start, i);
      var s := counter.Add1();
      EncodeInto(pts[i], backing, i * ENCODED_LEN, s);
      assert backing[..(i + 1) * ENCODED_LEN] == before[..i * ENCODED_LEN] + Encode(pts[i], s);
      assert backing[..(i + 1) * ENCODED_LEN] == backing[..][..(i + 1) * ENCODED_LEN];
      BatchGrows(before, backing[..], pts, i, start);
      ArgsGrow(args, pts, i);
      args := args + [Own(FormatInt(pts[i].ts)), View(i * ENCODED_LEN, (i + 1) * ENCODED_LEN)];
      i := i + 1;
    }
    assert pts[..i] == pts;
  }

  lemma BatchEmpty(backing: bytes, pts: seq<StoredPoint>, start: uint64)
    ensures BatchArgs([], pts[..0]) && BatchMembers(backing, pts[..0], start) && NextSeq(start, 0) == start
  {
  }

  lemma CountOn(start: uint64, i: nat)
    ensures NextSeq(NextSeq(start, i), 1) == NextSeq(start, i + 1)
  {
  }

  lemma ArgsGrow(args: seq<Arg>, pts: seq<StoredPoint>, i: nat)
    requires i < |pts| && BatchArgs(args, pts[..i])
    ensures BatchArgs(args + [Own(FormatInt(pts[i].ts)), View(i * ENCODED_LEN, (i + 1) * ENCODED_LEN)], pts[..i + 1])
  {
    hide FormatInt;
    var more := args + [Own(FormatInt(pts[i].ts)), View(i * ENCODED_LEN, (i + 1) * ENCODED_LEN)];
    forall k | 0 <= k < i + 1
      ensures more[2 * k] == Own(FormatInt(pts[..i + 1][k].ts)) && more[2 * k + 1] == View(k * ENCODED_LEN, (k + 1) * ENCODED_LEN)
    {
      assert k < i ==> pts[..i][k] == pts[k];
    }
  }

  lemma SliceOfFront(s: bytes, n: nat, i: nat, j: nat)
    requires i <= j <= n <= |s|
    ensures s[..n][i..j] == s[i..j]
  {
  }

  lemma BatchGrows(before: bytes, after: bytes, pts: seq<StoredPoint>, i: nat, start: uint64)
    requires i < |pts| && |before| == |after| == ENCODED_LEN * |pts| && BatchMembers(before, pts[..i], start)
    requires after[..(i + 1) * ENCODED_LEN] == before[..i * ENCODED_LEN] + Encode(pts[i], NextSeq(start, i + 1))
    ensures BatchMembers(after, pts[..i + 1], start)
  {
    hide Encode;
    var cut := after[..(i + 1) * ENCODED_LEN];
    forall k | 0 <= k < i + 1
      ensures after[k * ENCODED_LEN..(k + 1) * ENCODED_LEN] == Encode(pts[..i + 1][k], NextSeq(start, k + 1))
    {
      SliceOfFront(after, (i + 1) * ENCODED_LEN, k * ENCODED_LEN, (k + 1) * ENCODED_LEN);
      if k < i {
        SliceOfFront(before, i * ENCODED_LEN, k * ENCODED_LEN, (k + 1) * ENCODED_LEN);
        SliceOfFront(cut, i * ENCODED_LEN, k * ENCODED_LEN, (k + 1) * ENCODED_LEN);
        assert cut[..i * ENCODED_LEN] == before[..i * ENCODED_LEN];
        assert pts[..i][k] == pts[k];
      }
    }
  }

  /** After the whole batch is in the shared array every view still decodes to its own point, and while the counter
      does not wrap all members of the batch are different. */
  lemma BatchDecodes(backing: bytes, pts: seq<StoredPoint>, start: uint64, i: nat, j: nat)
    requires BatchMembers(backing, pts, start) && i < |pts| && j < |pts|
    ensures Decode(backing[i * ENCODED_LEN..(i + 1) * ENCODED_LEN]) == Some(pts[i])
    ensures i != j && start + |pts| < TWO64 ==>
              backing[i * ENCODED_LEN..(i + 1) * ENCODED_LEN] != backing[j * ENCODED_LEN..(j + 1) * ENCODED_LEN]
  {
    hide Encode, Decode;
    DecodeEncode(pts[i], NextSeq(start, i + 1));
    if backing[i * ENCODED_LEN..(i + 1) * ENCODED_LEN] == backing[j * ENCODED_LEN..(j + 1) * ENCODED_LEN] {
      EncodeInjective(pts[i], NextSeq(start, i + 1), pts[j], NextSeq(start, j + 1));
    }
  }
}
