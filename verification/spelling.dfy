/** The names and marks of the wire formats, spelled out: field names (internal/model/fastjson.go, fieldName), the response
    (internal/httpapi/fastresp.go), Redis commands (internal/store/redis.go), RESP2 and JSON marks. */
module Spelling {
  import opened Bytes
  import opened Json
  import opened Resp
  import opened Points
  import opened Decimals
  import opened Scanner
  import opened Printer
  import opened RedisClient
  import opened Strconv
  import opened Codec
  import opened SortedSets
  import opened TrimSchedule
  import Cursors

  // Field names.

  function LowerName(f: Field): (s: string)
    ensures forall i | 0 <= i < |s| :: s[i] as int < 128
  {
    match f
    case Ts => "ts"
    case Lat => "lat"
    case Lon => "lon"
    case Battery => "battery"
    case Ax => "ax"
    case Ay => "ay"
    case Az => "az"
  }

  function UpperName(f: Field): (s: string)
    ensures |s| == |LowerName(f)|
  {
    match f
    case Ts => "TS"
    case Lat => "LAT"
    case Lon => "LON"
    case Battery => "BATTERY"
    case Ax => "AX"
    case Ay => "AY"
    case Az => "AZ"
  }

  /** The key spells the field's name, every letter small or capital. */
  predicate Spells(key: bytes, f: Field) {
    && |key| == |LowerName(f)|
    && forall i | 0 <= i < |key| :: key[i] == LowerName(f)[i] as int || key[i] == UpperName(f)[i] as int
  }

  lemma NamesSpelled(f: Field)
    ensures Name(f) == Ascii(LowerName(f))
  {
  }

  lemma Folds(c: byte, f: Field, i: nat)
    requires i < |LowerName(f)|
    ensures LowerByte(c) == LowerName(f)[i] as int <==> c == LowerName(f)[i] as int || c == UpperName(f)[i] as int
  {
  }

  lemma SpelledIs(key: bytes, f: Field)
    ensures Lower(key) == Name(f) <==> Spells(key, f)
  {
    hide LowerByte, LowerName, UpperName, Name;
    NamesSpelled(f);
    forall i | 0 <= i < |key| && i < |LowerName(f)|
      ensures LowerByte(key[i]) == Name(f)[i] <==> key[i] == LowerName(f)[i] as int || key[i] == UpperName(f)[i] as int
    {
      Folds(key[i], f, i);
    }
    if Spells(key, f) {
      assert |Lower(key)| == |Name(f)|;
      forall i | 0 <= i < |key| ensures Lower(key)[i] == Name(f)[i] {}
    } else if Lower(key) == Name(f) {
      assert |key| == |Name(f)|;
      forall i | 0 <= i < |key| ensures key[i] == LowerName(f)[i] as int || key[i] == UpperName(f)[i] as int {
        assert Lower(key)[i] == Name(f)[i];
      }
    }
  }

  /** A key names a field exactly when it spells its name in letters of either case. */
  lemma FieldSpelled(key: bytes, f: Field)
    ensures FieldOf(key) == Some(f) <==> Spells(key, f)
  {
    hide Spells, Lower;
    SpelledIs(key, f);
    NamesDiffer();
  }

  lemma NamesDiffer()
    ensures forall f, g :: f != g ==> Name(f) != Name(g)
  {
  }

  // The other formats.

  lemma Marks()
    ensures Ascii("\t\n\r \"*$+,-.:[\\]{}") ==
            [TAB, LF, CR, SPACE, QUOTE, STAR, DOLLAR, PLUS, COMMA, MINUS, DOT, COLON, LBRACKET, BACKSLASH, RBRACKET, LBRACE, RBRACE]
    ensures Ascii("09eE") == [ZERO, NINE, LOWER_E, UPPER_E] && CRLF == Ascii("\r\n")
  {
  }

  lemma Literals()
    ensures NULL_TEXT == Ascii("null") && TRUE_TEXT == Ascii("true") && FALSE_TEXT == Ascii("false")
    ensures POINTS_NAME == Ascii("points") && CURSOR_NAME == Ascii("next_cursor")
  {
  }

  /** The classes of bytes of RFC 8259: white space (section 2) and digits (section 6); hexadecimal digits and the letters
      behind a backslash (section 7) below. */
  lemma Classes(c: byte)
    ensures IsSpace(c) <==> c in Ascii(" \t\n\r")
    ensures IsDigit(c) <==> c in Ascii("0123456789")
  {
    assert Ascii(" \t\n\r") == [SPACE, TAB, LF, CR];
    assert Ascii("0123456789") == [48, 49, 50, 51, 52, 53, 54, 55, 56, 57];
  }

  lemma HexClass(c: byte)
    ensures IsHex(c) <==> c in Ascii("0123456789abcdefABCDEF")
  {
    assert Ascii("0123456789abcdefABCDEF") ==
           [48, 49, 50, 51, 52, 53, 54, 55, 56, 57, 97, 98, 99, 100, 101, 102, 65, 66, 67, 68, 69, 70];
  }

  lemma EscapeClass(c: byte)
    ensures ValidUnit(Escaped(c)) <==> c in Ascii("\"\\/bfnrt")
  {
    assert Ascii("\"\\/bfnrt") == [QUOTE, BACKSLASH, 47, 98, 102, 110, 114, 116];
  }

  /** How the two kinds of escapes are written. */
  lemma EscapesSpelled(c: byte, h0: byte, h1: byte, h2: byte, h3: byte)
    ensures UnitText(Escaped(c)) == Ascii("\\") + [c]
    ensures UnitText(Unicode(h0, h1, h2, h3)) == Ascii("\\u") + [h0, h1, h2, h3]
  {
  }

  /** The limits of the integers and of the doubles' exact range. */
  lemma Limits()
    ensures TWO63 == 9223372036854775808 && TWO64 == 18446744073709551616
    ensures TWO53 == 9007199254740992 && 2 * TWO52 == TWO53
    ensures ENCODED_LEN == 65 && TRIM_EVERY == 16
  {
  }

  /** Whole commands of a write, as texts: a batch of one point, and a trim to 1024. */
  lemma CommandsSpelled(p: StoredPoint)
    requires p.ts == 5
    ensures ZAddArgs(Ascii("a"), [p], 0) == [Ascii("ZADD"), Ascii("t:a"), Ascii("5"), Codec.Encode(p, 1)]
    ensures TrimArgs(Ascii("a"), 1024) == [Ascii("ZREMRANGEBYRANK"), Ascii("t:a"), Ascii("0"), Ascii("-1025")]
  {
    hide Codec.Encode;
    KeySpelled();
    Numerals();
    var none: seq<StoredPoint> := [];
    assert [p][..0] == none;
    assert ScoreMembers(none, 0) == [];
    assert NextSeq(0, 1) == 1;
    assert ScoreMembers([p], 0) == [] + ScoreMember(p, 1);
  }

  /** Whole commands of the reads: a page, and the newest ten. */
  lemma QueriesSpelled()
    ensures RangeArgs(Ascii("a"), 9, 10, Cursors.Position(5, 2)) ==
            [Ascii("ZRANGEBYSCORE"), Ascii("t:a"), Ascii("5"), Ascii("9"), Ascii("LIMIT"), Ascii("2"), Ascii("11")]
    ensures RecentArgs(Ascii("a"), 10) == [Ascii("ZREVRANGE"), Ascii("t:a"), Ascii("0"), Ascii("9")]
  {
    hide FormatInt;
    KeySpelled();
    Numerals();
  }

  lemma KeySpelled()
    ensures KeyOf(Ascii("a")) == Ascii("t:a")
    ensures ZADD == Ascii("ZADD") && ZREMRANGEBYRANK == Ascii("ZREMRANGEBYRANK")
    ensures ZRANGEBYSCORE == Ascii("ZRANGEBYSCORE") && ZREVRANGE == Ascii("ZREVRANGE") && LIMIT == Ascii("LIMIT")
  {
    CommandNames(Ascii("a"));
    assert Ascii("t:a") == Ascii("t:") + Ascii("a");
  }

  lemma Numerals()
    ensures FormatInt(0) == Ascii("0") && FormatInt(2) == Ascii("2") && FormatInt(5) == Ascii("5") && FormatInt(9) == Ascii("9")
    ensures FormatInt(11) == Ascii("11") && FormatInt(-1025) == Ascii("-1025")
  {
    assert FormatNat(1) == [49] && FormatNat(11) == [49, 49];
    assert FormatNat(10) == [49, 48] && FormatNat(102) == [49, 48, 50] && FormatNat(1025) == [49, 48, 50, 53];
  }

  /** The commands that the server is sent, and the key of a device. */
  lemma CommandNames(id: bytes)
    ensures ZADD == Ascii("ZADD") && ZREMRANGEBYRANK == Ascii("ZREMRANGEBYRANK")
    ensures ZRANGEBYSCORE == Ascii("ZRANGEBYSCORE") && ZREVRANGE == Ascii("ZREVRANGE") && LIMIT == Ascii("LIMIT")
    ensures KeyOf(id) == Ascii("t:") + id
  {
  }
}
