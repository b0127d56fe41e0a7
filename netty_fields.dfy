/** The single-value fields: `bool`, `Angle`, the `NextState0` discriminant
    and `Uuid`, and the `size_hint` of every primitive writer. */
module NettyFields {
  import opened Wire
  import opened NettyNum
  import opened Utf8
  import opened NettyStr
  import opened Elements
  import opened NettySeq

  // ---------------------------------------------------------------------
  // bool

  /** `bool::write`: `self as u8`. */
  function BoolByte(b: bool): (r: byte)
    ensures r == 0 || r == 1
  {
    if b then 1 else 0
  }

  /** `bool::read`: one byte by `read_exact`; any byte but 0 is `true`. */
  function ParseBool(buf: seq<byte>, pos: nat): (r: Result<Parsed<bool>, ReadError>)
  {
    if pos + 1 > |buf| then Err(ReadError.IoError)
    else Ok(Parsed(buf[pos] != 0, pos + 1))
  }

  /** The byte written for a bool reads back as that bool, and is the only
      byte consumed. */
  lemma BoolRoundTrip(b: bool, buf: seq<byte>, pos: nat)
    requires HasAt(buf, pos, [BoolByte(b)])
    ensures ParseBool(buf, pos) == Ok(Parsed(b, pos + 1))
  {
    assert buf[pos] == buf[pos..pos + 1][0];
  }

  /** Every byte reads as a bool, and writing that bool back gives 0 for 0
      and 1 for every other byte: the read normalises, the write is its
      left inverse. */
  lemma BoolReadNormalises(buf: seq<byte>, pos: nat)
    requires pos < |buf|
    ensures ParseBool(buf, pos).Ok?
    ensures BoolByte(ParseBool(buf, pos).value.value) == if buf[pos] == 0 then 0 else 1
  {
  }

  /** An empty input is an `IoError`. */
  lemma BoolTruncated(buf: seq<byte>, pos: nat)
    requires |buf| <= pos
    ensures ParseBool(buf, pos) == Err(ReadError.IoError)
  {
  }

  method WriteBool(b: bool, w: Writer)
    modifies w
    ensures w.data == old(w.data) + [BoolByte(b)]
  {
    var x: byte := if b then 1 else 0;
    w.WriteAll([x]);
  }

  method ReadBool(c: Cursor) returns (r: Result<bool, ReadError>)
    modifies c
    ensures r == ValueOf(ParseBool(c.buf, old(c.pos)))
    ensures r.Ok? ==> c.pos == old(c.pos) + 1
  {
    var id := c.ReadExact(1);
    if id.None? {
      return Err(ReadError.IoError);
    }
    r := Ok(id.value[0] != 0);
  }

  // ---------------------------------------------------------------------
  // Angle

  /** A rotation in 1/256ths of a turn, carried as a `u8`. */
  datatype Angle = Angle(steps: byte)

  /** `Angle::write` writes the inner `u8`. */
  function AngleBytes(a: Angle): (r: seq<byte>)
  {
    NumBytes(U8, a.steps)
  }

  /** `Angle::read` reads a `u8` and wraps it. */
  function ParseAngle(buf: seq<byte>, pos: nat): (r: Result<Parsed<Angle>, ReadError>)
  {
    match ParseNum(U8, buf, pos)
    case Ok(p) =>
      assert U8.Contains(p.value) && Pow2(U8.Bits()) == 256;
      Ok(Parsed(Angle(p.value), p.next))
    case Err(e) => Err(e)
  }

  /** On the wire an angle is its one byte, and reading that byte back gives
      the angle. */
  lemma AngleRoundTrip(a: Angle, buf: seq<byte>, pos: nat)
    requires HasAt(buf, pos, [a.steps])
    ensures AngleBytes(a) == [a.steps]
    ensures ParseAngle(buf, pos) == Ok(Parsed(a, pos + 1))
  {
    Pow2Small();
    assert U8.Contains(a.steps);
    ModOfSmall(a.steps, 256);
    assert AngleBytes(a) == BeBytes(1, a.steps);
    NumRoundTrip(U8, a.steps, buf, pos);
  }

  method WriteAngle(a: Angle, w: Writer)
    modifies w
    ensures w.data == old(w.data) + AngleBytes(a)
  {
    assert U8.Contains(a.steps);
    WriteNum(U8, a.steps, w);
  }

  method ReadAngle(c: Cursor) returns (r: Result<Angle, ReadError>)
    modifies c
    ensures r == ValueOf(ParseAngle(c.buf, old(c.pos)))
    ensures r.Ok? ==> c.pos == old(c.pos) + 1
  {
    var n := ReadNum(U8, c);
    if n.Err? {
      return Err(n.error);
    }
    assert U8.Contains(n.value) && Pow2(U8.Bits()) == 256;
    r := Ok(Angle(n.value));
  }

  // ---------------------------------------------------------------------
  // NextState0

  /** The state a handshake asks for. */
  datatype NextState = Status | Login

  /** The enum's explicit discriminants. */
  function Discriminant(s: NextState): int
  {
    match s
    case Status => 1
    case Login => 2
  }

  /** `NextState0::try_from(i32)`: 1 and 2 are the two states; any other
      value is `InvalidEnumId`, which converts to `ReadError::InvalidEnumId`. */
  function NextStateFrom(v: int): (r: Result<NextState, ReadError>)
  {
    if v == 1 then Ok(Status)
    else if v == 2 then Ok(Login)
    else Err(InvalidEnumId)
  }

  /** `try_from` inverts the discriminant: it accepts exactly the
      discriminants, each as its own state, and rejects everything else with
      `InvalidEnumId`. */
  lemma NextStateFromInverts(v: int, s: NextState)
    ensures NextStateFrom(Discriminant(s)) == Ok(s)
    ensures NextStateFrom(v).Ok? ==> Discriminant(NextStateFrom(v).value) == v
    ensures NextStateFrom(v).Err? <==> v != 1 && v != 2
    ensures NextStateFrom(v).Err? ==> NextStateFrom(v).error == InvalidEnumId
  {
  }

  // ---------------------------------------------------------------------
  // Uuid

  /** A 128-bit identifier, as its 16 bytes in order. */
  type Uuid = s: seq<byte> | |s| == 16 witness seq(16, i => 0)

  /** The ASCII lower-case hex digit of `n`. */
  function HexDigit(n: nat): (r: byte)
    requires n < 16
    ensures r < 0x80
  {
    if n < 10 then 0x30 + n else 0x61 + (n - 10)
  }

  /** Each byte as two lower-case hex digits, high nibble first. */
  function Hex(bs: seq<byte>): (r: seq<byte>)
    ensures |r| == 2 * |bs|
  {
    if bs == [] then [] else [HexDigit(bs[0] / 16), HexDigit(bs[0] % 16)] + Hex(bs[1..])
  }

  /** The hyphenated lower-case form, `8-4-4-4-12` hex digits, as the `uuid`
      crate's `hyphenated().encode_lower` writes it. */
  function Hyphenated(u: Uuid): (r: seq<byte>)
  {
    Hex(u[..4]) + [0x2D] + Hex(u[4..6]) + [0x2D] + Hex(u[6..8]) + [0x2D]
      + Hex(u[8..10]) + [0x2D] + Hex(u[10..])
  }

  /** `Uuid::write`: the byte 36, then the 36 bytes of the hyphenated form. */
  function UuidBytes(u: Uuid): (r: seq<byte>)
  {
    [36] + Hyphenated(u)
  }

  /** Hex digits are ASCII. */
  lemma {:induction false} HexIsAscii(bs: seq<byte>)
    ensures forall k :: 0 <= k < |Hex(bs)| ==> Hex(bs)[k] < 0x80
  {
    if bs != [] {
      HexIsAscii(bs[1..]);
    }
  }

  /** The hyphenated form is 36 ASCII bytes, hence UTF-8. */
  lemma HyphenatedIsText(u: Uuid)
    ensures |Hyphenated(u)| == 36
    ensures ValidUtf8(Hyphenated(u))
  {
    var h := Hyphenated(u);
    HexIsAscii(u[..4]);
    HexIsAscii(u[4..6]);
    HexIsAscii(u[6..8]);
    HexIsAscii(u[8..10]);
    HexIsAscii(u[10..]);
    AsciiIsUtf8(h);
  }

  /** The raw length byte 36 is also the `Var<i32>` encoding of 36, so a
      written Uuid is exactly the `String` encoding of its hyphenated form:
      37 bytes, where `size_hint` says 36. */
  lemma UuidIsString(u: Uuid)
    ensures StrBytes(Hyphenated(u)) == Emitted(UuidBytes(u), Pass)
    ensures |UuidBytes(u)| == 37
  {
    HyphenatedIsText(u);
    assert VarBytes(36) == [36];
  }

  /** `Uuid::read`: a `String`, then `Uuid::from_str` on it, whose failure
      is `UuidError`. The parser belongs to the `uuid` crate and is a
      parameter here. */
  function ParseUuid(fromStr: seq<byte> -> Option<Uuid>, buf: seq<byte>, pos: nat): (r: Result<Parsed<Uuid>, ReadError>)
  {
    var s :- ParseString(buf, pos);
    match fromStr(s.value)
    case Some(u) => Ok(Parsed(u, s.next))
    case None => Err(UuidError)
  }

  /** Round trip, for any `from_str` that accepts the hyphenated form: a
      written Uuid reads back and its 37 bytes are consumed. */
  lemma UuidRoundTrip(fromStr: seq<byte> -> Option<Uuid>, u: Uuid, buf: seq<byte>, pos: nat) returns (next: nat)
    requires fromStr(Hyphenated(u)) == Some(u)
    requires HasAt(buf, pos, UuidBytes(u))
    ensures next == pos + 37
    ensures ParseUuid(fromStr, buf, pos) == Ok(Parsed(u, next))
  {
    UuidIsString(u);
    HyphenatedIsText(u);
    var p := TextRoundTrip(Hyphenated(u), buf, pos);
    next := p + 36;
  }

  method WriteUuid(u: Uuid, w: Writer)
    modifies w
    ensures w.data == old(w.data) + UuidBytes(u)
  {
    w.WriteAll([36]);
    w.WriteAll(Hyphenated(u));
  }

  method ReadUuid(fromStr: seq<byte> -> Option<Uuid>, c: Cursor) returns (r: Result<Uuid, ReadError>)
    modifies c
    ensures r == ValueOf(ParseUuid(fromStr, c.buf, old(c.pos)))
    ensures r.Ok? ==> c.pos == ParseUuid(fromStr, c.buf, old(c.pos)).value.next
  {
    var s := ReadString(c);
    if s.Err? {
      return Err(s.error);
    }
    match fromStr(s.value)
    case Some(u) => r := Ok(u);
    case None => r := Err(UuidError);
  }

  // ---------------------------------------------------------------------
  // size_hint

  /** `size_hint` of each primitive writer: `size_of` for a fixed-width
      number, 36 for a Uuid, and the trait's default 1 for everything
      else. */
  datatype Field =
    | Num(t: IntType) | VarNum(t: IntType) | Text | Bool | Bytes | UuidField | AngleField
    | VecField | CountedField(count: IntType)

  function SizeHint(f: Field): (r: nat)
    ensures r >= 1
  {
    match f
    case Num(t) => t.size
    case UuidField => 36
    case CountedField(t) => t.size
    case _ => 1
  }

  /** The hint is exact for fixed-width numbers, bools and angles. */
  lemma SizeHintExact(t: IntType, v: int, b: bool, a: Angle)
    requires t.Contains(v)
    ensures |NumBytes(t, v)| == SizeHint(Num(t))
    ensures |[BoolByte(b)]| == SizeHint(Bool)
    ensures |AngleBytes(a)| == SizeHint(AngleField)
  {
    Pow2Small();
    ModOfSmall(a.steps, 256);
  }

  /** For every other writer it is a lower bound on what a successful write
      emits; the Uuid writer emits one byte more than its hint. */
  lemma SizeHintBelowWrite(u: nat, s: seq<byte>, bs: seq<byte>, id: Uuid)
    ensures SizeHint(VarNum(I32)) <= |VarBytes(u)|
    ensures StrBytes(s).outcome.Pass? ==> SizeHint(Text) <= |StrBytes(s).bytes|
    ensures SizeHint(Bytes) <= |SliceBytes(bs)|
    ensures SizeHint(UuidField) < |UuidBytes(id)|
  {
    UuidIsString(id);
  }

  /** A vector's hint is its `Var<u32>` count's, a lower bound on what it
      writes; a counted vector's is its count's width, which is exactly the
      count it writes first whenever the length fits. */
  lemma SizeHintOfVectors<T>(t: IntType, tooLarge: WriteError, c: Codec<T, ReadError, WriteError>, xs: seq<T>)
    ensures SizeHint(VecField) == SizeHint(VarNum(U32)) <= |VecBytes(c, xs).bytes|
    ensures t.Contains(|xs|) ==>
              && SizeHint(CountedField(t)) <= |CountedBytes(t, tooLarge, c, xs).bytes|
              && CountedBytes(t, tooLarge, c, xs).bytes[..SizeHint(CountedField(t))] == NumBytes(t, |xs|)
  {
    var count := VarBytes(U32.AsUnsigned(|xs|));
    assert VecBytes(c, xs).bytes == count + EmitAll(c, xs).bytes;
    if t.Contains(|xs|) {
      var written := CountedBytes(t, tooLarge, c, xs).bytes;
      assert written == NumBytes(t, |xs|) + EmitAll(c, xs).bytes;
      assert |NumBytes(t, |xs|)| == t.size by {
        SizeHintExact(t, |xs|, true, Angle(0));
      }
      assert written[..t.size] == NumBytes(t, |xs|);
    }
  }
}
