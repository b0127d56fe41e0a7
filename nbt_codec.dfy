/** The building blocks the NBT list codec (`nbt/src/list.rs`) takes from the
    rest of its crate: the tag byte `NbtTag`, the error kinds, big-endian
    numbers, and `Counted<_, i32>`, a sequence prefixed by its length as a
    big-endian `i32`. None of them is part of this model's source; each is
    given here the layout the NBT format prescribes, with its round trip
    proved. */
module NbtCodec {
  import opened Wire
  import opened NettyNum
  import opened Elements

  // ---------------------------------------------------------------------
  // Errors

  /** `decode::Error`, as far as the list codec meets it: input ending early,
      an unknown tag byte, a message, and a failed integer conversion. */
  datatype DecodeError = Io | UnknownTag(id: byte) | Custom(message: string) | TryFromInt

  /** `encode::Error`: a length that does not convert to `i32`. */
  datatype EncodeError = TryFromInt

  // ---------------------------------------------------------------------
  // NbtTag

  /** The element-type tag of the NBT format. */
  datatype NbtTag =
    | End | Byte | Short | Int | Long | Float | Double
    | ByteArray | String | List | Compound | IntArray | LongArray

  /** Each tag's byte on the wire. */
  function TagId(t: NbtTag): (r: byte)
    ensures r <= 12
  {
    match t
    case End => 0
    case Byte => 1
    case Short => 2
    case Int => 3
    case Long => 4
    case Float => 5
    case Double => 6
    case ByteArray => 7
    case String => 8
    case List => 9
    case Compound => 10
    case IntArray => 11
    case LongArray => 12
  }

  /** The tag a byte names, if any. */
  function TagOf(b: byte): (r: Option<NbtTag>)
  {
    if b == 0 then Some(End)
    else if b == 1 then Some(Byte)
    else if b == 2 then Some(Short)
    else if b == 3 then Some(Int)
    else if b == 4 then Some(Long)
    else if b == 5 then Some(Float)
    else if b == 6 then Some(Double)
    else if b == 7 then Some(ByteArray)
    else if b == 8 then Some(String)
    else if b == 9 then Some(List)
    else if b == 10 then Some(Compound)
    else if b == 11 then Some(IntArray)
    else if b == 12 then Some(LongArray)
    else None
  }

  /** The bytes 0 to 12 name the tags one to one, and no other byte names
      a tag. */
  lemma TagOfInverts(t: NbtTag, b: byte)
    ensures TagOf(TagId(t)) == Some(t)
    ensures TagOf(b).Some? <==> b <= 12
    ensures TagOf(b).Some? ==> TagId(TagOf(b).value) == b
  {
  }

  /** `NbtTag::decode`: one byte, which must name a tag. */
  function ParseTag(buf: seq<byte>, pos: nat): (r: Result<Parsed<NbtTag>, DecodeError>)
  {
    if pos + 1 > |buf| then Err(Io)
    else
      match TagOf(buf[pos])
      case Some(t) => Ok(Parsed(t, pos + 1))
      case None => Err(UnknownTag(buf[pos]))
  }

  /** A tag's byte reads back as that tag. */
  lemma TagRoundTrip(t: NbtTag, buf: seq<byte>, pos: nat)
    requires HasAt(buf, pos, [TagId(t)])
    ensures ParseTag(buf, pos) == Ok(Parsed(t, pos + 1))
  {
    assert buf[pos] == buf[pos..pos + 1][0];
  }

  method ReadTag(c: Cursor) returns (r: Result<NbtTag, DecodeError>)
    modifies c
    ensures r == ValueOf(ParseTag(c.buf, old(c.pos)))
    ensures r.Ok? ==> c.pos == old(c.pos) + 1
  {
    var id := c.ReadExact(1);
    if id.None? {
      return Err(Io);
    }
    match TagOf(id.value[0])
    case Some(t) => r := Ok(t);
    case None => r := Err(UnknownTag(id.value[0]));
  }

  // ---------------------------------------------------------------------
  // Big-endian numbers

  const I16 := IntType(2, true)
  const I64 := IntType(8, true)
  /** `f32` and `f64` travel as the big-endian bytes of their bit patterns. */
  const F32 := IntType(4, false)
  const F64 := IntType(8, false)

  /** `Decode` of a number: `size_of` big-endian bytes. */
  function ParseNumber(t: IntType, buf: seq<byte>, pos: nat): (r: Result<Parsed<int>, DecodeError>)
  {
    match ParseNum(t, buf, pos)
    case Ok(p) => Ok(p)
    case Err(_) => Err(Io)
  }

  /** A number type as an element codec. The writer is `to_be_bytes`. */
  function NumCodec(t: IntType): Codec<int, DecodeError, EncodeError>
  {
    Codec((buf, pos) => ParseNumber(t, buf, pos), x => Emitted(BeBytes(t.size, t.AsUnsigned(x)), Pass))
  }

  /** Every value of the type round-trips through its codec, and the reader
      moves forward. */
  lemma NumCodecRoundTrip(t: IntType)
    ensures forall x :: t.Contains(x) ==> RoundTripsAt(NumCodec(t), x)
    ensures Forward(NumCodec(t))
  {
    var c := NumCodec(t);
    forall x, buf: seq<byte>, pos: nat | t.Contains(x) && WrittenAt(c, x, buf, pos)
      ensures c.parse(buf, pos) == Ok(Parsed(x, pos + |c.emit(x).bytes|))
    {
      NumRoundTrip(t, x, buf, pos);
    }
  }

  // ---------------------------------------------------------------------
  // Counted<_, i32>

  /** The `i32` length prefix of `n` elements: `i32::try_from(len)?`, which
      fails before anything is written when `n` is 2^31 or more. */
  function CountBytes(n: nat): (r: Emitted<EncodeError>)
  {
    if n >= Pow2(31) then Emitted([], Fail(EncodeError.TryFromInt))
    else
      Pow2Small();
      Emitted(NumBytes(I32, n), Pass)
  }

  /** The length prefix as `usize::try_from(i32::decode(cursor)?)?`: a
      negative length is `TryFromInt`. */
  function ParseCount(buf: seq<byte>, pos: nat): (r: Result<Parsed<nat>, DecodeError>)
  {
    var n :- ParseNumber(I32, buf, pos);
    if n.value < 0 then Err(DecodeError.TryFromInt) else Ok(Parsed(n.value, n.next))
  }

  /** A length that fits reads back, after exactly its four bytes. */
  lemma CountRoundTrip(n: nat, buf: seq<byte>, pos: nat)
    requires CountBytes(n).outcome.Pass?
    requires HasAt(buf, pos, CountBytes(n).bytes)
    ensures |CountBytes(n).bytes| == 4
    ensures ParseCount(buf, pos) == Ok(Parsed(n, pos + 4))
  {
    Pow2Small();
    NumRoundTrip(I32, n, buf, pos);
  }

  /** The length prefix fails exactly when the length is 2^31 or more, and
      then writes nothing; a negative length on the wire is refused. */
  lemma CountLimits(n: nat, buf: seq<byte>, pos: nat)
    ensures CountBytes(n).outcome.Fail? <==> n >= 0x8000_0000
    ensures CountBytes(n).outcome.Fail? ==> CountBytes(n).bytes == []
    ensures ParseNumber(I32, buf, pos).Ok? && ParseNumber(I32, buf, pos).value.value < 0 ==>
              ParseCount(buf, pos) == Err(DecodeError.TryFromInt)
  {
    Pow2Small();
  }

  /** `Counted<Vec<T>, i32>::encode`: the `i32` length, then the elements. */
  function Counted32Bytes<T>(c: Codec<T, DecodeError, EncodeError>, xs: seq<T>): Emitted<EncodeError>
  {
    CountBytes(|xs|).Then(EmitAll(c, xs))
  }

  /** `Counted<Vec<T>, i32>::decode`: the length, then that many elements. */
  function ParseCounted32<T>(c: Codec<T, DecodeError, EncodeError>, buf: seq<byte>, pos: nat): Result<Parsed<seq<T>>, DecodeError>
  {
    var n :- ParseCount(buf, pos);
    ParseMany(c, buf, n.next, n.value)
  }

  /** A counted sequence written successfully reads back, and its bytes are
      consumed. */
  lemma Counted32RoundTrip<T>(c: Codec<T, DecodeError, EncodeError>, xs: seq<T>, buf: seq<byte>, pos: nat) returns (next: nat)
    requires AllRoundTrip(c, xs)
    requires Counted32Bytes(c, xs).outcome.Pass?
    requires HasAt(buf, pos, Counted32Bytes(c, xs).bytes)
    ensures next == pos + |Counted32Bytes(c, xs).bytes|
    ensures ParseCounted32(c, buf, pos) == Ok(Parsed(xs, next))
  {
    var n := CountBytes(|xs|);
    HasAtSplit(buf, pos, n.bytes, EmitAll(c, xs).bytes);
    CountRoundTrip(|xs|, buf, pos);
    next := ManyRoundTrip(c, xs, buf, pos + 4);
  }

  /** A counted sequence of a forward reader ends inside the buffer, after
      its four-byte prefix. */
  lemma Counted32Forward<T>(c: Codec<T, DecodeError, EncodeError>, buf: seq<byte>, pos: nat)
    requires Forward(c)
    ensures ParseCounted32(c, buf, pos).Ok? ==> pos + 4 <= ParseCounted32(c, buf, pos).value.next <= |buf|
  {
    var n := ParseCount(buf, pos);
    if n.Ok? {
      ManyForward(c, buf, n.value.next, n.value.value);
    }
  }

  /** `<&Counted<[u8], i32>>`: the `i32` length, then the bytes themselves. */
  function SliceBytes32(bs: seq<byte>): Emitted<EncodeError>
  {
    CountBytes(|bs|).Then(Emitted(bs, Pass))
  }

  /** Its decoder borrows the bytes that follow the length. */
  function ParseSlice32(buf: seq<byte>, pos: nat): (r: Result<Parsed<seq<byte>>, DecodeError>)
    ensures r.Ok? ==> pos + 4 <= r.value.next <= |buf|
  {
    var n :- ParseCount(buf, pos);
    if n.next + n.value > |buf| then Err(Io)
    else Ok(Parsed(buf[n.next..n.next + n.value], n.next + n.value))
  }

  /** Byte slices as elements, as `ByteArray` lists hold them. */
  function SliceCodec(): Codec<seq<byte>, DecodeError, EncodeError>
  {
    Codec((buf, pos) => ParseSlice32(buf, pos), bs => SliceBytes32(bs))
  }

  /** Every byte slice round-trips, and the reader moves forward. */
  lemma SliceRoundTrip()
    ensures RoundTrips(SliceCodec())
    ensures Forward(SliceCodec())
  {
    forall bs: seq<byte>
      ensures RoundTripsAt(SliceCodec(), bs)
    {
      SliceRoundTripAt(bs);
    }
  }

  lemma SliceRoundTripAt(bs: seq<byte>)
    ensures RoundTripsAt(SliceCodec(), bs)
  {
    forall buf: seq<byte>, pos: nat | WrittenAt(SliceCodec(), bs, buf, pos)
      ensures SliceCodec().parse(buf, pos) == Ok(Parsed(bs, pos + |SliceCodec().emit(bs).bytes|))
    {
      SliceCodecParts(bs, buf, pos);
      var next := SliceBytesRoundTrip(bs, buf, pos);
    }
  }

  /** The slice codec's reader and writer, applied. */
  lemma SliceCodecParts(bs: seq<byte>, buf: seq<byte>, pos: nat)
    ensures SliceCodec().parse(buf, pos) == ParseSlice32(buf, pos)
    ensures SliceCodec().emit(bs) == SliceBytes32(bs)
  {
  }

  /** A byte slice written successfully reads back, after its four-byte
      length. */
  lemma SliceBytesRoundTrip(bs: seq<byte>, buf: seq<byte>, pos: nat) returns (next: nat)
    requires SliceBytes32(bs).outcome.Pass?
    requires HasAt(buf, pos, SliceBytes32(bs).bytes)
    ensures next == pos + |SliceBytes32(bs).bytes|
    ensures ParseSlice32(buf, pos) == Ok(Parsed(bs, next))
  {
    var n := CountBytes(|bs|);
    HasAtSplit(buf, pos, n.bytes, bs);
    CountRoundTrip(|bs|, buf, pos);
    next := pos + 4 + |bs|;
  }

  /** Arrays of numbers, as `IntArray` and `LongArray` lists hold them:
      `Counted<Vec<i32>, i32>` and `Counted<Vec<i64>, i32>`. */
  function ArrayCodec(t: IntType): Codec<seq<int>, DecodeError, EncodeError>
  {
    Codec((buf, pos) => ParseCounted32(NumCodec(t), buf, pos), xs => Counted32Bytes(NumCodec(t), xs))
  }

  /** Every one of `xs` is a value of `t`. */
  predicate Fits(t: IntType, xs: seq<int>) {
    forall i :: 0 <= i < |xs| ==> t.Contains(xs[i])
  }

  /** `bs` is the values of `xs` back to back, `size_of` big-endian bytes
      each: element `i` starts at offset `size * i`. */
  predicate LaidOut(t: IntType, xs: seq<int>, bs: seq<byte>) {
    && |bs| == t.size * |xs|
    && forall i :: 0 <= i < |xs| ==> bs[t.size * i .. t.size * (i + 1)] == BeBytes(t.size, t.AsUnsigned(xs[i]))
  }

  /** Writing a run of numbers never fails, and lays them out with a fixed
      stride and no separators. */
  lemma {:induction false} NumsLayout(t: IntType, xs: seq<int>)
    ensures EmitAll(NumCodec(t), xs).outcome.Pass?
    ensures LaidOut(t, xs, EmitAll(NumCodec(t), xs).bytes)
    decreases xs
  {
    if xs != [] {
      NumsLayout(t, xs[1..]);
      var rest := EmitAll(NumCodec(t), xs[1..]);
      assert NumCodec(t).emit(xs[0]) == Emitted(BeBytes(t.size, t.AsUnsigned(xs[0])), Pass);
      assert EmitAll(NumCodec(t), xs) == Emitted(BeBytes(t.size, t.AsUnsigned(xs[0])) + rest.bytes, Pass);
      LaidOutCons(t, xs, rest.bytes);
    }
  }

  /** One more number in front shifts every later one by one stride. */
  lemma LaidOutCons(t: IntType, xs: seq<int>, rest: seq<byte>)
    requires xs != []
    requires LaidOut(t, xs[1..], rest)
    ensures LaidOut(t, xs, BeBytes(t.size, t.AsUnsigned(xs[0])) + rest)
  {
    var s := t.size;
    var head := BeBytes(s, t.AsUnsigned(xs[0]));
    Stride(s, |xs| - 1);
    forall i | 0 <= i < |xs|
      ensures (head + rest)[s * i .. s * (i + 1)] == BeBytes(s, t.AsUnsigned(xs[i]))
    {
      if i == 0 {
        Stride(s, 0);
      } else {
        assert xs[i] == xs[1..][i - 1];
        ShiftedSlice(head, rest, i - 1);
      }
    }
  }

  /** Past a prefix of one stride, stride `i + 1` of the whole is stride `i`
      of the rest. */
  lemma ShiftedSlice(head: seq<byte>, rest: seq<byte>, i: nat)
    requires |head| * (i + 1) <= |rest|
    ensures (head + rest)[|head| * (i + 1) .. |head| * (i + 2)] == rest[|head| * i .. |head| * (i + 1)]
  {
    Stride(|head|, i);
    Stride(|head|, i + 1);
  }

  /** The offset of the next stride. */
  lemma Stride(s: nat, i: nat)
    ensures s * (i + 1) == s * i + s
    ensures s * i >= 0
  {
  }

  /** An array of values of `t` round-trips. */
  lemma ArrayRoundTrip(t: IntType, xs: seq<int>)
    requires Fits(t, xs)
    ensures RoundTripsAt(ArrayCodec(t), xs)
  {
    NumCodecRoundTrip(t);
    assert AllRoundTrip(NumCodec(t), xs);
    forall buf: seq<byte>, pos: nat | WrittenAt(ArrayCodec(t), xs, buf, pos)
      ensures ArrayCodec(t).parse(buf, pos) == Ok(Parsed(xs, pos + |ArrayCodec(t).emit(xs).bytes|))
    {
      ArrayCodecParts(t, xs, buf, pos);
      var next := Counted32RoundTrip(NumCodec(t), xs, buf, pos);
    }
  }

  /** A counted run of arrays of values of `t` written successfully reads
      back, and its bytes are consumed. */
  lemma ArraysRoundTrip(t: IntType, xss: seq<seq<int>>, buf: seq<byte>, pos: nat) returns (next: nat)
    requires forall i :: 0 <= i < |xss| ==> Fits(t, xss[i])
    requires Counted32Bytes(ArrayCodec(t), xss).outcome.Pass?
    requires HasAt(buf, pos, Counted32Bytes(ArrayCodec(t), xss).bytes)
    ensures next == pos + |Counted32Bytes(ArrayCodec(t), xss).bytes|
    ensures ParseCounted32(ArrayCodec(t), buf, pos) == Ok(Parsed(xss, next))
  {
    forall i | 0 <= i < |xss|
      ensures RoundTripsAt(ArrayCodec(t), xss[i])
    {
      ArrayRoundTrip(t, xss[i]);
    }
    next := Counted32RoundTrip(ArrayCodec(t), xss, buf, pos);
  }

  /** The array codec's reader and writer, applied. */
  lemma ArrayCodecParts(t: IntType, xs: seq<int>, buf: seq<byte>, pos: nat)
    ensures ArrayCodec(t).parse(buf, pos) == ParseCounted32(NumCodec(t), buf, pos)
    ensures ArrayCodec(t).emit(xs) == Counted32Bytes(NumCodec(t), xs)
  {
  }

  lemma ArrayForward(t: IntType)
    ensures Forward(ArrayCodec(t))
  {
    NumCodecRoundTrip(t);
    forall buf: seq<byte>, pos: nat
      ensures ArrayCodec(t).parse(buf, pos).Ok? ==> pos <= ArrayCodec(t).parse(buf, pos).value.next <= |buf|
    {
      ArrayCodecParts(t, [], buf, pos);
      Counted32Forward(NumCodec(t), buf, pos);
    }
  }

  /** A counted run of numbers, of byte slices or of arrays that reads
      stays within the buffer, past its count. */
  lemma NumsForward(t: IntType, buf: seq<byte>, pos: nat)
    ensures ParseCounted32(NumCodec(t), buf, pos).Ok? ==> pos + 4 <= ParseCounted32(NumCodec(t), buf, pos).value.next <= |buf|
  {
    NumCodecRoundTrip(t);
    Counted32Forward(NumCodec(t), buf, pos);
  }

  lemma SlicesForward(buf: seq<byte>, pos: nat)
    ensures ParseCounted32(SliceCodec(), buf, pos).Ok? ==> pos + 4 <= ParseCounted32(SliceCodec(), buf, pos).value.next <= |buf|
  {
    SliceRoundTrip();
    Counted32Forward(SliceCodec(), buf, pos);
  }

  lemma ArraysForward(t: IntType, buf: seq<byte>, pos: nat)
    ensures ParseCounted32(ArrayCodec(t), buf, pos).Ok? ==> pos + 4 <= ParseCounted32(ArrayCodec(t), buf, pos).value.next <= |buf|
  {
    ArrayForward(t);
    Counted32Forward(ArrayCodec(t), buf, pos);
  }

  // ---------------------------------------------------------------------
  // Readers and writers

  method ReadNumber(t: IntType, c: Cursor) returns (r: Result<int, DecodeError>)
    modifies c
    ensures r == ValueOf(ParseNumber(t, c.buf, old(c.pos)))
    ensures r.Ok? ==> c.pos == old(c.pos) + t.size
  {
    var n := ReadNum(t, c);
    if n.Err? {
      return Err(Io);
    }
    r := Ok(n.value);
  }

  method ReadCount(c: Cursor) returns (r: Result<nat, DecodeError>)
    modifies c
    ensures r == ValueOf(ParseCount(c.buf, old(c.pos)))
    ensures r.Ok? ==> c.pos == old(c.pos) + 4
  {
    var n := ReadNumber(I32, c);
    if n.Err? {
      return Err(n.error);
    }
    if n.value < 0 {
      return Err(DecodeError.TryFromInt);
    }
    r := Ok(n.value);
  }

  /** Writes the length prefix, or fails before writing anything. */
  method WriteCount(n: nat, w: Writer) returns (o: Outcome<EncodeError>)
    modifies w
    ensures o == CountBytes(n).outcome
    ensures w.data == old(w.data) + CountBytes(n).bytes
  {
    Pow2Small();
    if n >= 0x8000_0000 {
      return Fail(EncodeError.TryFromInt);
    }
    WriteNum(I32, n, w);
    o := Pass;
  }

  method WriteCounted32<T>(codec: Codec<T, DecodeError, EncodeError>, xs: seq<T>, w: Writer) returns (o: Outcome<EncodeError>)
    modifies w
    ensures o == Counted32Bytes(codec, xs).outcome
    ensures w.data == old(w.data) + Counted32Bytes(codec, xs).bytes
  {
    o := WriteCount(|xs|, w);
    if o.Fail? {
      return;
    }
    o := WriteItems(codec, xs, w);
  }

  method ReadCounted32<T>(codec: Codec<T, DecodeError, EncodeError>, c: Cursor) returns (r: Result<seq<T>, DecodeError>)
    modifies c
    ensures r == ValueOf(ParseCounted32(codec, c.buf, old(c.pos)))
    ensures r.Ok? ==> c.pos == ParseCounted32(codec, c.buf, old(c.pos)).value.next
  {
    var n := ReadCount(c);
    if n.Err? {
      return Err(n.error);
    }
    r := ReadMany(codec, c, n.value);
  }

  method WriteSlice32(bs: seq<byte>, w: Writer) returns (o: Outcome<EncodeError>)
    modifies w
    ensures o == SliceBytes32(bs).outcome
    ensures w.data == old(w.data) + SliceBytes32(bs).bytes
  {
    o := WriteCount(|bs|, w);
    if o.Fail? {
      return;
    }
    w.WriteAll(bs);
  }

  /** Reads a counted slice, borrowing its bytes. */
  method ReadSlice32(c: Cursor) returns (r: Result<seq<byte>, DecodeError>)
    modifies c
    ensures r == ValueOf(ParseSlice32(c.buf, old(c.pos)))
    ensures r.Ok? ==> c.pos == ParseSlice32(c.buf, old(c.pos)).value.next
  {
    var n := ReadCount(c);
    if n.Err? {
      return Err(n.error);
    }
    var bs := c.ReadExact(n.value);
    if bs.None? {
      return Err(Io);
    }
    r := Ok(bs.value);
  }
}
