/** The NBT list (`nbt/src/list.rs`): a homogeneous sequence of one payload
    type, written as the element type's tag byte, the element count as a
    big-endian `i32`, and the elements' payloads without tags of their own.
    `Invalid` is the untyped empty list, tag `End` with count 0. */
module NbtList {
  import opened Wire
  import opened NettyNum
  import opened Elements
  import opened NbtCodec

  // ---------------------------------------------------------------------
  // The list

  /** `Cow<'a, T>`: a value borrowed from the input buffer, or owned. */
  datatype Cow<T> = Borrowed(borrowed: T) | Owned(owned: T) {
    /** What the `Cow` dereferences to. */
    function Get(): T {
      match this
      case Borrowed(x) => x
      case Owned(x) => x
    }
  }

  /** `List<'a>`. Numbers are held as `int`s whose range `Valid` states;
      `f32` and `f64` elements as their bit patterns; strings by value;
      compounds as values of the type parameter `C`. */
  datatype List<C> =
    | Byte(bytes: Cow<seq<int>>)
    | Short(shorts: seq<int>)
    | Int(ints: seq<int>)
    | Long(longs: seq<int>)
    | Float(floats: seq<int>)
    | Double(doubles: seq<int>)
    | ByteArray(bytearrays: seq<seq<byte>>)
    | String(strings: seq<string>)
    | List(lists: seq<List<C>>)
    | Compound(compounds: seq<C>)
    | IntArray(intarrays: seq<seq<int>>)
    | LongArray(longarrays: seq<seq<int>>)
    | Invalid

  /** The Rust element types' ranges, down to nested lists. */
  predicate Valid<C>(l: List<C>)
    decreases l
  {
    match l
    case Byte(b) => forall i :: 0 <= i < |b.Get()| ==> -128 <= b.Get()[i] < 128
    case Short(xs) => Fits(I16, xs)
    case Int(xs) => Fits(I32, xs)
    case Long(xs) => Fits(I64, xs)
    case Float(xs) => Fits(F32, xs)
    case Double(xs) => Fits(F64, xs)
    case IntArray(xss) => forall i :: 0 <= i < |xss| ==> Fits(I32, xss[i])
    case LongArray(xss) => forall i :: 0 <= i < |xss| ==> Fits(I64, xss[i])
    case List(ls) => forall i :: 0 <= i < |ls| ==> Valid(ls[i])
    case _ => true
  }

  /** The tag written in front of the elements. */
  function ElemTag<C>(l: List<C>): NbtTag
  {
    match l
    case Byte(_) => NbtTag.Byte
    case Short(_) => NbtTag.Short
    case Int(_) => NbtTag.Int
    case Long(_) => NbtTag.Long
    case Float(_) => NbtTag.Float
    case Double(_) => NbtTag.Double
    case ByteArray(_) => NbtTag.ByteArray
    case String(_) => NbtTag.String
    case List(_) => NbtTag.List
    case Compound(_) => NbtTag.Compound
    case IntArray(_) => NbtTag.IntArray
    case LongArray(_) => NbtTag.LongArray
    case Invalid => NbtTag.End
  }

  /** The number of elements; 0 for `Invalid`. */
  function Len<C>(l: List<C>): nat
  {
    match l
    case Byte(b) => |b.Get()|
    case Short(xs) => |xs|
    case Int(xs) => |xs|
    case Long(xs) => |xs|
    case Float(xs) => |xs|
    case Double(xs) => |xs|
    case ByteArray(xss) => |xss|
    case String(ss) => |ss|
    case List(ls) => |ls|
    case Compound(cs) => |cs|
    case IntArray(xss) => |xss|
    case LongArray(xss) => |xss|
    case Invalid => 0
  }

  // ---------------------------------------------------------------------
  // i8 as u8

  /** `i8` reinterpreted as `u8`: the same eight bits. */
  function AsUnsignedBytes(xs: seq<int>): (r: seq<byte>)
    ensures |r| == |xs|
  {
    seq(|xs|, i requires 0 <= i < |xs| => xs[i] % 256)
  }

  /** `u8` reinterpreted as `i8`. */
  function AsSignedBytes(bs: seq<byte>): (r: seq<int>)
    ensures |r| == |bs|
  {
    seq(|bs|, i requires 0 <= i < |bs| => if bs[i] >= 128 then bs[i] as int - 256 else bs[i] as int)
  }

  /** Every `i8` sequence survives the trip through bytes. */
  lemma SignedOfUnsigned(xs: seq<int>)
    requires forall i :: 0 <= i < |xs| ==> -128 <= xs[i] < 128
    ensures AsSignedBytes(AsUnsignedBytes(xs)) == xs
  {
  }

  /** Every byte sequence survives the opposite trip, through `i8`s. */
  lemma UnsignedOfSigned(bs: seq<byte>)
    ensures forall i :: 0 <= i < |bs| ==> -128 <= AsSignedBytes(bs)[i] < 128
    ensures AsUnsignedBytes(AsSignedBytes(bs)) == bs
  {
  }

  // ---------------------------------------------------------------------
  // The codecs the list takes from elsewhere

  /** `Mutf8` and `Compound`, whose codecs are not part of this model. */
  datatype Helpers<!C> = Helpers(mutf8: Codec<string, DecodeError, EncodeError>, compound: Codec<C, DecodeError, EncodeError>)

  /** Both helpers' readers move forward through the buffer. */
  ghost predicate ReadsForward<C>(k: Helpers<C>) {
    Forward(k.mutf8) && Forward(k.compound)
  }

  /** Both helpers read back what they wrote. */
  ghost predicate RoundTripping<C(!new)>(k: Helpers<C>) {
    RoundTrips(k.mutf8) && RoundTrips(k.compound)
  }

  // ---------------------------------------------------------------------
  // Encode

  /** `List::encode`: the tag, then the payload. Everything up to and
      including a failing write is emitted, and its error returned. */
  function ListBytes<C>(k: Helpers<C>, l: List<C>): Emitted<EncodeError>
    decreases l, 1
  {
    Emitted([TagId(ElemTag(l))], Pass).Then(Payload(k, l))
  }

  /** What follows the tag. `Invalid` writes `0u32`; every other variant
      its count, then its elements. */
  function Payload<C>(k: Helpers<C>, l: List<C>): Emitted<EncodeError>
    decreases l, 0
  {
    match l
    case Byte(b) => SliceBytes32(AsUnsignedBytes(b.Get()))
    case Short(xs) => Counted32Bytes(NumCodec(I16), xs)
    case Int(xs) => Counted32Bytes(NumCodec(I32), xs)
    case Long(xs) => Counted32Bytes(NumCodec(I64), xs)
    case Float(xs) => Counted32Bytes(NumCodec(F32), xs)
    case Double(xs) => Counted32Bytes(NumCodec(F64), xs)
    case ByteArray(xss) => Counted32Bytes(SliceCodec(), xss)
    case String(ss) => Counted32Bytes(k.mutf8, ss)
    case List(ls) => CountBytes(|ls|).Then(ListsBytes(k, ls))
    case Compound(cs) => Counted32Bytes(k.compound, cs)
    case IntArray(xss) => Counted32Bytes(ArrayCodec(I32), xss)
    case LongArray(xss) => Counted32Bytes(ArrayCodec(I64), xss)
    case Invalid => Emitted(NumBytes(U32, 0), Pass)
  }

  /** `Payload`, case by case. */
  lemma PayloadCases<C>(k: Helpers<C>, l: List<C>)
    ensures l.Byte? ==> Payload(k, l) == SliceBytes32(AsUnsignedBytes(l.bytes.Get()))
    ensures l.Short? ==> Payload(k, l) == Counted32Bytes(NumCodec(I16), l.shorts)
    ensures l.Int? ==> Payload(k, l) == Counted32Bytes(NumCodec(I32), l.ints)
    ensures l.Long? ==> Payload(k, l) == Counted32Bytes(NumCodec(I64), l.longs)
    ensures l.Float? ==> Payload(k, l) == Counted32Bytes(NumCodec(F32), l.floats)
    ensures l.Double? ==> Payload(k, l) == Counted32Bytes(NumCodec(F64), l.doubles)
    ensures l.ByteArray? ==> Payload(k, l) == Counted32Bytes(SliceCodec(), l.bytearrays)
    ensures l.String? ==> Payload(k, l) == Counted32Bytes(k.mutf8, l.strings)
    ensures l.List? ==> Payload(k, l) == CountBytes(|l.lists|).Then(ListsBytes(k, l.lists))
    ensures l.Compound? ==> Payload(k, l) == Counted32Bytes(k.compound, l.compounds)
    ensures l.IntArray? ==> Payload(k, l) == Counted32Bytes(ArrayCodec(I32), l.intarrays)
    ensures l.LongArray? ==> Payload(k, l) == Counted32Bytes(ArrayCodec(I64), l.longarrays)
    ensures l.Invalid? ==> Payload(k, l) == Emitted(NumBytes(U32, 0), Pass)
  {
  }

  /** Nested lists one after the other, each with its own tag. */
  function ListsBytes<C>(k: Helpers<C>, ls: seq<List<C>>): Emitted<EncodeError>
    decreases ls, 2
  {
    if ls == [] then Emitted([], Pass) else ListBytes(k, ls[0]).Then(ListsBytes(k, ls[1..]))
  }

  // ---------------------------------------------------------------------
  // Decode

  /** The bytes left after `pos`. */
  function Remaining(buf: seq<byte>, pos: nat): nat
  {
    if pos <= |buf| then |buf| - pos else 0
  }

  /** `List::decode`: the tag, then the payload it announces. A `Byte` list
      borrows its bytes from the buffer. */
  function ParseList<C>(k: Helpers<C>, buf: seq<byte>, pos: nat): (r: Result<Parsed<List<C>>, DecodeError>)
    requires ReadsForward(k)
    ensures r.Ok? ==> pos < r.value.next <= |buf|
    decreases Remaining(buf, pos), 1, 0
  {
    var t :- ParseTag(buf, pos);
    ParseBody(k, t.value, buf, t.next)
  }

  /** The payload after tag `tag`. A count above 0 after `End` is an error;
      0 or below is `Invalid`. */
  function ParseBody<C>(k: Helpers<C>, tag: NbtTag, buf: seq<byte>, p: nat): (r: Result<Parsed<List<C>>, DecodeError>)
    requires ReadsForward(k)
    ensures r.Ok? ==> p <= r.value.next <= |buf|
    decreases Remaining(buf, p), 0, 1
  {
    match tag
    case End =>
      var n :- ParseNumber(I32, buf, p);
      if n.value > 0 then Err(Custom("TAG_End in List")) else Ok(Parsed(Invalid, n.next))
    case Byte =>
      var s :- ParseSlice32(buf, p);
      Ok(Parsed(List.Byte(Borrowed(AsSignedBytes(s.value))), s.next))
    case Short =>
      NumsForward(I16, buf, p);
      var r :- ParseCounted32(NumCodec(I16), buf, p);
      Ok(Parsed(List.Short(r.value), r.next))
    case Int =>
      NumsForward(I32, buf, p);
      var r :- ParseCounted32(NumCodec(I32), buf, p);
      Ok(Parsed(List.Int(r.value), r.next))
    case Long =>
      NumsForward(I64, buf, p);
      var r :- ParseCounted32(NumCodec(I64), buf, p);
      Ok(Parsed(List.Long(r.value), r.next))
    case Float =>
      NumsForward(F32, buf, p);
      var r :- ParseCounted32(NumCodec(F32), buf, p);
      Ok(Parsed(List.Float(r.value), r.next))
    case Double =>
      NumsForward(F64, buf, p);
      var r :- ParseCounted32(NumCodec(F64), buf, p);
      Ok(Parsed(List.Double(r.value), r.next))
    case ByteArray =>
      SlicesForward(buf, p);
      var r :- ParseCounted32(SliceCodec(), buf, p);
      Ok(Parsed(List.ByteArray(r.value), r.next))
    case String =>
      Counted32Forward(k.mutf8, buf, p);
      var r :- ParseCounted32(k.mutf8, buf, p);
      Ok(Parsed(List.String(r.value), r.next))
    case List => ParseNested(k, buf, p)
    case Compound =>
      Counted32Forward(k.compound, buf, p);
      var r :- ParseCounted32(k.compound, buf, p);
      Ok(Parsed(List.Compound(r.value), r.next))
    case IntArray =>
      ArraysForward(I32, buf, p);
      var r :- ParseCounted32(ArrayCodec(I32), buf, p);
      Ok(Parsed(List.IntArray(r.value), r.next))
    case LongArray =>
      ArraysForward(I64, buf, p);
      var r :- ParseCounted32(ArrayCodec(I64), buf, p);
      Ok(Parsed(List.LongArray(r.value), r.next))
  }

  /** A list of lists: the count, then that many lists. */
  function ParseNested<C>(k: Helpers<C>, buf: seq<byte>, p: nat): (r: Result<Parsed<List<C>>, DecodeError>)
    requires ReadsForward(k)
    ensures r.Ok? ==> p <= r.value.next <= |buf|
    decreases Remaining(buf, p), 0, 0
  {
    var n :- ParseCount(buf, p);
    var r :- ParseLists(k, buf, n.next, n.value);
    Ok(Parsed(List.List(r.value), r.next))
  }

  /** `n` nested lists, one after the other. */
  function ParseLists<C>(k: Helpers<C>, buf: seq<byte>, pos: nat, n: nat): (r: Result<Parsed<seq<List<C>>>, DecodeError>)
    requires ReadsForward(k)
    requires pos <= |buf|
    ensures r.Ok? ==> pos <= r.value.next <= |buf|
    decreases Remaining(buf, pos), 2, n
  {
    if n == 0 then Ok(Parsed([], pos))
    else
      var x :- ParseList(k, buf, pos);
      var rest :- ParseLists(k, buf, x.next, n - 1);
      Ok(Parsed([x.value] + rest.value, rest.next))
  }

  // ---------------------------------------------------------------------
  // Round trip

  /** What decoding gives back for `l`: the same list, with every `Byte`
      list borrowed from the buffer. */
  function Decoded<C>(l: List<C>): List<C>
    decreases l, 0
  {
    match l
    case Byte(b) => List.Byte(Borrowed(b.Get()))
    case List(ls) => List.List(DecodedAll(ls))
    case _ => l
  }

  function DecodedAll<C>(ls: seq<List<C>>): (r: seq<List<C>>)
    ensures |r| == |ls|
    decreases ls, 1
  {
    seq(|ls|, i requires 0 <= i < |ls| => Decoded(ls[i]))
  }

  /** Round trip: a list written successfully decodes, with `Byte` lists
      borrowed, and all of its bytes are consumed. */
  lemma {:induction false} ListRoundTrip<C(!new)>(k: Helpers<C>, l: List<C>, buf: seq<byte>, pos: nat) returns (next: nat)
    requires ReadsForward(k) && RoundTripping(k) && Valid(l)
    requires ListBytes(k, l).outcome.Pass?
    requires HasAt(buf, pos, ListBytes(k, l).bytes)
    ensures next == pos + |ListBytes(k, l).bytes|
    ensures ParseList(k, buf, pos) == Ok(Parsed(Decoded(l), next))
    decreases l, 2
  {
    HasAtSplit(buf, pos, [TagId(ElemTag(l))], Payload(k, l).bytes);
    TagRoundTrip(ElemTag(l), buf, pos);
    next := BodyRoundTrip(k, l, buf, pos + 1);
  }

  /** The payload of a list reads back under the list's own tag. */
  lemma {:induction false} BodyRoundTrip<C(!new)>(k: Helpers<C>, l: List<C>, buf: seq<byte>, p: nat) returns (next: nat)
    requires ReadsForward(k) && RoundTripping(k) && Valid(l)
    requires Payload(k, l).outcome.Pass?
    requires HasAt(buf, p, Payload(k, l).bytes)
    ensures next == p + |Payload(k, l).bytes|
    ensures ParseBody(k, ElemTag(l), buf, p) == Ok(Parsed(Decoded(l), next))
    decreases l, 1
  {
    match l
    case Byte(b) => next := ByteBodyRoundTrip(k, b.Get(), buf, p);
    case Short(xs) => next := ShortBodyRoundTrip(k, xs, buf, p);
    case Int(xs) => next := IntBodyRoundTrip(k, xs, buf, p);
    case Long(xs) => next := LongBodyRoundTrip(k, xs, buf, p);
    case Float(xs) => next := FloatBodyRoundTrip(k, xs, buf, p);
    case Double(xs) => next := DoubleBodyRoundTrip(k, xs, buf, p);
    case ByteArray(xss) => next := ByteArrayBodyRoundTrip(k, xss, buf, p);
    case String(ss) => next := StringBodyRoundTrip(k, ss, buf, p);
    case List(ls) => next := NestedBodyRoundTrip(k, ls, buf, p);
    case Compound(cs) => next := CompoundBodyRoundTrip(k, cs, buf, p);
    case IntArray(xss) => next := IntArrayBodyRoundTrip(k, xss, buf, p);
    case LongArray(xss) => next := LongArrayBodyRoundTrip(k, xss, buf, p);
    case Invalid => next := InvalidBodyRoundTrip(k, buf, p);
  }

  /** A `Byte` list's payload reads back as the same `i8`s, borrowed. */
  lemma ByteBodyRoundTrip<C>(k: Helpers<C>, xs: seq<int>, buf: seq<byte>, p: nat) returns (next: nat)
    requires ReadsForward(k)
    requires forall i :: 0 <= i < |xs| ==> -128 <= xs[i] < 128
    requires SliceBytes32(AsUnsignedBytes(xs)).outcome.Pass?
    requires HasAt(buf, p, SliceBytes32(AsUnsignedBytes(xs)).bytes)
    ensures next == p + |SliceBytes32(AsUnsignedBytes(xs)).bytes|
    ensures ParseBody(k, NbtTag.Byte, buf, p) == Ok(Parsed(List.Byte(Borrowed(xs)), next))
  {
    next := SliceBytesRoundTrip(AsUnsignedBytes(xs), buf, p);
    SignedOfUnsigned(xs);
  }

  /** A `Short` list's payload: the count, then each number. */
  lemma ShortBodyRoundTrip<C>(k: Helpers<C>, xs: seq<int>, buf: seq<byte>, p: nat) returns (next: nat)
    requires ReadsForward(k) && Fits(I16, xs)
    requires Counted32Bytes(NumCodec(I16), xs).outcome.Pass?
    requires HasAt(buf, p, Counted32Bytes(NumCodec(I16), xs).bytes)
    ensures next == p + |Counted32Bytes(NumCodec(I16), xs).bytes|
    ensures ParseBody(k, NbtTag.Short, buf, p) == Ok(Parsed(List.Short(xs), next))
  {
    NumCodecRoundTrip(I16);
    next := Counted32RoundTrip(NumCodec(I16), xs, buf, p);
  }

  /** A `Int` list's payload: the count, then each number. */
  lemma IntBodyRoundTrip<C>(k: Helpers<C>, xs: seq<int>, buf: seq<byte>, p: nat) returns (next: nat)
    requires ReadsForward(k) && Fits(I32, xs)
    requires Counted32Bytes(NumCodec(I32), xs).outcome.Pass?
    requires HasAt(buf, p, Counted32Bytes(NumCodec(I32), xs).bytes)
    ensures next == p + |Counted32Bytes(NumCodec(I32), xs).bytes|
    ensures ParseBody(k, NbtTag.Int, buf, p) == Ok(Parsed(List.Int(xs), next))
  {
    NumCodecRoundTrip(I32);
    next := Counted32RoundTrip(NumCodec(I32), xs, buf, p);
  }

  /** A `Long` list's payload: the count, then each number. */
  lemma LongBodyRoundTrip<C>(k: Helpers<C>, xs: seq<int>, buf: seq<byte>, p: nat) returns (next: nat)
    requires ReadsForward(k) && Fits(I64, xs)
    requires Counted32Bytes(NumCodec(I64), xs).outcome.Pass?
    requires HasAt(buf, p, Counted32Bytes(NumCodec(I64), xs).bytes)
    ensures next == p + |Counted32Bytes(NumCodec(I64), xs).bytes|
    ensures ParseBody(k, NbtTag.Long, buf, p) == Ok(Parsed(List.Long(xs), next))
  {
    NumCodecRoundTrip(I64);
    next := Counted32RoundTrip(NumCodec(I64), xs, buf, p);
  }

  /** A `Float` list's payload: the count, then each number. */
  lemma FloatBodyRoundTrip<C>(k: Helpers<C>, xs: seq<int>, buf: seq<byte>, p: nat) returns (next: nat)
    requires ReadsForward(k) && Fits(F32, xs)
    requires Counted32Bytes(NumCodec(F32), xs).outcome.Pass?
    requires HasAt(buf, p, Counted32Bytes(NumCodec(F32), xs).bytes)
    ensures next == p + |Counted32Bytes(NumCodec(F32), xs).bytes|
    ensures ParseBody(k, NbtTag.Float, buf, p) == Ok(Parsed(List.Float(xs), next))
  {
    NumCodecRoundTrip(F32);
    next := Counted32RoundTrip(NumCodec(F32), xs, buf, p);
  }

  /** A `Double` list's payload: the count, then each number. */
  lemma DoubleBodyRoundTrip<C>(k: Helpers<C>, xs: seq<int>, buf: seq<byte>, p: nat) returns (next: nat)
    requires ReadsForward(k) && Fits(F64, xs)
    requires Counted32Bytes(NumCodec(F64), xs).outcome.Pass?
    requires HasAt(buf, p, Counted32Bytes(NumCodec(F64), xs).bytes)
    ensures next == p + |Counted32Bytes(NumCodec(F64), xs).bytes|
    ensures ParseBody(k, NbtTag.Double, buf, p) == Ok(Parsed(List.Double(xs), next))
  {
    NumCodecRoundTrip(F64);
    next := Counted32RoundTrip(NumCodec(F64), xs, buf, p);
  }

  /** A `ByteArray` list's payload: the count, then each counted slice. */
  lemma ByteArrayBodyRoundTrip<C>(k: Helpers<C>, xss: seq<seq<byte>>, buf: seq<byte>, p: nat) returns (next: nat)
    requires ReadsForward(k)
    requires Counted32Bytes(SliceCodec(), xss).outcome.Pass?
    requires HasAt(buf, p, Counted32Bytes(SliceCodec(), xss).bytes)
    ensures next == p + |Counted32Bytes(SliceCodec(), xss).bytes|
    ensures ParseBody(k, NbtTag.ByteArray, buf, p) == Ok(Parsed(List.ByteArray(xss), next))
  {
    SliceRoundTrip();
    next := Counted32RoundTrip(SliceCodec(), xss, buf, p);
  }

  /** A `String` list's payload: the count, then each Modified UTF-8 string. */
  lemma StringBodyRoundTrip<C>(k: Helpers<C>, ss: seq<string>, buf: seq<byte>, p: nat) returns (next: nat)
    requires ReadsForward(k) && RoundTrips(k.mutf8)
    requires Counted32Bytes(k.mutf8, ss).outcome.Pass?
    requires HasAt(buf, p, Counted32Bytes(k.mutf8, ss).bytes)
    ensures next == p + |Counted32Bytes(k.mutf8, ss).bytes|
    ensures ParseBody(k, NbtTag.String, buf, p) == Ok(Parsed(List.String(ss), next))
  {
    next := Counted32RoundTrip(k.mutf8, ss, buf, p);
  }

  /** A `Compound` list's payload: the count, then each compound. */
  lemma CompoundBodyRoundTrip<C(!new)>(k: Helpers<C>, cs: seq<C>, buf: seq<byte>, p: nat) returns (next: nat)
    requires ReadsForward(k) && RoundTrips(k.compound)
    requires Counted32Bytes(k.compound, cs).outcome.Pass?
    requires HasAt(buf, p, Counted32Bytes(k.compound, cs).bytes)
    ensures next == p + |Counted32Bytes(k.compound, cs).bytes|
    ensures ParseBody(k, NbtTag.Compound, buf, p) == Ok(Parsed(List.Compound(cs), next))
  {
    next := Counted32RoundTrip(k.compound, cs, buf, p);
  }

  /** An `IntArray` list's payload: the count, then each counted array. */
  lemma IntArrayBodyRoundTrip<C>(k: Helpers<C>, xss: seq<seq<int>>, buf: seq<byte>, p: nat) returns (next: nat)
    requires ReadsForward(k)
    requires forall i :: 0 <= i < |xss| ==> Fits(I32, xss[i])
    requires Counted32Bytes(ArrayCodec(I32), xss).outcome.Pass?
    requires HasAt(buf, p, Counted32Bytes(ArrayCodec(I32), xss).bytes)
    ensures next == p + |Counted32Bytes(ArrayCodec(I32), xss).bytes|
    ensures ParseBody(k, NbtTag.IntArray, buf, p) == Ok(Parsed(List.IntArray(xss), next))
  {
    next := ArraysRoundTrip(I32, xss, buf, p);
  }

  /** An `LongArray` list's payload: the count, then each counted array. */
  lemma LongArrayBodyRoundTrip<C>(k: Helpers<C>, xss: seq<seq<int>>, buf: seq<byte>, p: nat) returns (next: nat)
    requires ReadsForward(k)
    requires forall i :: 0 <= i < |xss| ==> Fits(I64, xss[i])
    requires Counted32Bytes(ArrayCodec(I64), xss).outcome.Pass?
    requires HasAt(buf, p, Counted32Bytes(ArrayCodec(I64), xss).bytes)
    ensures next == p + |Counted32Bytes(ArrayCodec(I64), xss).bytes|
    ensures ParseBody(k, NbtTag.LongArray, buf, p) == Ok(Parsed(List.LongArray(xss), next))
  {
    next := ArraysRoundTrip(I64, xss, buf, p);
  }

  /** `Invalid`'s payload, `0u32`, reads back as a count of 0 after `End`. */
  lemma InvalidBodyRoundTrip<C>(k: Helpers<C>, buf: seq<byte>, p: nat) returns (next: nat)
    requires ReadsForward(k)
    requires Payload(k, List.Invalid).outcome.Pass?
    requires HasAt(buf, p, Payload(k, List.Invalid).bytes)
    ensures next == p + |Payload(k, List.Invalid).bytes|
    ensures ParseBody(k, NbtTag.End, buf, p) == Ok(Parsed(Invalid, next))
  {
    assert NumBytes(U32, 0) == NumBytes(I32, 0);
    NumRoundTrip(I32, 0, buf, p);
    next := p + 4;
  }

  /** The payload of a list of lists: the count, then each nested list. */
  lemma {:induction false} NestedBodyRoundTrip<C(!new)>(k: Helpers<C>, ls: seq<List<C>>, buf: seq<byte>, p: nat) returns (next: nat)
    requires ReadsForward(k) && RoundTripping(k)
    requires forall i :: 0 <= i < |ls| ==> Valid(ls[i])
    requires CountBytes(|ls|).Then(ListsBytes(k, ls)).outcome.Pass?
    requires HasAt(buf, p, CountBytes(|ls|).Then(ListsBytes(k, ls)).bytes)
    ensures next == p + |CountBytes(|ls|).Then(ListsBytes(k, ls)).bytes|
    ensures ParseBody(k, NbtTag.List, buf, p) == Ok(Parsed(List.List(DecodedAll(ls)), next))
    decreases ls, 3
  {
    HasAtSplit(buf, p, CountBytes(|ls|).bytes, ListsBytes(k, ls).bytes);
    CountRoundTrip(|ls|, buf, p);
    next := ListsRoundTrip(k, ls, buf, p + 4);
    NestedAfterCount(k, buf, p, |ls|, DecodedAll(ls), next);
  }

  /** Once the count `n` is read, a list of lists is the `n` lists that
      follow it. */
  lemma NestedAfterCount<C>(k: Helpers<C>, buf: seq<byte>, p: nat, n: nat, ls: seq<List<C>>, next: nat)
    requires ReadsForward(k)
    requires ParseCount(buf, p) == Ok(Parsed(n, p + 4))
    requires p + 4 <= |buf|
    requires ParseLists(k, buf, p + 4, n) == Ok(Parsed(ls, next))
    ensures ParseBody(k, NbtTag.List, buf, p) == Ok(Parsed(List.List(ls), next))
  {
  }

  /** Nested lists written one after the other read back in order. */
  lemma {:induction false} ListsRoundTrip<C(!new)>(k: Helpers<C>, ls: seq<List<C>>, buf: seq<byte>, pos: nat) returns (next: nat)
    requires ReadsForward(k) && RoundTripping(k)
    requires forall i :: 0 <= i < |ls| ==> Valid(ls[i])
    requires ListsBytes(k, ls).outcome.Pass?
    requires HasAt(buf, pos, ListsBytes(k, ls).bytes)
    ensures next == pos + |ListsBytes(k, ls).bytes|
    ensures pos <= |buf|
    ensures ParseLists(k, buf, pos, |ls|) == Ok(Parsed(DecodedAll(ls), next))
    decreases ls, 2
  {
    if ls == [] {
      next := pos;
    } else {
      var first := ListBytes(k, ls[0]);
      HasAtSplit(buf, pos, first.bytes, ListsBytes(k, ls[1..]).bytes);
      var mid := ListRoundTrip(k, ls[0], buf, pos);
      next := ListsRoundTrip(k, ls[1..], buf, mid);
      DecodedAllCons(ls);
    }
  }

  lemma DecodedAllCons<C>(ls: seq<List<C>>)
    requires ls != []
    ensures DecodedAll(ls) == [Decoded(ls[0])] + DecodedAll(ls[1..])
  {
    assert DecodedAll(ls)[1..] == DecodedAll(ls[1..]);
  }

  // ---------------------------------------------------------------------
  // Framing

  /** `0u32` is four zero bytes. */
  lemma ZeroCount()
    ensures NumBytes(U32, 0) == [0, 0, 0, 0]
    ensures NumBytes(I32, 0) == [0, 0, 0, 0]
  {
    assert U32.AsUnsigned(0) == 0 && I32.AsUnsigned(0) == 0;
  }

  /** `Invalid` is written as `End` and a count of 0. */
  lemma InvalidEncoding<C>(k: Helpers<C>)
    ensures ListBytes(k, Invalid) == Emitted([0, 0, 0, 0, 0], Pass)
  {
    ZeroCount();
  }

  /** Every variant but `Invalid` writes its payload as the count of its
      elements, then the elements. */
  lemma PayloadIsCounted<C>(k: Helpers<C>, l: List<C>) returns (items: Emitted<EncodeError>)
    requires !l.Invalid?
    ensures Payload(k, l) == CountBytes(Len(l)).Then(items)
    // bytes: one byte each, the `i8`'s two's complement
    ensures l.Byte? ==> && items.outcome.Pass? && |items.bytes| == |l.bytes.Get()|
                        && forall i :: 0 <= i < |l.bytes.Get()| ==> items.bytes[i] == l.bytes.Get()[i] % 256
    // fixed-width numbers: `size_of` big-endian bytes each, back to back
    ensures l.Short? ==> items.outcome.Pass? && LaidOut(I16, l.shorts, items.bytes)
    ensures l.Int? ==> items.outcome.Pass? && LaidOut(I32, l.ints, items.bytes)
    ensures l.Long? ==> items.outcome.Pass? && LaidOut(I64, l.longs, items.bytes)
    ensures l.Float? ==> items.outcome.Pass? && LaidOut(F32, l.floats, items.bytes)
    ensures l.Double? ==> items.outcome.Pass? && LaidOut(F64, l.doubles, items.bytes)
    // the rest: each element's own encoding in turn, up to the first failure
    ensures l.ByteArray? ==> items == EmitAll(SliceCodec(), l.bytearrays)
    ensures l.String? ==> items == EmitAll(k.mutf8, l.strings)
    ensures l.List? ==> items == ListsBytes(k, l.lists)
    ensures l.Compound? ==> items == EmitAll(k.compound, l.compounds)
    ensures l.IntArray? ==> items == EmitAll(ArrayCodec(I32), l.intarrays)
    ensures l.LongArray? ==> items == EmitAll(ArrayCodec(I64), l.longarrays)
  {
    PayloadCases(k, l);
    match l
    case Byte(b) => items := Emitted(AsUnsignedBytes(b.Get()), Pass);
    case Short(xs) => items := EmitAll(NumCodec(I16), xs); NumsLayout(I16, xs);
    case Int(xs) => items := EmitAll(NumCodec(I32), xs); NumsLayout(I32, xs);
    case Long(xs) => items := EmitAll(NumCodec(I64), xs); NumsLayout(I64, xs);
    case Float(xs) => items := EmitAll(NumCodec(F32), xs); NumsLayout(F32, xs);
    case Double(xs) => items := EmitAll(NumCodec(F64), xs); NumsLayout(F64, xs);
    case ByteArray(xss) => items := EmitAll(SliceCodec(), xss);
    case String(ss) => items := EmitAll(k.mutf8, ss);
    case List(ls) => items := ListsBytes(k, ls);
    case Compound(cs) => items := EmitAll(k.compound, cs);
    case IntArray(xss) => items := EmitAll(ArrayCodec(I32), xss);
    case LongArray(xss) => items := EmitAll(ArrayCodec(I64), xss);
  }

  /** The frame of every list: the tag comes first, once; the count of
      elements follows it as an `i32`; and a count of 2^31 or more fails
      `i32::try_from` right after the tag, with nothing else written. */
  lemma ListFraming<C>(k: Helpers<C>, l: List<C>)
    ensures |ListBytes(k, l).bytes| >= 1 && ListBytes(k, l).bytes[0] == TagId(ElemTag(l))
    ensures Len(l) >= 0x8000_0000 ==> ListBytes(k, l) == Emitted([TagId(ElemTag(l))], Fail(EncodeError.TryFromInt))
    ensures Len(l) < 0x8000_0000 ==>
              |ListBytes(k, l).bytes| >= 5 && ParseCount(ListBytes(k, l).bytes, 1) == Ok(Parsed(Len(l), 5))
  {
    if l.Invalid? {
      InvalidFrame(k);
    } else {
      var items := PayloadIsCounted(k, l);
      CountedFrame(TagId(ElemTag(l)), Len(l), items);
    }
  }

  lemma InvalidFrame<C>(k: Helpers<C>)
    ensures ListBytes(k, Invalid).bytes == [0, 0, 0, 0, 0]
    ensures ParseCount([0, 0, 0, 0, 0], 1) == Ok(Parsed(0, 5))
  {
    InvalidEncoding(k);
    var e := Emitted([0], Pass).Then(CountBytes(0).Then(Emitted([], Pass)));
    CountedFrame(0, 0, Emitted([], Pass));
    assert CountBytes(0).bytes == [0, 0, 0, 0] by {
      Pow2Small();
      ZeroCount();
    }
    assert e.bytes == [0, 0, 0, 0, 0];
  }

  /** The frame of one tag byte, a count and the items, on its own. */
  lemma CountedFrame(tag: byte, n: nat, items: Emitted<EncodeError>)
    ensures var e := Emitted([tag], Pass).Then(CountBytes(n).Then(items));
            |e.bytes| >= 1 && e.bytes[0] == tag
            && (n >= 0x8000_0000 ==> e == Emitted([tag], Fail(EncodeError.TryFromInt)))
            && (n < 0x8000_0000 ==> |e.bytes| >= 5 && e.bytes[1..5] == CountBytes(n).bytes
                                    && ParseCount(e.bytes, 1) == Ok(Parsed(n, 5)))
  {
    var e := Emitted([tag], Pass).Then(CountBytes(n).Then(items));
    CountLimits(n, e.bytes, 1);
    if n < 0x8000_0000 {
      var c := CountBytes(n);
      assert e.bytes == [tag] + (c.bytes + items.bytes);
      CountRoundTrip(n, e.bytes, 1);
    }
  }

  /** A list is read by its tag: no byte at all is `Io`, a byte above 12
      is `UnknownTag`. */
  lemma TagRule<C>(k: Helpers<C>, buf: seq<byte>, pos: nat)
    requires ReadsForward(k)
    ensures |buf| <= pos ==> ParseList(k, buf, pos) == Err(Io)
    ensures pos < |buf| && buf[pos] > 12 ==> ParseList(k, buf, pos) == Err(UnknownTag(buf[pos]))
  {
    if pos < |buf| {
      TagOfInverts(End, buf[pos]);
    }
  }

  /** After the tag `End`, an `i32` count above 0 is the error
      "TAG_End in List"; 0 or below, negative included, is `Invalid`. */
  lemma EndTagRule<C>(k: Helpers<C>, buf: seq<byte>, pos: nat)
    requires ReadsForward(k)
    requires pos < |buf| && buf[pos] == 0
    ensures ParseNumber(I32, buf, pos + 1).Err? ==> ParseList(k, buf, pos) == Err(Io)
    ensures ParseNumber(I32, buf, pos + 1).Ok? && ParseNumber(I32, buf, pos + 1).value.value > 0 ==>
              ParseList(k, buf, pos) == Err(Custom("TAG_End in List"))
    ensures ParseNumber(I32, buf, pos + 1).Ok? && ParseNumber(I32, buf, pos + 1).value.value <= 0 ==>
              ParseList(k, buf, pos) == Ok(Parsed(Invalid, pos + 5))
  {
    TagOfInverts(End, 0);
  }

  /** Under every other tag a negative count is refused with `TryFromInt`
      before any element is read. */
  lemma NegativeCount<C>(k: Helpers<C>, tag: NbtTag, buf: seq<byte>, p: nat)
    requires ReadsForward(k) && tag != End
    requires ParseNumber(I32, buf, p).Ok? && ParseNumber(I32, buf, p).value.value < 0
    ensures ParseBody(k, tag, buf, p) == Err(DecodeError.TryFromInt)
  {
    assert ParseCount(buf, p) == Err(DecodeError.TryFromInt);
  }

  /** Under tag `String` the count is followed by exactly that many `Mutf8`
      strings, read in order; the first that fails is the list's error. */
  lemma StringListReads<C>(k: Helpers<C>, buf: seq<byte>, p: nat, n: nat)
    requires ReadsForward(k)
    requires ParseCount(buf, p) == Ok(Parsed(n, p + 4))
    ensures ParseMany(k.mutf8, buf, p + 4, n).Ok? ==>
              ParseBody(k, NbtTag.String, buf, p)
                == Ok(Parsed(List.String(ParseMany(k.mutf8, buf, p + 4, n).value.value), ParseMany(k.mutf8, buf, p + 4, n).value.next))
    ensures ParseMany(k.mutf8, buf, p + 4, n).Err? ==>
              ParseBody(k, NbtTag.String, buf, p) == Err(ParseMany(k.mutf8, buf, p + 4, n).error)
  {
  }

  /** The `i8`s -1, 0, 1 are written as tag 1, count 3 and the bytes
      0xFF, 0, 1. */
  lemma ByteListBytes<C>(k: Helpers<C>)
    ensures ListBytes(k, List.Byte(Owned([-1, 0, 1]))) == Emitted([1, 0, 0, 0, 3, 0xFF, 0, 1], Pass)
  {
    ByteListIsSlice(k, Owned([-1, 0, 1]));
    SignedBytesExample();
    ThreeBytesFramed();
  }

  /** -1 is the byte 0xFF, and back. */
  lemma SignedBytesExample()
    ensures AsUnsignedBytes([-1, 0, 1]) == [0xFF, 0, 1]
    ensures AsSignedBytes([0xFF, 0, 1]) == [-1, 0, 1]
  {
  }

  lemma ThreeBytesFramed()
    ensures Emitted([1], Pass).Then(SliceBytes32([0xFF, 0, 1])) == Emitted([1, 0, 0, 0, 3, 0xFF, 0, 1], Pass)
  {
    SmallCount(3);
    assert [1] + ([0, 0, 0, 3] + [0xFF, 0, 1]) == [1, 0, 0, 0, 3, 0xFF, 0, 1];
  }

  /** A count below 256 is three zero bytes and itself. */
  lemma SmallCount(n: nat)
    requires n < 256
    ensures CountBytes(n) == Emitted([0, 0, 0, n], Pass)
  {
    Pow2Small();
    assert I32.AsUnsigned(n) == n by {
      assert I32.Bits() == 32;
      ModOfSmall(n, Pow2(32));
    }
    assert BeBytes(3, 0) == [0, 0, 0] by {
      assert BeBytes(1, 0) == [0];
      assert BeBytes(2, 0) == [0, 0];
    }
    assert BeBytes(4, n) == BeBytes(3, 0) + [n];
  }

  lemma ByteListIsSlice<C>(k: Helpers<C>, b: Cow<seq<int>>)
    ensures ListBytes(k, List.Byte(b)) == Emitted([TagId(NbtTag.Byte)], Pass).Then(SliceBytes32(AsUnsignedBytes(b.Get())))
  {
    PayloadCases(k, List.Byte(b));
  }

  /** Those eight bytes read back as the same `i8`s, borrowed. */
  lemma ByteListParses<C>(k: Helpers<C>)
    requires ReadsForward(k)
    ensures ParseList(k, [1, 0, 0, 0, 3, 0xFF, 0, 1], 0) == Ok(Parsed(List.Byte(Borrowed([-1, 0, 1])), 8))
  {
    var xs := [-1, 0, 1];
    var buf: seq<byte> := [1, 0, 0, 0, 3, 0xFF, 0, 1];
    ByteListBytes(k);
    assert buf[0..1] == [TagId(NbtTag.Byte)];
    TagRoundTrip(NbtTag.Byte, buf, 0);
    assert buf[1..8] == SliceBytes32(AsUnsignedBytes(xs)).bytes;
    var next := ByteBodyRoundTrip(k, xs, buf, 1);
  }

  // ---------------------------------------------------------------------
  // to_static

  /** `to_static`: every borrowed `Byte` list, down through nested lists,
      becomes owned; everything else is already owned. */
  function ToStatic<C>(l: List<C>): List<C>
    decreases l, 0
  {
    match l
    case Byte(b) => List.Byte(Owned(b.Get()))
    case List(ls) => List.List(ToStaticAll(ls))
    case _ => l
  }

  function ToStaticAll<C>(ls: seq<List<C>>): (r: seq<List<C>>)
    ensures |r| == |ls|
    decreases ls, 1
  {
    seq(|ls|, i requires 0 <= i < |ls| => ToStatic(ls[i]))
  }

  /** No list inside borrows from a buffer. */
  predicate IsStatic<C>(l: List<C>)
    decreases l
  {
    match l
    case Byte(b) => b.Owned?
    case List(ls) => forall i :: 0 <= i < |ls| ==> IsStatic(ls[i])
    case _ => true
  }

  /** `to_static` gives a list that borrows nothing, and leaves such a list
      as it is. */
  lemma {:induction false} ToStaticIsStatic<C>(l: List<C>)
    ensures IsStatic(ToStatic(l))
    ensures IsStatic(l) ==> ToStatic(l) == l
    decreases l
  {
    match l
    case List(ls) =>
      forall i | 0 <= i < |ls|
        ensures IsStatic(ToStatic(ls[i])) && (IsStatic(ls[i]) ==> ToStatic(ls[i]) == ls[i])
      {
        ToStaticIsStatic(ls[i]);
      }
      if IsStatic(l) {
        assert ToStaticAll(ls) == ls;
      }
    case _ =>
  }

  /** `to_static` changes no element: the list keeps its tag, its length,
      its validity and its encoding. */
  lemma {:induction false} ToStaticKeeps<C>(k: Helpers<C>, l: List<C>)
    ensures ElemTag(ToStatic(l)) == ElemTag(l) && Len(ToStatic(l)) == Len(l)
    ensures Valid(ToStatic(l)) == Valid(l)
    ensures ListBytes(k, ToStatic(l)) == ListBytes(k, l)
    decreases l, 1
  {
    match l
    case List(ls) =>
      var ts := ToStaticAll(ls);
      forall i | 0 <= i < |ls|
        ensures Valid(ts[i]) == Valid(ls[i])
      {
        ToStaticKeeps(k, ls[i]);
      }
      assert Valid(ToStatic(l)) == (forall i :: 0 <= i < |ts| ==> Valid(ts[i]));
      ToStaticAllKeeps(k, ls);
    case _ =>
  }

  lemma {:induction false} ToStaticAllKeeps<C>(k: Helpers<C>, ls: seq<List<C>>)
    ensures ListsBytes(k, ToStaticAll(ls)) == ListsBytes(k, ls)
    decreases ls, 0
  {
    if ls != [] {
      ToStaticKeeps(k, ls[0]);
      assert ToStaticAll(ls)[1..] == ToStaticAll(ls[1..]);
      ToStaticAllKeeps(k, ls[1..]);
    }
  }

  /** Decoding and `to_static` change at most who owns the bytes: a
      decoded list, made static, is the list that was written, made static,
      and a list made static holds the same contents as before. */
  lemma {:induction false} ToStaticOfDecoded<C>(l: List<C>)
    ensures ToStatic(Decoded(l)) == ToStatic(l)
    ensures Decoded(ToStatic(l)) == Decoded(l)
    decreases l
  {
    match l
    case List(ls) =>
      forall i | 0 <= i < |ls|
        ensures ToStatic(Decoded(ls[i])) == ToStatic(ls[i])
        ensures Decoded(ToStatic(ls[i])) == Decoded(ls[i])
      {
        ToStaticOfDecoded(ls[i]);
      }
      assert ToStaticAll(DecodedAll(ls)) == ToStaticAll(ls);
      assert DecodedAll(ToStaticAll(ls)) == DecodedAll(ls);
    case _ =>
  }

  // ---------------------------------------------------------------------
  // Writing and reading

  /** `List::encode` on a writer. */
  method EncodeList<C>(k: Helpers<C>, l: List<C>, w: Writer) returns (o: Outcome<EncodeError>)
    modifies w
    ensures o == ListBytes(k, l).outcome
    ensures w.data == old(w.data) + ListBytes(k, l).bytes
    decreases l, 1
  {
    w.WriteAll([TagId(ElemTag(l))]);
    o := EncodePayload(k, l, w);
  }

  method EncodePayload<C>(k: Helpers<C>, l: List<C>, w: Writer) returns (o: Outcome<EncodeError>)
    modifies w
    ensures o == Payload(k, l).outcome
    ensures w.data == old(w.data) + Payload(k, l).bytes
    decreases l, 0
  {
    PayloadCases(k, l);
    match l
    case Byte(b) => o := WriteSlice32(AsUnsignedBytes(b.Get()), w);
    case Short(xs) => o := WriteCounted32(NumCodec(I16), xs, w);
    case Int(xs) => o := WriteCounted32(NumCodec(I32), xs, w);
    case Long(xs) => o := WriteCounted32(NumCodec(I64), xs, w);
    case Float(xs) => o := WriteCounted32(NumCodec(F32), xs, w);
    case Double(xs) => o := WriteCounted32(NumCodec(F64), xs, w);
    case ByteArray(xss) => o := WriteCounted32(SliceCodec(), xss, w);
    case String(ss) => o := WriteCounted32(k.mutf8, ss, w);
    case List(ls) => o := EncodeNested(k, ls, w);
    case Compound(cs) => o := WriteCounted32(k.compound, cs, w);
    case IntArray(xss) => o := WriteCounted32(ArrayCodec(I32), xss, w);
    case LongArray(xss) => o := WriteCounted32(ArrayCodec(I64), xss, w);
    case Invalid =>
      WriteNum(U32, 0, w);
      o := Pass;
  }

  /** Writes the count of nested lists, then the lists. */
  method EncodeNested<C>(k: Helpers<C>, ls: seq<List<C>>, w: Writer) returns (o: Outcome<EncodeError>)
    modifies w
    ensures o == CountBytes(|ls|).Then(ListsBytes(k, ls)).outcome
    ensures w.data == old(w.data) + CountBytes(|ls|).Then(ListsBytes(k, ls)).bytes
    decreases ls, 3
  {
    o := WriteCount(|ls|, w);
    if o.Pass? {
      o := EncodeLists(k, ls, w);
    }
  }

  /** Writes nested lists one after the other, stopping at the first
      failure. */
  method EncodeLists<C>(k: Helpers<C>, ls: seq<List<C>>, w: Writer) returns (o: Outcome<EncodeError>)
    modifies w
    ensures o == ListsBytes(k, ls).outcome
    ensures w.data == old(w.data) + ListsBytes(k, ls).bytes
    decreases ls, 2
  {
    if ls == [] {
      return Pass;
    }
    o := EncodeList(k, ls[0], w);
    if o.Fail? {
      return;
    }
    o := EncodeLists(k, ls[1..], w);
  }

  /** `List::decode` on a cursor. */
  method DecodeList<C>(k: Helpers<C>, c: Cursor) returns (r: Result<List<C>, DecodeError>)
    requires ReadsForward(k)
    modifies c
    ensures r == ValueOf(ParseList(k, c.buf, old(c.pos)))
    ensures r.Ok? ==> c.pos == ParseList(k, c.buf, old(c.pos)).value.next
    decreases Remaining(c.buf, c.pos), 1, 0
  {
    var t := ReadTag(c);
    if t.Err? {
      return Err(t.error);
    }
    r := DecodeBody(k, t.value, c);
  }

  method DecodeBody<C>(k: Helpers<C>, tag: NbtTag, c: Cursor) returns (r: Result<List<C>, DecodeError>)
    requires ReadsForward(k)
    modifies c
    ensures r == ValueOf(ParseBody(k, tag, c.buf, old(c.pos)))
    ensures r.Ok? ==> c.pos == ParseBody(k, tag, c.buf, old(c.pos)).value.next
    decreases Remaining(c.buf, c.pos), 0, 1
  {
    match tag
    case End =>
      var n := ReadNumber(I32, c);
      if n.Err? {
        return Err(n.error);
      }
      if n.value > 0 {
        return Err(Custom("TAG_End in List"));
      }
      r := Ok(Invalid);
    case Byte =>
      var s := ReadSlice32(c);
      if s.Err? {
        return Err(s.error);
      }
      r := Ok(List.Byte(Borrowed(AsSignedBytes(s.value))));
    case Short =>
      var xs := ReadCounted32(NumCodec(I16), c);
      r := if xs.Ok? then Ok(List.Short(xs.value)) else Err(xs.error);
    case Int =>
      var xs := ReadCounted32(NumCodec(I32), c);
      r := if xs.Ok? then Ok(List.Int(xs.value)) else Err(xs.error);
    case Long =>
      var xs := ReadCounted32(NumCodec(I64), c);
      r := if xs.Ok? then Ok(List.Long(xs.value)) else Err(xs.error);
    case Float =>
      var xs := ReadCounted32(NumCodec(F32), c);
      r := if xs.Ok? then Ok(List.Float(xs.value)) else Err(xs.error);
    case Double =>
      var xs := ReadCounted32(NumCodec(F64), c);
      r := if xs.Ok? then Ok(List.Double(xs.value)) else Err(xs.error);
    case ByteArray =>
      var xss := ReadCounted32(SliceCodec(), c);
      r := if xss.Ok? then Ok(List.ByteArray(xss.value)) else Err(xss.error);
    case String =>
      var ss := ReadCounted32(k.mutf8, c);
      r := if ss.Ok? then Ok(List.String(ss.value)) else Err(ss.error);
    case List => r := DecodeNested(k, c);
    case Compound =>
      var cs := ReadCounted32(k.compound, c);
      r := if cs.Ok? then Ok(List.Compound(cs.value)) else Err(cs.error);
    case IntArray =>
      var xss := ReadCounted32(ArrayCodec(I32), c);
      r := if xss.Ok? then Ok(List.IntArray(xss.value)) else Err(xss.error);
    case LongArray =>
      var xss := ReadCounted32(ArrayCodec(I64), c);
      r := if xss.Ok? then Ok(List.LongArray(xss.value)) else Err(xss.error);
  }

  method DecodeNested<C>(k: Helpers<C>, c: Cursor) returns (r: Result<List<C>, DecodeError>)
    requires ReadsForward(k)
    modifies c
    ensures r == ValueOf(ParseNested(k, c.buf, old(c.pos)))
    ensures r.Ok? ==> c.pos == ParseNested(k, c.buf, old(c.pos)).value.next
    decreases Remaining(c.buf, c.pos), 0, 0
  {
    var n := ReadCount(c);
    if n.Err? {
      return Err(n.error);
    }
    var ls := DecodeLists(k, c, n.value);
    r := if ls.Ok? then Ok(List.List(ls.value)) else Err(ls.error);
  }

  /** Reads `n` nested lists, stopping at the first error. */
  method DecodeLists<C>(k: Helpers<C>, c: Cursor, n: nat) returns (r: Result<seq<List<C>>, DecodeError>)
    requires ReadsForward(k) && c.pos <= |c.buf|
    modifies c
    ensures r == ValueOf(ParseLists(k, c.buf, old(c.pos), n))
    ensures r.Ok? ==> c.pos == ParseLists(k, c.buf, old(c.pos), n).value.next
    decreases Remaining(c.buf, c.pos), 2, n
  {
    if n == 0 {
      return Ok([]);
    }
    var x := DecodeList(k, c);
    if x.Err? {
      return Err(x.error);
    }
    var rest := DecodeLists(k, c, n - 1);
    r := if rest.Ok? then Ok([x.value] + rest.value) else Err(rest.error);
  }
}
