/** Counted sequences: `Vec<T>`, whose count is a `Var<u32>`, and
    `CountType<Vec<T>, C>`, whose count is a fixed-width number `C`. The
    element type is any type with a reader and a writer. */
module NettySeq {
  import opened Wire
  import opened NettyNum
  import opened Elements

  // ---------------------------------------------------------------------
  // Vec<T>

  /** `Vec<T>::write`: `len as u32` as a `Var<u32>` (a length of 2^32 or
      more wraps), then the elements. */
  function VecBytes<T>(c: Codec<T, ReadError, WriteError>, xs: seq<T>): Emitted<WriteError>
  {
    Emitted(VarBytes(U32.AsUnsigned(|xs|)), Pass).Then(EmitAll(c, xs))
  }

  /** `Vec<T>::read`: a `Var<u32>` count, then that many elements. */
  function ParseVec<T>(c: Codec<T, ReadError, WriteError>, buf: seq<byte>, pos: nat): Result<Parsed<seq<T>>, ReadError>
  {
    var l :- ParseVar(U32, buf, pos);
    ParseVarBounds(U32, buf, pos);
    ParseMany(c, buf, l.next, l.value)
  }

  /** Below 2^32 elements the count is written as it is: the encoding is
      `Var<u32>` of the length, then the elements, with their outcome. */
  lemma VecBytesFit<T>(c: Codec<T, ReadError, WriteError>, xs: seq<T>)
    requires |xs| < Pow2(32)
    ensures U32.Contains(|xs|) && U32.AsUnsigned(|xs|) == |xs|
    ensures VecBytes(c, xs) == Emitted(VarBytes(|xs|) + EmitAll(c, xs).bytes, EmitAll(c, xs).outcome)
  {
    ModOfSmall(|xs|, Pow2(32));
  }

  /** Round trip, for fewer than 2^32 elements whose writes all succeed:
      the vector written as `VecBytesFit` spells it out reads back, and its
      encoding is consumed. */
  lemma VecRoundTrip<T>(c: Codec<T, ReadError, WriteError>, xs: seq<T>, buf: seq<byte>, pos: nat) returns (next: nat)
    requires |xs| < Pow2(32)
    requires AllRoundTrip(c, xs)
    requires EmitAll(c, xs).outcome.Pass?
    requires HasAt(buf, pos, VarBytes(|xs|) + EmitAll(c, xs).bytes)
    ensures next == pos + |VarBytes(|xs|)| + |EmitAll(c, xs).bytes|
    ensures ParseVec(c, buf, pos) == Ok(Parsed(xs, next))
  {
    HasAtSplit(buf, pos, VarBytes(|xs|), EmitAll(c, xs).bytes);
    ModOfSmall(|xs|, Pow2(32));
    var p := VarSameRoundTrip(U32, |xs|, buf, pos);
    VecAfterCount(c, buf, pos, |xs|, p);
    next := ManyRoundTrip(c, xs, buf, p);
  }

  /** Once the count `n` is read and the cursor stands at `p`, the vector
      read is the read of `n` elements from `p`. */
  lemma VecAfterCount<T>(c: Codec<T, ReadError, WriteError>, buf: seq<byte>, pos: nat, n: nat, p: nat)
    requires ParseVar(U32, buf, pos) == Ok(Parsed(n, p))
    ensures ParseVec(c, buf, pos) == ParseMany(c, buf, p, n)
  {
  }

  /** A failing element after `k` good ones, with the count asking for more,
      is the result of the whole read: no partial vector is returned. */
  lemma VecFirstError<T>(c: Codec<T, ReadError, WriteError>, buf: seq<byte>, pos: nat, n: nat, q: nat, k: nat, items: seq<T>, p: nat, e: ReadError)
    requires ParseVar(U32, buf, pos) == Ok(Parsed(n, q))
    requires ParseMany(c, buf, q, k) == Ok(Parsed(items, p))
    requires c.parse(buf, p) == Err(e) && k < n
    ensures ParseVec(c, buf, pos) == Err(e)
  {
    VecAfterCount(c, buf, pos, n, q);
    ManyStopsAtError(c, buf, q, k, items, p, e, n);
  }

  /** A failing element write ends the vector's write with its error, after
      the count and the bytes written so far. */
  lemma VecWriteError<T>(c: Codec<T, ReadError, WriteError>, xs: seq<T>, k: nat)
    requires k < |xs| && EmitAll(c, xs[..k]).outcome.Pass? && c.emit(xs[k]).outcome.Fail?
    ensures VecBytes(c, xs).outcome == c.emit(xs[k]).outcome
    ensures VecBytes(c, xs).bytes == VarBytes(U32.AsUnsigned(|xs|)) + EmitAll(c, xs[..k]).bytes + c.emit(xs[k]).bytes
  {
    assert xs == xs[..k] + ([xs[k]] + xs[k + 1..]);
    EmitConcat(c, xs[..k], [xs[k]] + xs[k + 1..]);
  }

  method WriteVec<T>(codec: Codec<T, ReadError, WriteError>, xs: seq<T>, w: Writer) returns (o: Outcome<WriteError>)
    modifies w
    ensures o == VecBytes(codec, xs).outcome
    ensures w.data == old(w.data) + VecBytes(codec, xs).bytes
  {
    var n := U32.AsUnsigned(|xs|);
    CastRoundTrip(U32, 0, n);
    WriteVar(U32, n, w);
    o := WriteItems(codec, xs, w);
  }

  method ReadVec<T>(codec: Codec<T, ReadError, WriteError>, c: Cursor) returns (r: Result<seq<T>, ReadError>)
    modifies c
    ensures r == ValueOf(ParseVec(codec, c.buf, old(c.pos)))
    ensures r.Ok? ==> c.pos == ParseVec(codec, c.buf, old(c.pos)).value.next
  {
    ParseVarBounds(U32, c.buf, c.pos);
    var len := ReadVar(U32, c);
    if len.Err? {
      return Err(len.error);
    }
    r := ReadMany(codec, c, len.value);
  }

  // ---------------------------------------------------------------------
  // CountType<Vec<T>, C>

  /** The fixed-width numbers that are `Into<usize>`: `u8` and `u16`. */
  predicate IntoUsize(t: IntType) {
    !t.signed && t.size <= 2
  }

  /** `CountType<Vec<T>, C>::read`: a `C` read as a fixed-width number, cast
      `into()` a `usize`, then that many elements. The bound
      `C: Into<usize>` admits only `u8` and `u16` among the numbers. */
  function ParseCounted<T>(t: IntType, c: Codec<T, ReadError, WriteError>, buf: seq<byte>, pos: nat): Result<Parsed<seq<T>>, ReadError>
    requires IntoUsize(t)
  {
    var l :- ParseNum(t, buf, pos);
    ParseMany(c, buf, l.next, l.value)
  }

  /** `CountType<Vec<T>, C>::write`: `len().try_into()?` into `C`, which fails
      with `tooLarge` (the `WriteError` converted from `C`'s `TryFrom`
      error) before anything is written when the length does not fit; then
      the count and the elements. The writer only asks `C: TryFrom<usize>`,
      so any fixed-width number may count. */
  function CountedBytes<T>(t: IntType, tooLarge: WriteError, c: Codec<T, ReadError, WriteError>, xs: seq<T>): Emitted<WriteError>
  {
    if !t.Contains(|xs|) then Emitted([], Fail(tooLarge))
    else Emitted(NumBytes(t, |xs|), Pass).Then(EmitAll(c, xs))
  }

  /** Round trip: a counted vector whose write succeeded reads back, and
      its encoding is consumed. */
  lemma CountedRoundTrip<T>(t: IntType, tooLarge: WriteError, c: Codec<T, ReadError, WriteError>, xs: seq<T>, buf: seq<byte>, pos: nat) returns (next: nat)
    requires IntoUsize(t)
    requires AllRoundTrip(c, xs)
    requires CountedBytes(t, tooLarge, c, xs).outcome.Pass?
    requires HasAt(buf, pos, CountedBytes(t, tooLarge, c, xs).bytes)
    ensures next == pos + |CountedBytes(t, tooLarge, c, xs).bytes|
    ensures ParseCounted(t, c, buf, pos) == Ok(Parsed(xs, next))
  {
    var items := EmitAll(c, xs);
    HasAtSplit(buf, pos, NumBytes(t, |xs|), items.bytes);
    NumRoundTrip(t, |xs|, buf, pos);
    next := ManyRoundTrip(c, xs, buf, pos + t.size);
  }

  method WriteCounted<T>(t: IntType, tooLarge: WriteError, codec: Codec<T, ReadError, WriteError>, xs: seq<T>, w: Writer) returns (o: Outcome<WriteError>)
    modifies w
    ensures o == CountedBytes(t, tooLarge, codec, xs).outcome
    ensures w.data == old(w.data) + CountedBytes(t, tooLarge, codec, xs).bytes
  {
    if !t.Contains(|xs|) {
      return Fail(tooLarge);
    }
    WriteNum(t, |xs|, w);
    o := WriteItems(codec, xs, w);
  }

  method ReadCounted<T>(t: IntType, codec: Codec<T, ReadError, WriteError>, c: Cursor) returns (r: Result<seq<T>, ReadError>)
    requires IntoUsize(t)
    modifies c
    ensures r == ValueOf(ParseCounted(t, codec, c.buf, old(c.pos)))
    ensures r.Ok? ==> c.pos == ParseCounted(t, codec, c.buf, old(c.pos)).value.next
  {
    var len := ReadNum(t, c);
    if len.Err? {
      return Err(len.error);
    }
    r := ReadMany(codec, c, len.value);
  }
}
