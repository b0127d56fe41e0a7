/** The number codecs of the protocol crate (`protocol/src/netty.rs`): the
    fixed-width big-endian integers of `impl_num!` and the continuation-bit
    `Var<T>` integers of `impl_var_num!`, for every width from 8 to 128 bits,
    together with the read and write error kinds. */
module NettyNum {
  import opened Wire

  /** A byte count of at least one: `size_of::<$num>()`. */
  type ByteCount = n: nat | 1 <= n witness 1

  /** One of `u8` .. `u128`, `i8` .. `i128`, by its size in bytes (1, 2, 4, 8
      or 16) and signedness. An `f32` or `f64` field travels as the bit
      pattern of the `u32` or `u64` of the same size. Every property below
      holds for any size, so the type does not narrow it further. */
  datatype IntType = IntType(size: ByteCount, signed: bool) {
    /** `$num::BITS` */
    function Bits(): nat { 8 * size }

    /** The values of the type. */
    predicate Contains(v: int) {
      if signed then InSignedRange(Bits(), v) else 0 <= v < Pow2(Bits())
    }

    /** `v as $unum`: the value's bit pattern, read as unsigned. */
    function AsUnsigned(v: int): nat {
      ToBits(Bits(), v)
    }

    /** `u as $num`: a bit pattern of the type's width, read as the type. */
    function FromUnsigned(u: nat): int {
      if signed then SignedFromBits(Bits(), u) else u
    }
  }

  /** The two casts are inverse: every value survives `as $unum` then
      `as $num`, and every bit pattern survives the opposite trip. */
  lemma CastRoundTrip(t: IntType, v: int, u: nat)
    ensures t.Contains(v) ==> t.AsUnsigned(v) < Pow2(t.Bits()) && t.FromUnsigned(t.AsUnsigned(v)) == v
    ensures u < Pow2(t.Bits()) ==> t.Contains(t.FromUnsigned(u)) && t.AsUnsigned(t.FromUnsigned(u)) == u
  {
    var m := Pow2(t.Bits());
    if t.Contains(v) {
      if t.signed { SignedBitsRoundTrip(t.Bits(), v); } else { ModOfSmall(v, m); }
    }
    if u < m {
      if t.signed { BitsSignedRoundTrip(t.Bits(), u); } else { ModOfSmall(u, m); }
    }
  }

  /** What the source panics on, where this model returns an error instead. */
  datatype PanicCause =
    | ShiftOverflow    // `<<` by at least the width of the accumulator
    | AddOverflow      // `+=` past the maximum of the accumulator
    | NegativeLength   // a negative `i32` length cast `as usize`
    | SliceOutOfRange  // a range index past the end of the buffer

  /** `ReadError` (netty.rs:100-107), plus `Panic` for the reads that panic. */
  datatype ReadError =
    | IoError
    | InvalidEnumId
    | Utf8Error
    | FromUtf8Error
    | UuidError
    | InvalidProtocolVersionIdCombination
    | Panic(cause: PanicCause)

  /** `WriteError` (netty.rs:87-90). The sink never fails, so `IoError` is
      never produced here. */
  datatype WriteError = IoError | StringTooLong

  // ---------------------------------------------------------------------
  // impl_num!: fixed width, big endian

  const U8 := IntType(1, false)
  const U16 := IntType(2, false)
  const I32 := IntType(4, true)
  const U32 := IntType(4, false)

  /** `$num::to_be_bytes(v)`. */
  function NumBytes(t: IntType, v: int): (r: seq<byte>)
    requires t.Contains(v)
  {
    BeBytes(t.size, t.AsUnsigned(v))
  }

  /** The fixed-width reader: `read_exact` of `size_of` bytes, then
      `from_be_bytes`. */
  function ParseNum(t: IntType, buf: seq<byte>, pos: nat): (r: Result<Parsed<int>, ReadError>)
    ensures r.Ok? <==> pos + t.size <= |buf|
    ensures r.Err? ==> r.error == ReadError.IoError
    ensures r.Ok? ==> t.Contains(r.value.value) && r.value.next == pos + t.size
  {
    if pos + t.size <= |buf| then
      var u := BeValue(buf[pos..pos + t.size]);
      CastRoundTrip(t, 0, u);
      Ok(Parsed(t.FromUnsigned(u), pos + t.size))
    else
      Err(ReadError.IoError)
  }

  /** A fixed-width number is exactly `size_of` bytes on the wire, and reading
      them back gives the number written. */
  lemma NumRoundTrip(t: IntType, v: int, buf: seq<byte>, pos: nat)
    requires t.Contains(v)
    requires HasAt(buf, pos, NumBytes(t, v))
    ensures |NumBytes(t, v)| == t.size
    ensures ParseNum(t, buf, pos) == Ok(Parsed(v, pos + t.size))
  {
    CastRoundTrip(t, v, 0);
    BeValueOfBytes(t.size, t.AsUnsigned(v));
  }

  /** Every `size_of` bytes are the encoding of exactly one number. */
  lemma NumBytesOnto(t: IntType, bs: seq<byte>)
    requires |bs| == t.size
    ensures ParseNum(t, bs, 0).Ok?
    ensures NumBytes(t, ParseNum(t, bs, 0).value.value) == bs
  {
    assert bs[0..t.size] == bs;
    CastRoundTrip(t, 0, BeValue(bs));
    BeBytesOfValue(bs);
  }

  method WriteNum(t: IntType, v: int, w: Writer)
    requires t.Contains(v)
    modifies w
    ensures w.data == old(w.data) + NumBytes(t, v)
  {
    w.WriteAll(BeBytes(t.size, t.AsUnsigned(v)));
  }

  method ReadNum(t: IntType, c: Cursor) returns (r: Result<int, ReadError>)
    modifies c
    ensures r == ValueOf(ParseNum(t, c.buf, old(c.pos)))
    ensures r.Ok? ==> c.pos == old(c.pos) + t.size
  {
    var bytes := c.ReadExact(t.size);
    if bytes.None? {
      return Err(ReadError.IoError);
    }
    r := Ok(t.FromUnsigned(BeValue(bytes.value)));
  }

  // ---------------------------------------------------------------------
  // impl_var_num!: Var<T>

  /** `var_size::<BITS>()`, the loop bound of the Var readers. It is given a
      width already in bits and multiplies it by 8 again, so it is about eight
      times the number of 7-bit groups a value of that width can need. */
  function VarSize(bits: nat): nat {
    (bits * 8 + 6) / 7
  }

  /** ceil(bits / 7): the most 7-bit groups a `bits`-wide value needs. */
  function MaxGroups(bits: nat): nat {
    (bits + 6) / 7
  }

  /** The Var readers' loop bound lies beyond the group count at which their
      shift overflows: 10 against 2 for 8 bits, 37 against 5 for 32 bits. */
  lemma VarSizeBeyondGroups(bits: nat)
    requires bits >= 1
    ensures MaxGroups(bits) < VarSize(bits)
    ensures 7 * MaxGroups(bits) >= bits && 7 * (MaxGroups(bits) - 1) < bits
    ensures VarSize(8) == 10 && MaxGroups(8) == 2 && VarSize(32) == 37 && MaxGroups(32) == 5
  {
  }

  /** `b | 0x80` */
  function Or80(b: byte): byte {
    b % 128 + 128
  }

  /** The bytes the Var writer emits for the unsigned pattern `u`: the low 7
      bits first, with the high bit set on every byte but the last. */
  function VarBytes(u: nat): (r: seq<byte>)
    ensures |r| >= 1
    decreases u
  {
    if u / 128 == 0 then [u] else [Or80(u % 128)] + VarBytes(u / 128)
  }

  /** Every byte of an encoding but the last has the high bit set, and the
      last has it clear. */
  lemma {:induction false} VarBytesContinuation(u: nat)
    ensures var r := VarBytes(u);
            r[|r| - 1] < 128 && forall k :: 0 <= k < |r| - 1 ==> r[k] >= 128
    decreases u
  {
    if u / 128 != 0 {
      VarBytesContinuation(u / 128);
    }
  }

  /** A value fits in k Var bytes exactly when it is below 2^(7k): the
      encoding has the minimal length. */
  lemma {:induction false} VarBytesLength(u: nat, k: nat)
    requires k >= 1
    ensures |VarBytes(u)| <= k <==> u < Pow2(7 * k)
  {
    var p := Pow2(7 * (k - 1));
    assert Pow2(7 * k) == 128 * p by {
      Pow2Add(7 * (k - 1), 7);
      Pow2Small();
    }
    if u >= 128 {
      assert |VarBytes(u)| == 1 + |VarBytes(u / 128)|;
      if k > 1 {
        VarBytesLength(u / 128, k - 1);
        assert u / 128 < p <==> u < 128 * p;
      }
    }
  }

  /** The Var encoding of any value of a `bits`-wide type is at most
      ceil(bits/7) bytes. */
  lemma VarBytesFit(t: IntType, v: int)
    requires t.Contains(v)
    ensures |VarBytes(t.AsUnsigned(v))| <= MaxGroups(t.Bits())
  {
    VarSizeBeyondGroups(t.Bits());
    Pow2Less(t.Bits(), 7 * MaxGroups(t.Bits()));
    VarBytesLength(t.AsUnsigned(v), MaxGroups(t.Bits()));
  }

  /** Worked encodings: 0, 127, 128 and 300. */
  lemma VarBytesExamples()
    ensures VarBytes(0) == [0x00]
    ensures VarBytes(127) == [0x7F]
    ensures VarBytes(128) == [0x80, 0x01]
    ensures VarBytes(300) == [0xAC, 0x02]
  {
    assert VarBytes(128) == [Or80(0)] + VarBytes(1);
    assert VarBytes(300) == [Or80(44)] + VarBytes(2);
  }

  /** `Var<i32>(-1)`: the signed writer shifts the pattern as unsigned, so it
      ends after five bytes. */
  lemma VarBytesMinusOne()
    ensures I32.AsUnsigned(-1) == 0xFFFF_FFFF
    ensures VarBytes(0xFFFF_FFFF) == [0xFF, 0xFF, 0xFF, 0xFF, 0x0F]
  {
    Pow2Small();
    ModOfShifted(-1, 0x1_0000_0000);
    assert VarBytes(0x7FF) == [0xFF] + VarBytes(0x0F);
    assert VarBytes(0x3_FFFF) == [0xFF] + VarBytes(0x7FF);
    assert VarBytes(0x1FF_FFFF) == [0xFF] + VarBytes(0x3_FFFF);
    assert VarBytes(0xFFFF_FFFF) == [0xFF] + VarBytes(0x1FF_FFFF);
  }

  /** The low `n` bits of `v`, taken one bit at a time. */
  function LowBits(n: nat, v: nat): nat {
    if n == 0 then 0 else 2 * LowBits(n - 1, v / 2) + v % 2
  }

  /** `y` moved up by `s` bit positions, one position at a time. */
  function ShiftUp(y: nat, s: nat): nat {
    if s == 0 then y else 2 * ShiftUp(y, s - 1)
  }

  /** `x << s` on a `bits`-wide unsigned integer, for a shift below the
      width: the low `bits - s` bits of `x` move up by `s`, and the bits
      shifted past the top are lost. */
  function Shl(x: nat, s: nat, bits: nat): nat
    requires s < bits
  {
    ShiftUp(LowBits(bits - s, x), s)
  }

  lemma {:induction false} LowBitsIsMod(n: nat, v: nat)
    ensures LowBits(n, v) == v % Pow2(n)
  {
    if n > 0 {
      LowBitsIsMod(n - 1, v / 2);
      var m := Pow2(n - 1);
      var q, r := (v / 2) / m, (v / 2) % m;
      assert v / 2 == q * m + r;
      assert v == q * (2 * m) + (2 * r + v % 2);
      ModUnique(v, 2 * m, q, 2 * r + v % 2);
    }
  }

  lemma {:induction false} ShiftUpIsMul(y: nat, s: nat)
    ensures ShiftUp(y, s) == y * Pow2(s)
  {
    if s > 0 {
      ShiftUpIsMul(y, s - 1);
      assert y * Pow2(s) == y * (2 * Pow2(s - 1)) == 2 * (y * Pow2(s - 1));
    }
  }

  /** The value of `x << s`: the product `x * 2^s` reduced modulo `2^bits`. */
  lemma ShlValue(x: nat, s: nat, bits: nat)
    requires s < bits
    ensures Shl(x, s, bits) == (x % Pow2(bits - s)) * Pow2(s)
    ensures Shl(x, s, bits) == (x * Pow2(s)) % Pow2(bits)
  {
    LowBitsIsMod(bits - s, x);
    ShiftUpIsMul(x % Pow2(bits - s), s);
    Pow2Add(s, bits - s);
    ModMulFactor(x, Pow2(s), Pow2(bits - s));
  }

  lemma ModUnique(a: int, m: int, d: int, r: int)
    requires m > 0 && 0 <= r < m && a == d * m + r
    ensures a % m == r && a / m == d
  {
    var d', r' := a / m, a % m;
    assert a == d' * m + r';
    assert (d - d') * m == r' - r;
    if d > d' {
      MulMono(1, d - d', m);
    } else if d < d' {
      MulMono(1, d' - d, m);
    }
  }

  lemma MulMono(a: nat, b: nat, c: nat)
    requires a <= b
    ensures a * c <= b * c
  {
  }

  lemma ModMulFactor(x: nat, p: nat, q: nat)
    requires p > 0 && q > 0
    ensures (x * p) % (p * q) == (x % q) * p
  {
    var d, r := x / q, x % q;
    assert x == d * q + r;
    assert x * p == d * (p * q) + r * p by {
      assert x * p == (d * q + r) * p;
    }
    assert r * p < p * q by {
      MulMono(r, q - 1, p);
      assert (q - 1) * p == q * p - p;
    }
    ModUnique(x * p, p * q, d, r * p);
  }

  /** One step of the Var readers' `val += ((b & 0x7f) as $unum) << (i * 7)`:
      the new group lands above the bits already gathered, so the addition
      never overflows. */
  lemma Accumulate(acc: nat, x: nat, i: nat, bits: nat)
    requires acc < Pow2(7 * i) && 7 * i < bits && x < 128
    ensures acc + Shl(x, 7 * i, bits) < Pow2(bits)
    ensures acc + Shl(x, 7 * i, bits) < Pow2(7 * (i + 1))
  {
    var p, q := Pow2(7 * i), Pow2(bits - 7 * i);
    ShlValue(x, 7 * i, bits);
    Pow2Add(7 * i, bits - 7 * i);
    Pow2Add(7 * i, 7);
    Pow2Small();
    DisjointGroups(acc, x, p, q);
  }

  /** A group `x` shifted by `p` (and truncated to `p * q`) lands above
      everything below `p`. */
  lemma DisjointGroups(acc: nat, x: nat, p: nat, q: nat)
    requires acc < p && x < 128 && q > 0
    ensures acc + (x * p) % (p * q) < p * q
    ensures acc + (x * p) % (p * q) < p * 128
  {
    ModMulFactor(x, p, q);
    var y := x % q;
    BelowNextGroup(acc, y, p, q);
    ModAtMost(x, q);
    BelowNextGroup(acc, y, p, 128);
  }

  lemma ModAtMost(x: nat, q: nat)
    requires q > 0
    ensures x % q <= x
  {
    if x < q {
      ModOfSmall(x, q);
    }
  }

  /** Digit `y` of weight `p` above a remainder `acc < p` stays below the
      next weight `p * q`. */
  lemma BelowNextGroup(acc: nat, y: nat, p: nat, q: nat)
    requires acc < p && y < q
    ensures acc + y * p < p * q
  {
    MulMono(y, q - 1, p);
    assert (q - 1) * p == q * p - p;
  }

  /** The `for i in 0..var_size::<BITS>()` loop of the Var readers from
      iteration `i` on, with `val == acc` and the cursor at `pos`: read a byte
      (end of input is an `IoError`), shift its low 7 bits into place (which
      panics once `i * 7` reaches the width), add it to the accumulator
      (which panics on overflow), and stop after a byte whose high bit is
      clear. Running out of iterations ends the loop silently. */
  function VarLoop(bits: nat, buf: seq<byte>, pos: nat, i: nat, acc: nat): (r: Result<Parsed<nat>, ReadError>)
    decreases VarSize(bits) - i
  {
    if i >= VarSize(bits) then
      Ok(Parsed(acc, pos))
    else if pos + 1 > |buf| then
      Err(ReadError.IoError)
    else if 7 * i >= bits then
      Err(ReadError.Panic(ShiftOverflow))
    else
      var b := buf[pos];
      var acc' := acc + Shl(b % 128, 7 * i, bits);
      if acc' >= Pow2(bits) then Err(ReadError.Panic(AddOverflow))
      else if b < 128 then Ok(Parsed(acc', pos + 1))
      else VarLoop(bits, buf, pos + 1, i + 1, acc')
  }

  /** What `Var<T>::read` returns for a cursor at `pos`: the loop above from
      its start, and the accumulator cast `as $num`. A successful read always
      ends on a byte with the high bit clear, so the silent stop at
      `var_size` never happens. */
  function ParseVar(t: IntType, buf: seq<byte>, pos: nat): (r: Result<Parsed<int>, ReadError>)
  {
    match VarLoop(t.Bits(), buf, pos, 0, 0)
    case Ok(p) => Ok(Parsed(t.FromUnsigned(p.value), p.next))
    case Err(e) => Err(e)
  }

  /** A successful Var read yields a value of the type, ends on a byte with
      the high bit clear, and takes at most ceil(bits/7) bytes. */
  lemma ParseVarBounds(t: IntType, buf: seq<byte>, pos: nat)
    ensures var r := ParseVar(t, buf, pos);
            r.Ok? ==> t.Contains(r.value.value) && pos < r.value.next <= |buf| &&
                      buf[r.value.next - 1] < 128 && r.value.next - pos <= MaxGroups(t.Bits())
  {
    var l := VarLoop(t.Bits(), buf, pos, 0, 0);
    if l.Ok? {
      VarLoopBounds(t.Bits(), buf, pos, 0, 0);
      CastRoundTrip(t, 0, l.value.value);
      VarSizeBeyondGroups(t.Bits());
      VarLoopStops(t.Bits(), buf, pos, 0, 0);
    }
  }

  /** The loop's result is a `bits`-wide pattern when it starts from one. */
  lemma {:induction false} VarLoopBounds(bits: nat, buf: seq<byte>, pos: nat, i: nat, acc: nat)
    requires acc < Pow2(bits)
    ensures VarLoop(bits, buf, pos, i, acc).Ok? ==> VarLoop(bits, buf, pos, i, acc).value.value < Pow2(bits)
    decreases VarSize(bits) - i
  {
    if i < VarSize(bits) && pos + 1 <= |buf| && 7 * i < bits {
      var acc' := acc + Shl(buf[pos] % 128, 7 * i, bits);
      if acc' < Pow2(bits) && buf[pos] >= 128 {
        VarLoopBounds(bits, buf, pos + 1, i + 1, acc');
      }
    }
  }

  /** Started no later than group ceil(bits/7), the loop never runs out of
      iterations: a read that succeeds ends on a byte with the high bit clear,
      at most ceil(bits/7) - i bytes on. */
  lemma {:induction false} VarLoopStops(bits: nat, buf: seq<byte>, pos: nat, i: nat, acc: nat)
    requires 1 <= bits && i <= MaxGroups(bits)
    ensures VarLoop(bits, buf, pos, i, acc).Ok? ==>
              var next := VarLoop(bits, buf, pos, i, acc).value.next;
              pos < next <= |buf| && buf[next - 1] < 128 && next - pos <= MaxGroups(bits) - i
    decreases VarSize(bits) - i
  {
    VarSizeBeyondGroups(bits);
    if pos + 1 <= |buf| && 7 * i < bits {
      var acc' := acc + Shl(buf[pos] % 128, 7 * i, bits);
      if acc' < Pow2(bits) && buf[pos] >= 128 {
        VarLoopStops(bits, buf, pos + 1, i + 1, acc');
      }
    }
  }

  /** The addition in the loop never overflows: each group lands above the
      bits gathered so far. */
  lemma {:induction false} VarLoopNoAddOverflow(bits: nat, buf: seq<byte>, pos: nat, i: nat, acc: nat)
    requires acc < Pow2(7 * i)
    ensures VarLoop(bits, buf, pos, i, acc) != Err(ReadError.Panic(AddOverflow))
    decreases VarSize(bits) - i
  {
    if i < VarSize(bits) && pos + 1 <= |buf| && 7 * i < bits {
      Accumulate(acc, buf[pos] % 128, i, bits);
      VarLoopNoAddOverflow(bits, buf, pos + 1, i + 1, acc + Shl(buf[pos] % 128, 7 * i, bits));
    }
  }

  /** No Var read panics on the addition. */
  lemma VarNoAddOverflow(t: IntType, buf: seq<byte>, pos: nat)
    ensures ParseVar(t, buf, pos) != Err(ReadError.Panic(AddOverflow))
  {
    VarLoopNoAddOverflow(t.Bits(), buf, pos, 0, 0);
  }

  /** The loop reads back the bytes the writer emitted: started at group `i`
      (weight `p`) over the encoding of `u`, it adds `u`'s groups above the
      `acc` gathered so far and stops just after the encoding. */
  lemma {:induction false} VarLoopDecodes(bits: nat, buf: seq<byte>, pos: nat, i: nat, acc: nat, u: nat, p: nat, total: nat)
    requires 1 <= bits && p == Pow2(7 * i)
    requires acc < p && total == acc + u * p && total < Pow2(bits)
    requires u > 0 || i == 0
    requires HasAt(buf, pos, VarBytes(u))
    ensures VarLoop(bits, buf, pos, i, acc) == Ok(Parsed(total, pos + |VarBytes(u)|))
    decreases u
  {
    VarBytesHead(buf, pos, u);
    if u >= 128 {
      var p' := Pow2(7 * (i + 1));
      Pow2Group(i);
      var acc' := NextGroup(acc, u, p, p');
      VarLoopMoreGroups(bits, buf, pos, i, acc, u, p, acc');
      VarLoopDecodes(bits, buf, pos + 1, i + 1, acc', u / 128, p', total);
    } else {
      VarLoopLastGroup(bits, buf, pos, i, acc, u, p, total);
    }
  }

  /** The weight of group `i + 1` is 128 times that of group `i`. */
  lemma Pow2Group(i: nat)
    ensures Pow2(7 * (i + 1)) == 128 * Pow2(7 * i)
  {
    Pow2Add(7 * i, 7);
    Pow2Small();
  }

  /** The first byte of the encoding of `u` at `pos` carries `u`'s low group,
      and its high bit says whether more bytes follow. */
  lemma VarBytesHead(buf: seq<byte>, pos: nat, u: nat)
    requires HasAt(buf, pos, VarBytes(u))
    ensures pos < |buf| && buf[pos] % 128 == u % 128 && (buf[pos] < 128 <==> u < 128)
    ensures u < 128 ==> |VarBytes(u)| == 1
    ensures u >= 128 ==> |VarBytes(u)| == 1 + |VarBytes(u / 128)| && HasAt(buf, pos + 1, VarBytes(u / 128))
  {
    var r := VarBytes(u);
    VarBytesFirst(u);
    assert buf[pos] == r[0];
    if u >= 128 {
      HasAtSplit(buf, pos, [r[0]], VarBytes(u / 128));
    }
  }

  /** The first byte of `u`'s encoding and what follows it. */
  lemma VarBytesFirst(u: nat)
    ensures VarBytes(u)[0] % 128 == u % 128 && (VarBytes(u)[0] < 128 <==> u < 128)
    ensures u < 128 ==> VarBytes(u) == [u]
    ensures u >= 128 ==> VarBytes(u) == [VarBytes(u)[0]] + VarBytes(u / 128)
  {
  }

  /** A group with weight below the width: the shift does not overflow. */
  lemma GroupInRange(bits: nat, i: nat, u: nat, p: nat, acc: nat)
    requires 1 <= bits && p == Pow2(7 * i)
    requires acc + u * p < Pow2(bits)
    requires u > 0 || i == 0
    ensures 7 * i < bits && i < VarSize(bits)
  {
    VarSizeBeyondGroups(bits);
    if u > 0 {
      MulMono(1, u, p);
      Pow2Less(7 * i, bits);
    }
  }

  /** Shifting the low group of `u` into place loses no bits. */
  lemma ShlOfLowGroup(bits: nat, i: nat, u: nat, p: nat, acc: nat)
    requires 7 * i < bits && p == Pow2(7 * i)
    requires acc + u * p < Pow2(bits)
    ensures Shl(u % 128, 7 * i, bits) == (u % 128) * p
    ensures acc + (u % 128) * p < Pow2(bits)
  {
    MulMono(u % 128, u, p);
    ShlExact(u % 128, 7 * i, bits);
  }

  /** A shift that pushes no bit past the top is a multiplication. */
  lemma ShlExact(x: nat, s: nat, bits: nat)
    requires s < bits && x * Pow2(s) < Pow2(bits)
    ensures Shl(x, s, bits) == x * Pow2(s)
  {
    ShlValue(x, s, bits);
    ModOfSmall(x * Pow2(s), Pow2(bits));
  }

  /** One iteration of the loop, given what the byte read contributes. */
  lemma VarLoopOneGroup(bits: nat, buf: seq<byte>, pos: nat, i: nat, acc: nat, x: nat, more: bool)
    requires 7 * i < bits && i < VarSize(bits) && pos < |buf|
    requires buf[pos] % 128 == x && (buf[pos] >= 128 <==> more)
    requires acc + Shl(x, 7 * i, bits) < Pow2(bits)
    ensures VarLoop(bits, buf, pos, i, acc) ==
              var acc' := acc + Shl(x, 7 * i, bits);
              if more then VarLoop(bits, buf, pos + 1, i + 1, acc') else Ok(Parsed(acc', pos + 1))
  {
  }

  /** The first iteration over the encoding of `u` when that encoding has
      more bytes: it adds `u`'s low group and goes on. */
  lemma VarLoopMoreGroups(bits: nat, buf: seq<byte>, pos: nat, i: nat, acc: nat, u: nat, p: nat, acc': nat)
    requires 1 <= bits && p == Pow2(7 * i) && u >= 128
    requires acc + u * p < Pow2(bits) && acc' == acc + (u % 128) * p
    requires HasAt(buf, pos, VarBytes(u))
    ensures VarLoop(bits, buf, pos, i, acc) == VarLoop(bits, buf, pos + 1, i + 1, acc')
  {
    VarBytesHead(buf, pos, u);
    GroupInRange(bits, i, u, p, acc);
    ShlOfLowGroup(bits, i, u, p, acc);
    VarLoopOneGroup(bits, buf, pos, i, acc, u % 128, true);
  }

  /** The only iteration over the one-byte encoding of `u`: it adds `u` and
      stops. */
  lemma VarLoopLastGroup(bits: nat, buf: seq<byte>, pos: nat, i: nat, acc: nat, u: nat, p: nat, total: nat)
    requires 1 <= bits && p == Pow2(7 * i) && u < 128
    requires total == acc + u * p && total < Pow2(bits)
    requires u > 0 || i == 0
    requires HasAt(buf, pos, VarBytes(u))
    ensures VarLoop(bits, buf, pos, i, acc) == Ok(Parsed(total, pos + 1))
  {
    VarBytesHead(buf, pos, u);
    GroupInRange(bits, i, u, p, acc);
    ShlOfLowGroup(bits, i, u, p, acc);
    VarLoopOneGroup(bits, buf, pos, i, acc, u % 128, false);
  }

  /** Moving from group `i` (weight `p`) to group `i + 1` (weight `128 * p`):
      the low group joins the accumulator and the rest shifts down 7 bits. */
  lemma NextGroup(acc: nat, u: nat, p: nat, p': nat) returns (acc': nat)
    requires p >= 1 && p' == 128 * p && acc < p
    ensures acc' == acc + (u % 128) * p && acc' < p'
    ensures acc' + (u / 128) * p' == acc + u * p
  {
    acc' := acc + (u % 128) * p;
    assert u == u % 128 + 128 * (u / 128);
    assert u * p == (u % 128 + 128 * (u / 128)) * p;
    MulMono(u % 128, 127, p);
  }

  /** Round trip: reading the bytes `Var(v).write` emitted returns `v` and
      leaves the cursor just after them, for every width and signedness. */
  lemma VarRoundTrip(t: IntType, v: int, buf: seq<byte>, pos: nat) returns (next: nat)
    requires t.Contains(v)
    requires HasAt(buf, pos, VarBytes(t.AsUnsigned(v)))
    ensures next == pos + |VarBytes(t.AsUnsigned(v))|
    ensures ParseVar(t, buf, pos) == Ok(Parsed(v, next))
  {
    var u := t.AsUnsigned(v);
    CastRoundTrip(t, v, 0);
    VarLoopRoundTrip(t.Bits(), buf, pos, u);
    next := pos + |VarBytes(u)|;
    ParseVarOk(t, buf, pos, u, next);
  }

  /** The round trip of a value that is its own bit pattern (every value of
      an unsigned type, and the non-negative ones of a signed type). */
  lemma VarSameRoundTrip(t: IntType, n: nat, buf: seq<byte>, pos: nat) returns (next: nat)
    requires t.Contains(n) && t.AsUnsigned(n) == n
    requires HasAt(buf, pos, VarBytes(n))
    ensures next == pos + |VarBytes(n)|
    ensures ParseVar(t, buf, pos) == Ok(Parsed(n, next))
  {
    next := VarRoundTrip(t, n, buf, pos);
  }

  /** A successful loop makes a successful read of the accumulator's cast. */
  lemma ParseVarOk(t: IntType, buf: seq<byte>, pos: nat, u: nat, next: nat)
    requires VarLoop(t.Bits(), buf, pos, 0, 0) == Ok(Parsed(u, next))
    ensures ParseVar(t, buf, pos) == Ok(Parsed(t.FromUnsigned(u), next))
  {
  }

  /** The loop from its start reads back the encoding of any `u` that fits. */
  lemma VarLoopRoundTrip(bits: nat, buf: seq<byte>, pos: nat, u: nat)
    requires 1 <= bits && u < Pow2(bits)
    requires HasAt(buf, pos, VarBytes(u))
    ensures VarLoop(bits, buf, pos, 0, 0) == Ok(Parsed(u, pos + |VarBytes(u)|))
  {
    assert Pow2(7 * 0) == 1;
    VarLoopDecodes(bits, buf, pos, 0, 0, u, 1, u);
  }

  /** When the input ends in continuation bytes the read fails: with an
      `IoError` if the input runs out within the first ceil(bits/7) bytes,
      and otherwise with the shift overflow at the next group. */
  lemma {:induction false} VarLoopTruncated(bits: nat, buf: seq<byte>, pos: nat, i: nat, acc: nat)
    requires 1 <= bits
    requires acc < Pow2(7 * i) && i <= MaxGroups(bits)
    requires forall k :: pos <= k < |buf| ==> buf[k] >= 128
    ensures VarLoop(bits, buf, pos, i, acc) ==
              Err(if |buf| - pos <= MaxGroups(bits) - i then ReadError.IoError else ReadError.Panic(ShiftOverflow))
    decreases VarSize(bits) - i
  {
    VarSizeBeyondGroups(bits);
    if pos + 1 <= |buf| && 7 * i < bits {
      Accumulate(acc, buf[pos] % 128, i, bits);
      VarLoopTruncated(bits, buf, pos + 1, i + 1, acc + Shl(buf[pos] % 128, 7 * i, bits));
    }
  }

  lemma VarTruncated(t: IntType, buf: seq<byte>, pos: nat)
    requires forall k :: pos <= k < |buf| ==> buf[k] >= 128
    ensures ParseVar(t, buf, pos) ==
              Err(if |buf| - pos <= MaxGroups(t.Bits()) then ReadError.IoError else ReadError.Panic(ShiftOverflow))
  {
    VarLoopTruncated(t.Bits(), buf, pos, 0, 0);
  }

  /** One turn of the writer's loop on `cur`: `next_val` is the pattern
      shifted right by 7, read back as the type, and it is zero exactly when
      the shifted pattern is. */
  lemma WriteVarStep(t: IntType, cur: int)
    requires t.Contains(cur)
    ensures var u := t.AsUnsigned(cur);
            var n := t.FromUnsigned(u / 128);
            t.Contains(n) && t.AsUnsigned(n) == u / 128 && (n == 0 <==> u / 128 == 0)
  {
    var u := t.AsUnsigned(cur);
    CastRoundTrip(t, cur, u / 128);
    CastRoundTrip(t, t.FromUnsigned(u / 128), 0);
    CastRoundTrip(t, 0, 0);
  }

  /** The encoding of `u` is one byte when `u >> 7` is zero, and otherwise
      `u`'s low byte with the high bit set, followed by the encoding of
      `u >> 7`. */
  lemma VarBytesCons(u: nat)
    ensures u / 128 == 0 ==> VarBytes(u) == [u % 256]
    ensures u / 128 != 0 ==> VarBytes(u) == [Or80(u % 256)] + VarBytes(u / 128) && u / 128 < u
  {
    if u / 128 != 0 {
      assert Or80(u % 256) == Or80(u % 128) by {
        ModMod(u);
      }
    }
  }

  lemma ModMod(u: nat)
    ensures (u % 256) % 128 == u % 128 == (u % 128) % 128
  {
    var a, r := u / 256, u % 256;
    assert u == 128 * (2 * a + r / 128) + r % 128;
  }

  /** `Var<$num>::write` and `Var<$unum>::write`: emit the low byte with the
      high bit set while the value shifted right by 7 (as unsigned) is
      nonzero, then the last byte. */
  method WriteVar(t: IntType, v: int, w: Writer)
    requires t.Contains(v)
    modifies w
    ensures w.data == old(w.data) + VarBytes(t.AsUnsigned(v))
  {
    var cur := v;
    while true
      invariant t.Contains(cur)
      invariant old(w.data) + VarBytes(t.AsUnsigned(v)) == w.data + VarBytes(t.AsUnsigned(cur))
      decreases t.AsUnsigned(cur)
    {
      var u := t.AsUnsigned(cur);
      WriteVarStep(t, cur);
      VarBytesCons(u);
      var nextVal := t.FromUnsigned(u / 128);
      if nextVal == 0 {
        w.WriteAll([u % 256]);
        break;
      }
      w.WriteAll([Or80(u % 256)]);
      cur := nextVal;
    }
  }

  /** One turn of the reader's loop at group `i < var_size`. */
  lemma VarLoopUnfold(bits: nat, buf: seq<byte>, pos: nat, i: nat, acc: nat)
    requires i < VarSize(bits)
    ensures VarLoop(bits, buf, pos, i, acc) ==
              if pos + 1 > |buf| then Err(ReadError.IoError)
              else if 7 * i >= bits then Err(ReadError.Panic(ShiftOverflow))
              else
                var acc' := acc + Shl(buf[pos] % 128, 7 * i, bits);
                if acc' >= Pow2(bits) then Err(ReadError.Panic(AddOverflow))
                else if buf[pos] < 128 then Ok(Parsed(acc', pos + 1))
                else VarLoop(bits, buf, pos + 1, i + 1, acc')
  {
  }

  /** `ParseVar` in terms of the loop's outcome. */
  lemma ParseVarOfLoop(t: IntType, buf: seq<byte>, pos: nat)
    ensures var l := VarLoop(t.Bits(), buf, pos, 0, 0);
            ValueOf(ParseVar(t, buf, pos)) == (if l.Ok? then Ok(t.FromUnsigned(l.value.value)) else Err(l.error))
    ensures ParseVar(t, buf, pos).Ok? ==> ParseVar(t, buf, pos).value.next == VarLoop(t.Bits(), buf, pos, 0, 0).value.next
  {
  }

  /** `Var<$num>::read` and `Var<$unum>::read`: the loop, then the cast of
      the accumulator `as $num`. */
  method ReadVar(t: IntType, c: Cursor) returns (r: Result<int, ReadError>)
    modifies c
    ensures r == ValueOf(ParseVar(t, c.buf, old(c.pos)))
    ensures r.Ok? ==> c.pos == ParseVar(t, c.buf, old(c.pos)).value.next
  {
    ParseVarOfLoop(t, c.buf, c.pos);
    var val := ReadVarLoop(t.Bits(), c);
    if val.Err? {
      return Err(val.error);
    }
    r := Ok(t.FromUnsigned(val.value));
  }

  /** The `for` loop of the Var readers, accumulating into a `bits`-wide
      unsigned integer. */
  method ReadVarLoop(bits: nat, c: Cursor) returns (r: Result<nat, ReadError>)
    modifies c
    ensures r == ValueOf(VarLoop(bits, c.buf, old(c.pos), 0, 0))
    ensures r.Ok? ==> c.pos == VarLoop(bits, c.buf, old(c.pos), 0, 0).value.next
  {
    var val: nat := 0;
    for i := 0 to VarSize(bits)
      invariant val < Pow2(bits)
      invariant VarLoop(bits, c.buf, old(c.pos), 0, 0) == VarLoop(bits, c.buf, c.pos, i, val)
    {
      VarLoopUnfold(bits, c.buf, c.pos, i, val);
      var cur := c.ReadExact(1);
      if cur.None? {
        return Err(ReadError.IoError);
      }
      var b := cur.value[0];
      if 7 * i >= bits {
        return Err(ReadError.Panic(ShiftOverflow));
      }
      var sum := val + Shl(b % 128, 7 * i, bits);
      if sum >= Pow2(bits) {
        return Err(ReadError.Panic(AddOverflow));
      }
      val := sum;
      if b < 128 {
        return Ok(val);
      }
    }
    r := Ok(val);
  }
}
