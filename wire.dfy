/** Bytes, integer bit patterns, results, and the two I/O objects every codec
    works against: a read cursor over a borrowed byte buffer (Rust's
    `std::io::Cursor<&[u8]>`) and an append-only byte sink (a `Vec<u8>` used
    as `std::io::Write`). */
module Wire {

  /** An octet on the wire. */
  type byte = b: int | 0 <= b < 256

  /** 2 to the power n. */
  function Pow2(n: nat): (r: nat)
    ensures r >= 1
  {
    if n == 0 then 1 else 2 * Pow2(n - 1)
  }

  lemma {:induction false} Pow2Add(a: nat, b: nat)
    ensures Pow2(a + b) == Pow2(a) * Pow2(b)
  {
    if a > 0 {
      Pow2Add(a - 1, b);
      assert Pow2(a + b) == 2 * Pow2(a - 1 + b);
    }
  }

  /** Pow2 is strictly increasing, in both directions. */
  lemma {:induction false} Pow2Less(a: nat, b: nat)
    ensures a < b <==> Pow2(a) < Pow2(b)
  {
    if a < b {
      Pow2Add(a, b - a);
      assert Pow2(b - a) >= 2 by { assert Pow2(b - a) == 2 * Pow2(b - a - 1); }
    } else {
      Pow2Add(b, a - b);
    }
  }

  lemma Pow2Small()
    ensures Pow2(7) == 128 && Pow2(8) == 256 && Pow2(16) == 65536
    ensures Pow2(31) == 0x8000_0000 && Pow2(32) == 0x1_0000_0000
  {
    assert Pow2(1) == 2;
    assert Pow2(4) == 16 by { assert Pow2(2) == 4; assert Pow2(3) == 8; }
    assert Pow2(8) == 256 by { Pow2Add(4, 4); }
    assert Pow2(7) == 128 by { assert Pow2(8) == 2 * Pow2(7); }
    assert Pow2(16) == 65536 by { Pow2Add(8, 8); }
    assert Pow2(32) == 0x1_0000_0000 by { Pow2Add(16, 16); }
    assert Pow2(32) == 2 * Pow2(31);
  }

  /** The pattern of a `bits`-wide two's-complement integer holding `v`, read
      as unsigned: Rust's `as` cast from a signed type to the unsigned type of
      the same width (and the identity on unsigned values). */
  function ToBits(bits: nat, v: int): (u: nat)
    ensures u < Pow2(bits)
  {
    v % Pow2(bits)
  }

  /** Rust's `as` cast from an unsigned type to the signed type of the same
      width: the same bits, read as two's complement. */
  function SignedFromBits(bits: nat, u: nat): int
    requires bits >= 1
  {
    if u >= Pow2(bits - 1) then u - Pow2(bits) else u
  }

  /** The range of a `bits`-wide signed integer. */
  predicate InSignedRange(bits: nat, v: int)
    requires bits >= 1
  {
    -(Pow2(bits - 1) as int) <= v < Pow2(bits - 1)
  }

  /** Casting to unsigned and back is the identity on every signed value. */
  lemma SignedBitsRoundTrip(bits: nat, v: int)
    requires bits >= 1 && InSignedRange(bits, v)
    ensures SignedFromBits(bits, ToBits(bits, v)) == v
  {
    var m := Pow2(bits);
    assert m == 2 * Pow2(bits - 1);
    if v < 0 {
      ModOfShifted(v, m);
    } else {
      ModOfSmall(v, m);
    }
  }

  /** Casting to signed and back is the identity on every bit pattern. */
  lemma BitsSignedRoundTrip(bits: nat, u: nat)
    requires bits >= 1 && u < Pow2(bits)
    ensures InSignedRange(bits, SignedFromBits(bits, u))
    ensures ToBits(bits, SignedFromBits(bits, u)) == u
  {
    var m := Pow2(bits);
    assert m == 2 * Pow2(bits - 1);
    if u >= Pow2(bits - 1) {
      ModOfShifted(u - m, m);
    } else {
      ModOfSmall(u, m);
    }
  }

  lemma ModOfSmall(x: int, m: int)
    requires 0 <= x < m
    ensures x % m == x
  {
  }

  lemma ModOfShifted(x: int, m: int)
    requires 0 < m && -m <= x < 0
    ensures x % m == x + m
  {
  }

  /** The `n` low-order bytes of `u`, most significant first: Rust's
      `to_be_bytes` for an n-byte unsigned integer. */
  function BeBytes(n: nat, u: nat): (r: seq<byte>)
    ensures |r| == n
  {
    if n == 0 then [] else BeBytes(n - 1, u / 256) + [u % 256]
  }

  /** The unsigned value of a big-endian byte string: Rust's `from_be_bytes`. */
  function BeValue(bs: seq<byte>): (r: nat)
    ensures r < Pow2(8 * |bs|)
  {
    if bs == [] then 0
    else
      var k := |bs| - 1;
      assert BeValue(bs[..k]) < Pow2(8 * k);
      Pow2Add(8 * k, 8);
      Pow2Small();
      BeValue(bs[..k]) * 256 + bs[k]
  }

  /** Reading back the bytes `to_be_bytes` wrote gives the value written. */
  lemma {:induction false} BeValueOfBytes(n: nat, u: nat)
    requires u < Pow2(8 * n)
    ensures BeValue(BeBytes(n, u)) == u
  {
    if n > 0 {
      var r := BeBytes(n, u);
      assert r[..n - 1] == BeBytes(n - 1, u / 256);
      Pow2Add(8 * (n - 1), 8);
      Pow2Small();
      BeValueOfBytes(n - 1, u / 256);
    }
  }

  /** Writing back the value `from_be_bytes` read gives the bytes read. */
  lemma {:induction false} BeBytesOfValue(bs: seq<byte>)
    ensures BeBytes(|bs|, BeValue(bs)) == bs
  {
    if bs != [] {
      var k := |bs| - 1;
      BeBytesOfValue(bs[..k]);
      var v := BeValue(bs[..k]) * 256 + bs[k];
      assert v / 256 == BeValue(bs[..k]) && v % 256 == bs[k];
      assert bs == bs[..k] + [bs[k]];
    }
  }

  datatype Option<+T> = None | Some(value: T)

  /** A value or the error that stopped its decoding; usable with `:-`. */
  datatype Result<+T, +E> = Ok(value: T) | Err(error: E) {
    predicate IsFailure() { Err? }
    function PropagateFailure<U>(): Result<U, E>
      requires Err?
    {
      Err(error)
    }
    function Extract(): T
      requires Ok?
    {
      value
    }
  }

  /** The result of a write: `Ok(())` or the error it returned. */
  datatype Outcome<+E> = Pass | Fail(error: E)

  /** What a reader yields: the value and the cursor position just after it. */
  datatype Parsed<+T> = Parsed(value: T, next: nat)

  /** What a writer leaves behind: the bytes it appended to the sink before it
      returned, and whether it returned an error. */
  datatype Emitted<+E> = Emitted(bytes: seq<byte>, outcome: Outcome<E>) {
    /** This write followed by `k`, as Rust's `?` sequences them: `k` runs
        only if this write succeeded. */
    function Then(k: Emitted<E>): Emitted<E> {
      if outcome.Fail? then this else Emitted(bytes + k.bytes, k.outcome)
    }
  }

  /** The value of a read, without the position. */
  function ValueOf<T, E>(r: Result<Parsed<T>, E>): Result<T, E> {
    match r
    case Ok(p) => Ok(p.value)
    case Err(e) => Err(e)
  }

  /** `bs` occurs in `buf` at `pos`. */
  predicate HasAt(buf: seq<byte>, pos: nat, bs: seq<byte>) {
    pos + |bs| <= |buf| && buf[pos..pos + |bs|] == bs
  }

  /** Where `a + b` occurs, `a` occurs and `b` follows it. */
  lemma HasAtSplit(buf: seq<byte>, pos: nat, a: seq<byte>, b: seq<byte>)
    requires HasAt(buf, pos, a + b)
    ensures HasAt(buf, pos, a) && HasAt(buf, pos + |a|, b)
  {
    assert buf[pos..pos + |a|] == (a + b)[..|a|];
    assert buf[pos + |a|..pos + |a| + |b|] == (a + b)[|a|..];
  }

  /** Rust's `std::io::Cursor<&[u8]>`: a borrowed buffer and a read position
      that may point anywhere, even past the end. */
  class Cursor {
    const buf: seq<byte>
    var pos: nat

    constructor (buf: seq<byte>)
      ensures this.buf == buf && pos == 0
    {
      this.buf := buf;
      pos := 0;
    }

    /** `read_exact` of `n` bytes: the next `n` bytes, or end of input. The
        position after a failed read is left unspecified, as `Read` leaves it. */
    method ReadExact(n: nat) returns (r: Option<seq<byte>>)
      modifies this
      ensures r.Some? <==> old(pos) + n <= |buf|
      ensures r.Some? ==> r.value == buf[old(pos)..old(pos) + n] && pos == old(pos) + n
    {
      if pos + n <= |buf| {
        r := Some(buf[pos..pos + n]);
        pos := pos + n;
      } else {
        r := None;
      }
    }

    /** `set_position`. */
    method SetPosition(p: nat)
      modifies this
      ensures pos == p
    {
      pos := p;
    }
  }

  /** The byte sink every writer appends to. It never fails. */
  class Writer {
    var data: seq<byte>

    constructor ()
      ensures data == []
    {
      data := [];
    }

    /** `write_all`: appends `bs`. */
    method WriteAll(bs: seq<byte>)
      modifies this
      ensures data == old(data) + bs
    {
      data := data + bs;
    }
  }
}
