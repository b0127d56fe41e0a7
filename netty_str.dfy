/** The length-prefixed fields of `protocol/src/netty.rs`: text (`String`,
    `Cow<str>`, `&str`) behind a `Var<i32>` byte count, and raw bytes
    (`&[u8]`, `Cow<[u8]>`) behind a `Var<u32>` byte count. A text value is
    its UTF-8 bytes; a borrowed value is the bytes it borrows. */
module NettyStr {
  import opened Wire
  import opened NettyNum
  import opened Utf8

  /** Byte counts that survive `usize -> i32` `try_into`: below 2^31. */
  const StrLimit: nat := 0x8000_0000

  /** The `Var<i32>` of a byte count below `StrLimit` is the count itself. */
  lemma LengthFitsI32(n: nat)
    requires n < StrLimit
    ensures I32.Contains(n) && I32.AsUnsigned(n) == n
  {
    Pow2Small();
    ModOfSmall(n, Pow2(32));
  }

  // ---------------------------------------------------------------------
  // Writers

  /** What the `String`, `Cow<str>` and `&str` writers emit (their three
      bodies are the same): the byte count as a `Var<i32>` (whose bit
      pattern is the count itself, by `LengthFitsI32`), then the bytes. A
      count that does not fit an `i32` is `StringTooLong`, before any byte is
      written. */
  function StrBytes(s: seq<byte>): (r: Emitted<WriteError>)
  {
    if |s| < StrLimit then
      Emitted(VarBytes(|s|) + s, Pass)
    else
      Emitted([], Fail(StringTooLong))
  }

  /** The writers fail exactly on byte counts outside `i32`, and then
      write nothing; otherwise the text closes the output. */
  lemma StrBytesFails(s: seq<byte>)
    ensures StrBytes(s).outcome.Fail? <==> !I32.Contains(|s|)
    ensures StrBytes(s).outcome.Fail? ==> StrBytes(s) == Emitted([], Fail(StringTooLong))
    ensures StrBytes(s).outcome.Pass? ==>
              |StrBytes(s).bytes| > |s| && StrBytes(s).bytes[|StrBytes(s).bytes| - |s|..] == s
  {
    Pow2Small();
    if |s| < StrLimit {
      LengthFitsI32(|s|);
    }
  }

  method WriteStr(s: seq<byte>, w: Writer) returns (o: Outcome<WriteError>)
    modifies w
    ensures o == StrBytes(s).outcome
    ensures w.data == old(w.data) + StrBytes(s).bytes
  {
    if |s| >= StrLimit {
      return Fail(StringTooLong);
    }
    LengthFitsI32(|s|);
    WriteVar(I32, |s|, w);
    w.WriteAll(s);
    o := Pass;
  }

  /** What the `&[u8]` and `Cow<[u8]>` writers emit: `len as u32` as a
      `Var<u32>` (a count of 2^32 or more wraps), then the bytes. */
  function SliceBytes(bs: seq<byte>): (r: seq<byte>)
  {
    VarBytes(U32.AsUnsigned(|bs|)) + bs
  }

  method WriteSlice(bs: seq<byte>, w: Writer)
    modifies w
    ensures w.data == old(w.data) + SliceBytes(bs)
  {
    var n := U32.AsUnsigned(|bs|);
    CastRoundTrip(U32, 0, n);
    WriteVar(U32, n, w);
    w.WriteAll(bs);
  }

  // ---------------------------------------------------------------------
  // Text readers

  /** The `Var<i32>` byte count in front of text, and where the text starts.
      Every reader casts it `len as usize`; for a negative count that is a
      value near 2^64, on which each of them panics (the capacity overflow
      of `Vec::with_capacity`, or the overflowing add or the slice of the
      borrowing readers). */
  function ParseStrLen(buf: seq<byte>, pos: nat): Result<Parsed<nat>, ReadError>
  {
    var l :- ParseVar(I32, buf, pos);
    if l.value < 0 then Err(ReadError.Panic(NegativeLength)) else Ok(Parsed(l.value, l.next))
  }

  /** The `n` bytes at `p` taken as text: `short` when the buffer ends
      first, `bad` when they are not well-formed UTF-8. */
  function TextAt(buf: seq<byte>, p: nat, n: nat, short: ReadError, bad: ReadError): (r: Result<seq<byte>, ReadError>)
    ensures r.Ok? ==> p + n <= |buf| && r.value == buf[p..p + n] && ValidUtf8(r.value)
  {
    if p + n > |buf| then Err(short)
    else if !ValidUtf8(buf[p..p + n]) then Err(bad)
    else Ok(buf[p..p + n])
  }

  /** A value read, with where the cursor ends. */
  function WithNext<T>(r: Result<T, ReadError>, next: nat): Result<Parsed<T>, ReadError> {
    match r
    case Ok(v) => Ok(Parsed(v, next))
    case Err(e) => Err(e)
  }

  /** Taking `s` itself as text: `s` when well-formed, else `bad`. */
  lemma TextAtIs(buf: seq<byte>, p: nat, s: seq<byte>, short: ReadError, bad: ReadError)
    requires p + |s| <= |buf| && buf[p..p + |s|] == s
    ensures TextAt(buf, p, |s|, short, bad) == if ValidUtf8(s) then Ok(s) else Err(bad)
  {
  }

  /** What the three text readers do once the count `n` has been read and
      the cursor stands at `p`. */
  lemma TextReaders(buf: seq<byte>, pos: nat, n: nat, p: nat)
    requires ParseStrLen(buf, pos) == Ok(Parsed(n, p))
    ensures ParseString(buf, pos) == WithNext(TextAt(buf, p, n, ReadError.IoError, FromUtf8Error), p + n)
    ensures ParseCowStr(buf, pos) == WithNext(TextAt(buf, p, n, ReadError.Panic(SliceOutOfRange), Utf8Error), p + n)
    ensures ParseStrRef(buf, pos) == WithNext(TextAt(buf, p, n, ReadError.Panic(SliceOutOfRange), Utf8Error), p)
  {
  }

  /** `String::read`: the count, `read_exact` of that many bytes (end of
      input is an `IoError`), then `String::from_utf8`. */
  function ParseString(buf: seq<byte>, pos: nat): (r: Result<Parsed<seq<byte>>, ReadError>)
  {
    var l :- ParseStrLen(buf, pos);
    WithNext(TextAt(buf, l.next, l.value, ReadError.IoError, FromUtf8Error), l.next + l.value)
  }

  /** `Cow<str>::read`: borrows `buf[pos..end]` (a slice past the end
      panics), checks it with `str::from_utf8`, and moves the cursor to
      `end`. */
  function ParseCowStr(buf: seq<byte>, pos: nat): (r: Result<Parsed<seq<byte>>, ReadError>)
  {
    var l :- ParseStrLen(buf, pos);
    WithNext(TextAt(buf, l.next, l.value, ReadError.Panic(SliceOutOfRange), Utf8Error), l.next + l.value)
  }

  /** `&str::read`: as `Cow<str>::read`, except that the cursor is never
      moved past the text; it stays just after the count. */
  function ParseStrRef(buf: seq<byte>, pos: nat): (r: Result<Parsed<seq<byte>>, ReadError>)
  {
    var l :- ParseStrLen(buf, pos);
    WithNext(TextAt(buf, l.next, l.value, ReadError.Panic(SliceOutOfRange), Utf8Error), l.next)
  }

  /** A successful text read returns well-formed text that lies in the
      buffer, right after its count; `String` and `Cow<str>` end the read
      after it, `&str` at its start. */
  lemma TextReadsFromBuffer(buf: seq<byte>, pos: nat)
    ensures ParseString(buf, pos).Ok? ==> ParseCowStr(buf, pos) == ParseString(buf, pos)
    ensures ParseCowStr(buf, pos).Ok? ==>
              var r := ParseCowStr(buf, pos).value;
              var l := ParseStrLen(buf, pos).value;
              ValidUtf8(r.value) && r.next <= |buf| && r.next == l.next + |r.value| &&
              r.value == buf[l.next..r.next] &&
              ParseStrRef(buf, pos) == Ok(Parsed(r.value, l.next))
  {
    var l := ParseStrLen(buf, pos);
    if l.Ok? {
      TextReaders(buf, pos, l.value.value, l.value.next);
    }
  }

  /** The count in front of text the writers emitted reads back, and the
      text follows it. */
  lemma StrLenRoundTrip(s: seq<byte>, buf: seq<byte>, pos: nat) returns (p: nat)
    requires StrBytes(s).outcome.Pass?
    requires HasAt(buf, pos, StrBytes(s).bytes)
    ensures p == pos + |VarBytes(|s|)| && p + |s| == pos + |StrBytes(s).bytes|
    ensures ParseStrLen(buf, pos) == Ok(Parsed(|s|, p))
    ensures p + |s| <= |buf| && buf[p..p + |s|] == s
  {
    HasAtSplit(buf, pos, VarBytes(|s|), s);
    p := CountRoundTrip(|s|, buf, pos);
  }

  /** A count below `StrLimit` written as `Var<i32>` reads back as itself. */
  lemma CountRoundTrip(n: nat, buf: seq<byte>, pos: nat) returns (p: nat)
    requires n < StrLimit
    requires HasAt(buf, pos, VarBytes(n))
    ensures p == pos + |VarBytes(n)|
    ensures ParseStrLen(buf, pos) == Ok(Parsed(n, p))
  {
    LengthFitsI32(n);
    p := VarSameRoundTrip(I32, n, buf, pos);
  }

  /** Round trip: each text reader gives back the text the writers emitted,
      which starts at `p`, just after its count. `String::read` and
      `Cow<str>::read` consume exactly the encoding; `&str::read` leaves the
      cursor on the first byte of the text. */
  lemma TextRoundTrip(s: seq<byte>, buf: seq<byte>, pos: nat) returns (p: nat)
    requires ValidUtf8(s)
    requires StrBytes(s).outcome.Pass?
    requires HasAt(buf, pos, StrBytes(s).bytes)
    ensures p + |s| == pos + |StrBytes(s).bytes|
    ensures ParseString(buf, pos) == Ok(Parsed(s, p + |s|))
    ensures ParseCowStr(buf, pos) == Ok(Parsed(s, p + |s|))
    ensures ParseStrRef(buf, pos) == Ok(Parsed(s, p))
  {
    p := StrLenRoundTrip(s, buf, pos);
    TextAfterLength(s, buf, pos, p);
  }

  /** Well-formed text right after its count is what each text reader
      returns. */
  lemma TextAfterLength(s: seq<byte>, buf: seq<byte>, pos: nat, p: nat)
    requires ValidUtf8(s)
    requires ParseStrLen(buf, pos) == Ok(Parsed(|s|, p))
    requires p + |s| <= |buf| && buf[p..p + |s|] == s
    ensures ParseString(buf, pos) == Ok(Parsed(s, p + |s|))
    ensures ParseCowStr(buf, pos) == Ok(Parsed(s, p + |s|))
    ensures ParseStrRef(buf, pos) == Ok(Parsed(s, p))
  {
    TextReaders(buf, pos, |s|, p);
  }

  /** Ill-formed text behind a valid count: `String` reports
      `FromUtf8Error`, the borrowing readers `Utf8Error`. */
  lemma StrInvalidUtf8(s: seq<byte>, buf: seq<byte>, pos: nat)
    requires !ValidUtf8(s)
    requires StrBytes(s).outcome.Pass?
    requires HasAt(buf, pos, StrBytes(s).bytes)
    ensures ParseString(buf, pos) == Err(FromUtf8Error)
    ensures ParseCowStr(buf, pos) == Err(Utf8Error)
    ensures ParseStrRef(buf, pos) == Err(Utf8Error)
  {
    var p := StrLenRoundTrip(s, buf, pos);
    TextReaders(buf, pos, |s|, p);
    TextAtIs(buf, p, s, ReadError.IoError, FromUtf8Error);
    TextAtIs(buf, p, s, ReadError.Panic(SliceOutOfRange), Utf8Error);
  }

  /** A count `n` with fewer than `n` bytes after it: `String` reports the
      end of input, the borrowing readers panic on the slice. */
  lemma StrTruncated(n: nat, buf: seq<byte>, pos: nat)
    requires n < StrLimit
    requires HasAt(buf, pos, VarBytes(n))
    requires pos + |VarBytes(n)| + n > |buf|
    ensures ParseString(buf, pos) == Err(ReadError.IoError)
    ensures ParseCowStr(buf, pos) == Err(ReadError.Panic(SliceOutOfRange))
    ensures ParseStrRef(buf, pos) == Err(ReadError.Panic(SliceOutOfRange))
  {
    var p := CountRoundTrip(n, buf, pos);
    TextReaders(buf, pos, n, p);
  }

  /** A negative count makes every text reader panic. */
  lemma StrNegativeLength(v: int, buf: seq<byte>, pos: nat)
    requires I32.Contains(v) && v < 0
    requires HasAt(buf, pos, VarBytes(I32.AsUnsigned(v)))
    ensures ParseString(buf, pos) == Err(ReadError.Panic(NegativeLength))
    ensures ParseCowStr(buf, pos) == Err(ReadError.Panic(NegativeLength))
    ensures ParseStrRef(buf, pos) == Err(ReadError.Panic(NegativeLength))
  {
    var p := VarRoundTrip(I32, v, buf, pos);
  }

  method ReadString(c: Cursor) returns (r: Result<seq<byte>, ReadError>)
    modifies c
    ensures r == ValueOf(ParseString(c.buf, old(c.pos)))
    ensures r.Ok? ==> c.pos == ParseString(c.buf, old(c.pos)).value.next
  {
    var len := ReadVar(I32, c);
    if len.Err? {
      return Err(len.error);
    }
    if len.value < 0 {
      return Err(ReadError.Panic(NegativeLength));
    }
    var bytes := c.ReadExact(len.value);
    if bytes.None? {
      return Err(ReadError.IoError);
    }
    if !ValidUtf8(bytes.value) {
      return Err(FromUtf8Error);
    }
    r := Ok(bytes.value);
  }

  method ReadCowStr(c: Cursor) returns (r: Result<seq<byte>, ReadError>)
    modifies c
    ensures r == ValueOf(ParseCowStr(c.buf, old(c.pos)))
    ensures r.Ok? ==> c.pos == ParseCowStr(c.buf, old(c.pos)).value.next
  {
    var len := ReadVar(I32, c);
    if len.Err? {
      return Err(len.error);
    }
    if len.value < 0 {
      return Err(ReadError.Panic(NegativeLength));
    }
    var start := c.pos;
    var end := start + len.value;
    if end > |c.buf| {
      return Err(ReadError.Panic(SliceOutOfRange));
    }
    var s := c.buf[start..end];
    if !ValidUtf8(s) {
      return Err(Utf8Error);
    }
    c.SetPosition(end);
    r := Ok(s);
  }

  method ReadStrRef(c: Cursor) returns (r: Result<seq<byte>, ReadError>)
    modifies c
    ensures r == ValueOf(ParseStrRef(c.buf, old(c.pos)))
    ensures r.Ok? ==> c.pos == ParseStrRef(c.buf, old(c.pos)).value.next
  {
    var len := ReadVar(I32, c);
    if len.Err? {
      return Err(len.error);
    }
    if len.value < 0 {
      return Err(ReadError.Panic(NegativeLength));
    }
    var start := c.pos;
    var end := start + len.value;
    if end > |c.buf| {
      return Err(ReadError.Panic(SliceOutOfRange));
    }
    var s := c.buf[start..end];
    if !ValidUtf8(s) {
      return Err(Utf8Error);
    }
    r := Ok(s);
  }

  /** Two `&str` fields in a row, "a" then "b": the second read starts on
      the text of the first, takes the byte `a` (0x61 = 97) for a count and
      panics on the slice. */
  lemma StrRefSecondFieldPanics()
    ensures StrBytes([0x61]).bytes + StrBytes([0x62]).bytes == [1, 0x61, 1, 0x62]
    ensures ParseStrRef([1, 0x61, 1, 0x62], 0) == Ok(Parsed([0x61], 1))
    ensures ParseStrRef([1, 0x61, 1, 0x62], 1) == Err(ReadError.Panic(SliceOutOfRange))
  {
    var buf: seq<byte> := [1, 0x61, 1, 0x62];
    assert VarBytes(1) == [1] && VarBytes(97) == [97];
    AsciiIsUtf8([0x61]);
    var p := TextRoundTrip([0x61], buf, 0);
    StrTruncated(97, buf, 1);
  }

  /** With `Cow<str>`, which moves past the text, the same two fields read
      back in order. */
  lemma CowStrSecondField()
    ensures ParseCowStr([1, 0x61, 1, 0x62], 0) == Ok(Parsed([0x61], 2))
    ensures ParseCowStr([1, 0x61, 1, 0x62], 2) == Ok(Parsed([0x62], 4))
  {
    var buf: seq<byte> := [1, 0x61, 1, 0x62];
    assert VarBytes(1) == [1];
    AsciiIsUtf8([0x61]);
    AsciiIsUtf8([0x62]);
    var p := TextRoundTrip([0x61], buf, 0);
    var q := TextRoundTrip([0x62], buf, 2);
  }

  // ---------------------------------------------------------------------
  // Byte-slice readers

  /** `&[u8]::read` and `Cow<[u8]>::read` as written: a `Var<u32>` count
      `len`, then the bytes `buf[0..len]` from the START of the buffer
      (panicking if the buffer is shorter), and the cursor moved `len` bytes
      on, wherever that lands. */
  function ParseSliceAsWritten(buf: seq<byte>, pos: nat): (r: Result<Parsed<seq<byte>>, ReadError>)
    ensures r.Ok? ==> |r.value.value| <= |buf| && r.value.value == buf[..|r.value.value|]
  {
    var l :- ParseVar(U32, buf, pos);
    if l.value > |buf| then Err(ReadError.Panic(SliceOutOfRange))
    else Ok(Parsed(buf[0..l.value], l.next + l.value))
  }

  /** The evident intent: the `len` bytes at the cursor, `buf[pos..pos + len]`. */
  function ParseSlice(buf: seq<byte>, pos: nat): (r: Result<Parsed<seq<byte>>, ReadError>)
    ensures r.Ok? ==> r.value.next <= |buf|
  {
    var l :- ParseVar(U32, buf, pos);
    if l.next + l.value > |buf| then Err(ReadError.Panic(SliceOutOfRange))
    else Ok(Parsed(buf[l.next..l.next + l.value], l.next + l.value))
  }

  /** Round trip of the intended reader against the writer, for slices
      shorter than 2^32 bytes; the cursor ends just after the bytes. */
  lemma SliceRoundTrip(bs: seq<byte>, buf: seq<byte>, pos: nat) returns (next: nat)
    requires |bs| < Pow2(32)
    requires HasAt(buf, pos, SliceBytes(bs))
    ensures next == pos + |SliceBytes(bs)|
    ensures ParseSlice(buf, pos) == Ok(Parsed(bs, next))
  {
    Pow2Small();
    ModOfSmall(|bs|, Pow2(32));
    HasAtSplit(buf, pos, VarBytes(|bs|), bs);
    var p := VarSameRoundTrip(U32, |bs|, buf, pos);
    next := p + |bs|;
  }

  /** The reader as written returns the start of the buffer instead: the
      slice `[7]` written at position 0 reads back as `[1]`, its own count. */
  lemma SliceAsWrittenReadsCount()
    ensures SliceBytes([7]) == [1, 7]
    ensures ParseSliceAsWritten([1, 7], 0) == Ok(Parsed([1], 2))
    ensures ParseSlice([1, 7], 0) == Ok(Parsed([7], 2))
  {
    Pow2Small();
    assert U32.AsUnsigned(1) == 1;
    assert VarBytes(1) == [1];
    var next := SliceRoundTrip([7], [1, 7], 0);
  }

  method ReadSliceAsWritten(c: Cursor) returns (r: Result<seq<byte>, ReadError>)
    modifies c
    ensures r == ValueOf(ParseSliceAsWritten(c.buf, old(c.pos)))
    ensures r.Ok? ==> c.pos == ParseSliceAsWritten(c.buf, old(c.pos)).value.next
  {
    var len := ReadVar(U32, c);
    if len.Err? {
      return Err(len.error);
    }
    if len.value > |c.buf| {
      return Err(ReadError.Panic(SliceOutOfRange));
    }
    var bytes := c.buf[0..len.value];
    c.SetPosition(c.pos + len.value);
    r := Ok(bytes);
  }

  method ReadSlice(c: Cursor) returns (r: Result<seq<byte>, ReadError>)
    modifies c
    ensures r == ValueOf(ParseSlice(c.buf, old(c.pos)))
    ensures r.Ok? ==> c.pos == ParseSlice(c.buf, old(c.pos)).value.next
  {
    var len := ReadVar(U32, c);
    if len.Err? {
      return Err(len.error);
    }
    var start := c.pos;
    if start + len.value > |c.buf| {
      return Err(ReadError.Panic(SliceOutOfRange));
    }
    var bytes := c.buf[start..start + len.value];
    c.SetPosition(start + len.value);
    r := Ok(bytes);
  }
}
