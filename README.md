# mine-rs wire codecs in Dafny

A model of the two byte-level codecs under the mine-rs Minecraft
protocol crates, with proofs about them.

- **Primitive protocol fields**, from `protocol/src/netty.rs`:
  - fixed-width big-endian numbers;
  - the continuation-bit `Var<T>` integers for every width from 8 to 128 bits;
  - `bool`;
  - the three text types `String`, `Cow<str>` and `&str`;
  - the byte slices `&[u8]` and `Cow<[u8]>`;
  - the counted sequences `Vec<T>` and `CountType<Vec<T>, C>`;
  - `Uuid`, `Angle`;
  - the `NextState0` discriminant;
  - every writer's `size_hint`.
- **The NBT list**, from `nbt/src/list.rs`:
  - the homogeneous list of twelve typed variants, plus the untyped empty list `Invalid`;
  - its encoder and decoder;
  - `to_static`.

Every reader is written twice:
- a function `ParseX(buf, pos)`, giving the value and the position after it, or the error;
- a method on a `Cursor` object, whose `pos` field advances as bytes are read. Its contract ties it to the function.

Every writer is also written twice:
- a function giving `Emitted(bytes, outcome)`: the bytes appended before the writer returned, and its result;
- a method that appends to a `Writer` object, and whose contract ties it to the function.

The loops of the source are loops in the methods:
- the `Var` read and write loops;
- the element loops of `Vec`, `CountType` and `Counted`.

The properties are proved about the functions. They are:
- round trips (what a writer emitted, its reader returns, consuming exactly those bytes);
- error cases;
- framing facts;
- worked byte-level examples.

Files:

| file | contents |
|---|---|
| `wire.dfy` | bytes, powers of two, two's-complement casts, big-endian bytes, `Result`/`Emitted`, the `Cursor` and `Writer` objects |
| `utf8.dfy` | well-formed UTF-8 |
| `netty_num.dfy` | fixed-width numbers, `Var<T>` |
| `netty_str.dfy` | text and byte slices |
| `netty_fields.dfy` | `bool`, `Angle`, `NextState0`, `Uuid`, `size_hint` |
| `elements.dfy` | element codecs and runs of elements |
| `netty_seq.dfy` | `Vec<T>`, `CountType<Vec<T>, C>` |
| `nbt_codec.dfy` | the NBT tag, `i32` counts, `Counted<_, i32>` |
| `nbt_list.dfy` | the NBT list |

## Model

| member | source | states |
|---|---|---|
| Wire.BeValueOfBytes | protocol/src/netty.rs:140-145 | `from_be_bytes` of the bytes `to_be_bytes` produced gives back the value |
| Wire.BeBytesOfValue | protocol/src/netty.rs:140-145 | `to_be_bytes` of the value `from_be_bytes` read gives back those bytes |
| Wire.SignedBitsRoundTrip | protocol/src/netty.rs:180 | casting a signed value to its unsigned pattern and back is the identity |
| Wire.BitsSignedRoundTrip | protocol/src/netty.rs:173 | casting a pattern to signed and back is the identity, and lands in the signed range |
| NettyNum.CastRoundTrip | protocol/src/netty.rs:173 | `as $unum` and `as $num` are inverse on the type's values and on its bit patterns |
| NettyNum.ParseNum | protocol/src/netty.rs:136-142 | the fixed-width read succeeds exactly when `size_of` bytes remain; otherwise `IoError`. It yields a value of the type and advances `size_of` bytes |
| NettyNum.NumRoundTrip | protocol/src/netty.rs:136-151 | a written number is `size_of` bytes, and reading them returns the number |
| NettyNum.NumBytesOnto | protocol/src/netty.rs:136-151 | every `size_of` bytes are the encoding of the number they read as |
| NettyNum.WriteNum | protocol/src/netty.rs:143-146 | appends exactly `to_be_bytes` of the value |
| NettyNum.ReadNum | protocol/src/netty.rs:137-141 | returns what `ParseNum` returns, and advances the cursor by `size_of` on success |
| NettyNum.VarSizeBeyondGroups | protocol/src/netty.rs:241-243 | `var_size` is `(BITS*8+6)/7` and lies beyond ceil(BITS/7). For `u8` it is 10 against 2 groups; for `i32` it is 37 against 5 |
| NettyNum.VarBytesContinuation | protocol/src/netty.rs:177-189 | every byte of a Var encoding but the last has 0x80 set, and the last has it clear |
| NettyNum.VarBytesLength | protocol/src/netty.rs:177-189 | the encoding has at most k bytes exactly when the value is below 2^(7k) |
| NettyNum.VarBytesFit | protocol/src/netty.rs:180 | every value of a `bits`-wide type, negative ones included, takes at most ceil(bits/7) bytes |
| NettyNum.VarBytesExamples | protocol/src/netty.rs:177-189 | 0 is `[0x00]`, 127 is `[0x7F]`, 128 is `[0x80, 0x01]`, 300 is `[0xAC, 0x02]` |
| NettyNum.VarBytesMinusOne | protocol/src/netty.rs:180 | `Var<i32>(-1)` is shifted as `0xFFFF_FFFF` and written as the 5 bytes `FF FF FF FF 0F` |
| NettyNum.WriteVarStep | protocol/src/netty.rs:179-187 | one turn of the writer loop emits the byte the encoding starts with, and continues on `int as $unum >> 7` |
| NettyNum.VarBytesCons | protocol/src/netty.rs:179-187 | the encoding is one byte when `u >> 7` is 0, else `u as u8` with 0x80 set, followed by the encoding of `u >> 7` |
| NettyNum.WriteVar | protocol/src/netty.rs:176-189 | the write loop appends exactly the Var encoding of the value's unsigned pattern |
| NettyNum.ShlValue | protocol/src/netty.rs:168 | `x << s` on a `bits`-wide integer is `x * 2^s` reduced modulo `2^bits` |
| NettyNum.Accumulate | protocol/src/netty.rs:168 | one `val += group << 7i` on an accumulator below 2^(7i) stays below 2^(7(i+1)) and below 2^bits |
| NettyNum.ParseVarBounds | protocol/src/netty.rs:162-174 | a successful Var read yields a value of the type, ends on a byte below 0x80, and consumes at most ceil(BITS/7) bytes |
| NettyNum.VarLoopBounds | protocol/src/netty.rs:166-172 | the read loop's accumulator stays a `bits`-wide pattern |
| NettyNum.VarLoopStops | protocol/src/netty.rs:166-172 | started within the first ceil(bits/7) groups, a successful loop ends on a terminating byte. The silent stop at `var_size` is never reached (with overflow checks on) |
| NettyNum.VarLoopNoAddOverflow | protocol/src/netty.rs:168 | the `+=` of the read loop never overflows: each group lands above the bits already set |
| NettyNum.VarNoAddOverflow | protocol/src/netty.rs:162-174 | no Var read panics on the addition |
| NettyNum.VarLoopDecodes | protocol/src/netty.rs:164-172 | from group i, the loop reads the encoding of the remaining value back into the accumulator, and stops right after it |
| NettyNum.VarLoopRoundTrip | protocol/src/netty.rs:164-172 | the loop from its start reads back the encoding of any value that fits |
| NettyNum.VarRoundTrip | protocol/src/netty.rs:160-236 | reading the bytes `Var(v).write` emitted returns `v` and consumes exactly them, for every signed and unsigned width |
| NettyNum.VarSameRoundTrip | protocol/src/netty.rs:195-227 | the same round trip, for a value that is its own bit pattern |
| NettyNum.VarLoopTruncated | protocol/src/netty.rs:166-167 | input ending in continuation bytes fails. Within ceil(bits/7) groups the error is `IoError`; beyond that the shift panics first |
| NettyNum.VarTruncated | protocol/src/netty.rs:166-167 | a Var read of input that ends before a terminating byte is `IoError` when that input has at most ceil(BITS/7) bytes, and a shift-overflow panic when it has more (with overflow checks on) |
| NettyNum.ReadVarLoop | protocol/src/netty.rs:164-172 | the imperative read loop returns what `VarLoop` returns, and leaves the cursor where it ends |
| NettyNum.ReadVar | protocol/src/netty.rs:162-174 | returns what `ParseVar` returns, and advances the cursor to its end |
| NettyStr.LengthFitsI32 | protocol/src/netty.rs:266-271 | a byte count below 2^31 survives `try_into` and is its own `Var<i32>` pattern |
| NettyStr.StrBytesFails | protocol/src/netty.rs:264-323 | a text write fails exactly when the byte count does not fit `i32`, with `StringTooLong` and nothing written. Otherwise it is `Var<i32>(len)` then the raw bytes |
| NettyStr.WriteStr | protocol/src/netty.rs:264-275 | appends what `StrBytes` says, and returns its outcome |
| NettyStr.WriteSlice | protocol/src/netty.rs:448-452 | appends `Var(len as u32)` then the bytes |
| NettyStr.TextReadsFromBuffer | protocol/src/netty.rs:245-288 | a successful text read returns valid UTF-8 that lies in the buffer right after the count. `String` and `Cow<str>` agree wherever `String` succeeds |
| NettyStr.StrLenRoundTrip | protocol/src/netty.rs:247 | the count in front of written text reads back, and the text follows it |
| NettyStr.CountRoundTrip | protocol/src/netty.rs:247 | a count below 2^31 written as `Var<i32>` reads back as itself |
| NettyStr.TextRoundTrip | protocol/src/netty.rs:245-323 | each text reader returns the text written, and `String` and `Cow<str>` consume it all. `&str` stops after the count |
| NettyStr.TextAfterLength | protocol/src/netty.rs:245-288 | well-formed text right after its count is what each reader returns |
| NettyStr.StrInvalidUtf8 | protocol/src/netty.rs:251 | ill-formed text behind a valid count is `FromUtf8Error` for `String` and `Utf8Error` for the borrowing readers |
| NettyStr.StrTruncated | protocol/src/netty.rs:250 | too few bytes after the count is `IoError` for `String` and a slice panic for `Cow<str>` and `&str` |
| NettyStr.StrNegativeLength | protocol/src/netty.rs:248 | a negative count makes every text reader panic on `len as usize` |
| NettyStr.ReadString | protocol/src/netty.rs:245-253 | returns what `ParseString` returns, and advances the cursor past the text |
| NettyStr.ReadCowStr | protocol/src/netty.rs:254-263 | returns what `ParseCowStr` returns, and sets the cursor to the end of the text |
| NettyStr.ReadStrRef | protocol/src/netty.rs:281-288 | returns what `ParseStrRef` returns, and leaves the cursor after the count |
| NettyStr.StrRefSecondFieldPanics | protocol/src/netty.rs:281-288 | two `&str` fields "a" then "b" are written as `[1, 'a', 1, 'b']`. The second read starts on 'a' and panics |
| NettyStr.CowStrSecondField | protocol/src/netty.rs:254-263 | with `Cow<str>` the same two fields read as "a" and "b" |
| NettyStr.ParseSliceAsWritten | protocol/src/netty.rs:439-446 | the `&[u8]` reader as written returns a prefix of the whole buffer, whatever the cursor |
| NettyStr.ParseSlice | protocol/src/netty.rs:459-466 | the corrected slice reader ends inside the buffer |
| NettyStr.SliceRoundTrip | protocol/src/netty.rs:439-477 | the corrected reader returns a slice written with fewer than 2^32 bytes, and consumes it |
| NettyStr.SliceAsWrittenReadsCount | protocol/src/netty.rs:442 | the slice `[7]` is written as `[1, 7]`. The reader as written returns `[1]`, where `[7]` is meant |
| NettyStr.ReadSliceAsWritten | protocol/src/netty.rs:439-446 | returns what `ParseSliceAsWritten` returns, and advances the cursor by the count |
| NettyStr.ReadSlice | protocol/src/netty.rs:459-466 | returns what `ParseSlice` returns, and advances the cursor past the slice |
| Utf8.AsciiIsUtf8 | protocol/src/netty.rs:251 | ASCII bytes are well-formed UTF-8 |
| Utf8.Utf8Concat | protocol/src/netty.rs:251 | text followed by text is text |
| Utf8.Utf8Examples | protocol/src/netty.rs:251 | `é` is accepted. The overlong NUL `C0 80` and an encoded surrogate are rejected |
| NettyFields.BoolByte | protocol/src/netty.rs:331-335 | a bool is written as 0 or 1 |
| NettyFields.BoolRoundTrip | protocol/src/netty.rs:324-340 | the byte written for a bool reads back as it, consuming one byte |
| NettyFields.BoolReadNormalises | protocol/src/netty.rs:324-330 | every byte reads as a bool: 0 is false, every other byte true, and written back it is 0 or 1 |
| NettyFields.BoolTruncated | protocol/src/netty.rs:327 | no byte left is `IoError` |
| NettyFields.WriteBool | protocol/src/netty.rs:332-335 | appends the bool's byte |
| NettyFields.ReadBool | protocol/src/netty.rs:325-329 | returns what `ParseBool` returns, and advances one byte |
| NettyFields.AngleRoundTrip | protocol/src/netty.rs:479-493 | an angle is its one `u8` byte, and reads back |
| NettyFields.WriteAngle | protocol/src/netty.rs:486-488 | appends the angle's `u8` |
| NettyFields.ReadAngle | protocol/src/netty.rs:481-483 | returns what `ParseAngle` returns, and advances one byte |
| NettyFields.NextStateFromInverts | protocol/src/netty.rs:62-77 | `try_from` accepts exactly the discriminants 1 and 2, each as its state, and maps everything else to `InvalidEnumId` |
| NettyFields.HyphenatedIsText | protocol/src/netty.rs:427-428 | the hyphenated form is 36 ASCII bytes |
| NettyFields.UuidIsString | protocol/src/netty.rs:425-432 | a written Uuid is the `String` encoding of its hyphenated form, 37 bytes |
| NettyFields.UuidRoundTrip | protocol/src/netty.rs:418-432 | for a `from_str` that accepts the hyphenated form, a written Uuid reads back in 37 bytes |
| NettyFields.WriteUuid | protocol/src/netty.rs:425-432 | appends the length byte 36 then the hyphenated form |
| NettyFields.ReadUuid | protocol/src/netty.rs:418-423 | returns what `ParseUuid` returns, and advances past the string |
| NettyFields.SizeHint | protocol/src/netty.rs:147-150 | every hint is at least 1, for the numbers, Var, text, slices, Uuid, `Vec` and `CountType` alike |
| NettyFields.SizeHintExact | protocol/src/netty.rs:147-150 | the hint equals the bytes written for fixed-width numbers, bools and angles |
| NettyFields.SizeHintOfVectors | protocol/src/netty.rs:365-413 | a `Vec` hints its `Var<u32>` count's 1, a lower bound on what it writes; a `CountType` hints `C`'s width, exactly the count it writes first whenever the length fits `C` |
| NettyFields.SizeHintBelowWrite | protocol/src/netty.rs:190-193 | for Var, text and slices the hint of 1 is a lower bound. A Uuid writes one byte more than its hint of 36 |
| Elements.ManyForward | protocol/src/netty.rs:347-349 | `n` elements read by a forward reader end inside the buffer |
| Elements.ManySnoc | protocol/src/netty.rs:347-349 | one more element read extends the result by that element |
| Elements.ManyStopsAtError | protocol/src/netty.rs:347-349 | the first failing element is the error of the whole read; no partial result is returned |
| Elements.EmitConcat | protocol/src/netty.rs:359-361 | writing `ys` then `zs` is writing `ys + zs`, errors included |
| Elements.ManyRoundTrip | protocol/src/netty.rs:341-361 | elements that a successful write emitted read back in order, and their bytes are consumed |
| Elements.ReadMany | protocol/src/netty.rs:347-349 | the read loop returns what `ParseMany` returns, and advances the cursor to its end |
| Elements.WriteItems | protocol/src/netty.rs:359-361 | the write loop appends what `EmitAll` says, and stops at the first failure |
| NettySeq.VecBytesFit | protocol/src/netty.rs:357-358 | below 2^32 elements the count is the length itself |
| NettySeq.VecRoundTrip | protocol/src/netty.rs:341-363 | a vector written successfully reads back, and all its bytes are consumed |
| NettySeq.VecFirstError | protocol/src/netty.rs:347-349 | a failing element ends the vector read with its error |
| NettySeq.VecWriteError | protocol/src/netty.rs:359-361 | a failing element write ends the vector write with its error, after the count and the earlier elements |
| NettySeq.WriteVec | protocol/src/netty.rs:356-363 | appends `Var(len as u32)` then the elements, and returns their outcome |
| NettySeq.ReadVec | protocol/src/netty.rs:345-350 | returns what `ParseVec` returns, and advances the cursor to its end |
| NettySeq.CountedRoundTrip | protocol/src/netty.rs:379-410 | a counted vector written successfully reads back, and its bytes are consumed |
| NettySeq.WriteCounted | protocol/src/netty.rs:404-410 | appends the `C` count then the elements, or fails before writing |
| NettySeq.ReadCounted | protocol/src/netty.rs:385-394 | returns what `ParseCounted` returns, and advances the cursor to its end |
| NbtCodec.TagId | nbt/src/list.rs:63 | every tag byte is at most 12 |
| NbtCodec.TagOfInverts | nbt/src/list.rs:140 | the bytes 0 to 12 name the tags one to one, and no other byte names a tag |
| NbtCodec.TagRoundTrip | nbt/src/list.rs:140 | a tag's byte reads back as the tag |
| NbtCodec.ReadTag | nbt/src/list.rs:140 | returns what `ParseTag` returns, and advances one byte |
| NbtCodec.NumCodecRoundTrip | nbt/src/list.rs:153-157 | every value of a number type round-trips through its codec, and the reader moves forward |
| NbtCodec.CountRoundTrip | nbt/src/list.rs:89 | a count below 2^31 is four bytes and reads back |
| NbtCodec.CountLimits | nbt/src/list.rs:89 | the count fails on exactly 2^31 or more, writing nothing. A negative count read fails `usize::try_from` |
| NbtCodec.Counted32RoundTrip | nbt/src/list.rs:69 | a counted run written successfully reads back, and its bytes are consumed |
| NbtCodec.Counted32Forward | nbt/src/list.rs:153 | a counted run of a forward reader ends inside the buffer, after the count |
| NbtCodec.ParseSlice32 | nbt/src/list.rs:148 | a counted byte slice read ends inside the buffer, after the count |
| NbtCodec.SliceRoundTrip | nbt/src/list.rs:91 | byte slices round-trip, and their reader moves forward |
| NbtCodec.SliceBytesRoundTrip | nbt/src/list.rs:64 | a counted byte slice written successfully reads back |
| NbtCodec.ArrayRoundTrip | nbt/src/list.rs:115 | an array of values of the type round-trips |
| NbtCodec.ArraysRoundTrip | nbt/src/list.rs:111-118 | a counted run of such arrays written successfully reads back |
| NbtCodec.ArrayForward | nbt/src/list.rs:169 | the array reader moves forward |
| NbtCodec.ReadNumber | nbt/src/list.rs:142 | returns what `ParseNumber` returns, and advances `size_of` bytes |
| NbtCodec.ReadCount | nbt/src/list.rs:160 | returns what `ParseCount` returns, and advances four bytes |
| NbtCodec.WriteCount | nbt/src/list.rs:89 | appends the `i32` count, or fails before writing |
| NbtCodec.WriteCounted32 | nbt/src/list.rs:69 | appends the count then the elements, and returns their outcome |
| NbtCodec.ReadCounted32 | nbt/src/list.rs:153 | returns what `ParseCounted32` returns, and advances to its end |
| NbtCodec.WriteSlice32 | nbt/src/list.rs:64-65 | appends the count then the bytes |
| NbtCodec.ReadSlice32 | nbt/src/list.rs:148 | returns what `ParseSlice32` returns, and advances past the slice |
| NbtList.SignedOfUnsigned | nbt/src/list.rs:64 | every `i8` sequence survives the reinterpretation as `u8` and back |
| NbtList.UnsignedOfSigned | nbt/src/list.rs:150 | every byte sequence survives the reinterpretation as `i8` and back |
| NbtList.SignedBytesExample | nbt/src/list.rs:64 | `[-1, 0, 1]` is the bytes `[0xFF, 0, 1]`, and back |
| NbtList.ParseList | nbt/src/list.rs:139-172 | a successful decode consumes at least the tag and ends inside the buffer |
| NbtList.ParseBody | nbt/src/list.rs:140-171 | a successful payload decode ends inside the buffer |
| NbtList.ParseLists | nbt/src/list.rs:167 | `n` nested lists read in a row end inside the buffer |
| NbtList.ListRoundTrip | nbt/src/list.rs:59-172 | a valid list written successfully decodes to itself, with `Byte` lists borrowed, and all its bytes are consumed. This includes empty typed lists and `Invalid` |
| NbtList.BodyRoundTrip | nbt/src/list.rs:61-171 | each payload written successfully decodes under its tag |
| NbtList.ByteBodyRoundTrip | nbt/src/list.rs:147-152 | a `Byte` payload decodes to the same `i8`s, borrowed |
| NbtList.ShortBodyRoundTrip | nbt/src/list.rs:153 | a `Short` payload decodes to the same values |
| NbtList.IntBodyRoundTrip | nbt/src/list.rs:154 | an `Int` payload decodes to the same values |
| NbtList.LongBodyRoundTrip | nbt/src/list.rs:155 | a `Long` payload decodes to the same values |
| NbtList.FloatBodyRoundTrip | nbt/src/list.rs:156 | a `Float` payload decodes to the same bit patterns |
| NbtList.DoubleBodyRoundTrip | nbt/src/list.rs:157 | a `Double` payload decodes to the same bit patterns |
| NbtList.ByteArrayBodyRoundTrip | nbt/src/list.rs:158 | a `ByteArray` payload decodes to the same slices |
| NbtList.StringBodyRoundTrip | nbt/src/list.rs:159-166 | a `String` payload decodes to the same strings |
| NbtList.CompoundBodyRoundTrip | nbt/src/list.rs:168 | a `Compound` payload decodes to the same compounds |
| NbtList.IntArrayBodyRoundTrip | nbt/src/list.rs:169 | an `IntArray` payload decodes to the same arrays |
| NbtList.LongArrayBodyRoundTrip | nbt/src/list.rs:170 | a `LongArray` payload decodes to the same arrays |
| NbtList.InvalidBodyRoundTrip | nbt/src/list.rs:141-146 | the `0u32` after tag `End` decodes as `Invalid` |
| NbtList.NestedBodyRoundTrip | nbt/src/list.rs:167 | a list of lists decodes to its lists, decoded |
| NbtList.ListsRoundTrip | nbt/src/list.rs:105 | nested lists written one after the other read back in order |
| NbtList.InvalidEncoding | nbt/src/list.rs:127-130 | `Invalid` is written as the five bytes `00 00 00 00 00` |
| NbtList.PayloadIsCounted | nbt/src/list.rs:62-126 | every typed variant writes its element count first, then its elements with no tags of their own: bytes as one two's-complement byte each, fixed-width numbers as `size_of` big-endian bytes at stride `size_of` (element i at offset `size_of * i`), and every other kind as its elements' own encodings in turn, stopping at the first failure |
| NbtCodec.NumsLayout | nbt/src/list.rs:67-86 | writing a run of numbers never fails and puts element i at offset `size_of * i`, `size_of` big-endian bytes long, with nothing between |
| NbtList.ListFraming | nbt/src/list.rs:62-130 | every list starts with its tag byte, once. A length of 2^31 or more fails right after the tag. Otherwise the next four bytes are the count |
| NbtList.InvalidFrame | nbt/src/list.rs:127-130 | the bytes after `Invalid`'s tag read as the count 0 |
| NbtList.TagRule | nbt/src/list.rs:140 | no byte left is `Io`; a byte above 12 is an unknown tag |
| NbtList.EndTagRule | nbt/src/list.rs:141-146 | after tag `End`, an `i32` above 0 is `Custom("TAG_End in List")`; 0 or below is `Invalid` after five bytes |
| NbtList.NegativeCount | nbt/src/list.rs:153-170 | under every other tag a negative count is refused with the `try_from` error |
| NbtList.StringListReads | nbt/src/list.rs:159-166 | under tag `String`, exactly `count` strings are read in order. The first failure is the list's error |
| NbtList.ByteListBytes | nbt/src/list.rs:62-66 | the `Byte` list `[-1, 0, 1]` is written as `01 00 00 00 03 FF 00 01` |
| NbtList.ByteListParses | nbt/src/list.rs:147-152 | those bytes decode to `[-1, 0, 1]`, borrowed, consuming all 8 |
| NbtList.ToStaticIsStatic | nbt/src/list.rs:21-39 | `to_static` leaves nothing borrowed, and changes nothing in a list that borrows nothing |
| NbtList.ToStaticKeeps | nbt/src/list.rs:21-39 | `to_static` keeps the variant, the length, validity and the encoding |
| NbtList.ToStaticAllKeeps | nbt/src/list.rs:33 | `to_static` on nested lists keeps their encoding |
| NbtList.ToStaticOfDecoded | nbt/src/list.rs:21-39 | decoding and `to_static` change only who owns the bytes, never the contents |
| NbtList.EncodeList | nbt/src/list.rs:59-133 | appends what `ListBytes` says, and returns its outcome |
| NbtList.EncodePayload | nbt/src/list.rs:61-131 | appends the payload of each variant, including the explicit loops of `ByteArray`, `String`, `IntArray` and `LongArray` |
| NbtList.EncodeNested | nbt/src/list.rs:103-106 | appends the count then the nested lists, or fails before writing them |
| NbtList.EncodeLists | nbt/src/list.rs:105 | appends the nested lists in order, and stops at the first failure |
| NbtList.DecodeList | nbt/src/list.rs:139-172 | returns what `ParseList` returns, and advances the cursor to its end |
| NbtList.DecodeBody | nbt/src/list.rs:140-171 | returns what `ParseBody` returns for the tag read, and advances to its end |
| NbtList.DecodeNested | nbt/src/list.rs:167 | returns what `ParseNested` returns, and advances to its end |
| NbtList.DecodeLists | nbt/src/list.rs:167 | reads `n` nested lists in order, as `ParseLists` does |

## Left out

- Wire.Cursor.ReadExact: the cursor position after a failed read is left unspecified. This goes for every reader built on it, because the standard library has moved the cursor differently on end of input from version to version.
- Sinks that fail: the `Writer` never fails, so `WriteError::IoError` from the sink is not modelled, and neither is `encode::Error` from a failing NBT writer.
- Arithmetic follows a build with overflow checks on (a debug build). In a release build `<<` masks its shift amount and `+=` wraps instead of panicking. A `Var<i32>` read of `80 80 80 80 80 00` then returns `Ok(0)` after six bytes where the model panics, and the silent stop at `var_size` becomes reachable. NettyNum.VarLoopStops and NettyNum.VarTruncated state the checked behaviour only.
- Rust panics are modelled as the error `ReadError.Panic(cause)` and are not left to crash. The causes are:
  - a shift by the accumulator's width or more in the `Var` read;
  - a `+=` overflow, proved unreachable;
  - `len as usize` of a negative `i32`;
  - a range index past the end.
- The derived `Handshake0` and `AnimationId0` impls and the `testsss` test: their code is generated by the derive macro, which is not part of this model.
- `Count<T, C>` has no impls in the file, so it has nothing to model.
- NettySeq.ParseCounted: `C` ranges over the fixed-width numbers with `Into<usize>`, `u8` and `u16`; `usize` itself has no reader in the file. The writer `CountedBytes` takes any fixed-width number, as `C: TryFrom<usize>` does. The conversion error of `C::try_from` is a parameter `tooLarge`.
- NettySeq.VecBytes: the count `len as u32` wraps for 2^32 or more elements. The round trip is proved below that.
- `Uuid::from_str` belongs to the `uuid` crate and is a parameter of `ParseUuid`. The hyphenated form is modelled byte for byte.
- UTF-8 is modelled as the well-formedness rules of `std::str::from_utf8`. The error values carry no position.
- Floats (`f32`, `f64`, `Float` and `Double` lists) are unsigned bit patterns of 4 and 8 bytes, with no numeric meaning.
- `NbtTag`, `Counted<_, i32>`, `Mutf8` and `Compound` live elsewhere in the nbt crate and are not part of this model:
  - tags are the bytes 0 to 12 of the NBT format;
  - `Counted<_, i32>` is a big-endian `i32` count then the elements. Its reader is assumed to refuse a negative count with the `usize::try_from` error (`ParseCount`), as the `String` branch visibly does at nbt/src/list.rs:160. For the other variants NbtList.NegativeCount rests on that assumption;
  - `Mutf8` and `Compound` are parameters of the list codec. The round trip assumes of them that their readers move forward and return what their writers wrote.
- NbtList.ListRoundTrip: it holds for valid lists, whose numbers fit their types. Decoding returns the `Byte` list borrowed where it may have been owned, so the result is `Decoded(l)`, equal to `l` up to ownership.
- Only `Byte` lists carry ownership (`Cow`). The `Cow` of `ByteArray` slices and of `String` elements is not modelled, since it changes no bytes.
- `into_static` gives the same value as `to_static`; the model has the one function `ToStatic` for both. Moving instead of cloning is not visible in values.
- The decode errors keep the names the list codec needs: `Io`, `UnknownTag`, `Custom`, `TryFromInt`. Their payloads (an `io::Error`, the conversion error) are not modelled.
- The nested `List(Vec<List>)` payload is encoded and decoded by recursive methods, where the source runs `Counted`'s loop over the elements.

## Findings

| source | as written | input that shows it | evidently intended | confidence | as-written member | corrected member |
|---|---|---|---|---|---|---|
| protocol/src/netty.rs:442 | `&[u8]::read` (and `Cow<[u8]>::read`, line 462) slices `[0..len]`, from the start of the buffer rather than from the cursor | the slice `[7]` written as `[1, 7]` reads back as `[1]` | `[pos..pos + len]`, the bytes after the count | high; not executed | NettyStr.SliceAsWrittenReadsCount | NettyStr.SliceRoundTrip |
| protocol/src/netty.rs:281-287 | `&str::read` never moves the cursor past the text | two `&str` fields "a", "b" as `[1, 0x61, 1, 0x62]`: the second read starts on `0x61` and panics slicing 97 bytes | set the position to the end of the text, as `Cow<str>::read` does | high; not executed | NettyStr.StrRefSecondFieldPanics | NettyStr.CowStrSecondField |
