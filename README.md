# instructor, modelled in Dafny

`instructor` is a Rust crate for reading and writing binary protocol headers. A type is decoded
from a byte buffer with `Exstruct::<E>::read_from_buffer` and encoded into a byte sink with
`Instruct::<E>::write_to_buffer`, where `E` is one of two byte orders, `LittleEndian` or
`BigEndian`. Structs and enums get their codecs from two derive macros. A struct may pack several
narrow fields into one integer register: a field marked `bitfield(T)` opens a register of type
`T`, and each field marked `bits(a..b)` lives in bits `a..b` of it.

This project models:

- the byte orders and `map_index` (`Endianness`);
- integer byte conversions, including two's complement for signed types (`Ints`);
- the read buffer and the write sink (`Buffers`);
- the primitive and composite codecs (`Unpack`, `Pack`, `Readers`) and their round trips (`RoundTrip`);
- the shift/mask/OR arithmetic of `BitStorage::extract` and `insert` (`BitStorage`, over `Bitwise`);
- the `BitBuffer` register buffer (`Bitfield`);
- `Length<T, OFFSET>`, `Limit` and `u24` (`Utils`);
- what the derive macros generate (`Derive`, `DeriveUnpack`, `DerivePack`). The generated code is an abstract list of statements, not tokens.
- interpreters that run those statement lists against the codec (`UnpackRun`, `PackRun`);
- the crate's example byte stream, decoded by the derived decoders (`Example`). The example's types derive only the decoder. `ExampleEncode` runs the plan `derive_pack` would produce for the same field lists, as a check on that plan; the example itself never encodes.

Bytes are naturals below 256 (`Ints.Byte`). Integers are unbounded, and every integer type's
range is stated explicitly through `Ints.InRange`. `usize` and `isize` are taken to be 64 bits
wide. A buffer the code mutates in place is a class:

- `Buffers.ByteCursor`, `Buffers.ByteSink`, `Bitfield.BitBuffer` and `Utils.Limit`.
- Each class's methods are proved against a functional `Buffers.Source`, through `CopyOut` and `Remaining`.
- The decoders and encoders are functions (`Unpack.Decode`, `Pack.Encode`) over that source.
- The methods in `Readers` and `Pack.Write*` run them on the classes.

`Decode` runs over three kinds of source: a byte cursor, a `BitBuffer` window and a `Limit`.

Panics and `debug_assert!`s of the code are preconditions. Examples are a bit range that `extract`
rejects, or a slice longer than a register. In the statement interpreters they become the `Stuck`
outcome.

Where the crate's own description and its code differ, the model follows the code:

- Only integers, `[u8; N]`, `()`, `Length`, `u24` and repr enums implement `Exstruct` in the code. `bool`, `Vec<T>`, `Bytes` and tuples are encode-only here (`Types.Decodable`).
- `Limit::skip` does not advance the inner buffer (see Findings).
- The read method is called `try_copy_to_slice`, as in `bitfield.rs` and `utils.rs`. `buffer.rs` still names it `copy_to_slice`, and the model treats the two as the same operation.

## Model

| member | source | states |
|---|---|---|
| Endianness.MapIndex | instructor/src/lib.rs:41-51 | little endian gives `0..n` and big endian `(m-n)..m` (which needs n <= m); both have length n and lie inside `0..m` |
| Endianness.MapIndexAgree | instructor/src/lib.rs:41-51 | the two orders select ranges of equal length, and the same range exactly when n == m |
| Endianness.Resolve | instructor-derive-internals/src/unpack.rs:72-78 | a fixed `endian` attribute fixes the only byte order the derived impl exists at, and the impl reads and writes in that order; a generic impl uses the caller's E |
| Ints.Pattern | instructor/src/unpack.rs:39 | the two's-complement bit pattern of a value is below 2^(8·size) and congruent to it |
| Ints.FromPattern | instructor/src/unpack.rs:39 | the value with a given pattern is in the type's range and congruent to the pattern |
| Ints.FromPatternOfPattern | instructor/src/unpack.rs:39 | pattern then value is the identity on every value of every integer type |
| Ints.PatternOfFromPattern | instructor/src/unpack.rs:39 | value then pattern is the identity on every pattern |
| Ints.FromLeBytes | instructor/src/unpack.rs:49-56 | `from_le_bytes` yields a value of the type |
| Ints.FromBeBytes | instructor/src/unpack.rs:58-65 | `from_be_bytes` yields a value of the type |
| Ints.FromLeOfToLe | instructor/src/pack.rs:115-122 | `from_le_bytes(to_le_bytes(v)) == v` for every value |
| Ints.ToLeOfFromLe | instructor/src/unpack.rs:49-56 | `to_le_bytes(from_le_bytes(b)) == b` for every array of the type's size |
| Ints.FromBeOfToBe | instructor/src/pack.rs:124-131 | `from_be_bytes(to_be_bytes(v)) == v` for every value |
| Ints.ToBeOfFromBe | instructor/src/unpack.rs:58-65 | `to_be_bytes(from_be_bytes(b)) == b` for every array of the type's size |
| Ints.FromBeIsFromLeReversed | instructor/src/unpack.rs:49-65 | the big-endian value of an array is the little-endian value of the reversed array |
| Ints.ToBeIsToLeReversed | instructor/src/pack.rs:115-131 | the big-endian bytes of a value are its little-endian bytes reversed |
| Ints.LeValueOfLeBytes | instructor/src/pack.rs:115-122 | reading back the n little-endian bytes of v < 256^n gives v |
| Ints.BeValueOfBeBytes | instructor/src/pack.rs:124-131 | reading back the n big-endian bytes of v < 256^n gives v |
| Ints.LeBytesOfLeValue | instructor/src/unpack.rs:49-56 | writing back the little-endian value of any byte sequence gives the same bytes |
| Ints.BeBytesOfBeValue | instructor/src/unpack.rs:58-65 | writing back the big-endian value of any byte sequence gives the same bytes |
| Ints.BeBytesSuffix | instructor/src/utils.rs:208-215 | the last k big-endian bytes of a value below 256^k are its k-byte encoding |
| Buffers.CopyOut | instructor/src/buffer.rs:35-41 | a copy fails only with `TooShort`, and on success returns exactly n bytes and a source of the same kind |
| Buffers.CopyOutRemaining | instructor/src/buffer.rs:36-40 | on a consuming source, a copy fails iff `remaining() < n`, and success lowers `remaining()` by exactly n |
| Buffers.CopyOutPrefix | instructor/src/buffer.rs:39-40 | a cursor over `a + b` hands out a and leaves b |
| Buffers.CopyOutBits | instructor/src/bitfield.rs:85-94 | a register read fails iff more bytes are asked than the register has, returns the last n bytes of the extracted window, and leaves the source unchanged |
| Buffers.ByteCursor.constructor | instructor/src/buffer.rs:34 | a fresh cursor stands at the start of its bytes |
| Buffers.ByteCursor.Remaining | instructor/src/buffer.rs:43-45 | `remaining()` is the exact number of unread bytes |
| Buffers.ByteCursor.TryCopyToSlice | instructor/src/buffer.rs:35-41 | fails with `TooShort` iff fewer bytes remain than the slice holds, changing nothing; otherwise fills exactly `buf[lo..hi]` with the next bytes and advances past them, as `CopyOut` says |
| Buffers.ByteSink.constructor | instructor/src/pack.rs:8 | the sink stands for the `B: BufferMut` buffer that `write_to_buffer` writes into; a new one is empty |
| Buffers.ByteSink.ExtendFromSlice | instructor/src/pack.rs:11-16 | `extend_from_slice` appends all of its slice and never fails |
| Unpack.ReadPrimitive | instructor/src/unpack.rs:49-65 | little endian is `from_le_bytes`, big endian `from_be_bytes`, each a value of the type |
| Unpack.ReadPrimitiveReversed | instructor/src/unpack.rs:49-65 | the two orders read the same value from reversed arrays |
| Unpack.DecodeInt | instructor/src/unpack.rs:29-33 | an integer decode returns a value of the type and a source of the same kind |
| Unpack.Decode | instructor/src/buffer.rs:9-15 | `read::<T, E>()` returns a value of type T and a readable source of the same kind, or an error |
| Unpack.DecodeByteArray | instructor/src/unpack.rs:10-17 | `[u8; N]` yields the next N bytes and consumes them, or fails exactly when the copy fails |
| Unpack.DecodeUnit | instructor/src/unpack.rs:19-24 | `()` always succeeds and consumes nothing |
| Unpack.DecodePrimRemaining | instructor/src/unpack.rs:26-39 | an integer decode fails with `TooShort` iff fewer than `size_of::<T>()` bytes remain, and otherwise consumes exactly that many |
| Unpack.DecodeLength | instructor/src/utils.rs:30-40 | `Length` decode propagates T's error, fails `InvalidValue` when the value is no usize, succeeds iff the bytes left equal value + OFFSET (saturating), and fails `UnexpectedLength` otherwise |
| Unpack.Splice | instructor/src/utils.rs:141-142 | three bytes copied into a zeroed `[u8; 4]` at an offset occupy exactly that slice |
| Unpack.U24Bound | instructor/src/utils.rs:138-144 | the u24 decoder reads at most `u24::MAX`: the value of the three bytes in the chosen order |
| Unpack.FirstMatch | instructor-derive-internals/src/unpack.rs:121-124 | the first variant whose discriminant equals the value read, if any |
| Unpack.DefaultIndex | instructor-derive-internals/src/unpack.rs:98-103 | the first variant marked default, if any |
| Unpack.SelectVariant | instructor-derive-internals/src/unpack.rs:112-124 | the matching variant, else the default one, else `InvalidValue`, which happens iff neither exists |
| Pack.WritePrimitive | instructor/src/pack.rs:115-131 | little endian is `to_le_bytes`, big endian `to_be_bytes`, `size_of::<T>()` bytes either way |
| Pack.WritePrimitiveReversed | instructor/src/pack.rs:115-131 | the two orders write reversed arrays |
| Pack.EncodePrim | instructor/src/pack.rs:91-104 | an integer appends exactly `size_of::<T>()` bytes, E's `WritePrimitive` of it |
| Pack.EncodeBytes | instructor/src/pack.rs:11-35 | `[u8; N]` and `Bytes` append exactly their bytes; `()` appends nothing |
| Pack.EncodeBool | instructor/src/pack.rs:23-28 | `bool` appends one byte, 1 for true and 0 for false |
| Pack.EncodeVec | instructor/src/pack.rs:37-44 | an empty `Vec` appends nothing; one more item at the end appends that item's encoding |
| Pack.EncodeTuple | instructor/src/pack.rs:46-89 | a tuple appends its components' encodings in declared order |
| Pack.EncodeLength | instructor/src/utils.rs:43-51 | `Length` writes its inner value as T and nothing else; two offsets give the same bytes |
| Pack.EncodeIntEnum | instructor-derive-internals/src/pack.rs:115-125 | a repr enum writes the variant's discriminant as the repr integer, in the enum's byte order |
| Pack.EncodeDataEnum | instructor-derive-internals/src/pack.rs:142-168 | a data enum writes the active variant's fields in declared order; a unit variant writes nothing |
| Pack.EncodeU24 | instructor/src/utils.rs:147-152 | a u24 writes exactly three bytes |
| Pack.Write | instructor/src/pack.rs:4-9 | `write_to_buffer` into a byte sink appends exactly `Encode(t, e, v)` |
| Pack.WriteEach | instructor/src/pack.rs:37-44 | the `for item in self` loop appends the items' encodings in order |
| Pack.WriteAll | instructor/src/pack.rs:46-89 | writing components one after another appends their concatenated encodings |
| Readers.ReadArray | instructor/src/unpack.rs:10-17 | fills a fresh array from the cursor; fails with `TooShort` and no movement exactly when `CopyOut` fails, otherwise returns and consumes what `CopyOut` says |
| Readers.ReadInt | instructor/src/unpack.rs:29-33 | reads the raw bytes and converts them with E; agrees with `DecodeInt` on result, error and cursor position |
| Readers.ReadLength | instructor/src/utils.rs:30-40 | reads T, converts it to usize, checks the framing; agrees with `Decode` of `Length` on result, error and cursor |
| Readers.ReadU24 | instructor/src/utils.rs:138-144 | fills the `map_index(3, 4)` slice of a zeroed `[u8; 4]` and reads E's u32; agrees with `Decode` of `U24` |
| Readers.ReadEnum | instructor-derive-internals/src/unpack.rs:116-127 | reads the repr integer and matches it; agrees with `Decode` of the enum |
| Readers.Read | instructor/src/buffer.rs:9-15 | `read::<T, E>()` on a cursor agrees with `Decode(T, E)` on result, error and cursor position |
| RoundTrip.ReadOfWrite | instructor/src/unpack.rs:49-65 | reading what `WritePrimitive` wrote under the same order gives the integer back |
| RoundTrip.WriteOfRead | instructor/src/pack.rs:115-131 | every array of the right size is the encoding of what it reads as |
| RoundTrip.U24Splice | instructor/src/utils.rs:147-152 | the u32 encoding of a value up to `u24::MAX` has a zero in the byte u24 drops, so splicing back the three written bytes rebuilds it |
| RoundTrip.U24RoundTrip | instructor/src/utils.rs:138-152 | u24 moves exactly three bytes and round-trips every value up to `u24::MAX` in both orders |
| RoundTrip.FirstMatchOwn | instructor-derive-internals/src/unpack.rs:104-106 | with distinct discriminants, each variant's own discriminant selects it |
| RoundTrip.DecodeEncode | instructor/src/buffer.rs:9-15 | decode(encode(v)) == v for every decodable type, consuming exactly the encoding and leaving any following bytes |
| RoundTrip.EncodeDecode | instructor/src/buffer.rs:9-15 | encode(decode(b)) is the prefix of b the decode consumed (for enums, when a declared variant matched) |
| RoundTrip.EncodeDecodePrim | instructor/src/unpack.rs:29-33 | re-encoding a decoded integer gives the bytes it consumed |
| RoundTrip.EncodeDecodeLength | instructor/src/utils.rs:30-50 | re-encoding a decoded `Length` gives the bytes it consumed |
| RoundTrip.EncodeDecodeU24 | instructor/src/utils.rs:138-152 | re-encoding a decoded u24 gives the three bytes it consumed |
| RoundTrip.EncodeDecodeEnum | instructor-derive-internals/src/unpack.rs:116-127 | re-encoding an enum decoded through a matching arm gives the discriminant bytes read |
| RoundTrip.DefaultFallbackIsLossy | instructor-derive-internals/src/unpack.rs:112-114 | when no discriminant matches, the default variant is returned and re-encodes to its own discriminant, not the bytes read |
| Utils.SatAddSigned | instructor/src/utils.rs:37 | `saturating_add_signed`: the exact sum inside `0..=usize::MAX`, else 0 or `usize::MAX` |
| Utils.LengthNew | instructor/src/utils.rs:15-18 | `Length::new(len)` fails `InvalidValue` iff len does not fit T, and otherwise holds len |
| Utils.WithOffset | instructor/src/utils.rs:20-22 | `with_offset(len)` holds len − OFFSET, clamped to 0 below (always accepted) and to `usize::MAX` above; it fails, only with `InvalidValue`, exactly when that clamped length does not fit T |
| Utils.WithOffsetFrames | instructor/src/utils.rs:20-40 | a length built by `with_offset(n)` holds n − OFFSET and passes the decoder's framing check for n following bytes |
| Utils.U24New | instructor/src/utils.rs:132-135 | `u24::new` requires at most `u24::MAX` and holds the value |
| Utils.U24TryFrom | instructor/src/utils.rs:191-197 | `try_from` rejects exactly the u32 values above `u24::MAX` |
| Utils.LimitSkip | instructor/src/utils.rs:110-116 | `skip(n)` fails `TooShort` iff the budget is below n, and otherwise lowers only the budget; the inner buffer stays where it was |
| Utils.LimitSkipRereads | instructor/src/utils.rs:110-116 | after `skip(n)` on a cursor, the next n-byte read returns the very bytes that were skipped |
| Utils.LimitSkipExample | instructor/src/utils.rs:110-116 | four bytes `[1, 2, 3, 4]`, skip 2, read 2: the read yields `[1, 2]` |
| Utils.LimitSkipAdvancing | instructor/src/utils.rs:110-116 | the corrected skip lowers the budget by n and moves the inner buffer past n bytes, failing only with `TooShort` |
| Utils.LimitSkipAdvancingReads | instructor/src/utils.rs:110-116 | the corrected skip fails iff fewer than n bytes remain, lowers `remaining()` by n, and skip-n-then-read-m equals read-(n+m)-and-drop-n |
| Utils.Limit.constructor | instructor/src/utils.rs:95-97 | `Limit::new` wraps the buffer with the given budget |
| Utils.Limit.Remaining | instructor/src/utils.rs:118-120 | `remaining()` is `min(budget, inner.remaining())` |
| Utils.Limit.TryCopyToSlice | instructor/src/utils.rs:101-108 | `TooShort` with no effect when the budget is below the length; an inner failure leaves the budget unchanged; success fills the slice and lowers the budget by its length, as `CopyOut` of the limit says |
| Utils.Limit.Skip | instructor/src/utils.rs:110-116 | the method does what `LimitSkip` says: fails `TooShort` with no effect, or lowers only the budget |
| BitStorage.WindowBound | instructor/src/bitfield.rs:21-22 | `(reg >> start) & mask` is below 2^(end−start) |
| BitStorage.Extract | instructor/src/bitfield.rs:18-24 | `extract` returns register-width big-endian bytes whose value is `(reg >> start) mod 2^(end−start)` (u24 included) |
| BitStorage.Insert | instructor/src/bitfield.rs:26-32 | `insert` keeps a register inside its type |
| BitStorage.BitOfInsert | instructor/src/bitfield.rs:26-32 | after `insert`, bit i is set iff it was set before or it lies in `[start, end)` and is set in the inserted value; bits outside the window are unchanged |
| BitStorage.WindowOfInsert | instructor/src/bitfield.rs:26-32 | the window after `insert` is the old window ORed with the value masked to the window |
| BitStorage.ExtractOfInsert | instructor/src/bitfield.rs:17-32 | inserting into a clear window, then extracting it, gives the value masked to the window |
| BitStorage.InsertDisjoint | instructor/src/bitfield.rs:26-32 | an insert leaves every window disjoint from its own untouched |
| BitStorage.InsertNibbles | instructor/src/bitfield.rs:26-32 | on a u8, inserting 0x5 at `[0, 4)` and then 0xA at `[4, 8)` gives 0xA5 |
| BitStorage.InsertedValueIsBeValue | instructor/src/utils.rs:221 | the u24 insert reads `[0, v0, v1, v2]` as the big-endian value of the three bytes |
| BitStorage.InsertU24Bound | instructor/src/utils.rs:217-224 | the u24 insert keeps the value at most `u24::MAX` |
| Bitfield.RightJustify | instructor/src/bitfield.rs:106-113 | the slice lands at the end of a zeroed register-sized array, with the same big-endian value |
| Bitfield.ExtendAll | instructor/src/bitfield.rs:105-116 | a sequence of `extend_from_slice` calls keeps the register inside its type |
| Bitfield.ExtendAllKeepsBits | instructor/src/bitfield.rs:115 | `extend_from_slice` never clears a bit |
| Bitfield.ExtendAllOutside | instructor/src/bitfield.rs:105-116 | `extend_from_slice` leaves every bit outside the window as it was |
| Bitfield.DecodeIntFromBits | instructor/src/bitfield.rs:85-94 | an integer decoded from a register reads the last `size_of::<T>()` bytes of the extracted window and leaves the register as it was |
| Bitfield.BitsFieldRoundTrip | instructor/src/bitfield.rs:85-116 | writing an integer big-endian into a clear window and reading it back gives it cut to the window's width, so a value that fits comes back unchanged |
| Bitfield.BitBuffer.Init | instructor/src/bitfield.rs:54-59 | a buffer over a given register and remaining count, with an empty range |
| Bitfield.BitBuffer.Empty | instructor/src/bitfield.rs:66-73 | `empty()`: zero register, range 0..0, nothing remaining |
| Bitfield.BitBuffer.New | instructor/src/bitfield.rs:51-60 | `new` succeeds iff the register decodes from the source (failing with `TooShort`), consumes its encoding, holds that register, records the source's remaining count after the read, and starts at range 0..0 |
| Bitfield.BitBuffer.SetRange | instructor/src/bitfield.rs:76-79 | `set_range` changes only start and end |
| Bitfield.BitBuffer.Remaining | instructor/src/bitfield.rs:97-99 | `remaining()` is the count recorded by `new` |
| Bitfield.BitBuffer.TryCopyToSlice | instructor/src/bitfield.rs:85-94 | fails `TooShort` iff the slice is longer than the register; otherwise copies the last bytes of the extracted window, changing nothing but the slice |
| Bitfield.BitBuffer.ExtendFromSlice | instructor/src/bitfield.rs:105-116 | requires a slice no longer than the register; ORs it, right-justified, into the window and changes nothing else |
| Bitfield.BitBuffer.WriteLeaf | instructor-derive-internals/src/pack.rs:66-69 | a big-endian write of a one-chunk type into the buffer leaves the register as `ExtendAll` of its chunks says |
| Bitfield.BitBuffer.WriteToBuffer | instructor/src/bitfield.rs:119-122 | writing the buffer appends only its register, encoded with the outer byte order |
| Bitfield.DecodeStorageErr | instructor/src/bitfield.rs:51-60 | decoding a register fails only with `TooShort` |
| Bitfield.RegisterRoundTrip | instructor/src/bitfield.rs:119-122 | the register written by `write_to_buffer` is the one `new` reads back, with the following bytes left over |
| Types.StorageTy | instructor/src/bitfield.rs:39 | each register type is an unsigned integer of the register's width, or u24, and is decodable and encodable |
| Types.RegisterValue | instructor/src/bitfield.rs:119-122 | a register as a codec value of its storage type, standing for the same number |
| Types.RegisterOfValid | instructor/src/bitfield.rs:51-60 | a decoded register value is a valid register, and converting it back gives the same value |
| Derive.OpenIff | instructor-derive-internals/src/unpack.rs:33-55 | a group is open for field i iff some field j <= i opened one and every field from j to i − 1 carried a range |
| Derive.GroupStart | instructor-derive-internals/src/unpack.rs:33-39 | the field that opened the group open for field i, with every field from it up to i carrying a range |
| Derive.FirstOrphan | instructor-derive-internals/src/unpack.rs:40-49 | the first range at or after a position that has no open group |
| Derive.RangeAfterPlainField | instructor-derive-internals/src/unpack.rs:48-51 | a range right after a plain field, with no new `bitfield(T)`, is rejected |
| DeriveUnpack.StructPlan | instructor-derive-internals/src/unpack.rs:22-58 | the plan fails iff some range has no open group, and then names the first such field |
| DeriveUnpack.GenerateStructImpl | instructor-derive-internals/src/unpack.rs:22-58 | the loop with `bitfield_ident` produces exactly `StructPlan` |
| DeriveUnpack.FieldStmtsRead | instructor-derive-internals/src/unpack.rs:40-55 | the statements of field i read field i and no other |
| DeriveUnpack.ReadsInOrder | instructor-derive-internals/src/unpack.rs:57-71 | the generated decoder reads every field exactly once, in declaration order |
| DeriveUnpack.FieldStmtsRegisters | instructor-derive-internals/src/unpack.rs:33-39 | a field's statements read a register iff it carries `bitfield(T)` |
| DeriveUnpack.RegistersInOrder | instructor-derive-internals/src/unpack.rs:33-39 | one register read per `bitfield(T)`, in field order, and no other |
| DeriveUnpack.ArmsOf | instructor-derive-internals/src/unpack.rs:104-106 | arm i is `discriminant_i => variant i` |
| DeriveUnpack.FirstRejected | instructor-derive-internals/src/unpack.rs:92-103 | the first variant without a discriminant or second default |
| DeriveUnpack.EnumPlan | instructor-derive-internals/src/unpack.rs:89-115 | accepted iff every variant has a discriminant and at most one is default; otherwise the error names a variant without a discriminant or a second default |
| DeriveUnpack.GenerateEnumImpl | instructor-derive-internals/src/unpack.rs:89-129 | the loop over variants produces exactly `EnumPlan` |
| DeriveUnpack.FirstArm | instructor-derive-internals/src/unpack.rs:121-124 | the first arm whose pattern equals the value read |
| DeriveUnpack.EnumArmsSelect | instructor-derive-internals/src/unpack.rs:112-124 | the generated match selects the same variant (or `InvalidValue`) as the codec's enum decoder, for every value read |
| DeriveUnpack.DeriveUnpack | instructor-derive-internals/src/unpack.rs:6-20 | structs and repr enums go to their generators; an enum without repr and a union are rejected |
| DerivePack.StructPlan | instructor-derive-internals/src/pack.rs:41-88 | the plan fails iff some range has no open group, naming the first such field |
| DerivePack.GenerateStructImpl | instructor-derive-internals/src/pack.rs:41-103 | the loop with `bitfield_ident.take()` produces exactly `StructPlan` |
| DerivePack.EmitField | instructor-derive-internals/src/pack.rs:50-82 | one field's statements, or "bitfield range without bitfield" iff it has a range, opens no group, and none is open |
| DerivePack.PlanRejects | instructor-derive-internals/src/pack.rs:63-72 | the first range without an open group is the error |
| DerivePack.PlanAccepts | instructor-derive-internals/src/pack.rs:84-88 | without orphan ranges the plan is every field's statements followed by the closing flush |
| DerivePack.TrackField | instructor-derive-internals/src/pack.rs:51-82 | a field flushes any open group before opening a new one or writing to the outer buffer, and leaves a group open iff it has a range |
| DerivePack.TrackPrefix | instructor-derive-internals/src/pack.rs:44-83 | the statements of the first n fields keep that discipline and leave a group open iff one is open after field n − 1 |
| DerivePack.PlanFlushesEachGroup | instructor-derive-internals/src/pack.rs:84-88 | each opened group is flushed exactly once, before anything after it reaches the outer buffer, and none is open at the end |
| DerivePack.FieldStmtsWrite | instructor-derive-internals/src/pack.rs:63-82 | the statements of field i write field i and no other |
| DerivePack.WritesInOrder | instructor-derive-internals/src/pack.rs:44-83 | the generated encoder writes every field exactly once, in declaration order |
| DerivePack.FieldStmtsOpen | instructor-derive-internals/src/pack.rs:51-62 | a field's statements open a register iff it carries `bitfield(T)` |
| DerivePack.RegistersInOrder | instructor-derive-internals/src/pack.rs:51-62 | one group opened per `bitfield(T)`, in field order, and no other |
| DerivePack.FirstMissing | instructor-derive-internals/src/pack.rs:106-110 | the first variant without a discriminant |
| DerivePack.IntEnumPlan | instructor-derive-internals/src/pack.rs:105-110 | a repr enum is accepted iff every variant has a discriminant; otherwise the error names the first one without |
| DerivePack.GenerateIntEnumImpl | instructor-derive-internals/src/pack.rs:105-126 | the check loop produces exactly `IntEnumPlan` |
| DerivePack.FirstWithDiscriminant | instructor-derive-internals/src/pack.rs:130-133 | the first variant with a discriminant |
| DerivePack.ArmsOf | instructor-derive-internals/src/pack.rs:142-154 | arm i binds and writes as many fields as variant i has |
| DerivePack.DataEnumPlan | instructor-derive-internals/src/pack.rs:128-155 | a data enum is accepted iff no variant has a discriminant; otherwise the error names the first one with |
| DerivePack.GenerateDataEnumImpl | instructor-derive-internals/src/pack.rs:128-172 | the loop over variants produces exactly `DataEnumPlan` |
| DerivePack.ArmWritesPrefix | instructor-derive-internals/src/pack.rs:143-151 | an arm's writes of its first n bound fields are the encoding of those fields in order |
| DerivePack.DataArmEncodes | instructor-derive-internals/src/pack.rs:142-154 | the arm for the active variant writes exactly what the codec's data-enum encoder writes |
| DerivePack.DerivePack | instructor-derive-internals/src/pack.rs:7-22 | structs, repr enums and data enums go to their generators; a union is rejected |
| UnpackRun.DecodeKeepsRegister | instructor/src/bitfield.rs:85-99 | decoding from a `BitBuffer` leaves it unchanged |
| UnpackRun.Step | instructor-derive-internals/src/unpack.rs:33-55 | one generated statement, which keeps the source readable when it returns |
| UnpackRun.Run | instructor-derive-internals/src/unpack.rs:80-83 | the statements in order, which keep the source readable when they return |
| UnpackRun.RunAppend | instructor-derive-internals/src/unpack.rs:80-83 | running p then q runs q only if p returned; the first error (`?`) stops the decoder |
| UnpackRun.RunStops | instructor-derive-internals/src/unpack.rs:80-83 | when a prefix fails, the whole body fails in the same way |
| UnpackRun.ReadStep | instructor-derive-internals/src/unpack.rs:40-55 | a field's own read never gets stuck and, when it returns, has added one value of the field's type |
| UnpackRun.FieldStep | instructor-derive-internals/src/unpack.rs:33-55 | a field's statements never get stuck and, when they return, leave a state after one more field |
| UnpackRun.Prefix | instructor-derive-internals/src/unpack.rs:26-58 | the statements of the first n fields never get stuck and, when they return, leave n typed values and the right open group |
| UnpackRun.DecodeStructTyped | instructor-derive-internals/src/unpack.rs:76-84 | a derived struct decoder never gets stuck and, when it returns, has decoded one value of the declared type for every field, in order |
| PackRun.Step | instructor-derive-internals/src/pack.rs:53-81 | one generated statement; encoding never fails |
| PackRun.Run | instructor-derive-internals/src/pack.rs:97-99 | the statements in order; encoding never fails |
| PackRun.RunAppend | instructor-derive-internals/src/pack.rs:97-99 | running p then q runs q from where p left off |
| PackRun.OwnStep | instructor-derive-internals/src/pack.rs:63-82 | a field's own write, into the open register or the outer buffer, returns and leaves a state after one more field |
| PackRun.FieldStep | instructor-derive-internals/src/pack.rs:50-82 | a field's statements (flush, open, write) return and leave a state after one more field |
| PackRun.Prefix | instructor-derive-internals/src/pack.rs:44-83 | the statements of the first n fields return, with a valid register of the group's type open exactly while a group is open |
| PackRun.EncodeStructCompletes | instructor-derive-internals/src/pack.rs:84-88 | a derived struct encoder whose ranges fit runs to the end with no group left open |
| PackRun.PlainPrefix | instructor-derive-internals/src/pack.rs:73-82 | in a struct without bitfields, the first n fields append their encodings in order |
| PackRun.EncodePlainStruct | instructor-derive-internals/src/pack.rs:73-82 | a struct without bitfields encodes as the tuple of its fields, in the struct's byte order |
| Example.DecodeAcl | instructor/examples/derive.rs:20-31 | the ACL header bytes decode to handle 0x800, boundary flag 2, broadcast flag 0, length 10 |
| Example.DecodeL2cap | instructor/examples/derive.rs:33-38 | the L2CAP header bytes decode to len 6, cid 1 |
| Example.DecodeSignaling | instructor/examples/derive.rs:40-46 | the signaling header bytes decode to code 0x0A (`InformationRequest`), id 2, length 2 |
| Example.SignalingCode | instructor/examples/derive.rs:48-71 | the byte 0x0A selects the tenth variant of `SignalingCodes` |
| Example.DecodeExampleBytes | instructor/examples/derive.rs:6-12 | the three reads in turn consume four bytes each and leave `[0x02, 0x00]` |
| ExampleEncode.AclRegister | instructor/examples/derive.rs:23-29 | handle, boundary and broadcast flags OR into the u16 register 0x2800 |
| ExampleEncode.EncodeAcl | instructor/examples/derive.rs:20-31 | the struct-encoder plan `derive_pack` builds for the ACL field list writes the decoded header back to its four bytes (the example derives only the decoder) |
| ExampleEncode.EncodeL2cap | instructor/examples/derive.rs:33-38 | the struct-encoder plan for the L2CAP field list writes the decoded header back to its four bytes (the example derives only the decoder) |
| ExampleEncode.EncodeSignaling | instructor/examples/derive.rs:40-46 | the struct-encoder plan for the signaling field list writes the decoded header back to its four bytes (the example derives only the decoder) |

## Left out

- `f32` and `f64` codecs: floating point is not modelled.
- `usize` and `isize` are fixed at 64 bits. Their width really depends on the target platform.
- Attribute parsing (instructor-derive-internals/src/attr.rs is not part of this model). Its outputs are inputs to the plans: endian, repr, the default flag, and each field's bitfield and range.
- Token emission: `quote!`, the generic `<E>` header, and the print-only tests. The macros produce an abstract statement list, and the interpreters give it meaning.
- The bitflags branch of `derive_pack` (instructor-derive-internals/src/pack.rs:10-13, 24-39). It calls a foreign crate's `bits()`, and its destructuring of `parse_top_level_attributes` does not match attr.rs.
- `transmute_copy` of a repr enum is replaced by an explicit variant-to-discriminant map (`Pack.Discriminant`).
- The `DynBuffer` trait object under `Limit` is replaced by a concrete inner `ByteCursor`. The same holds for the methods `Bitfield.BitBuffer.New` and `Readers.*`: they take a `ByteCursor`, where `BitBuffer::new` and `read` are generic over `B: Buffer`. The functional `Unpack.Decode` and the interpreters' `Step` cover every kind of source (cursor, `BitBuffer`, `Limit`).
- `bytes::Buf`/`Bytes` internals are replaced by sequences.
- instructor/src/endian.rs and instructor/src/size.rs are not part of this model. Neither is in the crate's module list.
- `finish()` and the `TooLong` error: none of the modelled files raises `TooLong`, so it appears only as a constructor of `Errors.Error`.
- `NativeEndian` is not a wire order here. Decoders copy raw bytes without converting them, which is all the code does with it.
- `BufferMut` is re-exported at instructor/src/lib.rs:12; its definition is not part of this model. The sink is modelled as a byte sequence that `extend_from_slice` appends to.
- Full-width bit ranges for u8..u128 (`end - start == BITS`) are excluded by precondition: `1 << BITS` overflows the register type.
- `Vec<T>`, `bool`, `Bytes` and tuples have no decoder in the code, so only their encoders are modelled.
- Derived structs cannot nest in `Types.Ty`. A struct is a top-level statement plan whose record is the list of field values.
- Unit, named and tuple structs share one plan. The model does not build the `Self { .. }` / `Self(..)` record.
- Panics (`expect("Datatype exceeds size of bitfield")`, `debug_assert!`s, `u24::new`'s `assert!`) are preconditions, or the `Stuck` outcome in the interpreters.
- Utils.WithOffset: requires `OFFSET > isize::MIN`. For `OFFSET == isize::MIN`, `-OFFSET` overflows in `with_offset` (instructor/src/utils.rs:21), which panics in debug builds; that case is excluded by precondition and not modelled.
- Endianness.Resolve: a type with a fixed `endian` attribute has an `Exstruct`/`Instruct` impl only at that order (instructor-derive-internals/src/unpack.rs:78, instructor-derive-internals/src/pack.rs:95). Using it at the other order does not compile: as a field of a struct generic over E, or as a `bits(..)` field, which is read and written with `BigEndian`. The model does not reject such programs. `Decode`, `Encode` and the interpreters' `Step` read and write the type at its fixed order instead of returning `Stuck`.
- The example's 14 bytes carry a 2-byte payload after the signaling header. Only the 12 header bytes are written back through the encoder plans.
- The example's joined stream is decoded in one lemma (`Example.DecodeExampleBytes`). The encoder plans are run per header against the matching slice of those bytes. The example's types derive only the decoder, so these encodings are what `derive_pack` would generate for the same field lists, not code the example contains.
- Bitfield.BitsFieldRoundTrip: states the single-field round trip. A whole-struct encode-then-decode over bitfield groups is stated only for the example's ACL header (`Example.DecodeAcl` with `ExampleEncode.EncodeAcl`).
- PackRun.EncodeStructCompletes: assumes every range fits its register and every value's chunks fit the register. Where they do not, the generated code panics, and the model is `Stuck`.

## Findings

| source | as written | input that shows it | evidently intended | confidence | as-written member | corrected member |
|---|---|---|---|---|---|---|
| instructor/src/utils.rs:110-116 | `Limit::skip(n)` lowers only the budget and never advances the inner buffer | a `Limit` with budget 4 over `[1, 2, 3, 4]`: `skip(2)` then a 2-byte read yields `[1, 2]`, the skipped bytes | skip passes over n bytes of the inner buffer, as a read of n bytes would, so the next read yields `[3, 4]` | medium, not executed | Utils.LimitSkipRereads | Utils.LimitSkipAdvancingReads |
