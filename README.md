# arrow2 core: list arrays, native codecs, schemas, boolean iteration and the PLAIN binary page writer

This project is a Dafny model of five pieces of the arrow2 crate, an in-memory
columnar format library for Rust:

- `ListArray<O>` (`src/array/list/mod.rs`) is a list of lists over a child
  array. It has an offsets buffer, an optional validity mask, and a logical
  data type that must be `List` for 32-bit offsets or `LargeList` for 64-bit
  offsets. It is modelled as a class `ListArrays.ListArray` whose fields the
  slicing methods update in place. The offset width is the constant
  `isLarge`.
- The physical types of `src/types/native.rs`:
  - `days_ms` and `months_days_ns`, with their little- and big-endian byte
    layouts and their negation;
  - `i256`, with its word constructor, its negation and its byte
    conversions.

  The `new` functions and the accessors are the datatype constructors and
  destructors. `to_le_bytes`, `to_be_bytes` and the `days_ms` and
  `months_days_ns` decoders copy bytes index by index into fixed-size
  buffers. They are modelled as methods over arrays, each proved equal to a
  specification function. The `i256` decoders use `split_at` and
  `try_into`, with no copying loop, so they are modelled as the functions
  `Native.I256FromBe` and `Native.I256FromLe`. The round-trip lemmas are
  proved about the specification functions.
- `Schema` (`src/datatypes/schema.rs`): `with_metadata`, `filter` and
  `From<Vec<Field>>` as pure functions.
- The iterators of `BooleanArray` and `MutableBooleanArray`
  (`src/array/boolean/iterator.rs`). Each is a nullable view that pairs each
  value with its validity bit, plus the raw value bits.
- `array_to_page_v1` for binary columns (`src/io/parquet/write/binary.rs`)
  writes one Parquet data page (format version 1):
  - the definition levels;
  - then each value in the PLAIN encoding of BYTE_ARRAY (a 4-byte
    little-endian length followed by the bytes);
  - then optional compression, and the page header.

  It is an imperative method that appends to a buffer in loops. It is proved
  against a specification function of the page body. Separate lemmas prove
  that the PLAIN body decodes back to the values, and that the validity mask
  plus the decoded body give back the nullable view.

Supporting modules:

| module | contents |
|---|---|
| `Wrappers` | `Option` and `Result` |
| `Bytes` | Rust's integer-to-byte conversions as base-256 digit strings with two's complement |
| `DataTypes` | the logical types and fields the list array and the schema inspect |
| `Nullable` | `zip_validity` and the count of unset bits that the iterators and the page writer use |

## Model

| member | source | states |
|---|---|---|
| `ListArrays.TryCheckOffsetsBounds` | src/array/list/mod.rs:47 | succeeds exactly when the last offset is at most the child's length; otherwise the error is the offsets-out-of-bounds error |
| `ListArrays.TryGetChild` | src/array/list/mod.rs:211-223 | succeeds exactly when the logical type is `LargeList` for 64-bit offsets or `List` for 32-bit offsets, and then yields that type's inner field; otherwise the error is the not-a-list error |
| `ListArrays.GetChildField` | src/array/list/mod.rs:204-206 | the inner field of the logical list type |
| `ListArrays.GetChildType` | src/array/list/mod.rs:228-230 | the data type of the inner field of the logical list type |
| `ListArrays.DefaultDatatype` | src/array/list/mod.rs:192-199 | `LargeList` exactly for 64-bit offsets, and `List` otherwise; the child field is a nullable field named "item" of the given type; the opposite offset width rejects it |
| `ListArrays.TryNewCheck` | src/array/list/mod.rs:41-72 | succeeds exactly when the list invariant holds. The error tells which check failed first, in source order: the last offset past the child; then a validity length that differs from the slot count; then not a list type of the right width; then a child type that differs from the child's type. Both directions are given for the last two errors |
| `ListArrays.ListArray.TryNew` | src/array/list/mod.rs:41-72 | returns an error (never panics) exactly when a check fails, and it is that check's error; on success the new array holds the four inputs unchanged, satisfies the invariant, and has `len() == offsets.len() - 1` |
| `ListArrays.ListArray.New` | src/array/list/mod.rs:84-91 | given inputs that pass the checks, stores them unchanged and satisfies the invariant |
| `ListArrays.ListArray.NewEmpty` | src/array/list/mod.rs:94-97 | length 0, no validity, and an empty child of the declared child type |
| `ListArrays.ListArray.NewNull` | src/array/list/mod.rs:101-109 | `len() == length`, every validity bit unset with the unset count equal to `length`, and every slot empty |
| `ListArrays.ListArray.Len` | src/array/list/mod.rs:144-146 | one less than the number of offsets, and equal to the validity length when there is a validity |
| `ListArrays.ListArray.Value` | src/array/list/mod.rs:152-169 | for `i < len()`, the child window that starts at `offsets[i]` and has length `offsets[i+1] - offsets[i]`, with the child's data type |
| `ListArrays.ListArray.SliceUnchecked` | src/array/list/mod.rs:127-133 | the new length is `length`; the offsets become the window `[offset, offset+length+1)`; the validity becomes the window `[offset, offset+length)`, or stays `None`; the data type and the child are unchanged; each new `value(j)` is the old `value(j+offset)` |
| `ListArrays.ListArray.Slice` | src/array/list/mod.rs:116-122 | requires `offset + length <= len()`, the condition the code asserts, and then has the same effect as `slice_unchecked` |
| `ListArrays.SliceScenarioNonNull` | src/array/list/mod.rs:306-335 | offsets `[0,2,5,5,7,8]` sliced to `(1,3)` give slot lengths `[3,0,2]` and no validity |
| `ListArrays.SliceScenarioNullable` | src/array/list/mod.rs:368-398 | six slots with the fifth null, sliced to `(1,4)`, give slot lengths `[3,0,2,0]` and validity `[true,true,true,false]` |
| `ListArrays.SliceKeepsAllValidMask` | src/array/list/mod.rs:128-131 | when a slice contains no null, the validity mask is still kept: `Some` of all-set bits with zero unset bits, not `None` |
| `Native.DaysMsNeg` | src/types/native.rs:318-325 | `Neg for days_ms`: each component away from `i32::MIN` is negated; a component at `i32::MIN` is its own negation (release-build wrapping) |
| `Native.DaysMsNegInvolutive` | src/types/native.rs:318-325 | negating twice gives the value back |
| `Native.DaysMsLe` | src/types/native.rs:122-135 | the little-endian encoding is 8 bytes long; by definition it is days, then milliseconds, each little-endian, and the round-trip lemmas below prove it is the inverse of the decoding |
| `Native.DaysMsBe` | src/types/native.rs:138-151 | the big-endian encoding is 8 bytes long, in the same field order |
| `Native.WriteDaysMs` | src/types/native.rs:124-134 | the byte-by-byte copy into an 8-byte buffer is the days bytes followed by the milliseconds bytes |
| `Native.ReadDaysMs` | src/types/native.rs:154-181 | the days field is bytes 0..4 and the milliseconds field is bytes 4..8 |
| `Native.DaysMsToLeBytes` | src/types/native.rs:122-135 | `to_le_bytes` gives the little-endian layout |
| `Native.DaysMsToBeBytes` | src/types/native.rs:138-151 | `to_be_bytes` gives the big-endian layout |
| `Native.DaysMsFromLeBytes` | src/types/native.rs:154-166 | `from_le_bytes` reads the little-endian layout |
| `Native.DaysMsFromBeBytes` | src/types/native.rs:169-181 | `from_be_bytes` reads the big-endian layout |
| `Native.DaysMsLeRoundTrip` | src/types/native.rs:122-166 | `from_le_bytes(to_le_bytes(x)) == x` |
| `Native.DaysMsBeRoundTrip` | src/types/native.rs:138-181 | `from_be_bytes(to_be_bytes(x)) == x` |
| `Native.DaysMsFromLeRoundTrip` | src/types/native.rs:122-166 | every 8-byte string is the little-endian encoding of what it decodes to |
| `Native.DaysMsFromBeRoundTrip` | src/types/native.rs:138-181 | every 8-byte string is the big-endian encoding of what it decodes to |
| `Native.MonthsDaysNsNeg` | src/types/native.rs:327-334 | `Neg for months_days_ns`: each component away from its type's minimum is negated; a component at that minimum is its own negation |
| `Native.MonthsDaysNsNegInvolutive` | src/types/native.rs:327-334 | negating twice gives the value back |
| `Native.MonthsDaysNsLe` | src/types/native.rs:220-237 | the little-endian encoding is 16 bytes long; by definition it is months, days, then nanoseconds, and the round-trip lemmas below prove it is the inverse of the decoding |
| `Native.MonthsDaysNsBe` | src/types/native.rs:240-257 | the big-endian encoding is 16 bytes long, in the same field order |
| `Native.WriteMonthsDaysNs` | src/types/native.rs:223-236 | the copy into a 16-byte buffer, including the `(0..8)` loop that writes `result[8+i]`, is months, then days, then nanoseconds |
| `Native.ReadMonthsDaysNs` | src/types/native.rs:260-303 | the fields are bytes 0..4, 4..8 and 8..16 |
| `Native.MonthsDaysNsToLeBytes` | src/types/native.rs:220-237 | `to_le_bytes` gives the little-endian layout |
| `Native.MonthsDaysNsToBeBytes` | src/types/native.rs:240-257 | `to_be_bytes` gives the big-endian layout |
| `Native.MonthsDaysNsFromLeBytes` | src/types/native.rs:260-280 | `from_le_bytes` reads the little-endian layout |
| `Native.MonthsDaysNsFromBeBytes` | src/types/native.rs:283-303 | `from_be_bytes` reads the big-endian layout |
| `Native.MonthsDaysNsLeRoundTrip` | src/types/native.rs:220-280 | `from_le_bytes(to_le_bytes(x)) == x` |
| `Native.MonthsDaysNsBeRoundTrip` | src/types/native.rs:240-303 | `from_be_bytes(to_be_bytes(x)) == x` |
| `Native.MonthsDaysNsFromLeRoundTrip` | src/types/native.rs:220-280 | every 16-byte string is the little-endian encoding of what it decodes to |
| `Native.MonthsDaysNsFromBeRoundTrip` | src/types/native.rs:240-303 | every 16-byte string is the big-endian encoding of what it decodes to |
| `Native.FromWords` | src/types/native.rs:368-370 | `from_words(hi, lo)` loses nothing: `into_words` of the result is `(hi, lo)`; with `Native.FromIntoWords`, the two are inverse |
| `Native.IntoWords` | src/types/native.rs:376-378 | splits a value into a signed high word and a low word whose 128 bits, read as unsigned, recombine to the value |
| `Native.FromIntoWords` | src/types/native.rs:368-370 | `from_words` of the two words of a value gives the value back |
| `Native.I256NegAsWritten` | src/types/native.rs:376-380 | `Neg for i256` as written: the result's high word is the wrapping negation of the high word, and its low word is the low word unchanged |
| `Native.I256NegAsWrittenWords` | src/types/native.rs:376-380 | as written, `Neg` negates the high word and leaves the low word unchanged |
| `Native.I256NegAsWrittenCounterexample` | src/types/native.rs:376-380 | as written, `Neg` maps 1 to 1 rather than to -1 |
| `Native.I256Neg` | src/types/native.rs:376-380 | corrected `Neg`: the 256-bit negation, with the minimum as its own negation |
| `Native.I256NegInvolutive` | src/types/native.rs:376-380 | the corrected negation, applied twice, gives the value back |
| `Native.I256Be` | src/types/native.rs:421-436 | the big-endian encoding is 32 bytes long; `Native.I256BeIsBigEndian` proves what those bytes are |
| `Native.I256FromBe` | src/types/native.rs:439-446 | `from_be_bytes`: the high word of the result is bytes 0..16 read as a big-endian `i128`, and the low word is bytes 16..32 |
| `Native.I256FromLe` | src/types/native.rs:449-456 | `from_le_bytes`: the high word of the result is bytes 16..32 read as a little-endian `i128`, and the low word is bytes 0..16 |
| `Native.I256LeAsWritten` | src/types/native.rs:404-418 | the as-written little-endian encoding is 32 bytes long; `Native.I256LeAsWrittenSwapsWords` proves what it does wrong |
| `Native.I256Le` | src/types/native.rs:404-418 | the corrected little-endian encoding is 32 bytes long; `Native.I256LeIsLittleEndian` proves what those bytes are |
| `Native.WriteWords` | src/types/native.rs:406-417 | the zeroed buffer after the two `(0..16)` copy loops is the first word's bytes followed by the second word's |
| `Native.I256ToBeBytes` | src/types/native.rs:421-436 | `to_be_bytes` gives the big-endian layout |
| `Native.I256ToLeBytesAsWritten` | src/types/native.rs:404-418 | `to_le_bytes` as written gives the high word first |
| `Native.I256ToLeBytes` | src/types/native.rs:404-418 | corrected `to_le_bytes`: the low word first |
| `Native.I256BeIsBigEndian` | src/types/native.rs:421-436 | `to_be_bytes` is the 32-byte big-endian two's-complement encoding of the value |
| `Native.I256FromBeIsBigEndian` | src/types/native.rs:439-446 | `from_be_bytes` reads a 32-byte big-endian two's-complement encoding |
| `Native.I256BeRoundTrip` | src/types/native.rs:421-446 | `from_be_bytes(to_be_bytes(x)) == x` |
| `Native.I256FromLeIsLittleEndian` | src/types/native.rs:449-456 | `from_le_bytes` reads a 32-byte little-endian two's-complement encoding, with the high word from bytes 16..32 |
| `Native.I256LeAsWrittenSwapsWords` | src/types/native.rs:404-456 | as written, the little-endian round trip of `from_words(hi, lo)` gives `from_words(lo, hi)` |
| `Native.I256LeAsWrittenCounterexample` | src/types/native.rs:404-456 | as written, the little-endian round trip turns 1 into 2^128 |
| `Native.I256LeIsLittleEndian` | src/types/native.rs:404-418 | the corrected `to_le_bytes` is the 32-byte little-endian encoding of the value |
| `Native.I256LeRoundTrip` | src/types/native.rs:404-456 | with the corrected `to_le_bytes`, `from_le_bytes(to_le_bytes(x)) == x` |
| `Schemas.WithMetadata` | src/datatypes/schema.rs:23-28 | the fields are unchanged and the metadata is the given map |
| `Schemas.FromFields` | src/datatypes/schema.rs:53-59 | the fields as given, with empty metadata |
| `Schemas.Filter` | src/datatypes/schema.rs:32-50 | the metadata is unchanged; no more fields than the input |
| `Schemas.FilterFrom` | src/datatypes/schema.rs:33-44 | the `enumerate().filter_map()` pipeline keeps at most as many items as its input |
| `Schemas.FilterKeepsExactly` | src/datatypes/schema.rs:32-44 | yields kept indices that are strictly increasing, so order is preserved. The `k`-th output field is the input field at the `k`-th index. The predicate holds for each kept field at its original index. Every index whose field satisfies the predicate is kept |
| `Schemas.FilterAlwaysTrue` | src/datatypes/schema.rs:32-50 | a predicate that holds everywhere gives the schema back unchanged |
| `Schemas.FilterWithMetadata` | src/datatypes/schema.rs:23-50 | filtering and attaching metadata commute |
| `BooleanIterator.Iter` | src/array/boolean/iterator.rs:19-24 | one item per value; `None` exactly where a validity exists and its bit is unset; otherwise `Some` of the value |
| `BooleanIterator.ValuesIter` | src/array/boolean/iterator.rs:28-30 | the raw value bits, validity ignored |
| `BooleanIterator.IntoIter` | src/array/boolean/iterator.rs:6-14 | `IntoIterator for &BooleanArray` yields the same items as `iter` |
| `BooleanIterator.IterWithoutValidity` | src/array/boolean/iterator.rs:20-23 | without validity, `iter` is `values_iter` with every item in `Some` |
| `BooleanIterator.IterMatchesValuesIter` | src/array/boolean/iterator.rs:19-30 | each present item of `iter` is the matching item of `values_iter`; the present items number the values minus the unset bits; without validity they are exactly `values_iter` |
| `BooleanIterator.MutableIter` | src/array/boolean/iterator.rs:46-51 | `MutableBooleanArray::iter`: one item per value, `None` exactly at unset validity bits |
| `BooleanIterator.MutableValuesIter` | src/array/boolean/iterator.rs:55-57 | the raw value bits of the builder |
| `BooleanIterator.MutableIntoIter` | src/array/boolean/iterator.rs:33-41 | `IntoIterator for &MutableBooleanArray` yields the same items as its `iter` |
| `BooleanIterator.MutableIterAgrees` | src/array/boolean/iterator.rs:33-57 | the builder's `iter`, `values_iter` and `IntoIterator` yield what the frozen array with the same bits yields |
| `ParquetBinary.ValuesIter` | src/io/parquet/write/binary.rs:34 | one item per slot, each the slot's byte window between consecutive offsets, null or not |
| `ParquetBinary.Iter` | src/io/parquet/write/binary.rs:25 | the nullable view, one item per slot |
| `ParquetBinary.ValidityBits` | src/io/parquet/write/binary.rs:19 | the validity bits of the slots, all set when the array has no mask, and `iter()` pairs each slot's value with its bit |
| `ParquetBinary.AsI32` | src/io/parquet/write/binary.rs:55 | `len as i32` lies in the `i32` range and equals the length when that fits |
| `ParquetBinary.LengthPrefixed` | src/io/parquet/write/binary.rs:28-30 | one value encodes as `4 + len` bytes with the value's bytes after the prefix |
| `Bytes.U32LeRoundTrip` | src/io/parquet/write/binary.rs:28 | for a length below 2^32, the 4 bytes of `(len as u32).to_le_bytes()` read back as the length |
| `ParquetBinary.Header` | src/io/parquet/write/binary.rs:54-60 | `num_values` is the length when it fits in `i32`; the encoding is PLAIN; both level encodings are RLE; there are no statistics |
| `ParquetBinary.PlainEncodeAppend` | src/io/parquet/write/binary.rs:24-40 | appending one value to the run appends its length-prefixed bytes |
| `ParquetBinary.PlainEncodeLength` | src/io/parquet/write/binary.rs:28-30 | the value section is as long as the sum of `4 + len(v)` over the written values |
| `ParquetBinary.DecodeStep` | src/io/parquet/write/binary.rs:28-30 | a length-prefixed value is read back, and decoding continues after it |
| `ParquetBinary.PlainRoundTrip` | src/io/parquet/write/binary.rs:24-40 | values shorter than 2^32 bytes decode back exactly from the PLAIN section |
| `ParquetBinary.RequiredWritesEverySlot` | src/io/parquet/write/binary.rs:33-40 | a required column writes every slot, whatever its validity bit |
| `ParquetBinary.OptionalSectionRecoversView` | src/io/parquet/write/binary.rs:24-32 | for an optional column, with or without a mask, and with only the present values shorter than 2^32 bytes: the section decodes; spreading its values over the validity bits gives back `iter()`, so nulls write nothing; without a mask it decodes to every slot's value |
| `ParquetBinary.AppendValue` | src/io/parquet/write/binary.rs:28-30 | the two `extend_from_slice` calls append the length-prefixed value |
| `ParquetBinary.AppendPresent` | src/io/parquet/write/binary.rs:24-32 | the optional loop appends, in order, the PLAIN encoding of exactly the present values |
| `ParquetBinary.AppendAll` | src/io/parquet/write/binary.rs:33-40 | the required loop appends the PLAIN encoding of every slot |
| `ParquetBinary.ArrayToPageV1` | src/io/parquet/write/binary.rs:14-70 | fails exactly at `write_def_levels`, `create_codec` or `compress`, returning that step's error (as the crate's error type). Otherwise the body is the level bytes followed by the value section. `uncompressed_page_size` is the body's length. Without a codec the page holds the body; with one it holds the compressor's output. The header is `Header`, and the compression codec is the one given |

## Left out

- I/O and foreign libraries are parameters of `ParquetBinary.ArrayToPageV1`: the definition-level writer `write_def_levels` (the RLE / bit-packing hybrid), `create_codec` and `compress`. Their internals are not modelled; only their results and errors are.
- `try_check_offsets_bounds` is not part of this model's source. It is modelled from its use at src/array/list/mod.rs:47 as "the last offset may not exceed the child's length". The doc comment at src/array/list/mod.rs:35 says "not equal"; the model follows the bounds check.
- The doc comment of `slice` (src/array/list/mod.rs:115) says it panics iff `offset + length >= len()`, and that of `slice_unchecked` (src/array/list/mod.rs:126) asks for `offset + length < len()`. The model follows the assert at src/array/list/mod.rs:117-118, which allows `offset + length <= len()`, for both.
- `Bitmap` internals (bit packing, the cached unset-bit count, slicing by bit offset) are modelled as `seq<bool>`. The offsets buffer is modelled as `seq<int>` and the child array as a sequence of items with a data type.
- `Arc`/`Box` sharing, zero-copy slicing and `Send`/`Sync`: a slice is modelled as a new window into immutable sequences.
- `ListArrays.ListArray.Value` also stands for `value_unchecked`. Their safety conditions are the same bound.
- The `impl_sliced!`, `impl_mut_validity!` and `impl_into_array!` macros, the `Array` trait impl, the arrow-rs conversions and `Display`/`Debug`/error message text are not modelled. Errors carry a reason value instead of the message.
- `ParquetBinary.ArrayToPageV1`: `createCodec` and `compress` stand for the parquet2 calls followed by the `?` conversion of their errors into the crate's error type (src/io/parquet/write/binary.rs:43, 48). That conversion is not modelled; the model's `Error` is the converted error.
- Floating point (`f16`, `f32`, `f64`) and the `native_type!` impls of the primitive integers are not modelled, beyond Rust's standard byte conversions in `Bytes`.
- `Native.DaysMsNeg`: negation of `i32::MIN` is modelled with release-build wrapping, as its own negation. A debug build panics there.
- `Native.MonthsDaysNsNeg`: the same release-build wrapping at each field's minimum.
- `Native.I256NegAsWritten`: the high word's negation wraps at `i128::MIN` as in a release build.
- `ParquetBinary.ArrayToPageV1`: the two trailing `None` arguments of `CompressedPage::new` (the optional dictionary page and the selected rows) are not fields of the model's `CompressedPage`.
- `BooleanIterator.MutableIter`: `MutableBooleanArray` is modelled as a value with the builder's bits. Its push operations and `MutableBitmap` are not part of this model.
- The iterators are modelled as the sequences they yield. Laziness, `size_hint` and trusted-length are not modelled.

## Findings

| source | as written | input that shows it | evidently intended | confidence | as-written member | corrected member |
|---|---|---|---|---|---|---|
| src/types/native.rs:404-418, 449-456 | `to_le_bytes` writes the high word in bytes 0..16 and the low word in bytes 16..32, while `from_le_bytes` reads the high word from bytes 16..32 | `i256` of value 1: the little-endian round trip gives 2^128 | write the low word first, so that the 32 bytes are the little-endian encoding of the value and `from_le_bytes` inverts them | not executed | `Native.I256ToLeBytesAsWritten`, `Native.I256LeAsWrittenCounterexample` | `Native.I256ToLeBytes`, `Native.I256LeRoundTrip` |
| src/types/native.rs:376-380 | `Neg` negates only the high word and keeps the low word | `i256` of value 1: `-x` is 1 | the negation of the whole 256-bit value | not executed | `Native.I256NegAsWritten`, `Native.I256NegAsWrittenCounterexample` | `Native.I256Neg`, `Native.I256NegInvolutive` |
