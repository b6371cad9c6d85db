# Avro binary integers and the object-container writer, in Dafny

This project models two parts of the `avro-rs` crate that produce and consume
Avro's binary wire format:

- **`src/util.rs`**, with four parts:
  - the zigzag variable-length codec for Avro `int` and `long`: `zig_i32`, `zig_i64`,
    `encode_variable`, `decode_variable`, `zag_i64`, `zag_i32` and `read_long`;
  - the allocation guard: the set-once `max_allocation_bytes` ceiling and `safe_len`;
  - the big-endian splitters `transform_u64_to_array_of_u8` and
    `transform_u128_to_array_of_u8`;
- **`src/ser/writer.rs`**, the object-container `Writer`:
  - a header holding the magic `Obj\x01`, the metadata map with `avro.schema` and
    `avro.codec`, and the 16-byte sync marker;
  - then one data block per `extend`: the value count, the payload length, the
    compressed payload and the marker.

Files:

| file | module | contents |
|---|---|---|
| `wrappers.dfy` | `Wrappers` | `Option` and `Result` |
| `ints.dfy` | `Ints` | the Rust integer widths as ranges of `int`; the wrap-around of `as` casts and of wrapping shifts, written out |
| `varint.dfy` | `Varint` | zigzag mapping, varint encoding and decoding, reading `long` and `int` |
| `allocation.dfy` | `Allocation` | the set-once ceiling as a class `AllocationLimit`, and `safe_len` |
| `bytesplit.dfy` | `ByteSplit` | the big-endian splitters and their inverse |
| `writer.dfy` | `Container` | the `Writer` class, and the functions that specify what each call writes |

How the model is built:

- **Codec functions.** The loops of `encode_variable` and `decode_variable` are
  methods (`EncodeVariable`, `DecodeVariable`). Each is proved equal to a recursive
  function (`VarintBytes`, `DecodeVar`), and the properties are lemmas about those
  functions.
- **`i |= group` is an addition.** `decode_variable` ORs each group into `i`
  (src/util.rs:115). Group `j` is a multiple of `2^(7j)` and everything read
  before it lies below `2^(7j)`, so the two share no bit and the OR is the sum.
  The model adds, and `Varint.GroupFits` proves both facts.
- **A mutated buffer** (`&mut Vec<u8>`) is passed in and returned extended.
- **A reader** is an input sequence plus the position of the next unread byte.
- **The writer** is a class:
  - the sink (`writer: W`) is a `seq<uint8>` field that every write appends to;
  - `has_header` is a field;
  - the schema, codec and marker are `const` fields, so no method can change the marker.
- **Collaborators are parameters.** The writer's collaborators are the serializer,
  the value encoder, the metadata-map encoder, the compressor and the JSON rendering
  of the schema. They are functions held in the `Schema` and `Codec` values the
  writer is given.
- **What `extend` does** is specified by the pure function
  `Container.ExtendOutcome`, which gives the bytes written, the answer and the new
  `has_header`. `Writer.Extend` is proved to do exactly that.

## Model

| member | source | states |
|---|---|---|
| Ints.WrapI64Double | src/util.rs:70-72 | `n << 1` on `i64` is exact inside [-2^62, 2^62) and off by exactly 2^64 outside it |
| Ints.WrapI32Double | src/util.rs:66-68 | `n << 1` on `i32` is exact inside [-2^30, 2^30) and off by exactly 2^32 outside it |
| Varint.ZigI64Value | src/util.rs:70-72 | `(n << 1) ^ (n >> 63)` is the textbook zigzag code `ZigZag(n)` on [-2^62, 2^62), and negative everywhere outside it |
| Varint.ZigI32Value | src/util.rs:66-68 | `i64::from((n << 1) ^ (n >> 31))` is `ZigZag(n)` on [-2^30, 2^30), and negative everywhere outside it |
| Varint.Zag | src/util.rs:83-90 | the unzigzag of a `u64` (`z >> 1`, or its bitwise NOT cast to `i64`) is non-negative iff `z` is even, and inverts the textbook code: `ZigZag(Zag(z)) == z` |
| Varint.UnsignedZigLong | src/util.rs:70-72 | read as `u64`, the `i64` zigzag value of every `n` is `ZigZag(n)` |
| Varint.ZagOfZigZag | src/util.rs:83-90 | zag undoes the textbook code of every `i64` |
| Varint.ZagOfZig | src/util.rs:70-72 | zig, read as `u64`, then zag gives back every `i64` |
| Varint.ZigOfZag | src/util.rs:83-90 | zag, then zig read as `u64`, gives back every `u64`: zag is a bijection |
| Varint.VarintBytes | src/util.rs:92-102 | the output is non-empty; every byte but the last has bit 0x80 set; the last byte is below 0x80 |
| Varint.VarintSingleByte | src/util.rs:92-102 | one byte exactly when `z <= 0x7F`; a negative `z` gives the single byte `z & 0x7F` |
| Varint.VarintLength | src/util.rs:92-102 | a value below `2^(7k)` takes at most `k` bytes, i.e. at most ceil(bits/7) |
| Varint.EncodeVariable | src/util.rs:92-102 | the loop appends exactly `VarintBytes(z)` to the buffer |
| Varint.ZigI64 | src/util.rs:70-72 | appends `ZigLong(n)`, the varint of the `i64` zigzag value |
| Varint.ZigI32 | src/util.rs:66-68 | appends `ZigInt(n)`, the varint of the sign-extended `i32` zigzag value |
| Varint.ZigLongMaxInt | src/util.rs:205-206 | `zig_i64(2147483647)` is `[254, 255, 255, 255, 15]` |
| Varint.ZigLongAboveMaxInt | src/util.rs:209-210 | `zig_i64(2147483648)` is `[128, 128, 128, 128, 16]` |
| Varint.ZigLongMinInt | src/util.rs:213-214 | `zig_i64(-2147483648)` is `[255, 255, 255, 255, 15]` |
| Varint.ZigLongBelowMinInt | src/util.rs:217-218 | `zig_i64(-2147483649)` is `[129, 128, 128, 128, 16]` |
| Varint.ZigIntFortyTwo | src/util.rs:194-199 | `zig_i32(42)` and `zig_i64(42)` write the same bytes, `[84]` |
| Varint.ZigWidthsAgree | src/util.rs:66-72 | on [-2^30, 2^30) both widths write the same bytes |
| Varint.ZigLongOutsideRange | src/util.rs:70-72 | for `n >= 2^62` or `n < -2^62`, `zig_i64` writes a single byte |
| Varint.ZigIntOutsideRange | src/util.rs:66-68 | for `n >= 2^30` or `n < -2^30`, `zig_i32` writes a single byte |
| Varint.Group | src/util.rs:115 | `u64::from(b & 0x7F) << (7 * j)` stays below 2^64, with the bits past bit 63 dropped |
| Varint.GroupValue | src/util.rs:115 | up to group 8, the shift loses nothing and the group lies below `2^(7(j+1))`; group 9 keeps only bit 0 of its payload, as bit 63 |
| Varint.GroupFits | src/util.rs:115 | group `j` is a multiple of `2^(7j)` while everything read so far lies below `2^(7j)`, so or-ing the group into `i` is an addition; the sum stays below 2^64, and below `2^(7(j+1))` while another group may follow |
| Varint.DecodeGroupsStep | src/util.rs:114-119 | a byte with the continuation bit adds its group to `i` and hands on to group `j + 1` |
| Varint.DecodeGroups | src/util.rs:109-121 | a successful read consumes between 1 and `10 - j` bytes and stays inside the input |
| Varint.DecodeVar | src/util.rs:104-124 | a successful read consumes between 1 and 10 bytes |
| Varint.DecodeVariable | src/util.rs:104-124 | the loop returns exactly `DecodeVar`: the value and the next position, or the error |
| Varint.DecodeGroupsOverflow | src/util.rs:110-113 | from group `j`, overflow iff the next `10 - j` bytes are present and all carry the continuation bit |
| Varint.DecodeGroupsEof | src/util.rs:114 | from group `j`, end of input iff the input stops within `10 - j` bytes before a terminating byte |
| Varint.DecodeVarErrors | src/util.rs:104-124 | overflow iff ten continued bytes; end of input iff fewer than ten bytes remain and all are continued; never "int out of range" |
| Varint.OverflowTestStopsAtEndOfInput | src/util.rs:222-225 | the overflow test's five bytes `0xE1` fail by end of input, not by the ten-group guard |
| Varint.DecodeGroupsOfVarint | src/util.rs:104-124 | reading the bytes of `VarintBytes(u)` as groups from `j` on adds `GroupsOf(u, j)` and stops right after them |
| Varint.DecodeLastGroup | src/util.rs:116-117 | a byte without the continuation bit ends the read after adding its group |
| Varint.DecodeNextGroup | src/util.rs:115-119 | a continued byte adds its group and hands the rest of the varint to the next step |
| Varint.VarintHead | src/util.rs:97-99 | the first byte of a multi-byte varint is the low seven bits of `z` plus 0x80, followed by the varint of `z >> 7` |
| Varint.GroupsOfValue | src/util.rs:115 | without truncation, the groups of `u` from `j` on add up to `u * 2^(7j)` |
| Varint.DecodeVarOfVarint | src/util.rs:92-124 | `decode_variable` reads back every `u64` that `encode_variable` wrote, and stops right after it |
| Varint.ZagI64 | src/util.rs:83-90 | succeeds exactly when `decode_variable` does, consumes 1 to 10 bytes, and never fails with "int out of range" |
| Varint.ZagI32OfInt | src/util.rs:74-81 | a long within `i32` passes through `zag_i32` with its value and position unchanged |
| Varint.ZagI32 | src/util.rs:74-81 | succeeds iff `zag_i64` does and its value is within `i32`, with the same value and position; fails with "int out of range" iff the long is outside `i32`; otherwise passes on `zag_i64`'s error |
| Varint.ReadLong | src/util.rs:62-64 | consumes 1 to 10 bytes; the only errors are overflow and end of input |
| Varint.ZigZagLong | src/util.rs:70-72 | round trip: for -2^62 <= n < 2^62, `zag_i64` reads back `n` from `zig_i64(n)` and stops right after it |
| Varint.ZigZagInt | src/util.rs:66-68 | round trip: for -2^30 <= n < 2^30, `zag_i32` reads back `n` from `zig_i32(n)` and stops right after it |
| Varint.ZagOfVarint | src/util.rs:83-90 | `zag_i64` reads back `Zag(u)` from the varint of any `u64` `u` |
| Varint.ZigLongCollision | src/util.rs:70-72 | as written, 2^62 encodes to `[0]`, the encoding of 0, and reads back as 0 |
| Varint.ZigIntCollision | src/util.rs:66-68 | as written, 2^30 encodes to `[0]` in `zig_i32`, and reads back as 0 |
| Varint.ZigLongUnsigned | src/util.rs:70-72 | corrected `zig_i64`: the same bytes as the source on [-2^62, 2^62) |
| Varint.ZigIntUnsigned | src/util.rs:66-68 | corrected `zig_i32`: the same bytes as the source on [-2^30, 2^30) |
| Varint.ZigZagLongUnsigned | src/util.rs:70-72 | with the corrected encoder, every `i64` round-trips through `zag_i64` |
| Varint.UnsignedZigInt | src/util.rs:66-68 | read as `u32`, the `i32` zigzag value of every `n` is `ZigZag(n)` |
| Varint.ZigZagIntUnsigned | src/util.rs:66-68 | with the corrected encoder, every `i32` round-trips through `zag_i32` |
| Allocation.CheckLen | src/util.rs:145-152 | `Ok(len)` iff `len <= maximum`; otherwise an error carrying `len` and the maximum |
| Allocation.AllocationLimit.constructor | src/util.rs:11-12 | at start-up the ceiling is 512 MiB and nothing is installed |
| Allocation.AllocationLimit.MaxAllocationBytes | src/util.rs:133-140 | the first call installs its argument; every later call keeps the installed ceiling; every call answers the ceiling in force |
| Allocation.AllocationLimit.SafeLen | src/util.rs:142-153 | installs 512 MiB if nothing is installed, then answers `CheckLen(len, ceiling)` |
| Allocation.SafeLenUnderDefault | src/util.rs:228-231 | under the default ceiling, `safe_len(42) == Ok(42)` and `safe_len(1 GiB)` fails with 1 GiB and 512 MiB |
| Allocation.FirstCallWins | src/util.rs:133-140 | whatever a run of calls asks for, every call answers the first call's argument |
| Allocation.LateCeilingIgnored | src/util.rs:133-143 | after a first `safe_len`, a request for another ceiling answers 512 MiB, and lengths are checked against 512 MiB |
| Allocation.EarlyCeilingApplies | src/util.rs:133-145 | a ceiling installed before the first `safe_len` is the one `safe_len` checks against |
| ByteSplit.BigEndianValue | src/util.rs:155-187 | the number a big-endian byte string stands for is below `256^len` |
| ByteSplit.BytesValue | src/util.rs:155-187 | the low `w` bytes of `x`, most significant first, stand for `x mod 256^w` |
| ByteSplit.BytesAt | src/util.rs:157-164 | byte `i` of the `w` low bytes is byte `w-1-i` of `x` |
| ByteSplit.BytesOfValue | src/util.rs:155-187 | every byte string is the byte list of the number it stands for |
| ByteSplit.BigEndianInjective | src/util.rs:155-187 | two byte strings of one length that stand for the same number are equal |
| ByteSplit.SplitAt | src/util.rs:157-164 | byte `i` of the split is `(x >> 8(w-1-i)) & 0xff` |
| ByteSplit.SplitValue | src/util.rs:155-187 | the split of `x` into `w` bytes stands for `x mod 256^w` |
| ByteSplit.U64ToBigEndian | src/util.rs:156-166 | eight bytes, most significant first, that reassemble to `x` |
| ByteSplit.U128ToBigEndian | src/util.rs:169-187 | sixteen bytes, most significant first, that reassemble to `x` |
| ByteSplit.U64FromBigEndian | src/util.rs:156-166 | every 8 bytes are the split of the `u64` they stand for, so the splitter is a bijection |
| ByteSplit.U128FromBigEndian | src/util.rs:169-187 | every 16 bytes are the split of the `u128` they stand for |
| Container.Metadata | src/ser/writer.rs:54-56 | the metadata map has exactly the keys "avro.schema" (the schema's JSON) and "avro.codec" (the codec's name) |
| Container.HeaderStep | src/ser/writer.rs:51-61 | succeeds iff the JSON renders and the metadata encodes; on success it writes exactly the magic, then the encoded metadata map, then the marker, and answers the number of bytes written; a JSON failure writes nothing, and a metadata failure leaves only the magic |
| Container.ValueEncoding | src/ser/writer.rs:100-108 | a value encodes iff it serializes and its encoding is accepted by the schema; the result is then the encoder's bytes for the serialized value; a serializer failure gives the serializer's error, and a rejected encoding gives `SchemaMismatch` |
| Container.EncodeValues | src/ser/writer.rs:98-110 | a successful loop yields one encoding per value |
| Container.Payload | src/ser/writer.rs:98-115 | the payload exists only when every value encoded |
| Container.Writer.WithCodec | src/ser/writer.rs:31-45 | a new writer keeps the given 16-byte marker, schema, codec and sink, with `has_header` false |
| Container.Writer.New | src/ser/writer.rs:27-29 | as `with_codec`, with the null codec |
| Container.Writer.AppendRaw | src/ser/writer.rs:73-78 | an encoded value is appended and its length answered; an unencodable one writes nothing and fails |
| Container.Writer.AppendMarker | src/ser/writer.rs:67-71 | appends the marker and answers its length, which is 16 for every writer the constructors make |
| Container.Writer.Header | src/ser/writer.rs:51-61 | appends exactly `HeaderStep`'s bytes, answers its result, and leaves `has_header` unchanged |
| Container.Writer.EncodeEach | src/ser/writer.rs:98-110 | the loop yields `EncodeValues`: every encoding in order, or the first failure |
| Container.Writer.Extend | src/ser/writer.rs:80-126 | sink, answer and `has_header` are exactly those of `ExtendOutcome` |
| Container.Writer.PreparePayload | src/ser/writer.rs:98-115 | encodes, joins and compresses without writing, giving `Payload` |
| Container.Writer.WriteBlock | src/ser/writer.rs:122-125 | appends count, length, payload and marker, and answers the block's size |
| Container.Writer.Append | src/ser/writer.rs:63-65 | `append(v)` is `extend([v])` |
| Container.Writer.IntoInner | src/ser/writer.rs:128-130 | answers every byte written |
| Container.Join | src/ser/writer.rs:112-113 | the fold joins the encodings in order |
| Container.EncodeValuesPrefixError | src/ser/writer.rs:106-108 | once a prefix of the values fails, the whole batch fails with that error |
| Container.EncodeValuesInOrder | src/ser/writer.rs:98-110 | the batch encodes iff every value does; the encodings come in input order; a failure is the first failing value's error |
| Container.ConcatAppend | src/ser/writer.rs:112-113 | joining two runs of chunks joins their bytes |
| Container.LongOfReadsBack | src/ser/writer.rs:122-123 | a count or length below 2^62 is read back by `read_long` |
| Container.BlockFraming | src/ser/writer.rs:122-125 | a block reads back as count, then length, then exactly the payload, then exactly the marker |
| Container.ExtendFailureWritesNothing | src/ser/writer.rs:99-115 | if encoding or compression fails, nothing is written and `has_header` is unchanged |
| Container.ExtendHeaderOnce | src/ser/writer.rs:117-125 | with a header written, `extend` writes only the block; otherwise the header then the block, setting the flag only if the header succeeded; the answer is the block's size without the header's |
| Container.ExtendBlockContents | src/ser/writer.rs:98-115 | the payload is the compressed join of the values' encodings, in input order, one per value |
| Container.ExtendEmpty | src/ser/writer.rs:83 | an empty batch writes a block with count 0 and the codec's output for no bytes; with the null codec that block is `[0, 0] + marker` |
| Container.AppendCountsOne | src/ser/writer.rs:63-65 | `append` writes a block whose count byte is 2, the zigzag of 1 |
| Container.HeaderTwice | src/ser/writer.rs:51-61 | a direct `header()` followed by `append` writes the header twice, then the block |
| Container.AppendTwice | src/ser/writer.rs:117-125 | a fresh writer given two values writes the header once, then the two blocks in call order |

## Left out

- `MapHelper` and its lookup over a JSON map are not modelled: they are a thin wrapper over an outside JSON library.
- The collaborators are functions the writer is given, and their bodies are not part of this model:
  - `Serializer::serialize`;
  - `EncodeAvro::encode`, including the Avro map encoding of the metadata and the iteration order of `HashMap`;
  - `Codec::compress` (deflate, snappy) and `Codec::avro`;
  - `serde_json::to_string`.
- The serializer's own state is not modelled: the model treats `serialize` as a pure function of the value.
- `append_raw(&magic_schema, ...)` is assumed to write the four magic bytes unchanged (a `Fixed` of size 4).
- `append_raw(&Schema::Long, n)` for a count or a length is taken to be the `long` zigzag varint of `n as i64` (`Container.LongOf`). That encoding is taken to always succeed.
- The random marker (`rand::random`) is a constructor argument of exactly 16 bytes.
- I/O is not modelled:
  - `std::io::Write` is taken to write every byte in full and never fail, so partial writes and I/O errors are not represented;
  - the reader's position after a failed read is not modelled: a failure answers only the error.
- `std::sync::Once` and the `static mut` are one `AllocationLimit` object with a flag, so concurrent first calls are not modelled. A program that assigns `MAX_ALLOCATION_BYTES` directly is not modelled either.
- `AllocationError` is a datatype holding the requested and maximum sizes, and `DecodeError` names the error kind; neither carries the formatted message.
- `usize` is taken to be 64 bits wide.
- The `schema()` accessor and the borrowing of the schema carry no behaviour and are not modelled.
- `Container.LongOfReadsBack` and `Container.BlockFraming` are stated only for counts and lengths below 2^62. Above that, `zig_i64` itself cuts the value to one byte (see Findings).

## Findings

| source | as written | input that shows it | evidently intended | confidence | as-written member | corrected member |
|---|---|---|---|---|---|---|
| src/util.rs:70-72, 92-102 | `(n << 1) ^ (n >> 63)` is passed to `encode_variable` as a signed `i64`, which stops at once for a negative value, so for n >= 2^62 or n < -2^62 only one byte is written | `zig_i64(2^62)` writes `[0]`, the same as `zig_i64(0)`, and reads back as 0 | the zigzag value encoded as an unsigned 64-bit number, so that every `i64` round-trips | not executed | Varint.ZigLongCollision | Varint.ZigZagLongUnsigned |
| src/util.rs:66-68, 92-102 | the 32-bit zigzag value is sign-extended to `i64`, so for n >= 2^30 or n < -2^30 it is negative and only one byte is written | `zig_i32(2^30)` writes `[0]`, the same as `zig_i32(0)`, and reads back as 0 | the 32-bit zigzag value encoded as an unsigned number, so that every `i32` round-trips | not executed | Varint.ZigIntCollision | Varint.ZigZagIntUnsigned |

The writer uses the encoder as written (`Container.LongOf`). The model puts no bound on a batch's count or payload length. It assumes that these stay below 2^62, which is where both encoders agree, as `Varint.ZigLongUnsigned` shows. `Container.BlockFraming` is stated under that assumption.
