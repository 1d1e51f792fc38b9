# XCM location codec for the EVM precompile boundary

This project models the byte codec in `precompiles/utils/src/data/xcm.rs`. The codec
translates Polkadot XCM locations to and from the raw bytes that cross the EVM
precompile ABI, and back again. The values are:

- a `NetworkId` (`Any`, `Named(name)`, `Polkadot`, `Kusama`);
- a `Junction`, one step of a location path. It has eight supported variants, and
  the account variants end with a `NetworkId`;
- `Junctions`, a path of at most `MAX_DEPTH` junctions;
- a `MultiLocation`, made of a parents count and an interior path.

Files and modules:

- `bytes.dfy` (`Bytes`): the source's integer types `u8`/`u32`/`u64`/`u128`, and their
  big-endian layout (`to_be_bytes` / `from_be_bytes`) with round-trip lemmas in both
  directions.
- `errors.dfy` (`Errors`): the failure kinds that the revert channel reports. The
  kinds are empty input, unknown tag, length overflow, short read and unsupported
  variant. The file also has a `Result` type that works with `:-`.
- `reader.dfy` (`Reader`): the part of the ABI reader's cursor that the codec uses.
  The cursor is an input buffer and an offset. `ReadRawBytes(n)` fails when fewer
  than `n` bytes remain. `ReadTillEnd` returns the rest of the buffer.
- `xcm_types.dfy` (`XcmTypes`): the datatypes, the bound constants, and the
  `Junctions` push that fails once the path holds `MAX_DEPTH` junctions.
- `network_id.dfy` (`NetworkIdCodec`): `network_id_to_bytes` and `network_id_from_bytes`.
- `junction.dfy` (`JunctionCodec`): the inner byte layout that `Junction::write`
  builds and `Junction::read` parses. This is a tag byte, then a fixed-width field,
  then a trailing field that runs to the end of the buffer: a `NetworkId` for tags
  1–3, or the key for tag 6.
- `junctions.dfy` (`JunctionsCodec`): `Junctions::read` and `Junctions::write`.
  `Junctions::read` is the imperative method `ReadJunctions`. It first decodes the
  list of fields (`JunctionListFromFields`). It then runs the push loop `PushAll`, a
  `for` loop that pushes each junction into an empty path. `PushAll` returns the list
  in order, or an overflow beyond `MAX_DEPTH`. `ReadJunctions` is proved equal to the
  specification function `JunctionsFromFields`.
- `multi_location.dfy` (`MultiLocationCodec`): `MultiLocation` as the pair
  `(parents, interior)`.

The bounds are named constants: `MAX_NAME_LEN` (capacity of the `Named` name),
`MAX_KEY_LEN` (capacity of `GeneralKey`) and `MAX_DEPTH` (`X1` to `X8`). The `xcm`
crate sets their values. That crate is not part of this model. The values used here
are those of XCM v1: 32, 32 and 8. Every general property is stated in terms of the
constants. Only the boundary lemmas use their concrete values.

Where the source panics, the model returns a failure. `Junction::write` reaches
`unreachable!` on `Plurality` (line 201). The model's writer instead returns
`Err(UnsupportedVariant)`. Both the panic and the failure produce no bytes. The
written layouts of the eight supported variants are exactly the source's.

## Model

| member | source | states |
|---|---|---|
| `Bytes.FromToBeBytes` | precompiles/utils/src/data/xcm.rs:157-159 | reading a big-endian field of any width gives back the integer that was written |
| `Bytes.ToFromBeBytes` | precompiles/utils/src/data/xcm.rs:98-100 | every byte string is the big-endian layout of the integer read from it, so a decoded fixed field is re-encoded to the same bytes |
| `Bytes.ToBeBytes` | precompiles/utils/src/data/xcm.rs:157-187 | an integer below 256^w is laid out in exactly w bytes, with its lowest byte last; `FromToBeBytes` and `ToFromBeBytes` tie it to `FromBeBytes` |
| `Bytes.FromBeBytes` | precompiles/utils/src/data/xcm.rs:116-122 | an integer read from n big-endian bytes is below 256^n, so 4/8/16 bytes fit in u32/u64/u128 |
| `Reader.ReadRawBytes` | precompiles/utils/src/data/xcm.rs:92-101 | reading n raw bytes succeeds exactly when n bytes remain, fails with ShortRead otherwise, and splits the remaining input into the n bytes read and the rest |
| `Reader.ReadTillEnd` | precompiles/utils/src/data/xcm.rs:106-108 | reading till the end returns every remaining byte and leaves nothing to read |
| `XcmTypes.Push` | precompiles/utils/src/data/xcm.rs:215-218 | pushing onto a path succeeds exactly when it holds fewer than MAX_DEPTH junctions, and then appends the junction at the end, keeping the path before it |
| `NetworkIdCodec.Tag` | precompiles/utils/src/data/xcm.rs:35-52 | each NetworkId variant has a tag in 0..3 |
| `NetworkIdCodec.NetworkIdToBytes` | precompiles/utils/src/data/xcm.rs:33-54 | the first byte is the variant tag; the output is exactly 1 byte for Any/Polkadot/Kusama; for Named, the bytes after the tag are the name, with no length prefix |
| `NetworkIdCodec.NetworkIdFromBytes` | precompiles/utils/src/data/xcm.rs:57-75 | an empty buffer fails with EmptyInput; a tag above 3 fails with UnknownVariantTag; a Named name longer than the bound fails with LengthOverflow; decoding succeeds exactly when none of these hold, and the result respects the name bound and carries the read tag |
| `NetworkIdCodec.NetworkIdRoundTrip` | precompiles/utils/src/data/xcm.rs:33-75 | decoding the encoding of every bounded NetworkId gives it back |
| `NetworkIdCodec.NetworkIdDecodeCanonical` | precompiles/utils/src/data/xcm.rs:64-73 | the encoding of a decoded NetworkId is a prefix of the input; it is the whole input when the tag is Named |
| `NetworkIdCodec.NetworkIdIgnoresTrailing` | precompiles/utils/src/data/xcm.rs:66-73 | for Any, Polkadot and Kusama only the tag is read, and bytes after it are ignored |
| `NetworkIdCodec.NameBoundIsExact` | precompiles/utils/src/data/xcm.rs:68-70 | a name of exactly the bound decodes; one byte more fails with LengthOverflow |
| `JunctionCodec.JunctionTag` | precompiles/utils/src/data/xcm.rs:157-198 | the eight supported variants have tags 0..7, account variants exactly 1..3 and GeneralKey exactly 6; Plurality has no tag below 8 |
| `JunctionCodec.FixedField` | precompiles/utils/src/data/xcm.rs:159-187 | the fixed field after the tag is 4/32/8/20/1/16/0/0 bytes wide for tags 0..7 |
| `JunctionCodec.JunctionToBytes` | precompiles/utils/src/data/xcm.rs:154-202 | Plurality, and only Plurality, fails with UnsupportedVariant and yields no bytes; every other junction is written as its tag, then its fixed field, then its NetworkId bytes (tags 1-3) or its key (tag 6) |
| `JunctionCodec.FixedFieldIsBigEndian` | precompiles/utils/src/data/xcm.rs:159-187 | the u32, u64 and u128 fields are big-endian, reading back to the junction's number; a pallet instance is its single byte |
| `JunctionCodec.ReadAccount` | precompiles/utils/src/data/xcm.rs:103-135 | an account variant fails with ShortRead when its fixed field is cut short; otherwise it fails exactly as the NetworkId read from the remaining bytes fails, and on success it carries that network |
| `JunctionCodec.ReadInteger` | precompiles/utils/src/data/xcm.rs:96-102 | Parachain, PalletInstance and GeneralIndex succeed exactly when their 4/1/16-byte field is present, and fail with ShortRead otherwise |
| `JunctionCodec.ReadVariant` | precompiles/utils/src/data/xcm.rs:95-151 | tags of 8 and above fail with UnknownVariantTag; a missing fixed field fails with ShortRead; an over-long GeneralKey fails with LengthOverflow; for tags 1-3 a NetworkId that fails to read (empty, unknown tag, over-long name) fails the junction with that same error; success holds exactly when every field of the selected variant reads; the result is encodable and carries the selected tag |
| `JunctionCodec.JunctionFromBytes` | precompiles/utils/src/data/xcm.rs:79-152 | an empty buffer fails with EmptyInput; a tag of 8 or above fails with UnknownVariantTag; too few bytes for the fixed field fail with ShortRead; tags 1-3 with nothing after the fixed field fail with EmptyInput, and more generally pass on the error of the NetworkId read from the bytes after the fixed field (an unknown network tag, an over-long name); an over-long GeneralKey fails with LengthOverflow; success is characterised exactly, and the result is encodable |
| `JunctionCodec.ReadIntegerOf` | precompiles/utils/src/data/xcm.rs:96-102 | an integer variant is read back from its big-endian fixed field |
| `JunctionCodec.ReadIntegerField` | precompiles/utils/src/data/xcm.rs:136-144 | the integer variant that is read has exactly the consumed bytes as its fixed field |
| `JunctionCodec.ReadAccountOf` | precompiles/utils/src/data/xcm.rs:103-135 | an account variant is read back from its fixed field followed by its network's bytes |
| `JunctionCodec.ReadAccountField` | precompiles/utils/src/data/xcm.rs:105-128 | the account variant that is read has exactly the bytes before the network as its fixed field |
| `JunctionCodec.ReadsFixedPrefixOnly` | precompiles/utils/src/data/xcm.rs:96-101 | tags 0, 4, 5 and 7 are read from their tag and fixed field alone, whatever follows |
| `JunctionCodec.ReadsAccount` | precompiles/utils/src/data/xcm.rs:103-135 | tag, fixed field and network bytes read back as the account junction |
| `JunctionCodec.JunctionRoundTrip` | precompiles/utils/src/data/xcm.rs:79-202 | decoding the bytes written for any non-Plurality junction within its bounds gives the same junction |
| `JunctionCodec.JunctionIgnoresTrailing` | precompiles/utils/src/data/xcm.rs:136-149 | for Parachain, PalletInstance, GeneralIndex and OnlyChild, decoding the encoding followed by any extra bytes still gives the junction |
| `JunctionCodec.DecodedFixedField` | precompiles/utils/src/data/xcm.rs:92-144 | a decoded junction's tag is the first byte, and its fixed field is the bytes after the tag |
| `JunctionCodec.JunctionDecodeCanonical` | precompiles/utils/src/data/xcm.rs:79-152 | whatever decodes can be written again; its encoding is a prefix of the input, and the whole input when the last field is a key or a Named network |
| `JunctionCodec.ZeroPolkadotAccountExample` | precompiles/utils/src/data/xcm.rs:162-166 | a Polkadot AccountId32 with 32 zero bytes is written as [1] ++ 32 zero bytes ++ [2], and read back |
| `JunctionCodec.UnknownNetworkInAccountExample` | precompiles/utils/src/data/xcm.rs:104-112 | an AccountId32 whose trailing NetworkId has tag 9 fails with the NetworkId read's UnknownVariantTag |
| `JunctionCodec.PluralityNeverEncoded` | precompiles/utils/src/data/xcm.rs:199-201 | Plurality is never written: the writer fails with UnsupportedVariant |
| `JunctionsCodec.JunctionListFromFields` | precompiles/utils/src/data/xcm.rs:213 | the junction list reads exactly when every field decodes; it keeps length and order, and element i is the decoding of field i |
| `JunctionsCodec.ListErrorIsFirstFailure` | precompiles/utils/src/data/xcm.rs:213 | a failed list read reports the error of the first field that fails, with every earlier field decoding |
| `JunctionsCodec.JunctionsErrorIsFirstFailure` | precompiles/utils/src/data/xcm.rs:212-219 | when some field fails to decode, reading Junctions reports the error of the first failing field, before any depth check |
| `JunctionsCodec.PushAll` | precompiles/utils/src/data/xcm.rs:214-221 | folding pushes into an empty path yields the list itself, in order, when it has at most MAX_DEPTH elements, and overflow otherwise |
| `JunctionsCodec.JunctionsFromFields` | precompiles/utils/src/data/xcm.rs:212-222 | reading Junctions succeeds exactly when every field decodes and there are at most MAX_DEPTH of them; the order is kept; a decodable list that is too deep fails with LengthOverflow; a list with an undecodable field fails with that list read's error |
| `JunctionsCodec.ReadJunctions` | precompiles/utils/src/data/xcm.rs:212-222 | the imperative read (decode the list, then the push loop) returns what JunctionsFromFields specifies |
| `JunctionsCodec.JunctionsToFields` | precompiles/utils/src/data/xcm.rs:224-227 | the path is written as its junctions' inner bytes in the same order; it fails with UnsupportedVariant exactly when some junction is a Plurality |
| `JunctionsCodec.FieldsDecodeToPath` | precompiles/utils/src/data/xcm.rs:224-227 | each written field decodes to the junction at the same position |
| `JunctionsCodec.FieldsReadAsPath` | precompiles/utils/src/data/xcm.rs:212-222 | fields that decode one by one to a path's junctions are read as that path |
| `JunctionsCodec.JunctionsRoundTrip` | precompiles/utils/src/data/xcm.rs:212-227 | decoding the written form of a path of encodable junctions gives the same path, in the same order |
| `JunctionsCodec.DepthBoundIsExact` | precompiles/utils/src/data/xcm.rs:214-219 | MAX_DEPTH decodable fields are read; MAX_DEPTH + 1 fail with LengthOverflow |
| `MultiLocationCodec.MultiLocationToTuple` | precompiles/utils/src/data/xcm.rs:241-243 | a location is written as (parents, interior fields) exactly when no junction is a Plurality, with interior field i the encoding of junction i, in order; otherwise it fails with UnsupportedVariant |
| `MultiLocationCodec.MultiLocationFromTuple` | precompiles/utils/src/data/xcm.rs:235-239 | a location is read exactly when its interior reads, keeps the parents count, and has as junction i the decoding of interior field i; otherwise it fails with the Junctions read's error |
| `MultiLocationCodec.MultiLocationRoundTrip` | precompiles/utils/src/data/xcm.rs:235-243 | reading back a written location whose junctions are encodable gives the same location |
| `MultiLocationCodec.ParentsOnlyExample` | precompiles/utils/src/data/xcm.rs:235-243 | a location 255 parents up, with an empty interior, round-trips |

## Left out

- ABI framing is not modelled: `Bytes`, `Vec<T>` and tuples, with their offsets and
  32-byte length words, live in other files of the crate. A junction field is its
  inner byte string. `Vec<Junction>` is the list of those strings. The pair
  `(u8, Junctions)` is `LocationTuple`. Framing is assumed to round-trip, and its
  own read errors are not modelled.
- The reader's cursor is modelled only through `ReadRawBytes` and `ReadTillEnd`. The
  cursor-overflow check (`checked_add`) cannot fail on an in-memory buffer, so it is
  left out.
- `Junctions::push` comes from the `xcm` crate. It is modelled as `Push` on a
  sequence of at most `MAX_DEPTH` junctions, not as the `Here`/`X1`..`X8` enum.
- `Plurality` carries a body id and a body part. These are not modelled, because the
  codec never looks inside them.
- `JunctionCodec.JunctionToBytes`: when it meets `Plurality`, the source panics
  (`unreachable!`). The model returns `Err(UnsupportedVariant)` instead. A path
  containing a Plurality therefore fails as a whole, where the source aborts partway
  through writing.
- Revert messages are not modelled, only error kinds. Lines 60 and 85 share one
  message, "Junctions cannot be empty". Both are `EmptyInput` here.
- The `has_static_size` methods (lines 206-208, 229-231, 245-247) are constants or
  defer to generic code, so they are left out.
- The concrete bound values come from the `xcm` crate. That crate is not part of this
  model.
