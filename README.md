# PackStream boolean unpacking, in Dafny

This project models `unpack`, the only decoding logic of the `pack_stream`
Rust crate. It is the first step of a PackStream-style marker-byte decoder,
the value encoding used by a graph-database wire protocol. `unpack` reads the
marker byte at the start of a byte buffer and decodes a boolean:

- marker `0xC2` is `false`;
- marker `0xC3` is `true`;
- any other marker panics ("Unknown header bytes");
- an empty buffer panics too, because byte 0 is indexed out of bounds.

The model is one module, `PackStream` in `pack_stream.dfy`. The source
function is a single `match` with no loops and no mutable state, so the model
is pure: a `u8` newtype for the buffer's bytes, a `Result` datatype, and
functions and lemmas. The two panics become explicit failures:
`Err(IndexOutOfBounds)` for the empty buffer and `Err(UnknownHeader(m))` for
an unknown marker `m`. `MarkerOf` is the reference table of the two boolean
markers, and `Unpack` is proved to invert it. `MarkerCensus` states the
dispatch over the whole byte range: exactly 2 of the 256 marker bytes are
accepted and the other 254 are rejected.

The PackStream format defines many more marker types (integers, text, lists,
maps, structs). This crate's code implements only the two boolean markers and
panics on everything else. This model follows the code: the two panics are
kept as failure outcomes, not changed into a lenient policy.

## Model

| member | source | states |
|---|---|---|
| `PackStream.Unpack` | src/lib.rs:6-12 | Decoding succeeds exactly when the buffer is non-empty and its first byte is `0xC2` or `0xC3`. On success the value is `true` exactly when that byte is `0xC3`. Every failure is `IndexOutOfBounds` for an empty buffer and `UnknownHeader` carrying the offending first byte otherwise. |
| `PackStream.MarkerOf` | src/lib.rs:8-9 | The marker chosen for each boolean is one of the two accepted markers, and a one-byte buffer holding it decodes back to that boolean. |
| `PackStream.UnpacksFalse` | src/lib.rs:8 | A buffer starting with `0xC2` decodes to `false`, whatever bytes follow (the case the crate's test `it_unpacks_false` exercises). |
| `PackStream.UnpacksTrue` | src/lib.rs:9 | A buffer starting with `0xC3` decodes to `true`, whatever bytes follow (the case the crate's test `it_unpacks_true` exercises). |
| `PackStream.UnknownMarkerRejected` | src/lib.rs:10 | A non-empty buffer whose first byte is neither `0xC2` nor `0xC3` fails with `UnknownHeader` of that byte and never yields a boolean. |
| `PackStream.EmptyInputRejected` | src/lib.rs:7 | An empty buffer fails with `IndexOutOfBounds`: there is no byte 0 to dispatch on. |
| `PackStream.TrailingBytesIgnored` | src/lib.rs:7 | Only the first byte matters: appending bytes to a non-empty buffer, or cutting it down to its first byte, does not change the outcome. |
| `PackStream.UnpackInvertsMarkerOf` | src/lib.rs:7-9 | `Unpack` yields `Ok(v)` if and only if the buffer is non-empty and starts with the marker of `v`. |
| `PackStream.AcceptedMarkersDecodeDistinctly` | src/lib.rs:8-9 | Two accepted buffers decode to the same boolean if and only if they start with the same marker, so the two markers decode to different values. |
| `PackStream.MarkerCensus` | src/lib.rs:7-11 | Over all 256 byte values, the accepted markers are exactly `{0xC2, 0xC3}` (2 of them). The rejected markers are all the others (254 of them). |

## Left out

- `extern crate rustc_serialize` (src/lib.rs:1) and the commented-out import (src/lib.rs:4): a foreign library the function never uses.
- The text of the panic message (src/lib.rs:10): only the fact that the failure carries the offending byte is modelled, not how it is formatted.
- Panics: both panics are modelled as `Err` outcomes that a caller can inspect. Unwinding and process termination are not modelled.
- Ownership: the source takes the buffer `Vec<u8>` by value. The model takes an immutable `seq<u8>`, since `unpack` never changes the buffer.
- The other marker types of the format (tiny integers, sized integers, floats, text, lists, maps, structs) and the recursive decoder: the crate's code does not implement them.
- tests/lib.rs is test harness code. It is not modelled as a component. Its two assertions are covered by `UnpacksFalse` and `UnpacksTrue`.
