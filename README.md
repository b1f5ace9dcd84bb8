# IPP request/response assembly in Dafny

This project models the request/response object of an Internet Printing
Protocol (IPP) library, `IppRequestResponse`. The object owns three things:
a header (version, operation or status code, request id), the attribute section
(an ordered sequence of delimiter-tagged groups), and an optional document
payload. The model covers:

- **building a request** (`new`): the header has the operation's code and
  request id 1. The operation-attributes group gets `attributes-charset` =
  "utf-8" and then `attributes-natural-language` = "en", in that order. When a
  target URI is given, a `printer-uri` attribute follows, in which every "http"
  of the URI has become "ipp";
- **building a response** (`new_response`): the header has the status code and
  the caller's request id, and the attributes are the same two bootstrap ones;
- **the accessors**: reading the header, attributes and payload, and writing
  them through `header_mut`, `attributes_mut` and `payload_mut`;
- **serialising** (`to_bytes`): the header bytes followed by the attribute
  bytes, never the payload;
- **streaming** (`into_reader`): the same bytes, then the payload's bytes when
  there is a payload.

Files:

- `base.dfy` (module `Base`): the `u8`, `u16` and `u32` integer widths, and `Option`.
- `text.dfy` (module `Text`): Rust's `str::replace` for a non-empty pattern.
  `Replace` rewrites every leftmost, non-overlapping occurrence. The lemmas say
  when the result is unchanged, that the pattern is gone from the result,
  idempotence, an inverse, the length, and how `Replace` splits over concatenation.
- `ipp.dfy` (module `Ipp`): the protocol types the object is built from.
  `IppAttributes.Add` appends an attribute under a delimiter tag. `FindInGroup`
  looks an attribute up by name. `Codec` holds the two encoders, which stay abstract.
- `request.dfy` (module `Request`): the class `IppRequestResponse`, the
  specification functions its methods are proved against, and the lemmas about
  the `printer-uri` rewrite.

How the source's types appear here:

- `IppHeader::to_bytes` and `IppAttributes::to_bytes` are passed in as a `Codec`
  value: a pair of total functions. Every contract holds for every such pair. So
  the model proves how the bytes are put together without fixing a wire format.
- `Operation` and `StatusCode` appear through their `u16` discriminants (`as u16`).
- The payload is an asynchronous reader in the source. Here it is the finite byte
  sequence that the reader yields.
- `into_reader` returns the byte sequence that the chained reader yields.
- The read accessors `header()`, `attributes()` and `payload()` are the class's
  fields, read directly.
- A write through `header_mut`, `attributes_mut` or `payload_mut` is modelled as
  `SetHeader`, `SetAttributes` or `SetPayload`. Each one replaces its field with
  the new value and keeps the other two fields. The constructors build their
  attributes by calling `SetAttributes` with `attributes.Add(...)`, the way the
  source calls `attributes_mut().add(...)`.

IPP addresses printers as `ipp://` URIs. The code gets there with
`uri.replace("http", "ipp")` (request.rs line 44), which rewrites every
occurrence of "http", not only the scheme. The model follows the code;
`RewriteUriEveryOccurrence` states it: an "http" in a host name is rewritten too.

`IppAttributes::add` lives in the library's attribute module, outside
request.rs. The model takes it to append the attribute to the trailing group
when that group has the same tag, and to open a new group otherwise. No group is
merged across a group with a different tag.

## Model

| member | source | states |
|---|---|---|
| `Request.IppRequestResponse.New` | ipp-proto/src/request.rs:24-49 | header is (version, `operation as u16`, request id 1); payload is `None`; attributes are `RequestAttributes(uri)`, built by successive `add` calls |
| `Request.IppRequestResponse.NewResponse` | ipp-proto/src/request.rs:52-70 | header is (version, `status as u16`, the caller's id); payload is `None`; attributes are exactly the two bootstrap attributes |
| `Request.IppRequestResponse.SetHeader` | ipp-proto/src/request.rs:77-80 | a write through `header_mut` changes the header only; attributes and payload stay as they were |
| `Request.IppRequestResponse.SetAttributes` | ipp-proto/src/request.rs:87-90 | a write through `attributes_mut` changes the attributes only; header and payload stay as they were |
| `Request.IppRequestResponse.SetPayload` | ipp-proto/src/request.rs:97-100 | a write through `payload_mut` changes the payload only; header and attributes stay as they were |
| `Request.IppRequestResponse.ToBytes` | ipp-proto/src/request.rs:102-108 | the buffer filled with the header's bytes, then the attributes' bytes, is `MessageBytes` of the current header and attributes; the payload plays no part |
| `Request.IppRequestResponse.IntoReader` | ipp-proto/src/request.rs:110-123 | the reader yields `StreamBytes`: the `to_bytes` output, then the payload's bytes, or nothing more when there is no payload |
| `Request.MessageBytes` | ipp-proto/src/request.rs:102-108 | the output's length is the sum of the two encodings; its first part is exactly the header's bytes and the rest exactly the attributes' bytes |
| `Request.StreamBytes` | ipp-proto/src/request.rs:111-123 | the message bytes are a prefix of the stream; what follows is exactly the payload's bytes (none without a payload); the length is the sum; without a payload the stream is the message bytes |
| `Request.StreamStartsWithMessage` | ipp-proto/src/request.rs:112-121 | whatever the payload, the stream starts with the same message bytes, so every header and attribute byte comes before any payload byte |
| `Request.BootstrapAttributes` | ipp-proto/src/request.rs:32-39 | one operation-attributes group holding charset "utf-8" and then natural language "en"; well formed; no `printer-uri` |
| `Request.RequestAttributes` | ipp-proto/src/request.rs:32-46 | a single operation-attributes group: charset at index 0, natural language at index 1; a third attribute, `printer-uri` with the rewritten URI, exactly when a URI is given; lookup of `printer-uri` finds it exactly then; the carried URI has no "http" |
| `Text.Replace` | ipp-proto/src/request.rs:44 | Rust's `str::replace` for a non-empty pattern; it has no contract of its own and is characterised by the `Text.Replace*` and `Text.MatchesCountsOccurrence` lemmas |
| `Request.RewriteUri` | ipp-proto/src/request.rs:44 | `uri.replace("http", "ipp")`; it has no contract of its own and is characterised by the `Request.RewriteUri*` lemmas and the URI clause of `Request.RequestAttributes` |
| `Request.RewriteUriRemovesHttp` | ipp-proto/src/request.rs:44 | the URI a request carries never contains "http" |
| `Request.RewriteUriWithoutHttp` | ipp-proto/src/request.rs:44 | a URI without "http" is carried unchanged |
| `Request.RewriteUriInverse` | ipp-proto/src/request.rs:44 | for a URI without "ipp", replacing "ipp" by "http" in the carried URI gives back the caller's URI |
| `Request.RewriteUriInjective` | ipp-proto/src/request.rs:44 | two different URIs without "ipp" never give the same `printer-uri` |
| `Request.RewriteUriLength` | ipp-proto/src/request.rs:44 | the carried URI is one character shorter per rewritten "http", and shorter than the caller's exactly when the caller's contains "http" |
| `Request.RewriteUriIdempotent` | ipp-proto/src/request.rs:44 | rewriting the carried URI again changes nothing |
| `Request.RewriteUriScheme` | ipp-proto/src/request.rs:41-44 | "http" followed by a rest without "http" becomes "ipp" followed by the same rest |
| `Request.RewriteUriSecureScheme` | ipp-proto/src/request.rs:41-44 | "https" followed by a rest without "http" becomes "ipps" followed by the same rest |
| `Request.RewriteUriEveryOccurrence` | ipp-proto/src/request.rs:44 | an "http" after a part without 'h' is rewritten as well, not only a leading scheme |
| `Request.RewriteUriSecureExample` | ipp-proto/src/request.rs:44 | "https://h/" is carried as "ipps://h/" |
| `Ipp.IppAttributes.Add` | ipp-proto/src/request.rs:32-45 | the tagged attributes in arrival order gain exactly (tag, attribute) at the end; the trailing group has the tag; a new group opens exactly when the trailing group has another tag; earlier groups are untouched; well-formedness is preserved |
| `Ipp.FindInGroup` | ipp/examples/get-printers.rs:22-24 | name lookup in a group returns the first attribute of that group with that name, and returns nothing exactly when no attribute has that name |
| `Text.ReplaceWithoutMatch` | ipp-proto/src/request.rs:44 | `replace` returns its input when the pattern does not occur |
| `Text.ReplaceRemoves` | ipp-proto/src/request.rs:44 | when the replacement cannot start or finish an occurrence of the pattern, the result contains no occurrence of the pattern |
| `Text.ReplaceIdempotent` | ipp-proto/src/request.rs:44 | under the same condition, replacing twice equals replacing once |
| `Text.ReplaceInverse` | ipp-proto/src/request.rs:44 | replacing back restores an input that contained no copy of the replacement, when the replacement's first character does not recur in it |
| `Text.ReplaceLength` | ipp-proto/src/request.rs:44 | the result's length is the input's length plus, per rewritten occurrence, the difference of the two lengths |
| `Text.MatchesCountsOccurrence` | ipp-proto/src/request.rs:44 | `replace` rewrites at least one occurrence exactly when the pattern occurs |
| `Text.ReplacedNotPrefix` | ipp-proto/src/request.rs:44 | a prefix absent from the input and free of the replacement's first character is absent from the result |
| `Text.ReplaceShort` | ipp-proto/src/request.rs:44 | a string shorter than the pattern is returned unchanged |
| `Text.ReplaceAfterPlain` | ipp-proto/src/request.rs:44 | a leading part without the pattern's first character is copied, and the rest is rewritten on its own |

## Left out

- The wire encodings of `IppHeader::to_bytes` and `IppAttributes::to_bytes`: they are defined outside request.rs (the header and attribute modules). They stay abstract as `Codec`, so no round trip through a decoder is stated.
- The numeric values of `Operation`, `StatusCode` and the delimiter tags: they are defined outside request.rs (the protocol's operation, status and tag enumerations). Only the `u16` discriminant is used.
- `IppValue` kinds other than charset, natural language and URI: request assembly creates only these three. All other kinds share the single `Other` variant.
- Streaming in `into_reader` (the `Cursor`, `AsyncReadExt::chain`, the boxed `AsyncRead`, reading in chunks and backpressure): the model gives only the byte sequence the reader yields.
- Ownership: `into_reader` consumes the object in the source. Here the object stays readable afterwards.
- `debug!` logging (request.rs lines 114 and 118): it has no effect on the result.
- The internals of the `bytes` crate (`BytesMut`, `put`, `freeze`): the buffer is a sequence that is appended to.
- `Text.Replace` with an empty pattern: Rust's `replace` then inserts the replacement at every character boundary, both ends included (`"abc".replace("", "x")` is `"xaxbxcx"`). The source only calls it with "http", so the model requires a non-empty pattern.
- Strings are sequences of characters, not UTF-8 bytes. The pattern "http" is ASCII, so matching it on characters gives the same result as matching it on bytes.
- `FindInGroup` returns `None` for a missing name, where indexing a group with `[name]` in the source panics. The model makes that failure explicit instead of modelling the panic.
- The command-line example `ipp/examples/get-printers.rs` is left out: it does argument parsing, logging setup, a network client and `block_on`. Only its name lookup in a group appears here, as `FindInGroup`.
