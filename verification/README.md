# tokio-websockets: streaming UTF-8 validation and the client handshake, in Dafny

This project models two pure pieces of the tokio-websockets WebSocket client and proves their properties.

**The streaming UTF-8 validator** (`src/utf8.rs`). Text messages must be valid UTF-8 (sections 5.6 and 8.1 of RFC 6455). They arrive in chunks that may split a codepoint. The validator is a four-byte buffer plus a pending length. It is modelled as an immutable `Validator` record, and `feed` as a pure function returning the result and the next state.

The byte-level checks the source delegates to `simdutf8` are replaced by two definitions from section 4 of RFC 3629:
- `Utf8Syntax.Valid` is the "basic" check.
- `Utf8Syntax.Compat` is the "compat" check. It returns a `Utf8Error` with `validUpTo` and `errorLen`, as Rust's `std::str::Utf8Error` does.

Each is proved against an independent characterisation:
- `Valid` against the grammar `UTF8-octets = *( UTF8-char )`.
- `Compat` against "longest valid prefix, and is the rest a cut-short character".

The headline theorem is `Utf8.StreamingEquivalence`. However a byte string is cut into chunks, feeding them to a new validator succeeds on every call exactly when the whole string is valid UTF-8.

**The client handshake** (`src/client.rs`):
- `make_key` with a caller-supplied key: standard base64, as in section 4 of RFC 4648. `Base64.Encode` is paired with `Base64.Decode` and a round-trip proof.
- `default_port`.
- `build_request`: the byte-exact upgrade request. Its partner is a CR LF line splitter, which reads it back into its lines.
- `Builder::add_header` on a header map. The map is an ordered list of fields with unique names.
- The decisions `connect` takes before touching the network: host, port and connector.

A parsed URI is a record of its already-parsed parts, as bytes: scheme, host, port, path and query.

Modules:
- `Wrappers`: `Option`/`Result`.
- `Bytes`: `byte`, `u16`, ASCII literals, `Flatten`.
- `Decimal`: `to_string` for ports.
- `Base64`.
- `Client`.
- `Utf8Syntax`: RFC 3629, `Valid`, `Compat`.
- `Utf8`: `parse_str` and `Validator`.

## Model

| member | source | states |
|---|---|---|
| Utf8.ParseStr | src/utf8.rs:13-15 | `parse_str` succeeds exactly on input that is well-formed UTF-8 by the RFC 3629 grammar, returns the input unchanged, and otherwise fails with `InvalidUtf8` |
| Utf8.New | src/utf8.rs:30-35 | a new validator satisfies the buffer invariant and has nothing pending |
| Utf8.CompleteCodepointLen | src/utf8.rs:39-54 | for a lead byte in the classified ranges, the completed length is 1 for `0xxxxxxx` and otherwise the number of leading one bits (`110xxxxx` gives 2, `1110xxxx` gives 3, `11110xxx` gives 4), so it lies between 1 and 4; for every lead byte RFC 3629 allows, it agrees with the length that byte introduces |
| Utf8.PendingLeadClassified | src/utf8.rs:39-54 | whenever a codepoint is pending, its first byte lies in a classified range, so the unreachable arm is never taken; the pending length is below the completed length, which is at most 4 |
| Utf8.Reset | src/utf8.rs:57-60 | `reset` sets the pending length to 0, leaves the buffer as it was, and keeps the invariant |
| Utf8.FeedRemaining | src/utf8.rs:124-152 | with nothing pending, a final chunk succeeds iff it is valid and leaves nothing pending; a non-final chunk succeeds iff it can still be completed to valid UTF-8; after success the chunk is a valid prefix followed by the stored bytes; the invariant holds afterwards |
| Utf8.Feed | src/utf8.rs:66-153 | the buffer invariant holds after every call, error paths included; an empty non-final chunk while a codepoint is pending returns Ok and changes nothing; with nothing pending, a final chunk succeeds iff it is valid UTF-8 and leaves nothing pending |
| Utf8.FeedCompletes | src/utf8.rs:77-97 | when the chunk supplies all missing bytes of the pending codepoint, the result is judged on the pending bytes followed by the chunk: a final call succeeds iff they are valid, a non-final one iff they can be completed |
| Utf8.CompletingBranch | src/utf8.rs:77-121 | the completed codepoint is the pending bytes followed by the front of the chunk; an invalid codepoint fails; a valid one is discarded and the rest of the chunk is checked from an empty buffer |
| Utf8.FeedStaysShort | src/utf8.rs:98-116 | when the chunk does not complete the pending codepoint, a final call fails, and a non-final call succeeds iff the bytes can still be completed, storing them as pending |
| Utf8.FeedSpec | src/utf8.rs:62-153 | one call of `feed`, judged on the pending bytes followed by the chunk: a final call succeeds iff they are valid UTF-8; a non-final call succeeds iff they can still be completed; after success they are a valid prefix followed by the new pending bytes |
| Utf8.AcceptsMessageSpec | src/utf8.rs:62-66 | from any state that satisfies the invariant, a message is accepted iff the pending bytes followed by all its chunks are valid UTF-8 |
| Utf8.StreamingEquivalence | src/utf8.rs:62-153 | for every partition into chunks, with only the last one final, a new validator accepts every chunk iff their concatenation is valid UTF-8 |
| Utf8.ResetStartsFresh | src/utf8.rs:57-66 | after `reset`, a message is accepted iff its own bytes are valid UTF-8, whatever was pending before |
| Utf8.FeedNonFinalFresh | src/utf8.rs:133-149 | with nothing pending, a non-final chunk fails only on a definite error (`errorLen` is `Some`); a truncated tail is stored from `validUpTo`, with a length of the chunk length minus `validUpTo`, between 1 and 3 |
| Utf8.FeedFinalIncomplete | src/utf8.rs:99-115 | a pending codepoint that the final chunk does not complete, an empty final chunk included, makes `feed` return `InvalidUtf8` |
| Utf8.ExampleSplitCodepoint | src/utf8.rs:62-66 | "é" (C3 A9) split after its first byte is accepted; the lone first byte as a whole message is rejected |
| Utf8Syntax.ValidIffWellFormed | src/utf8.rs:13-15 | the deterministic scan accepts exactly the byte strings that are a concatenation of RFC 3629 characters |
| Utf8Syntax.CompatSpec | src/utf8.rs:133-138 | the compat check succeeds iff the input is valid; on failure, `validUpTo` is the length of the longest valid prefix, and `errorLen` is `None` exactly when the rest is a cut-short character |
| Utf8Syntax.CompatValidPrefix | src/utf8.rs:133-138 | compat reports success or a truncated tail exactly when the input can still be completed to valid UTF-8 |
| Utf8Syntax.DefiniteErrorIsFinal | src/utf8.rs:135-137 | input with a definite compat error stays invalid whatever bytes follow, so rejecting it early is sound |
| Utf8Syntax.TruncatedInputCompletes | src/utf8.rs:138-149 | input that compat reports as truncated has some continuation that makes it valid, so storing the tail and waiting is sound |
| Base64.MakeKey | src/client.rs:15-19 | a supplied 16-byte key becomes 24 bytes: 22 standard-alphabet bytes followed by `==`, which decode back to the key |
| Base64.DecodeEncode | src/client.rs:18 | decoding inverts standard base64 encoding, for input of every length |
| Base64.EncodeShape | src/client.rs:18 | the encoding has four bytes per started group of three; all bytes are in the alphabet except the trailing padding, which is `==` after one leftover byte and `=` after two |
| Base64.SampleNonce | src/client.rs:15-19 | the RFC 6455 section 4.1 nonce "the sample nonce" encodes to `dGhlIHNhbXBsZSBub25jZQ==` |
| Decimal.ValueOfDigits | src/client.rs:54 | the decimal digits written for a port read back as that port |
| Client.DefaultPort | src/client.rs:21-33 | an explicit port wins whatever the scheme; otherwise 443 for `https`/`wss` and 80 for `http`/`ws`; there is no port exactly when the URI has no port and an unknown or missing scheme |
| Client.Insert | src/client.rs:122-125 | after insertion, the name maps to the new value and every other name keeps its value; an existing name keeps its place and a new one goes last; unique names stay unique |
| Client.FromUri | src/client.rs:108-114 | a builder made from a URI keeps that URI, has no connector, and has an empty header map in which no name has a value |
| Client.SetConnector | src/client.rs:118-120 | `set_connector` replaces the connector and leaves the URI and header fields alone; `connect` then fails or succeeds as before, with the same host and port, but uses the given connector |
| Client.AddHeader | src/client.rs:122-125 | `add_header` sets the field to the new value, leaves every other field alone, keeps names unique, and changes neither the URI nor the connector |
| Client.BuildRequest | src/client.rs:35-74 | `build_request` writes exactly the request lines, each followed by CR LF: the request line, the `Host` line when there is a host, the four handshake fields, the caller's fields in order, and the empty line |
| Client.RequestIsJoin | src/client.rs:35-74 | for every input, CR bytes included, the request bytes are the joined request lines |
| Client.BuildRequestLines | src/client.rs:35-74 | when its parts hold no CR, the request reads back as: the request line `GET target HTTP/1.1`; `Host:` only when there is a host; the four fixed handshake fields with the key verbatim; the caller's fields in order; the empty line |
| Client.RequestFraming | src/client.rs:38-46 | the request starts with `GET ` followed by the path and, only when there is a query, `?` and the query; it ends in CR LF CR LF |
| Client.HostHeaderAgreesWithConnect | src/client.rs:48-58 | the `Host` line names the host `connect` uses; when `default_port` gives a port, it carries `:` and that port in decimal, which is the port `connect` uses; otherwise it carries no port and `connect` falls back to 80 |
| Client.PlanConnect | src/client.rs:132-145 | `connect` fails with `CannotResolveHost` exactly when there is no host; the port is the explicit one, else the scheme's default, else 80; the connector is the caller's, else a new TLS connector exactly for `wss`, else plain |
| Client.FreshBuilderConnects | src/client.rs:139-145 | a builder made from a URI alone uses TLS exactly for `wss`; an `https` URI without a port connects to port 443 without TLS |
| Client.ConnectorOverridesScheme | src/client.rs:118-125 | a connector set on the builder is used whatever the scheme; adding header fields does not change what `connect` decides |

## Left out

- `resolve`: DNS resolution on a blocking thread pool is operating-system I/O. `connect` is modelled up to the host and port it would resolve (`Client.PlanConnect`).
- `TcpStream::connect`, `Connector::new` and `Connector::wrap`: sockets and TLS negotiation. The connector choice is kept as a value (`Given`, `NewTls`, `PlainStream`), and the TLS configuration is an opaque number.
- `connect_on`: writing the request, reading the response through `upgrade::Codec` (including `NoUpgradeResponse`), and `WebsocketStream::from_framed` are asynchronous I/O with collaborators that are not part of this model. The request it writes is `Client.BuildRequest`.
- `make_key` without a key: `rand::random` is randomness, so only the caller-supplied key path is modelled (`Base64.MakeKey`).
- `Builder::new`: parsing the URI with `Uri::from_str` is a foreign parser. The model takes the parsed parts as input, and scheme comparison is on the exact bytes the parser yields.
- `simdutf8` internals and SIMD: replaced by `Utf8Syntax.Valid` and `Utf8Syntax.Compat`, which are defined from RFC 3629.
- Header names and values are taken as given byte strings. The `http` crate's validation and lower-casing of names, and the extra values `HeaderMap` keeps for `append`, are not modelled. `Client.Insert` models `HeaderMap::insert` on a map with one value per name, iterated in insertion order.
- Utf8.CompleteCodepointLen: requires a classified first byte. The source reaches `unreachable_unchecked` otherwise, and `Utf8.PendingLeadClassified` proves that this never happens.
- Utf8.Feed: requires the buffer invariant. The source relies on it through unchecked slicing, and every call re-establishes it.
- Client.BuildRequestLines: requires that no part contains a CR byte. The request's bytes are modelled exactly for all inputs (`Client.BuildRequest`, `Client.RequestIsJoin`), but the line-level reading only holds for CR-free parts. `Client.RequestFraming` has no such requirement.

## Notes

- Connector choice: with no connector set, `connect` uses TLS only when the scheme is exactly `wss` (src/client.rs:141). An `https` URI without a port connects to port 443 over a plain stream (`Client.FreshBuilderConnects`).
- `Host` port: the `:port` suffix is written only when `default_port` gives a port (src/client.rs:52). A URI with an unknown scheme and no port gets `Host: host` with no port (`Client.HostHeaderAgreesWithConnect`).
