# p0fclient, modelled in Dafny

A model of the protocol core of `p0fclient`, a Go client for the p0f passive
fingerprinting daemon's query socket (the p0f v3 query API, section 4 of the
p0f README). One call of `QueryIP` builds a 21-byte query for an address,
writes it to the daemon's Unix socket, makes one read into a 232-byte buffer
(which may return fewer bytes), decodes what was read
little-endian, checks the response magic and classifies the status.
`Response.String` renders a one-line summary.

Everything is modelled as pure functions over byte sequences:

- `results.dfy` — `Option` and `Result`, standing for Go's nil-able values and
  `(value, error)` returns.
- `bytes.dfy` — `Byte`, `U32` and `I16` as integer subset types, little-endian
  encoding (`FromLe`/`ToLe`) and the two's-complement reading of an `int16`.
- `layout.dfy` — a struct on the wire as a table of field offsets, with
  `Flatten` (what `binary.Write` does) and `Split` (what `binary.Read` does)
  and the proofs that each undoes the other.
- `wire.dfy` — the constants, the `Query` and `Response` records, their
  offset tables, `EncodeQuery`, `DecodeResponse` and their partners
  (`DecodeQuery`, `EncodeResponse`) used to state the round trips.
- `client.dfy` — `createQueryForIP`, the classification of a decoded
  response, the whole `QueryIP` exchange against an abstract socket, and
  `Response.String`.

The parts of `QueryIP` that touch the outside world are inputs: the address
arrives as its two `net.IP` projections (`To4()` and `To16()`, each possibly
nil), and the socket as the outcome of the one `Write` (ok or failed) and of
the one `Read` (the bytes placed in `readbuf[0:n]`, or failed). `QueryIP`
returns an `Exchange`: the bytes written (none when no query could be built),
the size of the buffer read into (none when nothing was read), and the result.

Points of the code's behaviour worth knowing:

- `Response.String` prints the OS name and flavour as all 32 raw bytes each
  (`%s` on a `[32]uint8`); nothing is cut at the first NUL byte.
- Any match-quality byte other than `0x01` is rendered as `(generic)`, not
  only `0x02`.
- A short buffer is reported as one of two decode errors, following
  `io.ReadFull` inside `binary.Read`: `EndOfInput` (`io.EOF`) when the read
  returned no byte, `UnexpectedEndOfInput` (`io.ErrUnexpectedEOF`) otherwise.
- The bad-query error wraps the variable `err`, which is always nil at that
  point (the decode just succeeded), so it wraps no cause; the model's
  `BadQuery` carries none.

## Model

| member | source | states |
|---|---|---|
| Bytes.FromLeToLe | p0fclient.go:154-157 | reading back little-endian bytes that were written for a value gives that value |
| Bytes.ToLeFromLe | p0fclient.go:174-178 | writing the value read from little-endian bytes gives back the same bytes, so the encoding is a bijection |
| Bytes.ToSigned16 | p0fclient.go:47 | the `int16` read from a 16-bit pattern is the unique value in range congruent to it modulo 2^16, negative exactly when the top bit is set |
| Bytes.FromSigned16 | p0fclient.go:47 | the 16-bit pattern written for an `int16` is that value modulo 2^16 |
| Bytes.FromLeDigits | p0fclient.go:155 | a 2- or 4-byte little-endian value is the first byte plus 256 times the second, and so on up the byte positions |
| Bytes.Signed16RoundTrip | p0fclient.go:47 | the int16 reading and the two's-complement bit pattern are inverse to each other |
| Layout.SplitFlatten | p0fclient.go:154-157 | the fields written one after another with no padding are read back unchanged at their offsets |
| Layout.FlattenSplit | p0fclient.go:174-178 | cutting a buffer into its fields and writing them out again gives the same buffer |
| Wire.Layouts | p0fclient.go:31-56 | both offset tables are well formed and the structs are 21 and 232 bytes long |
| Wire.ResponseWidths | p0fclient.go:37-56 | the response fields are nine 4-byte words, a 2-byte distance, two single bytes and six 32-byte texts |
| Wire.EncodeQuery | p0fclient.go:31-35 | the encoded query is 21 bytes: the little-endian magic at 0..4, the family byte at 4, the 16 address bytes at 5..21 |
| Wire.QueryRoundTrip | p0fclient.go:154-157 | decoding an encoded query field by field gives back the query |
| Wire.QueryBytesRoundTrip | p0fclient.go:154-157 | every 21-byte buffer is the encoding of the query decoded from it |
| Wire.DecodeResponse | p0fclient.go:167-178 | decoding succeeds exactly when at least 232 bytes were read; no bytes is end-of-input, fewer is unexpected end-of-input; a success re-encodes to the first 232 bytes read |
| Wire.DecodeResponseOffsets | p0fclient.go:37-56 | each decoded field comes from its fixed offset: magic 0, status 4, counters 8..36, distance 36 as two's complement, flags 38 and 39, texts from 40 in steps of 32 up to 232 |
| Wire.ParseEncode | p0fclient.go:174-178 | reading a full response buffer built from a response gives that response |
| Wire.EncodeParse | p0fclient.go:174-178 | a full response buffer is the encoding of the response read from it |
| Wire.ResponseRoundTrip | p0fclient.go:167-178 | decoding the daemon's encoding of any response gives that response |
| Client.CopyInto | p0fclient.go:130-134 | the copy loop puts the source bytes at consecutive indices from the start index and leaves every other address byte as it was |
| Client.CreateQueryForIP | p0fclient.go:114-137 | construction succeeds exactly when some projection exists; magic is the request magic; a 4-byte form gives family 4, that form in bytes 0..4 and zeros after; otherwise the 16-byte form gives family 6 and is copied whole; no form is a construction error |
| Client.Classify | p0fclient.go:180-194 | a wrong magic is a bad-magic error whatever the status; with the right magic, status 0x10 or 0x20 returns the response unchanged, 0x00 is a bad-query error, any other status an unknown-status error |
| Client.QueryIP | p0fclient.go:146-195 | nothing is written or read when construction fails; the written bytes decode to the built query; one read into a 232-byte buffer (which may return fewer bytes) happens exactly after a successful write; a communication error arises exactly when the write or the read failed; a decode error exactly when fewer than 232 bytes were read; a success carries the response the first 232 bytes encode, with the right magic and status 0x10 or 0x20 |
| Client.QueryIPWritesQuery | p0fclient.go:149-162 | the bytes written are exactly the encoding of the query built for the address, and nothing is written when no query could be built |
| Client.QueryIPReceivesResponse | p0fclient.go:167-194 | when the daemon replies with the encoding of a response, the client's result is that response's own classification |
| Client.QueryIPBadMagic | p0fclient.go:180-183 | a reply whose first four bytes are not the response magic is a bad-magic error, whatever follows |
| Client.QueryIPStatus | p0fclient.go:185-194 | with the right magic, the status word at bytes 4..8 decides success (0x10, 0x20), bad query (0x00) or unknown status (anything else) |
| Client.IPv4LoopbackQuery | p0fclient_test.go:51-55 | `127.0.0.1` gives an IPv4 query with address bytes 127, 0, 0, 1 followed by twelve zeros |
| Client.IPv6LoopbackQuery | p0fclient_test.go:56-59 | `::1` gives an IPv6 query carrying its 16 bytes |
| Client.Describe | p0fclient.go:58-67 | the summary is the 32 raw OS-name bytes, a space and the 32 raw flavour bytes, and it ends in " (fuzzy)" exactly when the match byte is 0x01 and in " (generic)" exactly when it is anything else |

## Left out

- `Connect` (p0fclient.go:100-112): a file-system `Stat` and a Unix-socket dial, both I/O.
- `Stop` (p0fclient.go:197-201) and the `sync.Mutex` held across write and read in `QueryIP`: their purpose is concurrency; the model is one sequential exchange.
- `NewP0fClient` and `SetSocket`: field setters with nothing to state.
- `net.IP.To4` and `net.IP.To16`: library code; their results are inputs.
- The transport's `Write` and `Read`: their outcomes are inputs. The read's byte count is not bounded by the buffer size in the model; decoding only ever consumes the first 232 bytes.
- The error path of `binary.Write` into a `bytes.Buffer` (p0fclient.go:155-157): it cannot fail for a fixed-size struct, so encoding is total.
- The partially filled `Query` that `createQueryForIP` returns beside its error: `QueryIP` discards it.
- A call on a client that never connected (nil connection): Go panics; not modelled.
- Error message texts: errors are a tagged union with one constructor per return site.
- `cli/main.go`: flag parsing and printing.
