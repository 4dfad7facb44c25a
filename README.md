# node-tcp round-trip benchmark, modelled in Dafny

The system is a TCP latency benchmark made of two Node scripts. The echo
server (`server.js`) sends every message it receives straight back. The
client (`cliente.js`) sends one message, waits for its echo and records
the round-trip time. It repeats this `COUNT` times, skips the warm-up
requests, and then reports min, p50, p90, p99, max and the average of the
samples it kept.

Both scripts use the same wire format. Each message is a frame: a 4-byte
unsigned big-endian length header followed by exactly that many payload
bytes. Both also use the same stream decoder (`messageBuild`). The decoder
appends each incoming chunk to a per-connection buffer. It then takes every
complete frame off the front of that buffer, in order. An incomplete frame
stays in the buffer, header included, until more bytes arrive. The decoder
at `server.js:6-26` is a verbatim copy of the one at `cliente.js:39-59`,
so it is modelled once and used by both sides.

Files and modules:

- `framing.dfy`, module `Framing`. The `byte` type. The big-endian header
  (`WriteUInt32BE`, `ReadUInt32BE`). `Encode` (`makeData`). The decoder's
  specification `Parse`, which splits a stream into the payloads of its
  leading complete frames and the unparsed remainder. The lemmas about
  `Parse`: round trip, reassembly, coalescing, and decoding one part of a
  stream and then the rest.
- `decoder.dfy`, module `StreamDecoder`. Class `Decoder` with field `buff`
  and method `Feed`, the `while` loop of `messageBuild`, proved against
  `Parse`. `DecodeChunks` feeds an arbitrary split of a stream to a fresh
  decoder.
- `echo_server.dfy`, module `EchoServer`. Class `Connection`: one decoder
  per socket, plus the bytes written back so far. `Reply` is the decoder's
  callback. `OnData` is the socket's `data` handler. `Serve` runs a whole
  connection.
- `driver.dfy`, module `RttDriver`. Class `Driver` with `sent`, `t0`,
  `rtts` and a trace of socket actions. `Connect`, `SendNext` and `Echo`
  are the `connect` handler, `sendNext` and `onFinishBuild`. `Run` is a
  whole run against a peer that echoes every request.
- `statistics.dfy`, module `Statistics`. The nearest-rank
  `PercentileIndex` and `Percentile`. The in-place sort of the samples.
  `Summary`, the figures of the report. `OnEnd`, the `end` handler.
- `client.dfy`, module `Client`. `Benchmark`: a run followed by its report. `Summarize`: the `end` handler applied to the collected samples.

Timestamps are integer nanoseconds passed in as arguments. A write to a
socket is an append to a sequence. Closing the socket is an `End` action in
the driver's trace.

## Model

| member | source | states |
|---|---|---|
| `Framing.WriteUInt32BE` | cliente.js:35-36 | The header of a length below 2^32 is exactly four bytes. |
| `Framing.ReadUInt32BE` | cliente.js:49 | The header read from the first four bytes is an unsigned 32-bit value (below 2^32). |
| `Framing.HeaderRoundTrip` | cliente.js:36 | Reading back a written header gives the written length, for every length below 2^32. |
| `Framing.HeaderBytesRoundTrip` | cliente.js:49 | Writing back a read header reproduces the four bytes that were read, so the header encoding is a bijection. |
| `Framing.Encode` | cliente.js:33-38 | A frame is 4 bytes longer than `m`, its header reads back as the length of `m`, and the bytes after the header are `m`. |
| `Framing.Parse` | cliente.js:45-57 | The decoder's specification. Every emitted payload fits a 32-bit header, and what is left over never begins with a complete frame. |
| `Framing.ParseReassembles` | cliente.js:47-56 | Nothing is lost or invented: the emitted payloads, framed again, followed by the remainder, give back the input exactly. |
| `Framing.ParseFrames` | cliente.js:47-57 | A run of frames followed by any bytes `t` decodes to those payloads in order, then to whatever `t` decodes to. |
| `Framing.DecodeFrames` | cliente.js:43-58 | Decoding the frames of any list of messages gives back that list and an empty remainder, so `Parse` inverts `Frames`. |
| `Framing.RoundTrip` | cliente.js:43-58 | One frame decodes to exactly its payload and leaves nothing, for every payload including the empty one. |
| `Framing.EmptyFrame` | cliente.js:33-38 | The empty message encodes to four zero bytes, and those decode to one empty message. |
| `Framing.Coalesced` | cliente.js:47-57 | Two frames arriving in one chunk decode to both payloads, in order, with nothing left over. |
| `Framing.ParseAppend` | cliente.js:45 | Decoding `s + t` is decoding `s`, then decoding its leftover with `t` appended. This is what the accumulation buffer relies on. |
| `StreamDecoder.Decoder.constructor` | cliente.js:41 | A new decoder starts with an empty buffer. |
| `StreamDecoder.Decoder.Feed` | cliente.js:43-58 | After a chunk, the emitted messages are the payloads `Parse` finds in the old buffer plus the chunk, the new buffer is `Parse`'s remainder, and the buffer holds no complete frame. |
| `StreamDecoder.DecodeChunks` | server.js:12-24 | Fragmentation invariance. For any split of a stream into chunks fed in order to a fresh decoder, the messages are those of the whole stream and the final buffer is its remainder, whatever the split points. |
| `StreamDecoder.DecodeOneFrame` | server.js:10-25 | A fresh decoder fed one whole frame emits exactly that payload and keeps an empty buffer. |
| `EchoServer.Connection.constructor` | server.js:29-33 | Every connection gets its own fresh decoder with an empty buffer and has written nothing, so no bytes carry across connections. |
| `EchoServer.Connection.Reply` | server.js:33-41 | One decoded message causes exactly one frame to be written, and that frame's header is the payload length. |
| `EchoServer.Connection.OnData` | server.js:10-25 | After a chunk, the written bytes grow by the frames of exactly the messages decoded from it, in decode order, and the buffer is the undecoded remainder. |
| `EchoServer.Serve` | server.js:29-43 | For any split of the incoming stream, the server writes one frame per complete incoming frame, in order. The written bytes equal the incoming bytes minus the incomplete tail. |
| `EchoServer.EchoOneFrame` | server.js:35-40 | A single incoming frame, the empty message included, is echoed byte for byte. |
| `EchoServer.RepliesDecode` | server.js:35-40 | The client decodes the server's replies to exactly the messages the server decoded, in order. |
| `RttDriver.Driver.constructor` | cliente.js:74-78 | The request frame is `makeData(MESSAGE)`, nothing has been sent, no sample has been taken, and nothing has been written. |
| `RttDriver.Driver.SendNext` | cliente.js:80-90 | Below `COUNT`, it starts the clock, writes the request frame and counts it. At `COUNT`, it only closes. At most `COUNT` requests are ever sent, and at most one is outstanding. |
| `RttDriver.Driver.Connect` | cliente.js:110 | On connect, it sends the first request, or closes at once when `COUNT` is 0. |
| `RttDriver.Driver.Echo` | cliente.js:92-105 | `now - t0` is appended to the samples exactly when warm-up is off or `sent > WARMUP`. It then sends the next request while `sent < COUNT`. Otherwise it closes and leaves `sent` and `t0` as they were. It preserves `sent <= COUNT` and at most one request outstanding. |
| `RttDriver.Run` | cliente.js:76-110 | A full run writes exactly `COUNT` requests and then closes. Its samples are `Samples` after `COUNT` echoes. It keeps `COUNT` samples with warm-up off and `COUNT - WARMUP` with it on. The samples are the round-trip times of the last requests, in order. |
| `RttDriver.RoundTrips` | cliente.js:94 | The round-trip times of the requests from a given one to the last: one per request, echo reading minus send reading. |
| `RttDriver.Records` | cliente.js:96-102 | The warm-up test: the echo to request `sent` (counted from 1) is kept when warm-up is off, or when `sent > WARMUP`. |
| `RttDriver.Samples` | cliente.js:94-102 | The samples after the echoes to requests 1 to `n`: each echo that passes `Records` appends its round-trip time. There are never more samples than echoes. |
| `RttDriver.SamplesCount` | cliente.js:96-102 | After `n` echoes there are exactly `Kept(n)` samples. |
| `RttDriver.SamplesAreLast` | cliente.js:94-102 | Because the warm-up window is a prefix, the samples are the round-trip times of the last requests, in order of sending. |
| `RttDriver.Kept` | cliente.js:96-102 | How many of the echoes to requests 1 to `n` pass the warm-up test. It is never more than `n`. |
| `RttDriver.KeptCount` | cliente.js:96-102 | Of echoes 1..n, all are kept with warm-up off. With it on, all but the first `WARMUP` are kept (none if `n <= WARMUP`). |
| `RttDriver.WarmupLeavesFifty` | cliente.js:97 | With warm-up on, `WARMUP = 100` and 150 requests, exactly the echoes 101 to 150 are kept: 50 samples. |
| `Statistics.PercentileIndex` | cliente.js:29 | For `n >= 1` and `0 < p <= 100` the index is in `[0, n-1]`. It is the smallest index at or below which at least `p` percent of the samples lie (the nearest rank). |
| `Statistics.PercentileIndexMonotone` | cliente.js:29 | A higher percentile never picks an earlier index. |
| `Statistics.Percentile` | cliente.js:28-31 | The value returned is one of the samples. |
| `Statistics.PercentileOrdered` | cliente.js:119-123 | On ascending samples, `min <= percentile(p) <= percentile(q) <= max` whenever `p <= q`. |
| `Statistics.Sum` | cliente.js:115 | The total of the samples, as the `reduce` with initial value 0 computes it. The average is this total divided by the number of samples. |
| `Statistics.SumBounds` | cliente.js:115 | If every sample lies in `[lo, hi]`, the total lies between `n * lo` and `n * hi`. |
| `Statistics.Summary` | cliente.js:115-124 | On ascending samples, `min <= p50 <= p90 <= p99 <= max`. Min and max are samples and bound every sample, and `n * min <= total <= n * max`, so the average lies between min and max. |
| `Statistics.SortAscending` | cliente.js:113 | The samples end up ascending and are a permutation of the original samples. |
| `Statistics.InsertInto` | cliente.js:113 | One step of the in-place sort. It moves one sample down into the ascending prefix before it, so that prefix grows by one. The samples after it are unchanged, and the array is only rearranged. |
| `Statistics.OnEnd` | cliente.js:112-125 | At the end, the sample array is sorted in place and is a permutation of what was collected. The report is computed from the sorted samples. |
| `Client.Benchmark` | cliente.js:74-125 | The report is `Summary` of the sorted samples, and those are the kept round-trip times, ascending and rearranged only. So min is the least kept round-trip time, max is the greatest, and p50, p90 and p99 are the nearest-rank values. The report counts exactly the kept echoes. Its figures are ordered. Min and max are each the round-trip time of a kept request, and every kept round-trip time, and so the average, lies between them. |
| `Client.Summarize` | cliente.js:112-124 | The `end` handler on the collected samples. The sorted samples are ascending and a rearrangement of the collected ones, and the report is their `Summary`. |
| `Client.ReportOfKept` | cliente.js:113-124 | The summary of the sorted kept round-trip times counts them and has ordered figures. Its min and max are round-trip times of kept requests, and every kept round-trip time lies between them. |

## Left out

- Command-line parsing, the hard-coded host, port, `ENABLEDWARMUP` and `WARMUP` values, and the console logging (cliente.js:3-16, cliente.js:62-65, server.js:3-4, server.js:46-48). The message, `COUNT`, `WARMUP` and the warm-up flag are parameters. `COUNT` is a natural number; a `--count` that does not parse to one (`NaN`, a fraction) is not modelled.
- Sockets: creating them, `setNoDelay`, registering event handlers, `listen`, and the transport itself (cliente.js:71-72, cliente.js:108-112, server.js:29-31, server.js:43). Handlers are method calls, a write is an append to a sequence, and `sock.end()` is the `End` action.
- The client's own `data` path (cliente.js:74, cliente.js:108): the client's decoder calling `onFinishBuild` once per decoded echo is not one method. `Run` takes one decoded echo per request. This is what `EchoServer.Serve`, `Framing.RoundTrip` and `StreamDecoder.Decoder.Feed` give for a server that echoes each frame.
- `process.hrtime.bigint()` (cliente.js:19-21): clock readings are integer arguments. `Driver.Echo` takes two, one for the echo and one for the next send.
- `nsToUs`, the floating-point average and `toFixed` (cliente.js:23-25, cliente.js:114-124). Samples stay integer nanoseconds. Dividing all of them by 1000 changes neither their order nor which sample each statistic picks. The average is given as the exact integer total.
- `global.gc()` (cliente.js:67-69): runtime housekeeping.
- UTF-8 decoding and encoding of payloads (`toString("utf8")`, `Buffer.from(..., "utf8")`) is taken as the identity, which it is for valid UTF-8. Node replaces invalid sequences, so for such payloads the real echo can differ from the model.
- Statistics.PercentileIndex: computes `ceil(p / 100 * n)` exactly in integers. The source uses floating-point `p / 100 * n`, which could in principle round across an integer.
- Statistics.SortAscending: the source's comparator `(a, b) => a < b ? -1 : 1` is not a consistent comparator in ECMAScript's sense: it never returns 0, not even for `comparefn(a, a)`. The standard then leaves the whole resulting order to the engine. The model assumes the engine still returns the samples in ascending order, and sorts ascending by insertion.
- Client.Benchmark: requires at least one kept sample. The source has no guard for an empty run and would throw at `rttsUs[0].toFixed` (cliente.js:119). An empty report is therefore not modelled.
- RttDriver.Driver.Echo: requires that a request has been sent. Before the first send `t0` is `undefined`, so `nowNs() - t0` throws a `TypeError`.
- RttDriver.Driver.Connect: requires a driver that has done nothing yet, because the `connect` event fires once per socket.
- Framing.Encode: requires a payload shorter than 2^32 bytes. `writeUInt32BE` throws a `RangeError` for longer payloads.
- Neither decoder has a size cap or a timeout. A declared length that never arrives keeps its bytes buffered forever, and so does the model's `buff`. No framing error exists in the code, so none is modelled.
