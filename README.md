# CarND MPC controller: frame handling and trajectory decoding

This project models the discrete logic of the controller's message handler in
`src/main.cpp`, the bridge between the driving simulator and the
model-predictive trajectory optimizer:

- **Payload extraction (`hasData`).** A Socket.IO frame carries a JSON array.
  `hasData` yields no data (`""`) for any frame containing `null`, and the
  handler then sends the manual reply. Otherwise `hasData` cuts out the
  text from the first `[` through the end of the last `}]`, using
  `std::string::find`, `find_first_of`, `rfind` and `substr`. The length is
  computed as the unsigned `b2 - b1 + 2`. These library calls are modelled
  over `seq<char>` in module `StdString`; `npos` is the `NPos` constructor and
  `size_t` arithmetic is reduced modulo 2^64. When the first `[` lies after the
  last `}]`, the length wraps around. `substr` then clamps it, and the result is
  the whole suffix from that `[` (or `""` when the `[` directly follows the
  `}]`). The model keeps that behaviour and proves it (`HasDataWrapsToSuffix`).
- **Framing and dispatch** (module `SocketIo`). Only frames longer than two
  characters that start with `42` are answered. An event frame without data
  gets the fixed reply `42["manual",{}]`. A `telemetry` event gets
  `42["steer",` + the serialised control message + `]`. Any other event with
  data gets no reply.
- **Trajectory decoding** (module `Trajectory`). The optimizer returns a flat
  vector. From index 2 on, entries at even indices become the predicted x
  values and entries at odd indices the y values. The reference line is 25
  samples at x = 2.5·i, with y given by the polynomial evaluation. Both loops
  are methods proved against specification functions.

A non-`telemetry` event that carries data gets no acknowledgement: it is
answered with nothing, and only a frame without data gets the manual reply.
An odd-length optimizer result is not rejected: it is split anyway, and x
gets one entry more than y.

The JSON library and the polynomial evaluation are parameters, and the
optimizer's result vector is the input of `SplitTrajectory`.
`OnMessage` takes `eventOf` (the event name the JSON parser reads from the
payload) and `steerBody` (the serialised control message the telemetry branch
builds from it). `SampleReferenceLine` takes `polyeval`. The sample positions
2.5·i for i < 25 are exact in double precision, so they are modelled as reals.

## Model

| member | source | states |
|---|---|---|
| `StdString.SizeT` | src/main.cpp:30 | the unsigned `b2 - b1 + 2` lies below 2^64 and is congruent to the integer value modulo 2^64: it equals that value when it is in range, and the value plus 2^64 when the value lies in [-2^64, 0) |
| `StdString.Find` | src/main.cpp:24 | `find` returns the first position where the pattern occurs, and npos exactly when it occurs nowhere |
| `StdString.FindFirstOf` | src/main.cpp:25 | `find_first_of` returns the first position holding one of the characters, and npos exactly when no position does |
| `StdString.RFind` | src/main.cpp:26 | `rfind` returns the last position where the pattern occurs, and npos exactly when it occurs nowhere |
| `StdString.Substr` | src/main.cpp:30 | `substr(pos, count)` yields min(count, size - pos) characters, character k being the string's character pos + k |
| `SocketIo.HasData` | src/main.cpp:23-33 | the extracted data is never longer than the frame and, when not empty, starts with `[` |
| `SocketIo.HasDataNullMeansEmpty` | src/main.cpp:24-28 | a frame containing `null` anywhere yields `""`, whatever else it contains |
| `SocketIo.HasDataMissingDelimiterMeansEmpty` | src/main.cpp:25-32 | a frame without `null` but with no `[` or no `}]` yields `""` |
| `SocketIo.HasDataExtractsArray` | src/main.cpp:25-30 | without `null`, when the first `[` (at b1) precedes the last `}]` (at b2), the data is `s[b1..b2+2]`: length b2 - b1 + 2, starting with `[` and ending with `}]` |
| `SocketIo.HasDataWrapsToSuffix` | src/main.cpp:30 | without `null`, when the first `[` follows the last `}]`, it lies at least two positions after it, and the wrapped length makes the data the whole suffix from that `[`, or `""` when the `[` is exactly two positions after the `}]` |
| `SocketIo.HasDataIsSlice` | src/main.cpp:23-33 | for every frame, the data is one contiguous slice of it |
| `SocketIo.SteerReply` | src/main.cpp:193 | a steer reply is itself an event frame (starts with `42`, longer than 2), 12 characters longer than the message it wraps |
| `SocketIo.ParseSteerReply` | src/main.cpp:193 | a frame is recognised as a steer reply only when it is exactly `SteerReply` of the message it yields, which is 12 characters shorter than the frame; with `SteerReplyRoundTrip`, the inverse of `SteerReply` in both directions |
| `SocketIo.SteerReplyRoundTrip` | src/main.cpp:193 | unwrapping a steer reply returns exactly the message that was wrapped |
| `SocketIo.ManualReplyIsNotSteer` | src/main.cpp:209 | the manual reply `42["manual",{}]` is never taken for a steer reply |
| `SocketIo.SteerReplyHasNoNull` | src/main.cpp:193 | wrapping a message that contains no `null` yields a reply that contains none either |
| `SocketIo.HasDataOfSteerReply` | src/main.cpp:193 | a steer reply whose message is a JSON object without `null` passes `hasData` itself, which yields `["steer",<message>]` |
| `SocketIo.OnMessage` | src/main.cpp:81-211 | frames that are not events get no reply; every reply is an event frame; every reply is either the manual reply or a steer reply; there is no reply exactly when the frame is not an event or is an event with data whose event is not `telemetry`; the reply is the manual reply exactly when the frame is an event without data; the reply is a steer reply exactly when the event with data is `telemetry`, and it then carries the message built from that data |
| `Trajectory.Evens` | src/main.cpp:164-166 | the even-position entries: (n + 1) / 2 of them, entry k being input entry 2k |
| `Trajectory.Odds` | src/main.cpp:168-170 | the odd-position entries: n / 2 of them, entry k being input entry 2k + 1 |
| `Trajectory.InterleaveEvensOdds` | src/main.cpp:162-172 | interleaving the even-position and odd-position entries restores the sequence |
| `Trajectory.SplitTrajectory` | src/main.cpp:162-172 | the loop produces exactly the x list and the y list of the optimizer result |
| `Trajectory.TrajectoryLengths` | src/main.cpp:162-172 | for n entries: both lists empty when n <= 2; otherwise (n - 1) / 2 x values and (n - 2) / 2 y values; equal lengths exactly when n is even; x one longer when n is odd |
| `Trajectory.TrajectoryPoint` | src/main.cpp:162-172 | the k-th predicted point is (vars[2 + 2k], vars[3 + 2k]) |
| `Trajectory.TrajectoryRecombines` | src/main.cpp:162-172 | interleaving the x and y lists gives back every entry from index 2 on, in order |
| `Trajectory.TrajectoryIgnoresActuators` | src/main.cpp:147-172 | entries 0 and 1 (steering and throttle) have no effect on either list |
| `Trajectory.ReferenceXs` | src/main.cpp:181-186 | the reference line has 25 sample positions |
| `Trajectory.ReferenceXsSpan` | src/main.cpp:181-186 | the sample positions run from 0 to 60, step by 2.5 and strictly increase |
| `Trajectory.SampleReferenceLine` | src/main.cpp:181-188 | the loop yields the 25 positions 2.5·i as x values and, for each, the polynomial evaluated there as y value |

## Left out

- The WebSocket hub, the connection, disconnection and HTTP handlers, port binding, console output and the 100 ms `sleep_for` before sending: I/O and timing.
- Reading the frame out of the raw buffer (`string(data).substr(0, length)`): buffer handling of the transport.
- JSON parsing, field extraction and `dump()`: a foreign library. The event name and the serialised control message are function parameters of `OnMessage`. A payload that `json::parse` rejects would throw; that path is not modelled.
- `mpc.Solve`: an external nonlinear optimizer whose header is not part of this model. Its result vector is the input of `SplitTrajectory`.
- `polyfit` (Householder QR), `polyeval`, the world-to-car transform with `cos`/`sin`, the `atan` heading error, the latency prediction, `deg2rad` and the steering normalisation `-vars[0] / (deg2rad(25) * Lf)`: floating-point numerics. `polyeval` is an uninterpreted parameter of `SampleReferenceLine`.
- Reading `vars[0]` and `vars[1]` when the optimizer returns fewer than two entries is undefined behaviour in C++. `SplitTrajectory` accepts any length and yields empty lists there.
- `Trajectory.SplitTrajectory`: the source's loop counter is a 32-bit `unsigned int` compared against the 64-bit `vars.size()`; on a result of 2^32 entries or more it would wrap to 0 and the loop would never end. The model's counter is unbounded, so it assumes fewer than 2^32 entries, which any optimizer result meets.
- `StdString.Substr`: the `std::out_of_range` exception for a start position past the end is a precondition, because `hasData` only calls `substr` at the position of a `[` inside the string.
- `SocketIo.HasDataExtractsArray`, `SocketIo.HasDataWrapsToSuffix` and `SocketIo.HasDataOfSteerReply` assume the frame is shorter than 2^64 characters, which `std::string::max_size()` guarantees on 64-bit platforms.
- `std::string` holds bytes and its searches return byte offsets, while the model's strings hold characters, so positions and lengths here count characters, not bytes. The extracted text is the same either way: `null`, `[` and `}]` are ASCII, and no UTF-8 multi-byte sequence contains an ASCII byte.
