# sqlpacket capture-and-forward agent, modelled in Dafny

The agent captures TCP traffic on one port on each configured interface and
forwards every captured packet to an analysis server. Each packet is sent in a
frame: a 4-byte little-endian length field holding `len(packet) + 15`, the
marshalled capture timestamp, then the packet bytes. Every new connection
first receives an 8-byte handshake header. When a write fails, the worker
reconnects. The reconnect loop tries at most `retryCount` (5) times and sleeps
after every dial that reports an error.

The model covers the whole of `main.go`. Capture, sockets, timers and
goroutines are replaced by abstract inputs.

- `common.dfy` (`Common`): `byte` (0..255) and `Option`.
- `framing.dfy` (`Framing`): the frame encoder from `sendPacket`, as a method
  proved against the function `Frame`. The partner is a reader that cuts a byte
  stream into frames. The round trip is proved for a stream of back-to-back
  frames.
- `handshake.dfy` (`Handshake`): `writeHeader`'s byte layout. Class and type
  are parameters. The partner is a header parser.
- `session.dfy` (`Session`): `connectServer` over an abstract dial outcome.
  `reConnectServer` is a method with the source's decrementing counter. It is
  proved against a first-connecting-dial function and a trace of `Dial` and
  `Sleep` events.
- `worker.dfy` (`Worker`): the packet loop of `sendPacket`. It is a method over
  a sequence of captures and a sequence of per-packet environment answers. It
  is proved equal to the function `Run`, and the lemmas about delivery are
  proved about `Run`.
- `filter.dfy` (`Filter`): `getFilter`, together with a parser that reads the
  port back.
- `supervisor.dfy` (`Supervisor`): the device split, the worker launch loop and
  the signal loop of `main`.

Behaviour of the code worth noting:

- After a failed write, the code writes `data[sendBytes:]` on the new
  connection. So the frame that triggered the failure is not dropped: it is
  sent again in full when nothing was written, and only its tail is sent when
  part was written. See "## Findings".
- `connectServer` never returns a nil connection together with a nil error. So
  the ambiguous `(nil, nil)` result cannot reach the reconnect loop.
  `Session.ConnectServer` states this.
- The loop sleeps after every dial that reports an error. That includes the
  last failed dial, and a dial whose connection was returned although its
  header write failed.
- The initial connection in `sendPacket` treats a failed header write as fatal.
  The reconnect loop returns such a connection as a success.
- Every connection `connectServer` opens, the first one and each one opened by
  a reconnect, is sent the 8-byte handshake before any frame. The model logs
  that write on the new connection when it succeeds (`Worker.HeaderWrites`), so
  the delivery lemmas speak of the handshake followed by frames.
- In `sendPacket` the `conn == nil` branch can never run (`Worker.ConnNeverNil`).
- `config/config.go` declares only `Addr` and `Dev`, but `main.go` reads
  `Server`, `Port` and `Inf`. The configuration is therefore taken as parameters.

## Model

| member | source | states |
|---|---|---|
| Framing.EncodeFrame | main.go:99-111 | the buffer built in place (4 length bytes, then the timestamp and packet appended) is exactly `Frame` of the capture |
| Framing.PrefixDecodes | main.go:100-106 | the bytes `byte(length)`, `byte(length>>8)`, `byte(length>>16)`, `byte(length>>24)` read little-endian give `length` modulo 2^32 |
| Framing.DecodedPrefix | main.go:102-106 | conversely, every 4-byte field is the prefix of the value it decodes to |
| Framing.FrameLayout | main.go:100-111 | a frame is 4 + timestamp + payload bytes long, its field decodes to `len(payload)+15`, the timestamp sits at offset 4 and the payload follows verbatim (from offset 19 when the timestamp has 15 bytes) |
| Framing.SplitFramesExact | main.go:98-111 | whatever the reader accepts is exactly the back-to-back frames of the captures it returns |
| Framing.FrameTailNeverDecodes | main.go:100-123 | a stream that starts `k` bytes inside a frame (0 < k < frame length) and continues with the later frames never decodes to an unbroken run of captures ending with the latest one |
| Framing.StreamRoundTrip | main.go:98-111 | frames sent back to back decode to exactly the captured packets and timestamps, in order, when each timestamp has 15 bytes |
| Framing.SingleFrameIffStampSize | main.go:100-109 | a frame decodes to its own capture if and only if the marshalled timestamp has the 15 bytes the length field assumes |
| Handshake.ToInt16 | main.go:33-34 | Go's `int16(v)` is in the int16 range and congruent to `v` modulo 2^16 |
| Handshake.BigEndian16Reads | main.go:33-34 | the two big-endian bytes written for a value read back as its `int16` conversion |
| Handshake.HeaderRoundTrip | main.go:30-37 | the handshake buffer is 8 bytes, starts with `00 00 00 04`, and yields class and type (as `int16`) to the parser |
| Handshake.HeaderRoundTripInRange | main.go:32-34 | class and type that fit in an int16 are read back unchanged |
| Handshake.MarkerIsBigEndianLength | main.go:32 | the marker is a big-endian length field counting the 4 bytes after it; read little-endian, as frame lengths are, it is 2^26 |
| Session.ConnectServer | main.go:39-48 | a connection is returned exactly when the dial succeeded; the result is never `(nil, nil)` |
| Session.FirstConnection | main.go:50-71 | the loop's answer is the first dial among the first `retryCount` that produced a connection, and the exhaustion error only when none did |
| Session.ReConnectServer | main.go:50-71 | the loop returns `ReconnectSpec(dials)`, makes at most 5 dials, and its dial/sleep trace is the trace of exactly the dials it made |
| Session.AttemptCounts | main.go:52-57 | one pass dials once and sleeps once exactly when the dial reported an error |
| Session.TraceCounts | main.go:52-67 | over the loop, dials equal passes and sleeps equal dials that reported an error |
| Session.SleepAfterEveryFailedDial | main.go:53-67 | every dial but a final successful one is followed by a sleep, so consecutive dials are separated by `retryTime`; a run whose last dial failed ends sleeping |
| Session.ReconnectBounds | main.go:51-65 | no more than `retryCount` dials, and exhaustion exactly when none of the first 5 dials produced a connection |
| Worker.Written | main.go:114 | a write reports at most the bytes it was given, and all of them on success |
| Worker.SendOne | main.go:99-133 | one pass of the range loop computes `StepWith(..., false)`: the frame's first write on the current connection, then after a failed write a reconnect whose new connection receives the handshake when its header write succeeded, then `data[sendBytes:]` on the connection now held; fatal exits with their reasons; with no connection only the reconnect and its handshake |
| Worker.SendPacket | main.go:72-134 | computes `WorkerSpec`: a failed dial or header write is fatal with nothing logged; otherwise connection 0 receives the handshake, a failed capture open or filter is fatal after it, and then every capture goes through the packet loop in order |
| Worker.ConnNeverNil | main.go:73-133 | a live worker that starts with a connection always holds one, so the nil branch is dead |
| Worker.StepSplitsFrame | main.go:113-133 | per packet, the first write carries a prefix of the frame on the current connection and the second the rest on the connection held afterwards; the connection changes exactly when the first write failed; with no connection nothing is written |
| Worker.CleanRunDelivers | main.go:98-126 | without a failed write the worker keeps its connection and writes on it exactly the frames of the captures, in capture order |
| Worker.CleanWorkerDeliversInOrder | main.go:72-134 | with a good initial connect and no failed write, the worker stays on connection 0, which carries the handshake followed by the frames; the server reads class and type (as `int16`) from its first 8 bytes and exactly the captured packets, in order, from the rest |
| Worker.PartialStep | main.go:113-123 | as written, after a first write that fails having sent `k` bytes, a live worker holds the new connection, which carries its handshake (if written) and then the frame from byte `k` on |
| Worker.PartialRun | main.go:98-126 | as written, a failed write after `k` bytes of the first frame and clean writes afterwards leave the new connection with its handshake (if written), the rest of the cut frame and then the later frames |
| Worker.PartialWriteMisframes | main.go:114-123 | as written, for every run of captures and every 0 < k < frame length: a failed write after `k` bytes followed by a reconnect leaves the new connection with its handshake (if written) and bytes that never decode to an unbroken run of captures ending with the latest one |
| Worker.ResendStep | main.go:114-126 | corrected step: either the connection is kept and carries the frame, or the new connection carries the whole frame |
| Worker.CurrentConnectionCarriesWholeFrames | main.go:114-126 | corrected loop: the connection held carries, after its handshake if written, whole frames of an unbroken run of captures up to the latest one (all of them, with nothing before, if it is the original connection) |
| Worker.CurrentConnectionDecodes | main.go:114-126 | corrected loop: the held connection decodes, directly or after an 8-byte header that parses to the class and type, to an unbroken run of captures ending with the latest one |
| Filter.Decimal | main.go:174 | `%v` of a port gives decimal digits only, with a leading `0` exactly for port 0 |
| Filter.DecimalRoundTrip | main.go:174 | the decimal rendering reads back as the port |
| Filter.FilterRoundTrip | main.go:173-176 | the filter names the same port in the `src port` and `dst port` clauses, and the port reads back |
| Filter.FilterInjective | main.go:173-176 | two ports give the same filter exactly when they are equal |
| Filter.FilterFor3306 | main.go:173-176 | port 3306 gives `tcp and ((src port 3306) or (dst port 3306))` |
| Supervisor.Split | main.go:149 | splitting on `,` yields one more piece than there are commas, and no piece contains a comma |
| Supervisor.SplitJoin | main.go:149 | joining the pieces with `,` gives back the configured string |
| Supervisor.JoinSplit | main.go:149 | comma-free device names joined with `,` split back into exactly those names |
| Supervisor.TwoInterfaces | main.go:149-153 | `eth0,eth1` gives exactly the two devices `eth0` and `eth1` |
| Supervisor.StartWorkers | main.go:149-153 | one worker is started per piece of the interface list, in order |
| Supervisor.AwaitShutdown | main.go:155-170 | the loop returns exactly when an INT, TERM or QUIT arrives, after the first one; every signal it received before that was PIPE and was ignored |

## Left out

- Configuration loading (`config/config.go`, `flag.Parse`): the configuration is taken as parameters (port, interface list, class, type).
- Packet capture (`pcap.OpenLive`, `SetBPFFilter`, `Packets()`): setup is an input (`CaptureSetup`), and the packets are a finite sequence of captures. The real source never ends; `Run` covers any finite prefix of it.
- `time.Time.MarshalBinary`: the timestamp bytes are opaque. The 15-byte size is a precondition (`WellSized`) of the round trips. `SingleFrameIffStampSize` shows what other sizes do.
- `net.DialTimeout` and `conn.Write`: these are abstract outcomes (`DialOutcome`, `WriteOutcome`). The connect timeout is not modelled.
- Worker.HeaderWrites: a header write that reports an error is taken to have delivered no bytes; a partly written handshake is not modelled.
- Worker.Written: a reported byte count above the buffer length is clamped to the length. Go's `io.Writer` never reports more than it was given.
- `conn.Close()` and the deferred closes are not modelled. Each reconnect gets a new connection number, so a closed connection is never written again in the model.
- `time.Sleep(retryTime)` becomes a `Sleep` event. Durations are not modelled.
- Goroutines per device and process exit: workers are independent runs of `SendPacket` that share no state. `log.Fatal` becomes the `Dead` state with its reason. Stopping the whole process is not modelled.
- `signal.Notify`: the received signals are an input sequence.
- Session.ReConnectServer: the dial outcomes must cover the 5 dials the loop may make. The model has no way to express a dial that never returns.

## Findings

| source | as written | input that shows it | evidently intended | confidence | as-written member | corrected member |
|---|---|---|---|---|---|---|
| main.go:114-123 | after a write fails having sent `sendBytes` bytes, the worker reconnects and writes `data[sendBytes:]` on the new connection | any frame whose first write fails after `k` bytes, 0 < k < frame length, then a successful reconnect: after its handshake the new connection receives the frame's last bytes without their length field, and the reader can no longer find frame boundaries | the new connection receives whole frames (the whole frame is written on it again) | medium, not executed | Worker.PartialWriteMisframes | Worker.CurrentConnectionCarriesWholeFrames |
