/**
  The capture worker `sendPacket`: connect, open the capture, then for every
  captured packet build its frame and write it, reconnecting after a failed
  write. Capture, writes and dials are abstract: each packet comes with a
  `PacketEnv` saying how its writes and the dials of a reconnect turn out.
 */
module Worker {
  import opened Common
  import opened Framing
  import opened Session
  import opened Handshake

  /** What `conn.Write` reports: success (all bytes), or an error after some bytes. */
  datatype WriteOutcome = WriteOk | WriteErr(written: nat)

  /** The environment's answers while one packet is handled. */
  datatype PacketEnv = PacketEnv(first: WriteOutcome, redial: seq<DialOutcome>, second: WriteOutcome)

  /** Bytes that reached connection `conn` (connections are numbered in the order they are opened). */
  datatype Write = Write(conn: nat, bytes: seq<byte>)

  /** The protocol class and type the handshake announces. */
  datatype Protocol = Protocol(sqlClass: int, sqlType: int)

  /** How capture setup went: `pcap.OpenLive` then `SetBPFFilter`. */
  datatype CaptureSetup = Opened | OpenFailed | FilterRejected

  /** The `log.Fatal` exits of the worker. */
  datatype Fatal = DialServerFailed | OpenDeviceFailed | SetFilterFailed | ReconnectFailed(message: string) | WriteFailed

  /** `Live`: still consuming packets, holding `conn` (nil is `None`); `nextConn` numbers the next connection opened. */
  datatype WorkerState = Live(conn: Option<nat>, nextConn: nat) | Dead(reason: Fatal)

  datatype Outcome = Outcome(state: WorkerState, writes: seq<Write>)

  /** The byte count `conn.Write` returns; never more than it was given. */
  function Written(o: WriteOutcome, bytes: seq<byte>): (n: nat)
    ensures n <= |bytes|
    ensures o.WriteOk? ==> n == |bytes|
  {
    match o
    case WriteOk => |bytes|
    case WriteErr(k) => if k <= |bytes| then k else |bytes|
  }

  /** The 8 bytes `writeHeader` sends on every connection `connectServer` opens. */
  function HandshakeBytes(proto: Protocol): seq<byte> {
    Header(proto.sqlClass, proto.sqlType)
  }

  /**
    What `connectServer`'s `writeHeader` put on the connection `conn` that dial
    `d` opened: the handshake when its write succeeded, nothing otherwise.
   */
  function HeaderWrites(conn: nat, d: DialOutcome, handshake: seq<byte>): seq<Write> {
    if d == Accepted(true) then [Write(conn, handshake)] else []
  }

  /** The bytes a new connection carries: `rest`, after the handshake if its write succeeded. */
  predicate AfterHandshake(stream: seq<byte>, rest: seq<byte>, handshake: seq<byte>) {
    stream == rest || stream == handshake + rest
  }

  /** The answers cover every packet and every dial a reconnect may make. */
  predicate EnvFits(cs: seq<Capture>, es: seq<PacketEnv>) {
    |cs| == |es| && forall i :: 0 <= i < |es| ==> RETRY_COUNT <= |es[i].redial|
  }

  /** The write of `data[sendBytes:]` (line 123) on `conn`, which ends the packet. */
  function FinishWrite(conn: nat, nextConn: nat, rest: seq<byte>, o: WriteOutcome, before: seq<Write>): Outcome {
    var n := Written(o, rest);
    Outcome(if o.WriteOk? then Live(Some(conn), nextConn) else Dead(WriteFailed), before + [Write(conn, rest[..n])])
  }

  /**
    One pass of the packet loop. A reconnect opens connection `nextConn`, whose
    handshake is written by `connectServer`. With `resendWhole` false this is
    the source: after a failed write and a successful reconnect,
    `data[sendBytes:]` goes to the new connection. With `resendWhole` true the
    whole frame goes there.
   */
  function StepWith(st: WorkerState, c: Capture, e: PacketEnv, handshake: seq<byte>, resendWhole: bool): Outcome
    requires st.Live? && RETRY_COUNT <= |e.redial|
  {
    var data := Frame(c);
    match st.conn
    case None =>
      (match ReconnectSpec(e.redial)
       case Exhausted(m) => Outcome(Dead(ReconnectFailed(m)), [])
       case Reconnected(i) =>
         Outcome(Live(Some(st.nextConn), st.nextConn + 1), HeaderWrites(st.nextConn, e.redial[i], handshake)))
    case Some(conn) =>
      var sendBytes := Written(e.first, data);
      var first := [Write(conn, data[..sendBytes])];
      if e.first.WriteOk? then
        FinishWrite(conn, st.nextConn, data[sendBytes..], e.second, first)
      else
        match ReconnectSpec(e.redial)
        case Exhausted(m) => Outcome(Dead(ReconnectFailed(m)), first)
        case Reconnected(i) =>
          FinishWrite(st.nextConn, st.nextConn + 1, if resendWhole then data else data[sendBytes..], e.second,
                      first + HeaderWrites(st.nextConn, e.redial[i], handshake))
  }

  /** The packet loop over a finite prefix of the capture stream. */
  function Run(st: WorkerState, cs: seq<Capture>, es: seq<PacketEnv>, handshake: seq<byte>, resendWhole: bool): Outcome
    requires EnvFits(cs, es)
    decreases |cs|
  {
    if cs == [] || st.Dead? then Outcome(st, [])
    else
      var o1 := StepWith(st, cs[0], es[0], handshake, resendWhole);
      var o2 := Run(o1.state, cs[1..], es[1..], handshake, resendWhole);
      Outcome(o2.state, o1.writes + o2.writes)
  }

  /**
    The whole worker as the source runs it: the initial connect (connection 0,
    which receives the handshake), capture setup, then the packet loop.
   */
  function WorkerSpec(initial: DialOutcome, setup: CaptureSetup, cs: seq<Capture>, es: seq<PacketEnv>, proto: Protocol): Outcome
    requires EnvFits(cs, es)
  {
    if ConnectServer(initial).hasErr then Outcome(Dead(DialServerFailed), [])
    else if setup == OpenFailed then Outcome(Dead(OpenDeviceFailed), HeaderWrites(0, initial, HandshakeBytes(proto)))
    else if setup == FilterRejected then Outcome(Dead(SetFilterFailed), HeaderWrites(0, initial, HandshakeBytes(proto)))
    else Then(HeaderWrites(0, initial, HandshakeBytes(proto)), Run(Live(Some(0), 1), cs, es, HandshakeBytes(proto), false))
  }

  /** Everything written on connection `conn`, in order. */
  function StreamOn(ws: seq<Write>, conn: nat): seq<byte> {
    if ws == [] then [] else (if ws[0].conn == conn then ws[0].bytes else []) + StreamOn(ws[1..], conn)
  }

  function Then(ws: seq<Write>, o: Outcome): Outcome {
    Outcome(o.state, ws + o.writes)
  }

  /**
    One pass of the range loop of `sendPacket` (lines 99-133) on connection
    `conn`: build the frame, write it, and on a failed write close, reconnect
    (the new connection receiving its handshake) and write `data[sendBytes:]`
    on the new connection; with no connection, only reconnect.
   */
  method SendOne(conn: Option<nat>, nextConn: nat, capture: Capture, e: PacketEnv, handshake: seq<byte>) returns (o: Outcome)
    requires RETRY_COUNT <= |e.redial|
    ensures o == StepWith(Live(conn, nextConn), capture, e, handshake, false)
  {
    var data := EncodeFrame(capture.payload, capture.stamp);
    if conn.Some? {
      var c := conn.value;
      var sendBytes := Written(e.first, data);
      var writes := [Write(c, data[..sendBytes])];
      var next := nextConn;
      if e.first.WriteErr? {
        var r, _ := ReConnectServer(e.redial);
        if r.Exhausted? {
          return Outcome(Dead(ReconnectFailed(r.message)), writes);
        }
        writes := writes + HeaderWrites(nextConn, e.redial[r.attempt], handshake);
        c := nextConn;
        next := nextConn + 1;
      }
      var rest := data[sendBytes..];
      var n := Written(e.second, rest);
      writes := writes + [Write(c, rest[..n])];
      if e.second.WriteErr? {
        return Outcome(Dead(WriteFailed), writes);
      }
      o := Outcome(Live(Some(c), next), writes);
    } else {
      var r, _ := ReConnectServer(e.redial);
      if r.Exhausted? {
        return Outcome(Dead(ReconnectFailed(r.message)), []);
      }
      o := Outcome(Live(Some(nextConn), nextConn + 1), HeaderWrites(nextConn, e.redial[r.attempt], handshake));
    }
  }

  /** The packet loop's first pass, then the rest. */
  lemma RunFirst(st: WorkerState, cs: seq<Capture>, es: seq<PacketEnv>, handshake: seq<byte>, resendWhole: bool)
    requires EnvFits(cs, es) && cs != [] && st.Live?
    ensures EnvFits(cs[1..], es[1..])
    ensures Run(st, cs, es, handshake, resendWhole)
         == Then(StepWith(st, cs[0], es[0], handshake, resendWhole).writes,
                 Run(StepWith(st, cs[0], es[0], handshake, resendWhole).state, cs[1..], es[1..], handshake, resendWhole))
  {
  }

  lemma RunUnfold(st: WorkerState, cs: seq<Capture>, es: seq<PacketEnv>, i: nat, handshake: seq<byte>, resendWhole: bool)
    requires EnvFits(cs, es) && i < |cs| && st.Live?
    ensures EnvFits(cs[i + 1..], es[i + 1..])
    ensures Run(st, cs[i..], es[i..], handshake, resendWhole)
         == Then(StepWith(st, cs[i], es[i], handshake, resendWhole).writes,
                 Run(StepWith(st, cs[i], es[i], handshake, resendWhole).state, cs[i + 1..], es[i + 1..], handshake, resendWhole))
  {
    assert cs[i..][1..] == cs[i + 1..] && es[i..][1..] == es[i + 1..];
  }

  /** What is left of the loop after the pass over capture `i`, with the writes so far in front. */
  lemma RunAdvance(writes: seq<Write>, st: WorkerState, cs: seq<Capture>, es: seq<PacketEnv>, i: nat, handshake: seq<byte>)
    requires EnvFits(cs, es) && i < |cs| && st.Live?
    ensures EnvFits(cs[i + 1..], es[i + 1..])
    ensures var step := StepWith(st, cs[i], es[i], handshake, false);
      Then(writes, Run(st, cs[i..], es[i..], handshake, false))
      == if step.state.Dead? then Outcome(step.state, writes + step.writes)
         else Then(writes + step.writes, Run(step.state, cs[i + 1..], es[i + 1..], handshake, false))
  {
    RunUnfold(st, cs, es, i, handshake, false);
    var step := StepWith(st, cs[i], es[i], handshake, false);
    var later := Run(step.state, cs[i + 1..], es[i + 1..], handshake, false);
    assert writes + (step.writes + later.writes) == (writes + step.writes) + later.writes;
  }

  /**
    `sendPacket`: connect and write the handshake (fatal on any error,
    including a failed header write), open the capture and set the filter
    (fatal on failure), then run the packet loop over the captures in order.
   */
  method SendPacket(initial: DialOutcome, setup: CaptureSetup, captures: seq<Capture>, envs: seq<PacketEnv>, proto: Protocol)
    returns (o: Outcome)
    requires EnvFits(captures, envs)
    ensures o == WorkerSpec(initial, setup, captures, envs, proto)
  {
    if ConnectServer(initial).hasErr {
      return Outcome(Dead(DialServerFailed), []);
    }
    assert initial == Accepted(true);
    var writes: seq<Write> := [Write(0, HandshakeBytes(proto))];
    assert writes == HeaderWrites(0, initial, HandshakeBytes(proto));
    if setup == OpenFailed {
      return Outcome(Dead(OpenDeviceFailed), writes);
    }
    if setup == FilterRejected {
      return Outcome(Dead(SetFilterFailed), writes);
    }
    ghost var goal := WorkerSpec(initial, setup, captures, envs, proto);
    assert captures[0..] == captures && envs[0..] == envs;
    assert goal == Then(writes, Run(Live(Some(0), 1), captures[0..], envs[0..], HandshakeBytes(proto), false));
    var conn: Option<nat> := Some(0);
    var nextConn := 1;
    var i := 0;
    while i < |captures|
      invariant 0 <= i <= |captures|
      invariant EnvFits(captures[i..], envs[i..])
      invariant Then(writes, Run(Live(conn, nextConn), captures[i..], envs[i..], HandshakeBytes(proto), false)) == goal
    {
      RunAdvance(writes, Live(conn, nextConn), captures, envs, i, HandshakeBytes(proto));
      var step := SendOne(conn, nextConn, captures[i], envs[i], HandshakeBytes(proto));
      writes := writes + step.writes;
      if step.state.Dead? {
        return Outcome(step.state, writes);
      }
      conn, nextConn := step.state.conn, step.state.nextConn;
      i := i + 1;
    }
    assert captures[i..] == [];
    o := Outcome(Live(conn, nextConn), writes);
  }

  /** Every write of every packet succeeded. */
  predicate Clean(es: seq<PacketEnv>) {
    forall i :: 0 <= i < |es| ==> es[i].first == WriteOk && es[i].second == WriteOk
  }

  lemma {:induction false} StreamOnAppend(a: seq<Write>, b: seq<Write>, conn: nat)
    ensures StreamOn(a + b, conn) == StreamOn(a, conn) + StreamOn(b, conn)
  {
    if a == [] {
      assert a + b == b;
    } else {
      assert (a + b)[1..] == a[1..] + b;
      StreamOnAppend(a[1..], b, conn);
    }
  }

  lemma StreamOnSingle(w: Write, conn: nat)
    ensures StreamOn([w], conn) == if w.conn == conn then w.bytes else []
  {
    assert [w][1..] == [];
    assert StreamOn([], conn) == [];
  }

  lemma StreamOnPair(w1: Write, w2: Write, conn: nat)
    ensures StreamOn([w1, w2], conn)
         == (if w1.conn == conn then w1.bytes else []) + (if w2.conn == conn then w2.bytes else [])
  {
    StreamOnAppend([w1], [w2], conn);
    StreamOnSingle(w1, conn);
    StreamOnSingle(w2, conn);
    assert [w1] + [w2] == [w1, w2];
  }

  /** The handshake writes of a new connection reach that connection only. */
  lemma HeaderWritesStream(conn: nat, d: DialOutcome, handshake: seq<byte>, x: nat)
    ensures StreamOn(HeaderWrites(conn, d, handshake), x)
         == if x == conn && d == Accepted(true) then handshake else []
  {
    if d == Accepted(true) {
      StreamOnSingle(Write(conn, handshake), x);
    }
  }

  /**
    The `conn == nil` branch (lines 127-132) is dead code in `sendPacket`:
    the loop starts with a connection and every reassignment of `conn` is a
    connection returned by `reConnectServer`, so a live worker always holds one.
   */
  lemma {:induction false} ConnNeverNil(st: WorkerState, cs: seq<Capture>, es: seq<PacketEnv>, handshake: seq<byte>, resendWhole: bool)
    requires EnvFits(cs, es) && st.Live? && st.conn.Some?
    ensures Run(st, cs, es, handshake, resendWhole).state.Live? ==> Run(st, cs, es, handshake, resendWhole).state.conn.Some?
    decreases |cs|
  {
    if cs != [] {
      var o1 := StepWith(st, cs[0], es[0], handshake, resendWhole);
      if o1.state.Live? {
        ConnNeverNil(o1.state, cs[1..], es[1..], handshake, resendWhole);
      }
    }
  }

  /**
    One packet on a live connection, as written: the first write sends a
    prefix of the frame on the current connection, the last write sends the
    rest on the connection the worker holds afterwards, so the two together
    carry the frame once. After a reconnect the new connection's handshake, if
    written, comes between them. With no connection only the new connection's
    handshake is written.
   */
  lemma StepSplitsFrame(conn: nat, nextConn: nat, c: Capture, e: PacketEnv, handshake: seq<byte>)
    requires RETRY_COUNT <= |e.redial| && conn < nextConn
    ensures var o := StepWith(Live(Some(conn), nextConn), c, e, handshake, false);
      o.state.Live? ==>
        && 2 <= |o.writes| <= 3
        && o.writes[0].conn == conn
        && o.state.conn == Some(o.writes[|o.writes| - 1].conn)
        && o.writes[0].bytes + o.writes[|o.writes| - 1].bytes == Frame(c)
        && (e.first.WriteOk? <==> o.state.conn == Some(conn))
        && (|o.writes| == 3 ==> o.writes[1] == Write(nextConn, handshake))
    ensures var o := StepWith(Live(None, nextConn), c, e, handshake, false);
      |o.writes| <= 1 && forall j :: 0 <= j < |o.writes| ==> o.writes[j] == Write(nextConn, handshake)
  {
    var data := Frame(c);
    var n := Written(e.first, data);
    assert data[..n] + data[n..] == data;
    assert data[..n] + data[n..][..|data[n..]|] == data;
  }

  /**
    With no failed write, the packet loop keeps its connection and writes on it
    exactly the frames of the captures, in capture order.
   */
  lemma {:induction false} CleanRunDelivers(conn: nat, nextConn: nat, cs: seq<Capture>, es: seq<PacketEnv>, handshake: seq<byte>, resendWhole: bool)
    requires EnvFits(cs, es) && Clean(es)
    ensures Run(Live(Some(conn), nextConn), cs, es, handshake, resendWhole).state == Live(Some(conn), nextConn)
    ensures StreamOn(Run(Live(Some(conn), nextConn), cs, es, handshake, resendWhole).writes, conn) == Frames(cs)
    ensures forall x :: x != conn ==> StreamOn(Run(Live(Some(conn), nextConn), cs, es, handshake, resendWhole).writes, x) == []
    decreases |cs|
  {
    if cs != [] {
      var st := Live(Some(conn), nextConn);
      var data := Frame(cs[0]);
      var o1 := StepWith(st, cs[0], es[0], handshake, resendWhole);
      assert es[0].first == WriteOk && es[0].second == WriteOk;
      assert data[..|data|] == data && data[|data|..] == [];
      assert o1 == Outcome(st, [Write(conn, data), Write(conn, [])]);
      assert Clean(es[1..]) by {
        forall i | 0 <= i < |es[1..]| ensures es[1..][i].first == WriteOk && es[1..][i].second == WriteOk {
          assert es[1..][i] == es[i + 1];
        }
      }
      CleanRunDelivers(conn, nextConn, cs[1..], es[1..], handshake, resendWhole);
      var o2 := Run(st, cs[1..], es[1..], handshake, resendWhole);
      forall x ensures StreamOn(o1.writes + o2.writes, x) == StreamOn(o1.writes, x) + StreamOn(o2.writes, x)
                    && StreamOn(o1.writes, x) == if x == conn then data else [] {
        StreamOnAppend(o1.writes, o2.writes, x);
        StreamOnPair(Write(conn, data), Write(conn, []), x);
      }
    }
  }

  /**
    The whole worker, as written: with a good initial connection, capture set
    up and no failed write, connection 0 carries the handshake followed by the
    frames of the captures; the server reads the class and type from the first
    8 bytes and, with 15-byte timestamps, exactly the captured packets, in
    capture order, from the rest.
   */
  lemma CleanWorkerDeliversInOrder(cs: seq<Capture>, es: seq<PacketEnv>, proto: Protocol)
    requires EnvFits(cs, es) && Clean(es)
    requires forall i :: 0 <= i < |cs| ==> WellSized(cs[i])
    ensures WorkerSpec(Accepted(true), Opened, cs, es, proto).state == Live(Some(0), 1)
    ensures var s := StreamOn(WorkerSpec(Accepted(true), Opened, cs, es, proto).writes, 0);
      && s == HandshakeBytes(proto) + Frames(cs)
      && ParseHeader(s[..HEADER_SIZE]) == Some((ToInt16(proto.sqlClass), ToInt16(proto.sqlType)))
      && SplitFrames(s[HEADER_SIZE..]) == Some(cs)
  {
    var hb := HandshakeBytes(proto);
    var w := WorkerSpec(Accepted(true), Opened, cs, es, proto);
    assert w.state == Live(Some(0), 1) && StreamOn(w.writes, 0) == hb + Frames(cs) by {
      assert w == Then(HeaderWrites(0, Accepted(true), hb), Run(Live(Some(0), 1), cs, es, hb, false));
      HandshakeThenFrames(cs, es, hb);
    }
    var s := hb + Frames(cs);
    assert ParseHeader(s[..HEADER_SIZE]) == Some((ToInt16(proto.sqlClass), ToInt16(proto.sqlType))) by {
      HeaderRoundTrip(proto.sqlClass, proto.sqlType);
      assert s[..HEADER_SIZE] == hb;
    }
    assert SplitFrames(s[HEADER_SIZE..]) == Some(cs) by {
      HeaderRoundTrip(proto.sqlClass, proto.sqlType);
      assert s[HEADER_SIZE..] == Frames(cs);
      StreamRoundTrip(cs);
    }
  }

  /** On a clean run from the first connection, that connection carries the handshake, then every frame. */
  lemma HandshakeThenFrames(cs: seq<Capture>, es: seq<PacketEnv>, handshake: seq<byte>)
    requires EnvFits(cs, es) && Clean(es)
    ensures var o := Then(HeaderWrites(0, Accepted(true), handshake), Run(Live(Some(0), 1), cs, es, handshake, false));
      && o.state == Live(Some(0), 1)
      && StreamOn(o.writes, 0) == handshake + Frames(cs)
  {
    var h := HeaderWrites(0, Accepted(true), handshake);
    var o := Run(Live(Some(0), 1), cs, es, handshake, false);
    CleanRunDelivers(0, 1, cs, es, handshake, false);
    StreamOnAppend(h, o.writes, 0);
    HeaderWritesStream(0, Accepted(true), handshake, 0);
  }

  /**
    As written, one packet whose first write fails after `k` bytes: if the
    worker lives on, it holds the new connection, which has received its
    handshake (if written) and then the frame from byte `k` on.
   */
  lemma PartialStep(conn: nat, nextConn: nat, c: Capture, e: PacketEnv, handshake: seq<byte>, k: nat)
    requires RETRY_COUNT <= |e.redial| && conn < nextConn
    requires e.first == WriteErr(k) && k <= |Frame(c)|
    ensures var o := StepWith(Live(Some(conn), nextConn), c, e, handshake, false);
      o.state.Live? ==>
        && o.state == Live(Some(nextConn), nextConn + 1)
        && AfterHandshake(StreamOn(o.writes, nextConn), Frame(c)[k..], handshake)
  {
    var data := Frame(c);
    var o := StepWith(Live(Some(conn), nextConn), c, e, handshake, false);
    if o.state.Live? {
      var r := ReconnectSpec(e.redial);
      var h := HeaderWrites(nextConn, e.redial[r.attempt], handshake);
      var tailWrite := Write(nextConn, data[k..]);
      assert data[k..][..|data[k..]|] == data[k..];
      assert o.writes == [Write(conn, data[..k])] + h + [tailWrite];
      StreamOnAppend([Write(conn, data[..k])] + h, [tailWrite], nextConn);
      StreamOnAppend([Write(conn, data[..k])], h, nextConn);
      StreamOnSingle(Write(conn, data[..k]), nextConn);
      StreamOnSingle(tailWrite, nextConn);
      HeaderWritesStream(nextConn, e.redial[r.attempt], handshake, nextConn);
    }
  }

  /**
    As written, a write that fails after `k` bytes of the first frame, then
    clean writes: a live worker holds the new connection, which has received
    its handshake (if written), the rest of the cut frame and the later frames.
   */
  lemma PartialRun(conn: nat, nextConn: nat, cs: seq<Capture>, es: seq<PacketEnv>, handshake: seq<byte>, k: nat)
    requires EnvFits(cs, es) && conn < nextConn && |cs| >= 1
    requires es[0].first == WriteErr(k) && k <= |Frame(cs[0])|
    requires Clean(es[1..])
    ensures var o := Run(Live(Some(conn), nextConn), cs, es, handshake, false);
      o.state.Live? ==>
        && o.state == Live(Some(nextConn), nextConn + 1)
        && AfterHandshake(StreamOn(o.writes, nextConn), Frame(cs[0])[k..] + Frames(cs[1..]), handshake)
  {
    var st := Live(Some(conn), nextConn);
    var o1 := StepWith(st, cs[0], es[0], handshake, false);
    RunFirst(st, cs, es, handshake, false);
    PartialStep(conn, nextConn, cs[0], es[0], handshake, k);
    if o1.state.Live? {
      CleanRunDelivers(nextConn, nextConn + 1, cs[1..], es[1..], handshake, false);
      var o2 := Run(o1.state, cs[1..], es[1..], handshake, false);
      StreamOnAppend(o1.writes, o2.writes, nextConn);
      AfterHandshakeAppend(StreamOn(o1.writes, nextConn), Frame(cs[0])[k..], Frames(cs[1..]), handshake);
    }
  }

  /** Bytes written after a connection's opening bytes extend what follows its handshake. */
  lemma AfterHandshakeAppend(stream: seq<byte>, rest: seq<byte>, more: seq<byte>, handshake: seq<byte>)
    requires AfterHandshake(stream, rest, handshake)
    ensures AfterHandshake(stream + more, rest + more, handshake)
  {
    if stream != rest {
      assert stream + more == handshake + (rest + more);
    }
  }

  /**
    As written, a write that fails after `k` bytes of a frame (0 < k < frame
    length), followed by a successful reconnect and clean writes, leaves the
    new connection with its handshake (if written), the tail `Frame(cs[0])[k..]`
    and then the later frames. That byte sequence never decodes to any unbroken
    run of captures ending with the latest one: the reader loses framing.
   */
  lemma PartialWriteMisframes(conn: nat, nextConn: nat, cs: seq<Capture>, es: seq<PacketEnv>, handshake: seq<byte>, k: nat)
    requires EnvFits(cs, es) && conn < nextConn && |cs| >= 1
    requires es[0].first == WriteErr(k) && 0 < k < |Frame(cs[0])|
    requires Clean(es[1..])
    ensures var o := Run(Live(Some(conn), nextConn), cs, es, handshake, false);
      o.state.Live? ==>
        && o.state == Live(Some(nextConn), nextConn + 1)
        && AfterHandshake(StreamOn(o.writes, nextConn), Frame(cs[0])[k..] + Frames(cs[1..]), handshake)
    ensures forall j :: 0 <= j <= |cs| ==> SplitFrames(Frame(cs[0])[k..] + Frames(cs[1..])) != Some(cs[j..])
  {
    PartialRun(conn, nextConn, cs, es, handshake, k);
    FrameTailNeverDecodes(cs, k);
  }

  /**
    What one packet under the corrected behaviour leaves: either the
    connection is kept and carries the frame, or a new connection is opened and
    carries its handshake (if written) and then the whole frame. No other
    connection receives bytes.
   */
  ghost predicate StepCarries(conn: nat, nextConn: nat, c: Capture, o: Outcome, handshake: seq<byte>) {
    o.state.Live? ==>
      || (&& o.state == Live(Some(conn), nextConn)
          && StreamOn(o.writes, conn) == Frame(c)
          && forall x :: x != conn ==> StreamOn(o.writes, x) == [])
      || (&& o.state == Live(Some(nextConn), nextConn + 1)
          && AfterHandshake(StreamOn(o.writes, nextConn), Frame(c), handshake)
          && forall x :: x != conn && x != nextConn ==> StreamOn(o.writes, x) == [])
  }

  /**
    What the corrected loop leaves, started on connection `conn` over `cs`: the
    connection a live worker holds has carried, after its handshake, whole
    frames only, those of an unbroken run of captures up to the latest one, in
    order; the connection it started with, if still held, received the frames
    of all of them.
   */
  ghost predicate RunCarries(conn: nat, nextConn: nat, cs: seq<Capture>, o: Outcome, handshake: seq<byte>) {
    o.state.Live? ==>
      && o.state.conn.Some?
      && (o.state.conn.value == conn ==> StreamOn(o.writes, conn) == Frames(cs))
      && (o.state.conn.value != conn ==>
            && nextConn <= o.state.conn.value
            && exists j :: 0 <= j <= |cs| && AfterHandshake(StreamOn(o.writes, o.state.conn.value), Frames(cs[j..]), handshake))
  }

  /** One packet under the corrected behaviour (the whole frame is written again on the new connection). */
  lemma ResendStep(conn: nat, nextConn: nat, c: Capture, e: PacketEnv, handshake: seq<byte>)
    requires RETRY_COUNT <= |e.redial| && conn < nextConn
    ensures StepCarries(conn, nextConn, c, StepWith(Live(Some(conn), nextConn), c, e, handshake, true), handshake)
  {
    var data := Frame(c);
    var o := StepWith(Live(Some(conn), nextConn), c, e, handshake, true);
    assert data[..|data|] == data && data[|data|..] == [];
    if o.state.Live? {
      if e.first.WriteOk? {
        assert o.writes == [Write(conn, data), Write(conn, [])];
        forall x ensures StreamOn(o.writes, x) == if x == conn then data else [] {
          StreamOnPair(Write(conn, data), Write(conn, []), x);
        }
      } else {
        var r := ReconnectSpec(e.redial);
        var n := Written(e.first, data);
        var h := HeaderWrites(nextConn, e.redial[r.attempt], handshake);
        assert o.writes == [Write(conn, data[..n])] + h + [Write(nextConn, data)];
        forall x ensures StreamOn(o.writes, x)
                      == (if x == conn then data[..n] else []) + StreamOn(h, x) + (if x == nextConn then data else []) {
          StreamOnAppend([Write(conn, data[..n])] + h, [Write(nextConn, data)], x);
          StreamOnAppend([Write(conn, data[..n])], h, x);
          StreamOnSingle(Write(conn, data[..n]), x);
          StreamOnSingle(Write(nextConn, data), x);
        }
        forall x ensures StreamOn(h, x) == if x == nextConn && e.redial[r.attempt] == Accepted(true) then handshake else [] {
          HeaderWritesStream(nextConn, e.redial[r.attempt], handshake, x);
        }
      }
    }
  }

  /** A first packet that carries its frame, followed by a run that carries whole frames, carries whole frames. */
  lemma CarryJoin(conn: nat, nextConn: nat, cs: seq<Capture>, o1: Outcome, o2: Outcome, handshake: seq<byte>)
    requires |cs| >= 1 && conn < nextConn && o1.state.Live? && o1.state.conn.Some?
    requires StepCarries(conn, nextConn, cs[0], o1, handshake)
    requires RunCarries(o1.state.conn.value, o1.state.nextConn, cs[1..], o2, handshake)
    ensures RunCarries(conn, nextConn, cs, Outcome(o2.state, o1.writes + o2.writes), handshake)
  {
    var o := Outcome(o2.state, o1.writes + o2.writes);
    var st1 := o1.state;
    if o2.state.Live? {
      var last := o2.state.conn.value;
      StreamOnAppend(o1.writes, o2.writes, last);
      if last == st1.conn.value {
        assert cs[0..] == cs;
        if last != conn {
          AfterHandshakeAppend(StreamOn(o1.writes, last), Frame(cs[0]), Frames(cs[1..]), handshake);
          assert AfterHandshake(StreamOn(o.writes, last), Frames(cs[0..]), handshake);
        }
      } else {
        assert StreamOn(o1.writes, last) == [];
        var j :| 0 <= j <= |cs[1..]| && AfterHandshake(StreamOn(o2.writes, last), Frames(cs[1..][j..]), handshake);
        assert cs[1..][j..] == cs[1 + j..];
      }
    }
  }

  /** Corrected behaviour: by induction on the packets, every run carries whole frames. */
  lemma {:induction false} CurrentConnectionCarriesWholeFrames(conn: nat, nextConn: nat, cs: seq<Capture>, es: seq<PacketEnv>, handshake: seq<byte>)
    requires EnvFits(cs, es) && conn < nextConn
    ensures RunCarries(conn, nextConn, cs, Run(Live(Some(conn), nextConn), cs, es, handshake, true), handshake)
    decreases |cs|
  {
    var st := Live(Some(conn), nextConn);
    if cs != [] {
      var o1 := StepWith(st, cs[0], es[0], handshake, true);
      RunFirst(st, cs, es, handshake, true);
      if o1.state.Live? {
        ResendStep(conn, nextConn, cs[0], es[0], handshake);
        var o2 := Run(o1.state, cs[1..], es[1..], handshake, true);
        CurrentConnectionCarriesWholeFrames(o1.state.conn.value, o1.state.nextConn, cs[1..], es[1..], handshake);
        CarryJoin(conn, nextConn, cs, o1, o2, handshake);
      }
    }
  }

  /**
    The corrected loop, read by the server: with 15-byte timestamps, the
    connection a live worker holds decodes, after its handshake if one was
    written, to an unbroken run of captures ending with the latest one, in
    capture order.
   */
  lemma CurrentConnectionDecodes(conn: nat, nextConn: nat, cs: seq<Capture>, es: seq<PacketEnv>, proto: Protocol)
    requires EnvFits(cs, es) && conn < nextConn
    requires forall i :: 0 <= i < |cs| ==> WellSized(cs[i])
    ensures var o := Run(Live(Some(conn), nextConn), cs, es, HandshakeBytes(proto), true);
      o.state.Live? ==>
        && o.state.conn.Some?
        && var s := StreamOn(o.writes, o.state.conn.value);
           exists j :: 0 <= j <= |cs| &&
             (|| SplitFrames(s) == Some(cs[j..])
              || (&& HEADER_SIZE <= |s|
                  && ParseHeader(s[..HEADER_SIZE]) == Some((ToInt16(proto.sqlClass), ToInt16(proto.sqlType)))
                  && SplitFrames(s[HEADER_SIZE..]) == Some(cs[j..])))
  {
    var o := Run(Live(Some(conn), nextConn), cs, es, HandshakeBytes(proto), true);
    CurrentConnectionCarriesWholeFrames(conn, nextConn, cs, es, HandshakeBytes(proto));
    if o.state.Live? {
      var s := StreamOn(o.writes, o.state.conn.value);
      var j: nat := 0;
      if o.state.conn.value != conn {
        j :| 0 <= j <= |cs| && AfterHandshake(s, Frames(cs[j..]), HandshakeBytes(proto));
      } else {
        assert cs[0..] == cs;
      }
      StreamRoundTrip(cs[j..]);
      if s != Frames(cs[j..]) {
        HeaderRoundTrip(proto.sqlClass, proto.sqlType);
        assert s[..HEADER_SIZE] == HandshakeBytes(proto);
        assert s[HEADER_SIZE..] == Frames(cs[j..]);
      }
    }
  }
}
