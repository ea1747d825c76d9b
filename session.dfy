/**
  The connection lifecycle: `connectServer` (one dial plus the handshake write)
  and `reConnectServer`, a loop that dials again until a connection exists or
  its counter, started at `retryCount`, runs out. The network is abstract: each
  dial is answered by a `DialOutcome`, and sleeping is recorded as an event.
 */
module Session {

  /** `retryCount`: the reconnect loop's attempt budget. */
  const RETRY_COUNT: nat := 5
  const EXHAUSTED_MESSAGE: string := "reconnect server failed too many times"

  /** What the network does with one dial: refuses it, or accepts it and the header write succeeds or not. */
  datatype DialOutcome = Refused | Accepted(headerWritten: bool)

  /** The pair `(conn, err)` that `connectServer` returns, by presence of each. */
  datatype Connected = Connected(hasConn: bool, hasErr: bool)

  datatype ReconnectResult = Reconnected(attempt: nat) | Exhausted(message: string)

  /** One step of the observable behaviour of the reconnect loop. */
  datatype Event = Dial | Sleep

  /**
    `connectServer`: a refused dial gives `(nil, err)`; an accepted one gives
    the connection together with the header write's error, if any. It never
    gives `(nil, nil)` and never drops a connection it has made.
   */
  function ConnectServer(d: DialOutcome): (r: Connected)
    ensures r.hasConn || r.hasErr
    ensures r.hasConn <==> d.Accepted?
  {
    match d
    case Refused => Connected(false, true)
    case Accepted(written) => Connected(true, !written)
  }

  predicate Connects(d: DialOutcome) {
    ConnectServer(d).hasConn
  }

  /** Events of one pass: the dial, then a sleep iff the dial reported an error. */
  function AttemptTrace(d: DialOutcome): seq<Event> {
    if ConnectServer(d).hasErr then [Dial, Sleep] else [Dial]
  }

  /** Events of a run of passes, in order. */
  function DialTrace(ds: seq<DialOutcome>): seq<Event> {
    if ds == [] then [] else DialTrace(ds[..|ds| - 1]) + AttemptTrace(ds[|ds| - 1])
  }

  function Occurrences(t: seq<Event>, e: Event): nat {
    if t == [] then 0 else (if t[0] == e then 1 else 0) + Occurrences(t[1..], e)
  }

  function ErrorCount(ds: seq<DialOutcome>): nat {
    if ds == [] then 0 else (if ConnectServer(ds[0]).hasErr then 1 else 0) + ErrorCount(ds[1..])
  }

  /** The loop's answer from pass `i` on: the first dial that yields a connection. */
  function FirstConnection(dials: seq<DialOutcome>, i: nat): (r: ReconnectResult)
    requires i <= RETRY_COUNT <= |dials|
    ensures r.Reconnected? <==> exists j :: i <= j < RETRY_COUNT && Connects(dials[j])
    ensures r.Reconnected? ==> i <= r.attempt < RETRY_COUNT && Connects(dials[r.attempt])
    ensures r.Reconnected? ==> forall j :: i <= j < r.attempt ==> !Connects(dials[j])
    ensures r.Exhausted? ==> r.message == EXHAUSTED_MESSAGE
    decreases RETRY_COUNT - i
  {
    if i == RETRY_COUNT then Exhausted(EXHAUSTED_MESSAGE)
    else if Connects(dials[i]) then Reconnected(i)
    else FirstConnection(dials, i + 1)
  }

  /**
    What `reConnectServer` returns: the connection of the first dial, among the
    first `retryCount`, that produced one (even if its header write failed);
    otherwise the exhaustion error.
   */
  function ReconnectSpec(dials: seq<DialOutcome>): ReconnectResult
    requires RETRY_COUNT <= |dials|
  {
    FirstConnection(dials, 0)
  }

  /** How many dials the loop makes before it returns `r`. */
  function AttemptsMade(r: ReconnectResult): nat {
    if r.Reconnected? then r.attempt + 1 else RETRY_COUNT
  }

  /**
    `reConnectServer`, as the source runs it: dial, decrement the counter,
    sleep if the dial reported an error, stop at a connection, give up when the
    counter reaches zero, else dial again. `dials` answers the dials in order.
   */
  method ReConnectServer(dials: seq<DialOutcome>) returns (r: ReconnectResult, trace: seq<Event>)
    requires RETRY_COUNT <= |dials|
    ensures r == ReconnectSpec(dials)
    ensures AttemptsMade(r) <= RETRY_COUNT
    ensures trace == DialTrace(dials[..AttemptsMade(r)])
  {
    var count: int := RETRY_COUNT;
    var res := ConnectServer(dials[0]);
    var made := 1;
    trace := [Dial];
    while true
      invariant 1 <= made <= RETRY_COUNT
      invariant count == RETRY_COUNT - made + 1
      invariant res == ConnectServer(dials[made - 1])
      invariant FirstConnection(dials, made - 1) == ReconnectSpec(dials)
      invariant trace == DialTrace(dials[..made - 1]) + [Dial]
      decreases count
    {
      count := count - 1;
      if res.hasErr {
        trace := trace + [Sleep];
      }
      assert dials[..made][..made - 1] == dials[..made - 1];
      assert trace == DialTrace(dials[..made]);
      if res.hasConn {
        break;
      }
      if count <= 0 {
        r := Exhausted(EXHAUSTED_MESSAGE);
        return;
      }
      res := ConnectServer(dials[made]);
      made := made + 1;
      trace := trace + [Dial];
    }
    r := Reconnected(made - 1);
  }

  lemma {:induction false} OccurrencesAppend(a: seq<Event>, b: seq<Event>, e: Event)
    ensures Occurrences(a + b, e) == Occurrences(a, e) + Occurrences(b, e)
  {
    if a == [] {
      assert a + b == b;
    } else {
      assert (a + b)[1..] == a[1..] + b;
      OccurrencesAppend(a[1..], b, e);
    }
  }

  lemma {:induction false} ErrorCountAppend(ds: seq<DialOutcome>, d: DialOutcome)
    ensures ErrorCount(ds + [d]) == ErrorCount(ds) + (if ConnectServer(d).hasErr then 1 else 0)
  {
    if ds != [] {
      assert (ds + [d])[1..] == ds[1..] + [d];
      ErrorCountAppend(ds[1..], d);
    }
  }

  lemma AttemptCounts(d: DialOutcome)
    ensures Occurrences(AttemptTrace(d), Dial) == 1
    ensures Occurrences(AttemptTrace(d), Sleep) == if ConnectServer(d).hasErr then 1 else 0
  {
    var t := AttemptTrace(d);
    assert Occurrences([], Dial) == 0 && Occurrences([], Sleep) == 0;
    if ConnectServer(d).hasErr {
      assert t[1..] == [Sleep] && t[1..][1..] == [];
    } else {
      assert t[1..] == [];
    }
  }

  /**
    One dial event per pass, and exactly one sleep per pass whose dial reported
    an error (a refused dial, or a connection whose header write failed).
   */
  lemma {:induction false} TraceCounts(ds: seq<DialOutcome>)
    ensures Occurrences(DialTrace(ds), Dial) == |ds|
    ensures Occurrences(DialTrace(ds), Sleep) == ErrorCount(ds)
  {
    if ds != [] {
      var init, last := ds[..|ds| - 1], ds[|ds| - 1];
      TraceCounts(init);
      AttemptCounts(last);
      OccurrencesAppend(DialTrace(init), AttemptTrace(last), Dial);
      OccurrencesAppend(DialTrace(init), AttemptTrace(last), Sleep);
      assert init + [last] == ds;
      ErrorCountAppend(init, last);
    }
  }

  /**
    Backoff: when no pass before the last produced a connection, every dial
    that is not the final event is followed by a sleep, so consecutive dials
    are always separated by `retryTime`. A trace whose last dial failed ends
    with a sleep.
   */
  lemma {:induction false} SleepAfterEveryFailedDial(ds: seq<DialOutcome>)
    requires forall j :: 0 <= j < |ds| - 1 ==> !Connects(ds[j])
    ensures forall k :: 0 <= k < |DialTrace(ds)| - 1 && DialTrace(ds)[k] == Dial ==> DialTrace(ds)[k + 1] == Sleep
    ensures ds != [] && !Connects(ds[|ds| - 1]) ==> DialTrace(ds)[|DialTrace(ds)| - 1] == Sleep
  {
    if ds != [] {
      var init, last := ds[..|ds| - 1], ds[|ds| - 1];
      SleepAfterEveryFailedDial(init);
      var t0 := DialTrace(init);
      var t := DialTrace(ds);
      assert t == t0 + AttemptTrace(last);
      if init != [] {
        assert !Connects(init[|init| - 1]);
        assert t0[|t0| - 1] == Sleep;
      }
    }
  }

  /**
    The loop never dials more than `retryCount` times, and gives up only after
    exactly that many dials, none of which produced a connection.
   */
  lemma ReconnectBounds(dials: seq<DialOutcome>)
    requires RETRY_COUNT <= |dials|
    ensures Occurrences(DialTrace(dials[..AttemptsMade(ReconnectSpec(dials))]), Dial) <= RETRY_COUNT
    ensures ReconnectSpec(dials).Exhausted? <==> forall j :: 0 <= j < RETRY_COUNT ==> !Connects(dials[j])
  {
    TraceCounts(dials[..AttemptsMade(ReconnectSpec(dials))]);
  }
}
