/**
  `main`: split the configured interface list on commas and start one worker
  per piece, then wait on the signal channel until an interrupt, terminate or
  quit signal arrives; broken-pipe signals are received and ignored.
 */
module Supervisor {

  const SEPARATOR: char := ','

  function Count(s: string, ch: char): nat {
    if s == [] then 0 else (if s[0] == ch then 1 else 0) + Count(s[1..], ch)
  }

  /** `strings.Split(s, ",")`: the pieces between commas, empty ones included. */
  function Split(s: string): (parts: seq<string>)
    ensures |parts| == Count(s, SEPARATOR) + 1
    ensures forall i :: 0 <= i < |parts| ==> SEPARATOR !in parts[i]
    decreases |s|
  {
    if s == [] then [""]
    else
      var rest := Split(s[1..]);
      if s[0] == SEPARATOR then [""] + rest
      else [[s[0]] + rest[0]] + rest[1..]
  }

  /** `strings.Join(parts, ",")`. */
  function Join(parts: seq<string>): string
    requires |parts| >= 1
  {
    if |parts| == 1 then parts[0] else parts[0] + [SEPARATOR] + Join(parts[1..])
  }

  /** Splitting loses nothing: joining the pieces gives the configured string back. */
  lemma {:induction false} SplitJoin(s: string)
    ensures Join(Split(s)) == s
    decreases |s|
  {
    if s != [] {
      var rest := Split(s[1..]);
      SplitJoin(s[1..]);
      if s[0] != SEPARATOR {
        var parts := Split(s);
        if |rest| == 1 {
          assert Join(parts) == [s[0]] + rest[0];
        } else {
          assert parts[1..] == rest[1..];
          assert Join(parts) == [s[0]] + (rest[0] + [SEPARATOR] + Join(rest[1..]));
        }
        assert [s[0]] + s[1..] == s;
      } else {
        assert [SEPARATOR] + s[1..] == s;
      }
    }
  }

  lemma {:induction false} SplitCommaFree(a: string, b: string)
    requires SEPARATOR !in a
    ensures Split(a + b) == [a + Split(b)[0]] + Split(b)[1..]
    decreases |a|
  {
    if a != [] {
      assert (a + b)[1..] == a[1..] + b;
      SplitCommaFree(a[1..], b);
      assert [a[0]] + (a[1..] + Split(b)[0]) == a + Split(b)[0];
    } else {
      var r := Split(b);
      assert a + b == b && a + r[0] == r[0];
      assert [r[0]] + r[1..] == r;
    }
  }

  /** Comma-free pieces are recovered from their join: each device name is one worker. */
  lemma {:induction false} JoinSplit(parts: seq<string>)
    requires |parts| >= 1
    requires forall i :: 0 <= i < |parts| ==> SEPARATOR !in parts[i]
    ensures Split(Join(parts)) == parts
    decreases |parts|
  {
    if |parts| == 1 {
      SplitCommaFree(parts[0], "");
      assert parts[0] + "" == parts[0];
    } else {
      var tail := Join(parts[1..]);
      JoinSplit(parts[1..]);
      SplitCommaFree(parts[0], [SEPARATOR] + tail);
      assert ([SEPARATOR] + tail)[1..] == tail;
      assert Split([SEPARATOR] + tail) == [""] + parts[1..];
      assert parts[0] + [SEPARATOR] + tail == parts[0] + ([SEPARATOR] + tail);
      assert parts[0] + "" == parts[0];
      assert [parts[0]] + parts[1..] == parts;
    }
  }

  /** The two-interface configuration starts exactly two workers. */
  lemma TwoInterfaces()
    ensures Split("eth0,eth1") == ["eth0", "eth1"]
  {
    JoinSplit(["eth0", "eth1"]);
    assert Join(["eth0", "eth1"]) == "eth0,eth1";
  }

  /**
    The launch loop of `main`: one worker per piece of the interface list, in
    order. The result lists the device each started worker captures on.
   */
  method StartWorkers(inf: string) returns (started: seq<string>)
    ensures started == Split(inf)
    ensures |started| == Count(inf, SEPARATOR) + 1
  {
    var devs := Split(inf);
    started := [];
    for i := 0 to |devs|
      invariant started == devs[..i]
    {
      started := started + [devs[i]];
    }
  }

  /** The signals `main` registers for. */
  datatype Signal = SigInt | SigTerm | SigQuit | SigPipe

  predicate Terminates(sig: Signal) {
    sig == SigInt || sig == SigTerm || sig == SigQuit
  }

  /**
    The signal loop of `main`: receive signals in order and return after the
    first interrupt, terminate or quit. `exits` is false when the given
    signals run out first (the process would still be waiting).
   */
  method AwaitShutdown(signals: seq<Signal>) returns (exits: bool, received: nat)
    ensures received <= |signals|
    ensures exits <==> exists i :: 0 <= i < |signals| && Terminates(signals[i])
    ensures exits ==> received >= 1 && Terminates(signals[received - 1])
    ensures !exits ==> received == |signals|
    ensures forall i :: 0 <= i < received && (i < received - 1 || !exits) ==> signals[i] == SigPipe
  {
    received := 0;
    exits := false;
    while received < |signals|
      invariant received <= |signals|
      invariant forall i :: 0 <= i < received ==> signals[i] == SigPipe
    {
      var sig := signals[received];
      received := received + 1;
      if Terminates(sig) {
        exits := true;
        return;
      } else if sig == SigPipe {
        // ignored
      }
    }
  }
}
