/**
  The per-packet envelope built in `sendPacket`: a 4-byte little-endian length
  field holding `len(payload) + 15`, the marshalled capture timestamp, then the
  captured bytes verbatim. The decoder is the downstream reader's view of the
  same wire format and is the partner the round trips are proved against.
 */
module Framing {
  import opened Common

  /** Bytes the length field reserves for the marshalled timestamp. */
  const TIMESTAMP_SIZE: nat := 15
  const TWO_32: nat := 0x1_0000_0000

  /** One captured packet: the marshalled timestamp and the raw link-layer bytes. */
  datatype Capture = Capture(stamp: seq<byte>, payload: seq<byte>)

  /** Go's conversion `byte(x)` of a non-negative int: its low eight bits. */
  function LowByte(x: nat): byte {
    x % 0x100
  }

  /** The four bytes `byte(length)`, `byte(length >> 8)`, `byte(length >> 16)`, `byte(length >> 24)`. */
  function LengthPrefix(length: nat): seq<byte> {
    [LowByte(length), LowByte(length / 0x100), LowByte(length / 0x1_0000), LowByte(length / 0x100_0000)]
  }

  /** Reads four bytes as an unsigned little-endian 32-bit integer. */
  function DecodeLE32(b: seq<byte>): (v: nat)
    requires |b| == 4
    ensures v < TWO_32
  {
    b[0] as int + 0x100 * (b[1] as int) + 0x1_0000 * (b[2] as int) + 0x100_0000 * (b[3] as int)
  }

  /** The frame written for one capture. */
  function Frame(c: Capture): seq<byte> {
    LengthPrefix(|c.payload| + TIMESTAMP_SIZE) + c.stamp + c.payload
  }

  /** A capture whose frame the length field describes exactly. */
  predicate WellSized(c: Capture) {
    |c.stamp| == TIMESTAMP_SIZE && |c.payload| + TIMESTAMP_SIZE < TWO_32
  }

  /** Frames sent back to back on one connection. */
  function Frames(cs: seq<Capture>): seq<byte> {
    if cs == [] then [] else Frame(cs[0]) + Frames(cs[1..])
  }

  /** The reader's side: cut a byte stream into frames by their length fields. */
  function SplitFrames(stream: seq<byte>): Option<seq<Capture>>
    decreases |stream|
  {
    if stream == [] then Some([])
    else if |stream| < 4 then None
    else
      var length := DecodeLE32(stream[..4]);
      if length < TIMESTAMP_SIZE || |stream| < 4 + length then None
      else
        match SplitFrames(stream[4 + length..])
        case None => None
        case Some(rest) =>
          Some([Capture(stream[4..4 + TIMESTAMP_SIZE], stream[4 + TIMESTAMP_SIZE..4 + length])] + rest)
  }

  /**
    Builds the frame as `sendPacket` does: a 4-byte buffer filled in place,
    then the timestamp and the packet appended.
   */
  method EncodeFrame(packetData: seq<byte>, timeInfo: seq<byte>) returns (data: seq<byte>)
    ensures data == Frame(Capture(timeInfo, packetData))
  {
    var length := |packetData| + TIMESTAMP_SIZE;
    var head := new byte[4];
    head[0] := LowByte(length);
    head[1] := LowByte(length / 0x100);
    head[2] := LowByte(length / 0x1_0000);
    head[3] := LowByte(length / 0x100_0000);
    data := head[..];
    data := data + timeInfo;
    data := data + packetData;
  }

  /** The prefix reads back little-endian as the length, reduced to 32 bits. */
  lemma PrefixDecodes(length: nat)
    ensures |LengthPrefix(length)| == 4
    ensures DecodeLE32(LengthPrefix(length)) == length % TWO_32
  {
    var q1 := length / 0x100;
    var q2 := q1 / 0x100;
    var q3 := q2 / 0x100;
    var q4 := q3 / 0x100;
    assert length / 0x1_0000 == q2;
    assert length / 0x100_0000 == q3;
    assert length == length % 0x100 + 0x100 * (q1 % 0x100) + 0x1_0000 * (q2 % 0x100)
                     + 0x100_0000 * (q3 % 0x100) + TWO_32 * q4;
  }

  /** Every 4-byte field is the prefix of the value it decodes to. */
  lemma DecodedPrefix(b: seq<byte>)
    requires |b| == 4
    ensures LengthPrefix(DecodeLE32(b)) == b
  {
    var v := DecodeLE32(b);
    var above2 := b[2] as int + 0x100 * (b[3] as int);
    var above1 := b[1] as int + 0x100 * above2;
    ByteSplit(v, b[0], above1);
    ByteSplit(above1, b[1], above2);
    ByteSplit(above2, b[2], b[3]);
    ShiftsCompose(v);
  }

  /** Dividing by 0x100 strips the low byte: the quotient and remainder of a two-digit number. */
  lemma ByteSplit(x: nat, low: nat, high: nat)
    requires low < 0x100 && x == low + 0x100 * high
    ensures x / 0x100 == high && x % 0x100 == low
  {
  }

  /** Shifting right by 16 or 24 bits is shifting by 8 bits two or three times. */
  lemma ShiftsCompose(x: nat)
    ensures x / 0x1_0000 == x / 0x100 / 0x100
    ensures x / 0x100_0000 == x / 0x100 / 0x100 / 0x100
  {
  }

  /** The layout of one frame: length field, timestamp at offset 4, payload after it. */
  lemma FrameLayout(c: Capture)
    requires |c.payload| + TIMESTAMP_SIZE < TWO_32
    ensures |Frame(c)| == 4 + |c.stamp| + |c.payload|
    ensures DecodeLE32(Frame(c)[..4]) == |c.payload| + TIMESTAMP_SIZE
    ensures Frame(c)[4..4 + |c.stamp|] == c.stamp
    ensures Frame(c)[4 + |c.stamp|..] == c.payload
    ensures WellSized(c) ==> |Frame(c)| == 4 + TIMESTAMP_SIZE + |c.payload| && Frame(c)[4 + TIMESTAMP_SIZE..] == c.payload
  {
    var length := |c.payload| + TIMESTAMP_SIZE;
    var prefix := LengthPrefix(length);
    assert DecodeLE32(prefix) == length by {
      PrefixDecodes(length);
      assert length % TWO_32 == length;
    }
    assert Frame(c) == prefix + c.stamp + c.payload;
    assert Frame(c)[..4] == prefix;
  }

  /** A stream of well-sized frames decodes to exactly the captures, in order. */
  lemma {:induction false} StreamRoundTrip(cs: seq<Capture>)
    requires forall i :: 0 <= i < |cs| ==> WellSized(cs[i])
    ensures SplitFrames(Frames(cs)) == Some(cs)
  {
    if cs != [] {
      var c := cs[0];
      var s := Frames(cs);
      var length := |c.payload| + TIMESTAMP_SIZE;
      assert WellSized(c);
      FrameLayout(c);
      assert s == Frame(c) + Frames(cs[1..]);
      assert s[..4] == Frame(c)[..4];
      assert DecodeLE32(s[..4]) == length;
      assert s[4 + length..] == Frames(cs[1..]);
      assert s[4..4 + TIMESTAMP_SIZE] == c.stamp;
      assert s[4 + TIMESTAMP_SIZE..4 + length] == c.payload;
      StreamRoundTrip(cs[1..]);
      assert [c] + cs[1..] == cs;
    }
  }

  /**
    A lone frame decodes to its own capture exactly when the timestamp has the
    15 bytes the length field assumes.
   */
  lemma SingleFrameIffStampSize(c: Capture)
    requires |c.payload| + TIMESTAMP_SIZE < TWO_32
    ensures SplitFrames(Frame(c)) == Some([c]) <==> |c.stamp| == TIMESTAMP_SIZE
  {
    FrameLayout(c);
    var s := Frame(c);
    if |c.stamp| == TIMESTAMP_SIZE {
      StreamRoundTrip([c]);
      assert Frames([c]) == s;
    } else if |c.stamp| < TIMESTAMP_SIZE {
      assert |s| < 4 + DecodeLE32(s[..4]);
    } else {
      match SplitFrames(s)
      case None =>
      case Some(cs) =>
        assert |cs[0].stamp| == TIMESTAMP_SIZE;
    }
  }

  /** The capture the reader cuts from the front of a stream re-encodes to the bytes it was cut from. */
  lemma FrontFrame(stream: seq<byte>, length: nat)
    requires 4 + length <= |stream| && TIMESTAMP_SIZE <= length
    requires length == DecodeLE32(stream[..4])
    ensures Frame(Capture(stream[4..4 + TIMESTAMP_SIZE], stream[4 + TIMESTAMP_SIZE..4 + length])) == stream[..4 + length]
  {
    var c := Capture(stream[4..4 + TIMESTAMP_SIZE], stream[4 + TIMESTAMP_SIZE..4 + length]);
    DecodedPrefix(stream[..4]);
    assert |c.payload| + TIMESTAMP_SIZE == length;
    assert stream[..4 + length] == stream[..4] + c.stamp + c.payload;
  }

  /** What the reader does with a non-empty stream it accepts: one frame off the front, then the rest. */
  lemma SplitFront(stream: seq<byte>)
    requires stream != [] && SplitFrames(stream).Some?
    ensures 4 <= |stream| && TIMESTAMP_SIZE <= DecodeLE32(stream[..4]) && 4 + DecodeLE32(stream[..4]) <= |stream|
    ensures var length := DecodeLE32(stream[..4]);
      && SplitFrames(stream[4 + length..]).Some?
      && SplitFrames(stream).value
         == [Capture(stream[4..4 + TIMESTAMP_SIZE], stream[4 + TIMESTAMP_SIZE..4 + length])] + SplitFrames(stream[4 + length..]).value
  {
  }

  lemma FramesCons(c: Capture, cs: seq<Capture>)
    ensures Frames([c] + cs) == Frame(c) + Frames(cs)
  {
    assert ([c] + cs)[1..] == cs;
  }

  /** Whatever the reader accepts is exactly the frames of what it returns. */
  lemma {:induction false} SplitFramesExact(stream: seq<byte>)
    ensures SplitFrames(stream).Some? ==> Frames(SplitFrames(stream).value) == stream
    decreases |stream|
  {
    if stream != [] && SplitFrames(stream).Some? {
      SplitFront(stream);
      var length := DecodeLE32(stream[..4]);
      var rest := stream[4 + length..];
      var c := Capture(stream[4..4 + TIMESTAMP_SIZE], stream[4 + TIMESTAMP_SIZE..4 + length]);
      var t := SplitFrames(rest).value;
      calc {
        Frames(SplitFrames(stream).value);
        Frames([c] + t);
        { FramesCons(c, t); }
        Frame(c) + Frames(t);
        { FrontFrame(stream, length); SplitFramesExact(rest); }
        stream[..4 + length] + rest;
        stream;
      }
    }
  }

  /** Dropping leading captures never lengthens the stream. */
  lemma {:induction false} FramesSuffixShorter(cs: seq<Capture>, i: nat)
    requires i <= |cs|
    ensures |Frames(cs[i..])| <= |Frames(cs)|
    decreases i
  {
    if i > 0 {
      FramesSuffixShorter(cs[1..], i - 1);
      assert cs[1..][i - 1..] == cs[i..];
    } else {
      assert cs[0..] == cs;
    }
  }

  /**
    A stream that starts inside a frame, `k` bytes in, and then carries the
    frames of the later captures, never decodes to an unbroken run of the
    captures ending with the latest: it is too short for the run that includes
    the cut capture and too long for any run that does not.
   */
  lemma FrameTailNeverDecodes(cs: seq<Capture>, k: nat)
    requires |cs| >= 1 && 0 < k < |Frame(cs[0])|
    ensures forall j :: 0 <= j <= |cs| ==> SplitFrames(Frame(cs[0])[k..] + Frames(cs[1..])) != Some(cs[j..])
  {
    var tail := Frame(cs[0])[k..] + Frames(cs[1..]);
    forall j | 0 <= j <= |cs| ensures SplitFrames(tail) != Some(cs[j..]) {
      SplitFramesExact(tail);
      if j == 0 {
        assert cs[0..] == cs;
        assert |Frames(cs)| == |Frame(cs[0])| + |Frames(cs[1..])|;
      } else {
        FramesSuffixShorter(cs[1..], j - 1);
        assert cs[1..][j - 1..] == cs[j..];
      }
      assert Frames(cs[j..]) != tail;
    }
  }
}
