/** The cluster connections' framing: a 32-bit big-endian length followed by that many bytes. Messages are byte
    strings here; whether one parses as JSON is up to the environment. */
module Frames {
  import opened Wrappers

  type Byte = b: nat | b < 256

  type Payload = seq<Byte>

  /** The number of values of a `u32`; the length is cast to it, so longer payloads wrap around. */
  const U32: nat := 0x1_0000_0000

  /** The `n` low bytes of a number, most significant first */
  function BigEndian(x: nat, n: nat): (bytes: seq<Byte>)
    ensures |bytes| == n
  {
    if n == 0 then [] else BigEndian(x / 256, n - 1) + [x % 256]
  }

  function Value(bytes: seq<Byte>): nat {
    if bytes == [] then 0 else Value(bytes[..|bytes| - 1]) * 256 + bytes[|bytes| - 1] as nat
  }

  function Power(n: nat): nat {
    if n == 0 then 1 else 256 * Power(n - 1)
  }

  /** `u32::to_be_bytes` */
  function Prefix(length: nat): (bytes: seq<Byte>)
    ensures |bytes| == 4
  {
    BigEndian(length, 4)
  }

  function Frame(data: Payload): seq<Byte> {
    Prefix(|data| % U32) + data
  }

  /** What a sender puts on the wire, message after message */
  function Stream(payloads: seq<Payload>): seq<Byte> {
    if payloads == [] then [] else Frame(payloads[0]) + Stream(payloads[1..])
  }

  /** Why the read loop ended: no further length, not enough data, or data that does not parse */
  datatype Ending = NoMoreFrames | DataMissing | Unparsable

  /** `handle_connection`'s loop: the messages handed on, and why it ended */
  function ReadAll(stream: seq<Byte>, parses: Payload -> bool): (seq<Payload>, Ending)
    decreases |stream|
  {
    if |stream| < 4 then ([], NoMoreFrames)
    else
      var length := Value(stream[..4]);
      if |stream| - 4 < length then ([], DataMissing)
      else
        var data := stream[4..4 + length];
        if !parses(data) then ([], Unparsable)
        else
          var (rest, ending) := ReadAll(stream[4 + length..], parses);
          ([data] + rest, ending)
  }

  ghost predicate Short(payloads: seq<Payload>) {
    forall p :: p in payloads ==> |p| < U32
  }

  lemma {:induction false} ValueOfBigEndian(x: nat, n: nat)
    requires x < Power(n)
    ensures Value(BigEndian(x, n)) == x
    decreases n
  {
    if n > 0 {
      ValueOfBigEndian(x / 256, n - 1);
      assert BigEndian(x, n)[..n - 1] == BigEndian(x / 256, n - 1);
    }
  }

  /** The four bytes of a length, most significant first */
  lemma PrefixBytes(length: nat)
    requires length < 0x1_0000_0000
    ensures Prefix(length) == [length / 0x100_0000, length / 0x1_0000 % 256, length / 256 % 256, length % 256]
  {
    BigEndianStep(length, 4);
    BigEndianStep(length / 256, 3);
    BigEndianStep(length / 256 / 256, 2);
    BigEndianStep(length / 256 / 256 / 256, 1);
    hide BigEndian;
    assert length / 256 / 256 == length / 0x1_0000;
    assert length / 0x1_0000 / 256 == length / 0x100_0000 < 256;
  }

  lemma BigEndianStep(x: nat, n: nat)
    requires n > 0
    ensures BigEndian(x, n) == BigEndian(x / 256, n - 1) + [x % 256] && BigEndian(x, 0) == []
  {
  }

  lemma PrefixValue(length: nat)
    requires length < U32
    ensures Value(Prefix(length)) == length
  {
    assert Power(4) == 256 * (256 * (256 * (256 * Power(0))));
    ValueOfBigEndian(length, 4);
  }

  lemma ReadFrame(data: Payload, rest: seq<Byte>, parses: Payload -> bool)
    requires |data| < 0x1_0000_0000
    ensures ReadAll(Frame(data) + rest, parses) ==
            if parses(data) then ([data] + ReadAll(rest, parses).0, ReadAll(rest, parses).1) else ([], Unparsable)
  {
    hide Prefix, Value;
    var s := Frame(data) + rest;
    PrefixValue(|data|);
    assert s[..4] == Prefix(|data|) && s[4..4 + |data|] == data && s[4 + |data|..] == rest;
  }

  /** A frame cut short yields nothing. */
  lemma ReadPartialFrame(data: Payload, k: nat, parses: Payload -> bool)
    requires |data| < U32 && k < |Frame(data)|
    ensures ReadAll(Frame(data)[..k], parses) == ([], if k < 4 then NoMoreFrames else DataMissing)
  {
    hide Prefix, Value;
    var s := Frame(data)[..k];
    PrefixValue(|data|);
    if k >= 4 {
      assert s[..4] == Prefix(|data|);
    }
  }

  /** The number of frames that lie entirely within the first `k` bytes */
  function Complete(payloads: seq<Payload>, k: nat): (n: nat)
    ensures n <= |payloads|
  {
    if payloads == [] || k < |Frame(payloads[0])| then 0
    else 1 + Complete(payloads[1..], k - |Frame(payloads[0])|)
  }

  /** It is the number of messages whose frames fit: one frame more would not. */
  lemma {:induction false} CompleteIs(payloads: seq<Payload>, k: nat)
    ensures var n := Complete(payloads, k);
            && |Stream(payloads[..n])| <= k
            && (n < |payloads| ==> k < |Stream(payloads[..n + 1])|)
  {
    hide Frame;
    if payloads != [] {
      FrameLength(payloads[0]);
      var n := Complete(payloads, k);
      if k >= |Frame(payloads[0])| {
        CompleteIs(payloads[1..], k - |Frame(payloads[0])|);
        assert payloads[..n][1..] == payloads[1..][..n - 1];
        if n < |payloads| {
          assert payloads[..n + 1][1..] == payloads[1..][..n];
        }
      } else {
        assert payloads[..1][1..] == [];
      }
    }
  }

  /** The messages before the first that does not parse */
  function Parsable(payloads: seq<Payload>, parses: Payload -> bool): seq<Payload> {
    if payloads == [] || !parses(payloads[0]) then [] else [payloads[0]] + Parsable(payloads[1..], parses)
  }

  /** However the stream is cut and whatever parses: the reader hands on the messages whose frames arrived
      completely, up to the first that does not parse; when all of these parse, it notices the cut exactly when a
      length arrived without all of its data. */
  lemma {:induction false} TruncationYieldsCompleteFrames(payloads: seq<Payload>, k: nat, parses: Payload -> bool)
    requires Short(payloads) && k <= |Stream(payloads)|
    ensures var n := Complete(payloads, k); var read := Parsable(payloads[..n], parses);
            ReadAll(Stream(payloads)[..k], parses) ==
              (read, if read != payloads[..n] then Unparsable
                     else if k < |Stream(payloads[..n])| + 4 then NoMoreFrames else DataMissing)
  {
    hide Prefix, ReadAll, Frame;
    if payloads == [] {
      ReadNothing(parses);
    } else {
      var first, rest := Frame(payloads[0]), Stream(payloads[1..]);
      FrameLength(payloads[0]);
      if k < |first| {
        assert Stream(payloads)[..k] == first[..k];
        ReadPartialFrame(payloads[0], k, parses);
      } else {
        assert Stream(payloads)[..k] == first + rest[..k - |first|];
        TruncationYieldsCompleteFrames(payloads[1..], k - |first|, parses);
        ReadFrame(payloads[0], rest[..k - |first|], parses);
        var n := Complete(payloads, k);
        assert payloads[..n] == [payloads[0]] + payloads[1..][..n - 1];
        assert payloads[..n][1..] == payloads[1..][..n - 1];
      }
    }
  }

  lemma ReadNothing(parses: Payload -> bool)
    ensures ReadAll([], parses) == ([], NoMoreFrames)
  {
  }

  lemma FrameLength(data: Payload)
    ensures |Frame(data)| == 4 + |data|
  {
  }

  /** The whole stream yields what was sent, up to the first message the receiver cannot parse. */
  lemma {:induction false} StreamReadsBack(payloads: seq<Payload>, parses: Payload -> bool)
    requires Short(payloads)
    ensures var sent := Parsable(payloads, parses);
            ReadAll(Stream(payloads), parses) == (sent, if sent == payloads then NoMoreFrames else Unparsable)
  {
    hide ReadAll, Frame;
    if payloads == [] {
      ReadNothing(parses);
    } else {
      StreamReadsBack(payloads[1..], parses);
      ReadFrame(payloads[0], Stream(payloads[1..]), parses);
    }
  }

  /** The first message read from a frame has the frame's length modulo 2^32. */
  lemma WrappedFirst(data: Payload, rest: seq<Byte>)
    ensures var got := ReadAll(Frame(data) + rest, _ => true).0;
            got != [] && got[0] == data[..|data| % U32]
  {
    hide Prefix, Value;
    var s := Frame(data) + rest;
    var n := |data| % U32;
    PrefixValue(n);
    assert s[..4] == Prefix(n) && s[4..4 + n] == data[..n];
  }

  /** With a receiver that parses everything: what is read is what was sent if and only if every message is
      shorter than 2^32 bytes. */
  lemma {:induction false} ReadsBackIffShort(payloads: seq<Payload>)
    ensures ReadAll(Stream(payloads), _ => true).0 == payloads <==> Short(payloads)
  {
    hide ReadAll, Frame;
    if payloads == [] {
      ReadNothing(_ => true);
    } else {
      var rest := payloads[1..];
      ReadsBackIffShort(rest);
      WrappedFirst(payloads[0], Stream(rest));
      assert payloads == [payloads[0]] + rest;
      if |payloads[0]| < U32 {
        ReadFrame(payloads[0], Stream(rest), _ => true);
        assert ([payloads[0]] + ReadAll(Stream(rest), _ => true).0)[1..] == ReadAll(Stream(rest), _ => true).0;
      }
    }
  }

  // ---- the two ends ----------------------------------------------------------------------------------------

  datatype SendError = NotConnected | StreamLocked | NoActiveStream | WriteFailed

  /** One peer's connection: whether there is one, whether another task holds its stream, and what was written. */
  class PeerConnection {
    var connected: bool
    var locked: bool
    var active: bool
    var written: seq<Byte>

    constructor (connected: bool, locked: bool, active: bool)
      ensures this.connected == connected && this.locked == locked && this.active == active && written == []
    {
      this.connected, this.locked, this.active, written := connected, locked, active, [];
    }

    /** `write_all` until the peer has taken `room` bytes in all: the rest is lost and the write fails. */
    method WriteAll(bytes: seq<Byte>, room: nat) returns (ok: bool)
      modifies this`written
      ensures ok <==> |bytes| <= room
      ensures written == old(written) + if ok then bytes else bytes[..room]
    {
      ok := |bytes| <= room;
      written := written + if ok then bytes else bytes[..room];
    }

    /** `send_message`; `room` is how many more bytes the peer takes before the connection breaks. */
    method SendMessage(data: Payload, room: nat) returns (r: Result<(), SendError>)
      modifies this`written
      ensures r == if !connected then Err(NotConnected) else if locked then Err(StreamLocked)
                   else if !active then Err(NoActiveStream)
                   else if |Frame(data)| <= room then Ok(()) else Err(WriteFailed)
      ensures written == old(written) + (if r.Ok? then Frame(data)
                                         else if r.error.WriteFailed? then Frame(data)[..room] else [])
    {
      if !connected {
        return Err(NotConnected);
      }
      if locked {
        return Err(StreamLocked);
      }
      if !active {
        return Err(NoActiveStream);
      }
      var prefix := Prefix(|data| % U32);
      var ok := WriteAll(prefix, room);
      if !ok {
        assert Frame(data)[..room] == prefix[..room];
        return Err(WriteFailed);
      }
      ok := WriteAll(data, room - 4);
      if !ok {
        assert Frame(data)[..room] == prefix + data[..room - 4];
        return Err(WriteFailed);
      }
      return Ok(());
    }
  }

  lemma ReadStep(s: seq<Byte>, parses: Payload -> bool)
    ensures |s| < 4 ==> ReadAll(s, parses) == ([], NoMoreFrames)
    ensures |s| >= 4 && |s| - 4 < Value(s[..4]) ==> ReadAll(s, parses) == ([], DataMissing)
    ensures |s| >= 4 && |s| - 4 >= Value(s[..4]) ==>
              var data, rest := s[4..4 + Value(s[..4])], s[4 + Value(s[..4])..];
              ReadAll(s, parses) ==
                if parses(data) then ([data] + ReadAll(rest, parses).0, ReadAll(rest, parses).1) else ([], Unparsable)
  {
  }

  /** The receiving side: the connections by peer */
  class Listener {
    var connections: set<string>
    var handled: seq<Payload>

    constructor (connections: set<string>)
      ensures this.connections == connections && handled == []
    {
      this.connections, handled := connections, [];
    }

    /** The read loop of `handle_connection`. A message that does not parse ends it at once, leaving the
        connection in the table. */
    method HandleConnection(peer: string, stream: seq<Byte>, parses: Payload -> bool) returns (ok: bool)
      modifies this
      ensures var (payloads, ending) := ReadAll(stream, parses);
              && handled == old(handled) + payloads
              && (ok <==> ending != Unparsable)
              && connections == if ok then old(connections) - {peer} else old(connections)
    {
      hide ReadAll, Value;
      var rest := stream;
      ghost var got := [];
      while true
        invariant connections == old(connections) && handled == old(handled) + got
        invariant got + ReadAll(rest, parses).0 == ReadAll(stream, parses).0
        invariant ReadAll(rest, parses).1 == ReadAll(stream, parses).1
        decreases |rest|
      {
        ReadStep(rest, parses);
        if |rest| < 4 {
          break;
        }
        var length := Value(rest[..4]);
        if |rest| - 4 < length {
          break;
        }
        var data := rest[4..4 + length];
        if !parses(data) {
          return false;
        }
        rest := rest[4 + length..];
        assert got + ([data] + ReadAll(rest, parses).0) == got + [data] + ReadAll(rest, parses).0;
        handled, got := handled + [data], got + [data];
      }
      connections := connections - {peer};
      return true;
    }
  }
}
