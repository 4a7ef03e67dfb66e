/** Reception of MQTT packets from a byte stream that arrives in arbitrary pieces. */
module MqttReceive {
  import opened Bytes
  import opened Mqtt
  import opened Wrappers

  datatype Error = OK | Timeout | Network | BufferOverflow

  /** A connected socket: the bytes still to arrive, and whether receiving can succeed. */
  class Socket {
    var incoming: seq<Byte>
    var up: bool

    /** Delivers some of the requested bytes, any positive number of them, or reports failure. */
    method Recv(want: nat) returns (n: int, data: seq<Byte>)
      requires want > 0
      modifies this`incoming
      ensures n <= 0 ==> incoming == old(incoming)
      ensures n > 0 ==>
        n <= want && n <= |old(incoming)| && data == old(incoming)[..n] && incoming == old(incoming)[n..]
      ensures up && old(incoming) != [] ==> n > 0
    {
      if !up || incoming == [] {
        n :| n in {0, -1};
        data := [];
      } else {
        var most := if want < |incoming| then want else |incoming|;
        n :| 1 <= n <= most;
        data := incoming[..n];
        incoming := incoming[n..];
      }
    }
  }

  datatype Packet = Packet(header: Byte, body: seq<Byte>, rest: seq<Byte>)

  /** The length field of a stream is complete after `used` bytes. */
  predicate Terminated(field: seq<Byte>, used: nat) {
    1 <= used <= 4 && used <= |field| && (field[used - 1] < 128 || used == 4)
    && forall i :: 0 <= i < used - 1 ==> field[i] >= 128
  }

  /** The first packet of a stream, if it has arrived completely. */
  function Parse(s: seq<Byte>): Option<Packet> {
    if |s| < 2 then None
    else
      var (n, used) := DecodeLength(s[1..], 4);
      if Terminated(s[1..], used) && 1 + used + n <= |s| then
        Some(Packet(s[0], s[1 + used..1 + used + n], s[1 + used + n..]))
      else None
  }

  /** The field is decoded from exactly the bytes up to its end. */
  lemma {:induction false} DecodeTerminated(s: seq<Byte>, rest: seq<Byte>, limit: nat)
    requires 1 <= |s| <= limit && (s[|s| - 1] < 128 || |s| == limit)
    requires forall i :: 0 <= i < |s| - 1 ==> s[i] >= 128
    ensures DecodeLength(s, limit).1 == |s|
    ensures DecodeLength(s + rest, limit) == DecodeLength(s, limit)
  {
    if |s| > 1 {
      assert (s + rest)[1..] == s[1..] + rest;
      DecodeTerminated(s[1..], rest, limit - 1);
    }
  }

  lemma {:induction false} EncodedTerminates(n: nat, k: nat)
    requires k >= 1 && n < Pow128(k)
    ensures var s := EncodeLength(n);
            |s| <= k && s[|s| - 1] < 128 && forall i :: 0 <= i < |s| - 1 ==> s[i] >= 128
  {
    if n >= 128 { EncodedTerminates(n / 128, k - 1); }
  }

  /** A frame at the front of a stream is the packet that is parsed from it. */
  lemma FrameParses(header: Byte, body: seq<Byte>, rest: seq<Byte>)
    requires |body| < 0x1000_0000
    ensures Parse(Frame(header, body) + rest) == Some(Packet(header, body, rest))
  {
    var field := EncodeLength(|body|);
    var s := Frame(header, body) + rest;
    FourBytes();
    EncodedTerminates(|body|, 4);
    LengthReadBack(|body|, 4, body + rest);
    assert s[1..] == field + (body + rest);
    assert Terminated(s[1..], |field|);
    assert s[1 + |field|..] == body + rest;
  }

  // ---- Several packets ----

  datatype Message = Message(header: Byte, body: seq<Byte>)

  predicate Encodable(ms: seq<Message>) { forall i :: 0 <= i < |ms| ==> |ms[i].body| < 0x1000_0000 }

  /** The frames of these messages, one behind the other. */
  function Stream(ms: seq<Message>): seq<Byte> {
    if ms == [] then [] else Frame(ms[0].header, ms[0].body) + Stream(ms[1..])
  }

  /** What follows the first packet of a stream. */
  function Behind(s: seq<Byte>): Option<seq<Byte>> { if Parse(s).None? then None else Some(Parse(s).value.rest) }

  /** What is left of a stream when n packets have been taken off it. */
  function Left(s: seq<Byte>, n: nat): Option<seq<Byte>> {
    if n == 0 then Some(s)
    else match Left(s, n - 1) case None => None case Some(t) => Behind(t)
  }

  /** The first frame of a concatenation. */
  lemma FirstFrame(ms: seq<Message>, tail: seq<Byte>) returns (s: seq<Byte>, p: Packet)
    requires Encodable(ms) && ms != []
    ensures s == Stream(ms) + tail && p == Packet(ms[0].header, ms[0].body, Stream(ms[1..]) + tail)
    ensures Parse(s) == Some(p)
  {
    var frame, rest := Frame(ms[0].header, ms[0].body), Stream(ms[1..]);
    FrameParses(ms[0].header, ms[0].body, rest + tail);
    Regroup(frame, rest, tail);
    s, p := Stream(ms) + tail, Packet(ms[0].header, ms[0].body, rest + tail);
  }

  lemma FirstTaken(ms: seq<Message>, tail: seq<Byte>)
    requires Encodable(ms) && ms != []
    ensures Behind(Stream(ms) + tail) == Some(Stream(ms[1..]) + tail)
  {
    var s, p := FirstFrame(ms, tail);
  }

  lemma {:induction false} LeftAfter(ms: seq<Message>, tail: seq<Byte>, s: seq<Byte>, k: nat)
    requires Encodable(ms) && k <= |ms| && s == Stream(ms) + tail
    ensures Left(s, k) == Some(Stream(ms[k..]) + tail)
  {
    if k == 0 {
      assert ms[0..] == ms;
    } else {
      var rest := ms[k - 1..];
      LeftAfter(ms, tail, s, k - 1);
      FirstTaken(rest, tail);
      assert rest[1..] == ms[k..];
      LeftNext(s, k - 1, Stream(rest) + tail);
    }
  }

  lemma LeftNext(s: seq<Byte>, k: nat, rest: seq<Byte>)
    requires Left(s, k) == Some(rest)
    ensures Left(s, k + 1) == Behind(rest)
  {
  }

  /** Repeated reception recovers every frame of a concatenation: after k packets message k is the next. */
  lemma FramesRecovered(ms: seq<Message>, tail: seq<Byte>, k: nat) returns (s: seq<Byte>, p: Packet)
    requires Encodable(ms) && k < |ms|
    ensures Left(Stream(ms) + tail, k) == Some(s) && Parse(s) == Some(p)
    ensures p.header == ms[k].header && p.body == ms[k].body && p.rest == Stream(ms[k + 1..]) + tail
  {
    LeftAfter(ms, tail, Stream(ms) + tail, k);
    s, p := FirstFrame(ms[k..], tail);
    assert ms[k..][1..] == ms[k + 1..];
  }

  /** What the buffer holds up to its position after a packet: an empty body leaves the previous packet there. */
  function Held(held: seq<Byte>, body: seq<Byte>): seq<Byte> { if body == [] then held else body }

  /** What the handlers find in the buffer, message by message. */
  function Seen(held: seq<Byte>, ms: seq<Message>): (r: seq<seq<Byte>>)
    ensures |r| == |ms|
    decreases |ms|
  {
    if ms == [] then [] else [Held(held, ms[0].body)] + Seen(Held(held, ms[0].body), ms[1..])
  }

  ghost predicate SeenAsSent(held: seq<Byte>, ms: seq<Message>) {
    forall k :: 0 <= k < |ms| ==> Seen(held, ms)[k] == ms[k].body
  }

  ghost predicate NeverEmpty(ms: seq<Message>) { forall k :: 0 <= k < |ms| ==> ms[k].body != [] }

  ghost predicate EmptiesFirst(ms: seq<Message>) {
    forall i, j :: 0 <= i < j < |ms| && ms[j].body == [] ==> ms[i].body == []
  }

  lemma SeenStep(held: seq<Byte>, ms: seq<Message>)
    requires ms != []
    ensures SeenAsSent(held, ms) <==>
      Held(held, ms[0].body) == ms[0].body && SeenAsSent(Held(held, ms[0].body), ms[1..])
  {
    var seen, rest := Seen(held, ms), Seen(Held(held, ms[0].body), ms[1..]);
    assert forall k :: 0 < k < |ms| ==> seen[k] == rest[k - 1] && ms[k] == ms[1..][k - 1];
    assert forall k :: 0 <= k < |ms| - 1 ==> rest[k] == seen[k + 1] && ms[1..][k] == ms[k + 1];
  }

  lemma OrderStep(ms: seq<Message>)
    requires ms != []
    ensures NeverEmpty(ms) <==> ms[0].body != [] && NeverEmpty(ms[1..])
    ensures EmptiesFirst(ms) <==> if ms[0].body == [] then EmptiesFirst(ms[1..]) else NeverEmpty(ms[1..])
  {
    var rest := ms[1..];
    assert forall k :: 0 <= k < |rest| ==> rest[k] == ms[k + 1];
    assert forall k :: 0 < k < |ms| ==> ms[k] == rest[k - 1];
  }

  /**
   * Every handler finds the body of its own packet if and only if no packet with an empty body follows one with bytes
   * in it. An empty PUBLISH after that is handled with the bytes of the packet before.
   */
  lemma {:induction false} SeenIff(held: seq<Byte>, ms: seq<Message>)
    ensures SeenAsSent(held, ms) <==> if held == [] then EmptiesFirst(ms) else NeverEmpty(ms)
    decreases |ms|
  {
    if ms != [] {
      SeenStep(held, ms);
      OrderStep(ms);
      SeenIff(Held(held, ms[0].body), ms[1..]);
    }
  }

  datatype Delivery = Delivery(topic: seq<Byte>, payload: seq<Byte>)

  /** What a received PUBLISH body hands to the message callback. */
  function HandlePublish(body: seq<Byte>): Option<Delivery> {
    if |body| < 2 then None
    else
      var high: int, low: int := body[0], body[1];
      var length := 0x100 * high + low;
      if length >= MAX_TOPIC_LENGTH || 2 + length > |body| then None
      else Some(Delivery(body[2..2 + length], body[2 + length..]))
  }

  /**
   * A published message reaches the callback of a receiver with its topic, when that is short enough;
   * its payload arrives unchanged exactly at QoS 0, because the message identifier is not skipped.
   */
  lemma PublishDelivered(topic: Text, payload: seq<Byte>, qos: nat, id: nat)
    requires id < 0x1_0000
    ensures var d := HandlePublish(PublishBody(topic, payload, qos, id));
            && (d.Some? <==> |topic| < MAX_TOPIC_LENGTH)
            && (d.Some? ==> d.value.topic == topic && (d.value.payload == payload <==> qos == 0))
  {
    var body := PublishBody(topic, payload, qos, id);
    if |topic| < MAX_TOPIC_LENGTH {
      assert body[2..2 + |topic|] == topic;
      var tail := body[2 + |topic|..];
      assert tail == (if qos > 0 then [id / 0x100, id % 0x100] else []) + payload;
      assert qos == 0 ==> tail == payload;
      assert qos > 0 ==> |tail| == |payload| + 2;
    }
  }

  /** `sum` and `m`: the value so far and the weight of the next byte; `whole`: the field's value and size. */
  ghost predicate Decoding(whole: (nat, nat), s: seq<Byte>, limit: nat, used: nat, sum: nat, m: nat)
    requires limit >= 1
  {
    whole.0 == sum + m * DecodeLength(s, limit).0 && whole.1 == used + DecodeLength(s, limit).1
  }

  lemma DecodeLast(whole: (nat, nat), s: seq<Byte>, limit: nat, used: nat, sum: nat, m: nat)
    requires s != [] && limit >= 1 && Decoding(whole, s, limit, used, sum, m) && (s[0] < 128 || limit == 1)
    ensures whole == (sum + s[0] % 128 * m, used + 1)
  {
  }

  lemma DecodeMore(whole: (nat, nat), s: seq<Byte>, limit: nat, used: nat, sum: nat, m: nat)
    requires s != [] && limit >= 2 && Decoding(whole, s, limit, used, sum, m) && s[0] >= 128
    ensures Decoding(whole, s[1..], limit - 1, used + 1, sum + s[0] % 128 * m, m * 128)
  {
    var a, b := s[0] % 128, DecodeLength(s[1..], limit - 1).0;
    assert m * (a + 128 * b) == a * m + (m * 128) * b;
  }

  /** One round of decoding: either the value is complete, or `rest` is left with the next weight. */
  lemma DecodeStep(whole: (nat, nat), s: seq<Byte>, limit: nat, used: nat, sum: nat, m: nat)
    returns (sum': nat, m': nat, rest: seq<Byte>)
    requires s != [] && limit >= 1 && Decoding(whole, s, limit, used, sum, m)
    ensures sum' == sum + s[0] % 128 * m && m' == m * 128 && rest == s[1..]
    ensures if s[0] < 128 || limit == 1 then whole == (sum', used + 1)
            else Decoding(whole, rest, limit - 1, used + 1, sum', m')
  {
    sum', m', rest := sum + s[0] % 128 * m, m * 128, s[1..];
    if s[0] < 128 || limit == 1 {
      DecodeLast(whole, s, limit, used, sum, m);
    } else {
      DecodeMore(whole, s, limit, used, sum, m);
    }
  }

  /** The decoding loop. */
  method DecodeRemainingLength(buffer: seq<Byte>) returns (value: Word, used: nat)
    requires exists k :: Terminated(buffer, k)
    ensures (value, used) == DecodeLength(buffer, 4)
  {
    ghost var end :| Terminated(buffer, end);
    var multiplier: nat, sum: nat := 1, 0;
    used := 0;
    ghost var whole := DecodeLength(buffer, 4);
    assert buffer[0..] == buffer;
    while true
      invariant used < end && Decoding(whole, buffer[used..], 4 - used, used, sum, multiplier)
      decreases 4 - used
    {
      var byte := buffer[used];
      ghost var sum', m', rest := DecodeStep(whole, buffer[used..], 4 - used, used, sum, multiplier);
      assert rest == buffer[used + 1..];
      used := used + 1;
      sum := sum + byte % 128 * multiplier;
      multiplier := multiplier * 128;
      assert sum == sum' && multiplier == m';
      if byte < 128 || used == 4 { break; }
    }
    FourBytes();
    DecodedBelow(buffer, 4);
    value := sum;
  }

  /** The parts of a stream behind its header byte and a length field. */
  lemma PartsAfter(s: seq<Byte>, field: seq<Byte>, tail: seq<Byte>, length: nat, body: seq<Byte>, rest: seq<Byte>)
    requires s != [] && s[1..] == field + tail && length <= |tail| && body == tail[..length] && rest == tail[length..]
    ensures var at := 1 + |field|; at + length <= |s| && s[at..at + length] == body && s[at + length..] == rest
  {
    assert s == [s[0]] + field + tail;
  }

  lemma FieldOf(field: seq<Byte>, tail: seq<Byte>, length: nat, after: seq<Byte>)
    requires Terminated(field, |field|) && length == DecodeLength(field, 4).0 && after == field + tail
    ensures DecodeLength(after, 4) == (length, |field|) && Terminated(after, |field|)
  {
    DecodeTerminated(field, tail, 4);
  }

  /** Parse with the decoded length given. */
  lemma ParseKnown(s: seq<Byte>, after: seq<Byte>, length: nat, used: nat, p: Packet)
    requires |s| >= 2 && after == s[1..] && DecodeLength(after, 4) == (length, used) && Terminated(after, used)
    requires 1 + used + length <= |s| ==> p == Packet(s[0], s[1 + used..1 + used + length], s[1 + used + length..])
    ensures Parse(s) == if 1 + used + length <= |s| then Some(p) else None
  {
  }

  /** What Parse makes of a stream whose header byte and length field are known. */
  lemma ParseAfterHeader(s: seq<Byte>, header: Byte, field: seq<Byte>, tail: seq<Byte>, length: nat)
    requires s != [] && s[0] == header && s[1..] == field + tail
    requires Terminated(field, |field|) && length == DecodeLength(field, 4).0
    ensures Parse(s) == if length <= |tail| then Some(Packet(header, tail[..length], tail[length..])) else None
  {
    var after := s[1..];
    FieldOf(field, tail, length, after);
    if length <= |tail| {
      ParseWhole(s, after, field, tail, length, Packet(header, tail[..length], tail[length..]));
    } else {
      ParseKnown(s, after, length, |field|, Packet(header, [], []));
    }
  }

  lemma ParseWhole(s: seq<Byte>, after: seq<Byte>, field: seq<Byte>, tail: seq<Byte>, length: nat, p: Packet)
    requires |s| >= 2 && after == s[1..] == field + tail && length <= |tail|
    requires DecodeLength(after, 4) == (length, |field|) && Terminated(after, |field|)
    requires p == Packet(s[0], tail[..length], tail[length..])
    ensures Parse(s) == Some(p)
  {
    PartsAfter(s, field, tail, length, p.body, p.rest);
    ParseKnown(s, after, length, |field|, p);
  }

  /** A stream that parses has a header byte and a complete length field. */
  lemma ParsedHasLength(s: seq<Byte>)
    ensures Parse(s).Some? ==> |s| >= 2 && exists k :: Terminated(s[1..], k)
  {
  }

  /** The receive side of a client. */
  class Receiver {
    const socket: Socket
    const buffer: array<Byte>
    var position: nat

    constructor (s: Socket)
      ensures socket == s && buffer.Length == MAX_PACKET_SIZE && position == 0 && fresh(buffer)
    {
      socket, buffer, position := s, new Byte[MAX_PACKET_SIZE](_ => 0), 0;
    }

    /** Reads the length field byte by byte. */
    method ReceiveLength() returns (ok: bool, field: seq<Byte>)
      modifies socket`incoming
      ensures ok ==> Terminated(field, |field|) && old(socket.incoming) == field + socket.incoming
      ensures socket.up && (exists k :: Terminated(old(socket.incoming), k)) ==> ok
    {
      field := [];
      while true
        invariant |field| < 4 && old(socket.incoming) == field + socket.incoming
        invariant forall i :: 0 <= i < |field| ==> field[i] >= 128
        decreases 4 - |field|
      {
        ghost var stream := old(socket.incoming);
        assert socket.incoming == [] ==> stream == field;
        var n, data := socket.Recv(1);
        if n <= 0 { return false, field; }
        field := field + data;
        if field[|field| - 1] < 128 || |field| == 4 { return true, field; }
      }
    }
  
    /** Reads until `length` bytes are in the buffer, in whatever pieces they arrive. */
    method ReceiveBody(length: nat) returns (ok: bool)
      requires length <= buffer.Length
      modifies socket`incoming, buffer
      ensures ok ==> length <= |old(socket.incoming)| && buffer[..length] == old(socket.incoming)[..length]
      ensures ok ==> socket.incoming == old(socket.incoming)[length..]
      ensures socket.up && length <= |old(socket.incoming)| ==> ok
    {
      ghost var stream := socket.incoming;
      var total := 0;
      while total < length
        invariant total <= length && total <= |stream|
        invariant buffer[..total] == stream[..total] && socket.incoming == stream[total..]
      {
        var n, data := socket.Recv(length - total);
        if n <= 0 { return false; }
        assert stream[total..][..n] == stream[total..total + n];
        var _ := Put(buffer, total, data);
        assert stream[..total] + data == stream[..total + n];
        total := total + n;
      }
      ok := true;
    }

    /**
     * Receives one packet. Success takes exactly one packet off the stream and leaves its body in the buffer,
     * however the stream is cut into pieces; a complete packet that fits is always received while the socket is up.
     * A packet with an empty body leaves the buffer and its position as they were.
     */
    method ReceivePacket() returns (err: Error, msgType: nat)
      requires buffer.Length == MAX_PACKET_SIZE
      modifies socket`incoming, buffer, this`position
      ensures err == OK ==>
        && Parse(old(socket.incoming)).Some?
        && var p := Parse(old(socket.incoming)).value;
        && msgType == p.header / 16 && socket.incoming == p.rest
        && |p.body| <= MAX_PACKET_SIZE && buffer[..|p.body|] == p.body
        && position == (if p.body == [] then old(position) else |p.body|)
        && (p.body == [] ==> buffer[..] == old(buffer[..]))
      ensures err == OK && old(position) <= buffer.Length ==>
        && position <= buffer.Length
        && buffer[..position] == Held(old(buffer[..position]), Parse(old(socket.incoming)).value.body)
      ensures socket.up && Parse(old(socket.incoming)).Some? ==>
        err == if |Parse(old(socket.incoming)).value.body| <= MAX_PACKET_SIZE then OK else BufferOverflow
    {
      ghost var stream := socket.incoming;
      ParsedHasLength(stream);
      var n, first := socket.Recv(1);
      if n <= 0 { return (if n == 0 then Timeout else Network), 0; }
      msgType := first[0] / 16;
      var ok, field := ReceiveLength();
      if !ok { return Network, msgType; }
      var length, used := DecodeRemainingLength(field);
      ParseAfterHeader(stream, first[0], field, socket.incoming, length);
      err := ReceiveRest(length);
    }

    /** The body of a packet, once its length is known. */
    method ReceiveRest(length: nat) returns (err: Error)
      requires buffer.Length == MAX_PACKET_SIZE
      modifies socket`incoming, buffer, this`position
      ensures err == OK ==>
        && length <= |old(socket.incoming)| && length <= MAX_PACKET_SIZE
        && buffer[..length] == old(socket.incoming)[..length] && socket.incoming == old(socket.incoming)[length..]
        && position == (if length == 0 then old(position) else length)
        && (length == 0 ==> buffer[..] == old(buffer[..]))
      ensures socket.up && length <= |old(socket.incoming)| ==>
        err == if length <= MAX_PACKET_SIZE then OK else BufferOverflow
    {
      if length > 0 {
        if length > MAX_PACKET_SIZE { return BufferOverflow; }
        var ok := ReceiveBody(length);
        if !ok { return Network; }
        position := length;
      }
      err := OK;
    }
  }
}
