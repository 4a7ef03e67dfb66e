/** MQTT 3.1.1 framing: the Remaining Length field of section 2.2.3, packet construction and reception. */
module Mqtt {
  import opened Bytes
  import opened Wrappers

  const MAX_PACKET_SIZE := 1024
  const MAX_TOPIC_LENGTH := 128

  // ---- Remaining Length ----

  /** Seven bits a byte, least significant first; the top bit says that more follow. */
  function EncodeLength(n: nat): (s: seq<Byte>)
    ensures |s| >= 1
  {
    if n < 128 then [n] else [n % 128 + 128] + EncodeLength(n / 128)
  }

  /** Value and size of the field at the start of `s`, reading at most `limit` bytes. */
  function DecodeLength(s: seq<Byte>, limit: nat): (r: (nat, nat))
    requires limit >= 1
    ensures r.1 <= limit && r.1 <= |s|
  {
    if s == [] then (0, 0)
    else if s[0] < 128 || limit == 1 then (s[0] % 128, 1)
    else
      var (value, used) := DecodeLength(s[1..], limit - 1);
      (s[0] % 128 + 128 * value, used + 1)
  }

  function Pow128(k: nat): (p: nat)
    ensures p >= 1
  {
    if k == 0 then 1 else 128 * Pow128(k - 1)
  }

  /** With k bytes to spare the field is read back, whatever follows it. */
  lemma {:induction false} LengthReadBack(n: nat, k: nat, rest: seq<Byte>)
    requires k >= 1 && n < Pow128(k)
    ensures DecodeLength(EncodeLength(n) + rest, k) == (n, |EncodeLength(n)|)
  {
    var s := EncodeLength(n) + rest;
    if n >= 128 {
      assert s[1..] == EncodeLength(n / 128) + rest;
      LengthReadBack(n / 128, k - 1, rest);
    }
  }

  lemma {:induction false} DecodedBelow(s: seq<Byte>, k: nat)
    requires k >= 1
    ensures DecodeLength(s, k).0 < Pow128(k)
  {
    if s != [] && s[0] >= 128 && k > 1 { DecodedBelow(s[1..], k - 1); }
  }

  lemma FourBytes()
    ensures Pow128(4) == 0x1000_0000
  {
    assert Pow128(2) == 128 * 128;
  }

  /** Decoding inverts encoding exactly for the lengths below 2^28 that the standard allows. */
  lemma LengthRoundTrip(n: nat, rest: seq<Byte>)
    ensures DecodeLength(EncodeLength(n) + rest, 4) == (n, |EncodeLength(n)|) <==> n < 0x1000_0000
  {
    FourBytes();
    if n < 0x1000_0000 {
      LengthReadBack(n, 4, rest);
    } else {
      DecodedBelow(EncodeLength(n) + rest, 4);
    }
  }

  lemma {:induction false} EncodedSize(n: nat, k: nat)
    requires k >= 1 && n < Pow128(k)
    ensures |EncodeLength(n)| <= k
  {
    if n >= 128 { EncodedSize(n / 128, k - 1); }
  }

  // ---- Packets ----

  type Text = s: seq<Byte> | |s| < 0x1_0000

  function EncodeString(s: Text): seq<Byte> {
    [|s| / 0x100, |s| % 0x100] + s
  }

  function Frame(header: Byte, body: seq<Byte>): seq<Byte> {
    [header] + EncodeLength(|body|) + body
  }

  function PublishHeader(qos: nat, retained: bool): Byte {
    0x30 + (if retained then 1 else 0) + qos % 4 * 2
  }

  function PublishBody(topic: Text, payload: seq<Byte>, qos: nat, id: nat): seq<Byte>
    requires id < 0x1_0000
  {
    EncodeString(topic) + (if qos > 0 then [id / 0x100, id % 0x100] else []) + payload
  }

  function SubscribeBody(id: nat, topic: Text, qos: Byte): seq<Byte>
    requires id < 0x1_0000
  {
    [id / 0x100, id % 0x100] + EncodeString(topic) + [qos]
  }

  datatype Will = Will(topic: Text, message: Text, qos: nat, retained: bool)

  datatype Config = Config(
    clientId: Text, cleanSession: bool, keepAlive: nat, will: Option<Will>, username: Option<Text>,
    password: Option<Text>)

  function ConnectFlags(c: Config): Byte {
    (if c.cleanSession then 0x02 else 0)
    + (match c.will case None => 0 case Some(w) => 0x04 + w.qos % 4 * 8 + (if w.retained then 0x20 else 0))
    + (if c.username.Some? then 0x80 else 0) + (if c.password.Some? then 0x40 else 0)
  }

  function OptionalString(s: Option<Text>): seq<Byte> {
    match s case None => [] case Some(t) => EncodeString(t)
  }

  function WillPart(will: Option<Will>): seq<Byte> {
    match will case None => [] case Some(w) => EncodeString(w.topic) + EncodeString(w.message)
  }

  /** Protocol name, level, flags and keep-alive. */
  function ConnectHeader(c: Config): seq<Byte>
    requires c.keepAlive < 0x1_0000
  {
    EncodeString([0x4D, 0x51, 0x54, 0x54]) + [4, ConnectFlags(c), c.keepAlive / 0x100, c.keepAlive % 0x100]
  }

  function ConnectBody(c: Config): seq<Byte>
    requires c.keepAlive < 0x1_0000
  {
    ConnectHeader(c) + EncodeString(c.clientId) + WillPart(c.will) + OptionalString(c.username)
      + OptionalString(c.password)
  }

  /** memcpy into a buffer at a position. */
  method Put(buf: array<Byte>, at: nat, data: seq<Byte>) returns (next: nat)
    requires at + |data| <= buf.Length
    modifies buf
    ensures next == at + |data| && buf[..next] == old(buf[..at]) + data
    ensures buf[next..] == old(buf[next..])
  {
    for k := 0 to |data|
      invariant forall i :: 0 <= i < buf.Length ==> buf[i] == if at <= i < at + k then data[i - at] else old(buf[i])
    {
      buf[at + k] := data[k];
    }
    next := at + |data|;
  }

  method PutLength(buf: array<Byte>, at: nat, length: Word) returns (used: nat)
    requires at + |EncodeLength(length)| <= buf.Length
    modifies buf
    ensures used == |EncodeLength(length)| && buf[..at + used] == old(buf[..at]) + EncodeLength(length)
    ensures buf[at + used..] == old(buf[at + used..])
  {
    var rest: nat := length;
    used := 0;
    ghost var done, todo := buf[..at], EncodeLength(rest);
    ghost var whole := done + todo;
    while true
      invariant at + used < buf.Length && buf[..at + used] == done && todo == EncodeLength(rest) && done + todo == whole
      invariant |whole| <= buf.Length && forall i :: at + used <= i < buf.Length ==> buf[i] == old(buf[i])
      decreases rest
    {
      ghost var todo' := LengthStep(rest);
      var byte: Byte := rest % 128;
      rest := rest / 128;
      if rest > 0 { byte := byte + 0x80; }
      assert done + ([byte] + todo') == (done + [byte]) + todo';
      buf[at + used] := byte;
      assert buf[..at + used + 1] == done + [byte];
      used, done, todo := used + 1, done + [byte], todo';
      if rest == 0 { break; }
    }
  }

  /** The first byte of the field, and what is left to encode after it. */
  lemma LengthStep(n: nat) returns (todo: seq<Byte>)
    ensures n / 128 > 0 ==>
      n % 128 + 128 < 0x100 && EncodeLength(n) == [n % 128 + 128] + todo && todo == EncodeLength(n / 128)
    ensures n / 128 == 0 ==> n % 128 < 0x100 && EncodeLength(n) == [n % 128] + todo && todo == []
  {
    todo := if n / 128 > 0 then EncodeLength(n / 128) else [];
  }

  // ---- Sending ----

  method PutString(buf: array<Byte>, at: nat, s: Text) returns (next: nat)
    requires at + 2 + |s| <= buf.Length
    modifies buf
    ensures next == at + 2 + |s| && buf[..next] == old(buf[..at]) + EncodeString(s)
    ensures buf[next..] == old(buf[next..])
  {
    next := Put(buf, at, [|s| / 0x100, |s| % 0x100]);
    next := Put(buf, next, s);
    assert EncodeString(s) == [|s| / 0x100, |s| % 0x100] + s;
  }

  /** PUBLISH: the declared Remaining Length is computed before the body is written, and equals its size. */
  method SendPublish(buf: array<Byte>, topic: Text, payload: seq<Byte>, qos: nat, retained: bool, id: nat)
    returns (length: nat)
    requires id < 0x1_0000 && |Frame(PublishHeader(qos, retained), PublishBody(topic, payload, qos, id))| <= buf.Length
    requires buf.Length <= MAX_PACKET_SIZE
    modifies buf
    ensures length <= buf.Length
    ensures buf[..length] == Frame(PublishHeader(qos, retained), PublishBody(topic, payload, qos, id))
  {
    var header := 0x30 + (if retained then 1 else 0) + qos % 4 * 2;
    var remaining := 2 + |topic| + |payload|;
    if qos > 0 { remaining := remaining + 2; }
    var pos := PutHeader(buf, header, remaining);
    ghost var prefix, s1, s2 := buf[..pos], EncodeString(topic), if qos > 0 then [id / 0x100, id % 0x100] else [];
    assert prefix + s1 + s2 + payload == prefix + (s1 + s2 + payload);
    pos := PutString(buf, pos, topic);
    if qos > 0 { pos := Put(buf, pos, [id / 0x100, id % 0x100]); }
    length := Put(buf, pos, payload);
  }

  /** The fixed header. */
  method PutHeader(buf: array<Byte>, header: Byte, remaining: Word) returns (pos: nat)
    requires 1 + |EncodeLength(remaining)| <= buf.Length
    modifies buf
    ensures pos == 1 + |EncodeLength(remaining)| && buf[..pos] == [header] + EncodeLength(remaining)
  {
    pos := Put(buf, 0, [header]);
    var used := PutLength(buf, pos, remaining);
    pos := pos + used;
  }

  method SendSubscribe(buf: array<Byte>, topic: Text, qos: Byte, id: nat) returns (length: nat)
    requires id < 0x1_0000 && |Frame(0x82, SubscribeBody(id, topic, qos))| <= buf.Length
    modifies buf
    ensures length <= buf.Length && buf[..length] == Frame(0x82, SubscribeBody(id, topic, qos))
  {
    var pos := PutHeader(buf, 0x82, 2 + 2 + |topic| + 1);
    ghost var prefix, s1, s2 := buf[..pos], [id / 0x100, id % 0x100], EncodeString(topic);
    pos := Put(buf, pos, [id / 0x100, id % 0x100]);
    pos := PutString(buf, pos, topic);
    length := Put(buf, pos, [qos]);
    assert prefix + s1 + s2 + [qos] == prefix + (s1 + s2 + [qos]);
  }

  method SendUnsubscribe(buf: array<Byte>, topic: Text, id: nat) returns (length: nat)
    requires id < 0x1_0000 && |Frame(0xA2, [id / 0x100, id % 0x100] + EncodeString(topic))| <= buf.Length
    modifies buf
    ensures length <= buf.Length && buf[..length] == Frame(0xA2, [id / 0x100, id % 0x100] + EncodeString(topic))
  {
    var pos := PutHeader(buf, 0xA2, 2 + 2 + |topic|);
    ghost var prefix, s1, s2 := buf[..pos], [id / 0x100, id % 0x100], EncodeString(topic);
    pos := Put(buf, pos, [id / 0x100, id % 0x100]);
    length := PutString(buf, pos, topic);
    assert prefix + s1 + s2 == prefix + (s1 + s2);
  }

  /** memmove of the bytes at `from` down to `at`. */
  method MoveDown(buf: array<Byte>, at: nat, from: nat, count: nat)
    requires at <= from && from + count <= buf.Length
    modifies buf
    ensures buf[..at + count] == old(buf[..at]) + old(buf[from..from + count])
  {
    for k := 0 to count
      invariant buf[..at + k] == old(buf[..at]) + old(buf[from..from + k]) && buf[at + k..] == old(buf[at + k..])
    {
      assert buf[from + k] == buf[at + k..][from - at] == old(buf[at + k..])[from - at];
      buf[at + k] := buf[from + k];
      assert old(buf[from..from + k + 1]) == old(buf[from..from + k]) + [buf[at + k]];
    }
  }

  /**
   * The body of CONNECT is staged behind room for a four-byte length, so it needs five bytes more than its own: exactly
   * for bodies of 1020 and 1021 bytes the packet fits into the buffer and the staging does not.
   */
  lemma StagingExact(c: Config)
    requires c.keepAlive < 0x1_0000
    ensures var body := ConnectBody(c);
            |Frame(0x10, body)| <= MAX_PACKET_SIZE < 5 + |body| <==> 1020 <= |body| <= 1021
  {
    var n := |ConnectBody(c)|;
    if 128 <= n < 16384 {
      assert |EncodeLength(n / 128)| == 1;
    } else if n < 128 {
      assert |EncodeLength(n)| == 1;
    }
  }

  /** There are such bodies: a client identifier of 1008 bytes and nothing optional. */
  lemma LongConnect(id: Text)
    requires |id| == 1008
    ensures |ConnectBody(Config(id, true, 60, None, None, None))| == 1020
  {
  }

  /** CONNECT: the body is written behind room for a four-byte length, then moved down over the unused part. */
  method SendConnect(buf: array<Byte>, c: Config) returns (length: nat)
    requires c.keepAlive < 0x1_0000 && 5 + |ConnectBody(c)| <= buf.Length <= MAX_PACKET_SIZE
    modifies buf
    ensures length <= buf.Length && buf[..length] == Frame(0x10, ConnectBody(c))
  {
    ghost var body := ConnectBody(c);
    var pos := Put(buf, 0, [0x10]);
    var start := pos + 4;
    var end := PutConnectBody(buf, start, c);
    assert buf[start..end] == body && buf[..pos] == [0x10];
    length := FillInLength(buf, 0x10, end, body);
  }

  /** Writes the length of a body that starts at offset 5 and closes the gap in front of it. */
  method FillInLength(buf: array<Byte>, header: Byte, end: nat, ghost body: seq<Byte>) returns (length: nat)
    requires 5 <= end <= buf.Length <= MAX_PACKET_SIZE && buf[..1] == [header] && buf[5..end] == body
    modifies buf
    ensures length <= buf.Length && buf[..length] == Frame(header, body)
  {
    var remaining := end - 5;
    FourBytes();
    EncodedSize(remaining, 4);
    var used := PutLength(buf, 1, remaining);
    assert buf[5..end] == body by {
      assert buf[5..end] == buf[1 + used..][4 - used..end - 1 - used];
      assert old(buf[5..end]) == old(buf[1 + used..])[4 - used..end - 1 - used];
    }
    length := end;
    if used != 4 {
      MoveDown(buf, 1 + used, 5, remaining);
      length := 1 + used + remaining;
    }
  }

  lemma RegroupConnect(p: seq<Byte>, a: seq<Byte>, b: seq<Byte>, c: seq<Byte>, d: seq<Byte>, e: seq<Byte>)
    ensures p + a + b + c + d + e == p + (a + b + c + d + e)
    ensures |a + b + c + d + e| == |a| + |b| + |c| + |d| + |e|
  {
  }

  method PutConnectHeader(buf: array<Byte>, start: nat, c: Config) returns (pos: nat)
    requires c.keepAlive < 0x1_0000 && start + |ConnectHeader(c)| <= buf.Length
    modifies buf
    ensures pos == start + |ConnectHeader(c)| && buf[..pos] == old(buf[..start]) + ConnectHeader(c)
  {
    pos := PutString(buf, start, [0x4D, 0x51, 0x54, 0x54]);
    pos := Put(buf, pos, [4, ConnectFlags(c), c.keepAlive / 0x100, c.keepAlive % 0x100]);
  }

  method PutConnectBody(buf: array<Byte>, start: nat, c: Config) returns (pos: nat)
    requires c.keepAlive < 0x1_0000 && start + |ConnectBody(c)| <= buf.Length
    modifies buf
    ensures pos == start + |ConnectBody(c)| && buf[..pos] == old(buf[..start]) + ConnectBody(c)
  {
    ghost var prefix := buf[..start];
    ghost var s1, s2, s3 := ConnectHeader(c), EncodeString(c.clientId), WillPart(c.will);
    ghost var s4, s5 := OptionalString(c.username), OptionalString(c.password);
    RegroupConnect(prefix, s1, s2, s3, s4, s5);
    pos := PutConnectHeader(buf, start, c);
    pos := PutString(buf, pos, c.clientId);
    assert buf[..pos] == prefix + s1 + s2;
    pos := PutWill(buf, pos, c.will);
    assert buf[..pos] == prefix + s1 + s2 + s3;
    pos := PutOptional(buf, pos, c.username);
    pos := PutOptional(buf, pos, c.password);
    assert buf[..pos] == prefix + s1 + s2 + s3 + s4 + s5;
  }

  method PutWill(buf: array<Byte>, at: nat, will: Option<Will>) returns (pos: nat)
    requires at + |WillPart(will)| <= buf.Length
    modifies buf
    ensures pos == at + |WillPart(will)| && buf[..pos] == old(buf[..at]) + WillPart(will)
  {
    pos := at;
    if will.Some? {
      ghost var prefix, s1, s2 := buf[..at], EncodeString(will.value.topic), EncodeString(will.value.message);
      Joins(prefix, s1, s2);
      pos := PutString(buf, pos, will.value.topic);
      pos := PutString(buf, pos, will.value.message);
      assert buf[..pos] == prefix + s1 + s2;
    }
  }

  lemma Joins(p: seq<Byte>, a: seq<Byte>, b: seq<Byte>)
    ensures p + a + b == p + (a + b) && |a + b| == |a| + |b|
  {
  }

  method PutOptional(buf: array<Byte>, at: nat, s: Option<Text>) returns (pos: nat)
    requires at + |OptionalString(s)| <= buf.Length
    modifies buf
    ensures pos == at + |OptionalString(s)| && buf[..pos] == old(buf[..at]) + OptionalString(s)
  {
    pos := at;
    if s.Some? { pos := PutString(buf, pos, s.value); }
  }
}
