/**
 * The packets of MQTT 3.1.1 as their receiver reads them: sections 1.5.3, 2.2, 3.1, 3.3, 3.8 and 3.10 of the standard.
 * Everything that is sent is read back, field by field.
 */
module MqttFormat {
  import opened Bytes
  import opened Mqtt
  import opened Wrappers

  // ---- The fixed header ----

  /** Digit k of n to the base 128. */
  function Digit(n: nat, k: nat): nat { if k == 0 then n % 128 else Digit(n / 128, k - 1) }

  /** The Remaining Length field holds the digits to the base 128, the lowest first, all but the last marked. */
  lemma {:induction false} LengthDigits(n: nat, k: nat)
    requires k < |EncodeLength(n)|
    ensures EncodeLength(n)[k] % 128 == Digit(n, k)
    ensures EncodeLength(n)[k] >= 128 <==> k < |EncodeLength(n)| - 1
    decreases k
  {
    if k > 0 { LengthDigits(n / 128, k - 1); }
  }

  /** The first byte of PUBLISH: its type, no duplicate, its quality of service, and whether it is retained. */
  lemma PublishFlags(qos: nat, retained: bool)
    requires qos < 4
    ensures var h := PublishHeader(qos, retained);
            h / 16 == 3 && h / 8 % 2 == 0 && h / 2 % 4 == qos && h % 2 == (if retained then 1 else 0)
  {
  }

  // ---- Reading ----

  /** What is read, and what is left. */
  datatype Read<T> = Short | Got(value: T, rest: seq<Byte>)

  /** Two bytes, the high one first. */
  function ReadNumber(s: seq<Byte>): Read<Half> {
    if |s| < 2 then Short else Got(256 * s[0] as int + s[1] as int, s[2..])
  }

  function ReadByte(s: seq<Byte>): Read<Byte> { if s == [] then Short else Got(s[0], s[1..]) }

  /** A length and as many bytes. */
  function ReadString(s: seq<Byte>): Read<Text> {
    match ReadNumber(s)
    case Short => Short
    case Got(n, rest) =>
      if |rest| < n then Short
      else
        var text: Text := rest[..n];
        Got(text, rest[n..])
  }

  function ReadOptional(present: bool, s: seq<Byte>): Read<Option<Text>> {
    if !present then Got(None, s)
    else match ReadString(s) case Short => Short case Got(v, rest) => Got(Some(v), rest)
  }

  lemma NumberRead(n: nat, rest: seq<Byte>)
    requires n < 0x1_0000
    ensures ReadNumber([n / 0x100, n % 0x100] + rest) == Got(n, rest)
  {
    assert ([n / 0x100, n % 0x100] + rest)[2..] == rest;
  }

  lemma StringRead(s: Text, rest: seq<Byte>)
    ensures ReadString(EncodeString(s) + rest) == Got(s, rest)
  {
    var n := |s|;
    assert EncodeString(s) + rest == [n / 0x100, n % 0x100] + (s + rest);
    NumberRead(n, s + rest);
    assert (s + rest)[..n] == s && (s + rest)[n..] == rest;
  }

  lemma OptionalRead(s: Option<Text>, rest: seq<Byte>)
    ensures ReadOptional(s.Some?, OptionalString(s) + rest) == Got(s, rest)
  {
    match s
    case None => assert [] + rest == rest;
    case Some(t) => StringRead(t, rest);
  }

  // ---- PUBLISH, SUBSCRIBE and UNSUBSCRIBE ----

  datatype Published = Published(topic: Text, id: Half, payload: seq<Byte>)

  function ReadPublish(qos: nat, body: seq<Byte>): Option<Published> {
    match ReadString(body)
    case Short => None
    case Got(topic, rest) =>
      if qos == 0 then Some(Published(topic, 0, rest))
      else match ReadNumber(rest) case Short => None case Got(id, payload) => Some(Published(topic, id, payload))
  }

  /** Topic, identifier above QoS 0, and payload are read as they were sent. */
  lemma PublishRead(topic: Text, payload: seq<Byte>, qos: nat, id: nat)
    requires id < 0x1_0000
    ensures ReadPublish(qos, PublishBody(topic, payload, qos, id))
      == Some(Published(topic, if qos == 0 then 0 else id, payload))
  {
    var rest := (if qos > 0 then [id / 0x100, id % 0x100] else []) + payload;
    assert PublishBody(topic, payload, qos, id) == EncodeString(topic) + rest;
    StringRead(topic, rest);
    if qos > 0 { NumberRead(id, payload); } else { assert rest == payload; }
  }

  datatype Subscribed = Subscribed(id: Half, topic: Text, rest: seq<Byte>)

  /** Identifier and first topic filter; what follows is the requested quality of service, or nothing. */
  function ReadSubscribe(body: seq<Byte>): Option<Subscribed> {
    match ReadNumber(body)
    case Short => None
    case Got(id, rest) =>
      match ReadString(rest) case Short => None case Got(topic, after) => Some(Subscribed(id, topic, after))
  }

  lemma SubscribeRead(id: nat, topic: Text, qos: Byte)
    requires id < 0x1_0000
    ensures ReadSubscribe(SubscribeBody(id, topic, qos)) == Some(Subscribed(id, topic, [qos]))
  {
    assert SubscribeBody(id, topic, qos) == [id / 0x100, id % 0x100] + (EncodeString(topic) + [qos]);
    NumberRead(id, EncodeString(topic) + [qos]);
    StringRead(topic, [qos]);
  }

  lemma UnsubscribeRead(id: nat, topic: Text)
    requires id < 0x1_0000
    ensures ReadSubscribe([id / 0x100, id % 0x100] + EncodeString(topic)) == Some(Subscribed(id, topic, []))
  {
    var s := EncodeString(topic);
    assert s + [] == s;
    NumberRead(id, s);
    StringRead(topic, []);
  }

  // ---- CONNECT ----

  /** Bit k of a byte of flags. */
  predicate Bit(flags: Byte, weight: nat)
    requires weight > 0
  {
    flags / weight % 2 == 1
  }

  /** The flag bits of section 3.1.2.3: clean session, will, will QoS, will retain, password, user name. */
  ghost predicate FlagsOf(flags: Byte, c: Config) {
    && flags % 2 == 0 && Bit(flags, 2) == c.cleanSession && Bit(flags, 4) == c.will.Some?
    && flags / 8 % 4 == (if c.will.Some? then c.will.value.qos % 4 else 0)
    && Bit(flags, 32) == (c.will.Some? && c.will.value.retained)
    && Bit(flags, 64) == c.password.Some? && Bit(flags, 128) == c.username.Some?
  }

  lemma ConnectFlagBits(c: Config)
    ensures FlagsOf(ConnectFlags(c), c)
  {
    var q := if c.will.Some? then c.will.value.qos % 4 else 0;
    FlagSum(AsBit(c.cleanSession), AsBit(c.will.Some?), q, AsBit(c.will.Some? && c.will.value.retained),
      AsBit(c.password.Some?), AsBit(c.username.Some?), ConnectFlags(c));
  }

  function AsBit(b: bool): nat { if b then 1 else 0 }

  lemma FlagSum(a: nat, b: nat, q: nat, r: nat, p: nat, u: nat, x: nat)
    requires a <= 1 && b <= 1 && q <= 3 && r <= 1 && p <= 1 && u <= 1
    requires x == 2 * a + 4 * b + 8 * q + 32 * r + 64 * p + 128 * u
    ensures x % 2 == 0 && x / 2 % 2 == a && x / 4 % 2 == b && x / 8 % 4 == q
    ensures x / 32 % 2 == r && x / 64 % 2 == p && x / 128 % 2 == u
  {
    assert x / 128 == u && x / 64 == p + 2 * u && x / 32 == r + 2 * (p + 2 * u);
    assert x / 8 == q + 4 * (r + 2 * (p + 2 * u));
    assert x / 4 == b + 2 * (q + 4 * (r + 2 * (p + 2 * u)));
    assert x / 2 == a + 2 * (b + 2 * (q + 4 * (r + 2 * (p + 2 * u))));
  }

  function ReadWill(present: bool, qos: nat, retained: bool, s: seq<Byte>): Read<Option<Will>> {
    if !present then Got(None, s)
    else
      match ReadString(s)
      case Short => Short
      case Got(topic, rest) =>
        match ReadString(rest)
        case Short => Short
        case Got(message, after) => Got(Some(Will(topic, message, qos, retained)), after)
  }

  /** The payload of CONNECT: client identifier, will, user name and password, as the flags announce them. */
  function ReadConnectPayload(flags: Byte, keepAlive: nat, s: seq<Byte>): Option<Config> {
    match ReadString(s)
    case Short => None
    case Got(clientId, s1) =>
      match ReadWill(Bit(flags, 4), flags / 8 % 4, Bit(flags, 32), s1)
      case Short => None
      case Got(will, s2) =>
        match ReadOptional(Bit(flags, 128), s2)
        case Short => None
        case Got(username, s3) =>
          match ReadOptional(Bit(flags, 64), s3)
          case Short => None
          case Got(password, s4) =>
            if s4 != [] then None
            else Some(Config(clientId, Bit(flags, 2), keepAlive, will, username, password))
  }

  /** CONNECT: the protocol name and level 4, the flags, the keep-alive time and the payload. */
  function ReadConnect(body: seq<Byte>): Option<Config> {
    match ReadString(body)
    case Short => None
    case Got(name, rest) =>
      if name != [0x4D, 0x51, 0x54, 0x54] || |rest| < 4 || rest[0] != 4 then None
      else ReadConnectPayload(rest[1], 256 * rest[2] as int + rest[3] as int, rest[4..])
  }

  lemma WillRead(will: Option<Will>, qos: nat, retained: bool, rest: seq<Byte>)
    requires will.Some? ==> will.value.qos == qos && will.value.retained == retained
    ensures ReadWill(will.Some?, qos, retained, WillPart(will) + rest) == Got(will, rest)
  {
    match will
    case None => assert [] + rest == rest;
    case Some(w) =>
      assert WillPart(will) + rest == EncodeString(w.topic) + (EncodeString(w.message) + rest);
      StringRead(w.topic, EncodeString(w.message) + rest);
      StringRead(w.message, rest);
  }

  lemma PayloadRead(c: Config, flags: Byte, s: seq<Byte>)
    requires FlagsOf(flags, c) && (c.will.Some? ==> c.will.value.qos < 4)
    requires s == EncodeString(c.clientId)
      + (WillPart(c.will) + (OptionalString(c.username) + (OptionalString(c.password) + [])))
    ensures ReadConnectPayload(flags, c.keepAlive, s) == Some(c)
  {
    var s4: seq<Byte> := [];
    var s3 := OptionalString(c.password) + s4;
    var s2 := OptionalString(c.username) + s3;
    var s1 := WillPart(c.will) + s2;
    StringRead(c.clientId, s1);
    WillRead(c.will, flags / 8 % 4, Bit(flags, 32), s2);
    OptionalRead(c.username, s3);
    OptionalRead(c.password, s4);
  }

  lemma FixedRead(name: Text, flags: Byte, keepAlive: nat, payload: seq<Byte>)
    requires keepAlive < 0x1_0000 && name == [0x4D, 0x51, 0x54, 0x54]
    ensures ReadConnect(EncodeString(name) + ([4, flags, keepAlive / 0x100, keepAlive % 0x100] + payload))
      == ReadConnectPayload(flags, keepAlive, payload)
  {
    var rest := [4, flags, keepAlive / 0x100, keepAlive % 0x100] + payload;
    StringRead(name, rest);
    assert rest[4..] == payload;
  }

  /** The name, the level and the flags in front of the payload. */
  lemma FrontRead(c: Config, payload: seq<Byte>)
    requires c.keepAlive < 0x1_0000
    ensures ReadConnect(ConnectHeader(c) + payload) == ReadConnectPayload(ConnectFlags(c), c.keepAlive, payload)
  {
    var fixed := [4, ConnectFlags(c), c.keepAlive / 0x100, c.keepAlive % 0x100];
    var name: Text := [0x4D, 0x51, 0x54, 0x54];
    Regroup(EncodeString(name), fixed, payload);
    FixedRead(name, ConnectFlags(c), c.keepAlive, payload);
  }

  lemma ConnectRegroup(h: seq<Byte>, a: seq<Byte>, b: seq<Byte>, c: seq<Byte>, d: seq<Byte>)
    ensures h + a + b + c + d == h + (a + (b + (c + (d + []))))
  {
  }

  /** Every configuration, with a will of QoS 0 to 3, is read back from its CONNECT packet: all fields, no byte more. */
  lemma ConnectRead(c: Config)
    requires c.keepAlive < 0x1_0000 && (c.will.Some? ==> c.will.value.qos < 4)
    ensures ReadConnect(ConnectBody(c)) == Some(c)
  {
    var a, b, u, p := EncodeString(c.clientId), WillPart(c.will), OptionalString(c.username),
      OptionalString(c.password);
    ConnectRegroup(ConnectHeader(c), a, b, u, p);
    var payload := a + (b + (u + (p + [])));
    ConnectFlagBits(c);
    FrontRead(c, payload);
    PayloadRead(c, ConnectFlags(c), payload);
  }
}
