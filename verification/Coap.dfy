/** CoAP message encoding and decoding: the format of sections 3 and 3.1 of RFC 7252. */
module Coap {
  import opened Bytes

  const VERSION := 1
  const MAX_PDU_SIZE := 1152
  const MAX_TOKEN_LEN := 8
  const MAX_OPTION_COUNT := 16
  const PAYLOAD_MARKER := 0xFF

  datatype Option = Option(number: Half, value: seq<Byte>)

  datatype Pdu = Pdu(
    version: Byte, kind: Byte, code: Byte, id: Half, token: seq<Byte>, options: seq<Option>, payload: seq<Byte>)

  predicate Valid(p: Pdu) {
    && p.version == VERSION && p.kind < 4 && |p.token| <= MAX_TOKEN_LEN && |p.options| <= MAX_OPTION_COUNT
    && (forall i :: 0 <= i < |p.options| ==> |p.options[i].value| < 0x1_0000)
  }

  // ---- Encoding ----

  /** The nibble that announces a delta or length. */
  function Nibble(v: Half): Byte {
    if v < 13 then v else if v < 269 then 13 else 14
  }

  /** The extension bytes that follow the option header. */
  function Extension(v: Half): seq<Byte> {
    if v < 13 then [] else if v < 269 then [v - 13] else [(v - 269) / 0x100, (v - 269) % 0x100]
  }

  /** The difference of option numbers in 16-bit arithmetic. */
  function Delta(number: Half, previous: Half): Half {
    var n: int, p: int := number, previous;
    if n >= p then n - p else n - p + 0x1_0000
  }

  function EncodeOption(previous: Half, o: Option): seq<Byte>
    requires |o.value| < 0x1_0000
  {
    [Nibble(Delta(o.number, previous)) * 16 + Nibble(|o.value|)]
    + Extension(Delta(o.number, previous)) + Extension(|o.value|) + o.value
  }

  function EncodeOptions(previous: Half, options: seq<Option>): seq<Byte>
    requires forall i :: 0 <= i < |options| ==> |options[i].value| < 0x1_0000
    decreases |options|
  {
    if options == [] then []
    else EncodeOption(previous, options[0]) + EncodeOptions(options[0].number, options[1..])
  }

  function EncodePayload(payload: seq<Byte>): seq<Byte> {
    if payload == [] then [] else [PAYLOAD_MARKER] + payload
  }

  function EncodeHeader(p: Pdu): seq<Byte>
    requires Valid(p)
  {
    [p.version * 64 + p.kind * 16 + |p.token|, p.code, p.id / 0x100, p.id % 0x100]
  }

  /** The bytes of a message. */
  function Wire(p: Pdu): seq<Byte>
    requires Valid(p)
  {
    EncodeHeader(p) + p.token + (EncodeOptions(0, p.options) + EncodePayload(p.payload))
  }

  // ---- Decoding ----

  datatype Result<T> = Ok(value: T) | InvalidParam | InvalidMessage

  /** Value of a nibble with its extension at offset `at`, in 16-bit arithmetic. */
  function Extended(m: seq<Byte>, at: nat, nibble: Byte): Half
    requires at + 2 <= |m|
  {
    var b0: int, b1: int := m[at], m[at + 1];
    if nibble < 13 then nibble
    else if nibble == 13 then b0 + 13
    else if nibble == 14 then (0x100 * b0 + b1 + 269) % 0x1_0000
    else 0
  }

  function ExtensionSize(nibble: Byte): nat {
    if nibble == 13 then 1 else if nibble == 14 then 2 else 0
  }

  datatype Head = Head(delta: Half, length: Half, size: nat)

  /** The head of the option at the start of `m`: delta, value length, and bytes before the value. */
  function OptionHead(m: seq<Byte>): (h: Head)
    requires |m| >= 5
  {
    var d, l := m[0] / 16, m[0] % 16;
    var at := 1 + ExtensionSize(d);
    Head(Extended(m, 1, d), Extended(m, at, l), at + ExtensionSize(l))
  }

  datatype Tail = Tail(options: seq<Option>, payload: seq<Byte>)

  function Add(number: Half, delta: Half): Half {
    var n: int, d: int := number, delta;
    (n + d) % 0x1_0000
  }

  /**
   * Options and payload in `s`. An option head cut off by the end of the buffer makes the decoder read
   * up to four bytes of whatever memory follows; `beyond` stands for that memory.
   */
  function DecodeTail(s: seq<Byte>, beyond: seq<Byte>, number: Half, count: nat): Result<Tail>
    requires |beyond| >= 4
    decreases |s|
  {
    if s == [] then Ok(Tail([], []))
    else if s[0] == PAYLOAD_MARKER then Ok(Tail([], s[1..]))
    else if count >= MAX_OPTION_COUNT then InvalidMessage
    else
      var h := OptionHead(s + beyond);
      if h.size + h.length > |s| then InvalidMessage
      else
        var end := h.size + h.length;
        Prepend(Option(Add(number, h.delta), s[h.size..end]),
                DecodeTail(s[end..], beyond, Add(number, h.delta), count + 1))
  }

  function Prepend(o: Option, r: Result<Tail>): Result<Tail> {
    match r
    case Ok(t) => Ok(Tail([o] + t.options, t.payload))
    case InvalidMessage => InvalidMessage
    case InvalidParam => InvalidParam
  }

  function Decode(b: seq<Byte>, beyond: seq<Byte>): Result<Pdu>
    requires |beyond| >= 4
  {
    if |b| < 4 then InvalidParam else DecodeFields(b[0] / 64, b[0] / 16 % 4, b[0] % 16, b, beyond)
  }

  /** Decoding with the first byte already taken apart. */
  function DecodeFields(version: Byte, kind: Byte, tokenLength: Byte, b: seq<Byte>, beyond: seq<Byte>): Result<Pdu>
    requires |b| >= 4 && |beyond| >= 4
  {
    if version != VERSION then InvalidMessage
    else if tokenLength > MAX_TOKEN_LEN || 4 + tokenLength > |b| then InvalidMessage
    else
      match DecodeTail(b[4 + tokenLength..], beyond, 0, 0)
      case Ok(t) => Ok(Pdu(version, kind, b[1], MessageId(b[2], b[3]), b[4..4 + tokenLength], t.options, t.payload))
      case InvalidMessage => InvalidMessage
      case InvalidParam => InvalidParam
  }

  function MessageId(high: Byte, low: Byte): Half {
    var h: int, l: int := high, low;
    0x100 * h + l
  }

  // ---- Decoding inverts encoding ----

  lemma ExtendedReadBack(v: Half, m: seq<Byte>, at: nat)
    requires at + 2 <= |m| && at + |Extension(v)| <= |m| && m[at..at + |Extension(v)|] == Extension(v)
    ensures Extended(m, at, Nibble(v)) == v && |Extension(v)| == ExtensionSize(Nibble(v))
  {
    var e := m[at..at + |Extension(v)|];
    if v >= 13 { assert m[at] == e[0]; }
    if v >= 269 { assert m[at + 1] == e[1]; }
  }

  /** An option header never looks like the payload marker, and its head is read back. */
  lemma OptionHeadReadBack(previous: Half, o: Option, rest: seq<Byte>)
    requires |o.value| < 0x1_0000 && |EncodeOption(previous, o) + rest| >= 5
    ensures var e := EncodeOption(previous, o);
            && e[0] != PAYLOAD_MARKER
            && var h := OptionHead(e + rest);
            h.delta == Delta(o.number, previous) && h.length == |o.value| && h.size + |o.value| == |e|
            && e[h.size..] == o.value
  {
    var d, l := Delta(o.number, previous), |o.value|;
    var x, y := Extension(d), Extension(l);
    var m := EncodeOption(previous, o) + rest;
    assert m[0] / 16 == Nibble(d) && m[0] % 16 == Nibble(l);
    assert m[1..1 + |x|] == x;
    ExtendedReadBack(d, m, 1);
    assert m[1 + |x|..1 + |x| + |y|] == y;
    ExtendedReadBack(l, m, 1 + |x|);
  }

  /** One option at the front of the buffer is taken off by the decoder. */
  lemma OptionReadBack(previous: Half, o: Option, rest: seq<Byte>, count: nat, beyond: seq<Byte>)
    requires |beyond| >= 4 && count < MAX_OPTION_COUNT && |o.value| < 0x1_0000
    ensures DecodeTail(EncodeOption(previous, o) + rest, beyond, previous, count)
      == Prepend(o, DecodeTail(rest, beyond, o.number, count + 1))
  {
    var e := EncodeOption(previous, o);
    var s := e + rest;
    assert s + beyond == e + (rest + beyond);
    OptionHeadReadBack(previous, o, rest + beyond);
    var h, o', s', r := TailStep(s, beyond, previous, count);
    assert s' == rest && s[h.size..|e|] == e[h.size..];
  }

  lemma PayloadReadBack(payload: seq<Byte>, number: Half, count: nat, beyond: seq<Byte>)
    requires |beyond| >= 4
    ensures DecodeTail(EncodePayload(payload), beyond, number, count) == Ok(Tail([], payload))
  {
    if payload != [] { assert EncodePayload(payload)[1..] == payload; }
  }

  /** Decoding the encoded options, one at a time, down to the payload. */
  lemma {:induction false} TailRoundTrip(options: seq<Option>, payload: seq<Byte>, previous: Half, count: nat,
      beyond: seq<Byte>, s: seq<Byte>)
    requires |beyond| >= 4 && count + |options| <= MAX_OPTION_COUNT
    requires forall i :: 0 <= i < |options| ==> |options[i].value| < 0x1_0000
    requires s == EncodeOptions(previous, options) + EncodePayload(payload)
    ensures DecodeTail(s, beyond, previous, count) == Ok(Tail(options, payload))
    decreases |options|, 1
  {
    if options == [] {
      assert s == EncodePayload(payload);
      PayloadReadBack(payload, previous, count, beyond);
    } else {
      TailMore(options, payload, previous, count, beyond, s);
    }
  }

  lemma {:induction false} TailMore(options: seq<Option>, payload: seq<Byte>, previous: Half, count: nat,
      beyond: seq<Byte>, s: seq<Byte>)
    requires |beyond| >= 4 && count + |options| <= MAX_OPTION_COUNT && options != []
    requires forall i :: 0 <= i < |options| ==> |options[i].value| < 0x1_0000
    requires s == EncodeOptions(previous, options) + EncodePayload(payload)
    ensures DecodeTail(s, beyond, previous, count) == Ok(Tail(options, payload))
    decreases |options|, 0
  {
    var o, rest := FirstEncoded(options, payload, previous, s);
    TailRoundTrip(options[1..], payload, o.number, count + 1, beyond, rest);
    OptionReadBack(previous, o, rest, count, beyond);
    PrependFirst(options, payload);
  }

  lemma PrependFirst(options: seq<Option>, payload: seq<Byte>)
    requires options != []
    ensures Prepend(options[0], Ok(Tail(options[1..], payload))) == Ok(Tail(options, payload))
  {
    assert [options[0]] + options[1..] == options;
  }

  lemma FirstEncoded(options: seq<Option>, payload: seq<Byte>, previous: Half, s: seq<Byte>)
    returns (o: Option, rest: seq<Byte>)
    requires options != [] && forall i :: 0 <= i < |options| ==> |options[i].value| < 0x1_0000
    requires s == EncodeOptions(previous, options) + EncodePayload(payload)
    ensures o == options[0] && rest == EncodeOptions(o.number, options[1..]) + EncodePayload(payload)
    ensures s == EncodeOption(previous, o) + rest
  {
    o := options[0];
    rest := EncodeOptions(o.number, options[1..]) + EncodePayload(payload);
    EncodeCons(options, payload, previous);
  }

  lemma EncodeCons(options: seq<Option>, payload: seq<Byte>, previous: Half)
    requires options != [] && forall i :: 0 <= i < |options| ==> |options[i].value| < 0x1_0000
    ensures EncodeOptions(previous, options) + EncodePayload(payload)
      == EncodeOption(previous, options[0]) + (EncodeOptions(options[0].number, options[1..]) + EncodePayload(payload))
    ensures [options[0]] + options[1..] == options
  {
  }

  lemma FirstByte(kind: nat, tokenLength: nat)
    requires kind < 4 && tokenLength < 16
    ensures var x := VERSION * 64 + kind * 16 + tokenLength;
            x / 64 == VERSION && x / 16 % 4 == kind && x % 16 == tokenLength
  {
    assert (64 + kind * 16 + tokenLength) / 16 == 4 + kind;
  }

  lemma HeaderReadBack(p: Pdu, tail: seq<Byte>, beyond: seq<Byte>)
    requires Valid(p) && |beyond| >= 4
    requires DecodeTail(tail, beyond, 0, 0) == Ok(Tail(p.options, p.payload))
    ensures Decode(EncodeHeader(p) + p.token + tail, beyond) == Ok(p)
  {
    var b := EncodeHeader(p) + p.token + tail;
    assert b[0] == VERSION * 64 + p.kind * 16 + |p.token|;
    DecodeSplit(b, p.kind, |p.token|, beyond);
    FieldsReadBack(p, tail, beyond);
  }

  lemma DecodeSplit(b: seq<Byte>, kind: Byte, tokenLength: Byte, beyond: seq<Byte>)
    requires |b| >= 4 && |beyond| >= 4 && kind < 4 && tokenLength < 16 && b[0] == VERSION * 64 + kind * 16 + tokenLength
    ensures Decode(b, beyond) == DecodeFields(VERSION, kind, tokenLength, b, beyond)
  {
    FirstByte(kind, tokenLength);
  }

  lemma FieldsReadBack(p: Pdu, tail: seq<Byte>, beyond: seq<Byte>)
    requires Valid(p) && |beyond| >= 4
    requires DecodeTail(tail, beyond, 0, 0) == Ok(Tail(p.options, p.payload))
    ensures DecodeFields(VERSION, p.kind, |p.token|, EncodeHeader(p) + p.token + tail, beyond) == Ok(p)
  {
    var b, n := EncodeHeader(p) + p.token + tail, |p.token|;
    assert b[4..4 + n] == p.token && b[4 + n..] == tail;
  }

  /** Decoding the encoding of any valid message gives that message back, whatever memory lies behind it. */
  lemma RoundTrip(p: Pdu, beyond: seq<Byte>)
    requires Valid(p) && |beyond| >= 4
    ensures Decode(Wire(p), beyond) == Ok(p)
  {
    var tail := EncodeOptions(0, p.options) + EncodePayload(p.payload);
    TailRoundTrip(p.options, p.payload, 0, 0, beyond, tail);
    HeaderReadBack(p, tail, beyond);
  }

  // ---- The payload buffer ----

  lemma {:induction false} TailPayload(s: seq<Byte>, beyond: seq<Byte>, number: Half, count: nat)
    requires |beyond| >= 4 && DecodeTail(s, beyond, number, count).Ok?
    ensures var payload := DecodeTail(s, beyond, number, count).value.payload; payload == [] || |payload| < |s|
    decreases |s|
  {
    if s != [] && s[0] != PAYLOAD_MARKER {
      var h := OptionHead(s + beyond);
      TailPayload(s[h.size + h.length..], beyond, Add(number, h.delta), count + 1);
    }
  }

  /** A payload is at least five bytes shorter than its datagram. */
  lemma PayloadFits(b: seq<Byte>, beyond: seq<Byte>)
    requires |beyond| >= 4 && Decode(b, beyond).Ok?
    ensures Decode(b, beyond).value.payload == [] || |Decode(b, beyond).value.payload| + 5 <= |b|
  {
    TailPayload(b[4 + b[0] % 16..], beyond, 0, 0);
  }

  /** Beyond that it need not: the decoder accepts, without a check, a datagram with any larger payload. */
  lemma PayloadOverflows(payload: seq<Byte>, beyond: seq<Byte>)
    requires |payload| > MAX_PDU_SIZE && |beyond| >= 4
    ensures var p := Pdu(VERSION, 0, 0, 0, [], [], payload);
            Decode(Wire(p), beyond) == Ok(p) && |Wire(p)| == |payload| + 5
  {
    RoundTrip(Pdu(VERSION, 0, 0, 0, [], [], payload), beyond);
  }

  /** Every message in a datagram of n bytes fits the decoder's payload buffer if and only if n is at most 1157. */
  lemma PayloadFitsIff(n: nat, beyond: seq<Byte>)
    requires |beyond| >= 4
    ensures n <= MAX_PDU_SIZE + 5 <==>
      forall b :: |b| == n && Decode(b, beyond).Ok? ==> |Decode(b, beyond).value.payload| <= MAX_PDU_SIZE
  {
    if n <= MAX_PDU_SIZE + 5 {
      forall b | |b| == n && Decode(b, beyond).Ok? ensures |Decode(b, beyond).value.payload| <= MAX_PDU_SIZE {
        PayloadFits(b, beyond);
      }
    } else {
      PayloadOverflows(seq(n - 5, _ => 0), beyond);
    }
  }

  // ---- Encoding inverts decoding, exactly on canonical messages ----

  predicate Overflows(m: seq<Byte>, at: nat, nibble: Byte)
    requires at + 2 <= |m|
  {
    var b0: int, b1: int := m[at], m[at + 1];
    nibble == 14 && 0x100 * b0 + b1 + 269 >= 0x1_0000
  }

  /** No reserved nibble 15 and no extension beyond 16 bits. */
  predicate HeadCanonical(m: seq<Byte>)
    requires |m| >= 5
  {
    var d, l := m[0] / 16, m[0] % 16;
    d != 15 && l != 15 && !Overflows(m, 1, d) && !Overflows(m, 1 + ExtensionSize(d), l)
  }

  /** Every option head is canonical, and a payload marker is followed by a payload. */
  predicate CanonicalTail(s: seq<Byte>, beyond: seq<Byte>)
    requires |beyond| >= 4
    decreases |s|
  {
    if s == [] then true
    else if s[0] == PAYLOAD_MARKER then |s| > 1
    else
      var h := OptionHead(s + beyond);
      HeadCanonical(s + beyond) && (h.size + h.length <= |s| ==> CanonicalTail(s[h.size + h.length..], beyond))
  }

  /** The nibble of a decoded value is the one it was read from exactly when that one was canonical. */
  lemma NibbleOfExtended(m: seq<Byte>, at: nat, nibble: Byte)
    requires at + 2 <= |m| && nibble < 16
    ensures Nibble(Extended(m, at, nibble)) == nibble <==> nibble != 15 && !Overflows(m, at, nibble)
    ensures nibble != 15 && !Overflows(m, at, nibble) ==>
      Extension(Extended(m, at, nibble)) == m[at..at + ExtensionSize(nibble)]
  {
  }

  lemma DeltaOfAdd(number: Half, delta: Half)
    ensures Delta(Add(number, delta), number) == delta
  {
  }

  /** Re-encoding a decoded option gives the bytes it came from, or else differs in the first byte. */
  lemma OptionReencoded(number: Half, s: seq<Byte>, beyond: seq<Byte>)
    requires s != [] && |beyond| >= 4
    requires var h := OptionHead(s + beyond); h.size + h.length <= |s|
    ensures var h := OptionHead(s + beyond);
            var end := h.size + h.length;
            var e := EncodeOption(number, Option(Add(number, h.delta), s[h.size..end]));
            if HeadCanonical(s + beyond) then e == s[..end] else e[0] != s[0]
  {
    var m := s + beyond;
    var h := OptionHead(m);
    var d, l := m[0] / 16, m[0] % 16;
    var at := 1 + ExtensionSize(d);
    DeltaOfAdd(number, h.delta);
    NibbleOfExtended(m, 1, d);
    NibbleOfExtended(m, at, l);
    assert m[0] == d * 16 + l;
    if HeadCanonical(m) {
      assert m[..h.size] == [m[0]] + m[1..at] + m[at..h.size];
      assert s[..h.size + h.length] == m[..h.size] + s[h.size..h.size + h.length];
    }
  }

  /** What the decoder accepts re-encodes to the same bytes if and only if they are canonical. */
  lemma {:induction false} TailReencoded(s: seq<Byte>, beyond: seq<Byte>, number: Half, count: nat)
    requires |beyond| >= 4 && DecodeTail(s, beyond, number, count).Ok?
    ensures var t := DecodeTail(s, beyond, number, count).value;
            && (forall i :: 0 <= i < |t.options| ==> |t.options[i].value| < 0x1_0000)
            && (count <= MAX_OPTION_COUNT ==> count + |t.options| <= MAX_OPTION_COUNT)
            && (EncodeOptions(number, t.options) + EncodePayload(t.payload) == s <==> CanonicalTail(s, beyond))
    decreases |s|
  {
    if s == [] {
    } else if s[0] == PAYLOAD_MARKER {
      assert EncodeOptions(number, []) + EncodePayload(s[1..]) == EncodePayload(s[1..]);
    } else {
      var h := OptionHead(s + beyond);
      var end := h.size + h.length;
      var o := Option(Add(number, h.delta), s[h.size..end]);
      TailReencoded(s[end..], beyond, o.number, count + 1);
      OptionReencoded(number, s, beyond);
      TailSplit(s, end, o, number, DecodeTail(s[end..], beyond, o.number, count + 1).value);
    }
  }

  lemma TailSplit(s: seq<Byte>, end: nat, o: Option, number: Half, t: Tail)
    requires 0 < end <= |s| && |o.value| < 0x1_0000 && |EncodeOption(number, o)| >= 1
    requires forall i :: 0 <= i < |t.options| ==> |t.options[i].value| < 0x1_0000
    requires EncodeOption(number, o) == s[..end] || EncodeOption(number, o)[0] != s[0]
    ensures EncodeOptions(number, [o] + t.options) + EncodePayload(t.payload) == s <==>
      && EncodeOption(number, o) == s[..end]
      && EncodeOptions(o.number, t.options) + EncodePayload(t.payload) == s[end..]
  {
    var e, rest := EncodeOption(number, o), EncodeOptions(o.number, t.options) + EncodePayload(t.payload);
    EncodeCons([o] + t.options, t.payload, number);
    assert ([o] + t.options)[1..] == t.options;
    assert s == s[..end] + s[end..];
    if e == s[..end] && e + rest == s { assert rest == s[end..]; }
    if e[0] != s[0] { assert (e + rest)[0] != s[0]; }
  }

  /** An accepted message is valid, and re-encodes to the bytes it came from if and only if these are canonical. */
  lemma Reencoded(b: seq<Byte>, beyond: seq<Byte>)
    requires |beyond| >= 4 && Decode(b, beyond).Ok?
    ensures Valid(Decode(b, beyond).value)
    ensures Wire(Decode(b, beyond).value) == b <==> CanonicalTail(b[4 + b[0] % 16..], beyond)
  {
    var n := b[0] % 16;
    var tail := b[4 + n..];
    var t := DecodeTail(tail, beyond, 0, 0).value;
    var p := Decode(b, beyond).value;
    TailReencoded(tail, beyond, 0, 0);
    HeaderReencoded(b, p, n);
    AppendCancels(b[..4 + n], EncodeOptions(0, t.options) + EncodePayload(t.payload), tail);
    assert b == b[..4 + n] + tail;
  }

  lemma AppendCancels(a: seq<Byte>, x: seq<Byte>, y: seq<Byte>)
    ensures a + x == a + y <==> x == y
  {
    assert (a + x)[|a|..] == x && (a + y)[|a|..] == y;
  }

  lemma HeaderReencoded(b: seq<Byte>, p: Pdu, n: nat)
    requires |b| >= 4 + n && Valid(p) && n == b[0] % 16 && p.token == b[4..4 + n] && p.code == b[1]
    requires p.kind == b[0] / 16 % 4 && p.version == b[0] / 64 && p.id == MessageId(b[2], b[3])
    ensures EncodeHeader(p) + p.token == b[..4 + n]
  {
    var x: int := b[0];
    assert x == x / 64 * 64 + x / 16 % 4 * 16 + x % 16;
  }

  /** The memory that an over-long option head makes the decoder read never influences the result. */
  lemma {:induction false} BeyondIrrelevant(s: seq<Byte>, x: seq<Byte>, y: seq<Byte>, number: Half, count: nat)
    requires |x| >= 4 && |y| >= 4
    ensures DecodeTail(s, x, number, count) == DecodeTail(s, y, number, count)
    decreases |s|
  {
    if s != [] && s[0] != PAYLOAD_MARKER && count < MAX_OPTION_COUNT {
      var rest, number' := BeyondStep(s, x, y, number, count);
      BeyondIrrelevant(rest, x, y, number', count + 1);
    }
  }

  lemma BeyondStep(s: seq<Byte>, x: seq<Byte>, y: seq<Byte>, number: Half, count: nat)
    returns (rest: seq<Byte>, number': Half)
    requires |x| >= 4 && |y| >= 4 && s != [] && s[0] != PAYLOAD_MARKER && count < MAX_OPTION_COUNT
    ensures |rest| < |s|
    ensures DecodeTail(rest, x, number', count + 1) == DecodeTail(rest, y, number', count + 1) ==>
      DecodeTail(s, x, number, count) == DecodeTail(s, y, number, count)
  {
    var h, o, sx, r := TailStep(s, x, number, count);
    var h', o', sy, r' := TailStep(s, y, number, count);
    HeadWithin(s, x, y);
    rest, number' := [], 0;
    if h.size + h.length <= |s| { rest, number' := sx, o.number; }
  }

  lemma HeadWithin(s: seq<Byte>, x: seq<Byte>, y: seq<Byte>)
    requires s != [] && |x| >= 4 && |y| >= 4
    ensures OptionHead(s + x).size == OptionHead(s + y).size
    ensures OptionHead(s + x).size <= |s| ==> OptionHead(s + x) == OptionHead(s + y)
  {
    var m, m' := s + x, s + y;
    assert m[0] == m'[0];
    var d, l := m[0] / 16, m[0] % 16;
    var at := 1 + ExtensionSize(d);
    ExtendedWithin(m, m', 1, d, |s|);
    ExtendedWithin(m, m', at, l, |s|);
  }

  lemma ExtendedWithin(m: seq<Byte>, m': seq<Byte>, at: nat, nibble: Byte, n: nat)
    requires at + 2 <= |m| && at + 2 <= |m'| && n <= |m| && n <= |m'| && m[..n] == m'[..n]
    ensures at + ExtensionSize(nibble) <= n ==> Extended(m, at, nibble) == Extended(m', at, nibble)
  {
    if at < n { assert m[at] == m[..n][at] == m'[at]; }
    if at + 1 < n { assert m[at + 1] == m[..n][at + 1] == m'[at + 1]; }
  }

  // ---- The imperative codec ----

  /** memcpy to the write pointer, if the remaining space allows. */
  method Emit(buf: array<Byte>, ptr: nat, data: seq<Byte>) returns (ok: bool, next: nat)
    requires ptr <= buf.Length
    modifies buf
    ensures ok <==> ptr + |data| <= buf.Length
    ensures ok ==> next == ptr + |data| && buf[..next] == old(buf[..ptr]) + data
    ensures !ok ==> next == ptr
  {
    if |data| > buf.Length - ptr { return false, ptr; }
    for k := 0 to |data|
      invariant forall i :: 0 <= i < buf.Length ==> buf[i] == if ptr <= i < ptr + k then data[i - ptr] else old(buf[i])
    {
      buf[ptr + k] := data[k];
    }
    return true, ptr + |data|;
  }

  method EmitOption(buf: array<Byte>, ptr: nat, previous: Half, o: Option) returns (ok: bool, next: nat)
    requires ptr <= buf.Length && |o.value| < 0x1_0000
    modifies buf
    ensures ok <==> ptr + |EncodeOption(previous, o)| <= buf.Length
    ensures ok ==>
      next == ptr + |EncodeOption(previous, o)| && buf[..next] == old(buf[..ptr]) + EncodeOption(previous, o)
  {
    ghost var prefix := buf[..ptr];
    var delta := Delta(o.number, previous);
    ghost var s1, s2, s3 := [Nibble(delta) * 16 + Nibble(|o.value|)], Extension(delta), Extension(|o.value|);
    assert prefix + s1 + s2 + s3 + o.value == prefix + (s1 + s2 + s3 + o.value);
    ok, next := Emit(buf, ptr, [Nibble(delta) * 16 + Nibble(|o.value|)]);
    if !ok { return; }
    ok, next := Emit(buf, next, Extension(delta));
    if !ok { return; }
    ok, next := Emit(buf, next, Extension(|o.value|));
    if !ok { return; }
    ok, next := Emit(buf, next, o.value);
  }

  lemma {:induction false} EncodeSnoc(previous: Half, options: seq<Option>, k: nat)
    requires k < |options| && forall i :: 0 <= i < |options| ==> |options[i].value| < 0x1_0000
    ensures EncodeOptions(previous, options[..k + 1]) ==
      EncodeOptions(previous, options[..k])
        + EncodeOption(if k == 0 then previous else options[k - 1].number, options[k])
    decreases k
  {
    if k == 0 {
      assert options[..1] == [options[0]] + [];
      EncodeFirst(previous, options[0], []);
    } else {
      EncodeSnoc(options[0].number, options[1..], k - 1);
      EncodeSnocStep(previous, options, k);
    }
  }

  lemma EncodeSnocStep(previous: Half, options: seq<Option>, k: nat)
    requires 0 < k < |options| && forall i :: 0 <= i < |options| ==> |options[i].value| < 0x1_0000
    requires var o, rest := options[0], options[1..];
             EncodeOptions(o.number, rest[..k]) ==
               EncodeOptions(o.number, rest[..k - 1])
                 + EncodeOption(if k == 1 then o.number else rest[k - 2].number, rest[k - 1])
    ensures EncodeOptions(previous, options[..k + 1]) ==
      EncodeOptions(previous, options[..k]) + EncodeOption(options[k - 1].number, options[k])
  {
    var o, rest := options[0], options[1..];
    assert options[..k] == [o] + rest[..k - 1] && options[..k + 1] == [o] + rest[..k];
    EncodeFirst(previous, o, rest[..k - 1]);
    EncodeFirst(previous, o, rest[..k]);
    Regroup(EncodeOption(previous, o), EncodeOptions(o.number, rest[..k - 1]),
      EncodeOption(options[k - 1].number, options[k]));
  }

  lemma EncodeFirst(previous: Half, o: Option, rest: seq<Option>)
    requires |o.value| < 0x1_0000 && forall i :: 0 <= i < |rest| ==> |rest[i].value| < 0x1_0000
    ensures EncodeOptions(previous, [o] + rest) == EncodeOption(previous, o) + EncodeOptions(o.number, rest)
  {
    assert ([o] + rest)[1..] == rest;
  }

  /** The encoding of one more option, and that it is part of the whole. */
  lemma EncodeNext(options: seq<Option>, k: nat) returns (done: seq<Byte>, e: seq<Byte>)
    requires k < |options| && forall i :: 0 <= i < |options| ==> |options[i].value| < 0x1_0000
    ensures e == EncodeOption(if k == 0 then 0 else options[k - 1].number, options[k])
    ensures done == EncodeOptions(0, options[..k + 1]) == EncodeOptions(0, options[..k]) + e
    ensures |done| <= |EncodeOptions(0, options)|
  {
    EncodeSnoc(0, options, k);
    EncodeGrows(options, k + 1);
    done, e := EncodeOptions(0, options[..k + 1]),
      EncodeOption(if k == 0 then 0 else options[k - 1].number, options[k]);
  }

  method EmitOptions(buf: array<Byte>, ptr: nat, options: seq<Option>) returns (ok: bool, next: nat)
    requires ptr <= buf.Length && forall i :: 0 <= i < |options| ==> |options[i].value| < 0x1_0000
    modifies buf
    ensures ok <==> ptr + |EncodeOptions(0, options)| <= buf.Length
    ensures ok ==>
      next == ptr + |EncodeOptions(0, options)| && buf[..next] == old(buf[..ptr]) + EncodeOptions(0, options)
  {
    ghost var prefix, done := buf[..ptr], EncodeOptions(0, options[..0]);
    var previous := 0;
    ok, next := true, ptr;
    for k := 0 to |options|
      invariant ok && next == ptr + |done| <= buf.Length && buf[..next] == prefix + done
      invariant done == EncodeOptions(0, options[..k]) && previous == if k == 0 then 0 else options[k - 1].number
    {
      ghost var done', e := EncodeNext(options, k);
      Regroup(prefix, done, e);
      ok, next := EmitOption(buf, next, previous, options[k]);
      if !ok { return; }
      previous, done := options[k].number, done';
    }
    assert options[..|options|] == options;
  }

  lemma {:induction false} EncodeGrows(options: seq<Option>, k: nat)
    requires k <= |options| && forall i :: 0 <= i < |options| ==> |options[i].value| < 0x1_0000
    ensures |EncodeOptions(0, options[..k])| <= |EncodeOptions(0, options)|
    decreases |options| - k
  {
    if k == |options| {
      assert options[..k] == options;
    } else {
      EncodeSnoc(0, options, k);
      EncodeGrows(options, k + 1);
    }
  }

  /** The encoder fails exactly when the message does not fit; otherwise it writes the message. */
  method PduEncode(p: Pdu, buf: array<Byte>) returns (r: int)
    requires Valid(p)
    modifies buf
    ensures r == if |Wire(p)| <= buf.Length then |Wire(p)| else -1
    ensures r >= 0 ==> buf[..r] == Wire(p)
  {
    ghost var s1, s2 := EncodeHeader(p) + p.token, EncodeOptions(0, p.options);
    assert Wire(p) == s1 + s2 + EncodePayload(p.payload);
    if buf.Length < 4 { return -1; }
    var ok, ptr := EmitHeader(buf, p);
    if !ok { return -1; }
    ok, ptr := EmitOptions(buf, ptr, p.options);
    if !ok { return -1; }
    ok, ptr := Emit(buf, ptr, EncodePayload(p.payload));
    if !ok { return -1; }
    r := ptr;
  }

  method EmitHeader(buf: array<Byte>, p: Pdu) returns (ok: bool, next: nat)
    requires Valid(p) && buf.Length >= 4
    modifies buf
    ensures ok <==> 4 + |p.token| <= buf.Length
    ensures ok ==> next == 4 + |p.token| && buf[..next] == EncodeHeader(p) + p.token
  {
    ok, next := Emit(buf, 0, EncodeHeader(p));
    ok, next := Emit(buf, next, p.token);
  }

  function Extend(options: seq<Option>, r: Result<Tail>): Result<Tail> {
    match r
    case Ok(t) => Ok(Tail(options + t.options, t.payload))
    case InvalidMessage => InvalidMessage
    case InvalidParam => InvalidParam
  }

  lemma ExtendNone(r: Result<Tail>)
    ensures Extend([], r) == r
  {
    if r.Ok? { assert [] + r.value.options == r.value.options; }
  }

  lemma ExtendPrepend(options: seq<Option>, o: Option, r: Result<Tail>)
    ensures Extend(options, Prepend(o, r)) == Extend(options + [o], r)
  {
    if r.Ok? { assert options + ([o] + r.value.options) == options + [o] + r.value.options; }
  }

  /** One option at the start of s, and what decoding the rest gives. */
  lemma TailStep(s: seq<Byte>, beyond: seq<Byte>, number: Half, count: nat)
    returns (h: Head, o: Option, s': seq<Byte>, rest: Result<Tail>)
    requires |beyond| >= 4 && s != [] && s[0] != PAYLOAD_MARKER && count < MAX_OPTION_COUNT
    ensures h == OptionHead(s + beyond)
    ensures h.size + h.length > |s| ==> DecodeTail(s, beyond, number, count) == InvalidMessage
    ensures h.size + h.length <= |s| ==>
      && o == Option(Add(number, h.delta), s[h.size..h.size + h.length]) && s' == s[h.size + h.length..]
      && rest == DecodeTail(s', beyond, o.number, count + 1) && DecodeTail(s, beyond, number, count) == Prepend(o, rest)
  {
    h := OptionHead(s + beyond);
    o, s', rest := Option(0, []), [], InvalidMessage;
    if h.size + h.length <= |s| {
      o, s' := Option(Add(number, h.delta), s[h.size..h.size + h.length]), s[h.size + h.length..];
      rest := DecodeTail(s', beyond, o.number, count + 1);
    }
  }

  /** The decoder's loop over the bytes that remain, with the options so far. */
  function DecodeLoop(s: seq<Byte>, beyond: seq<Byte>, number: Half, options: seq<Option>): Result<Tail>
    requires |beyond| >= 4
    decreases |s|
  {
    if s == [] then Ok(Tail(options, []))
    else if s[0] == PAYLOAD_MARKER then Ok(Tail(options, s[1..]))
    else if |options| >= MAX_OPTION_COUNT then InvalidMessage
    else
      var h := OptionHead(s + beyond);
      var end := h.size + h.length;
      if end > |s| then InvalidMessage
      else DecodeLoop(s[end..], beyond, Add(number, h.delta), options + [Option(Add(number, h.delta), s[h.size..end])])
  }

  /** One option in the loop, and what is left to do after it. */
  lemma LoopStep(s: seq<Byte>, beyond: seq<Byte>, number: Half, options: seq<Option>)
    returns (h: Head, o: Option, s': seq<Byte>, options': seq<Option>)
    requires |beyond| >= 4 && s != [] && s[0] != PAYLOAD_MARKER && |options| < MAX_OPTION_COUNT
    ensures h == OptionHead(s + beyond)
    ensures h.size + h.length > |s| ==> DecodeLoop(s, beyond, number, options) == InvalidMessage
    ensures h.size + h.length <= |s| ==>
      && o == Option(Add(number, h.delta), s[h.size..h.size + h.length]) && s' == s[h.size + h.length..]
      && options' == options + [o]
      && DecodeLoop(s, beyond, number, options) == DecodeLoop(s', beyond, o.number, options')
  {
    h := OptionHead(s + beyond);
    o, s', options' := Option(0, []), [], [];
    if h.size + h.length <= |s| {
      o, s' := Option(Add(number, h.delta), s[h.size..h.size + h.length]), s[h.size + h.length..];
      options' := options + [o];
    }
  }

  /** The loop computes what the recursive definition says. */
  lemma {:induction false} LoopIsTail(s: seq<Byte>, beyond: seq<Byte>, number: Half, options: seq<Option>)
    requires |beyond| >= 4
    ensures DecodeLoop(s, beyond, number, options) == Extend(options, DecodeTail(s, beyond, number, |options|))
    decreases |s|, 1
  {
    if s == [] || s[0] == PAYLOAD_MARKER || |options| >= MAX_OPTION_COUNT {
      assert options + [] == options;
    } else {
      LoopGoesOn(s, beyond, number, options);
    }
  }

  lemma {:induction false} LoopGoesOn(s: seq<Byte>, beyond: seq<Byte>, number: Half, options: seq<Option>)
    requires |beyond| >= 4 && s != [] && s[0] != PAYLOAD_MARKER && |options| < MAX_OPTION_COUNT
    ensures DecodeLoop(s, beyond, number, options) == Extend(options, DecodeTail(s, beyond, number, |options|))
    decreases |s|, 0
  {
    var h, o, s', rest := TailStep(s, beyond, number, |options|);
    var h', o', t, options' := LoopStep(s, beyond, number, options);
    if h.size + h.length <= |s| {
      assert |options'| == |options| + 1;
      LoopIsTail(s', beyond, o.number, options');
      ExtendPrepend(options, o, rest);
    } else {
      assert Extend(options, InvalidMessage) == InvalidMessage;
    }
  }

  /** The option loop: fills the option array until the payload marker or the end of the buffer. */
  method TailDecode(b: seq<Byte>, beyond: seq<Byte>) returns (r: Result<Tail>)
    requires |beyond| >= 4
    ensures r == DecodeTail(b, beyond, 0, 0)
  {
    LoopIsTail(b, beyond, 0, []);
    ExtendNone(DecodeTail(b, beyond, 0, 0));
    r := OptionLoop(b, beyond);
  }

  method OptionLoop(b: seq<Byte>, beyond: seq<Byte>) returns (r: Result<Tail>)
    requires |beyond| >= 4
    ensures r == DecodeLoop(b, beyond, 0, [])
  {
    var rest, number: Half, options: seq<Option> := b, 0, [];
    ghost var whole := DecodeLoop(rest, beyond, number, options);
    while rest != []
      invariant whole == DecodeLoop(rest, beyond, number, options)
      decreases |rest|
    {
      if rest[0] == PAYLOAD_MARKER { return Ok(Tail(options, rest[1..])); }
      if |options| >= MAX_OPTION_COUNT { return InvalidMessage; }
      ghost var h, o, s', options' := LoopStep(rest, beyond, number, options);
      var head := OptionHead(rest + beyond);
      var end := head.size + head.length;
      if end > |rest| { return InvalidMessage; }
      number := Add(number, head.delta);
      options := options + [Option(number, rest[head.size..end])];
      rest := rest[end..];
      assert rest == s' && options == options';
    }
    r := Ok(Tail(options, []));
  }

  method PduDecode(b: seq<Byte>, beyond: seq<Byte>) returns (r: Result<Pdu>)
    requires |beyond| >= 4
    ensures r == Decode(b, beyond)
  {
    if |b| < 4 { return InvalidParam; }
    var version, kind, tokenLength := b[0] / 64, b[0] / 16 % 4, b[0] % 16;
    if version != VERSION { return InvalidMessage; }
    if tokenLength > MAX_TOKEN_LEN || 4 + tokenLength > |b| { return InvalidMessage; }
    var t := TailDecode(b[4 + tokenLength..], beyond);
    match t
    case Ok(tail) =>
      r := Ok(Pdu(version, kind, b[1], MessageId(b[2], b[3]), b[4..4 + tokenLength], tail.options, tail.payload));
    case InvalidMessage => r := InvalidMessage;
    case InvalidParam => r := InvalidParam;
  }
}
