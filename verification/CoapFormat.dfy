/**
 * The message format of sections 3 and 3.1 of RFC 7252, stated byte by byte and by value, and that both the encoder
 * and the decoder keep to it.
 */
module CoapFormat {
  import opened Bytes
  import opened Coap

  /** How many extension bytes a nibble announces. */
  function Extra(nibble: int): nat { if nibble == 13 then 1 else if nibble == 14 then 2 else 0 }

  /** The nibble and its extension, high byte first, stand for v. */
  predicate Denotes(nibble: int, x: seq<Byte>, v: int) {
    if nibble == 13 then |x| == 1 && v == x[0] as int + 13
    else if nibble == 14 then |x| == 2 && v == 256 * x[0] as int + x[1] as int + 269
    else 0 <= nibble <= 12 && |x| == 0 && v == nibble
  }

  /** The same as the decoder takes it: sums in 16 bits, and the reserved nibble 15 for zero. */
  predicate ReadAs(nibble: int, x: seq<Byte>, v: int) {
    if nibble == 14 then |x| == 2 && v == (256 * x[0] as int + x[1] as int + 269) % 0x1_0000
    else if nibble == 15 then |x| == 0 && v == 0
    else Denotes(nibble, x, v)
  }

  /** The parts of an option: two nibbles, the extensions of the delta and of the length, the value. */
  ghost predicate Parts(s: seq<Byte>, d: int, l: int, x: seq<Byte>, y: seq<Byte>, value: seq<Byte>) {
    && s != [] && d == s[0] / 16 && l == s[0] % 16 && |x| == Extra(d) && |y| == Extra(l)
    && s[1..] == x + y + value
  }

  /** Bytes s are option o behind an option of number `previous`. */
  ghost predicate IsOption(s: seq<Byte>, previous: Half, o: Option, strict: bool) {
    exists x, y :: OptionWith(s, previous, o, strict, x, y)
  }

  ghost predicate OptionWith(s: seq<Byte>, previous: Half, o: Option, strict: bool, x: seq<Byte>, y: seq<Byte>) {
    && s != [] && Parts(s, s[0] / 16, s[0] % 16, x, y, o.value)
    && var delta := (o.number as int - previous as int) % 0x1_0000;
    if strict then Denotes(s[0] / 16, x, delta) && Denotes(s[0] % 16, y, |o.value|)
    else ReadAs(s[0] / 16, x, delta) && ReadAs(s[0] % 16, y, |o.value|)
  }

  /** Bytes s are these options, one behind the other, and then the payload behind its marker. */
  ghost predicate IsBody(s: seq<Byte>, previous: Half, options: seq<Option>, payload: seq<Byte>, strict: bool)
    decreases |options|
  {
    if options == [] then (s == [] && payload == []) || (s == [0xFF] + payload && (strict ==> payload != []))
    else exists n :: BodyFrom(s, n, previous, options, payload, strict)
  }

  ghost predicate BodyFrom(s: seq<Byte>, n: nat, previous: Half, options: seq<Option>, payload: seq<Byte>, strict: bool)
    requires options != []
    decreases |options|, 0
  {
    && 0 < n <= |s| && s[0] != 0xFF && IsOption(s[..n], previous, options[0], strict)
    && IsBody(s[n..], options[0].number, options[1..], payload, strict)
  }

  /** The fixed header and the token. */
  predicate IsHeader(b: seq<Byte>, p: Pdu) {
    && |b| >= 4 + |p.token|
    && b[0] / 64 == p.version && b[0] / 16 % 4 == p.kind && b[0] % 16 == |p.token| && b[1] == p.code
    && 256 * b[2] as int + b[3] as int == p.id && b[4..4 + |p.token|] == p.token
  }

  ghost predicate IsMessage(b: seq<Byte>, p: Pdu, strict: bool) {
    IsHeader(b, p) && IsBody(b[4 + |p.token|..], 0, p.options, p.payload, strict)
  }

  // ---- The encoder ----

  lemma ValueDenoted(v: Half)
    ensures Denotes(Nibble(v), Extension(v), v) && |Extension(v)| == Extra(Nibble(v)) && Nibble(v) <= 14
  {
  }

  lemma DeltaIs(number: Half, previous: Half)
    ensures Delta(number, previous) == (number as int - previous as int) % 0x1_0000
  {
  }

  lemma OptionFormat(previous: Half, o: Option)
    requires |o.value| < 0x1_0000
    ensures IsOption(EncodeOption(previous, o), previous, o, true) && EncodeOption(previous, o)[0] != 0xFF
  {
    var d, l := Delta(o.number, previous), |o.value|;
    var x, y, s := Extension(d), Extension(l), EncodeOption(previous, o);
    ValueDenoted(d);
    ValueDenoted(l);
    DeltaIs(o.number, previous);
    assert s[0] / 16 == Nibble(d) && s[0] % 16 == Nibble(l);
    assert s[1..] == x + y + o.value;
    assert OptionWith(s, previous, o, true, x, y);
  }

  lemma BodySplit(previous: Half, options: seq<Option>, payload: seq<Byte>, s: seq<Byte>)
    returns (n: nat, rest: seq<Byte>)
    requires options != [] && forall i :: 0 <= i < |options| ==> |options[i].value| < 0x1_0000
    requires s == EncodeOptions(previous, options) + EncodePayload(payload)
    ensures 0 < n <= |s| && s[..n] == EncodeOption(previous, options[0]) && s[n..] == rest
    ensures rest == EncodeOptions(options[0].number, options[1..]) + EncodePayload(payload)
  {
    var e := EncodeOption(previous, options[0]);
    n, rest := |e|, EncodeOptions(options[0].number, options[1..]) + EncodePayload(payload);
    Regroup(e, EncodeOptions(options[0].number, options[1..]), EncodePayload(payload));
  }

  lemma {:induction false} BodyFormat(previous: Half, options: seq<Option>, payload: seq<Byte>, s: seq<Byte>)
    requires forall i :: 0 <= i < |options| ==> |options[i].value| < 0x1_0000
    requires s == EncodeOptions(previous, options) + EncodePayload(payload)
    ensures IsBody(s, previous, options, payload, true)
    decreases |options|
  {
    if options == [] {
      assert s == EncodePayload(payload);
    } else {
      var n, rest := BodySplit(previous, options, payload, s);
      OptionFormat(previous, options[0]);
      BodyFormat(options[0].number, options[1..], payload, rest);
      assert BodyFrom(s, n, previous, options, payload, true);
    }
  }

  /** The bytes of every valid message are laid out as the format demands. */
  lemma EncodedFormat(p: Pdu)
    requires Valid(p)
    ensures IsMessage(Wire(p), p, true)
  {
    var b, tail := Wire(p), EncodeOptions(0, p.options) + EncodePayload(p.payload);
    FirstByte(p.kind, |p.token|);
    BodyFormat(0, p.options, p.payload, tail);
    assert b[4..4 + |p.token|] == p.token && b[4 + |p.token|..] == tail;
  }

  // ---- The decoder ----

  lemma ValueRead(m: seq<Byte>, at: nat, nibble: Byte, x: seq<Byte>)
    requires at + 2 <= |m| && nibble < 16 && at + Extra(nibble) <= |m| && x == m[at..at + Extra(nibble)]
    ensures ReadAs(nibble, x, Extended(m, at, nibble)) && ExtensionSize(nibble) == Extra(nibble)
  {
  }

  lemma AddedDelta(number: Half, delta: Half)
    ensures (Add(number, delta) as int - number as int) % 0x1_0000 == delta
  {
  }

  lemma ThreeParts(s: seq<Byte>, a: nat, b: nat, n: nat)
    requires 1 <= a <= b <= n <= |s|
    ensures s[..n][1..] == s[1..a] + s[a..b] + s[b..n]
  {
  }

  lemma HeadRead(s: seq<Byte>, beyond: seq<Byte>, h: Head) returns (x: seq<Byte>, y: seq<Byte>)
    requires s != [] && |beyond| >= 4 && h == OptionHead(s + beyond) && h.size <= |s|
    ensures var d, l := s[0] / 16, s[0] % 16;
            && h.size == 1 + Extra(d) + Extra(l) && x == s[1..1 + Extra(d)] && y == s[1 + Extra(d)..h.size]
            && ReadAs(d, x, h.delta) && ReadAs(l, y, h.length)
  {
    var m := s + beyond;
    var d, l := m[0] / 16, m[0] % 16;
    x, y := m[1..1 + Extra(d)], m[1 + Extra(d)..1 + Extra(d) + Extra(l)];
    ValueRead(m, 1, d, x);
    ValueRead(m, 1 + Extra(d), l, y);
  }

  /** The option that the decoder takes off the front. */
  lemma OptionRead(s: seq<Byte>, beyond: seq<Byte>, number: Half, h: Head, o: Option)
    requires s != [] && |beyond| >= 4 && h == OptionHead(s + beyond) && h.size + h.length <= |s|
    requires o == Option(Add(number, h.delta), s[h.size..h.size + h.length])
    ensures IsOption(s[..h.size + h.length], number, o, false)
  {
    var n := h.size + h.length;
    var x, y := HeadRead(s, beyond, h);
    ThreeParts(s, 1 + |x|, h.size, n);
    AddedDelta(number, h.delta);
    assert OptionWith(s[..n], number, o, false, x, y);
  }

  lemma {:induction false} BodyRead(s: seq<Byte>, beyond: seq<Byte>, number: Half, count: nat, t: Tail)
    requires |beyond| >= 4 && DecodeTail(s, beyond, number, count) == Ok(t)
    ensures IsBody(s, number, t.options, t.payload, false)
    decreases |s|
  {
    if s == [] {
    } else if s[0] == PAYLOAD_MARKER {
      assert s == [0xFF] + s[1..];
    } else {
      var h, o, s', r := TailStep(s, beyond, number, count);
      var n := h.size + h.length;
      OptionRead(s, beyond, number, h, o);
      BodyRead(s', beyond, o.number, count + 1, r.value);
      assert t.options[0] == o && t.options[1..] == r.value.options;
      assert BodyFrom(s, n, number, t.options, t.payload, false);
    }
  }

  /** Every datagram that the decoder accepts is laid out as the message it returns, with the decoder's 16-bit sums. */
  lemma DecodedFormat(b: seq<Byte>, beyond: seq<Byte>, p: Pdu)
    requires |beyond| >= 4 && Decode(b, beyond) == Ok(p)
    ensures IsMessage(b, p, false)
  {
    var n := b[0] % 16;
    var r := DecodeTail(b[4 + n..], beyond, 0, 0);
    BodyRead(b[4 + n..], beyond, 0, 0, r.value);
  }
}
