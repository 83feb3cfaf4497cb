/** Netlink messages and their attributes as bytes: the headers in the byte order of a little-endian
    machine, as section 2.3.2 of RFC 3549 lays them out. */
module Netlink {
  import opened Wrappers
  import opened Powers

  type Byte = b: int | 0 <= b < 256

  type Bytes = seq<Byte>

  const HEADER := 16

  const ATTRIBUTE_HEADER := 4

  datatype Message = Message(kind: int, flags: int, sequence: int, pid: int, data: Bytes)

  datatype Attribute = Attribute(kind: int, payload: Bytes)

  /** How the reading of a stream ends. A length of zero makes it yield the same item for ever. */
  datatype Ending = Done | ShortHeader | Underrun | Endless

  datatype Decoded<T> = Decoded(items: seq<T>, ending: Ending)

  // ----- numbers -----

  predicate Fits16(n: int) {
    0 <= n < 0x1_0000
  }

  predicate Fits32(n: int) {
    0 <= n < 0x1_0000_0000
  }

  function Pack16(n: int): (b: Bytes)
    requires Fits16(n)
    ensures |b| == 2
  {
    [n % 256, n / 256]
  }

  function Pack32(n: int): (b: Bytes)
    requires Fits32(n)
    ensures |b| == 4
  {
    [n % 256, n / 256 % 256, n / 0x1_0000 % 256, n / 0x100_0000]
  }

  function Unpack16(b: Bytes): (n: nat)
    requires |b| == 2
    ensures Fits16(n)
  {
    b[0] + 256 * (b[1] as int)
  }

  function Unpack32(b: Bytes): (n: nat)
    requires |b| == 4
    ensures Fits32(n)
  {
    b[0] + 256 * (b[1] as int) + 0x1_0000 * (b[2] as int) + 0x100_0000 * (b[3] as int)
  }

  lemma Unpack32Pack(n: int)
    requires Fits32(n)
    ensures Unpack32(Pack32(n)) == n
  {
    var a, b, c := n / 256, n / 0x1_0000, n / 0x100_0000;
    assert n == 256 * a + n % 256 && a == 256 * b + a % 256 && b == 256 * c + b % 256;
  }

  lemma Pack32Unpack(b: Bytes)
    requires |b| == 4
    ensures Pack32(Unpack32(b)) == b
  {
    var n, b1: int, b2: int, b3: int := Unpack32(b), b[1], b[2], b[3];
    assert n / 256 == b1 + 256 * b2 + 0x1_0000 * b3;
    assert n / 0x1_0000 == b2 + 256 * b3;
    assert n / 0x100_0000 == b3;
    assert b == [b[0], b[1], b[2], b[3]];
  }

  // ----- messages -----

  function PackHeader(length: int, m: Message): (b: Bytes)
    requires Fits32(length) && Fits16(m.kind) && Fits16(m.flags) && Fits32(m.sequence) && Fits32(m.pid)
    ensures |b| == HEADER
  {
    Pack32(length) + Pack16(m.kind) + Pack16(m.flags) + Pack32(m.sequence) + Pack32(m.pid)
  }

  function LengthField(data: Bytes): nat
    requires |data| >= HEADER
  {
    Unpack32(data[..4])
  }

  /** The message at the front, as its header tells. */
  function Front(data: Bytes): Message
    requires |data| >= HEADER && LengthField(data) <= |data|
  {
    var length := LengthField(data);
    Message(Unpack16(data[4..6]), Unpack16(data[6..8]), Unpack32(data[8..12]), Unpack32(data[12..16]),
            if length < HEADER then [] else data[HEADER..length])
  }

  predicate Encodable(m: Message) {
    && Fits16(m.kind) && Fits16(m.flags) && Fits32(m.sequence) && Fits32(m.pid)
    && Fits32(HEADER + |m.data|)
  }

  function EncodeMessage(m: Message): (b: Bytes)
    requires Encodable(m)
    ensures |b| == HEADER + |m.data|
  {
    PackHeader(HEADER + |m.data|, m) + m.data
  }

  function DecodeMessages(data: Bytes): Decoded<Message>
    decreases |data|
  {
    if data == [] then Decoded([], Done)
    else if |data| < HEADER then Decoded([], ShortHeader)
    else if |data| < LengthField(data) then Decoded([], Underrun)
    else if LengthField(data) == 0 then Decoded([Front(data)], Endless)
    else
      var rest := DecodeMessages(data[LengthField(data)..]);
      Decoded([Front(data)] + rest.items, rest.ending)
  }

  /** The generator's loop. It would never end on a length of zero; the model stops there. */
  method Decode(input: Bytes) returns (r: Decoded<Message>)
    ensures r == DecodeMessages(input)
  {
    var data, items := input, [];
    while data != []
      invariant DecodeMessages(input) == Decoded(items + DecodeMessages(data).items, DecodeMessages(data).ending)
      decreases |data|
    {
      if |data| < HEADER {
        return Decoded(items, ShortHeader);
      }
      var length := LengthField(data);
      if |data| < length {
        return Decoded(items, Underrun);
      }
      items := items + [Front(data)];
      if length == 0 {
        return Decoded(items, Endless);
      }
      data := data[length..];
    }
    return Decoded(items, Done);
  }

  lemma FrontOfEncoded(m: Message, rest: Bytes)
    requires Encodable(m)
    ensures var data := EncodeMessage(m) + rest;
            LengthField(data) == HEADER + |m.data| && Front(data) == m && data[HEADER + |m.data|..] == rest
  {
    var length := HEADER + |m.data|;
    var data := EncodeMessage(m) + rest;
    assert data[..4] == Pack32(length) && data[4..6] == Pack16(m.kind) && data[6..8] == Pack16(m.flags);
    assert data[8..12] == Pack32(m.sequence) && data[12..16] == Pack32(m.pid);
    assert data[HEADER..length] == m.data;
    Unpack32Pack(length);
    Unpack32Pack(m.sequence);
    Unpack32Pack(m.pid);
  }

  /** The bytes of an encoded message: five numbers of four, two, two, four and four bytes, the lowest byte
      first, and the data. */
  lemma HeaderBytes(m: Message)
    requires Encodable(m)
    ensures var b: seq<int> := EncodeMessage(m);
            && b[0] + 256 * b[1] + 0x1_0000 * b[2] + 0x100_0000 * b[3] == 16 + |m.data|
            && b[4] + 256 * b[5] == m.kind
            && b[6] + 256 * b[7] == m.flags
            && b[8] + 256 * b[9] + 0x1_0000 * b[10] + 0x100_0000 * b[11] == m.sequence
            && b[12] + 256 * b[13] + 0x1_0000 * b[14] + 0x100_0000 * b[15] == m.pid
            && b[16..] == m.data
  {
    var b := EncodeMessage(m);
    Unpack32Pack(HEADER + |m.data|);
    Unpack32Pack(m.sequence);
    Unpack32Pack(m.pid);
    assert b[..4] == Pack32(HEADER + |m.data|) && b[4..6] == Pack16(m.kind) && b[6..8] == Pack16(m.flags);
    assert b[8..12] == Pack32(m.sequence) && b[12..16] == Pack32(m.pid) && b[16..] == m.data;
  }

  function EncodeMessages(ms: seq<Message>): Bytes
    requires forall i | 0 <= i < |ms| :: Encodable(ms[i])
  {
    if ms == [] then [] else EncodeMessage(ms[0]) + EncodeMessages(ms[1..])
  }

  /** Decoding the concatenation of encoded messages gives the same messages. */
  lemma {:induction false} MessagesRoundTrip(ms: seq<Message>)
    requires forall i | 0 <= i < |ms| :: Encodable(ms[i])
    ensures DecodeMessages(EncodeMessages(ms)) == Decoded(ms, Done)
  {
    if ms != [] {
      var first := EncodeMessage(ms[0]);
      assert |first| == HEADER + |ms[0].data|;
      FrontOfEncoded(ms[0], EncodeMessages(ms[1..]));
      hide EncodeMessage, Front, LengthField;
      MessagesRoundTrip(ms[1..]);
      assert EncodeMessages(ms) == first + EncodeMessages(ms[1..]);
      assert ms == [ms[0]] + ms[1..];
    }
  }

  /** Every length field covers its own header. */
  predicate LengthsCoverHeaders(data: Bytes)
    decreases |data|
  {
    |data| < HEADER || |data| < LengthField(data) ||
    (LengthField(data) >= HEADER && LengthsCoverHeaders(data[LengthField(data)..]))
  }

  lemma FrontEncodable(data: Bytes)
    requires |data| >= HEADER && LengthField(data) <= |data|
    ensures Encodable(Front(data))
    ensures LengthField(data) >= HEADER ==> EncodeMessage(Front(data)) == data[..LengthField(data)]
    ensures LengthField(data) < HEADER ==> |EncodeMessage(Front(data))| == HEADER
  {
    var length := LengthField(data);
    if length >= HEADER {
      Pack32Unpack(data[..4]);
      Pack32Unpack(data[8..12]);
      Pack32Unpack(data[12..16]);
      assert data[..length] == data[..4] + data[4..6] + data[6..8] + data[8..12] + data[12..16] + data[HEADER..length];
    }
  }

  /** Of a stream that is read to its end, encoding what was read gives back the bytes if and only if
      every length field covers its own header. */
  lemma {:induction false} StreamRoundTripIff(data: Bytes)
    requires DecodeMessages(data).ending == Done
    ensures var ms := DecodeMessages(data).items;
            && (forall i | 0 <= i < |ms| :: Encodable(ms[i]))
            && (EncodeMessages(ms) == data <==> LengthsCoverHeaders(data))
            && |EncodeMessages(ms)| >= |data|
            && (!LengthsCoverHeaders(data) ==> |EncodeMessages(ms)| > |data|)
    decreases |data|
  {
    if data != [] {
      var length := LengthField(data);
      var rest := data[length..];
      StreamRoundTripIff(rest);
      FrontEncodable(data);
      hide EncodeMessage, Front, LengthField, Encodable;
      var ms := DecodeMessages(data).items;
      assert ms[0] == Front(data) && ms[1..] == DecodeMessages(rest).items;
      assert data == data[..length] + rest;
      if length >= HEADER {
        assert EncodeMessages(ms)[..length] == data[..length];
        assert EncodeMessages(ms)[length..] == EncodeMessages(ms[1..]);
      }
    }
  }

  /** Twenty bytes: a message of length four, whose header reaches into the next message. */
  lemma ShortLengthExample()
    ensures var data: Bytes := [4, 0, 0, 0, 16, 0, 0, 0, 0, 0, 0, 0, 0, 0, 0, 0, 0, 0, 0, 0];
            var r := DecodeMessages(data);
            && r.ending == Done && |r.items| == 2
            && (forall i | 0 <= i < 2 :: Encodable(r.items[i]))
            && |EncodeMessages(r.items)| == 32 && EncodeMessages(r.items) != data
  {
    var data: Bytes := [4, 0, 0, 0, 16, 0, 0, 0, 0, 0, 0, 0, 0, 0, 0, 0, 0, 0, 0, 0];
    var four: Bytes, sixteen: Bytes := [4, 0, 0, 0], [16, 0, 0, 0];
    assert data[..4] == four && data[4..][..4] == sixteen;
    assert Unpack32(four) == 4 && Unpack32(sixteen) == 16;
    hide Unpack32;
    assert LengthField(data) == 4 && LengthField(data[4..]) == 16;
    hide *;
    ShortLength(data);
  }

  lemma ShortLength(data: Bytes)
    requires |data| == 20 && LengthField(data) == 4 && LengthField(data[4..]) == 16
    ensures var r := DecodeMessages(data);
            && r.ending == Done && |r.items| == 2
            && (forall i | 0 <= i < 2 :: Encodable(r.items[i]))
            && |EncodeMessages(r.items)| == 32
  {
    var rest := data[4..];
    FrontEncodable(data);
    FrontEncodable(rest);
    hide Front, LengthField;
    var first, second := Front(data), Front(rest);
    assert rest[16..] == [];
    assert DecodeMessages(rest) == Decoded([second], Done);
    assert DecodeMessages(data) == Decoded([first, second], Done);
    var a, b := EncodeMessage(first), EncodeMessage(second);
    assert |a| == 16 && |b| == 16;
    hide EncodeMessage;
    assert [first, second][1..] == [second];
    assert EncodeMessages([second]) == b + EncodeMessages([]);
    assert EncodeMessages([first, second]) == a + EncodeMessages([second]);
  }

  // ----- padding -----

  /** Bitwise and of a number with one of either sign, in two's complement. */
  function BitAnd(a: nat, b: int): nat {
    if a == 0 then 0 else 2 * BitAnd(a / 2, b / 2) + (if a % 2 == 1 && b % 2 == 1 then 1 else 0)
  }

  function Not(n: int): int {
    -n - 1
  }

  function Pad(len: nat, to: nat): nat
    requires to > 0
  {
    BitAnd(len + to - 1, Not(to - 1))
  }

  lemma {:induction false} AllOnes(a: nat)
    ensures BitAnd(a, -1) == a
  {
    if a > 0 {
      AllOnes(a / 2);
      assert -1 / 2 == -1 && -1 % 2 == 1;
    }
  }

  /** Masking with the complement of one less than a power of two clears the low bits. */
  lemma {:induction false} MaskClears(a: nat, k: nat)
    ensures BitAnd(a, Not(Pow2(k) - 1)) == ClearLow(a, k)
    decreases k
  {
    if k == 0 {
      AllOnes(a);
    } else {
      var mask, half := Not(Pow2(k) - 1), Not(Pow2(k - 1) - 1);
      MaskClears(a / 2, k - 1);
      assert mask == 2 * half;
      assert mask / 2 == half && mask % 2 == 0;
    }
  }

  /** For a power of two the mask form of the padding rounds up to the next multiple. */
  lemma PadRoundsUp(len: nat, k: nat)
    ensures var p := Pad(len, Pow2(k)); Aligned(p, k) && len <= p < len + Pow2(k)
  {
    MaskClears(len + Pow2(k) - 1, k);
    ClearLowProperties(len + Pow2(k) - 1, k);
  }

  /** The step by which the decoder moves on. */
  function Advance(length: nat): nat {
    (length + 3) / 4 * 4
  }

  lemma PadIsAdvance(len: nat)
    ensures Pad(len, 4) == Advance(len)
  {
    assert Pow2(2) == 4 by {
      assert Pow2(1) == 2 * Pow2(0);
      assert Pow2(2) == 2 * Pow2(1);
    }
    MaskClears(len + 3, 2);
    assert ClearLow(len + 3, 2) == 2 * ClearLow((len + 3) / 2, 1);
    assert ClearLow((len + 3) / 2, 1) == 2 * ClearLow((len + 3) / 2 / 2, 0);
  }

  // ----- attributes -----

  predicate EncodableAttribute(a: Attribute) {
    Fits16(a.kind) && Fits16(ATTRIBUTE_HEADER + |a.payload|)
  }

  function ZeroBytes(n: nat): Bytes {
    seq(n, _ => 0)
  }

  /** One attribute, padded to a multiple of four; packing fails when a number does not fit. */
  method EncodeOne(a: Attribute) returns (r: Option<Bytes>)
    ensures r.Some? <==> EncodableAttribute(a)
    ensures r.Some? ==> r.value == EncodeAttribute(a)
  {
    var len := ATTRIBUTE_HEADER + |a.payload|;
    if !Fits16(len) || !Fits16(a.kind) {
      return None;
    }
    var raw: Bytes := Pack16(len) + Pack16(a.kind) + a.payload;
    PadIsAdvance(len);
    var pad := Pad(len, 4) - |raw|;
    if pad != 0 {
      raw := raw + ZeroBytes(pad);
    }
    return Some(raw);
  }

  /** The length, the kind, the payload, and zeros up to the next multiple of four. */
  function EncodeAttribute(a: Attribute): (b: Bytes)
    requires EncodableAttribute(a)
    ensures |b| == Advance(ATTRIBUTE_HEADER + |a.payload|)
  {
    var len := ATTRIBUTE_HEADER + |a.payload|;
    Pack16(len) + Pack16(a.kind) + a.payload + ZeroBytes(Advance(len) - len)
  }

  /** The bytes of an encoded attribute: its length and its kind, the lowest byte first, the payload, and
      zeros. */
  lemma AttributeBytes(a: Attribute)
    requires EncodableAttribute(a)
    ensures var b: seq<int> := EncodeAttribute(a);
            var len := 4 + |a.payload|;
            && |b| % 4 == 0 && len <= |b| < len + 4
            && b[0] + 256 * b[1] == len && b[2] + 256 * b[3] == a.kind
            && b[4..len] == a.payload && forall i | len <= i < |b| :: b[i] == 0
  {
    var b := EncodeAttribute(a);
    assert b[..2] == Pack16(ATTRIBUTE_HEADER + |a.payload|) && b[2..4] == Pack16(a.kind);
    assert b[4..4 + |a.payload|] == a.payload;
  }

  function EncodeAttributes(attributes: seq<Attribute>): Bytes
    requires forall i | 0 <= i < |attributes| :: EncodableAttribute(attributes[i])
  {
    if attributes == [] then [] else EncodeAttribute(attributes[0]) + EncodeAttributes(attributes[1..])
  }

  /** All attributes, in the order of the dictionary. */
  method EncodeAll(attributes: seq<Attribute>) returns (r: Option<Bytes>)
    ensures r.Some? <==> forall i | 0 <= i < |attributes| :: EncodableAttribute(attributes[i])
    ensures r.Some? ==> r.value == EncodeAttributes(attributes)
  {
    var joined: Bytes := [];
    var i := 0;
    while i < |attributes|
      invariant i <= |attributes| && forall j | 0 <= j < i :: EncodableAttribute(attributes[j])
      invariant (forall j | 0 <= j < |attributes| :: EncodableAttribute(attributes[j])) ==>
                  EncodeAttributes(attributes) == joined + EncodeAttributes(attributes[i..])
    {
      var one := EncodeOne(attributes[i]);
      if one.None? {
        return None;
      }
      assert attributes[i..][1..] == attributes[i + 1..];
      joined := joined + one.value;
      i := i + 1;
    }
    return Some(joined);
  }

  function AttributeLength(data: Bytes): nat
    requires |data| >= ATTRIBUTE_HEADER
  {
    Unpack16(data[..2])
  }

  function FrontAttribute(data: Bytes): Attribute
    requires |data| >= ATTRIBUTE_HEADER && AttributeLength(data) <= |data|
  {
    var length := AttributeLength(data);
    Attribute(Unpack16(data[2..4]), if length < ATTRIBUTE_HEADER then [] else data[ATTRIBUTE_HEADER..length])
  }

  /** What is left after moving on; a slice may start past the end. */
  function Onward(data: Bytes, length: nat): Bytes {
    if Advance(length) <= |data| then data[Advance(length)..] else []
  }

  function DecodeAttributes(data: Bytes): Decoded<Attribute>
    decreases |data|
  {
    if data == [] then Decoded([], Done)
    else if |data| < ATTRIBUTE_HEADER then Decoded([], ShortHeader)
    else if |data| < AttributeLength(data) then Decoded([], Underrun)
    else if AttributeLength(data) == 0 then Decoded([FrontAttribute(data)], Endless)
    else
      var rest := DecodeAttributes(Onward(data, AttributeLength(data)));
      Decoded([FrontAttribute(data)] + rest.items, rest.ending)
  }

  lemma AttributeStep(data: Bytes)
    requires |data| >= ATTRIBUTE_HEADER && 0 < AttributeLength(data) <= |data|
    ensures var rest := Onward(data, AttributeLength(data));
            && |rest| < |data|
            && DecodeAttributes(data)
               == Decoded([FrontAttribute(data)] + DecodeAttributes(rest).items, DecodeAttributes(rest).ending)
  {
  }

  method DecodeAttributeList(input: Bytes) returns (r: Decoded<Attribute>)
    ensures r == DecodeAttributes(input)
  {
    var data, items := input, [];
    while data != []
      invariant DecodeAttributes(input) == Decoded(items + DecodeAttributes(data).items, DecodeAttributes(data).ending)
      decreases |data|
    {
      hide FrontAttribute, AttributeLength, Onward;
      if |data| < ATTRIBUTE_HEADER {
        return Decoded(items, ShortHeader);
      }
      var length := AttributeLength(data);
      if |data| < length {
        return Decoded(items, Underrun);
      }
      items := items + [FrontAttribute(data)];
      if length == 0 {
        return Decoded(items, Endless);
      }
      AttributeStep(data);
      data := Onward(data, length);
    }
    return Decoded(items, Done);
  }

  lemma FrontOfEncodedAttribute(a: Attribute, rest: Bytes)
    requires EncodableAttribute(a)
    ensures var data := EncodeAttribute(a) + rest;
            && AttributeLength(data) == ATTRIBUTE_HEADER + |a.payload|
            && FrontAttribute(data) == a
            && Onward(data, AttributeLength(data)) == rest
  {
    var len := ATTRIBUTE_HEADER + |a.payload|;
    var data := EncodeAttribute(a) + rest;
    assert data[..2] == Pack16(len) && data[2..4] == Pack16(a.kind) && data[ATTRIBUTE_HEADER..len] == a.payload;
  }

  /** Decoding encoded attributes gives the same list of kinds and payloads. */
  lemma {:induction false} AttributesRoundTrip(attributes: seq<Attribute>)
    requires forall i | 0 <= i < |attributes| :: EncodableAttribute(attributes[i])
    ensures DecodeAttributes(EncodeAttributes(attributes)) == Decoded(attributes, Done)
  {
    if attributes != [] {
      AttributesRoundTrip(attributes[1..]);
      FrontOfEncodedAttribute(attributes[0], EncodeAttributes(attributes[1..]));
      assert attributes == [attributes[0]] + attributes[1..];
    }
  }

  // ----- both together -----

  /** A message with a body and attributes; packing fails when a number does not fit. */
  method Encode(kind: int, sequence: int, flags: int, body: Bytes, attributes: seq<Attribute>)
      returns (r: Option<Bytes>)
    ensures r.Some? <==>
            && (forall i | 0 <= i < |attributes| :: EncodableAttribute(attributes[i]))
            && Encodable(Message(kind, flags, sequence, 0, body + EncodeAttributes(attributes)))
    ensures r.Some? ==> r.value == EncodeMessage(Message(kind, flags, sequence, 0, body + EncodeAttributes(attributes)))
  {
    var attrs := EncodeAll(attributes);
    if attrs.None? {
      return None;
    }
    var length := HEADER + |attrs.value| + |body|;
    if !Fits32(length) || !Fits16(kind) || !Fits16(flags) || !Fits32(sequence) {
      return None;
    }
    var m := Message(kind, flags, sequence, 0, body + attrs.value);
    return Some(PackHeader(length, m) + body + attrs.value);
  }

  lemma OneMessage(m: Message)
    requires Encodable(m)
    ensures DecodeMessages(EncodeMessage(m)) == Decoded([m], Done)
  {
    var data := EncodeMessage(m);
    FrontOfEncoded(m, []);
    assert data + [] == data;
    hide EncodeMessage, Front, LengthField;
    assert DecodeMessages(data[LengthField(data)..]) == Decoded([], Done);
  }

  /** What is encoded with a body and attributes is decoded to one message, and behind the body the
      same attributes are read. */
  lemma MessageWithAttributes(m: Message, body: Bytes, attributes: seq<Attribute>)
    requires forall i | 0 <= i < |attributes| :: EncodableAttribute(attributes[i])
    requires m.data == body + EncodeAttributes(attributes) && Encodable(m)
    ensures DecodeMessages(EncodeMessage(m)) == Decoded([m], Done)
    ensures DecodeAttributes(m.data[|body|..]) == Decoded(attributes, Done)
  {
    OneMessage(m);
    AttributesRoundTrip(attributes);
    assert m.data[|body|..] == EncodeAttributes(attributes);
  }
}
