/**
 * The byte-level codec of the PHP MQTT 3.1.1 client (XnMqttClient): the
 * Remaining Length variable-length integer (section 2.2.3 of MQTT 3.1.1),
 * length-prefixed strings (section 1.5.3), packet framing, and the CONNECT,
 * PUBLISH, SUBSCRIBE and DISCONNECT packets the client sends. Every encoder is
 * paired with the decoder the client (or a broker) applies to its output.
 */
module MqttCodec {
  import opened Base

  /** Largest value the four-byte Remaining Length field can carry. */
  const MaxRemainingLength: nat := 268435455

  /** Place value of the k-th base-128 digit of a Remaining Length. */
  function Weight(k: nat): (w: nat)
    ensures w >= 1
  {
    if k == 0 then 1 else 128 * Weight(k - 1)
  }

  lemma WeightTable()
    ensures Weight(1) == 128 && Weight(2) == 16384 && Weight(3) == 2097152 && Weight(4) == 268435456
  {
  }

  // ---------------------------------------------------------------- Remaining Length

  /** A well-formed length field: one or more bytes, 0x80 set on all of them but the last. */
  predicate ContinuationBits(r: seq<byte>)
  {
    && 1 <= |r|
    && (forall i :: 0 <= i < |r| - 1 ==> r[i] >= 128)
    && r[|r| - 1] < 128
  }

  /**
   * The bytes encodeLength emits for n: seven bits per byte, least significant
   * digit first.
   */
  function RemainingLength(n: nat): (r: seq<byte>)
    ensures ContinuationBits(r)
    decreases n
  {
    if n < 128 then [n] else [n % 128 + 128] + RemainingLength(n / 128)
  }

  /** encodeLength: the do-while loop that peels off one base-128 digit per pass. */
  method EncodeLength(length: nat) returns (encoded: seq<byte>)
    ensures encoded == RemainingLength(length)
  {
    encoded := [];
    var rest := length;
    var more := true;
    while more
      invariant more ==> encoded + RemainingLength(rest) == RemainingLength(length)
      invariant !more ==> encoded == RemainingLength(length)
      decreases rest, more
    {
      var digit: byte := rest % 128;
      var next := rest / 128;
      if next > 0 {
        digit := digit + 128;
      }
      EncodeStep(encoded, rest, digit, RemainingLength(length));
      encoded := encoded + [digit];
      rest := next;
      more := rest > 0;
    }
  }

  /** One pass of encodeLength's loop: the digit it appends is the first byte of what is left to encode. */
  lemma EncodeStep(encoded: seq<byte>, rest: nat, digit: byte, whole: seq<byte>)
    requires encoded + RemainingLength(rest) == whole
    requires digit == if rest / 128 > 0 then rest % 128 + 128 else rest % 128
    ensures rest / 128 > 0 ==> (encoded + [digit]) + RemainingLength(rest / 128) == whole
    ensures rest / 128 == 0 ==> encoded + [digit] == whole
  {
    if rest / 128 > 0 {
      assert RemainingLength(rest) == [digit] + RemainingLength(rest / 128);
      assert (encoded + [digit]) + RemainingLength(rest / 128) == encoded + ([digit] + RemainingLength(rest / 128));
    } else {
      assert RemainingLength(rest) == [digit];
    }
  }

  /** Every length the field can carry takes one to four bytes, one more per seven bits. */
  lemma {:induction false} RemainingLengthSize(n: nat)
    requires n <= MaxRemainingLength
    ensures |RemainingLength(n)| ==
      if n < 128 then 1 else if n < 16384 then 2 else if n < 2097152 then 3 else 4
  {
    if n >= 128 {
      RemainingLengthSize(n / 128);
    }
  }

  /**
   * The remaining-length loop of readPacket, reading digit k of src with the
   * running total value: it stops at the first byte without 0x80, or after the
   * fourth byte whatever that byte says; None when src runs out first.
   */
  function DecodeLengthAt(src: seq<byte>, k: nat, value: nat): (r: Option<(nat, nat)>)
    requires k < 4 && value < Weight(k)
    ensures r.Some? ==> k < r.value.1 <= 4 && r.value.1 <= |src| && r.value.0 < Weight(r.value.1)
    ensures r.None? <==> |src| < 4 && forall i :: k <= i < |src| ==> src[i] >= 128
    decreases 4 - k
  {
    if |src| <= k then None
    else
      var d := src[k];
      DigitBound(d % 128, Weight(k), value);
      var v := value + d % 128 * Weight(k);
      if d >= 128 && k < 3 then DecodeLengthAt(src, k + 1, v) else Some((v, k + 1))
  }

  lemma DigitBound(digit: nat, w: nat, value: nat)
    requires digit < 128 && value < w
    ensures 0 <= digit * w && value + digit * w < 128 * w
  {
    assert digit * w <= 127 * w;
  }

  /**
   * One digit of the decoding loop: the running value and multiplier after
   * src[k], whether another digit follows, and what is left to decode.
   */
  lemma LengthDigit(src: seq<byte>, k: nat, value: nat, multiplier: nat, digit: byte)
    requires k < 4 && k < |src| && digit == src[k] && multiplier == Weight(k) && value < multiplier
    ensures 0 <= digit % 128 * multiplier && value + digit % 128 * multiplier < multiplier * 128
    ensures multiplier * 128 == Weight(k + 1)
    ensures (digit >= 128 && multiplier * 128 <= 128 * 128 * 128) <==> (digit >= 128 && k + 1 < 4)
    ensures DecodeLengthAt(src, k, value)
      == if digit >= 128 && k + 1 < 4 then DecodeLengthAt(src, k + 1, value + digit % 128 * multiplier)
         else Some((value + digit % 128 * multiplier, k + 1))
  {
    WeightTable();
    DigitBound(digit % 128, multiplier, value);
  }

  /** Decoding a Remaining Length: the value and how many bytes it took. */
  function DecodeLength(src: seq<byte>): (r: Option<(nat, nat)>)
    ensures r.Some? ==> 1 <= r.value.1 <= 4 && r.value.1 <= |src|
    ensures r.Some? ==> r.value.0 <= MaxRemainingLength
    ensures r.None? <==> |src| < 4 && forall i :: 0 <= i < |src| ==> src[i] >= 128
  {
    WeightTable();
    DecodeLengthAt(src, 0, 0)
  }

  lemma DigitSplit(m: nat, w: nat)
    ensures m % 128 * w + m / 128 * (128 * w) == m * w
  {
    var q, d := m / 128, m % 128;
    assert m == 128 * q + d;
    calc {
      m * w;
      (128 * q + d) * w;
      { assert (128 * q + d) * w == 128 * q * w + d * w; }
      128 * q * w + d * w;
      { assert 128 * q * w == q * (128 * w); }
      q * (128 * w) + d * w;
    }
  }

  lemma {:induction false} DecodeRemainingLengthAt(src: seq<byte>, k: nat, value: nat, m: nat)
    requires k < 4 && value < Weight(k)
    requires k + |RemainingLength(m)| <= 4
    requires k + |RemainingLength(m)| <= |src|
    requires src[k..k + |RemainingLength(m)|] == RemainingLength(m)
    ensures DecodeLengthAt(src, k, value) == Some((value + m * Weight(k), k + |RemainingLength(m)|))
    decreases m
  {
    if m >= 128 {
      var e' := RemainingLength(m / 128);
      var d: byte := m % 128 + 128;
      assert RemainingLength(m) == [d] + e';
      SliceHead(src, k, d, e');
      var v := DecodeContinue(src, k, value, m);
      DecodeRemainingLengthAt(src, k + 1, v, m / 128);
      NextPlace(value, v, m, k);
    } else {
      assert RemainingLength(m) == [m];
      SliceHead(src, k, m, []);
      DecodeLast(src, k, value, m);
    }
  }

  /** The first byte of a slice, and the slice after it. */
  lemma SliceHead(src: seq<byte>, k: nat, x: byte, rest: seq<byte>)
    requires k + 1 + |rest| <= |src| && src[k..k + 1 + |rest|] == [x] + rest
    ensures src[k] == x && src[k + 1..k + 1 + |rest|] == rest
  {
    assert src[k] == src[k..k + 1 + |rest|][0];
    assert src[k + 1..k + 1 + |rest|] == src[k..k + 1 + |rest|][1..];
  }

  /** A digit with 0x80 set before the fourth: decoding goes on with the next byte and total v. */
  lemma DecodeContinue(src: seq<byte>, k: nat, value: nat, m: nat) returns (v: nat)
    requires k < 3 && value < Weight(k) && k < |src| && src[k] == m % 128 + 128
    ensures v == value + m % 128 * Weight(k) && v < Weight(k + 1)
    ensures DecodeLengthAt(src, k, value) == DecodeLengthAt(src, k + 1, v)
  {
    var d := src[k];
    assert d % 128 == m % 128;
    DigitBound(m % 128, Weight(k), value);
    v := value + m % 128 * Weight(k);
  }

  /** The running total after digit k plus the rest of m at the next place is m at place k. */
  lemma NextPlace(value: nat, v: nat, m: nat, k: nat)
    requires v == value + m % 128 * Weight(k)
    ensures v + m / 128 * Weight(k + 1) == value + m * Weight(k)
  {
    var w := Weight(k);
    assert Weight(k + 1) == 128 * w;
    DigitSplit(m, w);
  }

  /** A digit without 0x80: decoding ends after it. */
  lemma DecodeLast(src: seq<byte>, k: nat, value: nat, d: byte)
    requires k < 4 && value < Weight(k) && k < |src| && src[k] == d && d < 128
    ensures DecodeLengthAt(src, k, value) == Some((value + d * Weight(k), k + 1))
  {
    assert d % 128 == d;
  }

  /** Decoding what encodeLength emitted gives back the length and consumes exactly its bytes. */
  lemma DecodeRemainingLength(n: nat, rest: seq<byte>)
    requires n <= MaxRemainingLength
    ensures DecodeLength(RemainingLength(n) + rest) == Some((n, |RemainingLength(n)|))
  {
    var src := RemainingLength(n) + rest;
    assert src[0..|RemainingLength(n)|] == RemainingLength(n);
    RemainingLengthSize(n);
    DecodeRemainingLengthAt(src, 0, 0, n);
  }

  // ---------------------------------------------------------------- strings

  /** A 2-byte big-endian unsigned integer. */
  function Be16(hi: byte, lo: byte): nat
  {
    hi * 256 + lo
  }

  lemma Be16Injective(a: byte, b: byte, c: byte, d: byte)
    requires Be16(a, b) == Be16(c, d)
    ensures a == c && b == d
  {
    assert b == Be16(a, b) % 256 && d == Be16(c, d) % 256;
  }

  /** The two masked bytes `(x >> 8) & 0xFF`, `x & 0xFF` read back as x modulo 65536. */
  lemma SplitBe16(x: int)
    ensures (x / 256) % 256 * 256 + x % 256 == x % 65536
  {
    var a := x / 256;
    var lo := x % 256;
    var q := a / 256;
    var hi := a % 256;
    assert x == 256 * a + lo;
    assert a == 256 * q + hi;
    assert x == 65536 * q + (256 * hi + lo);
    assert 0 <= 256 * hi + lo < 65536;
  }

  /**
   * encodeString: the length masked to two bytes, then the bytes themselves.
   * Nothing rejects a string of 65536 bytes or more; its prefix then wraps.
   */
  function EncodeString(s: seq<byte>): (r: seq<byte>)
    ensures |r| == |s| + 2 && r[2..] == s
    ensures Be16(r[0], r[1]) == |s| % 65536
  {
    SplitBe16(|s|);
    [(|s| / 256) % 256, |s| % 256] + s
  }

  lemma EncodeStringExamples()
    ensures EncodeString([]) == [0x00, 0x00]
    ensures EncodeString([0x61, 0x62]) == [0x00, 0x02, 0x61, 0x62]
  {
    var empty: seq<byte> := [];
    assert EncodeString(empty) == [0, 0] by {
      assert |empty| == 0;
    }
    var ab: seq<byte> := [0x61, 0x62];
    assert EncodeString(ab) == [0, 2] + ab by {
      assert |ab| == 2;
    }
  }

  /** Reads one length-prefixed string off the front of s; None when s is too short for it. */
  function DecodeString(s: seq<byte>): (r: Option<(seq<byte>, seq<byte>)>)
    ensures r.None? <==> |s| < 2 || |s| < 2 + Be16(s[0], s[1])
    ensures r.Some? ==> |r.value.0| < 65536
  {
    if |s| < 2 then None
    else
      var len := Be16(s[0], s[1]);
      if |s| < 2 + len then None else Some((s[2..2 + len], s[2 + len..]))
  }

  /** Whatever DecodeString accepts is an encoded string followed by the remainder. */
  lemma DecodeStringSound(s: seq<byte>)
    requires DecodeString(s).Some?
    ensures s == EncodeString(DecodeString(s).value.0) + DecodeString(s).value.1
  {
    var (t, rest) := DecodeString(s).value;
    var e := EncodeString(t);
    Be16Injective(e[0], e[1], s[0], s[1]);
    assert s == e[..2] + t + rest;
  }

  /** A string of at most 65535 bytes reads back unchanged, leaving what followed it. */
  lemma StringRoundTrip(t: seq<byte>, rest: seq<byte>)
    requires |t| < 65536
    ensures DecodeString(EncodeString(t) + rest) == Some((t, rest))
  {
    var s := EncodeString(t) + rest;
    assert s[2..2 + |t|] == t;
    assert s[2 + |t|..] == rest;
  }

  /** The masked prefix: a string of 65536 bytes or more does not read back. */
  lemma LongStringWraps(t: seq<byte>)
    requires |t| >= 65536
    ensures DecodeString(EncodeString(t)) != Some((t, []))
  {
  }

  // ---------------------------------------------------------------- framing

  /** One control packet as readPacket returns it: type, flags and body. */
  datatype Packet = Packet(ptype: nat, flags: nat, body: seq<byte>)

  /** A message handed to the subscriber's callback. */
  datatype Message = Message(topic: seq<byte>, payload: seq<byte>)

  /** Fixed header byte, Remaining Length, then the body. */
  function Frame(header: byte, body: seq<byte>): seq<byte>
  {
    [header] + RemainingLength(|body|) + body
  }

  /**
   * What readPacket makes of the bytes the broker has sent: None when no
   * header byte or not the whole length field arrives; otherwise a packet whose
   * body is as much of the announced length as arrived (a short body is
   * returned truncated, not rejected). The second component is what is left.
   */
  function ParsePacket(stream: seq<byte>): (r: (Option<Packet>, seq<byte>))
    ensures |r.1| <= |stream| && r.1 == stream[|stream| - |r.1|..]
    ensures r.0.None? ==> r.1 == []
    ensures r.0.Some? ==> r.0.value.ptype < 16 && r.0.value.flags < 16
  {
    if stream == [] then (None, [])
    else
      var h := stream[0];
      match DecodeLength(stream[1..])
      case None => (None, [])
      case Some((len, used)) =>
        var rest := stream[1 + used..];
        var take := Min(len, |rest|);
        (Some(Packet(h / 16, h % 16, rest[..take])), rest[take..])
  }

  /** A framed packet reads back as itself and consumes exactly its own bytes. */
  lemma FrameRoundTrip(header: byte, body: seq<byte>, more: seq<byte>)
    requires |body| <= MaxRemainingLength
    ensures ParsePacket(Frame(header, body) + more) == (Some(Packet(header / 16, header % 16, body)), more)
  {
    var enc := RemainingLength(|body|);
    var stream := [header] + (enc + (body + more));
    assert Frame(header, body) + more == stream;
    assert stream[1..] == enc + (body + more);
    DecodeRemainingLength(|body|, body + more);
    var rest := stream[1 + |enc|..];
    assert rest == body + more;
    assert rest[..|body|] == body && rest[|body|..] == more;
  }

  /** When the stream ends inside the body, the packet comes back with what did arrive. */
  lemma ShortBodyTruncated(stream: seq<byte>, len: nat, used: nat)
    requires |stream| >= 1 && DecodeLength(stream[1..]) == Some((len, used))
    requires |stream| - 1 - used < len
    ensures ParsePacket(stream) == (Some(Packet(stream[0] / 16, stream[0] % 16, stream[1 + used..])), [])
  {
    var rest := stream[1 + used..];
    assert Min(len, |rest|) == |rest|;
    assert rest[..|rest|] == rest;
  }

  /** handlePublish: topic and payload of a PUBLISH body; None when the body is too short. */
  function HandlePublish(body: seq<byte>): (r: Option<Message>)
    ensures r.None? <==> |body| < 2 || |body| < 2 + Be16(body[0], body[1])
    ensures r.Some? ==> body == EncodeString(r.value.topic) + r.value.payload
    ensures |body| >= 2 && |body| >= 2 + Be16(body[0], body[1]) ==>
      r == Some(Message(body[2..2 + Be16(body[0], body[1])], body[2 + Be16(body[0], body[1])..]))
  {
    match DecodeString(body)
    case None => None
    case Some((topic, payload)) =>
      DecodeStringSound(body);
      Some(Message(topic, payload))
  }

  lemma HandlePublishExample()
    ensures HandlePublish([0x00, 0x01, 0x78, 0x79, 0x7A]) == Some(Message([0x78], [0x79, 0x7A]))
  {
    var body: seq<byte> := [0x00, 0x01, 0x78, 0x79, 0x7A];
    assert Be16(body[0], body[1]) == 1;
    assert body[2..3] == [0x78] && body[3..] == [0x79, 0x7A];
  }

  // ---------------------------------------------------------------- CONNECT

  /** The fields of the client that buildConnectPacket reads. */
  datatype ConnectOptions = ConnectOptions(
    clientId: seq<byte>,
    username: Option<seq<byte>>,
    password: Option<seq<byte>>,
    keepAlive: int)

  /** A username or password is sent when it is neither null nor empty. */
  predicate Present(field: Option<seq<byte>>)
  {
    field.Some? && field.value != []
  }

  function PresentValue(field: Option<seq<byte>>): Option<seq<byte>>
  {
    if Present(field) then field else None
  }

  const ConnectHeader: byte := 0x10
  const ProtocolName: seq<byte> := [0x4D, 0x51, 0x54, 0x54]
  const ProtocolLevel: byte := 4
  const CleanSessionFlag: byte := 0x02
  const UsernameFlag: byte := 0x80
  const PasswordFlag: byte := 0x40

  /** The connect-flags byte (section 3.1.2.3 of MQTT 3.1.1). */
  function ConnectFlags(o: ConnectOptions): (f: byte)
    ensures (f / 2) % 2 == 1
    ensures f >= 128 <==> Present(o.username)
    ensures (f / 64) % 2 == 1 <==> Present(o.password)
    ensures f % 2 == 0 && (f / 4) % 16 == 0
  {
    CleanSessionFlag
      + (if Present(o.username) then UsernameFlag else 0)
      + (if Present(o.password) then PasswordFlag else 0)
  }

  /** The keep-alive as two big-endian bytes, each masked with 0xFF. */
  function KeepAliveBytes(keepAlive: int): (r: seq<byte>)
    ensures |r| == 2 && Be16(r[0], r[1]) == keepAlive % 65536
  {
    SplitBe16(keepAlive);
    [(keepAlive / 256) % 256, keepAlive % 256]
  }

  function ConnectPayload(o: ConnectOptions): seq<byte>
  {
    EncodeString(o.clientId)
      + (if Present(o.username) then EncodeString(o.username.value) else [])
      + (if Present(o.password) then EncodeString(o.password.value) else [])
  }

  function ConnectBody(o: ConnectOptions): seq<byte>
  {
    EncodeString(ProtocolName) + [ProtocolLevel, ConnectFlags(o)] + KeepAliveBytes(o.keepAlive) + ConnectPayload(o)
  }

  /** buildConnectPacket. */
  function ConnectPacket(o: ConnectOptions): seq<byte>
  {
    Frame(ConnectHeader, ConnectBody(o))
  }

  /** Where each CONNECT field sits (sections 3.1.2.1 to 3.1.2.10 of MQTT 3.1.1). */
  lemma ConnectLayout(o: ConnectOptions)
    ensures var b := ConnectBody(o);
      && ConnectPacket(o) == [0x10] + RemainingLength(|b|) + b
      && b[..7] == [0x00, 0x04, 0x4D, 0x51, 0x54, 0x54, 0x04]
      && b[7] == ConnectFlags(o)
      && Be16(b[8], b[9]) == o.keepAlive % 65536
      && b[10..] == ConnectPayload(o)
  {
    var b := ConnectBody(o);
    assert b == EncodeString(ProtocolName) + ([ProtocolLevel, ConnectFlags(o)] + KeepAliveBytes(o.keepAlive) + ConnectPayload(o));
  }

  lemma ConnectExample()
    ensures ConnectFlags(ConnectOptions([0x63], None, None, 60)) == 0x02
    ensures KeepAliveBytes(60) == [0x00, 0x3C]
  {
    assert (60 / 256) % 256 == 0 && 60 % 256 == 60;
  }

  /** The CONNECT fields as a broker reads them back. */
  datatype ConnectFields = ConnectFields(
    flags: byte,
    keepAlive: nat,
    clientId: seq<byte>,
    username: Option<seq<byte>>,
    password: Option<seq<byte>>)

  /** Reads an optional length-prefixed field that is there exactly when its flag is set. */
  function DecodeField(present: bool, s: seq<byte>): Option<(Option<seq<byte>>, seq<byte>)>
  {
    if !present then Some((None, s))
    else
      match DecodeString(s)
      case None => None
      case Some((v, rest)) => Some((Some(v), rest))
  }

  /** The connect payload read under the given flags: client id, then each flagged field, nothing after. */
  function DecodeConnectPayload(flags: byte, payload: seq<byte>): Option<ConnectFields>
  {
    match DecodeString(payload)
    case None => None
    case Some((clientId, r1)) =>
      match DecodeField(flags >= 128, r1)
      case None => None
      case Some((user, r2)) =>
        match DecodeField((flags / 64) % 2 == 1, r2)
        case None => None
        case Some((pass, r3)) =>
          if r3 != [] then None else Some(ConnectFields(flags, 0, clientId, user, pass))
  }

  /** The CONNECT body: protocol name, level, flags, keep-alive, then the payload. */
  function DecodeConnectBody(body: seq<byte>): Option<ConnectFields>
  {
    match DecodeString(body)
    case None => None
    case Some((name, vh)) =>
      if name != ProtocolName || |vh| < 4 || vh[0] != ProtocolLevel then None
      else
        match DecodeConnectPayload(vh[1], vh[4..])
        case None => None
        case Some(f) => Some(f.(keepAlive := Be16(vh[2], vh[3])))
  }

  /** A broker's reading of a whole CONNECT packet; None for anything malformed. */
  function DecodeConnect(packet: seq<byte>): Option<ConnectFields>
  {
    match ParsePacket(packet)
    case (None, _) => None
    case (Some(p), rest) =>
      if p.ptype != 1 || p.flags != 0 || rest != [] then None else DecodeConnectBody(p.body)
  }

  lemma DecodeFieldEncoded(o: Option<seq<byte>>, rest: seq<byte>)
    requires o.Some? ==> |o.value| < 65536
    ensures DecodeField(Present(o), (if Present(o) then EncodeString(o.value) else []) + rest)
      == Some((PresentValue(o), rest))
  {
    if Present(o) {
      StringRoundTrip(o.value, rest);
    } else {
      assert [] + rest == rest;
    }
  }

  lemma ConnectPayloadRoundTrip(o: ConnectOptions)
    requires |o.clientId| < 65536
    requires o.username.Some? ==> |o.username.value| < 65536
    requires o.password.Some? ==> |o.password.value| < 65536
    ensures DecodeConnectPayload(ConnectFlags(o), ConnectPayload(o))
      == Some(ConnectFields(ConnectFlags(o), 0, o.clientId, PresentValue(o.username), PresentValue(o.password)))
  {
    var userBytes := if Present(o.username) then EncodeString(o.username.value) else [];
    var passBytes := if Present(o.password) then EncodeString(o.password.value) else [];
    assert ConnectPayload(o) == EncodeString(o.clientId) + (userBytes + passBytes);
    StringRoundTrip(o.clientId, userBytes + passBytes);
    DecodeFieldEncoded(o.username, passBytes);
    assert passBytes == passBytes + [];
    DecodeFieldEncoded(o.password, []);
  }

  lemma ConnectBodyRoundTrip(o: ConnectOptions)
    requires |o.clientId| < 65536
    requires o.username.Some? ==> |o.username.value| < 65536
    requires o.password.Some? ==> |o.password.value| < 65536
    ensures DecodeConnectBody(ConnectBody(o)) == Some(ConnectFields(
      ConnectFlags(o), o.keepAlive % 65536, o.clientId, PresentValue(o.username), PresentValue(o.password)))
  {
    var ka := KeepAliveBytes(o.keepAlive);
    var vh := [ProtocolLevel, ConnectFlags(o)] + ka + ConnectPayload(o);
    assert ConnectBody(o) == EncodeString(ProtocolName) + vh;
    StringRoundTrip(ProtocolName, vh);
    assert vh[1] == ConnectFlags(o) && vh[2] == ka[0] && vh[3] == ka[1];
    assert vh[4..] == ConnectPayload(o);
    ConnectPayloadRoundTrip(o);
  }

  /**
   * A broker decodes buildConnectPacket's output to the client's own fields:
   * clean session always, username and password exactly when present and in
   * that order after the client id, keep-alive modulo 65536.
   */
  lemma ConnectRoundTrip(o: ConnectOptions)
    requires |o.clientId| < 65536
    requires o.username.Some? ==> |o.username.value| < 65536
    requires o.password.Some? ==> |o.password.value| < 65536
    requires |ConnectBody(o)| <= MaxRemainingLength
    ensures DecodeConnect(ConnectPacket(o)) == Some(ConnectFields(
      ConnectFlags(o), o.keepAlive % 65536, o.clientId, PresentValue(o.username), PresentValue(o.password)))
  {
    FrameRoundTrip(ConnectHeader, ConnectBody(o), []);
    assert ConnectPacket(o) + [] == ConnectPacket(o);
    ConnectBodyRoundTrip(o);
  }

  // ---------------------------------------------------------------- PUBLISH, SUBSCRIBE, DISCONNECT

  /** `0x30 | retain`: PUBLISH at QoS 0. */
  function PublishHeader(retain: bool): byte
  {
    if retain then 0x31 else 0x30
  }

  function PublishBody(topic: seq<byte>, payload: seq<byte>): seq<byte>
  {
    EncodeString(topic) + payload
  }

  /** The bytes publish writes. */
  function PublishPacket(topic: seq<byte>, payload: seq<byte>, retain: bool): seq<byte>
  {
    Frame(PublishHeader(retain), PublishBody(topic, payload))
  }

  lemma PublishExample()
    ensures PublishPacket([0x61, 0x2F, 0x62], [0x68, 0x69], false)
      == [0x30, 0x07, 0x00, 0x03, 0x61, 0x2F, 0x62, 0x68, 0x69]
  {
    assert RemainingLength(7) == [7];
  }

  /**
   * A published packet is read back as a PUBLISH (type 3, QoS 0, the retain
   * bit as flags) whose body handlePublish splits into the original topic and payload.
   */
  lemma PublishRoundTrip(topic: seq<byte>, payload: seq<byte>, retain: bool, more: seq<byte>)
    requires |topic| < 65536 && |PublishBody(topic, payload)| <= MaxRemainingLength
    ensures ParsePacket(PublishPacket(topic, payload, retain) + more)
      == (Some(Packet(3, if retain then 1 else 0, PublishBody(topic, payload))), more)
    ensures HandlePublish(PublishBody(topic, payload)) == Some(Message(topic, payload))
  {
    FrameRoundTrip(PublishHeader(retain), PublishBody(topic, payload), more);
    StringRoundTrip(topic, payload);
  }

  /** The fixed packet identifier subscribeLoop sends. */
  const SubscribePacketId: seq<byte> := [0x00, 0x01]
  const SubscribeHeader: byte := 0x82

  function SubscribeBody(filter: seq<byte>): seq<byte>
  {
    SubscribePacketId + EncodeString(filter) + [0x00]
  }

  /** SUBSCRIBE for one topic filter at QoS 0. */
  function SubscribePacket(filter: seq<byte>): seq<byte>
  {
    Frame(SubscribeHeader, SubscribeBody(filter))
  }

  /**
   * SUBSCRIBE reads back as type 8 with reserved flags 0010, packet
   * identifier 1, the filter, and the single requested-QoS byte 0.
   */
  lemma SubscribeRoundTrip(filter: seq<byte>, more: seq<byte>)
    requires |filter| < 65536 && |SubscribeBody(filter)| <= MaxRemainingLength
    ensures ParsePacket(SubscribePacket(filter) + more) == (Some(Packet(8, 2, SubscribeBody(filter))), more)
    ensures SubscribeBody(filter)[..2] == [0x00, 0x01]
    ensures DecodeString(SubscribeBody(filter)[2..]) == Some((filter, [0x00]))
  {
    FrameRoundTrip(SubscribeHeader, SubscribeBody(filter), more);
    assert SubscribeBody(filter)[2..] == EncodeString(filter) + [0x00];
    StringRoundTrip(filter, [0x00]);
  }

  /** DISCONNECT: header 0xE0 and an empty body. */
  const DisconnectPacket: seq<byte> := [0xE0, 0x00]
}
