/** The hand-built MQTT 5.0 encoder: the CONNECT packet (section 3.1 of the
    OASIS MQTT Version 5.0 standard), the CONNACK reason code (section
    3.2.2.2) and the QoS-0 PUBLISH packet (section 3.3). Only the fixed
    single-byte remaining-length form is implemented. */
module Mqtt {
  import opened Base

  /** MQTT control packet types (upper nibble of byte 0). */
  const CONNECT: Byte := 1
  const CONNACK: Byte := 2
  const PUBLISH: Byte := 3

  /** The only connect flag the client sets. */
  const CLEAN_START: Byte := 0x02

  /** Keep-alive interval, in seconds. */
  const KEEPALIVE: nat := 60

  /** The two bytes of a 16-bit value, most significant first (`u16::to_be_bytes`). */
  function BigEndian16(v: nat): (r: Bytes)
    requires v < 0x1_0000
    ensures |r| == 2 && 256 * (r[0] as int) + r[1] == v
  {
    [v / 256, v % 256]
  }

  // ---------------------------------------------------------------- CONNECT

  /** Bytes 2 to 12 of every CONNECT packet: protocol name length 4, "MQTT",
      protocol level 5, the CleanStart flag, keep-alive 60 and an empty
      property list. */
  const ConnectHeader: Bytes := [0x00, 0x04, 0x4D, 0x51, 0x54, 0x54, 0x05, 0x02, 0x00, 0x3C, 0x00]

  /** Builds the CONNECT packet for `clientId`. The Rust code converts the id
      length and the remaining length to `u8` with `expect`/`unwrap`, so an
      id longer than 242 bytes aborts instead of being truncated. */
  method Connect(clientId: Bytes) returns (pkt: Bytes)
    requires 13 + |clientId| <= 255
    ensures |pkt| == 15 + |clientId|
    ensures pkt[0] == 0x10
    ensures pkt[1] == |pkt| - 2 == 13 + |clientId|
    ensures pkt[2..13] == ConnectHeader
    ensures pkt[13] == 0 && pkt[14] == |clientId|
    ensures pkt[15..] == clientId
    ensures ConnectClientId(pkt) == Some(clientId)
  {
    var expectedLen := 15 + |clientId|;
    pkt := [];
    pkt := pkt + [CONNECT * 16];
    pkt := pkt + [expectedLen - 2];
    pkt := pkt + BigEndian16(4);
    pkt := pkt + [0x4D, 0x51, 0x54, 0x54];  // "MQTT"
    pkt := pkt + [5];                       // protocol level
    pkt := pkt + [CLEAN_START];
    pkt := pkt + BigEndian16(KEEPALIVE);
    pkt := pkt + [0];                       // properties length
    pkt := pkt + BigEndian16(|clientId|);
    pkt := pkt + clientId;
    assert pkt[2..13] == ConnectHeader;
    assert pkt[15..] == clientId;
  }

  /** Reads the client identifier back out of a CONNECT packet of the shape
      `Connect` produces, or None when `pkt` does not have that shape. */
  function ConnectClientId(pkt: Bytes): (r: Option<Bytes>)
    ensures r.Some? ==> |pkt| == 15 + |r.value| && pkt[15..] == r.value
  {
    if |pkt| >= 15 && pkt[0] == CONNECT * 16 && pkt[1] == |pkt| - 2
       && pkt[2..13] == ConnectHeader && 256 * (pkt[13] as int) + pkt[14] == |pkt| - 15
    then Some(pkt[15..])
    else None
  }

  /** Two CONNECT packets that carry the same client id are the same packet:
      the layout leaves no byte free. */
  lemma ConnectClientIdDeterminesPacket(p: Bytes, q: Bytes)
    requires ConnectClientId(p).Some? && ConnectClientId(p) == ConnectClientId(q)
    ensures p == q
  {
    assert p[..13] == q[..13] by {
      assert p[..13] == [p[0], p[1]] + p[2..13];
      assert q[..13] == [q[0], q[1]] + q[2..13];
    }
    assert p[13] == q[13] && p[14] == q[14];
    assert p == p[..13] + [p[13], p[14]] + p[15..];
    assert q == q[..13] + [q[13], q[14]] + q[15..];
  }

  // ---------------------------------------------------------------- CONNACK

  /** The CONNACK reason codes the client recognises. */
  datatype ReasonCode =
    | Success
    | UnspecifiedError
    | MalformedPacket
    | ProtocolError
    | ImplementationSpecificError
    | UnsupportedProtocolVersion
    | ClientIdentifierNotValid
    | BadUsernameOrPassword
    | NotAuthorized
    | ServerUnavailable
    | ServerBusy
    | Banned
    | BadAuthenticationMethod
    | TopicNameInvalid
    | PacketTooLarge
    | QuotaExceeded
    | PayloadFormatInvalid
    | RetainNotSupported
    | QosNotSupported
    | UseAnotherServer
    | ServerMoved
    | ConnectionRateExceeded

  /** The wire value of each reason code (its `repr(u8)` discriminant). */
  function Code(c: ReasonCode): (b: Byte)
  {
    match c
    case Success => 0x00
    case UnspecifiedError => 0x80
    case MalformedPacket => 0x81
    case ProtocolError => 0x82
    case ImplementationSpecificError => 0x83
    case UnsupportedProtocolVersion => 0x84
    case ClientIdentifierNotValid => 0x85
    case BadUsernameOrPassword => 0x86
    case NotAuthorized => 0x87
    case ServerUnavailable => 0x88
    case ServerBusy => 0x89
    case Banned => 0x8A
    case BadAuthenticationMethod => 0x8C
    case TopicNameInvalid => 0x90
    case PacketTooLarge => 0x95
    case QuotaExceeded => 0x97
    case PayloadFormatInvalid => 0x99
    case RetainNotSupported => 0x9A
    case QosNotSupported => 0x9B
    case UseAnotherServer => 0x9C
    case ServerMoved => 0x9D
    case ConnectionRateExceeded => 0x9F
  }

  /** The 22 recognised wire values. */
  const Codes: set<Byte> := {
    0x00, 0x80, 0x81, 0x82, 0x83, 0x84, 0x85, 0x86, 0x87, 0x88, 0x89,
    0x8A, 0x8C, 0x90, 0x95, 0x97, 0x99, 0x9A, 0x9B, 0x9C, 0x9D, 0x9F }

  /** `ConnectReasonCode::try_from`: a recognised byte maps to the code
      whose discriminant it is, any other byte is returned unchanged as the
      error. */
  function TryFrom(v: Byte): (r: Result<ReasonCode, Byte>)
    ensures r.Ok? <==> v in Codes
    ensures r.Ok? ==> Code(r.value) == v
    ensures r.Err? ==> r.error == v
  {
    match v
    case 0x00 => Ok(Success)
    case 0x80 => Ok(UnspecifiedError)
    case 0x81 => Ok(MalformedPacket)
    case 0x82 => Ok(ProtocolError)
    case 0x83 => Ok(ImplementationSpecificError)
    case 0x84 => Ok(UnsupportedProtocolVersion)
    case 0x85 => Ok(ClientIdentifierNotValid)
    case 0x86 => Ok(BadUsernameOrPassword)
    case 0x87 => Ok(NotAuthorized)
    case 0x88 => Ok(ServerUnavailable)
    case 0x89 => Ok(ServerBusy)
    case 0x8A => Ok(Banned)
    case 0x8C => Ok(BadAuthenticationMethod)
    case 0x90 => Ok(TopicNameInvalid)
    case 0x95 => Ok(PacketTooLarge)
    case 0x97 => Ok(QuotaExceeded)
    case 0x99 => Ok(PayloadFormatInvalid)
    case 0x9A => Ok(RetainNotSupported)
    case 0x9B => Ok(QosNotSupported)
    case 0x9C => Ok(UseAnotherServer)
    case 0x9D => Ok(ServerMoved)
    case 0x9F => Ok(ConnectionRateExceeded)
    case _ => Err(v)
  }

  /** Every listed variant survives the trip through its wire value. */
  lemma TryFromCode(c: ReasonCode)
    ensures Code(c) in Codes
    ensures TryFrom(Code(c)) == Ok(c)
  {
    match c
    case Success =>
    case UnspecifiedError =>
    case MalformedPacket =>
    case ProtocolError =>
    case ImplementationSpecificError =>
    case UnsupportedProtocolVersion =>
    case ClientIdentifierNotValid =>
    case BadUsernameOrPassword =>
    case NotAuthorized =>
    case ServerUnavailable =>
    case ServerBusy =>
    case Banned =>
    case BadAuthenticationMethod =>
    case TopicNameInvalid =>
    case PacketTooLarge =>
    case QuotaExceeded =>
    case PayloadFormatInvalid =>
    case RetainNotSupported =>
    case QosNotSupported =>
    case UseAnotherServer =>
    case ServerMoved =>
    case ConnectionRateExceeded =>
  }

  /** A byte that is no variant's discriminant is returned unchanged, and a
      byte that is one maps to exactly that variant. */
  lemma TryFromUnlisted(v: Byte)
    ensures TryFrom(v) == Err(v) <==> forall c :: Code(c) != v
  {
    if TryFrom(v).Ok? {
      assert Code(TryFrom(v).value) == v;
    } else {
      forall c ensures Code(c) != v {
        TryFromCode(c);
      }
    }
  }

  /** Discriminants are distinct, so the code is determined by its byte. */
  lemma CodeInjective(c: ReasonCode, d: ReasonCode)
    requires Code(c) == Code(d)
    ensures c == d
  {
    TryFromCode(c);
    TryFromCode(d);
  }

  // ---------------------------------------------------------------- PUBLISH

  /** The topic and payload a PUBLISH packet carries. */
  datatype Message = Message(topic: Bytes, payload: Bytes)

  /** Builds the QoS-0 PUBLISH packet for `topic` and `payload`: a two-byte
      fixed header, the topic with its big-endian length, a two-byte property
      list holding the payload-format indicator (UTF-8), then the payload.
      The Rust code asserts that the remaining length fits below 255. */
  method Publish(topic: Bytes, payload: Bytes) returns (buf: Bytes)
    requires |topic| + |payload| + 5 < 255
    ensures |buf| == 2 + (|topic| + |payload| + 5)
    ensures buf[0] == 0x30 && buf[1] == |topic| + |payload| + 5
    ensures buf[2] == 0 && buf[3] == |topic|
    ensures buf[4..4 + |topic|] == topic
    ensures buf[4 + |topic|..7 + |topic|] == [0x02, 0x01, 0x01]
    ensures buf[7 + |topic|..] == payload
    ensures ParsePublish(buf) == Some(Message(topic, payload))
  {
    var packetLen := |topic| + |payload| + 2 + 1 + 2;
    buf := [];
    buf := buf + [PUBLISH * 16];
    buf := buf + [packetLen];
    buf := buf + BigEndian16(|topic|);
    buf := buf + topic;
    buf := buf + [2];     // property length
    buf := buf + [0x01];  // payload format indicator
    buf := buf + [0x01];  // UTF-8 payload
    buf := buf + payload;
    assert buf[4..4 + |topic|] == topic;
    assert buf[4 + |topic|..7 + |topic|] == [0x02, 0x01, 0x01];
    assert buf[7 + |topic|..] == payload;
  }

  /** Reads a PUBLISH packet of the shape `Publish` produces back into its
      topic and payload, or None when `buf` does not have that shape. */
  function ParsePublish(buf: Bytes): (r: Option<Message>)
    ensures r.Some? ==> |r.value.topic| + |r.value.payload| + 5 < 255
  {
    if |buf| >= 7 && buf[0] == PUBLISH * 16 && buf[1] == |buf| - 2 && buf[1] < 255 then
      var topicLen := 256 * (buf[2] as int) + buf[3];
      if 7 + topicLen <= |buf| && buf[4 + topicLen..7 + topicLen] == [0x02, 0x01, 0x01]
      then Some(Message(buf[4..4 + topicLen], buf[7 + topicLen..]))
      else None
    else None
  }

  /** A buffer the parser accepts is exactly the encoding of what it
      yields, so `Publish` and `ParsePublish` are mutually inverse. */
  lemma ParsePublishExact(buf: Bytes)
    requires ParsePublish(buf).Some?
    ensures var m := ParsePublish(buf).value;
      buf == [0x30, |m.topic| + |m.payload| + 5, 0, |m.topic|] + m.topic + [0x02, 0x01, 0x01] + m.payload
  {
    var m := ParsePublish(buf).value;
    var t := |m.topic|;
    assert buf[2] == 0;
    assert buf == buf[..4] + buf[4..4 + t] + buf[4 + t..7 + t] + buf[7 + t..];
  }
}
