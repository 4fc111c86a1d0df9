/**
 * Network messages describing peers (src/network/message_network.rs): the `version` message,
 * encoded as its nine fields in wire order by `impl_consensus_encoding`, and the one-byte
 * `RejectReason` code.
 */
module MessageNetwork {
  import opened Integers
  import opened Wrappers
  import opened Errors
  import opened RecordCodec
  import Constants

  /** A bitmask of the services a node supports; its definition is not part of this model. */
  type ServiceFlags(==, !new)

  /** A peer's network address; its definition is not part of this model. */
  type Address(==, !new)

  /** The `version` message. */
  datatype VersionMessage = VersionMessage(
    version: u32,
    services: ServiceFlags,
    timestamp: i64,
    receiver: Address,
    sender: Address,
    nonce: u64,
    userAgent: string,
    startHeight: i32,
    relay: bool)

  /** `VersionMessage::new`: the current protocol version, no relay, the other fields as given. */
  function NewVersionMessage(services: ServiceFlags, timestamp: i64, receiver: Address, sender: Address,
                             nonce: u64, userAgent: string, startHeight: i32): (m: VersionMessage)
    ensures m.version == Constants.PROTOCOL_VERSION == 70001
    ensures !m.relay
    ensures m.services == services && m.timestamp == timestamp && m.receiver == receiver
    ensures m.sender == sender && m.nonce == nonce && m.userAgent == userAgent && m.startHeight == startHeight
  {
    VersionMessage(Constants.PROTOCOL_VERSION, services, timestamp, receiver, sender, nonce, userAgent, startHeight, false)
  }

  /** One field of a `version` message, tagged with its name. */
  datatype VersionField =
    | Version(version: u32)
    | Services(services: ServiceFlags)
    | Timestamp(timestamp: i64)
    | Receiver(receiver: Address)
    | Sender(sender: Address)
    | Nonce(nonce: u64)
    | UserAgent(userAgent: string)
    | StartHeight(startHeight: i32)
    | Relay(relay: bool)

  /** The field's position in the wire order of `impl_consensus_encoding!(VersionMessage, …)`. */
  function Slot(f: VersionField): int
  {
    match f
    case Version(_) => 0
    case Services(_) => 1
    case Timestamp(_) => 2
    case Receiver(_) => 3
    case Sender(_) => 4
    case Nonce(_) => 5
    case UserAgent(_) => 6
    case StartHeight(_) => 7
    case Relay(_) => 8
  }

  /** A sequence holding one field of each name, in wire order. */
  predicate InWireOrder(fs: seq<VersionField>)
  {
    |fs| == 9 && forall i :: 0 <= i < 9 ==> Slot(fs[i]) == i
  }

  /** The message's fields in wire order: version, services, timestamp, receiver, sender, nonce,
    * user_agent, start_height, relay. */
  function Fields(m: VersionMessage): (fs: seq<VersionField>)
    ensures InWireOrder(fs)
  {
    [Version(m.version), Services(m.services), Timestamp(m.timestamp), Receiver(m.receiver),
     Sender(m.sender), Nonce(m.nonce), UserAgent(m.userAgent), StartHeight(m.startHeight), Relay(m.relay)]
  }

  /** The message assembled from its fields in wire order (the struct literal of the decoder). */
  function FromFields(fs: seq<VersionField>): (m: VersionMessage)
    requires InWireOrder(fs)
    ensures Fields(m) == fs
  {
    assert Slot(fs[0]) == 0 && Slot(fs[1]) == 1 && Slot(fs[2]) == 2 && Slot(fs[3]) == 3 && Slot(fs[4]) == 4;
    assert Slot(fs[5]) == 5 && Slot(fs[6]) == 6 && Slot(fs[7]) == 7 && Slot(fs[8]) == 8;
    VersionMessage(fs[0].version, fs[1].services, fs[2].timestamp, fs[3].receiver, fs[4].sender,
                   fs[5].nonce, fs[6].userAgent, fs[7].startHeight, fs[8].relay)
  }

  /** Splitting a message into its fields and assembling them again gives the message back. */
  lemma FromFieldsOfFields(m: VersionMessage)
    ensures FromFields(Fields(m)) == m
  {
  }

  /** Field codec i reads and writes values of the type of field i (what Rust's typing guarantees). */
  ghost predicate TypedCodecs(codecs: seq<FieldCodec<VersionField>>)
  {
    |codecs| == 9 &&
    forall i, input :: 0 <= i < 9 && codecs[i].decode(input).Decoded? ==> Slot(codecs[i].decode(input).value) == i
  }

  /** `consensus_encode` of a `version` message. */
  function EncodeVersionMessage(codecs: seq<FieldCodec<VersionField>>, m: VersionMessage): (s: EncodeStep)
    requires TypedCodecs(codecs)
    ensures s.Wrote? <==> forall i :: 0 <= i < 9 ==> codecs[i].encode(Fields(m)[i]).Wrote?
  {
    EncodeFields(codecs, Fields(m))
  }

  /** `consensus_decode` of a `version` message. */
  function DecodeVersionMessage(codecs: seq<FieldCodec<VersionField>>, input: seq<u8>): (s: DecodeStep<VersionMessage>)
    requires TypedCodecs(codecs) && AllReadWithin(codecs)
    ensures s.consumed <= |input|
    ensures s.Decoded? <==> DecodeFields(codecs, input).Decoded?
    ensures s.Decoded? ==> Fields(s.value) == DecodeFields(codecs, input).value
    ensures s.DecodeFailed? ==> s.error == DecodeFields(codecs, input).error
  {
    match DecodeFields(codecs, input)
    case DecodeFailed(k, e) => DecodeFailed(k, e)
    case Decoded(fs, k) =>
      DecodedFieldsSatisfy(codecs, input, Slot);
      Decoded(FromFields(fs), k)
  }

  /** With round-tripping field codecs, a decoded encoded `version` message is the message itself. */
  lemma VersionMessageRoundTrip(codecs: seq<FieldCodec<VersionField>>, m: VersionMessage, rest: seq<u8>)
    requires TypedCodecs(codecs) && AllReadWithin(codecs) && AllRoundTrip(codecs)
    requires EncodeVersionMessage(codecs, m).Wrote?
    ensures DecodeVersionMessage(codecs, EncodeVersionMessage(codecs, m).bytes + rest)
         == Decoded(m, |EncodeVersionMessage(codecs, m).bytes|)
  {
    RecordRoundTrip(codecs, Fields(m), rest);
    FromFieldsOfFields(m);
  }

  /** Why a peer rejected one of our messages. */
  datatype RejectReason = Malformed | Invalid | Obsolete | Duplicate | NonStandard | Dust | Fee | Checkpoint

  /** The discriminant of each reason, which is its wire byte. */
  function Code(r: RejectReason): (b: u8)
    ensures 0x01 <= b <= 0x43
  {
    match r
    case Malformed => 0x01
    case Invalid => 0x10
    case Obsolete => 0x11
    case Duplicate => 0x12
    case NonStandard => 0x40
    case Dust => 0x41
    case Fee => 0x42
    case Checkpoint => 0x43
  }

  /** Distinct reasons have distinct codes. */
  lemma CodeInjective(a: RejectReason, b: RejectReason)
    ensures Code(a) == Code(b) ==> a == b
  {
  }

  /** `consensus_encode`: the single byte of the reason's code, counted as 1. */
  function EncodeRejectReason(r: RejectReason): (s: EncodeStep)
    ensures s.Wrote? && s.count == 1 == |s.bytes|
    ensures s.bytes[0] == Code(r)
  {
    Wrote([Code(r)], 1)
  }

  /** The error for a byte that is no reason's code. */
  const UNKNOWN_REJECT_CODE: Error := ParseFailed("unknown reject code")

  /** `consensus_decode`: read one byte and map it back to its reason. */
  function DecodeRejectReason(input: seq<u8>): (s: DecodeStep<RejectReason>)
    ensures s.consumed <= |input|
    ensures s.Decoded? ==> |input| > 0 && s.consumed == 1 && Code(s.value) == input[0]
    ensures s.DecodeFailed? && |input| > 0 ==> forall r :: Code(r) != input[0]
    ensures |input| == 0 ==> s == DecodeFailed(0, END_OF_INPUT)
    ensures |input| > 0 && s.DecodeFailed? ==> s == DecodeFailed(1, UNKNOWN_REJECT_CODE)
  {
    if |input| == 0 then DecodeFailed(0, END_OF_INPUT)
    else
      match input[0]
      case 0x01 => Decoded(Malformed, 1)
      case 0x10 => Decoded(Invalid, 1)
      case 0x11 => Decoded(Obsolete, 1)
      case 0x12 => Decoded(Duplicate, 1)
      case 0x40 => Decoded(NonStandard, 1)
      case 0x41 => Decoded(Dust, 1)
      case 0x42 => Decoded(Fee, 1)
      case 0x43 => Decoded(Checkpoint, 1)
      case _ => DecodeFailed(1, UNKNOWN_REJECT_CODE)
  }

  /** Decoding the encoding of a reason gives the reason back, whatever follows it. */
  lemma RejectReasonRoundTrip(r: RejectReason, rest: seq<u8>)
    ensures DecodeRejectReason(EncodeRejectReason(r).bytes + rest) == Decoded(r, 1)
  {
    var input := EncodeRejectReason(r).bytes + rest;
    assert input[0] == Code(r);
    CodeInjective(r, DecodeRejectReason(input).value);
  }

  /** The reason's codec, as a field of a record. */
  const REJECT_REASON_CODEC: FieldCodec<RejectReason> := FieldCodec(EncodeRejectReason, DecodeRejectReason)

  /** The reason's codec may serve as a field codec of a record: it round-trips and reads within its input. */
  lemma RejectReasonCodecFits()
    ensures RoundTrips(REJECT_REASON_CODEC) && ReadsWithin(REJECT_REASON_CODEC)
  {
    var c := REJECT_REASON_CODEC;
    assert c.encode == EncodeRejectReason && c.decode == DecodeRejectReason;
    forall r, rest: seq<u8> ensures DecodeRejectReason(EncodeRejectReason(r).bytes + rest) == Decoded(r, 1) {
      RejectReasonRoundTrip(r, rest);
    }
  }
}
