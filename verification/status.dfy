/** The firmware's status codes. Each module owns its own error codes; the
    numeric value of a status is what a response packet carries in its first
    data byte. The header that numbers them is not part of this model, so the
    numbering below is a model choice that keeps `STATUS_OK` at zero and every
    code distinct. */
module StatusCodes {
  import opened Common
  import Endian

  datatype Status =
    | Ok
      // circular buffer
    | CbufFull
    | CbufEmpty
    | CbufBufferOverflow
      // space packet
    | SpBufferOverflow
    | SpBufferUnderflow
    | SpInvalidApid
    | SpInvalidApidHandler
    | SpInvalidChecksum
    | SpInvalidSecHdr
    | SpInvalidType
    | SpInvalidVersion
      // parameter registry
    | ParamInvalidHandlerRegistration
    | ParamInvalidParameterId
    | ParamInvalidPayloadSize
      // telemetry registry
    | TlmInvalidHandlerRegistration
    | TlmInvalidPayloadSize
    | TlmInvalidTelemetryId
      // action registry
    | ActionInvalidActionId
    | ActionInvalidHandlerRegistration
    | ActionInvalidPayloadSize

  /** `(uint8_t)status`: the byte a status is reported as. Decoding the byte
      gives the status back, so distinct statuses report distinct bytes, and
      only `STATUS_OK` reports zero. */
  function Code(s: Status): (c: byte)
    ensures FromCode(c) == Some(s)
    ensures (c == 0) == (s == Ok)
  {
    match s
    case Ok => 0
    case CbufFull => 1
    case CbufEmpty => 2
    case CbufBufferOverflow => 3
    case SpBufferOverflow => 4
    case SpBufferUnderflow => 5
    case SpInvalidApid => 6
    case SpInvalidApidHandler => 7
    case SpInvalidChecksum => 8
    case SpInvalidSecHdr => 9
    case SpInvalidType => 10
    case SpInvalidVersion => 11
    case ParamInvalidHandlerRegistration => 12
    case ParamInvalidParameterId => 13
    case ParamInvalidPayloadSize => 14
    case TlmInvalidHandlerRegistration => 15
    case TlmInvalidPayloadSize => 16
    case TlmInvalidTelemetryId => 17
    case ActionInvalidActionId => 18
    case ActionInvalidHandlerRegistration => 19
    case ActionInvalidPayloadSize => 20
  }

  /** The status a reported byte stands for, if any. */
  function FromCode(c: byte): Option<Status>
  {
    match c
    case 0 => Some(Ok)
    case 1 => Some(CbufFull)
    case 2 => Some(CbufEmpty)
    case 3 => Some(CbufBufferOverflow)
    case 4 => Some(SpBufferOverflow)
    case 5 => Some(SpBufferUnderflow)
    case 6 => Some(SpInvalidApid)
    case 7 => Some(SpInvalidApidHandler)
    case 8 => Some(SpInvalidChecksum)
    case 9 => Some(SpInvalidSecHdr)
    case 10 => Some(SpInvalidType)
    case 11 => Some(SpInvalidVersion)
    case 12 => Some(ParamInvalidHandlerRegistration)
    case 13 => Some(ParamInvalidParameterId)
    case 14 => Some(ParamInvalidPayloadSize)
    case 15 => Some(TlmInvalidHandlerRegistration)
    case 16 => Some(TlmInvalidPayloadSize)
    case 17 => Some(TlmInvalidTelemetryId)
    case 18 => Some(ActionInvalidActionId)
    case 19 => Some(ActionInvalidHandlerRegistration)
    case 20 => Some(ActionInvalidPayloadSize)
    case _ => None
  }

  /** A value, or the status that explains why there is none. */
  datatype Result<T> = Success(value: T) | Failure(status: Status)

  /** What a command handler hands back: its status and the bytes it wrote
      to the caller's output buffer (none when it wrote nothing; the only
      caller zeroes the output size before the call). */
  datatype Reply = Reply(status: Status, data: seq<byte>)

  /** A command handler, `status_t (*)(size_t, uint8_t const *, size_t *,
      uint8_t *)`, taking the request payload. Its effect on device state is
      not modelled. */
  type Handler = seq<byte> -> Reply

  /** A getter's reply carrying a 32-bit value: status OK, size 4, the
      value in network order. */
  function Word(value: u32): (r: Reply)
    ensures r.status == Ok && |r.data| == 4 && Endian.FromNetwork(r.data) == value
  {
    Endian.FromToNetwork(value);
    Reply(Ok, Endian.ToNetwork(value))
  }
}
