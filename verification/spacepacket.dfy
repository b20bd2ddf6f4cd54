/** The CCSDS space packet layer (CCSDS 133.0-B-2, section 4.1.3): the
    six-byte primary header, the request validator with its sequence and
    checksum counters, and the request-to-response processing that hands the
    payload to the handler registered for the packet's APID. Requests carry a
    one-byte additive checksum after the data; responses do not. */
module SpacePacket {
  import opened Common
  import opened StatusCodes
  import Endian

  const VERSION: nat := 0
  const TYPE_TM: nat := 0
  const TYPE_TC: nat := 1
  const SEC_HDR_DISABLED: nat := 0
  const HDR_SIZE: nat := 6
  const DATA_MAX_SIZE: nat := 6
  const CHECKSUM_SIZE: nat := 1
  const SEQ_FLAGS_UNSEGMENTED: nat := 3

  /** The sequence count is a 14-bit field. */
  const SEQ_COUNT_MODULUS: nat := 0x4000

  /** The accepted APID range. The configuration header that sets it is not
      part of this model: the lower bound is taken as 0 and the upper bound
      as the last index of the 256-entry handler table. */
  const MIN_APID: nat := 0
  const MAX_APID: nat := 255

  /** `APID_HANDLER_MAP_SIZE`. */
  const APID_MAP_SIZE: nat := 256

  /** `spacepacket_hdr_t`. */
  datatype Header = Header(
    version: nat, kind: nat, secHdr: nat, apid: nat,
    sequenceFlags: nat, sequenceCount: nat, dataLength: nat)

  /** Every field fits its width in the primary header: 3, 1, 1, 11, 2, 14
      and 16 bits. */
  predicate Fits(h: Header)
  {
    && h.version < 8 && h.kind < 2 && h.secHdr < 2 && h.apid < 0x800
    && h.sequenceFlags < 4 && h.sequenceCount < SEQ_COUNT_MODULUS && h.dataLength < 0x1_0000
  }

  /** `parse_hdr`: fewer than six bytes is an underflow; otherwise the seven
      fields are read from the first six bytes, most significant bit first,
      and each fits its width. */
  function ParseHdr(buffer: seq<byte>): (r: Result<Header>)
    ensures r.Failure? == (|buffer| < HDR_SIZE)
    ensures r.Failure? ==> r.status == SpBufferUnderflow
    ensures r.Success? ==> Fits(r.value)
  {
    if |buffer| < HDR_SIZE then
      Failure(SpBufferUnderflow)
    else
      Success(Header(
        buffer[0] / 32, (buffer[0] / 16) % 2, (buffer[0] / 8) % 2,
        (buffer[0] % 8) as int * 0x100 + buffer[1],
        buffer[2] / 64, (buffer[2] % 64) as int * 0x100 + buffer[3],
        buffer[4] as int * 0x100 + buffer[5]))
  }

  /** The first header byte: version, type, secondary-header flag and the
      top three APID bits, each masked to its field. */
  function Byte0(h: Header): byte
  {
    (h.version % 8) * 32 + (h.kind % 2) * 16 + (h.secHdr % 2) * 8 + (h.apid / 0x100) % 8
  }

  /** The six header bytes with the sequence flags in the top two bits of
      byte 2, as the header layout places them. */
  function HeaderBytes(h: Header): (b: seq<byte>)
    ensures |b| == HDR_SIZE
  {
    [Byte0(h), h.apid % 0x100,
     (h.sequenceFlags % 4) * 64 + (h.sequenceCount / 0x100) % 64, h.sequenceCount % 0x100,
     (h.dataLength / 0x100) % 0x100, h.dataLength % 0x100]
  }

  /** The six header bytes as `build_packet` writes them: byte 2 is first
      set to the flags and then overwritten by the count's top bits. */
  function HeaderBytesAsWritten(h: Header): (b: seq<byte>)
    ensures |b| == HDR_SIZE
    ensures b[..2] == HeaderBytes(h)[..2] && b[3..] == HeaderBytes(h)[3..]
    ensures b[2] == HeaderBytes(h)[2] % 64
  {
    [Byte0(h), h.apid % 0x100,
     (h.sequenceCount / 0x100) % 64, h.sequenceCount % 0x100,
     (h.dataLength / 0x100) % 0x100, h.dataLength % 0x100]
  }

  /** Reading back the first byte gives the first four fields. */
  lemma Byte0Parts(h: Header)
    requires Fits(h)
    ensures Byte0(h) / 32 == h.version
    ensures (Byte0(h) / 16) % 2 == h.kind
    ensures (Byte0(h) / 8) % 2 == h.secHdr
    ensures Byte0(h) % 8 == h.apid / 0x100
  {
    var a := h.apid / 0x100;
    DivMod(h.apid, 0x100, a, h.apid % 0x100);
    var b := Byte0(h) as int;
    DivMod(b, 32, h.version, h.kind * 16 + h.secHdr * 8 + a);
    DivMod(b, 16, h.version * 2 + h.kind, h.secHdr * 8 + a);
    DivMod(h.version * 2 + h.kind, 2, h.version, h.kind);
    DivMod(b, 8, h.version * 4 + h.kind * 2 + h.secHdr, a);
    DivMod(h.version * 4 + h.kind * 2 + h.secHdr, 2, h.version * 2 + h.kind, h.secHdr);
  }

  /** A byte is its four first-byte fields put back together. */
  lemma Byte0OfParts(b: byte)
    ensures b == (b / 32) * 32 + ((b / 16) % 2) * 16 + ((b / 8) % 2) * 8 + b % 8
  {
    var p := b / 8;
    DivMod(b, 16, p / 2, (p % 2) * 8 + b % 8);
    DivMod(b, 32, p / 2 / 2, ((p / 2) % 2) * 16 + (p % 2) * 8 + b % 8);
  }

  /** The last three fields, each split over two bytes, read back whole. */
  lemma SplitParts(h: Header)
    requires Fits(h)
    ensures ((h.sequenceFlags % 4) * 64 + (h.sequenceCount / 0x100) % 64) / 64 == h.sequenceFlags
    ensures ((h.sequenceFlags % 4) * 64 + (h.sequenceCount / 0x100) % 64) % 64 == h.sequenceCount / 0x100
    ensures ((h.sequenceCount / 0x100) % 64) % 64 == h.sequenceCount / 0x100
    ensures (h.dataLength / 0x100) % 0x100 == h.dataLength / 0x100
    ensures (h.apid / 0x100) % 8 == h.apid / 0x100
  {
    DivMod(h.sequenceCount, 0x100, h.sequenceCount / 0x100, h.sequenceCount % 0x100);
    DivMod(h.sequenceCount / 0x100, 64, 0, h.sequenceCount / 0x100);
    DivMod(h.sequenceFlags * 64 + h.sequenceCount / 0x100, 64, h.sequenceFlags, h.sequenceCount / 0x100);
    DivMod(h.dataLength / 0x100, 0x100, 0, h.dataLength / 0x100);
    DivMod(h.apid / 0x100, 8, 0, h.apid / 0x100);
  }

  /** Parsing the header bytes of a header gives the header back. */
  lemma ParseHeaderBytes(h: Header)
    requires Fits(h)
    ensures ParseHdr(HeaderBytes(h)) == Success(h)
  {
    var b := HeaderBytes(h);
    Byte0Parts(h);
    SplitParts(h);
    var p := ParseHdr(b).value;
    assert p.version == h.version && p.kind == h.kind && p.secHdr == h.secHdr;
    assert p.apid == h.apid;
    assert p.sequenceFlags == h.sequenceFlags;
    assert p.sequenceCount == h.sequenceCount;
    assert p.dataLength == h.dataLength;
  }

  /** Building from a parsed header gives the six bytes back. */
  lemma HeaderBytesOfParse(b: seq<byte>)
    requires |b| == HDR_SIZE
    ensures HeaderBytes(ParseHdr(b).value) == b
  {
    var h := ParseHdr(b).value;
    DivMod(h.apid, 0x100, b[0] % 8, b[1]);
    DivMod(h.sequenceCount, 0x100, b[2] % 64, b[3]);
    DivMod(h.dataLength, 0x100, b[4], b[5]);
    SplitParts(h);
    Byte0OfParse(b);
    var r := HeaderBytes(h);
    assert r[1] == b[1];
    assert r[2] == b[2] && r[3] == b[3];
    assert r[4] == b[4] && r[5] == b[5];
  }

  /** The first byte of a parsed header is rebuilt exactly. */
  lemma Byte0OfParse(b: seq<byte>)
    requires |b| == HDR_SIZE
    ensures Byte0(ParseHdr(b).value) == b[0]
  {
    var h := ParseHdr(b).value;
    DivMod(h.apid, 0x100, b[0] % 8, b[1]);
    DivMod(h.version, 8, 0, h.version);
    DivMod(h.kind, 2, 0, h.kind);
    DivMod(h.secHdr, 2, 0, h.secHdr);
    DivMod(b[0] % 8, 8, 0, b[0] % 8);
    assert Byte0(h) == h.version * 32 + h.kind * 16 + h.secHdr * 8 + b[0] % 8;
    Byte0OfParts(b[0]);
  }

  /** With the header as written, parsing gives back every field but the
      sequence flags, which come back as 0. */
  lemma ParseHeaderBytesAsWritten(h: Header)
    requires Fits(h)
    ensures ParseHdr(HeaderBytesAsWritten(h)) == Success(h.(sequenceFlags := 0))
  {
    Byte0Parts(h);
    SplitParts(h);
    DivMod((h.sequenceCount / 0x100) % 64, 64, 0, h.sequenceCount / 0x100);
  }

  /** The response header of every processed packet is marked unsegmented,
      yet the written bytes say "continuation segment". */
  lemma UnsegmentedFlagsLost()
    ensures var h := Header(VERSION, TYPE_TM, SEC_HDR_DISABLED, 1, SEQ_FLAGS_UNSEGMENTED, 5, 0);
      ParseHdr(HeaderBytesAsWritten(h)).value.sequenceFlags == 0
  {
  }

  /** `build_packet` with byte 2 carrying both the flags and the count: the
      header, then the data. The firmware asserts a telemetry header whose
      data length is one less than the data size, which is below
      `SPACEPACKET_DATA_MAX_SIZE`. */
  function BuildPacket(h: Header, data: seq<byte>): (r: seq<byte>)
    requires |data| < DATA_MAX_SIZE && h.dataLength + 1 == |data| && h.kind == TYPE_TM
    ensures |r| == |data| + HDR_SIZE && r[HDR_SIZE..] == data
    ensures Fits(h) ==> ParseHdr(r) == Success(h)
  {
    assert Fits(h) ==> ParseHdr(HeaderBytes(h) + data) == Success(h) by {
      if Fits(h) {
        ParseHeaderBytes(h);
        assert (HeaderBytes(h) + data)[..HDR_SIZE] == HeaderBytes(h);
      }
    }
    HeaderBytes(h) + data
  }

  /** `build_packet` as written. */
  function BuildPacketAsWritten(h: Header, data: seq<byte>): (r: seq<byte>)
    requires |data| < DATA_MAX_SIZE && h.dataLength + 1 == |data| && h.kind == TYPE_TM
    ensures |r| == |data| + HDR_SIZE && r[HDR_SIZE..] == data
    ensures Fits(h) ==> ParseHdr(r) == Success(h.(sequenceFlags := 0))
  {
    assert Fits(h) ==> ParseHdr(HeaderBytesAsWritten(h) + data) == Success(h.(sequenceFlags := 0)) by {
      if Fits(h) {
        ParseHeaderBytesAsWritten(h);
        assert (HeaderBytesAsWritten(h) + data)[..HDR_SIZE] == HeaderBytesAsWritten(h);
      }
    }
    HeaderBytesAsWritten(h) + data
  }

  /** The three counters reported as telemetry. The last received count is
      a `uint16_t` that only ever holds 14-bit counts. */
  datatype Counters = Counters(outOfSeq: u32, csumErrors: u32, lastSeq: SeqCount)

  type SeqCount = n: nat | n < SEQ_COUNT_MODULUS

  /** The counters at reset. */
  const Reset: Counters := Counters(0, 0, 0)

  /** The header checks of `validate_hdr`: each check has its own status and
      is reached only when the checks before it pass. */
  function HeaderStatus(h: Header): (s: Status)
    ensures (s == SpInvalidVersion) == (h.version != VERSION)
    ensures (s == SpInvalidType) == (h.version == VERSION && h.kind != TYPE_TC)
    ensures (s == SpInvalidSecHdr) ==
      (h.version == VERSION && h.kind == TYPE_TC && h.secHdr != SEC_HDR_DISABLED)
    ensures (s == SpInvalidApid) ==
      (h.version == VERSION && h.kind == TYPE_TC && h.secHdr == SEC_HDR_DISABLED
       && !(MIN_APID <= h.apid <= MAX_APID))
    ensures (s == SpBufferOverflow) ==
      (h.version == VERSION && h.kind == TYPE_TC && h.secHdr == SEC_HDR_DISABLED
       && MIN_APID <= h.apid <= MAX_APID && h.dataLength > DATA_MAX_SIZE)
    ensures (s == Ok) ==
      (h.version == VERSION && h.kind == TYPE_TC && h.secHdr == SEC_HDR_DISABLED
       && MIN_APID <= h.apid <= MAX_APID && h.dataLength <= DATA_MAX_SIZE)
  {
    if h.version != VERSION then SpInvalidVersion
    else if h.kind != TYPE_TC then SpInvalidType
    else if h.secHdr != SEC_HDR_DISABLED then SpInvalidSecHdr
    else if h.apid < MIN_APID || h.apid > MAX_APID then SpInvalidApid
    else if h.dataLength > DATA_MAX_SIZE then SpBufferOverflow
    else Ok
  }

  /** A status and the counters after a check. */
  datatype Checked = Checked(status: Status, counters: Counters)

  /** The sequence bookkeeping of an accepted header: count it out of
      sequence unless it is `expected`, and remember its count. */
  function Track(t: Counters, count: SeqCount, expected: nat): (r: Counters)
    ensures r.lastSeq == count && r.csumErrors == t.csumErrors
    ensures count == expected ==> r.outOfSeq == t.outOfSeq
    ensures count != expected ==> r.outOfSeq == IncU32(t.outOfSeq)
  {
    t.(outOfSeq := if count != expected then IncU32(t.outOfSeq) else t.outOfSeq,
       lastSeq := count)
  }

  /** `validate_hdr` as written: the expected count is the last one plus
      one, computed without wrapping. */
  function ValidateHdrAsWritten(h: Header, t: Counters): (r: Checked)
    requires Fits(h)
    ensures r.status == HeaderStatus(h)
    ensures r.status != Ok ==> r.counters == t
    ensures r.status == Ok ==>
      && r.counters.lastSeq == h.sequenceCount
      && r.counters.csumErrors == t.csumErrors
      && (r.counters.outOfSeq == t.outOfSeq <==> h.sequenceCount == t.lastSeq + 1)
      && r.counters == Track(t, h.sequenceCount, t.lastSeq + 1)
  {
    var s := HeaderStatus(h);
    if s != Ok then Checked(s, t) else Checked(Ok, Track(t, h.sequenceCount, t.lastSeq + 1))
  }

  /** After count 16383 the next count of a 14-bit counter is 0, yet the
      code as written counts it out of sequence. */
  lemma SequenceWrapCountedAsWritten()
    ensures var h := Header(VERSION, TYPE_TC, SEC_HDR_DISABLED, 1, SEQ_FLAGS_UNSEGMENTED, 0, 0);
      var t := Counters(0, 0, SEQ_COUNT_MODULUS - 1);
      ValidateHdrAsWritten(h, t).counters.outOfSeq == 1
  {
  }

  /** `validate_hdr` with the expected count wrapping at 14 bits: a
      rejected header changes nothing; an accepted one becomes the last
      count seen, and counts as out of sequence exactly when it does not
      follow the last count modulo 2^14. */
  function ValidateHdr(h: Header, t: Counters): (r: Checked)
    requires Fits(h)
    ensures r.status == HeaderStatus(h)
    ensures r.status != Ok ==> r.counters == t
    ensures r.status == Ok ==>
      && r.counters.lastSeq == h.sequenceCount
      && r.counters.csumErrors == t.csumErrors
      && (r.counters.outOfSeq == t.outOfSeq
          <==> h.sequenceCount == (t.lastSeq + 1) % SEQ_COUNT_MODULUS)
      && r.counters == Track(t, h.sequenceCount, (t.lastSeq + 1) % SEQ_COUNT_MODULUS)
  {
    var s := HeaderStatus(h);
    if s != Ok then Checked(s, t)
    else Checked(Ok, Track(t, h.sequenceCount, (t.lastSeq + 1) % SEQ_COUNT_MODULUS))
  }

  /** The two validators differ only at the wrap of the sequence count. */
  lemma ValidateHdrAgrees(h: Header, t: Counters)
    requires Fits(h) && t.lastSeq + 1 < SEQ_COUNT_MODULUS
    ensures ValidateHdrAsWritten(h, t) == ValidateHdr(h, t)
  {
  }

  /** A run of consecutive counts, wrapping at 2^14, is never counted out of
      sequence. */
  lemma InSequenceNotCounted(h: Header, t: Counters)
    requires Fits(h) && HeaderStatus(h) == Ok
    requires h.sequenceCount == (t.lastSeq + 1) % SEQ_COUNT_MODULUS
    ensures ValidateHdr(h, t).counters.outOfSeq == t.outOfSeq
  {
  }

  /** The sum of the bytes of `s`. */
  function Sum(s: seq<byte>): nat
  {
    if |s| == 0 then 0 else Sum(s[..|s| - 1]) + s[|s| - 1]
  }

  /** The last byte is the sum, modulo 256, of all the bytes before it. */
  predicate ChecksumOk(buffer: seq<byte>)
    requires |buffer| > CHECKSUM_SIZE
  {
    buffer[|buffer| - 1] == Sum(buffer[..|buffer| - 1]) % 256
  }

  /** `validate_checksum`: the running `uint8_t` sum of the bytes before the
      last, compared with the last. */
  method ValidateChecksum(buffer: seq<byte>) returns (ok: bool)
    requires |buffer| > CHECKSUM_SIZE
    ensures ok == ChecksumOk(buffer)
  {
    var csumIdx := |buffer| - CHECKSUM_SIZE;
    var csum: byte := 0;
    var i := 0;
    while i < csumIdx
      invariant 0 <= i <= csumIdx
      invariant csum == Sum(buffer[..i]) % 256
    {
      assert buffer[..i + 1][..i] == buffer[..i];
      csum := (csum + buffer[i]) % 256;
      i := i + 1;
    }
    assert buffer[..csumIdx] == buffer[..|buffer| - 1];
    ok := csum == buffer[csumIdx];
  }

  /** Appending the sum modulo 256 seals any byte string. */
  lemma SealedChecksumOk(s: seq<byte>)
    requires |s| > 0
    ensures ChecksumOk(s + [Sum(s) % 256])
  {
    assert (s + [Sum(s) % 256])[..|s|] == s;
  }

  /** A request as a ground station sends it: header, data and checksum. */
  function Request(h: Header, data: seq<byte>): (r: seq<byte>)
    requires |data| > 0
    ensures |r| == HDR_SIZE + |data| + CHECKSUM_SIZE
    ensures r[..HDR_SIZE] == HeaderBytes(h) && r[HDR_SIZE..HDR_SIZE + |data|] == data
    ensures ChecksumOk(r)
  {
    var body := HeaderBytes(h) + data;
    SealedChecksumOk(body);
    assert (body + [Sum(body) % 256])[..HDR_SIZE] == HeaderBytes(h);
    assert (body + [Sum(body) % 256])[HDR_SIZE..HDR_SIZE + |data|] == data;
    body + [Sum(body) % 256]
  }

  /** What processing a request leads to: a status, the response bytes and
      the counters, or a halt on a failed firmware assertion. */
  datatype Processed = Processed(status: Status, response: seq<byte>, counters: Counters) | Halted

  /** The header at the front of a packet. */
  function RequestHeader(packet: seq<byte>): (h: Header)
    requires |packet| >= HDR_SIZE
    ensures Fits(h)
  {
    ParseHdr(packet[..HDR_SIZE]).value
  }

  /** `packet_size - HDR_SIZE - CHECKSUM_SIZE` in `size_t` arithmetic: a
      bare header gives 0xFFFF_FFFF. */
  function DataSize(packetSize: nat): (n: u32)
    requires HDR_SIZE <= packetSize < U32_MODULUS
    ensures packetSize > HDR_SIZE ==> n + HDR_SIZE + CHECKSUM_SIZE == packetSize
    ensures packetSize == HDR_SIZE ==> n == U32_MODULUS - 1
  {
    (packetSize - HDR_SIZE - CHECKSUM_SIZE) % U32_MODULUS
  }

  /** A packet the processor accepts up to the handler lookup: its header
      passes the checks, it carries exactly `data_length + 1` data bytes and
      its checksum holds. */
  predicate WellFormed(packet: seq<byte>)
  {
    && |packet| >= HDR_SIZE
    && HeaderStatus(RequestHeader(packet)) == Ok
    && |packet| == HDR_SIZE + RequestHeader(packet).dataLength + 1 + CHECKSUM_SIZE
    && ChecksumOk(packet)
  }

  /** The data a request carries: the `data_length + 1` bytes after the
      header. */
  function Payload(packet: seq<byte>): seq<byte>
    requires WellFormed(packet)
  {
    packet[HDR_SIZE..|packet| - CHECKSUM_SIZE]
  }

  /** The header of the response to request header `h` with `size` data
      bytes: telemetry, unsegmented, same APID and sequence count. */
  function ResponseHeader(h: Header, size: nat): (r: Header)
    requires Fits(h) && 0 < size <= 0x1_0000
    ensures Fits(r)
  {
    Header(VERSION, TYPE_TM, SEC_HDR_DISABLED, h.apid, SEQ_FLAGS_UNSEGMENTED, h.sequenceCount, size - 1)
  }

  /** The response data for a handler's reply: its status byte, then its
      output. */
  function ResponseData(reply: Reply): (d: seq<byte>)
    ensures |d| == |reply.data| + 1 && d[0] == Code(reply.status) && d[1..] == reply.data
  {
    [Code(reply.status)] + reply.data
  }

  /** The counters after an accepted header and a size check: a bad
      checksum is counted. */
  function CsumCounted(c: Counters, packet: seq<byte>): (r: Counters)
    requires |packet| > CHECKSUM_SIZE
    ensures r.lastSeq == c.lastSeq && r.outOfSeq == c.outOfSeq
    ensures ChecksumOk(packet) ==> r.csumErrors == c.csumErrors
    ensures !ChecksumOk(packet) ==> r.csumErrors == IncU32(c.csumErrors)
  {
    if ChecksumOk(packet) then c else c.(csumErrors := IncU32(c.csumErrors))
  }

  /** `spacepacket_process`. A short buffer is an underflow; a bad header
      is reported by its own status; the packet must then be exactly header,
      `data_length + 1` data bytes and checksum (a longer one is an overflow,
      a shorter one an underflow); a bad checksum is counted; an APID with no
      handler is refused. Otherwise the handler's status and output become
      the response data, and the response is built with a header that echoes
      the request's APID and sequence count. The firmware halts if that data
      reaches `SPACEPACKET_DATA_MAX_SIZE` bytes. Only the header check and
      the checksum move the counters. This is the corrected processor: it
      uses `ValidateHdr` and `BuildPacket`; `ProcessAsWritten` is the code. */
  function Process(t: Counters, packet: seq<byte>, handlers: seq<Option<Handler>>): (r: Processed)
    requires |packet| < U32_MODULUS && |handlers| == APID_MAP_SIZE
    ensures |packet| < HDR_SIZE ==> r == Processed(SpBufferUnderflow, [], t)
    ensures |packet| >= HDR_SIZE && HeaderStatus(RequestHeader(packet)) != Ok ==>
      r == Processed(HeaderStatus(RequestHeader(packet)), [], t)
    ensures |packet| >= HDR_SIZE && HeaderStatus(RequestHeader(packet)) == Ok ==>
      var c := ValidateHdr(RequestHeader(packet), t).counters;
      var sized := |packet| == HDR_SIZE + RequestHeader(packet).dataLength + 1 + CHECKSUM_SIZE;
      r.Processed? ==> r.counters == (if sized then CsumCounted(c, packet) else c)
    ensures r.Processed? && r.status != Ok ==> r.response == []
    ensures r.Processed? && r.status == Ok ==> WellFormed(packet)
    ensures r.Halted? ==> WellFormed(packet)
    ensures WellFormed(packet) ==>
      match handlers[RequestHeader(packet).apid]
      case None => r == Processed(SpInvalidApidHandler, [], ValidateHdr(RequestHeader(packet), t).counters)
      case Some(handle) =>
        var out := ResponseData(handle(Payload(packet)));
        if |out| >= DATA_MAX_SIZE then r.Halted?
        else
          && r.Processed? && r.status == Ok
          && r.counters == ValidateHdr(RequestHeader(packet), t).counters
          && ParseHdr(r.response) == Success(ResponseHeader(RequestHeader(packet), |out|))
          && r.response[HDR_SIZE..] == out
  {
    if |packet| < HDR_SIZE then
      Processed(SpBufferUnderflow, [], t)
    else
      var h := RequestHeader(packet);
      var v := ValidateHdr(h, t);
      if v.status != Ok then
        Processed(v.status, [], t)
      else if DataSize(|packet|) != h.dataLength + 1 then
        Processed(if DataSize(|packet|) > h.dataLength then SpBufferOverflow else SpBufferUnderflow,
                  [], v.counters)
      else if !ChecksumOk(packet) then
        Processed(SpInvalidChecksum, [], CsumCounted(v.counters, packet))
      else
        match handlers[h.apid]
        case None => Processed(SpInvalidApidHandler, [], v.counters)
        case Some(handle) =>
          var out := ResponseData(handle(Payload(packet)));
          if |out| >= DATA_MAX_SIZE then Halted
          else Processed(Ok, BuildPacket(ResponseHeader(h, |out|), out), v.counters)
  }

  /** The size checks of `spacepacket_process`: after a good header, a
      packet longer than header, data and checksum is an overflow, a shorter
      one an underflow, and neither touches the checksum counter. */
  lemma SizeMismatch(t: Counters, packet: seq<byte>, handlers: seq<Option<Handler>>)
    requires |packet| < U32_MODULUS && |handlers| == APID_MAP_SIZE
    requires |packet| >= HDR_SIZE && HeaderStatus(RequestHeader(packet)) == Ok
    requires |packet| != HDR_SIZE + RequestHeader(packet).dataLength + 1 + CHECKSUM_SIZE
    ensures Process(t, packet, handlers).status ==
      if |packet| > HDR_SIZE + RequestHeader(packet).dataLength + 1 + CHECKSUM_SIZE || |packet| == HDR_SIZE
      then SpBufferOverflow else SpBufferUnderflow
    ensures Process(t, packet, handlers).counters == ValidateHdr(RequestHeader(packet), t).counters
  {
  }

  /** A request with a good header, the right size and a bad checksum is
      refused and counted. */
  lemma ChecksumRejected(t: Counters, packet: seq<byte>, handlers: seq<Option<Handler>>)
    requires |packet| < U32_MODULUS && |handlers| == APID_MAP_SIZE
    requires |packet| >= HDR_SIZE && HeaderStatus(RequestHeader(packet)) == Ok
    requires |packet| == HDR_SIZE + RequestHeader(packet).dataLength + 1 + CHECKSUM_SIZE
    requires !ChecksumOk(packet)
    ensures Process(t, packet, handlers) ==
      Processed(SpInvalidChecksum, [],
        ValidateHdr(RequestHeader(packet), t).counters.(csumErrors := IncU32(t.csumErrors)))
  {
  }

  /** End to end: a sealed request with a good header reaches the handler
      registered for its APID with exactly its data, and the response
      carries the handler's status and output under the echoed header. */
  lemma RequestServed(t: Counters, h: Header, data: seq<byte>, handle: Handler, handlers: seq<Option<Handler>>)
    requires Fits(h) && HeaderStatus(h) == Ok && |data| == h.dataLength + 1
    requires |handlers| == APID_MAP_SIZE && handlers[h.apid] == Some(handle)
    requires |handle(data).data| + 1 < DATA_MAX_SIZE
    ensures var r := Process(t, Request(h, data), handlers);
      && r.Processed? && r.status == Ok
      && ParseHdr(r.response) == Success(ResponseHeader(h, |handle(data).data| + 1))
      && r.response[HDR_SIZE..] == ResponseData(handle(data))
  {
    var p := Request(h, data);
    ParseHeaderBytes(h);
    assert RequestHeader(p) == h;
    assert Payload(p) == data;
  }

  /** `spacepacket_process` as written: the header check counts 0 after
      16383 as out of sequence, and the response is built with the flags
      lost from byte 2. */
  function ProcessAsWritten(t: Counters, packet: seq<byte>, handlers: seq<Option<Handler>>): (r: Processed)
    requires |packet| < U32_MODULUS && |handlers| == APID_MAP_SIZE
    ensures r.Processed? && r.status == Ok ==>
      && WellFormed(packet)
      && HDR_SIZE < |r.response| < HDR_SIZE + DATA_MAX_SIZE
      && var h := RequestHeader(packet);
      && ParseHdr(r.response) ==
           Success(ResponseHeader(h, |r.response| - HDR_SIZE).(sequenceFlags := 0))
  {
    if |packet| < HDR_SIZE then
      Processed(SpBufferUnderflow, [], t)
    else
      var h := RequestHeader(packet);
      var v := ValidateHdrAsWritten(h, t);
      if v.status != Ok then
        Processed(v.status, [], t)
      else if DataSize(|packet|) != h.dataLength + 1 then
        Processed(if DataSize(|packet|) > h.dataLength then SpBufferOverflow else SpBufferUnderflow,
                  [], v.counters)
      else if !ChecksumOk(packet) then
        Processed(SpInvalidChecksum, [], CsumCounted(v.counters, packet))
      else
        match handlers[h.apid]
        case None => Processed(SpInvalidApidHandler, [], v.counters)
        case Some(handle) =>
          var out := ResponseData(handle(Payload(packet)));
          if |out| >= DATA_MAX_SIZE then Halted
          else Processed(Ok, BuildPacketAsWritten(ResponseHeader(h, |out|), out), v.counters)
  }

  /** The processor as written reaches the same verdict as the corrected
      one: same halting, same status, same last count and checksum
      counter; the out-of-sequence counter agrees whenever the last count
      is not 16383. */
  lemma ProcessAsWrittenAgrees(t: Counters, packet: seq<byte>, handlers: seq<Option<Handler>>)
    requires |packet| < U32_MODULUS && |handlers| == APID_MAP_SIZE
    ensures var w := ProcessAsWritten(t, packet, handlers);
      var c := Process(t, packet, handlers);
      && w.Halted? == c.Halted?
      && (w.Processed? ==>
          && w.status == c.status
          && |w.response| == |c.response|
          && w.counters.lastSeq == c.counters.lastSeq
          && w.counters.csumErrors == c.counters.csumErrors
          && (t.lastSeq + 1 < SEQ_COUNT_MODULUS ==> w.counters == c.counters))
  {
    if |packet| >= HDR_SIZE {
      var h := RequestHeader(packet);
      var vw := ValidateHdrAsWritten(h, t);
      var vc := ValidateHdr(h, t);
      assert vw.status == vc.status;
      assert vw.counters.lastSeq == vc.counters.lastSeq;
      assert vw.counters.csumErrors == vc.counters.csumErrors;
      if t.lastSeq + 1 < SEQ_COUNT_MODULUS {
        ValidateHdrAgrees(h, t);
      }
    }
  }

  /** A response of the processor as written differs from the corrected
      one only in byte 2, which keeps just the count bits. */
  lemma ProcessAsWrittenResponse(t: Counters, packet: seq<byte>, handlers: seq<Option<Handler>>)
    requires |packet| < U32_MODULUS && |handlers| == APID_MAP_SIZE
    requires WellFormed(packet)
    ensures var w := ProcessAsWritten(t, packet, handlers);
      var c := Process(t, packet, handlers);
      w.Processed? && w.status == Ok ==>
        && c.Processed? && c.status == Ok
        && w.response[..2] == c.response[..2]
        && w.response[3..] == c.response[3..]
        && w.response[2] == c.response[2] % 64
  {
    var h := RequestHeader(packet);
    assert ValidateHdrAsWritten(h, t).status == Ok;
    match handlers[h.apid]
    case None =>
    case Some(handle) =>
      var out := ResponseData(handle(Payload(packet)));
      if |out| < DATA_MAX_SIZE {
        var hr := ResponseHeader(h, |out|);
        assert ProcessAsWritten(t, packet, handlers).response == HeaderBytesAsWritten(hr) + out;
        assert Process(t, packet, handlers).response == HeaderBytes(hr) + out;
        HeaderBytesAsWrittenThen(hr, out);
      }
  }

  /** A packet built as written and one built by the corrected builder, with
      the same data after the header, differ only in byte 2. */
  lemma HeaderBytesAsWrittenThen(h: Header, out: seq<byte>)
    ensures var w := HeaderBytesAsWritten(h) + out;
      var c := HeaderBytes(h) + out;
      && w[..2] == c[..2] && w[3..] == c[3..] && w[2] == c[2] % 64
  {
    var aw := HeaderBytesAsWritten(h);
    var hb := HeaderBytes(h);
    assert (aw + out)[..2] == aw[..2] && (hb + out)[..2] == hb[..2];
    assert (aw + out)[3..] == aw[3..] + out && (hb + out)[3..] == hb[3..] + out;
  }

  /** End to end, as written: a sealed request is served with the handler's
      status and output, but the response header parses with sequence flags
      0 where the echo header has UNSEGMENTED. */
  lemma RequestServedAsWritten(t: Counters, h: Header, data: seq<byte>, handle: Handler, handlers: seq<Option<Handler>>)
    requires Fits(h) && HeaderStatus(h) == Ok && |data| == h.dataLength + 1
    requires |handlers| == APID_MAP_SIZE && handlers[h.apid] == Some(handle)
    requires |handle(data).data| + 1 < DATA_MAX_SIZE
    ensures var r := ProcessAsWritten(t, Request(h, data), handlers);
      && r.Processed? && r.status == Ok
      && ParseHdr(r.response) == Success(ResponseHeader(h, |handle(data).data| + 1).(sequenceFlags := 0))
      && ParseHdr(r.response).value.sequenceFlags != SEQ_FLAGS_UNSEGMENTED
      && r.response[HDR_SIZE..] == ResponseData(handle(data))
  {
    var p := Request(h, data);
    ParseHeaderBytes(h);
    assert RequestHeader(p) == h;
    assert Payload(p) == data;
  }

  /** `spacepacket_out_of_seq_count`. */
  function OutOfSeqCount(t: Counters): (r: Reply)
    ensures r.status == Ok && |r.data| == 4 && Endian.FromNetwork(r.data) == t.outOfSeq
  {
    Word(t.outOfSeq)
  }

  /** `spacepacket_csum_error_count`. */
  function CsumErrorCount(t: Counters): (r: Reply)
    ensures r.status == Ok && |r.data| == 4 && Endian.FromNetwork(r.data) == t.csumErrors
  {
    Word(t.csumErrors)
  }

  /** `spacepacket_last_seq_count` as written: it reports the checksum error
      count. */
  function LastSeqCountAsWritten(t: Counters): (r: Reply)
    ensures r.status == Ok && |r.data| == 4 && Endian.FromNetwork(r.data) == t.csumErrors
  {
    Word(t.csumErrors)
  }

  /** Two checksum errors after packet 7: the getter as written says 2. */
  lemma LastSeqCountMisreported()
    ensures Endian.FromNetwork(LastSeqCountAsWritten(Counters(0, 2, 7)).data) != 7
  {
  }

  /** `spacepacket_last_seq_count` reporting the last received sequence
      count, as its name says. */
  function LastSeqCount(t: Counters): (r: Reply)
    ensures r.status == Ok && |r.data| == 4 && Endian.FromNetwork(r.data) == t.lastSeq
  {
    Word(t.lastSeq)
  }
}
