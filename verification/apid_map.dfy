/** The firmware's APID table: APID 0 runs actions, 1 reads and 2 writes
    parameters, 3 reads telemetry, and every other APID has no handler. */
module ApidMap {
  import opened Common
  import opened StatusCodes
  import SpacePacket
  import Endian
  import Action
  import Parameter
  import Telemetry

  /** `apid_handler_map`, over the current service tables. */
  function Handlers(actions: Action.Table, params: Parameter.Table, tlm: Telemetry.Table)
    : (m: seq<Option<Handler>>)
    ensures |m| == SpacePacket.APID_MAP_SIZE
    ensures m[0].Some? && forall input :: m[0].value(input) == Action.Dispatch(actions, input)
    ensures m[1].Some? && forall input :: m[1].value(input) == Parameter.Get(params, input)
    ensures m[2].Some? && forall input :: m[2].value(input) == Parameter.Set(params, input)
    ensures m[3].Some? && forall input :: m[3].value(input) == Telemetry.Dispatch(tlm, input)
    ensures forall apid | 4 <= apid < |m| :: m[apid] == None
  {
    [Some(input => Action.Dispatch(actions, input)),
     Some(input => Parameter.Get(params, input)),
     Some(input => Parameter.Set(params, input)),
     Some(input => Telemetry.Dispatch(tlm, input))]
    + seq(SpacePacket.APID_MAP_SIZE - 4, _ => None)
  }

  /** A telemetry request on APID 3 naming a registered point is answered
      with that point's getter reply, behind the echoed header. */
  lemma TelemetryServed(
    t: SpacePacket.Counters, h: SpacePacket.Header, id: byte,
    actions: Action.Table, params: Parameter.Table, tlm: Telemetry.Table)
    requires SpacePacket.Fits(h) && SpacePacket.HeaderStatus(h) == Ok
    requires h.apid == 3 && h.dataLength == 0 && id in tlm
    requires |tlm[id]().data| + 1 < SpacePacket.DATA_MAX_SIZE
    ensures var r := SpacePacket.Process(t, SpacePacket.Request(h, [id]), Handlers(actions, params, tlm));
      && r.Processed? && r.status == Ok
      && r.response[SpacePacket.HDR_SIZE..] == [Code(tlm[id]().status)] + tlm[id]().data
  {
    var m := Handlers(actions, params, tlm);
    assert m[3].value([id]) == tlm[id]();
    SpacePacket.RequestServed(t, h, [id], m[3].value, m);
  }

  /** The counter telemetry path: with telemetry point `id` registered to
      `spacepacket_out_of_seq_count` over the counters `seen`, a request on
      APID 3 for `id` is answered OK with status byte OK followed by the
      four big-endian bytes of `seen.outOfSeq`. */
  lemma OutOfSeqCountServed(
    t: SpacePacket.Counters, h: SpacePacket.Header, id: byte,
    actions: Action.Table, params: Parameter.Table, seen: SpacePacket.Counters)
    requires SpacePacket.Fits(h) && SpacePacket.HeaderStatus(h) == Ok
    requires h.apid == 3 && h.dataLength == 0
    ensures var tlm := map[id := () => SpacePacket.OutOfSeqCount(seen)];
      var r := SpacePacket.Process(t, SpacePacket.Request(h, [id]), Handlers(actions, params, tlm));
      && r.Processed? && r.status == Ok
      && |r.response| == SpacePacket.HDR_SIZE + 5
      && r.response[SpacePacket.HDR_SIZE] == Code(Ok)
      && Endian.FromNetwork(r.response[SpacePacket.HDR_SIZE + 1..]) == seen.outOfSeq
  {
    var tlm: Telemetry.Table := map[id := () => SpacePacket.OutOfSeqCount(seen)];
    var reply := tlm[id]();
    assert reply == SpacePacket.OutOfSeqCount(seen);
    TelemetryServed(t, h, id, actions, params, tlm);
    var r := SpacePacket.Process(t, SpacePacket.Request(h, [id]), Handlers(actions, params, tlm));
    assert r.response[SpacePacket.HDR_SIZE..] == [Code(Ok)] + reply.data;
    assert r.response[SpacePacket.HDR_SIZE + 1..] == reply.data;
  }

  /** A request on an APID with no handler is refused, whatever the
      service tables hold. */
  lemma UnmappedApidRefused(
    t: SpacePacket.Counters, h: SpacePacket.Header, data: seq<byte>,
    actions: Action.Table, params: Parameter.Table, tlm: Telemetry.Table)
    requires SpacePacket.Fits(h) && SpacePacket.HeaderStatus(h) == Ok
    requires h.apid >= 4 && |data| == h.dataLength + 1
    ensures SpacePacket.Process(t, SpacePacket.Request(h, data), Handlers(actions, params, tlm)).status
      == SpInvalidApidHandler
  {
    var p := SpacePacket.Request(h, data);
    SpacePacket.ParseHeaderBytes(h);
    assert SpacePacket.RequestHeader(p) == h;
  }
}
