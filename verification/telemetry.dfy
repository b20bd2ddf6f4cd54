/** The telemetry service: a table of getters and the APID handler that
    reads one by its one-byte id. */
module Telemetry {
  import opened Common
  import opened StatusCodes
  import Registry

  /** `telemetry_handler_t`: reports a status and the bytes it writes. */
  type Getter = () -> Reply

  type Table = Registry.Table<Getter>

  /** `telemetry_register`. */
  function Register(table: Table, id: byte, getter: Getter): (r: Registry.Registered<Getter>)
    ensures (r.status == Ok) == (id !in table)
    ensures r.status != Ok ==> r.status == TlmInvalidHandlerRegistration && r.table == table
    ensures r.status == Ok ==> r.table == table[id := getter]
  {
    Registry.Register(table, id, getter, TlmInvalidHandlerRegistration)
  }

  /** `telemetry_handler`: the payload is exactly the id; an unknown id is
      refused; otherwise the getter answers. */
  function Dispatch(table: Table, input: seq<byte>): (r: Reply)
    ensures |input| != 1 ==> r == Reply(TlmInvalidPayloadSize, [])
    ensures |input| == 1 && input[0] !in table ==> r == Reply(TlmInvalidTelemetryId, [])
    ensures |input| == 1 && input[0] in table ==> r == table[input[0]]()
  {
    if |input| != 1 then Reply(TlmInvalidPayloadSize, [])
    else if input[0] !in table then Reply(TlmInvalidTelemetryId, [])
    else table[input[0]]()
  }

  /** Once registered, a telemetry point is read through its id by its own
      getter. */
  lemma DispatchAfterRegister(table: Table, id: byte, getter: Getter)
    requires id !in table
    ensures Dispatch(Register(table, id, getter).table, [id]) == getter()
  {
  }
}
