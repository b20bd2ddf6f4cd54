/** The parameter service: a table of get/set pairs and the two APID
    handlers that read and write a parameter by its one-byte id. */
module Parameter {
  import opened Common
  import opened StatusCodes
  import Registry

  /** `parameter_handler_t`: the setter takes the value bytes and reports a
      status; the getter reports a status and the bytes it writes. Both are
      non-NULL, as registration demands, so an entry holds both or is
      absent. */
  datatype ParamHandler = ParamHandler(setter: seq<byte> -> Status, getter: () -> Reply)

  type Table = Registry.Table<ParamHandler>

  /** `parameter_register`. */
  function Register(table: Table, id: byte, handler: ParamHandler): (r: Registry.Registered<ParamHandler>)
    ensures (r.status == Ok) == (id !in table)
    ensures r.status != Ok ==> r.status == ParamInvalidHandlerRegistration && r.table == table
    ensures r.status == Ok ==> r.table == table[id := handler]
  {
    Registry.Register(table, id, handler, ParamInvalidHandlerRegistration)
  }

  /** `get_parameter_handler`: the payload is exactly the id; an unknown id
      is refused; otherwise the getter answers. Nothing is written on a
      refusal. */
  function Get(table: Table, input: seq<byte>): (r: Reply)
    ensures |input| != 1 ==> r == Reply(ParamInvalidPayloadSize, [])
    ensures |input| == 1 && input[0] !in table ==> r == Reply(ParamInvalidParameterId, [])
    ensures |input| == 1 && input[0] in table ==> r == table[input[0]].getter()
  {
    if |input| != 1 then Reply(ParamInvalidPayloadSize, [])
    else if input[0] !in table then Reply(ParamInvalidParameterId, [])
    else table[input[0]].getter()
  }

  /** `set_parameter_handler`: the payload is the id then at least one value
      byte; an unknown id is refused; otherwise the setter receives the value
      bytes and nothing is written back. */
  function Set(table: Table, input: seq<byte>): (r: Reply)
    ensures r.data == []
    ensures |input| < 2 ==> r.status == ParamInvalidPayloadSize
    ensures |input| >= 2 && input[0] !in table ==> r.status == ParamInvalidParameterId
    ensures |input| >= 2 && input[0] in table ==> r.status == table[input[0]].setter(input[1..])
  {
    if |input| < 2 then Reply(ParamInvalidPayloadSize, [])
    else if input[0] !in table then Reply(ParamInvalidParameterId, [])
    else Reply(table[input[0]].setter(input[1..]), [])
  }

  /** Once registered, a parameter is read through its id by its own
      getter. */
  lemma GetAfterRegister(table: Table, id: byte, handler: ParamHandler)
    requires id !in table
    ensures Get(Register(table, id, handler).table, [id]) == handler.getter()
  {
  }

  /** Once registered, a value sent with the parameter's id reaches its own
      setter, byte for byte. */
  lemma SetAfterRegister(table: Table, id: byte, handler: ParamHandler, value: seq<byte>)
    requires id !in table && |value| > 0
    ensures Set(Register(table, id, handler).table, [id] + value) == Reply(handler.setter(value), [])
  {
    assert ([id] + value)[1..] == value;
  }
}
