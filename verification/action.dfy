/** The action service: a table of argument-less commands and the APID
    handler that runs one by its one-byte id. */
module Action {
  import opened Common
  import opened StatusCodes
  import Registry

  /** `action_handler_t`: a command that reports a status and returns no
      data. */
  type Command = () -> Status

  type Table = Registry.Table<Command>

  /** `action_register`. */
  function Register(table: Table, id: byte, command: Command): (r: Registry.Registered<Command>)
    ensures (r.status == Ok) == (id !in table)
    ensures r.status != Ok ==> r.status == ActionInvalidHandlerRegistration && r.table == table
    ensures r.status == Ok ==> r.table == table[id := command]
  {
    Registry.Register(table, id, command, ActionInvalidHandlerRegistration)
  }

  /** `action_handler`: the payload is exactly the id; an unknown id is
      refused; otherwise the command runs. Actions never return data. */
  function Dispatch(table: Table, input: seq<byte>): (r: Reply)
    ensures r.data == []
    ensures |input| != 1 ==> r.status == ActionInvalidPayloadSize
    ensures |input| == 1 && input[0] !in table ==> r.status == ActionInvalidActionId
    ensures |input| == 1 && input[0] in table ==> r.status == table[input[0]]()
  {
    if |input| != 1 then Reply(ActionInvalidPayloadSize, [])
    else if input[0] !in table then Reply(ActionInvalidActionId, [])
    else Reply(table[input[0]](), [])
  }

  /** Once registered, a command runs when its id is sent. */
  lemma DispatchAfterRegister(table: Table, id: byte, command: Command)
    requires id !in table
    ensures Dispatch(Register(table, id, command).table, [id]) == Reply(command(), [])
  {
  }
}
