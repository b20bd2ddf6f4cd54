/** The id-indexed handler tables shared by the parameter, telemetry and
    action services: 256 entries indexed by a one-byte id, where an absent
    key stands for a NULL entry. A handler is registered at most once per
    id; a second registration is refused with the service's own status. */
module Registry {
  import opened Common
  import opened StatusCodes

  type Table<H> = map<byte, H>

  /** The status of a registration and the table after it. */
  datatype Registered<H> = Registered(status: Status, table: Table<H>)

  /** Registration: refused with `duplicate` when the id is taken, leaving
      the table as it was; otherwise the handler is stored at the id. No
      registration ever replaces or removes an entry. */
  function Register<H>(table: Table<H>, id: byte, handler: H, duplicate: Status): (r: Registered<H>)
    requires duplicate != Ok
    ensures (r.status == Ok) == (id !in table)
    ensures r.status != Ok ==> r.status == duplicate && r.table == table
    ensures r.table.Keys == table.Keys + {id}
    ensures r.table[id] == if id in table then table[id] else handler
    ensures forall k :: k in table ==> r.table[k] == table[k]
  {
    if id in table then Registered(duplicate, table) else Registered(Ok, table[id := handler])
  }

  /** The first registration at an id wins: a second one is refused and the
      first handler stays. */
  lemma FirstRegistrationWins<H>(table: Table<H>, id: byte, first: H, second: H, duplicate: Status)
    requires duplicate != Ok && id !in table
    ensures var r1 := Register(table, id, first, duplicate);
      var r2 := Register(r1.table, id, second, duplicate);
      r1.status == Ok && r2.status == duplicate && r2.table[id] == first
  {
  }

  /** Registrations at distinct ids do not interfere: either order gives
      the same table. */
  lemma RegisterCommutes<H>(table: Table<H>, a: byte, ha: H, b: byte, hb: H, duplicate: Status)
    requires duplicate != Ok && a != b
    ensures Register(Register(table, a, ha, duplicate).table, b, hb, duplicate).table
         == Register(Register(table, b, hb, duplicate).table, a, ha, duplicate).table
  {
    var ab := Register(Register(table, a, ha, duplicate).table, b, hb, duplicate).table;
    var ba := Register(Register(table, b, hb, duplicate).table, a, ha, duplicate).table;
    assert ab.Keys == ba.Keys;
    forall k | k in ab
      ensures ab[k] == ba[k]
    {
    }
  }
}
