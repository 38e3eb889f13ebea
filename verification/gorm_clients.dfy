/** The client handlers of `api/clients.go` over the gorm `clients` table.
    The table is the sequence of its live rows in the order a query
    returns them; a row is found by its primary key as the `:id`
    parameter spells it. */
module GormClients {
  import opened Outcomes
  import opened AddressPool
  import opened Records

  /** `ClientResponse`: the row and four statistics. */
  datatype ClientResponse = ClientResponse(
    client: DbClient, latestHandshake: string, endpoint: string,
    sentBytes: int, receivedBytes: int)

  /** The placeholder statistics every response carries. */
  const PlaceholderHandshake: string := "2021-01-09T21:15:37.189Z"
  const PlaceholderEndpoint: string := "77.18.62.145:15427"
  const PlaceholderSent: int := 32165498
  const PlaceholderReceived: int := 132546

  function Respond(c: DbClient): ClientResponse
  {
    ClientResponse(c, PlaceholderHandshake, PlaceholderEndpoint, PlaceholderSent, PlaceholderReceived)
  }

  /** Primary keys are unique. */
  predicate UniqueKeys(table: seq<DbClient>)
  {
    forall i, j :: 0 <= i < j < |table| ==> table[i].key != table[j].key
  }

  /** `Find(&client, id)`: the row with that key, or the zero client. */
  function FindRow(table: seq<DbClient>, id: string): (r: Option<DbClient>)
    ensures r.Some? ==> r.value in table && r.value.key == id
    ensures r.None? ==> forall i :: 0 <= i < |table| ==> table[i].key != id
    decreases |table|
  {
    if |table| == 0 then None
    else if table[0].key == id then Some(table[0])
    else
      var rest := FindRow(table[1..], id);
      assert forall i :: 1 <= i < |table| ==> table[i] == table[1..][i - 1];
      rest
  }

  /** A JSON body: `null` for the nil slice, or an array. */
  datatype Listing = Null | List(items: seq<ClientResponse>)

  /** `GetClients`: 200 and one response per row in table order, each with
      the placeholder statistics; no rows give the nil slice, which encodes
      as `null`. */
  function GetClients(table: seq<DbClient>): (r: (Status, Listing))
    ensures r.0 == StatusOk
    ensures |table| == 0 <==> r.1 == Null
    ensures r.1.List? ==>
              && |r.1.items| == |table|
              && forall i :: 0 <= i < |table| ==>
                   && r.1.items[i].client == table[i]
                   && r.1.items[i].latestHandshake == PlaceholderHandshake
                   && r.1.items[i].endpoint == PlaceholderEndpoint
                   && r.1.items[i].sentBytes == PlaceholderSent
                   && r.1.items[i].receivedBytes == PlaceholderReceived
  {
    if |table| == 0 then (StatusOk, Null)
    else (StatusOk, List(seq(|table|, i requires 0 <= i < |table| => Respond(table[i]))))
  }

  datatype Reply = Reply(status: Status, body: Option<ClientResponse>)

  /** `GetClient`: 400 for an empty id; 404 when no row has the key or the
      row's public key is empty, the two alike; 200 and the row otherwise. */
  function GetClient(table: seq<DbClient>, id: string): (r: Reply)
    ensures id == "" ==> r == Reply(StatusBadRequest, None)
    ensures r.status == StatusOk <==> id != "" && FindRow(table, id).Some? && FindRow(table, id).value.publicKey != ""
    ensures r.status != StatusOk ==> r.body.None?
    ensures r.status == StatusOk ==> r.body == Some(Respond(FindRow(table, id).value))
    ensures r.status in {StatusOk, StatusBadRequest, StatusNotFound}
  {
    if id == "" then Reply(StatusBadRequest, None)
    else
      var client := FindRow(table, id);
      if client.None? || client.value.publicKey == "" then Reply(StatusNotFound, None)
      else Reply(StatusOk, Some(Respond(client.value)))
  }

  /** The rows whose key is not `id`, in order. */
  function Without(table: seq<DbClient>, id: string): (r: seq<DbClient>)
    ensures forall i :: 0 <= i < |r| ==> r[i] in table && r[i].key != id
    ensures forall i :: 0 <= i < |table| && table[i].key != id ==> table[i] in r
    ensures |r| <= |table|
    decreases |table|
  {
    if |table| == 0 then []
    else
      var rest := Without(table[1..], id);
      assert forall i :: 1 <= i < |table| ==> table[i] == table[1..][i - 1];
      if table[0].key == id then rest else [table[0]] + rest
  }

  /** `DeleteClient`: 400 for an empty id and 404 for an absent row or an
      empty public key, both without deleting; otherwise the row is deleted
      and the answer is 204. */
  function DeleteClient(table: seq<DbClient>, id: string): (r: (Status, seq<DbClient>))
    ensures r.0 == StatusNoContent <==> GetClient(table, id).status == StatusOk
    ensures r.0 != StatusNoContent ==> r.1 == table && r.0 == GetClient(table, id).status
    ensures r.0 == StatusNoContent ==>
              && FindRow(r.1, id).None?
              && forall i :: 0 <= i < |table| && table[i].key != id ==> table[i] in r.1
  {
    if id == "" then (StatusBadRequest, table)
    else
      var client := FindRow(table, id);
      if client.None? || client.value.publicKey == "" then (StatusNotFound, table)
      else (StatusNoContent, Without(table, client.value.key))
  }

  /** A second delete of the same id finds nothing. */
  lemma DeleteThenGet(table: seq<DbClient>, id: string)
    requires DeleteClient(table, id).0 == StatusNoContent
    ensures GetClient(DeleteClient(table, id).1, id).status == StatusNotFound
    ensures DeleteClient(DeleteClient(table, id).1, id).0 == StatusNotFound
  {
  }

  /** `CreateClient`: 400 when the body does not parse; otherwise the row is
      inserted and the answer is 200 (not 201) with the placeholder
      statistics. */
  function CreateClient(table: seq<DbClient>, parsed: Option<DbClient>): (r: (Status, seq<DbClient>, Option<ClientResponse>))
    ensures parsed.None? ==> r == (StatusBadRequest, table, None)
    ensures parsed.Some? ==> r.0 == StatusOk && r.2 == Some(Respond(parsed.value))
    ensures parsed.Some? ==> |r.1| == |table| + 1 && r.1[..|table|] == table && r.1[|table|] == parsed.value
  {
    match parsed
    case None => (StatusBadRequest, table, None)
    case Some(c) => (StatusOk, table + [c], Some(Respond(c)))
  }

  /** `CreateClient` as written: `c.BodyParser(newClient)` is handed the
      struct by value, which no body decoder can fill, so parsing fails for
      every body and every request is answered 400 with the table
      unchanged. */
  function CreateClientAsWritten(table: seq<DbClient>, body: Option<DbClient>): (r: (Status, seq<DbClient>, Option<ClientResponse>))
    ensures r == (StatusBadRequest, table, None)
  {
    CreateClient(table, None)
  }

  /** The discrepancy: a client with a fresh key and a public key, posted
      to the handler as written, cannot be fetched afterwards, while the
      corrected handler makes it fetchable. */
  lemma CreateAsWrittenLosesClient(table: seq<DbClient>, c: DbClient)
    requires c.key != "" && c.publicKey != ""
    requires forall i :: 0 <= i < |table| ==> table[i].key != c.key
    ensures GetClient(CreateClientAsWritten(table, Some(c)).1, c.key).status == StatusNotFound
    ensures GetClient(CreateClient(table, Some(c)).1, c.key).status == StatusOk
  {
    CreateThenGet(table, c);
  }

  /** A created row with a fresh key and a public key can be fetched. */
  lemma CreateThenGet(table: seq<DbClient>, c: DbClient)
    requires c.key != "" && c.publicKey != ""
    requires forall i :: 0 <= i < |table| ==> table[i].key != c.key
    ensures var t := CreateClient(table, Some(c)).1;
            GetClient(t, c.key) == Reply(StatusOk, Some(Respond(c)))
  {
    var t := CreateClient(table, Some(c)).1;
    FindAppended(table, c);
  }

  lemma {:induction false} FindAppended(table: seq<DbClient>, c: DbClient)
    requires forall i :: 0 <= i < |table| ==> table[i].key != c.key
    ensures FindRow(table + [c], c.key) == Some(c)
    decreases |table|
  {
    if |table| > 0 {
      assert (table + [c])[1..] == table[1..] + [c];
      FindAppended(table[1..], c);
    }
  }
}
