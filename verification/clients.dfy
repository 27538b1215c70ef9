/** Clients, the accounts they hold, and the lookups the console front end
    uses to submit a transaction: the first client with a document id, and
    that client's first account. */
module Clients {
  import opened Accounts
  import opened Transactions

  datatype Option<T> = None | Some(value: T)

  /** A client: its document id and its accounts in the order they were added. */
  datatype Client = Client(docId: string, accounts: seq<Account>)

  /** Appends an account to the client's accounts, with no uniqueness check. */
  function AddAccount(c: Client, a: Account): (c': Client)
    ensures c'.docId == c.docId
    ensures |c'.accounts| == |c.accounts| + 1
    ensures c'.accounts[..|c.accounts|] == c.accounts
    ensures c'.accounts[|c.accounts|] == a
  {
    c.(accounts := c.accounts + [a])
  }

  /** Registers `t` on the client's `i`-th account. The client only
      delegates to the transaction; every other account is left alone. */
  function MakeTransaction(c: Client, i: nat, t: Transaction): (r: (Status, Client))
    requires i < |c.accounts|
    ensures r.1.docId == c.docId
    ensures |r.1.accounts| == |c.accounts|
    ensures forall j :: 0 <= j < |c.accounts| && j != i ==> r.1.accounts[j] == c.accounts[j]
    ensures r.0 == t.Register(c.accounts[i]).status
    ensures r.1.accounts[i] == t.Register(c.accounts[i]).account
  {
    var o := t.Register(c.accounts[i]);
    (o.status, c.(accounts := c.accounts[i := o.account]))
  }

  /** The position of the first client with the document id, if any. */
  function FirstMatch(clients: seq<Client>, docId: string): (r: Option<nat>)
    ensures r.None? <==> forall k :: 0 <= k < |clients| ==> clients[k].docId != docId
    ensures r.Some? ==> r.value < |clients| && clients[r.value].docId == docId
    ensures r.Some? ==> forall j :: 0 <= j < r.value ==> clients[j].docId != docId
    decreases |clients|
  {
    if clients == [] then None
    else if clients[0].docId == docId then Some(0)
    else
      match FirstMatch(clients[1..], docId)
      case None => None
      case Some(k) => Some(k + 1)
  }

  /** The clients with the document id, in order. */
  function Matching(clients: seq<Client>, docId: string): (m: seq<Client>)
    ensures |m| <= |clients|
    ensures forall i :: 0 <= i < |m| ==> m[i].docId == docId && m[i] in clients
    ensures m == [] <==> FirstMatch(clients, docId).None?
    ensures m != [] ==> m[0] == clients[FirstMatch(clients, docId).value]
    decreases |clients|
  {
    if clients == [] then []
    else (if clients[0].docId == docId then [clients[0]] else []) + Matching(clients[1..], docId)
  }

  /** The first client whose document id matches, or None when none does. */
  function GetClientByDocId(docId: string, clients: seq<Client>): (r: Option<Client>)
    ensures r.None? <==> forall k :: 0 <= k < |clients| ==> clients[k].docId != docId
    ensures r.Some? ==> exists k :: 0 <= k < |clients| && clients[k] == r.value && r.value.docId == docId
    ensures r.Some? ==> r.value == clients[FirstMatch(clients, docId).value]
  {
    var filtered := Matching(clients, docId);
    if filtered != [] then Some(filtered[0]) else None
  }

  /** The client's first account, or None when it has none. */
  function GetClientAccount(c: Client): (r: Option<Account>)
    ensures r.None? <==> |c.accounts| == 0
    ensures r.Some? ==> r.value in c.accounts && r.value == c.accounts[0]
  {
    if c.accounts == [] then None else Some(c.accounts[0])
  }

  /** What a submission through the front end came to. */
  datatype Reply = ClientNotFound | AccountNotFound | Registered(status: Status)

  /** Submits `t` on behalf of the client with document id `docId`: the
      first such client is looked up, its first account picked, and the
      transaction made on it. A failed lookup leaves every client as it was. */
  function Submit(clients: seq<Client>, docId: string, t: Transaction): (r: (Reply, seq<Client>))
    ensures |r.1| == |clients|
    ensures r.0 == ClientNotFound <==> forall k :: 0 <= k < |clients| ==> clients[k].docId != docId
    ensures r.0 == AccountNotFound <==>
              FirstMatch(clients, docId).Some? && clients[FirstMatch(clients, docId).value].accounts == []
    ensures !r.0.Registered? ==> r.1 == clients
    ensures r.0.Registered? ==>
              var k := FirstMatch(clients, docId).value;
              var o := t.Register(clients[k].accounts[0]);
              && r.0.status == o.status
              && r.1[k] == Client(docId, [o.account] + clients[k].accounts[1..])
              && forall j :: 0 <= j < |clients| && j != k ==> r.1[j] == clients[j]
  {
    match FirstMatch(clients, docId)
    case None => (ClientNotFound, clients)
    case Some(k) =>
      var client := clients[k];
      match GetClientAccount(client)
      case None => (AccountNotFound, clients)
      case Some(_) =>
        var made := MakeTransaction(client, 0, t);
        (Registered(made.0), clients[k := made.1])
  }
}
