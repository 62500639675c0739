/** The server's list of IPC clients: broadcasting an event while refused clients drop out. */
module IpcServer {
  import opened IpcFrame
  import R = IpcRead
  import W = IpcWrite

  /** A client on the list, with the event types it subscribed to. */
  datatype Client = Client(id: nat, subscribed: set<nat>, write: W.WriteState, read: R.ReadState)

  /** `event_mask`: an event is the bit numbered by the low seven bits of its type. */
  function EventIndex(kind: Word): nat {
    kind % 0x80
  }

  /** Event number `n` of the protocol has type 2^31 + n and, up to 127, bit `n`; from there on the bits repeat. */
  lemma EventIndexIs(n: nat)
    requires n < 0x8000_0000
    ensures n < 0x80 ==> EventIndex(0x8000_0000 + n) == n
    ensures EventIndex(0x8000_0000 + n) < 0x80 && EventIndex(0x8000_0000 + n) == EventIndex(n)
  {
  }

  predicate Wants(c: Client, m: Message) {
    EventIndex(m.kind) in c.subscribed
  }

  ghost predicate ValidClient(c: Client) {
    c.write.connected && W.Inv(c.write)
  }

  ghost predicate AllValid(cs: seq<Client>) {
    forall c :: c in cs ==> ValidClient(c)
  }

  ghost predicate DistinctIds(cs: seq<Client>) {
    forall i, j :: 0 <= i < j < |cs| ==> cs[i].id != cs[j].id
  }

  /** What an event makes of a client: its write side takes exactly one send if it is subscribed. */
  ghost function Served(c: Client, m: Message): Client
    requires ValidClient(c)
  {
    W.CapacityLimit(c.write.capacity);
    if Wants(c, m) then c.(write := W.Send(c.write, m)) else c
  }

  /** The clients an event leaves on the list, in order. */
  ghost function Survivors(cs: seq<Client>, m: Message): seq<Client>
    requires AllValid(cs)
  {
    if cs == [] then []
    else
      var c := Served(cs[0], m);
      (if c.write.connected then [c] else []) + Survivors(cs[1..], m)
  }

  /** The clients offered an event, in order. */
  function Audience(cs: seq<Client>, m: Message): seq<nat> {
    if cs == [] then [] else (if Wants(cs[0], m) then [cs[0].id] else []) + Audience(cs[1..], m)
  }

  class IpcServer {
    var clients: seq<Client>
    // the clients `ipc_send_reply` was called for so far
    ghost var offers: seq<nat>

    ghost predicate Valid()
      reads this
    {
      DistinctIds(clients) && AllValid(clients)
    }

    constructor ()
      ensures Valid() && clients == [] && offers == []
    {
      clients, offers := [], [];
    }

    /** `ipc_client_disconnect`: finds the client on the list and deletes it there. */
    method Disconnect(id: nat, ghost k: nat)
      requires DistinctIds(clients) && k < |clients| && clients[k].id == id
      modifies this`clients
      ensures clients == old(clients)[..k] + old(clients)[k + 1..]
    {
      var i := 0;
      while i < |clients| && clients[i].id != id
        invariant 0 <= i <= k
      {
        i := i + 1;
      }
      clients := clients[..i] + clients[i + 1..];
    }

    /** `ipc_send_reply` for the client at index `i`; false when that dropped the client. */
    method SendReply(i: nat, m: Message) returns (ok: bool)
      requires Valid() && i < |clients|
      modifies this
      ensures Valid() && offers == old(offers) + [old(clients)[i].id]
      ensures var c := old(clients)[i];
        && (c.write.connected ==> c.write.capacity > 0)
        && var w := W.Send(c.write, m);
        && ok == w.connected
        && clients == if ok then old(clients)[i := c.(write := w)] else old(clients)[..i] + old(clients)[i + 1..]
    {
      var c := clients[i];
      assert c in clients && ValidClient(c);
      W.CapacityLimit(c.write.capacity);
      W.SendKeepsInv(c.write, m);
      var w := W.Send(c.write, m);
      ok := w.connected;
      offers := offers + [c.id];
      if ok {
        clients := clients[i := c.(write := w)];
      } else {
        Disconnect(c.id, i);
      }
    }

    /** `ipc_send_event`: walks the list while refused clients drop out of it. */
    method SendEvent(event: Word, payload: Bytes)
      requires Valid() && |payload| < 0x1_0000_0000
      modifies this
      ensures Valid() && clients == Survivors(old(clients), Frame(event, payload))
      ensures offers == old(offers) + Audience(old(clients), Frame(event, payload))
    {
      var m: Message := Frame(event, payload);
      var i := 0;
      FirstAndLast(clients, offers, m);
      while i < |clients|
        invariant Valid() && 0 <= i <= |clients|
        invariant Ends(clients, offers, i, m) == (Survivors(old(clients), m), old(offers) + Audience(old(clients), m))
        decreases |clients| - i
      {
        i := OfferAt(i, m);
      }
      FirstAndLast(clients, offers, m);
    }

    /** The body of the loop: the index of the next client to look at. */
    method OfferAt(i: nat, m: Message) returns (next: nat)
      requires Valid() && i < |clients|
      modifies this
      ensures Valid() && next <= |clients| && |clients| - next < old(|clients|) - i
      ensures Ends(clients, offers, next, m) == Ends(old(clients), old(offers), i, m)
    {
      ghost var was := clients;
      assert ValidClient(was[i]) by { assert was[i] in was; }
      var ok := true;
      if EventIndex(m.kind) in clients[i].subscribed {
        ok := SendReply(i, m);
      }
      Walk(was, clients, old(offers), offers, i, m, ok);
      next := if ok then i + 1 else i;
    }
  }

  /** How the walk will end that stands at `i`: the list and the offers made. */
  ghost function Ends(clients: seq<Client>, offers: seq<nat>, i: nat, m: Message): (seq<Client>, seq<nat>)
    requires i <= |clients| && AllValid(clients)
  {
    (clients[..i] + Survivors(clients[i..], m), offers + Audience(clients[i..], m))
  }

  lemma FirstAndLast(clients: seq<Client>, offers: seq<nat>, m: Message)
    requires AllValid(clients)
    ensures Ends(clients, offers, 0, m) == (Survivors(clients, m), offers + Audience(clients, m))
    ensures Ends(clients, offers, |clients|, m) == (clients, offers)
  {
    assert clients[..0] == [] && clients[0..] == clients && clients[|clients|..] == [];
    assert [] + Survivors(clients, m) == Survivors(clients, m) && clients[..|clients|] + [] == clients;
    assert offers + [] == offers;
  }

  /** One step of the walk moves a served client from what is still to come to what is done, or drops it. */
  lemma Walk(was: seq<Client>, now: seq<Client>, offers: seq<nat>, more: seq<nat>, i: nat, m: Message, stays: bool)
    requires i < |was| && AllValid(was) && AllValid(now)
    requires stays == Served(was[i], m).write.connected
    requires now == if stays then was[i := Served(was[i], m)] else was[..i] + was[i + 1..]
    requires more == offers + if Wants(was[i], m) then [was[i].id] else []
    ensures Ends(now, more, if stays then i + 1 else i, m) == Ends(was, offers, i, m)
  {
    assert was[i..][0] == was[i] && was[i..][1..] == was[i + 1..];
    var n := if stays then i + 1 else i;
    var kept := if stays then [Served(was[i], m)] else [];
    assert now[..n] == was[..i] + kept && now[n..] == was[i + 1..];
    Regroup(was[..i], kept, Survivors(was[i + 1..], m));
    Regroup(offers, if Wants(was[i], m) then [was[i].id] else [], Audience(was[i + 1..], m));
  }

  lemma Regroup<T>(a: seq<T>, b: seq<T>, c: seq<T>)
    ensures (a + b) + c == a + (b + c)
  {
  }

  /** A client stays exactly if it is not subscribed or the event still fits below 2^21 bytes; it
      then has been served and has kept everything but its write side. */
  lemma ServedIff(c: Client, m: Message)
    requires ValidClient(c)
    ensures Served(c, m).write.connected <==> !Wants(c, m) || W.Fits(c.write, m)
    ensures Served(c, m).write.connected ==> ValidClient(Served(c, m))
    ensures Served(c, m) == c.(write := Served(c, m).write)
    ensures Served(c, m).write.connected ==>
      Served(c, m).write.queue == c.write.queue + if Wants(c, m) then Encode(m) else []
  {
    W.SendRefusedIff(c.write, m);
    W.SendKeepsInv(c.write, m);
  }

  /** After a broadcast exactly the clients with room are left, each served, none reordered. */
  lemma {:induction false} SurvivorsAre(cs: seq<Client>, m: Message)
    requires AllValid(cs)
    ensures forall s :: s in Survivors(cs, m) <==>
      exists c :: c in cs && s == Served(c, m) && (!Wants(c, m) || W.Fits(c.write, m))
    ensures Ids(Survivors(cs, m)) == IdsWithRoom(cs, m)
  {
    if cs != [] {
      SurvivorsAre(cs[1..], m);
      ServedIff(cs[0], m);
      assert cs == [cs[0]] + cs[1..];
      var s, rest := Served(cs[0], m), Survivors(cs[1..], m);
      assert ([s] + rest)[1..] == rest && [] + rest == rest;
    }
  }

  function Ids(cs: seq<Client>): seq<nat> {
    if cs == [] then [] else [cs[0].id] + Ids(cs[1..])
  }

  /** The clients that are not subscribed or have room for the event, in order. */
  function IdsWithRoom(cs: seq<Client>, m: Message): seq<nat> {
    if cs == [] then []
    else (if !Wants(cs[0], m) || W.Fits(cs[0].write, m) then [cs[0].id] else []) + IdsWithRoom(cs[1..], m)
  }
}
