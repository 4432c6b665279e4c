/** The viewers connected over WebSocket and the fan-out of one message to
    them: `wss.clients.forEach` sends to a client only when its
    `readyState` is OPEN and skips the others without removing them. */
module Clients {
  import opened Readings

  /** The four states of a WebSocket connection. */
  datatype ReadyState = Connecting | Open | Closing | Closed

  /** A connected viewer: its connection state and what has been sent to
      it, oldest first. */
  datatype Client = Client(state: ReadyState, outbox: seq<Message>)

  /** One step of the fan-out: `m` is sent when the client is OPEN. */
  function Deliver(c: Client, m: Message): Client {
    if c.state == Open then c.(outbox := c.outbox + [m]) else c
  }

  /** The fan-out over all clients, stated from the end. */
  function DeliverAll(cs: seq<Client>, m: Message): (ds: seq<Client>)
    ensures |ds| == |cs|
  {
    if cs == [] then [] else DeliverAll(cs[..|cs| - 1], m) + [Deliver(cs[|cs| - 1], m)]
  }

  /** The fan-out reaches every client on its own. */
  lemma {:induction false} DeliverAllEach(cs: seq<Client>, m: Message, i: int)
    requires 0 <= i < |cs|
    ensures DeliverAll(cs, m)[i] == Deliver(cs[i], m)
  {
    if i < |cs| - 1 {
      DeliverAllEach(cs[..|cs| - 1], m, i);
    }
  }

  /** Every OPEN client receives `m` exactly once, after what it already
      had; every other client is left as it was; no client is added,
      dropped or changes state. */
  lemma {:induction false} OnlyOpenReceive(cs: seq<Client>, m: Message)
    ensures |DeliverAll(cs, m)| == |cs|
    ensures forall i :: 0 <= i < |cs| ==>
              DeliverAll(cs, m)[i].state == cs[i].state
              && DeliverAll(cs, m)[i].outbox == cs[i].outbox + (if cs[i].state == Open then [m] else [])
  {
    forall i | 0 <= i < |cs|
      ensures DeliverAll(cs, m)[i].state == cs[i].state
      ensures DeliverAll(cs, m)[i].outbox == cs[i].outbox + (if cs[i].state == Open then [m] else [])
    {
      DeliverAllEach(cs, m, i);
      if cs[i].state != Open {
        assert cs[i].outbox + [] == cs[i].outbox;
      }
    }
  }

  /** Two broadcasts reach each OPEN client in the order they were made. */
  lemma {:induction false} BroadcastsInOrder(cs: seq<Client>, m1: Message, m2: Message)
    ensures forall i :: 0 <= i < |cs| && cs[i].state == Open ==>
              DeliverAll(DeliverAll(cs, m1), m2)[i].outbox == cs[i].outbox + [m1, m2]
  {
    forall i | 0 <= i < |cs| && cs[i].state == Open
      ensures DeliverAll(DeliverAll(cs, m1), m2)[i].outbox == cs[i].outbox + [m1, m2]
    {
      TwoDeliveries(cs, m1, m2, i);
    }
  }

  lemma {:induction false} TwoDeliveries(cs: seq<Client>, m1: Message, m2: Message, i: int)
    requires 0 <= i < |cs| && cs[i].state == Open
    ensures DeliverAll(DeliverAll(cs, m1), m2)[i].outbox == cs[i].outbox + [m1, m2]
  {
    var d1 := DeliverAll(cs, m1);
    DeliverAllEach(cs, m1, i);
    var c1 := Deliver(cs[i], m1);
    assert d1[i] == c1;
    assert c1.state == Open && c1.outbox == cs[i].outbox + [m1];
    DeliverAllEach(d1, m2, i);
    assert DeliverAll(d1, m2)[i] == Deliver(c1, m2);
    assert cs[i].outbox + [m1] + [m2] == cs[i].outbox + [m1, m2];
  }

  /** The number of OPEN clients. */
  function OpenCount(cs: seq<Client>): (n: nat)
    ensures n <= |cs|
  {
    if cs == [] then 0
    else OpenCount(cs[..|cs| - 1]) + (if cs[|cs| - 1].state == Open then 1 else 0)
  }

  /** The number of messages one fan-out sends, over all clients. */
  function Sent(before: seq<Client>, after: seq<Client>): int
    requires |before| == |after|
  {
    if before == [] then 0
    else Sent(before[..|before| - 1], after[..|after| - 1])
         + (|after[|after| - 1].outbox| - |before[|before| - 1].outbox|)
  }

  /** One fan-out sends exactly one message per OPEN client. */
  lemma {:induction false} SentToOpen(cs: seq<Client>, m: Message)
    ensures Sent(cs, DeliverAll(cs, m)) == OpenCount(cs)
  {
    if cs != [] {
      var front := cs[..|cs| - 1];
      var ds := DeliverAll(cs, m);
      assert ds[..|ds| - 1] == DeliverAll(front, m);
      SentToOpen(front, m);
    }
  }

  /** The set of viewers the WebSocket server holds. */
  class Registry {
    var clients: seq<Client>

    constructor (initial: seq<Client>)
      ensures clients == initial
    {
      clients := initial;
    }

    /** `wss.clients.forEach(...)`: send `m` to each OPEN client in turn. */
    method Broadcast(m: Message)
      modifies this
      ensures clients == DeliverAll(old(clients), m)
    {
      ghost var cs := clients;
      for i := 0 to |clients|
        invariant |clients| == |cs|
        invariant forall k :: 0 <= k < i ==> clients[k] == Deliver(cs[k], m)
        invariant forall k :: i <= k < |cs| ==> clients[k] == cs[k]
      {
        if clients[i].state == Open {
          clients := clients[i := clients[i].(outbox := clients[i].outbox + [m])];
        }
      }
      forall k | 0 <= k < |cs|
        ensures clients[k] == DeliverAll(cs, m)[k]
      {
        DeliverAllEach(cs, m, k);
      }
    }
  }
}
