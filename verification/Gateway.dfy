/**
 The mesh gateway's clients (framework/gateway/gateway_service.c): a CONNECT adds or renews a
 client, every advertisement ages all of them, and a client that reaches the limit is logged out.
 The device manager, the clock and memory answer through Boolean parameters.
 */
module Gateway {
  import opened Wrappers
  import opened Dlist
  import opened Sequences

  const MAX_GATEWAY_RECONNECT_TIMEOUT: nat := 48

  type Ieee = seq<bv8>
  type SockAddr = nat

  datatype Client = Client(ieee: Ieee, addr: SockAddr, timeout: nat)

  // What the gateway tells the device manager. Expired is the logout of a client that went offline.
  datatype Event = Login(ieee: Ieee) | Logout(ieee: Ieee) | Expired(ieee: Ieee) | Left(ieee: Ieee)

  // ---------------------------------------------------------------- specification

  function Age(c: Client): Client {
    if c.timeout < MAX_GATEWAY_RECONNECT_TIMEOUT then c.(timeout := c.timeout + 1) else c
  }

  function AgeEvents(c: Client): seq<Event> {
    if c.timeout + 1 == MAX_GATEWAY_RECONNECT_TIMEOUT then [Expired(c.ieee)] else []
  }

  function AgeAll(cs: seq<Client>): (r: seq<Client>)
    ensures |r| == |cs| && forall i :: 0 <= i < |cs| ==> r[i] == Age(cs[i])
  {
    seq(|cs|, i requires 0 <= i < |cs| => Age(cs[i]))
  }

  // The first k clients have been aged.
  predicate AgedUpTo(was: seq<Client>, cs: seq<Client>, k: nat) {
    |cs| == |was| && forall i :: 0 <= i < |was| ==> cs[i] == if i < k then Age(was[i]) else was[i]
  }

  function AgeAllEvents(cs: seq<Client>): seq<Event> {
    if cs == [] then [] else AgeAllEvents(cs[..|cs| - 1]) + AgeEvents(cs[|cs| - 1])
  }

  predicate Known(cs: seq<Client>, ieee: Ieee) {
    exists i :: 0 <= i < |cs| && cs[i].ieee == ieee
  }

  predicate DistinctIeee(cs: seq<Client>) {
    forall i, j :: 0 <= i < j < |cs| ==> cs[i].ieee != cs[j].ieee
  }

  predicate ClientsOk(cs: seq<Client>) {
    DistinctIeee(cs) && forall i :: 0 <= i < |cs| ==> cs[i].timeout <= MAX_GATEWAY_RECONNECT_TIMEOUT
  }

  // An accepted CONNECT: a known client is renewed in place, a new one goes to the end.
  function Renew(cs: seq<Client>, ieee: Ieee, addr: SockAddr): seq<Client> {
    if cs == [] then [Client(ieee, addr, 0)]
    else if cs[0].ieee == ieee then [Client(ieee, addr, 0)] + cs[1..]
    else [cs[0]] + Renew(cs[1..], ieee, addr)
  }

  function ConnectEvents(ieee: Ieee, login: bool): seq<Event> {
    [if login then Login(ieee) else Logout(ieee)]
  }

  lemma {:induction false} RenewAt(cs: seq<Client>, ieee: Ieee, addr: SockAddr, k: nat)
    requires k <= |cs| && (forall i :: 0 <= i < k ==> cs[i].ieee != ieee) && (k < |cs| ==> cs[k].ieee == ieee)
    ensures Renew(cs, ieee, addr) == cs[..k] + [Client(ieee, addr, 0)] + (if k < |cs| then cs[k + 1..] else [])
    decreases k
  {
    if k > 0 {
      RenewAt(cs[1..], ieee, addr, k - 1);
      assert cs[..k] == [cs[0]] + cs[1..][..k - 1];
      if k < |cs| { assert cs[1..][k..] == cs[k + 1..]; }
    }
  }

  // ---------------------------------------------------------------- the gateway

  class GatewayState {
    const head: Node<Client>
    var gatewayMode: bool
    var yunioConnected: bool
    var events: seq<Event>
    ghost var ring: seq<Node<Client>>
    ghost var clients: seq<Client>  // what the entries of the ring hold

    ghost predicate Holds(l: seq<Node<Client>>, cs: seq<Client>)
      reads l
    {
      |l| == |cs| + 1 && forall i :: 0 <= i < |cs| ==> l[i + 1].data == cs[i]
    }

    ghost predicate Valid()
      reads this, ring
    {
      Ring(ring) && ring[0] == head && Holds(ring, clients) && ClientsOk(clients)
    }

    constructor ()
      ensures Valid() && clients == [] && events == [] && fresh(ring)
    {
      head := new Node<Client>();
      gatewayMode, yunioConnected, events, clients := false, false, [], [];
      ring := [];
      new;
      Init(head);
      ring := [head];
    }

    // The entry of the client with this address, or the head if there is none.
    method Find(ieee: Ieee) returns (node: Node<Client>, ghost k: nat)
      requires Valid()
      ensures k <= |clients| && forall i :: 0 <= i < k ==> clients[i].ieee != ieee
      ensures if k < |clients| then node == ring[k + 1] && clients[k].ieee == ieee else node == head
    {
      k := 0;
      assert LinkedAt(ring, 0);
      node := head.next;
      while node != head
        invariant k <= |clients| && node == After(ring, k)
        invariant forall i :: 0 <= i < k ==> clients[i].ieee != ieee
        decreases |clients| - k
      {
        if node.data.ieee == ieee { return; }
        k := k + 1;
        assert LinkedAt(ring, k);
        node := node.next;
      }
    }

    // A new entry at the end of the list.
    method Append(c: Client)
      requires Valid() && !Known(clients, c.ieee) && c.timeout == 0
      modifies this`ring, this`clients, ring`prev, ring`next
      ensures Valid() && clients == old(clients) + [c]
      ensures |ring| == |old(ring)| + 1 && ring[..|old(ring)|] == old(ring) && fresh(ring[|old(ring)|])
    {
      ghost var l := ring;
      var node := new Node<Client>();
      node.data := c;
      forall i | 0 <= i < |l| ensures LinkedAt(l, i) { assert old(LinkedAt(l, i)); }
      AddTail(node, head, l);
      ring := l + [node];
      clients := clients + [c];
    }

    // The client found in place gets its timeout cleared and its address stored.
    method Reset(node: Node<Client>, ghost k: nat, c: Client)
      requires Valid() && k < |clients| && node == ring[k + 1] && clients[k].ieee == c.ieee && c.timeout == 0
      modifies this`clients, node`data
      ensures Valid() && clients == old(clients)[k := c]
    {
      node.data := c;
      clients := clients[k := c];
      forall i | 0 <= i < |ring| ensures LinkedAt(ring, i) { assert old(LinkedAt(ring, i)); }
    }

    // new_client and the address update of handle_connect. mallocOk, joinOk and infoOk say whether there is
    // memory, the device manager accepts the device, and it then knows the device.
    method NewClient(ieee: Ieee, addr: SockAddr, login: bool, mallocOk: bool, joinOk: bool, infoOk: bool)
      returns (ok: bool)
      requires Valid()
      modifies this`events, this`ring, this`clients, ring
      ensures Valid()
      ensures forall n :: n in ring ==> n in old(ring) || fresh(n)
      ensures ok <==> Known(old(clients), ieee) || (mallocOk && joinOk && infoOk)
      ensures clients == if ok then Renew(old(clients), ieee, addr) else old(clients)
      ensures events == old(events) + if ok then ConnectEvents(ieee, login) else []
    {
      ghost var k;
      var node;
      node, k := Find(ieee);
      RenewAt(clients, ieee, addr, k);
      if node == head {
        if !mallocOk || !joinOk || !infoOk { return false; }
        Append(Client(ieee, addr, 0));
      } else {
        Reset(node, k, Client(ieee, addr, 0));
      }
      events := events + ConnectEvents(ieee, login);
      return true;
    }

    // handle_connect: the return code of the CONNACK, or None if none is sent.
    method HandleConnect(ieee: Ieee, src: SockAddr, login: bool, mallocOk: bool, joinOk: bool, infoOk: bool)
      returns (ack: Option<int>)
      requires Valid()
      modifies this`events, this`ring, this`clients, ring
      ensures Valid()
      ensures forall n :: n in ring ==> n in old(ring) || fresh(n)
      ensures var accepted :=
                gatewayMode && yunioConnected && (Known(old(clients), ieee) || (mallocOk && joinOk && infoOk));
              && ack == (if !gatewayMode then None else if accepted then Some(0) else Some(-1))
              && clients == (if accepted then Renew(old(clients), ieee, src) else old(clients))
              && events == old(events) + (if accepted then ConnectEvents(ieee, login) else [])
    {
      if !gatewayMode { return None; }
      var ok := false;
      if yunioConnected { ok := NewClient(ieee, src, login, mallocOk, joinOk, infoOk); }
      return Some(if ok then 0 else -1);
    }

    // One round of gateway_advertise's loop.
    method AgeOne(node: Node<Client>, ghost k: nat)
      requires Valid() && k < |clients| && node == ring[k + 1]
      modifies this`events, this`clients, node`data
      ensures Valid() && clients == old(clients)[k := Age(old(clients)[k])]
      ensures events == old(events) + AgeEvents(old(clients)[k])
    {
      var c := node.data;
      if c.timeout < MAX_GATEWAY_RECONNECT_TIMEOUT {
        node.data := c.(timeout := c.timeout + 1);
        if node.data.timeout >= MAX_GATEWAY_RECONNECT_TIMEOUT { events := events + [Expired(c.ieee)]; }
      }
      clients := clients[k := Age(c)];
      forall i | 0 <= i < |ring| ensures LinkedAt(ring, i) { assert old(LinkedAt(ring, i)); }
    }

    // gateway_advertise: without an address of its own the gateway sends nothing and ages no one.
    method Advertise(addrOk: bool)
      requires Valid()
      modifies this`events, this`clients, ring`data
      ensures Valid()
      ensures clients == if addrOk then AgeAll(old(clients)) else old(clients)
      ensures events == old(events) + if addrOk then AgeAllEvents(old(clients)) else []
    {
      if addrOk { AgeEvery(); }
    }

    // The first k clients have been aged.
    ghost predicate Aging(was: seq<Client>, log: seq<Event>, k: nat)
      reads this, ring
    {
      && Valid() && k <= |was| && AgedUpTo(was, clients, k)
      && events == log + AgeAllEvents(was[..k])
    }

    // One round of the loop.
    method AgeNext(node: Node<Client>, ghost k: nat, ghost was: seq<Client>, ghost log: seq<Event>)
      returns (next: Node<Client>)
      requires Aging(was, log, k) && k < |was| && node == ring[k + 1]
      modifies this`events, this`clients, ring`data
      ensures Aging(was, log, k + 1) && next == After(ring, k + 1)
    {
      assert was[..k + 1][..k] == was[..k];
      AgeOne(node, k);
      assert LinkedAt(ring, k + 1);
      next := node.next;
    }

    method AgeEvery()
      requires Valid()
      modifies this`events, this`clients, ring`data
      ensures Valid() && clients == AgeAll(old(clients))
      ensures events == old(events) + AgeAllEvents(old(clients))
    {
      ghost var was, log, k := clients, events, 0;
      assert LinkedAt(ring, 0);
      var node := head.next;
      while node != head
        invariant Aging(was, log, k) && node == After(ring, k)
        decreases |was| - k
      {
        node := AgeNext(node, k, was, log);
        k := k + 1;
      }
      assert was[..k] == was;
    }

    // An operation of the gateway is the corresponding step of a run.
    method Perform(op: Op)
      requires Valid() && (op.Connect? ==> op.open == (gatewayMode && yunioConnected))
      modifies this`events, this`ring, this`clients, ring
      ensures Valid() && World(clients, events) == Do(World(old(clients), old(events)), op)
    {
      match op {
        case Tick(addrOk) => Advertise(addrOk);
        case Connect(ieee, addr, login, open, granted) =>
          var ack := HandleConnect(ieee, addr, login, granted, granted, granted);
      }
    }

    // One round of gateway_service_stop's loop.
    method DropFirst()
      requires Valid() && clients != []
      modifies this`events, this`ring, this`clients, ring`prev, ring`next
      ensures Valid() && clients == old(clients)[1..] && |ring| == |old(ring)| - 1
      ensures forall i :: 0 <= i < |ring| ==> ring[i] in old(ring)
      ensures events == old(events) + [Left(old(clients)[0].ieee)]
    {
      ghost var l := ring;
      assert LinkedAt(l, 0);
      var node := head.next;
      Del(node, l, 1);
      ring := Drop(l, 1);
      clients := clients[1..];
      events := events + [Left(node.data.ieee)];
    }

    // gateway_service_stop: every client leaves, in list order.
    method Stop()
      requires Valid()
      modifies this`events, this`ring, this`clients, ring`prev, ring`next
      ensures Valid() && clients == [] && ring == [head]
      ensures events == old(events) + LeaveEvents(old(clients))
    {
      ghost var was := clients;
      var empty := Empty(head, ring);
      while !empty
        invariant Valid() && empty == (ring == [head]) && forall i :: 0 <= i < |ring| ==> ring[i] in old(ring)
        invariant events + LeaveEvents(clients) == old(events) + LeaveEvents(was)
        decreases |ring|
      {
        DropFirst();
        empty := Empty(head, ring);
      }
    }
  }

  function LeaveEvents(cs: seq<Client>): seq<Event> {
    if cs == [] then [] else [Left(cs[0].ieee)] + LeaveEvents(cs[1..])
  }

  // ---------------------------------------------------------------- whole runs

  // open: the gateway is in gateway mode and connected; granted: it can take a new device.
  datatype Op = Tick(addrOk: bool) | Connect(ieee: Ieee, addr: SockAddr, login: bool, open: bool, granted: bool)

  datatype World = World(clients: seq<Client>, log: seq<Event>)

  function Do(w: World, op: Op): World {
    match op
    case Tick(addrOk) => if addrOk then World(AgeAll(w.clients), w.log + AgeAllEvents(w.clients)) else w
    case Connect(ieee, addr, login, open, granted) =>
      if open && (Known(w.clients, ieee) || granted)
      then World(Renew(w.clients, ieee, addr), w.log + ConnectEvents(ieee, login)) else w
  }

  function DoAll(w: World, ops: seq<Op>): World
    decreases |ops|
  {
    if ops == [] then w else DoAll(Do(w, ops[0]), ops[1..])
  }

  // The completed advertisements of a run.
  function Ticks(ops: seq<Op>): nat {
    if ops == [] then 0 else TicksOf(ops[0]) + Ticks(ops[1..])
  }

  // How often a client has been logged out for going offline.
  function Expirations(log: seq<Event>, x: Ieee): nat {
    if log == [] then 0 else Expirations(log[..|log| - 1], x) + (if log[|log| - 1] == Expired(x) then 1 else 0)
  }

  lemma {:induction false} ExpirationsConcat(l: seq<Event>, m: seq<Event>, x: Ieee)
    ensures Expirations(l + m, x) == Expirations(l, x) + Expirations(m, x)
    decreases |m|
  {
    if m == [] {
      assert l + m == l;
    } else {
      assert (l + m)[..|l + m| - 1] == l + m[..|m| - 1];
      ExpirationsConcat(l, m[..|m| - 1], x);
    }
  }

  lemma ExpirationsOfAge(c: Client, x: Ieee)
    ensures Expirations(AgeEvents(c), x) ==
      if c.ieee == x && c.timeout + 1 == MAX_GATEWAY_RECONNECT_TIMEOUT then 1 else 0
  {}

  // Of all the clients an advertisement ages, only the one with this address can add to its expirations.
  lemma {:induction false} ExpirationsOfTick(cs: seq<Client>, x: Ieee, i: nat)
    requires DistinctIeee(cs) && i <= |cs| && forall j :: 0 <= j < |cs| && j != i ==> cs[j].ieee != x
    requires i < |cs| ==> cs[i].ieee == x
    ensures Expirations(AgeAllEvents(cs), x) ==
      if i < |cs| && cs[i].timeout + 1 == MAX_GATEWAY_RECONNECT_TIMEOUT then 1 else 0
  {
    if cs != [] {
      var init := cs[..|cs| - 1];
      ExpirationsOfTick(init, x, if i < |init| then i else |init|);
      ExpirationsConcat(AgeAllEvents(init), AgeEvents(cs[|cs| - 1]), x);
      ExpirationsOfAge(cs[|cs| - 1], x);
    }
  }

  lemma {:induction false} FirstIndex(cs: seq<Client>, ieee: Ieee) returns (k: nat)
    ensures k <= |cs| && (forall i :: 0 <= i < k ==> cs[i].ieee != ieee) && (k < |cs| ==> cs[k].ieee == ieee)
    ensures k < |cs| <==> Known(cs, ieee)
  {
    k := 0;
    while k < |cs| && cs[k].ieee != ieee
      invariant k <= |cs| && forall i :: 0 <= i < k ==> cs[i].ieee != ieee
    {
      k := k + 1;
    }
  }

  lemma RenewKeepsClients(cs: seq<Client>, ieee: Ieee, addr: SockAddr)
    requires ClientsOk(cs)
    ensures ClientsOk(Renew(cs, ieee, addr)) && |Renew(cs, ieee, addr)| >= |cs|
    ensures forall i :: 0 <= i < |cs| ==>
              Renew(cs, ieee, addr)[i] == if ieee == cs[i].ieee then Client(ieee, addr, 0) else cs[i]
  {
    var k := FirstIndex(cs, ieee);
    RenewIs(cs, ieee, addr, k);
  }

  lemma RenewIs(cs: seq<Client>, ieee: Ieee, addr: SockAddr, k: nat)
    requires k <= |cs| && (forall i :: 0 <= i < k ==> cs[i].ieee != ieee) && (k < |cs| ==> cs[k].ieee == ieee)
    ensures Renew(cs, ieee, addr) == if k < |cs| then cs[k := Client(ieee, addr, 0)] else cs + [Client(ieee, addr, 0)]
  {
    RenewAt(cs, ieee, addr, k);
    if k == |cs| { assert cs[..k] == cs; } else { UpdateInParts(cs, k, Client(ieee, addr, 0)); }
  }

  lemma UpdateInParts<T>(s: seq<T>, k: nat, x: T)
    requires k < |s|
    ensures s[..k] + [x] + s[k + 1..] == s[k := x]
  {}

  // No operation breaks the invariant, and none moves a client or touches one it does not concern.
  lemma OpKeepsClients(w: World, op: Op)
    requires ClientsOk(w.clients)
    ensures ClientsOk(Do(w, op).clients) && |Do(w, op).clients| >= |w.clients|
    ensures forall i :: 0 <= i < |w.clients| ==>
              Do(w, op).clients[i] ==
                if op.Tick? && op.addrOk then Age(w.clients[i])
                else if op.Connect? && op.open && op.ieee == w.clients[i].ieee then Client(op.ieee, op.addr, 0)
                else w.clients[i]
  {
    if op.Connect? { RenewKeepsClients(w.clients, op.ieee, op.addr); }
  }

  // The operation is a CONNECT the gateway hears from x.
  predicate Hears(op: Op, x: Ieee) {
    op.Connect? && op.open && op.ieee == x
  }

  // The i-th client has aged by n advertisements, and was logged out if it reached the limit meanwhile.
  ghost predicate AgedBy(w: World, r: World, n: nat, i: nat)
    requires i < |w.clients|
  {
    var c := w.clients[i];
    && i < |r.clients| && r.clients[i].ieee == c.ieee && r.clients[i].addr == c.addr
    && r.clients[i].timeout == Min(c.timeout + n, MAX_GATEWAY_RECONNECT_TIMEOUT)
    && Expirations(r.log, c.ieee) == Expirations(w.log, c.ieee)
         + (if c.timeout < MAX_GATEWAY_RECONNECT_TIMEOUT <= c.timeout + n then 1 else 0)
  }

  function TicksOf(op: Op): nat {
    if op.Tick? && op.addrOk then 1 else 0
  }

  // One operation that is not a CONNECT of this client.
  lemma OpOnOther(w: World, op: Op, i: nat)
    requires ClientsOk(w.clients) && i < |w.clients|
    requires !Hears(op, w.clients[i].ieee)
    ensures AgedBy(w, Do(w, op), TicksOf(op), i)
  {
    OpKeepsClients(w, op);
    match op {
      case Tick(addrOk) =>
        ExpirationsOfTick(w.clients, w.clients[i].ieee, i);
        ExpirationsConcat(w.log, AgeAllEvents(w.clients), w.clients[i].ieee);
      case Connect(ieee, addr, login, open, granted) =>
        ExpirationsConcat(w.log, ConnectEvents(ieee, login), w.clients[i].ieee);
        assert ConnectEvents(ieee, login)[..0] == [];
    }
  }

  lemma AgedTwice(w: World, v: World, r: World, n: nat, m: nat, i: nat)
    requires i < |w.clients| && AgedBy(w, v, n, i) && AgedBy(v, r, m, i)
    ensures AgedBy(w, r, n + m, i)
  {}

  // A client that sends no CONNECT ages by one with each completed advertisement up to the limit, and is
  // logged out exactly once, when it gets there.
  lemma {:induction false} ExpiryOverRuns(w: World, ops: seq<Op>, i: nat)
    requires ClientsOk(w.clients) && i < |w.clients|
    requires forall j :: 0 <= j < |ops| ==> !Hears(ops[j], w.clients[i].ieee)
    ensures ClientsOk(DoAll(w, ops).clients) && AgedBy(w, DoAll(w, ops), Ticks(ops), i)
    decreases |ops|
  {
    if ops != [] {
      var v := Do(w, ops[0]);
      OpKeepsClients(w, ops[0]);
      OpOnOther(w, ops[0], i);
      ExpiryOverRuns(v, ops[1..], i);
      AgedTwice(w, v, DoAll(v, ops[1..]), TicksOf(ops[0]), Ticks(ops[1..]), i);
    }
  }

  // An accepted CONNECT starts the count again from 0, wherever it stood.
  lemma ConnectRestartsTheClock(w: World, op: Op, ops: seq<Op>) returns (i: nat)
    requires ClientsOk(w.clients) && op.Connect? && op.open && (Known(w.clients, op.ieee) || op.granted)
    requires forall j :: 0 <= j < |ops| ==> !Hears(ops[j], op.ieee)
    ensures var r := DoAll(Do(w, op), ops);
            && i < |r.clients| && r.clients[i].ieee == op.ieee && r.clients[i].addr == op.addr
            && r.clients[i].timeout == Min(Ticks(ops), MAX_GATEWAY_RECONNECT_TIMEOUT)
            && Expirations(r.log, op.ieee) == Expirations(w.log, op.ieee)
                 + (if Ticks(ops) >= MAX_GATEWAY_RECONNECT_TIMEOUT then 1 else 0)
  {
    i := FirstIndex(w.clients, op.ieee);
    RenewAt(w.clients, op.ieee, op.addr, i);
    OpKeepsClients(w, op);
    ExpirationsConcat(w.log, ConnectEvents(op.ieee, op.login), op.ieee);
    assert ConnectEvents(op.ieee, op.login)[..0] == [];
    ExpiryOverRuns(Do(w, op), ops, i);
  }
}
