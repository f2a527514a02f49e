/**
 The descriptor table of the socket layer (device/sal/sal_sockets.c): sockets and event
 descriptors, the connection behind every socket, and the two port lists.
 Memory and the AT module answer through Boolean parameters.
 */
module SocketTable {
  import opened Sequences
  import opened Wrappers
  import opened Ports

  const NUM_SOCKETS: nat := 5
  const NUM_EVENTS: nat := 5
  const EVENT_OFFSET: nat := NUM_SOCKETS

  datatype Proto = Tcp | Udp
  datatype ConnState = Unconnected | Connected
  datatype SockType = Raw | Dgram | Stream | Unknown

  // struct sal_netconn; every connection belongs to one slot of the table.
  datatype Conn = Conn(socket: int, state: ConnState, proto: Proto, pcb: Pcb)

  type Slots = seq<Option<Conn>>

  // ---------------------------------------------------------------- the table as a value

  // The slot's connection points back at the slot.
  predicate PointsBack(slots: Slots) {
    forall i :: 0 <= i < |slots| && slots[i].Some? ==> slots[i].value.socket == i
  }

  predicate OwnPcbs(slots: Slots) {
    forall i, j :: 0 <= i < j < |slots| && slots[i].Some? && slots[j].Some? ==> slots[i].value.pcb != slots[j].value.pcb
  }

  // Some open socket of this protocol has the control block.
  ghost predicate Owned(slots: Slots, p: Pcb, proto: Proto) {
    exists i :: 0 <= i < |slots| && slots[i].Some? && slots[i].value.pcb == p && slots[i].value.proto == proto
  }

  ghost predicate AllOwned(slots: Slots, l: seq<Pcb>, proto: Proto) {
    forall p :: p in l ==> Owned(slots, p, proto)
  }

  lemma OwnedElsewhere(slots: Slots, slots': Slots, k: nat, l: seq<Pcb>, proto: Proto)
    requires |slots| == |slots'| && k < |slots| && AllOwned(slots, l, proto)
    requires forall i :: 0 <= i < |slots| && i != k ==> slots'[i] == slots[i]
    requires slots[k].Some? && slots[k].value.pcb in l ==>
               slots'[k].Some? && slots'[k].value.pcb == slots[k].value.pcb &&
               slots'[k].value.proto == slots[k].value.proto
    ensures AllOwned(slots', l, proto)
  {}

  // A control block on a list is on it for the protocol of its own socket.
  lemma ListedForOwnProtocol(slots: Slots, l: seq<Pcb>, proto: Proto, k: nat)
    requires OwnPcbs(slots) && AllOwned(slots, l, proto) && k < |slots| && slots[k].Some? && slots[k].value.pcb in l
    ensures slots[k].value.proto == proto
  {}

  // The two lists share no control block.
  lemma ListsDisjoint(slots: Slots, tl: seq<Pcb>, ul: seq<Pcb>)
    requires OwnPcbs(slots) && AllOwned(slots, tl, Tcp) && AllOwned(slots, ul, Udp)
    ensures forall p :: p in tl ==> p !in ul
  {}

  // The control block leaves its own list, if it was on it; no other entry of either list moves.
  method Unlist(mine: PcbTable, other: PcbTable, pcb: Pcb)
    requires mine != other && mine.Valid() && other.Valid()
    requires forall p :: p in mine.pcbs ==> p !in other.pcbs
    modifies mine`head, mine`pcbs, mine`ports, mine.pcbs`next
    ensures mine.Valid() && other.Valid()
    ensures forall p :: p in mine.pcbs <==> p in old(mine.pcbs) && p != pcb
    ensures pcb !in old(mine.pcbs) ==> mine.pcbs == old(mine.pcbs)
    ensures forall k :: 0 <= k < |old(mine.pcbs)| && old(mine.pcbs)[k] == pcb ==> mine.pcbs == Drop(old(mine.pcbs), k)
  {
    ghost var l := mine.pcbs;
    mine.Remove(pcb);
    forall i | 0 <= i < |other.pcbs| ensures LinkedAt(other.pcbs, other.ports, i) {
      assert other.pcbs[i] !in l && old(LinkedAt(other.pcbs, other.ports, i));
    }
    if pcb in l {
      ghost var k :| 0 <= k < |l| && l[k] == pcb;
      forall p ensures p in Drop(l, k) <==> p in l && p != pcb { DropMembers(l, k, p); }
    }
  }

  // A bind on one list leaves the other one well formed.
  method BindIn(mine: PcbTable, other: PcbTable, pcb: Pcb, ip: Option<nat>, port: nat, rand: bv32) returns (err: Err)
    requires mine != other && mine.Valid() && other.Valid() && pcb !in other.pcbs && port <= 0xffff
    modifies mine, pcb
    ensures mine.Valid() && other.Valid()
    ensures err == if port == 0 then (if DynamicPorts() <= Elements(old(mine.ports)) then ErrBuf else Ok)
                   else if exists i :: 0 <= i < |old(mine.pcbs)| &&
                                       old(mine.pcbs)[i] != pcb && old(mine.ports)[i] == port
                   then ErrUse else Ok
    ensures err != Ok ==> mine.pcbs == old(mine.pcbs) && unchanged(pcb)
    ensures err == Ok ==>
              && mine.pcbs == ListedFirst(pcb, old(mine.pcbs)) && pcb.localPort != 0
              && (port != 0 ==> pcb.localPort == port)
              && pcb.localIp == (match ip case Some(a) => a case None => old(pcb.localIp))
              && pcb.remoteIp == old(pcb.remoteIp) && pcb.remotePort == old(pcb.remotePort)
    ensures err == Ok && port == 0 ==> IsFree(pcb.localPort, old(mine.ports))
  {
    err := mine.Bind(pcb, ip, port, rand);
    forall i | 0 <= i < |other.pcbs| ensures LinkedAt(other.pcbs, other.ports, i) {
      assert other.pcbs[i] in other.pcbs && old(LinkedAt(other.pcbs, other.ports, i));
    }
    if err == Ok {
      ghost var k :| 0 <= k < |mine.pcbs| && mine.pcbs[k] == pcb;
      assert LinkedAt(mine.pcbs, mine.ports, k);
    }
  }

  // ---------------------------------------------------------------- the layer

  class SocketLayer {
    var sockets: Slots
    var events: seq<bool>
    const tcp: PcbTable
    const udp: PcbTable

    ghost predicate Valid()
      reads this, tcp, udp, tcp.pcbs, udp.pcbs, Pcbs()
    {
      && |sockets| == NUM_SOCKETS && |events| == NUM_EVENTS
      && tcp != udp && tcp.Valid() && udp.Valid()
      && PointsBack(sockets) && OwnPcbs(sockets)
      && AllOwned(sockets, tcp.pcbs, Tcp) && AllOwned(sockets, udp.pcbs, Udp)
      && forall i :: 0 <= i < |sockets| && sockets[i].Some? ==> ListedIffBound(sockets[i].value)
    }

    ghost function Pcbs(): set<Pcb>
      reads this
    {
      set i | 0 <= i < |sockets| && sockets[i].Some? :: sockets[i].value.pcb
    }

    // A live control block is on the list of its protocol exactly when it has a local port.
    ghost predicate ListedIffBound(c: Conn)
      reads tcp, udp, c.pcb
    {
      c.pcb.localPort != 0 <==> c.pcb in Table(c.proto).pcbs
    }

    function Table(proto: Proto): PcbTable {
      if proto == Tcp then tcp else udp
    }

    static function Other(proto: Proto): Proto {
      if proto == Tcp then Udp else Tcp
    }

    lemma ListsOnlyHoldOpenPcbs()
      requires Valid()
      ensures forall p :: p in tcp.pcbs || p in udp.pcbs ==> p in Pcbs()
    {}

    // get_socket / tryget_socket
    predicate IsSocket(s: int)
      reads this
    {
      0 <= s < |sockets| && sockets[s].Some?
    }

    // tryget_event
    predicate IsEvent(s: int)
      reads this
    {
      0 <= s - EVENT_OFFSET < |events| && events[s - EVENT_OFFSET]
    }

    constructor ()
      ensures Valid() && fresh(tcp) && fresh(udp)
      ensures forall i :: 0 <= i < NUM_SOCKETS ==> sockets[i].None?
      ensures forall s :: !IsSocket(s) && !IsEvent(s)
    {
      sockets := seq(NUM_SOCKETS, _ => None);
      events := seq(NUM_EVENTS, _ => false);
      tcp := new PcbTable();
      udp := new PcbTable();
    }

    // sal_eventfd
    method EventFd() returns (fd: int)
      requires Valid()
      modifies this`events
      ensures Valid()
      ensures fd == -1 <==> forall i :: 0 <= i < NUM_EVENTS ==> old(events)[i]
      ensures fd == -1 ==> events == old(events)
      ensures fd != -1 ==>
                !old(IsEvent(fd)) && IsEvent(fd) && !IsSocket(fd) && events == old(events)[fd - EVENT_OFFSET := true]
      ensures fd != -1 ==> forall i :: 0 <= i < fd - EVENT_OFFSET ==> old(events)[i]
    {
      for i := 0 to NUM_EVENTS
        invariant forall j :: 0 <= j < i ==> events[j]
      {
        if !events[i] {
          events := events[i := true];
          return i + EVENT_OFFSET;
        }
      }
      return -1;
    }

    // sal_socket: connOk, mboxOk and pcbOk say whether the three allocations succeed.
    method Socket(kind: SockType, connOk: bool, mboxOk: bool, pcbOk: bool) returns (fd: int)
      requires Valid()
      modifies this`sockets
      ensures Valid()
      ensures fd == -1 <==> kind.Raw? || kind.Unknown? || !connOk || !mboxOk || !pcbOk
                            || forall i :: 0 <= i < NUM_SOCKETS ==> old(sockets)[i].Some?
      ensures fd == -1 ==> sockets == old(sockets)
      ensures fd != -1 ==>
                && IsSocket(fd) && !IsEvent(fd) && !old(IsSocket(fd))
                && (forall i :: 0 <= i < fd ==> old(sockets)[i].Some?)
                && sockets == old(sockets)[fd := sockets[fd]]
                && sockets[fd].value.proto == (if kind.Dgram? then Udp else Tcp)
                && sockets[fd].value.state == Unconnected
                && fresh(sockets[fd].value.pcb) && sockets[fd].value.pcb.localPort == 0
    {
      if kind.Raw? || kind.Unknown? || !connOk || !mboxOk || !pcbOk { return -1; }
      var pcb := new Pcb();
      var conn := Conn(-1, Unconnected, if kind.Dgram? then Udp else Tcp, pcb);
      fd := Alloc(conn);
    }

    // alloc_socket takes the lowest free slot; the caller then stores the slot's number in the connection.
    method Alloc(conn: Conn) returns (fd: int)
      requires Valid()
      requires conn.pcb !in Pcbs() && conn.pcb.localPort == 0
      modifies this`sockets
      ensures Valid()
      ensures fd == -1 <==> forall i :: 0 <= i < NUM_SOCKETS ==> old(sockets)[i].Some?
      ensures fd == -1 ==> sockets == old(sockets)
      ensures fd != -1 ==>
                && 0 <= fd < NUM_SOCKETS && !old(IsSocket(fd)) && (forall i :: 0 <= i < fd ==> old(sockets)[i].Some?)
                && sockets == old(sockets)[fd := Some(conn.(socket := fd))]
    {
      for i := 0 to NUM_SOCKETS
        invariant sockets == old(sockets) && forall j :: 0 <= j < i ==> sockets[j].Some?
      {
        if sockets[i].None? {
          ghost var was := sockets;
          assert forall j :: 0 <= j < |was| && was[j].Some? ==> was[j].value.pcb in Pcbs();
          sockets := sockets[i := Some(conn.(socket := i))];
          OwnedElsewhere(was, sockets, i, tcp.pcbs, Tcp);
          OwnedElsewhere(was, sockets, i, udp.pcbs, Udp);
          assert conn.pcb in Table(conn.proto).pcbs ==> Owned(was, conn.pcb, conn.proto);
          return i;
        }
      }
      return -1;
    }

    // Valid, but for slot s, whose control block is on neither list.
    ghost predicate Detached(s: nat)
      reads this, tcp, udp, tcp.pcbs, udp.pcbs, Pcbs()
    {
      && |sockets| == NUM_SOCKETS && |events| == NUM_EVENTS
      && tcp != udp && tcp.Valid() && udp.Valid()
      && PointsBack(sockets) && OwnPcbs(sockets)
      && AllOwned(sockets, tcp.pcbs, Tcp) && AllOwned(sockets, udp.pcbs, Udp)
      && IsSocket(s) && sockets[s].value.pcb !in tcp.pcbs && sockets[s].value.pcb !in udp.pcbs
      && forall i :: 0 <= i < |sockets| && i != s && sockets[i].Some? ==> ListedIffBound(sockets[i].value)
    }

    // salnetconn_delete, first part: the control block leaves its list.
    method Detach(s: nat)
      requires Valid() && IsSocket(s)
      modifies tcp`head, tcp`pcbs, tcp`ports, udp`head, udp`pcbs, udp`ports, tcp.pcbs`next, udp.pcbs`next
      ensures Detached(s)
      ensures var c := sockets[s].value;
              && (forall p :: p in Table(c.proto).pcbs <==> p in old(Table(c.proto).pcbs) && p != c.pcb)
              && Table(Other(c.proto)).pcbs == old(Table(Other(c.proto)).pcbs)
    {
      var c := sockets[s].value;
      var mine, other := Table(c.proto), Table(Other(c.proto));
      ListsDisjoint(sockets, tcp.pcbs, udp.pcbs);
      if c.pcb in other.pcbs { ListedForOwnProtocol(sockets, other.pcbs, Other(c.proto), s); }
      Unlist(mine, other, c.pcb);
      forall i | 0 <= i < |sockets| && i != s && sockets[i].Some? ensures ListedIffBound(sockets[i].value) {
        assert old(ListedIffBound(sockets[i].value));
        assert sockets[i].value.pcb != c.pcb;
      }
    }

    // salnetconn_delete, second part, and free_socket: the slot is emptied.
    method EmptySlot(s: nat)
      requires Detached(s)
      modifies this`sockets
      ensures Valid()
      ensures sockets == old(sockets)[s := None]
    {
      ghost var was := sockets;
      var c := sockets[s].value;
      if IsSocket(c.socket) { sockets := sockets[c.socket := None]; }
      sockets := sockets[s := None];
      assert sockets == was[s := None];
      OwnedElsewhere(was, sockets, s, tcp.pcbs, Tcp);
      OwnedElsewhere(was, sockets, s, udp.pcbs, Udp);
      assert forall i :: 0 <= i < |was| && i != s && was[i].Some? ==> old(ListedIffBound(was[i].value));
    }

    // sal_close: moduleOk is the answer of sal_module_close.
    method Close(s: int, moduleOk: bool) returns (ret: int)
      requires Valid()
      modifies this`sockets, this`events, tcp`head, tcp`pcbs, tcp`ports, udp`head, udp`pcbs, udp`ports
      modifies tcp.pcbs`next, udp.pcbs`next
      ensures Valid()
      ensures ret == 0 || ret == -1
      ensures ret == 0 <==>
                old(IsEvent(s)) || (old(IsSocket(s)) && (old(sockets)[s].value.state == Connected ==> moduleOk))
      ensures ret == 0 ==> !IsSocket(s) && !IsEvent(s)
      ensures ret == -1 ==> sockets == old(sockets) && events == old(events)
      ensures ret == -1 || old(IsEvent(s)) ==> tcp.pcbs == old(tcp.pcbs) && udp.pcbs == old(udp.pcbs)
      ensures old(IsEvent(s)) ==> events == old(events)[s - EVENT_OFFSET := false] && sockets == old(sockets)
      // closing a socket empties its slot and frees its port; every other socket, event and list entry stays
      ensures ret == 0 && old(IsSocket(s)) ==>
                var c := old(sockets)[s].value;
                && sockets == old(sockets)[s := None] && events == old(events)
                && (forall p :: p in Table(c.proto).pcbs <==> p in old(Table(c.proto).pcbs) && p != c.pcb)
                && Table(Other(c.proto)).pcbs == old(Table(Other(c.proto)).pcbs)
    {
      if IsEvent(s) {
        events := events[s - EVENT_OFFSET := false];
        return 0;
      }
      if !IsSocket(s) { return -1; }
      if sockets[s].value.state == Connected && !moduleOk { return -1; }
      Detach(s);
      EmptySlot(s);
      return 0;
    }

    // salnetconn_bind: the socket's control block takes the port; nothing else in the table moves.
    method BindConn(s: nat, ip: Option<nat>, port: nat, rand: bv32) returns (err: Err)
      requires Valid() && IsSocket(s) && port <= 0xffff
      modifies tcp, udp, sockets[s].value.pcb
      ensures Valid()
      ensures var c := sockets[s].value;
              var other := Table(Other(c.proto));
              && err != ErrVal
              && other.pcbs == old(other.pcbs) && other.ports == old(other.ports)
              && other.lastPort == old(other.lastPort)
              && c.pcb.remoteIp == old(c.pcb.remoteIp) && c.pcb.remotePort == old(c.pcb.remotePort)
      ensures var c := sockets[s].value;
              var mine := Table(c.proto);
              if err != Ok then
                mine.pcbs == old(mine.pcbs) && c.pcb.localPort == old(c.pcb.localPort) &&
                c.pcb.localIp == old(c.pcb.localIp)
              else mine.pcbs == ListedFirst(c.pcb, old(mine.pcbs)) && (port != 0 ==> c.pcb.localPort == port)
                   && c.pcb.localIp == match ip case Some(a) => a case None => old(c.pcb.localIp)
      ensures var c := sockets[s].value;
              var mine := Table(c.proto);
              err == if port == 0 then (if DynamicPorts() <= Elements(old(mine.ports)) then ErrBuf else Ok)
                     else if exists i :: 0 <= i < |old(mine.pcbs)| &&
                                         old(mine.pcbs)[i] != c.pcb && old(mine.ports)[i] == port
                     then ErrUse else Ok
      ensures err == Ok && port == 0 ==>
                IsFree(sockets[s].value.pcb.localPort, old(Table(sockets[s].value.proto).ports))
    {
      var c := sockets[s].value;
      var mine, other := Table(c.proto), Table(Other(c.proto));
      if c.pcb in other.pcbs { ListedForOwnProtocol(sockets, other.pcbs, Other(c.proto), s); }
      err := BindIn(mine, other, c.pcb, ip, port, rand);
      assert Owned(sockets, c.pcb, c.proto);
      forall i | 0 <= i < |sockets| && sockets[i].Some? ensures ListedIffBound(sockets[i].value) {
        assert old(ListedIffBound(sockets[i].value));
        if i != s { assert sockets[i].value.pcb != c.pcb; }
      }
    }

    // The port announced to the AT module for an unbound UDP socket; 0 when the range is used up.
    method AnnouncePort(rand: bv32) returns (port: nat)
      requires Valid()
      modifies udp`lastPort
      ensures Valid() && udp.ports == old(udp.ports)
      ensures port == 0 <==> DynamicPorts() <= Elements(udp.ports)
      ensures port != 0 ==> IsFree(port, udp.ports)
    {
      port := udp.NewPort(rand);
      forall i | 0 <= i < |tcp.pcbs| ensures LinkedAt(tcp.pcbs, tcp.ports, i) {
        assert old(LinkedAt(tcp.pcbs, tcp.ports, i));
      }
      forall i | 0 <= i < |sockets| && sockets[i].Some? ensures ListedIffBound(sockets[i].value) {
        assert old(ListedIffBound(sockets[i].value));
      }
    }

    // salnetconn_connect stores the remote end and marks the connection.
    method MarkConnected(s: nat, remoteIp: nat, port: nat)
      requires Valid() && IsSocket(s)
      modifies this`sockets, sockets[s].value.pcb`remoteIp, sockets[s].value.pcb`remotePort
      ensures Valid()
      ensures sockets == old(sockets)[s := Some(old(sockets)[s].value.(state := Connected))]
      ensures var p := sockets[s].value.pcb; p.remoteIp == remoteIp && p.remotePort == port
    {
      ghost var was := sockets;
      var c := sockets[s].value;
      c.pcb.remoteIp := remoteIp;
      c.pcb.remotePort := port;
      sockets := sockets[s := Some(c.(state := Connected))];
      forall i | 0 <= i < |tcp.pcbs| ensures LinkedAt(tcp.pcbs, tcp.ports, i) {
        assert old(LinkedAt(tcp.pcbs, tcp.ports, i));
      }
      forall i | 0 <= i < |udp.pcbs| ensures LinkedAt(udp.pcbs, udp.ports, i) {
        assert old(LinkedAt(udp.pcbs, udp.ports, i));
      }
      OwnedElsewhere(was, sockets, s, tcp.pcbs, Tcp);
      OwnedElsewhere(was, sockets, s, udp.pcbs, Udp);
      forall i | 0 <= i < |sockets| && sockets[i].Some? ensures ListedIffBound(sockets[i].value) {
        assert old(ListedIffBound(was[i].value));
      }
    }

    // The bind to the port announced succeeds unless no port was left: nothing else has taken it.
    method BindAnnounced(s: nat, announced: nat, rand: bv32) returns (err: Err)
      requires Valid() && IsSocket(s) && sockets[s].value.proto == Udp && sockets[s].value.pcb.localPort == 0
      requires if announced == 0 then DynamicPorts() <= Elements(udp.ports) else IsFree(announced, udp.ports)
      modifies tcp, udp, sockets[s].value.pcb
      ensures Valid() && (err == Ok <==> announced != 0) && tcp.pcbs == old(tcp.pcbs)
      ensures err != Ok ==> udp.pcbs == old(udp.pcbs)
      ensures err == Ok ==>
        udp.pcbs == [sockets[s].value.pcb] + old(udp.pcbs) && sockets[s].value.pcb.localPort == announced
    {
      assert ListedIffBound(sockets[s].value);
      assert forall i :: 0 <= i < |udp.ports| ==> udp.ports[i] in udp.ports;
      err := BindConn(s, None, announced, rand);
    }

    // sal_connect on an IPv4 address: moduleOk is the answer of sal_module_start, announced the local port it is told.
    method Connect(s: int, remoteIp: nat, port: nat, moduleOk: bool, rand1: bv32, rand2: bv32)
      returns (ret: int, announced: int)
      requires Valid() && port <= 0xffff
      modifies this`sockets, tcp, udp, if IsSocket(s) then {sockets[s].value.pcb} else {}
      ensures Valid()
      ensures ret == 0 || ret == -1
      ensures ret == -1 ==> sockets == old(sockets) && tcp.pcbs == old(tcp.pcbs) && udp.pcbs == old(udp.pcbs)
      ensures ret == 0 <==>
                && old(IsSocket(s)) && old(sockets)[s].value.state == Unconnected && moduleOk
                && (old(sockets)[s].value.proto == Udp && old(sockets[s].value.pcb.localPort) == 0 ==>
                      !(DynamicPorts() <= Elements(old(udp.ports))))
      ensures ret == 0 ==>
                var c := old(sockets)[s].value;
                && sockets == old(sockets)[s := Some(c.(state := Connected))]
                && c.pcb.remoteIp == remoteIp && c.pcb.remotePort == port
                && tcp.pcbs == old(tcp.pcbs)
                // an unbound UDP socket gets exactly the port the module was told; any other keeps its own
                && if c.proto == Udp && old(sockets[s].value.pcb.localPort) == 0
                   then announced == c.pcb.localPort && announced in DynamicPorts() && announced !in old(udp.ports)
                        && udp.pcbs == [c.pcb] + old(udp.pcbs)
                   else announced == -1 && c.pcb.localPort == old(sockets[s].value.pcb.localPort)
                        && udp.pcbs == old(udp.pcbs)
    {
      announced := -1;
      if !IsSocket(s) { return -1, -1; }
      var c := sockets[s].value;
      if c.state != Unconnected { return -1, -1; }
      assert ListedIffBound(c);
      var unbound := c.proto == Udp && c.pcb.localPort == 0;
      if unbound { announced := AnnouncePort(rand1); }
      if !moduleOk { return -1, announced; }
      if unbound {
        var err := BindAnnounced(s, announced, rand2);
        if err != Ok { return -1, announced; }
      }
      MarkConnected(s, remoteIp, port);
      return 0, announced;
    }

    // sal_bind
    method Bind(s: int, ip: nat, port: nat, rand: bv32) returns (ret: int)
      requires Valid() && port <= 0xffff
      modifies tcp, udp, if IsSocket(s) then {sockets[s].value.pcb} else {}
      ensures Valid()
      ensures ret == 0 || ret == -1 || ret == ERR_ARG
      ensures ret == ERR_ARG <==> !IsSocket(s)
      ensures ret != 0 ==> tcp.pcbs == old(tcp.pcbs) && udp.pcbs == old(udp.pcbs)
      ensures IsSocket(s) && port != 0 ==>
                var c := sockets[s].value;
                var l := old(Table(c.proto).pcbs);
                ret == if exists i :: 0 <= i < |l| && l[i] != c.pcb && old(Table(c.proto).ports)[i] == port
                       then -1 else 0
      ensures IsSocket(s) && port == 0 ==>
                var ports := old(Table(sockets[s].value.proto).ports);
                && ret == (if DynamicPorts() <= Elements(ports) then -1 else 0)
                && (ret == 0 ==> IsFree(sockets[s].value.pcb.localPort, ports))
      ensures ret == 0 ==>
                var c := sockets[s].value;
                && Table(c.proto).pcbs == ListedFirst(c.pcb, old(Table(c.proto).pcbs))
                && Table(Other(c.proto)).pcbs == old(Table(Other(c.proto)).pcbs)
                && c.pcb.localIp == ip && (port != 0 ==> c.pcb.localPort == port)
    {
      if !IsSocket(s) { return ERR_ARG; }
      var err := BindConn(s, Some(ip), port, rand);
      return if err == Ok then 0 else -1;
    }

    // One call of the socket interface.
    method Step(call: Call)
      requires Valid()
      modifies this`sockets, this`events, tcp, udp, Pcbs()
      ensures Valid()
      ensures forall i :: 0 <= i < |sockets| && sockets[i].Some? ==>
                sockets[i].value.pcb in old(Pcbs()) || fresh(sockets[i].value.pcb)
    {
      ListsOnlyHoldOpenPcbs();
      match call {
        case CallSocket(kind, connOk, mboxOk, pcbOk) => var fd := Socket(kind, connOk, mboxOk, pcbOk);
        case CallEventFd => var fd := EventFd();
        case CallBind(s, ip, port, rand) => var ret := Bind(s, ip, port as nat, rand);
        case CallConnect(s, ip, port, moduleOk, rand, rand2) =>
          var ret, announced := Connect(s, ip, port as nat, moduleOk, rand, rand2);
        case CallClose(s, moduleOk) => var ret := Close(s, moduleOk);
      }
    }
  }

  const ERR_ARG := -16

  // ---------------------------------------------------------------- whole runs

  datatype Call =
    | CallSocket(kind: SockType, connOk: bool, mboxOk: bool, pcbOk: bool)
    | CallEventFd
    | CallBind(s: int, ip: nat, port: bv16, rand: bv32)
    | CallConnect(s: int, ip: nat, port: bv16, moduleOk: bool, rand: bv32, rand2: bv32)
    | CallClose(s: int, moduleOk: bool)

  // Every run of calls from a freshly initialised layer keeps the descriptor table and the two port lists
  // well formed (Valid): a socket's connection points back at its descriptor, no descriptor is both a socket
  // and an event, and the two lists hold exactly the bound control blocks of open sockets, on distinct ports.
  method RunCalls(calls: seq<Call>) returns (layer: SocketLayer)
    ensures layer.Valid()
    ensures forall s :: layer.IsSocket(s) ==> !layer.IsEvent(s) && layer.sockets[s].value.socket == s
  {
    layer := new SocketLayer();
    for n := 0 to |calls|
      invariant layer.Valid() && fresh(layer) && fresh(layer.tcp) && fresh(layer.udp)
      invariant forall i :: 0 <= i < |layer.sockets| && layer.sockets[i].Some? ==> fresh(layer.sockets[i].value.pcb)
    {
      layer.Step(calls[n]);
    }
  }
}
