/**
 Local ports and the list of protocol control blocks (device/sal/sal_sockets.c).

 The TCP and the UDP list are twins, line for line; PcbTable is one of them.
 */
module Ports {
  import opened Sequences
  import opened Wrappers

  const LOCAL_PORT_RANGE_START: nat := 0xc000
  const LOCAL_PORT_RANGE_END: nat := 0xffff
  const RANGE_SIZE: nat := 0x4000

  datatype Err = Ok | ErrVal | ErrBuf | ErrUse

  // ENSURE_LOCAL_PORT_RANGE: clear bits 14 and 15, add the start of the range, keep 16 bits.
  function EnsureLocalPortRange(r: bv32): (p: nat)
    ensures LOCAL_PORT_RANGE_START <= p <= LOCAL_PORT_RANGE_END
  {
    var masked: bv32 := (r & 0xffff_3fff) + 0xc000;
    var low: bv16 := (masked & 0xffff) as bv16;
    assert low >= 0xc000;
    low as nat
  }

  // ---------------------------------------------------------------- the search, as a specification

  // The dynamic range of RFC 6335, section 6.
  ghost function DynamicPorts(): set<nat> {
    PortsBetween(LOCAL_PORT_RANGE_START, LOCAL_PORT_RANGE_END + 1)
  }

  ghost function PortsBetween(lo: nat, hi: nat): (s: set<nat>)
    requires lo <= hi
    ensures |s| == hi - lo && forall p: nat :: p in s <==> lo <= p < hi
    decreases hi
  {
    if lo == hi then {} else PortsBetween(lo, hi - 1) + {hi - 1}
  }

  // The k-th candidate after p, going round the range.
  function PortAfter(p: nat, k: nat): nat
    requires LOCAL_PORT_RANGE_START <= p <= LOCAL_PORT_RANGE_END
  {
    LOCAL_PORT_RANGE_START + (p - LOCAL_PORT_RANGE_START + k) % RANGE_SIZE
  }

  // port is the first candidate after p that nobody uses.
  ghost predicate FirstFreeAfter(taken: set<nat>, p: nat, port: nat)
    requires LOCAL_PORT_RANGE_START <= p <= LOCAL_PORT_RANGE_END
  {
    exists k | 1 <= k <= RANGE_SIZE :: PortAfter(p, k) == port && port !in taken && Tried(taken, p, k - 1)
  }

  lemma NextCandidate(p: nat, k: nat)
    requires LOCAL_PORT_RANGE_START <= p <= LOCAL_PORT_RANGE_END
    ensures LOCAL_PORT_RANGE_START <= PortAfter(p, k) <= LOCAL_PORT_RANGE_END
    ensures PortAfter(PortAfter(p, k), 1) == PortAfter(p, k + 1)
    ensures PortAfter(p, 0) == p
  {}

  // One round of RANGE_SIZE candidates meets every port of the range.
  lemma RoundCoversRange(p: nat, port: nat) returns (k: nat)
    requires LOCAL_PORT_RANGE_START <= p <= LOCAL_PORT_RANGE_END
    requires LOCAL_PORT_RANGE_START <= port <= LOCAL_PORT_RANGE_END
    ensures 1 <= k <= RANGE_SIZE && PortAfter(p, k) == port
  {
    k := if port > p then port - p else port + RANGE_SIZE - p;
  }

  // The first n candidates after p are all in use.
  ghost predicate Tried(taken: set<nat>, p: nat, n: nat)
    requires LOCAL_PORT_RANGE_START <= p <= LOCAL_PORT_RANGE_END
  {
    forall j | 1 <= j <= n :: PortAfter(p, j) in taken
  }

  lemma TriedOneMore(taken: set<nat>, p: nat, n: nat)
    requires LOCAL_PORT_RANGE_START <= p <= LOCAL_PORT_RANGE_END && Tried(taken, p, n) && n < RANGE_SIZE
    ensures PortAfter(p, n + 1) in taken ==> Tried(taken, p, n + 1)
    ensures PortAfter(p, n + 1) !in taken ==> FirstFreeAfter(taken, p, PortAfter(p, n + 1))
  {}

  // A free port of the dynamic range.
  ghost predicate IsFree(port: nat, ports: seq<nat>) {
    port in DynamicPorts() && port !in ports
  }

  lemma FirstFreeIsFree(ports: seq<nat>, p: nat, port: nat)
    requires LOCAL_PORT_RANGE_START <= p <= LOCAL_PORT_RANGE_END && FirstFreeAfter(Elements(ports), p, port)
    ensures IsFree(port, ports)
  {
    var k :| 1 <= k <= RANGE_SIZE && PortAfter(p, k) == port && port !in Elements(ports);
    NextCandidate(p, k);
  }

  // A round in which every candidate is taken proves the whole range taken.
  lemma FullRound(taken: set<nat>, p: nat)
    requires LOCAL_PORT_RANGE_START <= p <= LOCAL_PORT_RANGE_END
    requires Tried(taken, p, RANGE_SIZE)
    ensures DynamicPorts() <= taken
  {
    forall port | port in DynamicPorts() ensures port in taken {
      var k := RoundCoversRange(p, port);
    }
  }

  ghost function Elements(s: seq<nat>): set<nat> {
    set x | x in s
  }

  lemma {:induction false} ElementsSize(s: seq<nat>)
    ensures |Elements(s)| <= |s|
  {
    if s != [] {
      ElementsSize(s[1..]);
      assert Elements(s) == Elements(s[1..]) + {s[0]};
    }
  }

  // Pigeonhole: a list of fewer than 16384 ports leaves some candidate free, so the search succeeds.
  lemma SearchSucceedsBelowCapacity(ports: seq<nat>, p: nat) returns (port: nat)
    requires LOCAL_PORT_RANGE_START <= p <= LOCAL_PORT_RANGE_END && |ports| < RANGE_SIZE
    ensures FirstFreeAfter(Elements(ports), p, port)
  {
    var k := 1;
    while k <= RANGE_SIZE && PortAfter(p, k) in ports
      invariant 1 <= k <= RANGE_SIZE + 1
      invariant Tried(Elements(ports), p, k - 1)
    {
      k := k + 1;
    }
    if k > RANGE_SIZE {
      FullRound(Elements(ports), p);
      ElementsSize(ports);
      SubsetSize(DynamicPorts(), Elements(ports));
      assert false;
    }
    port := PortAfter(p, k);
  }

  lemma SubsetSize(a: set<nat>, b: set<nat>)
    requires a <= b
    ensures |a| <= |b|
  {
    assert b == a + (b - a);
  }

  // ---------------------------------------------------------------- the list

  class Pcb {
    var next: Pcb?
    var localPort: nat
    var localIp: nat
    var remoteIp: nat
    var remotePort: nat

    constructor ()
      ensures next == null && localPort == 0 && localIp == 0 && remoteIp == 0 && remotePort == 0
    {
      next, localPort, localIp, remoteIp, remotePort := null, 0, 0, 0, 0;
    }
  }

  ghost function PcbAt(l: seq<Pcb>, i: nat): Pcb? {
    if i < |l| then l[i] else null
  }

  // The pointers and ports of the control blocks spell the sequences l and ports.
  ghost predicate Chained(l: seq<Pcb>, ports: seq<nat>)
    reads l
  {
    |ports| == |l| && forall i :: 0 <= i < |l| ==> LinkedAt(l, ports, i)
  }

  ghost predicate LinkedAt(l: seq<Pcb>, ports: seq<nat>, i: nat)
    requires i < |l| == |ports|
    reads l
  {
    l[i].next == PcbAt(l, i + 1) && l[i].localPort == ports[i]
  }

  ghost predicate Distinct(l: seq<Pcb>) {
    forall i, j :: 0 <= i < j < |l| ==> l[i] != l[j]
  }

  // Nonzero 16-bit ports, no two alike.
  ghost predicate PortsOk(ports: seq<nat>) {
    && (forall i :: 0 <= i < |ports| ==> 0 < ports[i] <= 0xffff)
    && (forall i, j :: 0 <= i < j < |ports| ==> ports[i] != ports[j])
  }

  // What a successful bind makes of the list.
  ghost function ListedFirst(pcb: Pcb, l: seq<Pcb>): seq<Pcb> {
    if pcb in l then l else [pcb] + l
  }

  class PcbTable {
    var head: Pcb?
    var lastPort: nat  // the function-static tcp_port / udp_port
    ghost var pcbs: seq<Pcb>
    ghost var ports: seq<nat>  // their local ports

    ghost function At(i: nat): Pcb?
      reads this
    {
      PcbAt(pcbs, i)
    }

    ghost predicate Valid()
      reads this, pcbs
    {
      && head == At(0)
      && Chained(pcbs, ports)
      && Distinct(pcbs)
      && PortsOk(ports)
      && (lastPort == 0 || LOCAL_PORT_RANGE_START <= lastPort <= LOCAL_PORT_RANGE_END)
    }

    constructor ()
      ensures Valid() && pcbs == []
    {
      head, lastPort, pcbs, ports := null, 0, [], [];
    }

    // Is the port used by an entry of the list other than `except`?
    method UsedByOther(port: nat, except: Pcb?) returns (used: bool)
      requires Valid()
      ensures Valid()
      ensures used <==> exists i :: 0 <= i < |pcbs| && pcbs[i] != except && ports[i] == port
    {
      var p := head;
      ghost var k := 0;
      while p != null
        invariant 0 <= k <= |pcbs| && p == At(k)
        invariant forall i :: 0 <= i < k ==> pcbs[i] == except || ports[i] != port
        decreases |pcbs| - k
      {
        assert LinkedAt(pcbs, ports, k);
        if p != except && p.localPort == port { return true; }
        p := p.next;
        k := k + 1;
      }
      return false;
    }

    method IsListed(pcb: Pcb) returns (listed: bool)
      requires Valid()
      ensures Valid()
      ensures listed <==> pcb in pcbs
    {
      var p := head;
      ghost var k := 0;
      while p != null
        invariant 0 <= k <= |pcbs| && p == At(k)
        invariant pcb !in pcbs[..k]
        decreases |pcbs| - k
      {
        assert LinkedAt(pcbs, ports, k);
        if p == pcb { return true; }
        p := p.next;
        k := k + 1;
      }
      return false;
    }

    // Moves the candidate on by one, from the end of the range back to its start.
    method Advance()
      requires Valid() && lastPort != 0
      modifies this`lastPort
      ensures Valid() && lastPort == PortAfter(old(lastPort), 1)
    {
      lastPort := if lastPort == LOCAL_PORT_RANGE_END then LOCAL_PORT_RANGE_START else lastPort + 1;
    }

    method Seed(rand: bv32)
      requires Valid()
      modifies this`lastPort
      ensures Valid()
      ensures lastPort == if old(lastPort) == 0 then EnsureLocalPortRange(rand) else old(lastPort)
    {
      if lastPort == 0 { lastPort := EnsureLocalPortRange(rand); }
    }

    // Tries the candidates one by one, giving up after a full round.
    method Search() returns (port: nat)
      requires Valid() && lastPort != 0
      modifies this`lastPort
      ensures Valid()
      ensures port == 0 ==> Tried(Elements(ports), old(lastPort), RANGE_SIZE)
      ensures port != 0 ==> lastPort == port && FirstFreeAfter(Elements(ports), old(lastPort), port)
    {
      ghost var start, taken := lastPort, Elements(ports);
      var n := 0;
      NextCandidate(start, 0);
      while true
        invariant 0 <= n < RANGE_SIZE && Valid()
        invariant lastPort == PortAfter(start, n)
        invariant Tried(taken, start, n)
        decreases RANGE_SIZE - n
      {
        NextCandidate(start, n);
        Advance();
        var used := UsedByOther(lastPort, null);
        assert used <==> lastPort in ports;
        TriedOneMore(taken, start, n);
        if !used { return lastPort; }
        n := n + 1;
        if n > LOCAL_PORT_RANGE_END - LOCAL_PORT_RANGE_START { return 0; }
      }
    }

    // sal_tcp_new_port / sal_udp_new_port: the first free port after the last one handed out, or 0 exactly
    // when every port of the range is taken.
    method NewPort(rand: bv32) returns (port: nat)
      requires Valid()
      modifies this`lastPort
      ensures Valid()
      ensures port == 0 <==> DynamicPorts() <= Elements(ports)
      ensures port != 0 ==>
                lastPort == port &&
                FirstFreeAfter(Elements(ports),
                               if old(lastPort) == 0 then EnsureLocalPortRange(rand) else old(lastPort), port)
    {
      Seed(rand);
      ghost var start := lastPort;
      port := Search();
      if port == 0 { FullRound(Elements(ports), start); }
    }

    // A listed pcb gets another port.
    method Relabel(pcb: Pcb, port: nat)
      requires Valid() && pcb in pcbs && 0 < port <= 0xffff
      requires forall i :: 0 <= i < |pcbs| && pcbs[i] != pcb ==> ports[i] != port
      modifies this`ports, pcb`localPort
      ensures Valid() && pcb.localPort == port
    {
      ghost var k :| 0 <= k < |pcbs| && pcbs[k] == pcb;
      ghost var was := ports;
      pcb.localPort := port;
      ports := ports[k := port];
      forall i | 0 <= i < |pcbs| ensures LinkedAt(pcbs, ports, i) { assert old(LinkedAt(pcbs, was, i)); }
    }

    // Any other one gets its port and goes to the front of the list.
    method PushFront(pcb: Pcb, port: nat)
      requires Valid() && pcb !in pcbs && 0 < port <= 0xffff && port !in ports
      modifies this`head, this`pcbs, this`ports, pcb`localPort, pcb`next
      ensures Valid() && pcbs == [pcb] + old(pcbs) && pcb.localPort == port
    {
      ghost var l, was := pcbs, ports;
      pcb.localPort := port;
      pcb.next := head;
      head := pcb;
      pcbs, ports := [pcb] + pcbs, [port] + ports;
      forall i | 0 <= i < |pcbs| ensures LinkedAt(pcbs, ports, i) {
        if i > 0 { assert old(LinkedAt(l, was, i - 1)) && l[i - 1] != pcb; }
      }
    }

    // Gives pcb its address and port and, unless it is listed already, puts it first on the list.
    method Enlist(pcb: Pcb, ip: Option<nat>, port: nat, rebind: bool)
      requires Valid() && rebind == (pcb in pcbs) && 0 < port <= 0xffff
      requires forall i :: 0 <= i < |pcbs| && pcbs[i] != pcb ==> ports[i] != port
      modifies this`head, this`pcbs, this`ports, pcb`localIp, pcb`localPort, pcb`next
      ensures Valid() && pcbs == ListedFirst(pcb, old(pcbs)) && pcb.localPort == port
      ensures pcb.localIp == match ip case Some(a) => a case None => old(pcb.localIp)
    {
      if rebind { Relabel(pcb, port); } else { PushFront(pcb, port); }
      SetLocalIp(pcb, ip);
    }

    method SetLocalIp(pcb: Pcb, ip: Option<nat>)
      requires Valid()
      modifies pcb`localIp
      ensures Valid()
      ensures pcb.localIp == match ip case Some(a) => a case None => old(pcb.localIp)
    {
      if ip.Some? { pcb.localIp := ip.value; }
      forall i | 0 <= i < |pcbs| ensures LinkedAt(pcbs, ports, i) { assert old(LinkedAt(pcbs, ports, i)); }
    }

    // sal_tcp_bind / sal_udp_bind
    method Bind(pcb: Pcb?, ip: Option<nat>, port: nat, rand: bv32) returns (err: Err)
      requires Valid() && port <= 0xffff
      modifies this, pcb
      ensures Valid()
      // a failed bind changes no list link and no field of any control block
      ensures err != Ok ==> pcbs == old(pcbs) && head == old(head) && (pcb != null ==> unchanged(pcb))
      ensures pcb == null <==> err == ErrVal
      // a given port is refused exactly when another control block has it
      ensures pcb != null && port != 0 ==>
                err == if exists i :: 0 <= i < |old(pcbs)| && old(pcbs)[i] != pcb && old(ports)[i] == port
                       then ErrUse else Ok
      // a port is found exactly when the range is not used up
      ensures pcb != null && port == 0 ==> err == if DynamicPorts() <= Elements(old(ports)) then ErrBuf else Ok
      ensures err == Ok ==>
                && pcbs == ListedFirst(pcb, old(pcbs))
                && pcb.localIp == (match ip case Some(a) => a case None => old(pcb.localIp))
                && pcb.remoteIp == old(pcb.remoteIp) && pcb.remotePort == old(pcb.remotePort)
                && if port != 0 then pcb.localPort == port && lastPort == old(lastPort)
                   else FirstFreeAfter(Elements(old(ports)),
                                       if old(lastPort) == 0 then EnsureLocalPortRange(rand) else old(lastPort),
                                       pcb.localPort)
      ensures err == Ok && port == 0 ==> IsFree(pcb.localPort, old(ports))
    {
      if pcb == null { return ErrVal; }
      var rebind := IsListed(pcb);
      var chosen := port;
      if port == 0 {
        chosen := NewPort(rand);
        if chosen == 0 { return ErrBuf; }
        FirstFreeIsFree(ports, if old(lastPort) == 0 then EnsureLocalPortRange(rand) else old(lastPort), chosen);
      } else {
        var used := UsedByOther(port, pcb);
        if used { return ErrUse; }
      }
      Enlist(pcb, ip, chosen, rebind);
      return Ok;
    }

    // The first entry leaves.
    method DropHead()
      requires Valid() && pcbs != []
      modifies this`head, this`pcbs, this`ports
      ensures Valid() && pcbs == Drop(old(pcbs), 0)
    {
      ghost var l, was := pcbs, ports;
      assert LinkedAt(l, was, 0);
      head := head.next;
      pcbs, ports := l[1..], ports[1..];
      forall i | 0 <= i < |pcbs| ensures LinkedAt(pcbs, ports, i) { assert LinkedAt(l, was, i + 1); }
    }

    // The entry after p, which is the k-th, leaves.
    method DropAfter(p: Pcb, ghost k: nat)
      requires Valid() && k + 1 < |pcbs| && pcbs[k] == p
      modifies this`pcbs, this`ports, p`next
      ensures Valid() && pcbs == Drop(old(pcbs), k + 1)
    {
      ghost var l, was := pcbs, ports;
      assert LinkedAt(l, was, k) && LinkedAt(l, was, k + 1);
      p.next := p.next.next;
      pcbs, ports := Drop(l, k + 1), Drop(ports, k + 1);
      forall i | 0 <= i < |pcbs| ensures LinkedAt(pcbs, ports, i) {
        assert old(LinkedAt(l, was, if i < k + 1 then i else i + 1));
      }
    }

    // sal_tcp_remove / sal_udp_remove: takes pcb off the list if it is there; the rest keeps its order and ports.
    method Remove(pcb: Pcb)
      requires Valid()
      modifies this`head, this`pcbs, this`ports, pcbs`next
      ensures Valid()
      ensures pcb !in pcbs && pcb.next == old(pcb.next)
      ensures pcb !in old(pcbs) ==> pcbs == old(pcbs)
      ensures forall k :: 0 <= k < |old(pcbs)| && old(pcbs)[k] == pcb ==> pcbs == Drop(old(pcbs), k)
    {
      ghost var l := pcbs;
      if head == pcb {
        DropHead();
        DropMembers(l, 0, pcb);
      } else {
        var p := head;
        ghost var k := 0;
        while p != null
          invariant 0 <= k <= |l| && p == PcbAt(l, k) && pcb !in l[..k] && pcb != p
          decreases |l| - k
        {
          assert LinkedAt(l, ports, k);
          if p.next != null && p.next == pcb {
            DropAfter(p, k);
            DropMembers(l, k + 1, pcb);
            break;
          }
          p := p.next;
          k := k + 1;
        }
      }
    }
  }
}
