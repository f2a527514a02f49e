/**
 The table of stations the probe-request monitor has counted (example/wifimonitor/wifimonitor.c): 256 chains, one for
 each first byte of a MAC address, of nodes that hold the other five.
 */
module MacTable {
  type byte = x: int | 0 <= x < 256

  const MAC_HASH_TABLE_SIZE: nat := 256

  type Mac = m: seq<byte> | |m| == 6 witness [0, 0, 0, 0, 0, 0]

  // ---------------------------------------------------------------- specification

  // One probe request: the address, and whether memory for a node is to be had.
  datatype Probe = Probe(mac: Mac, memory: bool)

  // The addresses counted after a run of probe requests.
  function Counted(probes: seq<Probe>): set<Mac> {
    if probes == [] then {}
    else Counted(probes[..|probes| - 1]) + (if probes[|probes| - 1].memory then {probes[|probes| - 1].mac} else {})
  }

  // An address is counted exactly if one of its probes found memory.
  lemma {:induction false} CountedIff(probes: seq<Probe>, m: Mac)
    ensures m in Counted(probes) <==> Probe(m, true) in probes
  {
    if probes != [] {
      CountedIff(probes[..|probes| - 1], m);
      assert probes == probes[..|probes| - 1] + [probes[|probes| - 1]];
    }
  }

  // What each probe is answered: 1 for an address counted before, -1 without memory, 0 otherwise.
  function Answers(probes: seq<Probe>): (r: seq<int>)
    ensures |r| == |probes|
  {
    if probes == [] then []
    else
      var before := probes[..|probes| - 1];
      var p := probes[|probes| - 1];
      Answers(before) + [if p.mac in Counted(before) then 1 else if p.memory then 0 else -1]
  }

  // An address is answered 1 exactly if an earlier probe of it found memory.
  lemma {:induction false} AnsweredOneIff(probes: seq<Probe>, k: nat)
    requires k < |probes|
    ensures Answers(probes)[k] == 1 <==> Probe(probes[k].mac, true) in probes[..k]
  {
    var n := |probes| - 1;
    if k < n {
      AnsweredOneIff(probes[..n], k);
      assert probes[..n][..k] == probes[..k];
    } else {
      CountedIff(probes[..n], probes[n].mac);
    }
  }

  function Zeros(answers: seq<int>): nat {
    if answers == [] then 0
    else Zeros(answers[..|answers| - 1]) + if answers[|answers| - 1] == 0 then 1 else 0
  }

  // The probes answered 0 are as many as the different addresses counted.
  lemma {:induction false} ZerosAreTheCounted(probes: seq<Probe>)
    ensures Zeros(Answers(probes)) == |Counted(probes)|
  {
    if probes != [] {
      var n := |probes| - 1;
      ZerosAreTheCounted(probes[..n]);
      assert probes[n].mac in Counted(probes[..n]) ==> Counted(probes[..n]) + {probes[n].mac} == Counted(probes[..n]);
      assert Answers(probes)[..n] == Answers(probes[..n]);
    }
  }

  // ---------------------------------------------------------------- the table

  class MacNode {
    var next: MacNode?
    const highMac: seq<byte>
    // The address that the node was made for.
    ghost const mac: Mac

    constructor (mac: Mac)
      ensures next == null && highMac == mac[1..] && this.mac == mac
    {
      next, highMac, this.mac := null, mac[1..], mac;
    }
  }

  ghost function After(chain: seq<MacNode>, i: nat): MacNode? {
    if i < |chain| then chain[i] else null
  }

  ghost function Last(chain: seq<MacNode>): MacNode? {
    if chain == [] then null else chain[|chain| - 1]
  }

  // An address's node is where the address is placed.
  ghost predicate Holds(chains: seq<seq<MacNode>>, place: map<Mac, nat>, m: Mac)
    requires m in place
  {
    m[0] < |chains| && place[m] < |chains[m[0]]| && chains[m[0]][place[m]].mac == m
  }

  ghost predicate AllHeld(chains: seq<seq<MacNode>>, place: map<Mac, nat>) {
    forall m {:trigger Holds(chains, place, m)} :: m in place ==> Holds(chains, place, m)
  }

  lemma AppendHeld(chains: seq<seq<MacNode>>, place: map<Mac, nat>, node: MacNode)
    requires AllHeld(chains, place) && node.mac[0] < |chains| && node.mac !in place
    ensures var b := node.mac[0];
      AllHeld(chains[b := chains[b] + [node]], place[node.mac := |chains[b]|])
  {
    var b := node.mac[0];
    var chains', place' := chains[b := chains[b] + [node]], place[node.mac := |chains[b]|];
    forall m | m in place' ensures Holds(chains', place', m) {
      assert m != node.mac ==> Holds(chains, place, m);
    }
  }

  // One node for the address has joined the end of its chain.
  ghost predicate AddedLast(was: seq<seq<MacNode>>, now: seq<seq<MacNode>>, mac: Mac) {
    && |now| == |was| && mac[0] < |was|
    && now[mac[0]] != [] && Last(now[mac[0]]).mac == mac
    && now == was[mac[0] := was[mac[0]] + [Last(now[mac[0]])]]
  }

  // compare_high_mac, from the last byte down: 0 when the bytes are equal
  method CompareHighMac(mac1: seq<byte>, mac2: seq<byte>, len: nat) returns (r: int)
    requires len <= |mac1| && len <= |mac2|
    ensures r == if mac1[..len] == mac2[..len] then 0 else 1
    ensures len == |mac1| == |mac2| ==> (r == 0 <==> mac1 == mac2)
  {
    var n: int := len;
    while n != 0
      invariant 0 <= n <= len
      invariant mac1[n..len] == mac2[n..len]
    {
      if mac1[n - 1] != mac2[n - 1] {
        assert mac1[..len][n - 1] != mac2[..len][n - 1];
        return 1;
      }
      assert mac1[n - 1..len] == [mac1[n - 1]] + mac1[n..len];
      assert mac2[n - 1..len] == [mac2[n - 1]] + mac2[n..len];
      n := n - 1;
    }
    return 0;
  }

  class Table {
    const heads: array<MacNode?>
    var macSum: nat
    ghost var chains: seq<seq<MacNode>>
    ghost var nodes: set<MacNode>

    // The addresses counted, each with the place of its node in its chain.
    ghost var place: map<Mac, nat>

    // The i-th node of a chain: the chain goes on as it should, and the node is where its address is placed.
    ghost predicate NodeAt(b: byte, i: nat)
      requires b < |chains| && i < |chains[b]|
      reads this`chains, this`place, this`nodes, nodes
    {
      var node := chains[b][i];
      && node in nodes
      && node.next == After(chains[b], i + 1)
      && node.mac[0] == b && node.highMac == node.mac[1..]
      && node.mac in place && place[node.mac] == i
    }

    // Every chain is acyclic and ends, each node is in the chain of its first byte, and each address has one node.
    ghost predicate Valid()
      reads this, heads, nodes
    {
      && heads.Length == |chains| == MAC_HASH_TABLE_SIZE
      && (forall b :: 0 <= b < MAC_HASH_TABLE_SIZE ==> heads[b] == After(chains[b], 0))
      && (forall b, i {:trigger NodeAt(b, i)} :: 0 <= b < |chains| && 0 <= i < |chains[b]| ==> NodeAt(b, i))
      && AllHeld(chains, place)
    }

    // The table as it is declared.
    constructor ()
      ensures Valid() && place == map[] && macSum == 0 && fresh(heads) && nodes == {}
    {
      heads := new MacNode?[MAC_HASH_TABLE_SIZE](_ => null);
      macSum, place, nodes := 0, map[], {};
      chains := seq(MAC_HASH_TABLE_SIZE, _ => []);
    }

    // start_count_mac
    method Reset()
      requires heads.Length == MAC_HASH_TABLE_SIZE
      modifies this, heads
      ensures Valid() && place == map[] && macSum == 0 && nodes == {}
    {
      macSum := 0;
      forall b | 0 <= b < heads.Length { heads[b] := null; }
      chains, place, nodes := seq(MAC_HASH_TABLE_SIZE, _ => []), map[], {};
    }

    // The walk along a chain: the address is there, or tail is the chain's last node.
    method Find(mac: Mac) returns (same: bool, tail: MacNode?)
      requires Valid()
      ensures same <==> mac in place
      ensures !same ==> tail == Last(chains[mac[0]])
    {
      var entry := mac[0];
      ghost var chain := chains[entry];
      ghost var k := 0;
      assert mac in place ==> Holds(chains, place, mac);
      var node := heads[entry];
      tail := heads[entry];
      while node != null
        invariant k <= |chain| && node == After(chain, k)
        invariant tail == if k == 0 then node else chain[k - 1]
        invariant forall i :: 0 <= i < k ==> chain[i].mac != mac
        decreases |chain| - k
      {
        assert NodeAt(entry, k);
        var differs := CompareHighMac(node.highMac, mac[1..], 5);
        SplitMac(node.mac, mac);
        if differs == 0 { return true, tail; }
        tail := node;
        node := node.next;
        k := k + 1;
      }
      same := false;
    }

    // A node for an address goes to the end of its chain.
    method Append(mac: Mac, tail: MacNode?)
      requires Valid() && mac !in place && tail == Last(chains[mac[0]])
      modifies heads, tail, this`chains, this`nodes, this`place
      ensures Valid() && fresh(nodes - old(nodes))
      ensures place.Keys == old(place.Keys) + {mac} && AddedLast(old(chains), chains, mac)
    {
      var entry := mac[0];
      ghost var chain := chains[entry];
      assert tail != null ==> NodeAt(entry, |chain| - 1);
      var node := new MacNode(mac);
      if tail == null {
        heads[entry] := node;
      } else {
        tail.next := node;
      }
      AppendHeld(chains, place, node);
      chains, nodes, place := chains[entry := chain + [node]], nodes + {node}, place[mac := |chain|];
      forall b, i | 0 <= b < |chains| && 0 <= i < |chains[b]| ensures NodeAt(b, i) {
        if b != entry || i < |chain| {
          assert old(NodeAt(b, i));
          assert chains[b][i] == tail ==> b == entry && i == |chain| - 1;
        }
      }
    }

    // 1 if the address was counted before; -1, with nothing changed, if there is no memory for it; else 0, and it
    // is counted from now on.
    method CheckSameMacAndAddNew(mac: Mac, memory: bool) returns (r: int)
      requires Valid()
      modifies this`macSum, this`place, this`chains, this`nodes, heads, nodes
      ensures Valid() && fresh(nodes - old(nodes))
      ensures r == if mac in old(place) then 1 else if memory then 0 else -1
      ensures place.Keys == old(place.Keys) + if memory then {mac} else {}
      ensures macSum == old(macSum) + if r == 0 then 1 else 0
      ensures r != 0 ==> chains == old(chains) && heads[..] == old(heads[..])
      ensures r == 0 ==> AddedLast(old(chains), chains, mac)
    {
      var same, tail := Find(mac);
      if same { return 1; }
      if !memory { return -1; }
      assert tail != null ==> NodeAt(mac[0], |chains[mac[0]]| - 1);
      Append(mac, tail);
      macSum := macSum + 1;
      return 0;
    }
  }

  lemma SplitMac(m: Mac, n: Mac)
    ensures m == n <==> m[0] == n[0] && m[1..] == n[1..]
  {}

  lemma OneMore(probes: seq<Probe>, k: nat)
    requires k < |probes|
    ensures Counted(probes[..k + 1]) == Counted(probes[..k]) + if probes[k].memory then {probes[k].mac} else {}
    ensures Answers(probes[..k + 1]) == Answers(probes[..k]) +
      [if probes[k].mac in Counted(probes[..k]) then 1 else if probes[k].memory then 0 else -1]
  {
    assert probes[..k + 1][..k] == probes[..k];
  }

  // A run of probes from a reset table: the answers, the addresses counted, and their number.
  method Count(table: Table, probes: seq<Probe>) returns (results: seq<int>)
    requires table.Valid() && table.place == map[] && table.macSum == 0 && table.nodes == {}
    modifies table, table.heads
    ensures table.Valid() && table.place.Keys == Counted(probes) && results == Answers(probes)
    ensures table.macSum == |Counted(probes)|
  {
    results := [];
    for k := 0 to |probes|
      invariant table.Valid() && fresh(table.nodes)
      invariant table.place.Keys == Counted(probes[..k]) && results == Answers(probes[..k])
      invariant table.macSum == Zeros(results)
    {
      OneMore(probes, k);
      var r := table.CheckSameMacAndAddNew(probes[k].mac, probes[k].memory);
      assert (results + [r])[..k] == results;
      results := results + [r];
    }
    assert probes[..|probes|] == probes;
    ZerosAreTheCounted(probes);
  }
}
