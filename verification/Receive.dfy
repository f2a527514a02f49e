/**
 The receive path of the socket layer (device/sal/sal_sockets.c): packets from the AT module
 go through a FIFO mailbox, and sal_recvfrom turns them into a byte stream or into datagrams,
 keeping a partly read packet in lastdata/lastoffset.
 */
module Receive {
  import opened SelectProtocol
  import opened Sequences
  import opened Wrappers

  type byte = bv8
  type Packet = seq<byte>

  const RECVMBOX_SIZE: nat := 8

  // ---------------------------------------------------------------- specification

  // What a reader can still see: the unread rest of the packet being read, then the queue.
  datatype Inbox = Inbox(last: Option<Packet>, mbox: seq<Packet>) {
    predicate Empty() {
      last.None? && mbox == []
    }

    // All unread bytes in order.
    function Bytes(): Packet {
      (if last.Some? then last.value else []) + Concat(mbox)
    }

    function Chunks(): seq<Packet> {
      (if last.Some? then [last.value] else []) + mbox
    }

    // The packet being read, fetched from the queue if there is none.
    function Load(): Inbox
      requires !Empty()
    {
      if last.Some? then this else Inbox(Some(mbox[0]), mbox[1..])
    }
  }

  // A stream read: whole packets until one fills the request or the queue is drained. The request is not
  // reduced from one packet to the next.
  function ReadStream(b: Inbox, len: nat): (r: (Packet, Inbox))
    requires !b.Empty()
    decreases |b.Chunks()|
  {
    var l := b.Load();
    var c := l.last.value;
    if len <= |c| then (c[..len], Inbox(if len < |c| then Some(c[len..]) else None, l.mbox))
    else if l.mbox == [] then (c, Inbox(None, []))
    else
      var (out, rest) := ReadStream(Inbox(None, l.mbox), len);
      (c + out, rest)
  }

  // What sal_recvfrom returns and leaves on a socket that has data.
  function Read(b: Inbox, tcp: bool, len: nat, peek: bool): (r: (Packet, Inbox))
    requires !b.Empty()
  {
    var l := b.Load();
    if peek then (l.last.value[..Min(len, |l.last.value|)], l)
    else if tcp then ReadStream(b, len)
    else (l.last.value[..Min(len, |l.last.value|)], Inbox(None, l.mbox))
  }

  // A packet's length is stored in 16 bits.
  function Stored(data: Packet): Packet {
    data[..|data| % 0x1_0000]
  }

  // A stream read loses, duplicates and reorders nothing.
  lemma {:induction false} StreamReadConserves(b: Inbox, len: nat)
    requires !b.Empty()
    ensures var (out, rest) := ReadStream(b, len); out + rest.Bytes() == b.Bytes()
    decreases |b.Chunks()|
  {
    var l := b.Load();
    var c := l.last.value;
    assert l.Bytes() == b.Bytes();
    var (out, rest) := ReadStream(b, len);
    if len <= |c| {
      assert out + rest.Bytes() == (c[..len] + c[len..]) + Concat(l.mbox);
    } else if l.mbox != [] {
      var m := Inbox(None, l.mbox);
      StreamReadConserves(m, len);
      assert out + rest.Bytes() == c + (ReadStream(m, len).0 + rest.Bytes());
    }
  }

  // Peeking shows a prefix and consumes nothing.
  lemma PeekKeepsBytes(b: Inbox, tcp: bool, len: nat)
    requires !b.Empty()
    ensures var (out, rest) := Read(b, tcp, len, true);
            rest.Bytes() == b.Bytes() && out <= b.Bytes() && rest.Chunks() == b.Chunks()
  {}

  // A datagram read consumes exactly one packet and returns its prefix.
  lemma DatagramReadTakesOne(b: Inbox, len: nat)
    requires !b.Empty()
    ensures var (out, rest) := Read(b, false, len, false);
            out == b.Chunks()[0][..Min(len, |b.Chunks()[0]|)] && rest.Chunks() == b.Chunks()[1..] && rest.last.None?
  {}

  // Reading goes round by round: a round copies `chunk` and leaves `next`; the last one ends the read.
  lemma ReadByRounds(b: Inbox, tcp: bool, len: nat, peek: bool, chunk: Packet, next: Inbox, last: bool)
    requires !b.Empty() && len > 0
    requires var l := b.Load();
             var c := l.last.value;
             && chunk == c[..Min(len, |c|)]
             && last == (!tcp || peek || len <= |c| || l.mbox == [])
             && next == if peek then l else Inbox(if tcp && len < |c| then Some(c[len..]) else None, l.mbox)
    ensures last ==> Read(b, tcp, len, peek).0 == chunk && Read(b, tcp, len, peek).1 == next
    ensures !last ==> !next.Empty() && tcp && !peek
                      && Read(b, tcp, len, peek).0 == chunk + Read(next, tcp, len, peek).0
                      && Read(b, tcp, len, peek).1 == Read(next, tcp, len, peek).1
  {}

  // ---------------------------------------------------------------- whole runs

  datatype Op = Input(data: Packet) | Recv(len: nat, peek: bool)

  // What a read other than a peek asked for and got.
  datatype Taken = Taken(len: nat, out: Packet)

  datatype Trace = Trace(inbox: Inbox, accepted: seq<Packet>, taken: seq<Taken>)

  predicate Accepts(b: Inbox, data: Packet) {
    data != [] && |b.mbox| < RECVMBOX_SIZE
  }

  function DoOp(t: Trace, tcp: bool, op: Op): Trace {
    match op
    case Input(data) =>
      if Accepts(t.inbox, data)
      then Trace(Inbox(t.inbox.last, t.inbox.mbox + [Stored(data)]), t.accepted + [Stored(data)], t.taken)
      else t
    case Recv(len, peek) =>
      if len == 0 || t.inbox.Empty() then t
      else
        var (out, rest) := Read(t.inbox, tcp, len, peek);
        Trace(rest, t.accepted, if peek then t.taken else t.taken + [Taken(len, out)])
  }

  function DoOps(t: Trace, tcp: bool, ops: seq<Op>): Trace
    decreases |ops|
  {
    if ops == [] then t else DoOps(DoOp(t, tcp, ops[0]), tcp, ops[1..])
  }

  function Outs(taken: seq<Taken>): (r: seq<Packet>)
    ensures |r| == |taken| && forall k :: 0 <= k < |taken| ==> r[k] == taken[k].out
  {
    seq(|taken|, k requires 0 <= k < |taken| => taken[k].out)
  }

  // The bytes read, followed by the bytes still unread, are the bytes accepted, in order.
  ghost predicate Conserved(t: Trace) {
    Concat(Outs(t.taken)) + t.inbox.Bytes() == Concat(t.accepted)
  }

  // The k-th read got the prefix of the k-th packet accepted, and the packets after those read are unread, in order.
  ghost predicate OneEach(t: Trace) {
    && |t.taken| <= |t.accepted|
    && t.inbox.Chunks() == t.accepted[|t.taken|..]
    && forall k :: 0 <= k < |t.taken| ==>
         t.taken[k].out == t.accepted[k][..Min(t.taken[k].len, |t.accepted[k]|)]
  }

  lemma BytesAppend(b: Inbox, p: Packet)
    ensures Inbox(b.last, b.mbox + [p]).Bytes() == b.Bytes() + p
  {
    ConcatSnoc(b.mbox, p);
  }

  // An accepted packet joins the end of what is unread; a refused one changes nothing.
  lemma InputConserves(t: Trace, tcp: bool, data: Packet)
    ensures var t' := DoOp(t, tcp, Input(data));
      && (!Accepts(t.inbox, data) ==> t' == t)
      && (Accepts(t.inbox, data) ==>
            t'.inbox.Bytes() == t.inbox.Bytes() + Stored(data) &&
            t'.inbox.Chunks() == t.inbox.Chunks() + [Stored(data)])
      && (Conserved(t) ==> Conserved(t'))
  {
    var p := Stored(data);
    BytesAppend(t.inbox, p);
    ConcatSnoc(t.accepted, p);
    assert Concat(Outs(t.taken)) + (t.inbox.Bytes() + p) == (Concat(Outs(t.taken)) + t.inbox.Bytes()) + p;
  }

  lemma TakeConserves(t: Trace, len: nat, out: Packet, rest: Inbox)
    requires Conserved(t) && out + rest.Bytes() == t.inbox.Bytes()
    ensures Conserved(Trace(rest, t.accepted, t.taken + [Taken(len, out)]))
  {
    var before := Outs(t.taken);
    assert Outs(t.taken + [Taken(len, out)]) == before + [out];
    ConcatSnoc(before, out);
    assert (Concat(before) + out) + rest.Bytes() == Concat(before) + (out + rest.Bytes());
  }

  lemma RecvConserves(t: Trace, len: nat, peek: bool)
    requires Conserved(t)
    ensures Conserved(DoOp(t, true, Recv(len, peek)))
  {
    if len != 0 && !t.inbox.Empty() {
      if peek {
        PeekKeepsBytes(t.inbox, true, len);
      } else {
        var (out, rest) := ReadStream(t.inbox, len);
        StreamReadConserves(t.inbox, len);
        TakeConserves(t, len, out, rest);
      }
    }
  }

  // After any run of inputs and reads on a stream socket nothing is lost, repeated or reordered.
  lemma {:induction false} StreamRunConserves(t: Trace, ops: seq<Op>)
    requires Conserved(t)
    ensures Conserved(DoOps(t, true, ops))
    decreases |ops|
  {
    if ops != [] {
      match ops[0] {
        case Input(data) => InputConserves(t, true, data);
        case Recv(len, peek) => RecvConserves(t, len, peek);
      }
      StreamRunConserves(DoOp(t, true, ops[0]), ops[1..]);
    }
  }

  lemma InputKeepsOrder(t: Trace, data: Packet)
    requires OneEach(t)
    ensures OneEach(DoOp(t, false, Input(data)))
  {
    InputConserves(t, false, data);
  }

  lemma RecvTakesOne(t: Trace, len: nat, peek: bool)
    requires OneEach(t)
    ensures OneEach(DoOp(t, false, Recv(len, peek)))
  {
    if len != 0 && !t.inbox.Empty() {
      var k := |t.taken|;
      assert t.inbox.Chunks()[0] == t.accepted[k];
      if peek {
        PeekKeepsBytes(t.inbox, false, len);
      } else {
        DatagramReadTakesOne(t.inbox, len);
        assert t.inbox.Chunks()[1..] == t.accepted[k + 1..];
      }
    }
  }

  // After any run of inputs and reads on a datagram socket the k-th read has returned the prefix of the k-th packet
  // accepted.
  lemma {:induction false} DatagramRunTakesInOrder(t: Trace, ops: seq<Op>)
    requires OneEach(t)
    ensures OneEach(DoOps(t, false, ops))
    decreases |ops|
  {
    if ops != [] {
      match ops[0] {
        case Input(data) => InputKeepsOrder(t, data);
        case Recv(len, peek) => RecvTakesOne(t, len, peek);
      }
      DatagramRunTakesInOrder(DoOp(t, false, ops[0]), ops[1..]);
    }
  }

  // ---------------------------------------------------------------- how much a stream read returns

  // The first packet that has any bytes.
  function FirstNonEmpty(packets: seq<Packet>): nat {
    if packets == [] then 0 else if packets[0] != [] then |packets[0]| else FirstNonEmpty(packets[1..])
  }

  // A stream read never returns less than it could.
  lemma {:induction false} StreamReadFills(b: Inbox, len: nat)
    requires !b.Empty()
    ensures |ReadStream(b, len).0| >= Min(len, |b.Bytes()|)
    decreases |b.Chunks()|
  {
    var l := b.Load();
    if len > |l.last.value| && l.mbox != [] { StreamReadFills(Inbox(None, l.mbox), len); }
  }

  // A stream read stays within the requested length exactly when everything unread fits the request, or the
  // first packet with data already fills it.
  lemma {:induction false} StreamReadWithinRequestIff(b: Inbox, len: nat)
    requires !b.Empty() && len > 0
    ensures |ReadStream(b, len).0| <= len <==> |b.Bytes()| <= len || FirstNonEmpty(b.Chunks()) >= len
    decreases |b.Chunks()|
  {
    var l := b.Load();
    var c := l.last.value;
    assert l.Bytes() == b.Bytes() && l.Chunks() == b.Chunks() && l.Chunks() == [c] + l.mbox;
    if len > |c| && l.mbox != [] {
      var m := Inbox(None, l.mbox);
      assert m.Chunks() == l.mbox && m.Bytes() == Concat(l.mbox);
      StreamReadWithinRequestIff(m, len);
      StreamReadFills(m, len);
      StreamReadConserves(m, len);
      assert |b.Bytes()| == |c| + |m.Bytes()|;
      assert FirstNonEmpty(b.Chunks()) == if c != [] then |c| else FirstNonEmpty(l.mbox) by {
        assert b.Chunks()[1..] == l.mbox;
      }
    } else if len <= |c| {
      assert FirstNonEmpty([c] + l.mbox) == |c|;
    }
  }

  // So a buffer of the requested length is enough exactly for datagrams, peeks and such stream reads.
  lemma RequestedBufferSufficesIff(b: Inbox, tcp: bool, len: nat, peek: bool)
    requires !b.Empty() && len > 0
    ensures |Read(b, tcp, len, peek).0| <= len <==>
      !tcp || peek || |b.Bytes()| <= len || FirstNonEmpty(b.Chunks()) >= len
  {
    if tcp && !peek { StreamReadWithinRequestIff(b, len); }
  }

  // Two packets of 3 bytes and a request for 4 give 6.
  lemma StreamReadOverruns()
    ensures |ReadStream(Inbox(None, [[1, 2, 3], [4, 5, 6]]), 4).0| == 6
  {}

  // ---------------------------------------------------------------- the socket

  const EWOULDBLOCK: nat := 11

  // The receive fields of struct sal_sock and its netconn.
  class RecvSocket {
    const tcp: bool
    var nonblocking: bool
    var mbox: seq<Packet>
    var lastdata: Option<Packet>
    var lastoffset: nat
    var rcvevent: int
    var sendevent: bool
    var errevent: bool

    ghost predicate Valid()
      reads this
    {
      && |mbox| <= RECVMBOX_SIZE
      && rcvevent == |mbox|
      && (lastdata.None? ==> lastoffset == 0)
      && (lastdata.Some? ==> lastoffset <= |lastdata.value|)
      && (!tcp ==> lastoffset == 0)
    }

    ghost function View(): Inbox
      reads this
      requires Valid()
    {
      Inbox(if lastdata.Some? then Some(lastdata.value[lastoffset..]) else None, mbox)
    }

    // alloc_socket: a datagram socket is writable at once.
    constructor (tcp: bool)
      ensures Valid() && View() == Inbox(None, []) && this.tcp == tcp && !nonblocking
    {
      this.tcp, nonblocking, mbox, lastdata, lastoffset := tcp, false, [], None, 0;
      rcvevent, sendevent, errevent := 0, !tcp, false;
    }

    // sal_packet_input: bufOk and payloadOk say whether the two allocations succeed.
    method PacketInput(data: Packet, bufOk: bool, payloadOk: bool) returns (ret: int)
      requires Valid()
      modifies this`mbox, this`rcvevent
      ensures Valid()
      ensures ret == if data != [] && bufOk && payloadOk && |old(mbox)| < RECVMBOX_SIZE then 0 else -1
      ensures View() == if ret == 0 then Inbox(old(View()).last, old(View()).mbox + [Stored(data)]) else old(View())
      ensures ret == 0 && |data| < 0x1_0000 ==> mbox == old(mbox) + [data]
    {
      if data == [] || !bufOk || !payloadOk { return -1; }
      if |mbox| >= RECVMBOX_SIZE { return -1; }
      assert |data| < 0x1_0000 ==> Stored(data) == data;
      mbox := mbox + [Stored(data)];
      rcvevent := rcvevent + 1;
      return 0;
    }

    // salnetconn_recv_data on a nonempty mailbox
    method Fetch() returns (buf: Packet)
      requires Valid() && mbox != []
      modifies this`mbox, this`rcvevent
      ensures Valid() && mbox == old(mbox)[1..] && buf == old(mbox)[0]
    {
      buf := mbox[0];
      mbox := mbox[1..];
      rcvevent := rcvevent - 1;
    }

    // What the reader sees once a blocking fetch has waited for `late` to arrive.
    ghost function Arrived(b: Inbox, late: Packet): Inbox {
      if b.Empty() && late != [] then Inbox(None, [Stored(late)]) else b
    }

    // A read on an empty inbox fails at once, times out, or goes on with the packet that arrives. Only the
    // first round of a read can find the mailbox empty: a later one starts with rcvevent > 0.
    method Await(late: Packet) returns (ok: bool)
      requires Valid()
      modifies this`mbox, this`rcvevent
      ensures Valid() && View() == Arrived(old(View()), late)
      ensures ok <==> !View().Empty()
    {
      if lastdata.None? && rcvevent <= 0 {
        if late == [] { return false; }
        var posted := PacketInput(late, true, true);
      }
      return true;
    }

    // One round of sal_recvfrom's loop: the bytes it copies, and whether it was the last.
    method Round(len: nat, peek: bool) returns (chunk: Packet, done: bool)
      requires Valid() && !View().Empty()
      modifies this`mbox, this`lastdata, this`lastoffset, this`rcvevent
      ensures Valid()
      ensures var l := old(View()).Load();
              var c := l.last.value;
              && chunk == c[..Min(len, |c|)]
              && done == (!tcp || peek || len <= |c| || l.mbox == [])
              && View() == if peek then l else Inbox(if tcp && len < |c| then Some(c[len..]) else None, l.mbox)
    {
      if lastdata.None? {
        var fetched := Fetch();
        lastdata := Some(fetched);
      }
      var buf := lastdata.value;
      var buflen := |buf| - lastoffset;
      var copylen := if len > buflen then buflen else len;
      chunk := buf[lastoffset..lastoffset + copylen];
      done := !tcp || len == copylen || rcvevent <= 0 || peek;
      if !peek {
        if tcp && buflen > copylen {
          lastoffset := lastoffset + copylen;
        } else {
          lastdata, lastoffset := None, 0;
        }
      }
    }

    // sal_recvfrom: `late` is the packet that arrives while a blocking read waits on an empty mailbox
    // (empty if the wait times out). mem is the memory from the caller's pointer on, which may go on after the len
    // bytes that are the caller's buffer; the bytes copied past those are in it too.
    method RecvFrom(mem: array<byte>, len: nat, peek: bool, dontwait: bool, late: Packet) returns (ret: int, errno: nat)
      requires Valid()
      requires var b := Arrived(View(), if dontwait || nonblocking then [] else late);
               !b.Empty() && len > 0 ==> |Read(b, tcp, len, peek).0| <= mem.Length
      modifies this`mbox, this`lastdata, this`lastoffset, this`rcvevent, mem
      ensures Valid()
      ensures var b := Arrived(old(View()), if dontwait || nonblocking then [] else late);
              if len == 0 || b.Empty() then
                ret == -1 && View() == old(View()) && mem[..] == old(mem[..])
                && (len > 0 ==> errno == EWOULDBLOCK)
              else
                var (out, rest) := Read(b, tcp, len, peek);
                && errno == 0 && ret == |out| && View() == rest
                && mem[..] == out + old(mem[..])[|out|..]
    {
      if len == 0 { return -1, 0; }
      var ready := Await(if dontwait || nonblocking then [] else late);
      if !ready { return -1, EWOULDBLOCK; }
      ret := Rounds(mem, len, peek);
      return ret, 0;
    }

    // The loop of sal_recvfrom, on an inbox that is not empty.
    method Rounds(mem: array<byte>, len: nat, peek: bool) returns (off: nat)
      requires Valid() && !View().Empty() && len > 0 && |Read(View(), tcp, len, peek).0| <= mem.Length
      modifies this`mbox, this`lastdata, this`lastoffset, this`rcvevent, mem
      ensures Valid()
      ensures off == |Read(old(View()), tcp, len, peek).0| && View() == Read(old(View()), tcp, len, peek).1
      ensures mem[..] == Read(old(View()), tcp, len, peek).0 + old(mem[..])[off..]
    {
      ghost var result := Read(View(), tcp, len, peek);
      ghost var was := mem[..];
      ghost var todo := result.0;
      off := 0;
      var done := false;
      while !done
        invariant Valid() && off + |todo| == |result.0| && todo == result.0[off..]
        invariant forall j :: 0 <= j < mem.Length ==> mem[j] == if j < off then result.0[j] else was[j]
        invariant done ==> todo == [] && View() == result.1
        invariant !done ==>
          !View().Empty() && todo == Read(View(), tcp, len, peek).0 && Read(View(), tcp, len, peek).1 == result.1
        decreases !done, |mbox| + (if lastdata.Some? then 1 else 0)
      {
        var n;
        done, n := RoundInto(mem, off, len, peek);
        todo := todo[n..];
        off := off + n;
      }
    }

    // One round, with its copy into the caller's buffer.
    method RoundInto(mem: array<byte>, off: nat, len: nat, peek: bool) returns (last: bool, n: nat)
      requires Valid() && !View().Empty() && len > 0 && off + |Read(View(), tcp, len, peek).0| <= mem.Length
      modifies this`mbox, this`lastdata, this`lastoffset, this`rcvevent, mem
      ensures Valid() && n <= |Read(old(View()), tcp, len, peek).0|
      ensures var out := Read(old(View()), tcp, len, peek).0;
              && (forall j :: 0 <= j < mem.Length ==>
                    mem[j] == if off <= j < off + n then out[j - off] else old(mem[j]))
              && if last then n == |out| && View() == Read(old(View()), tcp, len, peek).1
                 else !View().Empty() && out[n..] == Read(View(), tcp, len, peek).0
                      && Read(old(View()), tcp, len, peek).1 == Read(View(), tcp, len, peek).1
      ensures !last ==> |mbox| + (if lastdata.Some? then 1 else 0) < old(|mbox| + (if lastdata.Some? then 1 else 0))
    {
      ghost var v := View();
      var chunk;
      chunk, last := Round(len, peek);
      ReadByRounds(v, tcp, len, peek, chunk, View(), last);
      n := |chunk|;
      CopyInto(mem, off, chunk);
    }

    static method CopyInto(mem: array<byte>, off: nat, data: Packet)
      requires off + |data| <= mem.Length
      modifies mem
      ensures forall j :: 0 <= j < mem.Length ==>
        mem[j] == if off <= j < off + |data| then data[j - off] else old(mem[j])
    {
      for i := 0 to |data|
        invariant forall j :: 0 <= j < mem.Length ==>
          mem[j] == if off <= j < off + i then data[j - off] else old(mem[j])
      {
        mem[off + i] := data[i];
      }
    }

    // The fields sal_selscan looks at.
    method Status() returns (k: Sock)
      requires Valid()
      ensures k.lastdata || k.rcvevent > 0 <==> !View().Empty()
      ensures k.sendevent == sendevent && k.errevent == errevent
    {
      k := Sock(rcvevent, sendevent, errevent, lastdata.Some?, 0);
    }

    // An input, or a read that does not wait, is the step of a run. The bytes read are at the front of mem.
    method Perform(op: Op, mem: array<byte>, ghost t: Trace) returns (ret: int)
      requires Valid() && t.inbox == View()
      requires op.Recv? && op.len > 0 && !View().Empty() ==> |Read(View(), tcp, op.len, op.peek).0| <= mem.Length
      modifies this`mbox, this`lastdata, this`lastoffset, this`rcvevent, mem
      ensures Valid() && View() == DoOp(t, tcp, op).inbox
      ensures op.Input? ==> (ret == 0 <==> Accepts(t.inbox, op.data))
      ensures op.Recv? ==> (ret >= 0 <==> op.len > 0 && !t.inbox.Empty())
      ensures op.Recv? && ret >= 0 && !op.peek ==>
        ret <= mem.Length && DoOp(t, tcp, op).taken == t.taken + [Taken(op.len, mem[..ret])]
    {
      match op {
        case Input(data) => ret := PacketInput(data, true, true);
        case Recv(len, peek) =>
          var errno;
          ret, errno := RecvFrom(mem, len, peek, true, []);
      }
    }
  }
}
