/**
 sal_selscan (device/sal/sal_sockets.c): one pass over the descriptors a select watches, and
 the counter rcvevent it relies on.
 */
module SelScan {
  import opened SelectProtocol
  import Receive

  datatype Kind = ForRead | ForWrite | ForExcept

  // What makes a descriptor ready for each of the three sets.
  predicate Ready(kind: Kind, k: Sock) {
    match kind
    case ForRead => k.lastdata || k.rcvevent > 0
    case ForWrite => k.sendevent
    case ForExcept => k.errevent
  }

  // The ready descriptors below n of one of the sets given to select.
  ghost function Hits(wanted: set<Fd>, kind: Kind, socks: map<Fd, Sock>, n: nat): set<Fd> {
    set s | s in wanted && s < n && s in socks && Ready(kind, socks[s])
  }

  lemma HitsStep(wanted: set<Fd>, kind: Kind, socks: map<Fd, Sock>, n: nat)
    ensures if n in wanted && n in socks && Ready(kind, socks[n])
            then Hits(wanted, kind, socks, n + 1) == Hits(wanted, kind, socks, n) + {n} &&
                 n !in Hits(wanted, kind, socks, n)
            else Hits(wanted, kind, socks, n + 1) == Hits(wanted, kind, socks, n)
  {}

  // The number of marks for the descriptors below n
  function Marks(req: Request, socks: map<Fd, Sock>, n: nat): nat {
    if n == 0 then 0
    else Marks(req, socks, n - 1) + if n - 1 in socks then ReadyBits(req, n - 1, socks[n - 1]) else 0
  }

  // The scan marks exactly the ready descriptors of each set, and returns the total number of marks. socks holds each
  // descriptor's fields as they are when its turn comes.
  method Scan(req: Request, socks: map<Fd, Sock>)
    returns (nready: nat, readset: set<Fd>, writeset: set<Fd>, exceptset: set<Fd>)
    ensures readset == Hits(req.readset, ForRead, socks, req.maxfdp1)
    ensures writeset == Hits(req.writeset, ForWrite, socks, req.maxfdp1)
    ensures exceptset == Hits(req.exceptset, ForExcept, socks, req.maxfdp1)
    ensures nready == |readset| + |writeset| + |exceptset|
    ensures nready == Marks(req, socks, req.maxfdp1)
  {
    nready, readset, writeset, exceptset := 0, {}, {}, {};
    for i := 0 to req.maxfdp1
      invariant readset == Hits(req.readset, ForRead, socks, i)
      invariant writeset == Hits(req.writeset, ForWrite, socks, i)
      invariant exceptset == Hits(req.exceptset, ForExcept, socks, i)
      invariant nready == |readset| + |writeset| + |exceptset|
      invariant nready == Marks(req, socks, i)
    {
      HitsStep(req.readset, ForRead, socks, i);
      HitsStep(req.writeset, ForWrite, socks, i);
      HitsStep(req.exceptset, ForExcept, socks, i);
      if req.Watches(i) && i in socks {
        var k := socks[i];
        if i in req.readset && (k.lastdata || k.rcvevent > 0) {
          readset := readset + {i};
          nready := nready + 1;
        }
        if i in req.writeset && k.sendevent {
          writeset := writeset + {i};
          nready := nready + 1;
        }
        if i in req.exceptset && k.errevent {
          exceptset := exceptset + {i};
          nready := nready + 1;
        }
      }
    }
  }

  // The state after n steps of one task's scan that no other action comes between
  function AfterScan(st: State, t: Tid, n: nat): State {
    if n == 0 then st else Apply(AfterScan(st, t, n - 1), ScanNext(t))
  }

  // The scan has looked at n descriptors and counted their marks.
  ghost predicate Scanned(st: State, st': State, t: Tid, n: nat)
    requires t < |st.sels| && st.sels[t].pc.Scan?
  {
    && st'.socks == st.socks && t < |st'.sels| && st'.sels[t].req == st.sels[t].req
    && st'.sels[t].pc == Pc.Scan(st.sels[t].pc.phase, n, Marks(st.sels[t].req, st.socks, n))
  }

  lemma ScanOnce(st: State, mid: State, t: Tid, n: nat)
    requires t < |st.sels| && st.sels[t].pc.Scan? && Scanned(st, mid, t, n) && n < st.sels[t].req.maxfdp1
    ensures Scanned(st, Apply(mid, ScanNext(t)), t, n + 1)
  {}

  // The steps of a scan add up to the marks that sal_selscan returns.
  lemma {:induction false} StepsCountMarks(st: State, t: Tid, phase: Phase, n: nat)
    requires t < |st.sels| && st.sels[t].pc == Pc.Scan(phase, 0, 0) && n <= st.sels[t].req.maxfdp1
    ensures Scanned(st, AfterScan(st, t, n), t, n)
  {
    if n > 0 {
      StepsCountMarks(st, t, phase, n - 1);
      ScanOnce(st, AfterScan(st, t, n - 1), t, n - 1);
    }
  }

  function ScanRun(t: Tid, n: nat): seq<Action> {
    if n == 0 then [] else ScanRun(t, n - 1) + [ScanNext(t)]
  }

  // Those steps are a run of the protocol.
  lemma {:induction false} ScanIsARun(st: State, t: Tid, n: nat)
    ensures Exec(st, ScanRun(t, n)) == AfterScan(st, t, n)
  {
    if n > 0 {
      ScanIsARun(st, t, n - 1);
      var run := ScanRun(t, n);
      assert run[..|run| - 1] == ScanRun(t, n - 1) && run[|run| - 1] == ScanNext(t);
    }
  }

  // ---------------------------------------------------------------- rcvevent against the mailbox

  // The mailbox's depth, the 16-bit counter, and the calls caught between the two: inputs that have posted
  // a packet and not yet counted it, reads that have fetched one and not yet discounted it.
  datatype Counter = Counter(depth: nat, sock: Sock, posted: nat, fetched: nat)

  datatype Tick = PostPacket | CountUp | FetchPacket | CountDown

  function Next(c: Counter, t: Tick): Counter {
    match t
    case PostPacket => if c.depth < Receive.RECVMBOX_SIZE then c.(depth := c.depth + 1, posted := c.posted + 1) else c
    case CountUp => if c.posted > 0 then c.(sock := Record(c.sock, RcvPlus), posted := c.posted - 1) else c
    case FetchPacket => if c.depth > 0 then c.(depth := c.depth - 1, fetched := c.fetched + 1) else c
    case CountDown => if c.fetched > 0 then c.(sock := Record(c.sock, RcvMinus), fetched := c.fetched - 1) else c
  }

  function Run(c: Counter, ticks: seq<Tick>): Counter
    decreases |ticks|
  {
    if ticks == [] then c else Run(Next(c, ticks[0]), ticks[1..])
  }

  // The counter is right up to the calls in flight, modulo 2^16.
  predicate InStep(c: Counter) {
    && c.depth <= Receive.RECVMBOX_SIZE
    && -0x8000 <= c.sock.rcvevent < 0x8000
    && (c.sock.rcvevent + c.posted - c.fetched - c.depth) % 0x1_0000 == 0
  }

  lemma TickKeepsInStep(c: Counter, t: Tick)
    requires InStep(c)
    ensures InStep(Next(c, t))
  {}

  // However inputs and reads interleave, and however many there are, rcvevent is the mailbox's depth again
  // whenever none of them is between its two steps.
  lemma {:induction false} CounterExactAtRest(c: Counter, ticks: seq<Tick>)
    requires InStep(c)
    ensures var r := Run(c, ticks); InStep(r) && (r.posted == 0 && r.fetched == 0 ==> r.sock.rcvevent == r.depth)
    decreases |ticks|
  {
    if ticks != [] {
      TickKeepsInStep(c, ticks[0]);
      CounterExactAtRest(Next(c, ticks[0]), ticks[1..]);
    }
  }
}
