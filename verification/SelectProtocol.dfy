/**
 The select/event protocol of the socket layer (device/sal/sal_sockets.c).

 A task in sal_select puts an entry on the doubly linked list select_cb_list, raises
 select_waiting on the sockets it watches, rescans them, and then sleeps on its semaphore.
 A task in sal_deal_event records an event on one socket and walks the list to signal the
 sleepers, giving up the lock at every entry and restarting when select_cb_ctr moved.

 Each action below is one protected region (or one purely local step) of one task, so a
 sequence of actions is an interleaving at the granularity of the lock.
 */
module SelectProtocol {
  import opened Sequences
  import opened Wrappers

  type Fd = nat
  type Tid = nat

  // ---------------------------------------------------------------- state

  datatype Timeout = Forever | Poll | Finite

  datatype Request = Request(maxfdp1: nat, readset: set<Fd>, writeset: set<Fd>, exceptset: set<Fd>, timeout: Timeout) {
    predicate Watches(s: Fd) {
      s in readset || s in writeset || s in exceptset
    }
  }

  datatype Phase = First | Rescan | Final

  // Where a task stands inside sal_select.
  datatype Pc =
    | Idle
    | Scan(phase: Phase, i: nat, ready: nat)
    | Inserting
    | Registering(i: nat)
    | Waiting
    | Deregistering(i: nat, limit: nat, failed: bool, timedOut: bool)
    | Removing(failed: bool, timedOut: bool)
  {
    predicate OnList() {
      Registering? || (Scan? && phase == Rescan) || Waiting? || Deregistering? || Removing?
    }

    // The entry is on the list and its semaphore has not been waited for yet.
    predicate Sleepable() {
      Registering? || (Scan? && phase == Rescan) || Waiting?
    }
  }

  // A selecting task together with its entry of select_cb_list.
  datatype Selector = Selector(pc: Pc, req: Request, next: Option<Tid>, prev: Option<Tid>, signalled: bool, sem: nat)

  datatype Sock = Sock(rcvevent: int, sendevent: bool, errevent: bool, lastdata: bool, selectWaiting: nat)

  datatype Event = RcvPlus | RcvMinus | SendPlus | SendMinus | Error

  // A task inside sal_deal_event, between two protected regions: entry `at` has been
  // handled and `lastCtr` is the value of the list counter at that time.
  datatype Walker = Quiet | Walking(s: Fd, at: Tid, lastCtr: nat)

  datatype State = State(
    socks: map<Fd, Sock>, sels: seq<Selector>, head: Option<Tid>, ctr: nat, walkers: seq<Walker>)

  // ---------------------------------------------------------------- actions

  datatype Action =
    | Start(t: Tid, req: Request)
    | ScanNext(t: Tid)
    | Insert(t: Tid)
    | RegisterNext(t: Tid)
    | WakeUp(t: Tid)
    | TimeOut(t: Tid)
    | DeregisterNext(t: Tid)
    | Remove(t: Tid)
    | Post(w: nat, s: Fd, evt: Event)
    | Walk(w: nat)
    | SetLastdata(s: Fd, present: bool)

  // int16_t and uint8_t arithmetic
  function Wrap16(x: int): int {
    (x + 0x8000) % 0x1_0000 - 0x8000
  }

  function Record(k: Sock, evt: Event): Sock {
    match evt
    case RcvPlus => k.(rcvevent := Wrap16(k.rcvevent + 1))
    case RcvMinus => k.(rcvevent := Wrap16(k.rcvevent - 1))
    case SendPlus => k.(sendevent := true)
    case SendMinus => k.(sendevent := false)
    case Error => k.(errevent := true)
  }

  // The test of sal_deal_event on one list entry.
  predicate Wants(req: Request, s: Fd, k: Sock) {
    || (k.rcvevent > 0 && s in req.readset)
    || (k.sendevent && s in req.writeset)
    || (k.errevent && s in req.exceptset)
  }

  // How many of the three sets sal_selscan marks for one descriptor.
  function ReadyBits(req: Request, s: Fd, k: Sock): nat {
    (if s in req.readset && (k.lastdata || k.rcvevent > 0) then 1 else 0)
    + (if s in req.writeset && k.sendevent then 1 else 0)
    + (if s in req.exceptset && k.errevent then 1 else 0)
  }

  function SetPc(st: State, t: Tid, pc: Pc): State
    requires t < |st.sels|
  {
    st.(sels := st.sels[t := st.sels[t].(pc := pc)])
  }

  function DoScan(st: State, t: Tid): State
    requires t < |st.sels| && st.sels[t].pc.Scan?
  {
    var me := st.sels[t];
    var Scan(phase, i, ready) := me.pc;
    if i < me.req.maxfdp1 then
      SetPc(st, t, Scan(phase, i + 1, if i in st.socks then ready + ReadyBits(me.req, i, st.socks[i]) else ready))
    else
      match phase
      case First =>
        if ready > 0 || me.req.timeout == Poll then SetPc(st, t, Idle)
        else st.(sels := st.sels[t := Selector(Inserting, me.req, None, None, false, 0)])
      case Rescan =>
        if ready > 0 then SetPc(st, t, Deregistering(0, me.req.maxfdp1, false, false)) else SetPc(st, t, Waiting)
      case Final => SetPc(st, t, Idle)
  }

  function DoInsert(st: State, t: Tid): State
    requires t < |st.sels| && st.sels[t].pc.Inserting?
  {
    var me := st.sels[t].(next := st.head, pc := Registering(0));
    var sels := st.sels[t := me];
    var sels' := if st.head.Some? && st.head.value < |sels|
                 then sels[st.head.value := sels[st.head.value].(prev := Some(t))] else sels;
    st.(sels := sels', head := Some(t), ctr := st.ctr + 1)
  }

  function DoRegister(st: State, t: Tid): State
    requires t < |st.sels| && st.sels[t].pc.Registering?
  {
    var me := st.sels[t];
    var i := me.pc.i;
    if i >= me.req.maxfdp1 then SetPc(st, t, Scan(Rescan, 0, 0))
    else if !me.req.Watches(i) then SetPc(st, t, Registering(i + 1))
    else if i in st.socks then
      var k := st.socks[i];
      SetPc(st.(socks := st.socks[i := k.(selectWaiting := (k.selectWaiting + 1) % 256)]), t, Registering(i + 1))
    else SetPc(st, t, Deregistering(0, i, true, false))
  }

  function DoDeregister(st: State, t: Tid): State
    requires t < |st.sels| && st.sels[t].pc.Deregistering?
  {
    var me := st.sels[t];
    var Deregistering(i, limit, failed, timedOut) := me.pc;
    if i >= limit then SetPc(st, t, Removing(failed, timedOut))
    else if !me.req.Watches(i) then SetPc(st, t, Deregistering(i + 1, limit, failed, timedOut))
    else if i in st.socks then
      var k := st.socks[i];
      var k' := if k.selectWaiting > 0 then k.(selectWaiting := k.selectWaiting - 1) else k;
      SetPc(st.(socks := st.socks[i := k']), t, Deregistering(i + 1, limit, failed, timedOut))
    else SetPc(st, t, Deregistering(i + 1, limit, true, timedOut))
  }

  function SetPrev(sels: seq<Selector>, t: Option<Tid>, prev: Option<Tid>): (r: seq<Selector>)
    ensures |r| == |sels|
  {
    if t.Some? && t.value < |sels| then sels[t.value := sels[t.value].(prev := prev)] else sels
  }

  function SetNext(sels: seq<Selector>, t: Option<Tid>, next: Option<Tid>): (r: seq<Selector>)
    ensures |r| == |sels|
  {
    if t.Some? && t.value < |sels| then sels[t.value := sels[t.value].(next := next)] else sels
  }

  function DoRemove(st: State, t: Tid): State
    requires t < |st.sels| && st.sels[t].pc.Removing?
  {
    var me := st.sels[t];
    var pc := if me.pc.failed || me.pc.timedOut then Idle else Scan(Final, 0, 0);
    var sels := SetPrev(st.sels, me.next, me.prev);
    var st' :=
      if st.head == Some(t) then st.(sels := sels, head := me.next)
      else st.(sels := SetNext(sels, me.prev, me.next));
    SetPc(st'.(ctr := st.ctr + 1), t, pc)
  }

  // One round of the walk's loop body: handle the entry `at`, then give up the lock.
  function Visit(st: State, w: nat, s: Fd, at: Option<Tid>): State
    requires w < |st.walkers|
  {
    if at.None? || at.value >= |st.sels| || s !in st.socks then st.(walkers := st.walkers[w := Quiet])
    else
      var e := st.sels[at.value];
      var e' := if !e.signalled && Wants(e.req, s, st.socks[s]) then e.(signalled := true, sem := e.sem + 1) else e;
      st.(sels := st.sels[at.value := e'], walkers := st.walkers[w := Walking(s, at.value, st.ctr)])
  }

  function DoPost(st: State, w: nat, s: Fd, evt: Event): State
    requires w < |st.walkers| && s in st.socks
  {
    var k := Record(st.socks[s], evt);
    var st' := st.(socks := st.socks[s := k]);
    if k.selectWaiting == 0 then st' else Visit(st', w, s, st.head)
  }

  function DoWalk(st: State, w: nat): State
    requires w < |st.walkers| && st.walkers[w].Walking?
  {
    var Walking(s, at, lastCtr) := st.walkers[w];
    if lastCtr != st.ctr then Visit(st, w, s, st.head)
    else if at < |st.sels| then Visit(st, w, s, st.sels[at].next)
    else st
  }

  predicate Enabled(st: State, a: Action) {
    match a
    case Start(t, req) => t < |st.sels| && st.sels[t].pc.Idle?
    case ScanNext(t) => t < |st.sels| && st.sels[t].pc.Scan?
    case Insert(t) => t < |st.sels| && st.sels[t].pc.Inserting?
    case RegisterNext(t) => t < |st.sels| && st.sels[t].pc.Registering?
    case WakeUp(t) => t < |st.sels| && st.sels[t].pc.Waiting? && st.sels[t].sem > 0
    case TimeOut(t) => t < |st.sels| && st.sels[t].pc.Waiting? && st.sels[t].req.timeout == Finite
    case DeregisterNext(t) => t < |st.sels| && st.sels[t].pc.Deregistering?
    case Remove(t) => t < |st.sels| && st.sels[t].pc.Removing?
    case Post(w, s, evt) => w < |st.walkers| && st.walkers[w].Quiet? && s in st.socks
    case Walk(w) => w < |st.walkers| && st.walkers[w].Walking?
    case SetLastdata(s, present) => s in st.socks
  }

  // An action that is not enabled leaves the state alone.
  function Apply(st: State, a: Action): State {
    if !Enabled(st, a) then st else
    match a
    case Start(t, req) => st.(sels := st.sels[t := st.sels[t].(pc := Scan(First, 0, 0), req := req)])
    case ScanNext(t) => DoScan(st, t)
    case Insert(t) => DoInsert(st, t)
    case RegisterNext(t) => DoRegister(st, t)
    case WakeUp(t) =>
      st.(sels := st.sels[t := st.sels[t].(
        sem := st.sels[t].sem - 1, pc := Deregistering(0, st.sels[t].req.maxfdp1, false, false))])
    case TimeOut(t) => SetPc(st, t, Deregistering(0, st.sels[t].req.maxfdp1, false, true))
    case DeregisterNext(t) => DoDeregister(st, t)
    case Remove(t) => DoRemove(st, t)
    case Post(w, s, evt) => DoPost(st, w, s, evt)
    case Walk(w) => DoWalk(st, w)
    case SetLastdata(s, present) => st.(socks := st.socks[s := st.socks[s].(lastdata := present)])
  }

  function Exec(st: State, run: seq<Action>): State {
    if run == [] then st else Apply(Exec(st, run[..|run| - 1]), run[|run| - 1])
  }

  // n selecting tasks, m posting tasks, and the given sockets as alloc_socket leaves them.
  function Init(n: nat, m: nat, fds: set<Fd>, tcp: set<Fd>): State {
    State(map f | f in fds :: Sock(0, f !in tcp, false, false, 0),
          seq(n, _ => Selector(Idle, Request(0, {}, {}, {}, Poll), None, None, false, 0)),
          None, 0, seq(m, _ => Quiet))
  }

  // ---------------------------------------------------------------- the list

  // The pointers of the entries spell exactly the sequence l, which holds exactly the active selects.
  ghost predicate Linked(st: State, l: seq<Tid>) {
    && (forall i, j :: 0 <= i < j < |l| ==> l[i] != l[j])
    && (forall t: Tid :: t in l <==> t < |st.sels| && st.sels[t].pc.OnList())
    && st.head == (if l == [] then None else Some(l[0]))
    && (forall i :: 0 <= i < |l| ==> LinkedAt(st, l, i))
  }

  ghost predicate LinkedAt(st: State, l: seq<Tid>, i: nat)
    requires i < |l|
  {
    && l[i] < |st.sels|
    && st.sels[l[i]].next == (if i + 1 < |l| then Some(l[i + 1]) else None)
    && st.sels[l[i]].prev == (if i > 0 then Some(l[i - 1]) else None)
  }

  // st' differs from st by nothing the list can see.
  ghost predicate SameList(st: State, st': State) {
    && |st'.sels| == |st.sels|
    && st'.head == st.head
    && forall t: Tid :: t < |st.sels| ==>
      && st'.sels[t].pc.OnList() == st.sels[t].pc.OnList()
      && (st.sels[t].pc.OnList() ==> st'.sels[t].next == st.sels[t].next && st'.sels[t].prev == st.sels[t].prev)
  }

  lemma SameListKeepsLinked(st: State, st': State, l: seq<Tid>)
    requires Linked(st, l) && SameList(st, st')
    ensures Linked(st', l)
  {
    forall i | 0 <= i < |l| ensures LinkedAt(st', l, i) { assert l[i] in l && LinkedAt(st, l, i); }
  }

  lemma InsertKeepsLinked(st: State, l: seq<Tid>, t: Tid)
    requires Linked(st, l) && Enabled(st, Insert(t)) && st.sels[t].prev.None?
    ensures Linked(Apply(st, Insert(t)), [t] + l)
  {
    var st', l' := Apply(st, Insert(t)), [t] + l;
    assert t !in l;
    forall i | 0 <= i < |l'| ensures LinkedAt(st', l', i) {
      if i > 0 { assert l'[i] == l[i - 1] && l[i - 1] in l && LinkedAt(st, l, i - 1); }
    }
    forall u: Tid ensures u in l' <==> u < |st'.sels| && st'.sels[u].pc.OnList() {
      assert u in l' <==> u == t || u in l;
    }
  }

  // What unlinking t does: its two neighbours are joined, the other entries keep their pointers.
  lemma UnlinkPointers(st: State, st': State, l: seq<Tid>, t: Tid, k: nat)
    requires Linked(st, l) && Enabled(st, Remove(t)) && k < |l| && l[k] == t && st' == Apply(st, Remove(t))
    ensures |st'.sels| == |st.sels| && !st'.sels[t].pc.OnList()
    ensures st'.head == if k == 0 then st.sels[t].next else st.head
    ensures forall u: Tid :: u < |st.sels| && u != t ==>
      && st'.sels[u].pc == st.sels[u].pc
      && st'.sels[u].next == (if k > 0 && u == l[k - 1] then st.sels[t].next else st.sels[u].next)
      && st'.sels[u].prev == (if k + 1 < |l| && u == l[k + 1] then st.sels[t].prev else st.sels[u].prev)
  {
    assert LinkedAt(st, l, k);
    assert st.head == Some(t) <==> k == 0;
    if k > 0 { assert LinkedAt(st, l, k - 1); }
    if k + 1 < |l| { assert LinkedAt(st, l, k + 1); }
  }

  lemma JoinedLinked(st: State, st': State, l: seq<Tid>, t: Tid, k: nat)
    requires Linked(st, l) && k < |l| && l[k] == t < |st.sels|
    requires |st'.sels| == |st.sels| && !st'.sels[t].pc.OnList()
    requires st'.head == if k == 0 then st.sels[t].next else st.head
    requires forall u: Tid :: u < |st.sels| && u != t ==>
      && st'.sels[u].pc == st.sels[u].pc
      && st'.sels[u].next == (if k > 0 && u == l[k - 1] then st.sels[t].next else st.sels[u].next)
      && st'.sels[u].prev == (if k + 1 < |l| && u == l[k + 1] then st.sels[t].prev else st.sels[u].prev)
    ensures Linked(st', Drop(l, k))
  {
    var l' := Drop(l, k);
    assert LinkedAt(st, l, k);
    forall i | 0 <= i < |l'| ensures LinkedAt(st', l', i) {
      var j := if i < k then i else i + 1;
      assert l'[i] == l[j] && LinkedAt(st, l, j);
    }
    forall u: Tid ensures u in l' <==> u < |st'.sels| && st'.sels[u].pc.OnList() {
      DropMembers(l, k, u);
    }
  }

  lemma RemoveKeepsLinked(st: State, l: seq<Tid>, t: Tid, k: nat)
    requires Linked(st, l) && Enabled(st, Remove(t)) && k < |l| && l[k] == t
    ensures Linked(Apply(st, Remove(t)), Drop(l, k))
  {
    UnlinkPointers(st, Apply(st, Remove(t)), l, t, k);
    JoinedLinked(st, Apply(st, Remove(t)), l, t, k);
  }

  // ---------------------------------------------------------------- registrations

  // The select of entry e counts in select_waiting of socket s.
  predicate Registered(e: Selector, s: Fd) {
    && e.req.Watches(s)
    && match e.pc
       case Registering(i) => s < i
       case Scan(phase, _, _) => phase == Rescan && s < e.req.maxfdp1
       case Waiting => s < e.req.maxfdp1
       case Deregistering(i, limit, _, _) => i <= s < limit
       case _ => false
  }

  // The number of selects registered on s and not yet deregistered.
  function Registrations(sels: seq<Selector>, s: Fd): (n: nat)
    ensures n <= |sels|
  {
    if sels == [] then 0
    else Registrations(sels[1..], s) + (if Registered(sels[0], s) then 1 else 0)
  }

  lemma {:induction false} RegistrationsUpdate(sels: seq<Selector>, t: Tid, e: Selector, s: Fd)
    requires t < |sels|
    ensures Registrations(sels[t := e], s)
            == Registrations(sels, s) - (if Registered(sels[t], s) then 1 else 0) + (if Registered(e, s) then 1 else 0)
  {
    if t == 0 {
      assert sels[t := e][1..] == sels[1..];
    } else {
      assert sels[t := e][1..] == sels[1..][t - 1 := e];
      RegistrationsUpdate(sels[1..], t - 1, e, s);
    }
  }

  lemma {:induction false} RegistrationsPositive(sels: seq<Selector>, t: Tid, s: Fd)
    requires t < |sels| && Registered(sels[t], s)
    ensures Registrations(sels, s) > 0
  {
    if t > 0 { RegistrationsPositive(sels[1..], t - 1, s); }
  }

  lemma {:induction false} RegistrationsSame(sels: seq<Selector>, sels': seq<Selector>, s: Fd)
    requires |sels| == |sels'| && forall t: Tid :: t < |sels| ==> Registered(sels[t], s) == Registered(sels'[t], s)
    ensures Registrations(sels, s) == Registrations(sels', s)
  {
    if sels != [] { RegistrationsSame(sels[1..], sels'[1..], s); }
  }

  ghost predicate Counted(st: State) {
    forall s :: s in st.socks ==> st.socks[s].selectWaiting == Registrations(st.sels, s)
  }

  // ---------------------------------------------------------------- entries and walkers

  // What is known of one selecting task: every descriptor it has registered is open, and until it
  // waits for its semaphore the semaphore's count is exactly what sem_signalled says.
  predicate EntryOk(e: Selector, open: set<Fd>) {
    && (e.pc.Inserting? ==> e.prev.None? && !e.signalled && e.sem == 0)
    && (forall f: Fd :: f < e.req.maxfdp1 && Registered(e, f) ==> f in open)
    && (e.pc.Registering? ==> e.pc.i <= e.req.maxfdp1)
    && (e.pc.Deregistering? ==> e.pc.limit <= e.req.maxfdp1)
    && (e.pc.Sleepable() ==> e.sem == if e.signalled then 1 else 0)
  }

  ghost predicate EntriesOk(st: State) {
    forall t: Tid :: t < |st.sels| ==> EntryOk(st.sels[t], st.socks.Keys)
  }

  // A walker whose counter is current stands on an entry that is still on the list.
  ghost predicate WalkersOk(st: State, l: seq<Tid>) {
    forall w :: 0 <= w < |st.walkers| && st.walkers[w].Walking? ==>
      && st.walkers[w].s in st.socks
      && st.walkers[w].lastCtr <= st.ctr
      && (st.walkers[w].lastCtr == st.ctr ==> st.walkers[w].at in l)
  }

  // The selecting task that takes the action, if any.
  function Owner(a: Action): Option<Tid> {
    match a
    case Post(_, _, _) => None
    case Walk(_) => None
    case SetLastdata(_, _) => None
    case _ => Some(a.t)
  }

  // The list entry a walker handles in this action, if any.
  function Visited(st: State, a: Action): Option<Tid> {
    match a
    case Post(w, s, evt) => if s in st.socks && st.socks[s].selectWaiting > 0 then st.head else None
    case Walk(w) =>
      if w < |st.walkers| && st.walkers[w].Walking? then
        if st.walkers[w].lastCtr != st.ctr then st.head
        else if st.walkers[w].at < |st.sels| then st.sels[st.walkers[w].at].next else None
      else None
    case _ => None
  }

  lemma VisitedOnList(st: State, a: Action, l: seq<Tid>)
    requires Linked(st, l) && WalkersOk(st, l) && Visited(st, a).Some? && Enabled(st, a)
    ensures Visited(st, a).value in l
  {
    if a.Walk? && st.walkers[a.w].lastCtr == st.ctr {
      var i :| 0 <= i < |l| && l[i] == st.walkers[a.w].at;
      assert LinkedAt(st, l, i);
    }
  }

  // A visit signals the entry it is at, or changes no entry.
  lemma VisitKeeps(st: State, w: nat, s: Fd, at: Option<Tid>, u: Tid)
    requires w < |st.walkers| && u < |st.sels|
    ensures var st' := Visit(st, w, s, at);
      && |st'.sels| == |st.sels| && st'.socks == st.socks && st'.head == st.head && st'.ctr == st.ctr
      && |st'.walkers| == |st.walkers|
      && (at != Some(u) ==> st'.sels[u] == st.sels[u])
      && (st'.sels[u] == st.sels[u] ||
          (!st.sels[u].signalled && st'.sels[u] == st.sels[u].(signalled := true, sem := st.sels[u].sem + 1)))
  {}

  // An action changes, in the entry of a task that does not take it, only pointers and signals.
  lemma OthersKeep(st: State, a: Action, u: Tid)
    requires u < |st.sels| && Enabled(st, a) && Owner(a) != Some(u)
    ensures |Apply(st, a).sels| == |st.sels|
    ensures Apply(st, a).sels[u].pc == st.sels[u].pc && Apply(st, a).sels[u].req == st.sels[u].req
    ensures Visited(st, a) != Some(u) ==>
              Apply(st, a).sels[u].signalled == st.sels[u].signalled && Apply(st, a).sels[u].sem == st.sels[u].sem
    ensures Visited(st, a) == Some(u) ==>
              Apply(st, a).sels[u] == st.sels[u]
              || (!st.sels[u].signalled
                  && Apply(st, a).sels[u] == st.sels[u].(signalled := true, sem := st.sels[u].sem + 1))
  {
    match a {
      case Post(w, s, evt) => VisitKeeps(st.(socks := st.socks[s := Record(st.socks[s], evt)]), w, s, st.head, u);
      case Walk(w) => VisitKeeps(st, w, st.walkers[w].s, Visited(st, a), u);
      case _ =>
    }
  }

  lemma SocksKeep(st: State, a: Action)
    ensures Apply(st, a).socks.Keys == st.socks.Keys && |Apply(st, a).sels| == |st.sels|
    ensures |Apply(st, a).walkers| == |st.walkers|
  {
    match a {
      case Post(w, s, evt) =>
      case Walk(w) =>
      case Insert(t) =>
      case Remove(t) =>
      case _ =>
    }
  }

  // The entry of the task that takes the action, one action at a time.
  lemma ScannerKeeps(st: State, t: Tid)
    requires EntriesOk(st) && Enabled(st, ScanNext(t))
    ensures EntryOk(Apply(st, ScanNext(t)).sels[t], st.socks.Keys)
    ensures forall s :: Registered(Apply(st, ScanNext(t)).sels[t], s) == Registered(st.sels[t], s)
  {
    assert EntryOk(st.sels[t], st.socks.Keys);
  }

  lemma RegisteringKeeps(st: State, t: Tid)
    requires EntriesOk(st) && Enabled(st, RegisterNext(t))
    ensures EntryOk(Apply(st, RegisterNext(t)).sels[t], st.socks.Keys)
  {
    assert EntryOk(st.sels[t], st.socks.Keys);
  }

  lemma DeregisteringKeeps(st: State, t: Tid)
    requires EntriesOk(st) && Enabled(st, DeregisterNext(t))
    ensures EntryOk(Apply(st, DeregisterNext(t)).sels[t], st.socks.Keys)
  {
    assert EntryOk(st.sels[t], st.socks.Keys);
  }

  lemma SleeperKeeps(st: State, a: Action)
    requires EntriesOk(st) && Enabled(st, a) && (a.Start? || a.WakeUp? || a.TimeOut?)
    ensures EntryOk(Apply(st, a).sels[a.t], st.socks.Keys)
    ensures forall s :: Registered(Apply(st, a).sels[a.t], s) == Registered(st.sels[a.t], s)
  {
    assert EntryOk(st.sels[a.t], st.socks.Keys);
  }

  lemma OwnerKeeps(st: State, a: Action)
    requires EntriesOk(st) && Enabled(st, a) && Owner(a).Some? && !a.Insert? && !a.Remove?
    ensures EntryOk(Apply(st, a).sels[Owner(a).value], st.socks.Keys)
    ensures !a.RegisterNext? && !a.DeregisterNext? ==>
              forall s :: Registered(Apply(st, a).sels[a.t], s) == Registered(st.sels[a.t], s)
  {
    match a {
      case ScanNext(t) => ScannerKeeps(st, t);
      case RegisterNext(t) => RegisteringKeeps(st, t);
      case DeregisterNext(t) => DeregisteringKeeps(st, t);
      case _ => SleeperKeeps(st, a);
    }
  }

  lemma OwnerLinks(st: State, a: Action, l: seq<Tid>)
    requires EntriesOk(st) && Linked(st, l) && Enabled(st, a) && (a.Insert? || a.Remove?)
    ensures EntryOk(Apply(st, a).sels[a.t], st.socks.Keys)
    ensures forall s :: Registered(Apply(st, a).sels[a.t], s) == Registered(st.sels[a.t], s)
  {}

  // A task that is about to insert its entry is not on the list, so no one writes its pointers.
  lemma OthersKeepInserting(st: State, a: Action, l: seq<Tid>, u: Tid)
    requires Linked(st, l) && u < |st.sels| && st.sels[u].pc.Inserting? && Enabled(st, a) && Owner(a) != Some(u)
    ensures Apply(st, a).sels[u].prev == st.sels[u].prev
  {
    assert u !in l;
    if a.Insert? && st.head.Some? { assert l[0] in l; }
    if a.Remove? {
      var k :| 0 <= k < |l| && l[k] == a.t;
      UnlinkPointers(st, Apply(st, a), l, a.t, k);
      if k + 1 < |l| { assert l[k + 1] in l; }
    }
  }

  lemma StepKeepsEntries(st: State, a: Action, l: seq<Tid>)
    requires EntriesOk(st) && Linked(st, l) && WalkersOk(st, l) && Enabled(st, a)
    ensures EntriesOk(Apply(st, a))
  {
    var st' := Apply(st, a);
    SocksKeep(st, a);
    forall u: Tid | u < |st'.sels| ensures EntryOk(st'.sels[u], st'.socks.Keys) {
      assert EntryOk(st.sels[u], st.socks.Keys);
      if Owner(a) == Some(u) {
        if a.Insert? || a.Remove? { OwnerLinks(st, a, l); } else { OwnerKeeps(st, a); }
      } else {
        OthersKeep(st, a, u);
        if Visited(st, a) == Some(u) { VisitedOnList(st, a, l); }
        if st.sels[u].pc.Inserting? { OthersKeepInserting(st, a, l, u); }
      }
    }
  }

  // ---------------------------------------------------------------- select_waiting

  lemma RegistrationUnchanged(st: State, a: Action, l: seq<Tid>, u: Tid, s: Fd)
    requires EntriesOk(st) && Linked(st, l) && Enabled(st, a) && u < |st.sels|
    requires (!a.RegisterNext? && !a.DeregisterNext?) || Owner(a) != Some(u)
    ensures |Apply(st, a).sels| == |st.sels|
    ensures Registered(Apply(st, a).sels[u], s) == Registered(st.sels[u], s)
  {
    SocksKeep(st, a);
    if Owner(a) == Some(u) {
      if a.Insert? || a.Remove? { OwnerLinks(st, a, l); } else { OwnerKeeps(st, a); }
    } else {
      OthersKeep(st, a, u);
    }
  }

  // What one registration or deregistration does to select_waiting of s.
  ghost predicate RegistersOne(st: State, st': State, t: Tid, s: Fd)
    requires t < |st.sels| && t < |st'.sels| && s in st.socks
  {
    var was := Registered(st.sels[t], s);
    var now := Registered(st'.sels[t], s);
    var k := st.socks[s].selectWaiting;
    && s in st'.socks && st'.sels == st.sels[t := st'.sels[t]]
    && st'.socks[s].selectWaiting == if !was && now then (k + 1) % 256 else if was && !now && k > 0 then k - 1 else k
  }

  lemma RegisterStep(st: State, t: Tid, s: Fd)
    requires EntriesOk(st) && Enabled(st, RegisterNext(t)) && s in st.socks
    ensures |Apply(st, RegisterNext(t)).sels| == |st.sels| && RegistersOne(st, Apply(st, RegisterNext(t)), t, s)
  {
    assert EntryOk(st.sels[t], st.socks.Keys);
  }

  lemma DeregisterStep(st: State, t: Tid, s: Fd)
    requires EntriesOk(st) && Enabled(st, DeregisterNext(t)) && s in st.socks
    ensures |Apply(st, DeregisterNext(t)).sels| == |st.sels| && RegistersOne(st, Apply(st, DeregisterNext(t)), t, s)
  {
    assert EntryOk(st.sels[t], st.socks.Keys);
  }

  lemma SelectWaitingUnchanged(st: State, a: Action, s: Fd)
    requires Enabled(st, a) && !a.RegisterNext? && !a.DeregisterNext? && s in st.socks
    ensures s in Apply(st, a).socks && Apply(st, a).socks[s].selectWaiting == st.socks[s].selectWaiting
  {}

  lemma CountedStep(st: State, st': State, t: Tid, s: Fd)
    requires t < |st.sels| == |st'.sels| <= 255 && s in st.socks && RegistersOne(st, st', t, s)
    requires st.socks[s].selectWaiting == Registrations(st.sels, s)
    ensures st'.socks[s].selectWaiting == Registrations(st'.sels, s)
  {
    RegistrationsUpdate(st.sels, t, st'.sels[t], s);
    if Registered(st.sels[t], s) { RegistrationsPositive(st.sels, t, s); }
    assert Registrations(st'.sels, s) <= |st'.sels|;
  }

  lemma CountedOtherwise(st: State, a: Action, l: seq<Tid>, s: Fd)
    requires EntriesOk(st) && Linked(st, l) && Enabled(st, a) && !a.RegisterNext? && !a.DeregisterNext?
    requires s in st.socks && st.socks[s].selectWaiting == Registrations(st.sels, s)
    ensures s in Apply(st, a).socks && Apply(st, a).socks[s].selectWaiting == Registrations(Apply(st, a).sels, s)
  {
    SocksKeep(st, a);
    SelectWaitingUnchanged(st, a, s);
    var st' := Apply(st, a);
    forall u: Tid | u < |st.sels| ensures Registered(st.sels[u], s) == Registered(st'.sels[u], s) {
      RegistrationUnchanged(st, a, l, u, s);
    }
    RegistrationsSame(st.sels, st'.sels, s);
  }

  // The 8-bit select_waiting stays exact while at most 255 tasks select.
  lemma StepKeepsCounted(st: State, a: Action, l: seq<Tid>)
    requires EntriesOk(st) && Linked(st, l) && Counted(st) && |st.sels| <= 255 && Enabled(st, a)
    ensures Counted(Apply(st, a))
  {
    SocksKeep(st, a);
    forall s | s in st.socks
      ensures Apply(st, a).socks[s].selectWaiting == Registrations(Apply(st, a).sels, s)
    {
      match a {
        case RegisterNext(t) =>
          RegisterStep(st, t, s);
          CountedStep(st, Apply(st, a), t, s);
        case DeregisterNext(t) =>
          DeregisterStep(st, t, s);
          CountedStep(st, Apply(st, a), t, s);
        case _ => CountedOtherwise(st, a, l, s);
      }
    }
  }

  // ---------------------------------------------------------------- walkers

  lemma WalkerFrame(st: State, a: Action)
    requires Enabled(st, a)
    ensures a.Insert? || a.Remove? ==> Apply(st, a).ctr == st.ctr + 1
    ensures !a.Insert? && !a.Remove? ==> Apply(st, a).ctr == st.ctr
    ensures forall w :: 0 <= w < |st.walkers| && a != Walk(w) && !(a.Post? && a.w == w) ==>
              w < |Apply(st, a).walkers| && Apply(st, a).walkers[w] == st.walkers[w]
  {}

  // The walker that moves ends up on the entry it handled, or done.
  lemma WalkerMoves(st: State, a: Action, l: seq<Tid>)
    requires Linked(st, l) && WalkersOk(st, l) && Enabled(st, a) && (a.Walk? || a.Post?)
    ensures |Apply(st, a).walkers| == |st.walkers|
    ensures var s := if a.Post? then a.s else st.walkers[a.w].s;
            Apply(st, a).walkers[a.w] ==
              match Visited(st, a) case Some(u) => Walking(s, u, st.ctr) case None => Quiet
  {
    if Visited(st, a).Some? { VisitedOnList(st, a, l); }
    if a.Walk? && st.walkers[a.w].lastCtr == st.ctr { assert st.walkers[a.w].at in l; }
  }

  ghost predicate SameMembersWhenCurrent(a: Action, l: seq<Tid>, l': seq<Tid>) {
    !a.Insert? && !a.Remove? ==> l' == l
  }

  lemma StepKeepsWalkers(st: State, a: Action, l: seq<Tid>, l': seq<Tid>)
    requires Linked(st, l) && WalkersOk(st, l) && Enabled(st, a) && SameMembersWhenCurrent(a, l, l')
    ensures WalkersOk(Apply(st, a), l')
  {
    SocksKeep(st, a);
    WalkerFrame(st, a);
    if a.Walk? || a.Post? {
      WalkerMoves(st, a, l);
      if Visited(st, a).Some? { VisitedOnList(st, a, l); }
    }
  }

  // ---------------------------------------------------------------- no lost wakeup

  // The select of e will sleep unless something not yet seen happens: it waits, or it has rescanned s
  // without finding anything so far.
  predicate Asleep(e: Selector, s: Fd) {
    && s < e.req.maxfdp1
    && e.req.Watches(s)
    && (e.pc.Waiting? || (e.pc.Scan? && e.pc.phase == Rescan && e.pc.ready == 0 && s < e.pc.i))
  }

  ghost predicate Before(l: seq<Tid>, a: Tid, b: Tid) {
    exists i, j :: 0 <= i < j < |l| && l[i] == a && l[j] == b
  }

  // Walker w works for socket s and has yet to visit the entry of t.
  ghost predicate Coming(st: State, l: seq<Tid>, w: nat, t: Tid, s: Fd) {
    && w < |st.walkers|
    && st.walkers[w].Walking?
    && st.walkers[w].s == s
    && (st.walkers[w].lastCtr != st.ctr || Before(l, st.walkers[w].at, t))
  }

  ghost predicate Covered(st: State, l: seq<Tid>, t: Tid, s: Fd)
    requires t < |st.sels|
  {
    st.sels[t].signalled || exists w: nat :: Coming(st, l, w, t, s)
  }

  ghost predicate NoneLost(st: State, l: seq<Tid>) {
    forall t: Tid, s | t < |st.sels| && s in st.socks && Asleep(st.sels[t], s) &&
                       Wants(st.sels[t].req, s, st.socks[s]) ::
      Covered(st, l, t, s)
  }

  // A walk on s that handles some entry leaves every other entry of the list signalled or still to come.
  lemma VisitCovers(st: State, a: Action, l: seq<Tid>, t: Tid, s: Fd, from: nat)
    requires Linked(st, l) && WalkersOk(st, l) && Enabled(st, a) && (a.Walk? || a.Post?) && s in st.socks
    requires s == if a.Post? then a.s else st.walkers[a.w].s
    requires from < |l| && Visited(st, a) == Some(l[from]) && (exists j :: from <= j < |l| && l[j] == t)
    requires t < |st.sels| && s in Apply(st, a).socks && Wants(st.sels[t].req, s, Apply(st, a).socks[s])
    ensures |Apply(st, a).sels| == |st.sels| && Covered(Apply(st, a), l, t, s)
  {
    SocksKeep(st, a);
    WalkerMoves(st, a, l);
    WalkerFrame(st, a);
    if l[from] == t {
      assert Apply(st, a).sels[t].signalled;
    } else {
      assert Before(l, l[from], t);
      assert Coming(Apply(st, a), l, a.w, t, s);
    }
  }

  // An entry already covered stays covered.
  lemma StepKeepsCovered(st: State, a: Action, l: seq<Tid>, l': seq<Tid>, t: Tid, s: Fd)
    requires Linked(st, l) && WalkersOk(st, l) && Enabled(st, a) && SameMembersWhenCurrent(a, l, l')
    requires t < |st.sels| && t in l && s in st.socks && st.sels[t].pc.Sleepable() && Covered(st, l, t, s)
    requires |Apply(st, a).sels| == |st.sels| && s in Apply(st, a).socks
    requires Wants(st.sels[t].req, s, Apply(st, a).socks[s])
    ensures Covered(Apply(st, a), l', t, s)
  {
    var st' := Apply(st, a);
    WalkerFrame(st, a);
    SocksKeep(st, a);
    if st.sels[t].signalled {
      if Owner(a) != Some(t) { OthersKeep(st, a, t); }
    } else {
      var w: nat :| Coming(st, l, w, t, s);
      if a == Walk(w) {
        if st.walkers[w].lastCtr != st.ctr {
          VisitCovers(st, a, l, t, s, 0);
        } else {
          var i, j :| 0 <= i < j < |l| && l[i] == st.walkers[w].at && l[j] == t;
          assert LinkedAt(st, l, i);
          VisitCovers(st, a, l, t, s, i + 1);
        }
      } else {
        assert Coming(st', l', w, t, s);
      }
    }
  }

  // An action that is not an event on s leaves the three event fields of s alone.
  lemma EventsUnchanged(st: State, a: Action, s: Fd)
    requires Enabled(st, a) && s in st.socks && !(a.Post? && a.s == s)
    ensures s in Apply(st, a).socks
    ensures Apply(st, a).socks[s].rcvevent == st.socks[s].rcvevent
    ensures Apply(st, a).socks[s].sendevent == st.socks[s].sendevent
    ensures Apply(st, a).socks[s].errevent == st.socks[s].errevent
  {
    match a {
      case Post(w, f, evt) =>
      case Walk(w) =>
      case Insert(t) =>
      case Remove(t) =>
      case _ =>
    }
  }

  // A task falls asleep on s only by looking at s and finding nothing.
  lemma FallingAsleep(st: State, a: Action, t: Tid, s: Fd)
    requires Enabled(st, a) && t < |st.sels| && s in st.socks
    requires |Apply(st, a).sels| == |st.sels| && Asleep(Apply(st, a).sels[t], s)
    ensures Apply(st, a).sels[t].req == st.sels[t].req
    ensures st.sels[t].pc.Sleepable()
    ensures Asleep(st.sels[t], s) ||
            (Owner(a) == Some(t) && !a.Insert? && !a.Remove? && !Wants(st.sels[t].req, s, st.socks[s]))
  {
    if Owner(a) == Some(t) {
      match a {
        case Insert(_) =>
        case Remove(_) =>
        case _ =>
      }
    } else {
      OthersKeep(st, a, t);
    }
  }

  lemma StepKeepsNoneLost(st: State, a: Action, l: seq<Tid>, l': seq<Tid>)
    requires Linked(st, l) && WalkersOk(st, l) && EntriesOk(st) && Counted(st) && NoneLost(st, l)
    requires Enabled(st, a) && SameMembersWhenCurrent(a, l, l')
    ensures NoneLost(Apply(st, a), l')
  {
    var st' := Apply(st, a);
    SocksKeep(st, a);
    forall t: Tid, s | t < |st'.sels| && s in st'.socks && Asleep(st'.sels[t], s)
                       && Wants(st'.sels[t].req, s, st'.socks[s])
      ensures Covered(st', l', t, s)
    {
      FallingAsleep(st, a, t, s);
      if !(a.Post? && a.s == s) { EventsUnchanged(st, a, s); }
      assert Asleep(st.sels[t], s);
      assert t in l;
      if Wants(st.sels[t].req, s, st.socks[s]) {
        StepKeepsCovered(st, a, l, l', t, s);
      } else {
        RegistrationsPositive(st.sels, t, s);
        VisitCovers(st, a, l, t, s, 0);
      }
    }
  }

  // ---------------------------------------------------------------- whole runs

  ghost predicate Inv(st: State, l: seq<Tid>) {
    Linked(st, l) && WalkersOk(st, l) && EntriesOk(st) && Counted(st) && NoneLost(st, l)
  }

  lemma StepKeepsInv(st: State, a: Action, l: seq<Tid>) returns (l': seq<Tid>)
    requires Inv(st, l) && |st.sels| <= 255
    ensures Inv(Apply(st, a), l') && |Apply(st, a).sels| == |st.sels|
  {
    if !Enabled(st, a) { return l; }
    match a {
      case Insert(t) =>
        assert EntryOk(st.sels[t], st.socks.Keys);
        l' := [t] + l;
        InsertKeepsLinked(st, l, t);
      case Remove(t) =>
        assert t in l;
        var k :| 0 <= k < |l| && l[k] == t;
        l' := Drop(l, k);
        RemoveKeepsLinked(st, l, t, k);
      case _ =>
        l' := l;
        OtherActionsKeepLinked(st, a, l);
    }
    SocksKeep(st, a);
    StepKeepsWalkers(st, a, l, l');
    StepKeepsEntries(st, a, l);
    StepKeepsCounted(st, a, l);
    StepKeepsNoneLost(st, a, l, l');
  }

  lemma VisitKeepsList(st: State, w: nat, s: Fd, at: Option<Tid>)
    requires w < |st.walkers|
    ensures SameList(st, Visit(st, w, s, at))
  {
    forall u: Tid | u < |st.sels|
      ensures var e := Visit(st, w, s, at).sels[u];
              e.pc == st.sels[u].pc && e.next == st.sels[u].next && e.prev == st.sels[u].prev
    {
      VisitKeeps(st, w, s, at, u);
    }
  }

  lemma OtherActionsKeepLinked(st: State, a: Action, l: seq<Tid>)
    requires Linked(st, l) && Enabled(st, a) && !a.Insert? && !a.Remove?
    ensures Linked(Apply(st, a), l)
  {
    match a {
      case Post(w, s, evt) => VisitKeepsList(st.(socks := st.socks[s := Record(st.socks[s], evt)]), w, s, st.head);
      case Walk(w) => VisitKeepsList(st, w, st.walkers[w].s, Visited(st, a));
      case _ => OwnerKeepsList(st, a);
    }
    SameListKeepsLinked(st, Apply(st, a), l);
  }

  lemma OwnerKeepsList(st: State, a: Action)
    requires Enabled(st, a) && !a.Insert? && !a.Remove? && !a.Post? && !a.Walk?
    ensures SameList(st, Apply(st, a))
  {}

  ghost predicate Reaches(st: State, st': State) {
    exists run :: Exec(st, run) == st'
  }

  lemma ReachesStep(st0: State, st: State, a: Action)
    requires Reaches(st0, st)
    ensures Reaches(st0, Apply(st, a))
  {
    var run :| Exec(st0, run) == st;
    assert (run + [a])[..|run|] == run;
    assert Exec(st0, run + [a]) == Apply(st, a);
  }

  lemma {:induction false} NoRegistrations(sels: seq<Selector>, s: Fd)
    requires forall t: Tid :: t < |sels| ==> sels[t].pc.Idle?
    ensures Registrations(sels, s) == 0
  {
    if sels != [] { NoRegistrations(sels[1..], s); }
  }

  lemma {:induction false} RunKeepsInv(n: nat, m: nat, fds: set<Fd>, tcp: set<Fd>, run: seq<Action>)
    returns (l: seq<Tid>)
    requires n <= 255
    ensures var st := Exec(Init(n, m, fds, tcp), run); Inv(st, l) && |st.sels| == n
    decreases |run|
  {
    if run == [] {
      l := [];
      forall s ensures Registrations(Init(n, m, fds, tcp).sels, s) == 0 {
        NoRegistrations(Init(n, m, fds, tcp).sels, s);
      }
    } else {
      var l0 := RunKeepsInv(n, m, fds, tcp, run[..|run| - 1]);
      l := StepKeepsInv(Exec(Init(n, m, fds, tcp), run[..|run| - 1]), run[|run| - 1], l0);
    }
  }

  // In every interleaving of at most 255 selecting tasks and any number of event posters:
  // select_cb_list is a well-formed doubly linked list of exactly the active selects, select_waiting counts
  // the selects registered on each socket, no walker is about to follow a pointer of an entry that has left
  // the list, and a sleeper whose socket has an event is signalled or has a walker coming.
  lemma SelectListAndWakeups(n: nat, m: nat, fds: set<Fd>, tcp: set<Fd>, st: State)
    requires n <= 255 && Reaches(Init(n, m, fds, tcp), st)
    ensures Counted(st)
    ensures exists l :: Linked(st, l) && WalkersOk(st, l) && NoneLost(st, l)
  {
    var run :| Exec(Init(n, m, fds, tcp), run) == st;
    var l := RunKeepsInv(n, m, fds, tcp, run);
  }

  // Once no event is being delivered, every sleeper with an event on a watched socket can wake up.
  ghost predicate NoSleeperLeft(st: State) {
    (forall w :: 0 <= w < |st.walkers| ==> st.walkers[w].Quiet?) ==>
      forall t: Tid, s | t < |st.sels| && s in st.socks && st.sels[t].pc.Waiting? && s < st.sels[t].req.maxfdp1
                         && Wants(st.sels[t].req, s, st.socks[s]) ::
        Enabled(st, WakeUp(t))
  }

  lemma InvLeavesNoSleeper(st: State, l: seq<Tid>)
    requires Inv(st, l)
    ensures NoSleeperLeft(st)
  {}

  function WalkRun(w: nat, n: nat): (r: seq<Action>)
    ensures |r| == n
  {
    if n == 0 then [] else WalkRun(w, n - 1) + [Walk(w)]
  }

  lemma {:induction false} ExecConcat(st: State, r1: seq<Action>, r2: seq<Action>)
    ensures Exec(st, r1 + r2) == Exec(Exec(st, r1), r2)
    decreases |r2|
  {
    if r2 == [] {
      assert r1 + r2 == r1;
    } else {
      assert (r1 + r2)[..|r1 + r2| - 1] == r1 + r2[..|r2| - 1];
      ExecConcat(st, r1, r2[..|r2| - 1]);
    }
  }

  // A walker for socket s stands on the i-th entry, and task t on the j-th has an event there.
  ghost predicate OnTheWay(st: State, l: seq<Tid>, w: nat, t: Tid, s: Fd, i: nat, j: nat) {
    && Linked(st, l) && WalkersOk(st, l)
    && w < |st.walkers| && st.walkers[w].Walking? && st.walkers[w].s == s && st.walkers[w].lastCtr == st.ctr
    && i < j < |l| && st.walkers[w].at == l[i] && l[j] == t < |st.sels|
    && s in st.socks && Wants(st.sels[t].req, s, st.socks[s])
  }

  lemma OneRound(st: State, l: seq<Tid>, w: nat, t: Tid, s: Fd, i: nat, j: nat)
    requires OnTheWay(st, l, w, t, s, i, j)
    ensures var st' := Apply(st, Walk(w));
      && t < |st'.sels|
      && (if j == i + 1 then st'.sels[t].signalled else OnTheWay(st', l, w, t, s, i + 1, j))
  {
    var a := Walk(w);
    assert LinkedAt(st, l, i);
    SocksKeep(st, a);
    WalkerMoves(st, a, l);
    WalkerFrame(st, a);
    OthersKeep(st, a, t);
    EventsUnchanged(st, a, s);
    if j > i + 1 {
      OtherActionsKeepLinked(st, a, l);
      StepKeepsWalkers(st, a, l, l);
    }
  }

  // The state after n rounds of one walk that no other action comes between
  function Walked(st: State, w: nat, n: nat): State
    decreases n
  {
    if n == 0 then st else Walked(Apply(st, Walk(w)), w, n - 1)
  }

  lemma {:induction false} WalkArrives(st: State, l: seq<Tid>, w: nat, t: Tid, s: Fd, i: nat, j: nat)
    requires OnTheWay(st, l, w, t, s, i, j)
    ensures var st' := Walked(st, w, j - i); t < |st'.sels| && st'.sels[t].signalled
    decreases j - i
  {
    var st1 := Apply(st, Walk(w));
    OneRound(st, l, w, t, s, i, j);
    if j == i + 1 {
      assert Walked(st1, w, 0) == st1;
    } else {
      WalkArrives(st1, l, w, t, s, i + 1, j);
    }
  }

  // Those rounds are a run.
  lemma {:induction false} WalkIsARun(st: State, w: nat, n: nat)
    ensures Exec(st, WalkRun(w, n)) == Walked(st, w, n)
    decreases n
  {
    if n > 0 {
      WalkIsARun(Apply(st, Walk(w)), w, n - 1);
      WalkRunFront(w, n - 1);
      ExecConcat(st, [Walk(w)], WalkRun(w, n - 1));
      ExecOne(st, Walk(w));
    }
  }

  lemma ExecOne(st: State, a: Action)
    ensures Exec(st, [a]) == Apply(st, a)
  {
    assert [a][..0] == [];
  }

  lemma {:induction false} WalkRunFront(w: nat, n: nat)
    ensures WalkRun(w, n + 1) == [Walk(w)] + WalkRun(w, n)
  {
    if n > 0 { WalkRunFront(w, n - 1); }
  }

  // A walk that is not disturbed signals every sleeper it still has to visit, in at most |l| rounds.
  lemma WalkDelivers(st: State, l: seq<Tid>, w: nat, t: Tid, s: Fd, i: nat, j: nat) returns (n: nat)
    requires OnTheWay(st, l, w, t, s, i, j)
    ensures n <= j - i
    ensures var st' := Exec(st, WalkRun(w, n)); t < |st'.sels| && st'.sels[t].signalled
  {
    n := j - i;
    WalkArrives(st, l, w, t, s, i, j);
    WalkIsARun(st, w, n);
  }

  // ---------------------------------------------------------------- where 8 bits run out

  const READ0 := Request(1, {0}, {}, {}, Forever)

  // The first k tasks sleep in a select for reading socket 0; nothing has happened on it.
  ghost predicate Parked(st: State, k: nat) {
    && k <= |st.sels|
    && (forall t: Tid :: t < k ==>
          st.sels[t].pc.Waiting? && st.sels[t].req == READ0 && !st.sels[t].signalled && st.sels[t].sem == 0)
    && (forall t: Tid :: k <= t < |st.sels| ==> st.sels[t].pc.Idle?)
    && (forall w :: 0 <= w < |st.walkers| ==> st.walkers[w].Quiet?)
    && 0 in st.socks
    && st.socks[0].rcvevent == 0 && !st.socks[0].lastdata && st.socks[0].selectWaiting == k % 256
  }

  // What the task does up to putting its entry on the list changes nothing another sleeper can see.
  ghost predicate JustInserted(st: State, k: nat, st': State)
    requires k < |st.sels|
  {
    && |st'.sels| == |st.sels| && st'.socks == st.socks && st'.walkers == st.walkers
    && st'.sels[k].pc == Registering(0) && st'.sels[k].req == READ0 && !st'.sels[k].signalled && st'.sels[k].sem == 0
    && forall t: Tid | t < |st.sels| && t != k ::
         && st'.sels[t].pc == st.sels[t].pc && st'.sels[t].req == st.sels[t].req
         && st'.sels[t].signalled == st.sels[t].signalled && st'.sels[t].sem == st.sels[t].sem
  }

  lemma ParkInsert(st0: State, st: State, k: nat) returns (st': State)
    requires Reaches(st0, st) && Parked(st, k) && k < |st.sels|
    ensures Reaches(st0, st') && JustInserted(st, k, st')
  {
    var s1 := Apply(st, Start(k, READ0));
    ReachesStep(st0, st, Start(k, READ0));
    var s2 := Apply(s1, ScanNext(k));
    ReachesStep(st0, s1, ScanNext(k));
    var s3 := Apply(s2, ScanNext(k));
    ReachesStep(st0, s2, ScanNext(k));
    st' := Apply(s3, Insert(k));
    ReachesStep(st0, s3, Insert(k));
  }

  lemma ParkedNext(st: State, k: nat, s4: State, st': State)
    requires Parked(st, k) && k < |st.sels| && JustInserted(st, k, s4)
    requires st'.walkers == s4.walkers && st'.sels == s4.sels[k := s4.sels[k].(pc := Waiting)]
    requires st'.socks == s4.socks[0 := s4.socks[0].(selectWaiting := (s4.socks[0].selectWaiting + 1) % 256)]
    ensures Parked(st', k + 1)
  {}

  // Registers socket 0, rescans it, and goes to sleep.
  lemma ParkSleep(st0: State, st: State, k: nat) returns (st': State)
    requires Reaches(st0, st) && k < |st.sels| && st.sels[k].pc == Registering(0) && st.sels[k].req == READ0
    requires 0 in st.socks && st.socks[0].rcvevent == 0 && !st.socks[0].lastdata
    ensures Reaches(st0, st') && st'.walkers == st.walkers
    ensures st'.sels == st.sels[k := st.sels[k].(pc := Waiting)]
    ensures st'.socks == st.socks[0 := st.socks[0].(selectWaiting := (st.socks[0].selectWaiting + 1) % 256)]
  {
    var s := ParkRegister(st0, st, k);
    st' := ParkRescan(st0, s, k);
  }

  lemma ParkRegister(st0: State, st: State, k: nat) returns (st': State)
    requires Reaches(st0, st) && k < |st.sels| && st.sels[k].pc == Registering(0) && st.sels[k].req == READ0
    requires 0 in st.socks
    ensures Reaches(st0, st')
    ensures var sock := st.socks[0].(selectWaiting := (st.socks[0].selectWaiting + 1) % 256);
      st' == SetPc(st.(socks := st.socks[0 := sock]), k, Scan(Rescan, 0, 0))
  {
    RegisterZero(st, k);
    var s := Apply(st, RegisterNext(k));
    ReachesStep(st0, st, RegisterNext(k));
    RegisterDone(s, k);
    st' := Apply(s, RegisterNext(k));
    ReachesStep(st0, s, RegisterNext(k));
  }

  lemma RegisterZero(st: State, k: nat)
    requires k < |st.sels| && st.sels[k].pc == Registering(0) && st.sels[k].req == READ0 && 0 in st.socks
    ensures var sock := st.socks[0].(selectWaiting := (st.socks[0].selectWaiting + 1) % 256);
      Apply(st, RegisterNext(k)) == SetPc(st.(socks := st.socks[0 := sock]), k, Registering(1))
  {}

  lemma RegisterDone(st: State, k: nat)
    requires k < |st.sels| && st.sels[k].pc == Registering(1) && st.sels[k].req == READ0
    ensures Apply(st, RegisterNext(k)) == SetPc(st, k, Scan(Rescan, 0, 0))
  {}

  lemma ParkRescan(st0: State, st: State, k: nat) returns (st': State)
    requires Reaches(st0, st) && k < |st.sels| && st.sels[k].pc == Scan(Rescan, 0, 0) && st.sels[k].req == READ0
    requires 0 in st.socks && st.socks[0].rcvevent == 0 && !st.socks[0].lastdata
    ensures Reaches(st0, st') && st' == SetPc(st, k, Waiting)
  {
    var s := Apply(st, ScanNext(k));
    ReachesStep(st0, st, ScanNext(k));
    assert s == SetPc(st, k, Scan(Rescan, 1, 0));
    st' := Apply(s, ScanNext(k));
    ReachesStep(st0, s, ScanNext(k));
  }

  lemma ParkOne(st0: State, st: State, k: nat) returns (st': State)
    requires Reaches(st0, st) && Parked(st, k) && k < |st.sels|
    ensures Reaches(st0, st') && |st'.sels| == |st.sels| && |st'.walkers| == |st.walkers| && Parked(st', k + 1)
  {
    var s4 := ParkInsert(st0, st, k);
    st' := ParkSleep(st0, s4, k);
    ParkedNext(st, k, s4, st');
  }

  lemma ReachesItself(st: State)
    ensures Reaches(st, st)
  {
    assert Exec(st, []) == st;
  }

  lemma InitParked(n: nat, m: nat, fds: set<Fd>, tcp: set<Fd>)
    requires 0 in fds
    ensures Parked(Init(n, m, fds, tcp), 0)
  {}

  // A reachable state of n selecting and m posting tasks in which the first k selecting ones are parked.
  ghost predicate ReachedParked(st: State, n: nat, m: nat, fds: set<Fd>, tcp: set<Fd>, k: nat) {
    Reaches(Init(n, m, fds, tcp), st) && Parked(st, k) && |st.sels| == n && |st.walkers| == m
  }

  lemma ParkNext(st: State, n: nat, m: nat, fds: set<Fd>, tcp: set<Fd>, k: nat) returns (st': State)
    requires ReachedParked(st, n, m, fds, tcp, k) && k < n
    ensures ReachedParked(st', n, m, fds, tcp, k + 1)
  {
    st' := ParkOne(Init(n, m, fds, tcp), st, k);
  }

  lemma ParkNone(n: nat, m: nat, fds: set<Fd>, tcp: set<Fd>) returns (st: State)
    requires 0 in fds
    ensures ReachedParked(st, n, m, fds, tcp, 0)
  {
    st := Init(n, m, fds, tcp);
    ReachesItself(st);
    InitParked(n, m, fds, tcp);
  }

  lemma {:induction false} ParkMany(n: nat, m: nat, fds: set<Fd>, tcp: set<Fd>, k: nat) returns (st: State)
    requires k <= n && 0 in fds
    ensures ReachedParked(st, n, m, fds, tcp, k)
  {
    if k == 0 {
      st := ParkNone(n, m, fds, tcp);
    } else {
      var before := ParkMany(n, m, fds, tcp, k - 1);
      st := ParkNext(before, n, m, fds, tcp, k - 1);
    }
  }

  lemma ParkedMissEvent(st: State)
    requires Parked(st, 256) && |st.walkers| > 0
    ensures !NoSleeperLeft(Apply(st, Post(0, 0, RcvPlus)))
  {
    var st' := Apply(st, Post(0, 0, RcvPlus));
    assert st' == st.(socks := st.socks[0 := st.socks[0].(rcvevent := 1)]);
    assert Wants(st'.sels[0].req, 0, st'.socks[0]) && !Enabled(st', WakeUp(0));
  }

  // With 256 tasks asleep on one socket select_waiting reads 0, and the next packet wakes none of them.
  lemma TooManySelectors(n: nat, m: nat, fds: set<Fd>, tcp: set<Fd>) returns (st: State)
    requires n >= 256 && m > 0 && 0 in fds
    ensures Reaches(Init(n, m, fds, tcp), st) && !NoSleeperLeft(st)
  {
    var st1 := ParkMany(n, m, fds, tcp, 256);
    st := Apply(st1, Post(0, 0, RcvPlus));
    ReachesStep(Init(n, m, fds, tcp), st1, Post(0, 0, RcvPlus));
    ParkedMissEvent(st1);
  }

  // No event is ever lost on a sleeper if and only if at most 255 tasks use select.
  lemma NoLostWakeupIffFewSelectors(n: nat, m: nat, fds: set<Fd>, tcp: set<Fd>)
    requires m > 0 && 0 in fds
    ensures (forall st :: Reaches(Init(n, m, fds, tcp), st) ==> NoSleeperLeft(st)) <==> n <= 255
  {
    if n <= 255 {
      forall st | Reaches(Init(n, m, fds, tcp), st) ensures NoSleeperLeft(st) {
        var run :| Exec(Init(n, m, fds, tcp), run) == st;
        var l := RunKeepsInv(n, m, fds, tcp, run);
        InvLeavesNoSleeper(st, l);
      }
    } else {
      var st := TooManySelectors(n, m, fds, tcp);
    }
  }
}
