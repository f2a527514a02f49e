/**
 The Wi-Fi people monitor's index (example/wifimonitor/wifimonitor.py): each station remembers how strongly each
 access point last heard it, and every access point keeps the stations it hears best.

 Python walks a dictionary in an order of its own; here the order is left open. The clock is a parameter.
 */
module WifiMgr {
  import opened Wrappers

  // ---------------------------------------------------------------- specification

  datatype Seen = Seen(rssi: int, at: real)

  type Rssis = map<string, Seen>

  const LIFETIME: real := 30.0
  const FLOOR: int := -1000

  // ap is where the station is heard best; no name when it is heard nowhere above the floor.
  predicate IsBest(rssis: Rssis, ap: string) {
    || (ap in rssis && rssis[ap].rssi >= FLOOR && forall k :: k in rssis ==> rssis[k].rssi <= rssis[ap].rssi)
    || (ap == "" && forall k :: k in rssis ==> rssis[k].rssi < FLOOR)
  }

  // What is younger than the lifetime.
  function Fresh(rssis: Rssis, now: real): Rssis {
    map k | k in rssis && now - rssis[k].at < LIFETIME :: rssis[k]
  }

  // What each station is heard with, after a report and after house keeping.
  function Reported(view: map<string, Rssis>, sta: string, ap: string, seen: Seen): map<string, Rssis> {
    view[sta := (if sta in view then view[sta] else map[])[ap := seen]]
  }

  function Kept(view: map<string, Rssis>, now: real): map<string, Rssis> {
    map s | s in view && Fresh(view[s], now) != map[] :: Fresh(view[s], now)
  }

  // The stations kept with each access point are exactly those whose best access point it is.
  ghost predicate Consistent(index: map<string, set<string>>, best: map<string, string>) {
    forall a, s :: a in index ==> (s in index[a] <==> s in best && best[s] == a)
  }

  // The stations of access point a once sta has moved.
  function Moved(stas: set<string>, a: string, sta: string, oldMax: string, newMax: string): set<string> {
    if oldMax == newMax then stas
    else if a == oldMax then stas - {sta}
    else if a == newMax then stas + {sta}
    else stas
  }

  function MovedAll(index: map<string, set<string>>, sta: string, oldMax: string, newMax: string)
    : map<string, set<string>>
  {
    map a | a in index :: Moved(index[a], a, sta, oldMax, newMax)
  }

  // A station has a reading, only from known access points, and its best one is up to date.
  ghost predicate Heard(rssis: Rssis, best: string, aps: set<string>) {
    rssis != map[] && rssis.Keys <= aps && IsBest(rssis, best)
  }

  ghost predicate AllHeard(view: map<string, Rssis>, best: map<string, string>, aps: set<string>) {
    best.Keys == view.Keys && forall s :: s in view ==> Heard(view[s], best[s], aps)
  }

  // All that the manager keeps in step.
  ghost predicate Sound(view: map<string, Rssis>, best: map<string, string>, index: map<string, set<string>>) {
    AllHeard(view, best, index.Keys) && Consistent(index, best)
  }

  lemma UpdateTwice<T>(m: map<string, T>, k: string, x: T, y: T)
    ensures m[k := x][k := y] == m[k := y]
  {}

  lemma ReportedInSteps(view: map<string, Rssis>, sta: string, ap: string, seen: Seen)
    ensures var view1 := if sta in view then view else view[sta := map[]];
      view1[sta := view1[sta][ap := seen]] == Reported(view, sta, ap, seen)
  {}

  lemma AddThenDrop<T>(m: map<string, T>, k: string, x: T)
    ensures m[k := x] - {k} == m - {k}
  {}

  lemma MovedInSteps(index: map<string, set<string>>, sta: string, oldMax: string, newMax: string)
    ensures oldMax == newMax ==> MovedAll(index, sta, oldMax, newMax) == index
    ensures oldMax != newMax ==>
      var less := if oldMax in index then index[oldMax := index[oldMax] - {sta}] else index;
      MovedAll(index, sta, oldMax, newMax) == if newMax in less then less[newMax := less[newMax] + {sta}] else less
  {}

  // The index once ap is known and sta has moved.
  function Reindexed(index: map<string, set<string>>, ap: string, sta: string, oldMax: string, newMax: string)
    : map<string, set<string>>
  {
    MovedAll(if ap in index then index else index[ap := {}], sta, oldMax, newMax)
  }

  function BestOf(best: map<string, string>, sta: string): string {
    if sta in best then best[sta] else ""
  }

  // Moving a station keeps the index consistent, unless the station is new, has no best access point, and an access
  // point is named "".
  lemma MoveIff(index: map<string, set<string>>, best: map<string, string>, sta: string, newMax: string)
    requires Consistent(index, best)
    ensures Consistent(MovedAll(index, sta, BestOf(best, sta), newMax), best[sta := newMax]) <==>
      sta in best || newMax != "" || "" !in index
  {
    var best' := best[sta := newMax];
    var index' := MovedAll(index, sta, BestOf(best, sta), newMax);
    if sta !in best && newMax == "" && "" in index {
      assert sta !in index'[""] && best'[sta] == "";
    } else {
      forall a, s | a in index' ensures s in index'[a] <==> s in best' && best'[s] == a {
        assert s in index[a] <==> s in best && best[s] == a;
      }
    }
  }

  // A station without readings leaves its access point, for the one named "" if there is one.
  lemma LeaveMove(index: map<string, set<string>>, best: map<string, string>, sta: string)
    requires Consistent(index, best) && sta in best
    ensures "" !in index ==> Consistent(MovedAll(index, sta, best[sta], ""), best - {sta})
    ensures "" in index ==> sta in MovedAll(index, sta, best[sta], "")[""]
  {}

  // No station that had no best access point has "" for it now.
  ghost predicate NoneNameless(before: map<string, string>, after: map<string, string>) {
    forall s :: s in after && after[s] == "" ==> BestOf(before, s) != ""
  }

  // With the access point "" new, it does exactly if every station that has it for its best moved there.
  lemma NamelessMove(index: map<string, set<string>>, best: map<string, string>, sta: string, newMax: string)
    requires Consistent(index, best) && "" !in index
    ensures Consistent(Reindexed(index, "", sta, BestOf(best, sta), newMax), best[sta := newMax]) <==>
      NoneNameless(best, best[sta := newMax])
  {
    var best' := best[sta := newMax];
    var index' := Reindexed(index, "", sta, BestOf(best, sta), newMax);
    assert index'[""] == if BestOf(best, sta) != "" && newMax == "" then {sta} else {};
    if Consistent(index', best') {
      forall s | s in best' && best'[s] == "" ensures BestOf(best, s) != "" { assert s in index'[""]; }
    } else {
      var a, s :| a in index' && !(s in index'[a] <==> s in best' && best'[s] == a);
      assert a == "";
      assert s in best' && best'[s] == "" && BestOf(best, s) == "";
    }
  }

  lemma ReportKeepsHeard(view: map<string, Rssis>, best: map<string, string>, aps: set<string>,
                         sta: string, ap: string, seen: Seen, newMax: string)
    requires AllHeard(view, best, aps) && IsBest(Reported(view, sta, ap, seen)[sta], newMax)
    ensures AllHeard(Reported(view, sta, ap, seen), best[sta := newMax], aps + {ap})
  {
    var view' := Reported(view, sta, ap, seen);
    assert view'[sta][ap] == seen;
    forall s | s in view' ensures Heard(view'[s], best[sta := newMax][s], aps + {ap}) {
      if s != sta { assert Heard(view[s], best[s], aps); }
      else if sta in view { assert Heard(view[sta], best[sta], aps); }
    }
  }

  // Whether a report keeps everything in step, from what is known before it. With an access point named "" a new
  // station must come with a reading above the floor from another one. Before that a report by "" must be of a known
  // station, and every station must have a best access point.
  ghost predicate Safe(best: map<string, string>, aps: set<string>, sta: string, ap: string, rssi: int) {
    if "" in aps then sta in best || (ap != "" && rssi >= FLOOR)
    else ap != "" || (sta in best && forall s :: s in best ==> best[s] != "")
  }

  // The new station's best access point is read off its only reading.
  lemma OnlyReading(ap: string, seen: Seen, newMax: string)
    requires IsBest(map[ap := seen], newMax)
    ensures newMax != "" <==> ap != "" && seen.rssi >= FLOOR
  {
    assert map[ap := seen][ap] == seen;
  }

  // A station without a best access point has none but "" after a report by "".
  lemma StillNameless(view: map<string, Rssis>, best: map<string, string>, aps: set<string>, sta: string, seen: Seen,
                      newMax: string)
    requires AllHeard(view, best, aps) && "" !in aps && BestOf(best, sta) == ""
    requires IsBest(Reported(view, sta, "", seen)[sta], newMax)
    ensures newMax == ""
  {
    if sta in view {
      assert Heard(view[sta], best[sta], aps);
      forall k | k in view[sta] ensures view[sta][k].rssi < FLOOR { assert k in aps; }
    }
  }

  // The index after a report that makes "" known.
  lemma FirstNameless(view: map<string, Rssis>, best: map<string, string>, index: map<string, set<string>>, sta: string,
                      seen: Seen, newMax: string)
    requires Sound(view, best, index) && "" !in index
    requires IsBest(Reported(view, sta, "", seen)[sta], newMax)
    ensures Consistent(Reindexed(index, "", sta, BestOf(best, sta), newMax), best[sta := newMax]) <==>
      sta in best && forall s :: s in best ==> best[s] != ""
  {
    NamelessMove(index, best, sta, newMax);
    var best' := best[sta := newMax];
    if BestOf(best, sta) == "" {
      StillNameless(view, best, index.Keys, sta, seen, newMax);
      assert best'[sta] == "" && !NoneNameless(best, best');
    } else {
      forall s | s in best && s != sta ensures best'[s] == best[s] {}
    }
  }

  // A report keeps everything in step exactly if it is safe.
  lemma ReportKeepsSound(view: map<string, Rssis>, best: map<string, string>, index: map<string, set<string>>,
                         sta: string, ap: string, seen: Seen, newMax: string)
    requires Sound(view, best, index)
    requires IsBest(Reported(view, sta, ap, seen)[sta], newMax)
    ensures var best' := best[sta := newMax];
      var index' := Reindexed(index, ap, sta, BestOf(best, sta), newMax);
      Sound(Reported(view, sta, ap, seen), best', index') <==> Safe(best, index.Keys, sta, ap, seen.rssi)
  {
    ReportKeepsHeard(view, best, index.Keys, sta, ap, seen, newMax);
    assert Reindexed(index, ap, sta, BestOf(best, sta), newMax).Keys == index.Keys + {ap};
    if ap == "" && "" !in index {
      FirstNameless(view, best, index, sta, seen, newMax);
    } else {
      if ap !in index {
        forall s | s in best ensures best[s] == "" || best[s] in index { assert Heard(view[s], best[s], index.Keys); }
        NoStationYet(index, best, ap);
      }
      MoveIff(if ap in index then index else index[ap := {}], best, sta, newMax);
      if sta !in view { OnlyReading(ap, seen, newMax); }
    }
  }

  lemma ReportOutcome(view: map<string, Rssis>, best: map<string, string>, index: map<string, set<string>>,
                      sta: string, ap: string, seen: Seen, best': map<string, string>)
    requires sta in best' && best' == best[sta := best'[sta]]
    requires IsBest(Reported(view, sta, ap, seen)[sta], best'[sta])
    ensures var index' := Reindexed(index, ap, sta, BestOf(best, sta), best'[sta]);
      && index'.Keys == index.Keys + {ap}
      && (Sound(view, best, index) ==>
            (Sound(Reported(view, sta, ap, seen), best', index') <==> Safe(best, index.Keys, sta, ap, seen.rssi)))
  {
    if Sound(view, best, index) { ReportKeepsSound(view, best, index, sta, ap, seen, best'[sta]); }
  }

  lemma NoStationYet(index: map<string, set<string>>, best: map<string, string>, ap: string)
    requires Consistent(index, best) && ap !in index && ap != ""
    requires forall s :: s in best ==> best[s] == "" || best[s] in index
    ensures Consistent(index[ap := {}], best)
  {}

  function Without<T>(m: map<string, T>, k: string, gone: bool): map<string, T> {
    if gone then m - {k} else m
  }

  // A station grown older.
  function Aged(view: map<string, Rssis>, sta: string, now: real): map<string, Rssis>
    requires sta in view
  {
    Without(view[sta := Fresh(view[sta], now)], sta, Fresh(view[sta], now) == map[])
  }

  function Rebest(best: map<string, string>, sta: string, gone: bool, newMax: string): map<string, string> {
    Without(best[sta := newMax], sta, gone)
  }

  lemma AgeKeepsHeard(view: map<string, Rssis>, best: map<string, string>, aps: set<string>, sta: string, now: real,
                      newMax: string)
    requires AllHeard(view, best, aps) && sta in view
    requires IsBest(Fresh(view[sta], now), newMax)
    ensures AllHeard(Aged(view, sta, now), Rebest(best, sta, Fresh(view[sta], now) == map[], newMax), aps)
    ensures Fresh(view[sta], now) == map[] ==> newMax == ""
  {}

  // A station that is no longer tracked is still kept with the access point "".
  ghost predicate Stale(view: map<string, Rssis>, index: map<string, set<string>>) {
    "" in index && !(index[""] <= view.Keys)
  }

  lemma StaleIsUnsound(view: map<string, Rssis>, best: map<string, string>, index: map<string, set<string>>)
    requires Stale(view, index)
    ensures !Sound(view, best, index)
  {
    var s :| s in index[""] && s !in view;
  }

  // In step while no station has gone or no access point is named ""; for good out of step otherwise.
  ghost predicate SoundSince(was: set<string>, view: map<string, Rssis>, best: map<string, string>,
                              index: map<string, set<string>>)
  {
    if "" !in index || view.Keys == was then Sound(view, best, index) else Stale(view, index)
  }

  lemma AgeSound(view: map<string, Rssis>, best: map<string, string>, index: map<string, set<string>>, sta: string,
                 now: real, newMax: string)
    requires Sound(view, best, index) && sta in view && IsBest(Fresh(view[sta], now), newMax)
    ensures var gone := Fresh(view[sta], now) == map[];
      var index' := MovedAll(index, sta, best[sta], newMax);
      if gone && "" in index then sta in index'[""]
      else Sound(Aged(view, sta, now), Rebest(best, sta, gone, newMax), index')
  {
    AgeKeepsHeard(view, best, index.Keys, sta, now, newMax);
    assert MovedAll(index, sta, best[sta], newMax).Keys == index.Keys;
    if Fresh(view[sta], now) == map[] {
      LeaveMove(index, best, sta);
      AddThenDrop(best, sta, newMax);
    } else {
      MoveIff(index, best, sta, newMax);
    }
  }

  lemma AgeStale(view: map<string, Rssis>, index: map<string, set<string>>, sta: string, now: real, oldMax: string,
                 newMax: string)
    requires Stale(view, index) && sta in view
    ensures Stale(Aged(view, sta, now), MovedAll(index, sta, oldMax, newMax))
  {
    var s :| s in index[""] && s !in view;
    assert s in MovedAll(index, sta, oldMax, newMax)[""] && s !in Aged(view, sta, now);
  }

  // One station of house keeping's walk.
  lemma AgeKeepsSound(was: set<string>, view: map<string, Rssis>, best: map<string, string>,
                       index: map<string, set<string>>, sta: string, now: real, newMax: string)
    requires SoundSince(was, view, best, index) && view.Keys <= was && sta in view && sta in best
    requires IsBest(view[sta], best[sta]) ==> IsBest(Fresh(view[sta], now), newMax)
    ensures SoundSince(was, Aged(view, sta, now), Rebest(best, sta, Fresh(view[sta], now) == map[], newMax),
                        MovedAll(index, sta, best[sta], newMax))
  {
    var view' := Aged(view, sta, now);
    if "" !in index || view.Keys == was {
      assert Heard(view[sta], best[sta], index.Keys);
      AgeSound(view, best, index, sta, now, newMax);
      if Fresh(view[sta], now) == map[] {
        assert sta !in view' && sta in was;
      } else {
        assert view'.Keys == view.Keys;
      }
    } else {
      AgeStale(view, index, sta, now, best[sta], newMax);
      assert view'.Keys <= view.Keys;
    }
  }

  // House keeping keeps everything in step exactly if no access point is named "" or no station goes.
  ghost predicate NoneGoes(view: map<string, Rssis>, now: real) {
    forall s :: s in view ==> Fresh(view[s], now) != map[]
  }

  lemma HouseKept(was: map<string, Rssis>, now: real, best: map<string, string>, index: map<string, set<string>>)
    requires SoundSince(was.Keys, Kept(was, now), best, index)
    ensures Sound(Kept(was, now), best, index) <==> "" !in index || NoneGoes(was, now)
  {
    var view := Kept(was, now);
    if NoneGoes(was, now) {
      assert view.Keys == was.Keys;
    } else {
      var s :| s in was && Fresh(was[s], now) == map[];
      assert s !in view;
      if "" in index { StaleIsUnsound(view, best, index); }
    }
  }

  // ---------------------------------------------------------------- how an access point "" breaks the index

  // The first report of all, of station "s" by an access point "", breaks it at once.
  lemma NamelessReport(seen: Seen)
    requires seen.rssi >= FLOOR
    ensures Sound(map[], map[], map[]) && IsBest(Reported(map[], "s", "", seen)["s"], "")
    ensures !Sound(Reported(map[], "s", "", seen), map["s" := ""], Reindexed(map[], "", "s", "", ""))
  {
    ReportKeepsSound(map[], map[], map[], "s", "", seen, "");
    var best: map<string, string> := map[];
    assert best["s" := ""] == map["s" := ""] && BestOf(best, "s") == "";
  }

  const AT_B: Rssis := map["B" := Seen(-50, 0.0)]
  const AT_BOTH: Rssis := map["B" := Seen(-50, 0.0), "" := Seen(-40, 0.0)]
  const NAMELESS: map<string, Rssis> := map["s" := AT_BOTH]
  const NAMELESS_INDEX: map<string, set<string>> := map["B" := {}, "" := {"s"}]

  // "s", heard by "B" at -50 and then by "" at -40, leaves everything in step.
  lemma NamelessState()
    ensures Reported(Reported(map[], "s", "B", Seen(-50, 0.0)), "s", "", Seen(-40, 0.0)) == NAMELESS
    ensures Reindexed(Reindexed(map[], "B", "s", "", "B"), "", "s", "B", "") == NAMELESS_INDEX
    ensures IsBest(AT_B, "B") && Sound(NAMELESS, map["s" := ""], NAMELESS_INDEX)
  {
    var first := Reindexed(map[], "B", "s", "", "B");
    assert first.Keys == {"B"} && first["B"] == {"s"};
    var second := Reindexed(first, "", "s", "B", "");
    assert second.Keys == {"B", ""} && second["B"] == {} && second[""] == {"s"};
    assert AT_B["" := Seen(-40, 0.0)] == AT_BOTH;
    assert AT_B["B"].rssi == -50 && AT_BOTH[""].rssi == -40 && AT_BOTH["B"].rssi == -50;
    assert Heard(AT_BOTH, "", NAMELESS_INDEX.Keys);
  }

  // 30 seconds later house keeping drops "s" and leaves it with the access point "".
  lemma NamelessExpiry()
    ensures Kept(NAMELESS, 30.0) == Aged(NAMELESS, "s", 30.0) == map[]
    ensures !Sound(map[], map[], MovedAll(NAMELESS_INDEX, "s", "", ""))
  {
    assert Fresh(AT_BOTH, 30.0) == map[];
    assert "s" in MovedAll(NAMELESS_INDEX, "s", "", "")[""];
  }

  // A new station that the named access point "B" hears at -1001 has "" for its best and is not kept with it.
  lemma NamelessFaintReport()
    ensures IsBest(Reported(NAMELESS, "t", "B", Seen(-1001, 1.0))["t"], "")
    ensures !Sound(Reported(NAMELESS, "t", "B", Seen(-1001, 1.0)), map["s" := "", "t" := ""],
                   Reindexed(NAMELESS_INDEX, "B", "t", "", ""))
  {
    assert "t" !in Reindexed(NAMELESS_INDEX, "B", "t", "", "")[""];
  }

  // The readings when all stations but those in todo have grown older.
  function KeptBut(view: map<string, Rssis>, todo: set<string>, now: real): map<string, Rssis> {
    map s | s in view && (s in todo || Fresh(view[s], now) != map[]) ::
      if s in todo then view[s] else Fresh(view[s], now)
  }

  lemma KeptStep(view: map<string, Rssis>, todo: set<string>, s: string, now: real)
    requires s in todo && s in view
    ensures Aged(KeptBut(view, todo, now), s, now) == KeptBut(view, todo - {s}, now)
  {}

  lemma KeptEnds(view: map<string, Rssis>, now: real)
    ensures KeptBut(view, view.Keys, now) == view && KeptBut(view, {}, now) == Kept(view, now)
  {}

  // ---------------------------------------------------------------- whole runs

  datatype Report = Report(sta: string, ap: string, rssi: int, at: real)

  // One turn of the manager's loop: a report, unless none came in time or the message was not one; then house keeping.
  datatype Turn = Turn(report: Option<Report>, now: real)

  function After(view: map<string, Rssis>, turn: Turn): map<string, Rssis> {
    var heard := match turn.report
      case Some(r) => Reported(view, r.sta, r.ap, Seen(r.rssi, r.at))
      case None => view;
    Kept(heard, turn.now)
  }

  function AfterAll(view: map<string, Rssis>, turns: seq<Turn>): map<string, Rssis> {
    if turns == [] then view
    else After(AfterAll(view, turns[..|turns| - 1]), turns[|turns| - 1])
  }

  function Reading(view: map<string, Rssis>, sta: string, ap: string): Option<Seen> {
    if sta in view && ap in view[sta] then Some(view[sta][ap]) else None
  }

  // The latest report of the station by the access point.
  function Latest(turns: seq<Turn>, sta: string, ap: string): Option<Seen> {
    if turns == [] then None
    else
      match turns[|turns| - 1].report
      case Some(r) =>
        if r.sta == sta && r.ap == ap then Some(Seen(r.rssi, r.at)) else Latest(turns[..|turns| - 1], sta, ap)
      case None => Latest(turns[..|turns| - 1], sta, ap)
  }

  function Young(seen: Option<Seen>, now: real): Option<Seen> {
    if seen.Some? && now - seen.value.at < LIFETIME then seen else None
  }

  // The clock does not run backwards.
  predicate Timely(turns: seq<Turn>) {
    forall i :: 0 < i < |turns| ==> turns[i - 1].now <= turns[i].now
  }

  lemma OneTurn(view: map<string, Rssis>, turn: Turn, sta: string, ap: string)
    ensures Reading(After(view, turn), sta, ap) ==
      match turn.report
      case Some(r) =>
        Young(if r.sta == sta && r.ap == ap then Some(Seen(r.rssi, r.at)) else Reading(view, sta, ap), turn.now)
      case None => Young(Reading(view, sta, ap), turn.now)
  {
    var heard: map<string, Rssis> := match turn.report
      case Some(r) => Reported(view, r.sta, r.ap, Seen(r.rssi, r.at))
      case None => view;
    if sta in heard && ap in heard[sta] && turn.now - heard[sta][ap].at < LIFETIME {
      assert ap in Fresh(heard[sta], turn.now);
    }
  }

  // After any run, what is kept of a station and an access point is their latest report if that is younger than the
  // lifetime, and nothing otherwise.
  lemma {:induction false} KeptIsLatest(turns: seq<Turn>, sta: string, ap: string)
    requires turns != [] && Timely(turns)
    ensures Reading(AfterAll(map[], turns), sta, ap) ==
      Young(Latest(turns, sta, ap), turns[|turns| - 1].now)
  {
    var n := |turns| - 1;
    var before := turns[..n];
    OneTurn(AfterAll(map[], before), turns[n], sta, ap);
    if before != [] {
      KeptIsLatest(before, sta, ap);
      assert turns[n - 1].now <= turns[n].now;
    }
  }

  // How many stations a list of access points has in all.
  function Total(index: map<string, set<string>>, order: seq<string>): nat
    requires forall a :: a in order ==> a in index
  {
    if order == [] then 0 else Total(index, order[..|order| - 1]) + |index[order[|order| - 1]]|
  }

  function Sum(counts: seq<nat>): nat {
    if counts == [] then 0 else Sum(counts[..|counts| - 1]) + counts[|counts| - 1]
  }

  // The counts are those of these access points, one each.
  ghost predicate CountsOf(counts: seq<nat>, index: map<string, set<string>>, order: seq<string>) {
    && |counts| == |order|
    && forall i :: 0 <= i < |order| ==> order[i] in index && counts[i] == |index[order[i]]|
  }

  lemma {:induction false} CountsSum(counts: seq<nat>, index: map<string, set<string>>, order: seq<string>)
    requires CountsOf(counts, index, order)
    ensures (forall a :: a in order ==> a in index) && Sum(counts) == Total(index, order)
  {
    if order != [] {
      CountsSum(counts[..|order| - 1], index, order[..|order| - 1]);
    }
  }

  function HeardBy(best: map<string, string>, order: seq<string>): set<string> {
    set s | s in best && best[s] in order
  }

  // The numbers of stations shown for different access points add up to the stations best heard by one of them.
  lemma {:induction false} CountsAddUp(index: map<string, set<string>>, best: map<string, string>, order: seq<string>)
    requires Consistent(index, best) && forall a :: a in order ==> a in index
    requires forall i, j :: 0 <= i < j < |order| ==> order[i] != order[j]
    ensures Total(index, order) == |HeardBy(best, order)|
  {
    if order != [] {
      var n := |order| - 1;
      var rest := order[..n];
      CountsAddUp(index, best, rest);
      forall s ensures s in index[order[n]] <==> s in best && best[s] == order[n] {}
      assert order == rest + [order[n]];
      assert HeardBy(best, order) == HeardBy(best, rest) + index[order[n]];
      assert HeardBy(best, rest) !! index[order[n]];
    }
  }

  predicate Loud(rssis: Rssis) {
    forall a :: a in rssis ==> rssis[a].rssi >= FLOOR
  }

  // If none is reported, no reading below the floor is ever kept.
  lemma {:induction false} LoudRuns(turns: seq<Turn>)
    requires forall i :: 0 <= i < |turns| && turns[i].report.Some? ==> turns[i].report.value.rssi >= FLOOR
    ensures forall s :: s in AfterAll(map[], turns) ==> Loud(AfterAll(map[], turns)[s])
  {
    if turns != [] { LoudRuns(turns[..|turns| - 1]); }
  }

  // The sequence lists the access points, each once.
  ghost predicate Lists(order: seq<string>, aps: set<string>) {
    && (forall a :: a in aps <==> a in order)
    && (forall i, j :: 0 <= i < j < |order| ==> order[i] != order[j])
  }

  // The access points outside todo are counted.
  ghost predicate Counted(counts: seq<nat>, index: map<string, set<string>>, order: seq<string>, todo: set<string>) {
    Lists(order, index.Keys - todo) && CountsOf(counts, index, order)
  }

  lemma CountOneMore(counts: seq<nat>, index: map<string, set<string>>, order: seq<string>, todo: set<string>,
                     a: string)
    requires Counted(counts, index, order, todo) && a in index && a in todo
    ensures Counted(counts + [|index[a]|], index, order + [a], todo - {a})
  {}

  // Over all access points that is every tracked station, if each has a reading above the floor.
  lemma EveryStationCounted(view: map<string, Rssis>, best: map<string, string>, index: map<string, set<string>>,
                            order: seq<string>)
    requires Sound(view, best, index)
    requires Lists(order, index.Keys)
    requires forall s :: s in view ==> Loud(view[s])
    ensures Total(index, order) == |view|
  {
    CountsAddUp(index, best, order);
    EveryoneHeard(view, best, index.Keys, order);
    assert |best.Keys| == |view.Keys| == |view|;
  }

  lemma EveryoneHeard(view: map<string, Rssis>, best: map<string, string>, aps: set<string>, order: seq<string>)
    requires AllHeard(view, best, aps)
    requires forall a :: a in aps <==> a in order
    requires forall s :: s in view ==> Loud(view[s])
    ensures HeardBy(best, order) == best.Keys
  {}

  // ---------------------------------------------------------------- stations and access points

  class Sta {
    const mac: string
    var rssis: Rssis
    var maxRssi: int
    var maxAp: string
    var lastUpdated: real

    constructor (mac: string, now: real)
      ensures this.mac == mac && rssis == map[] && maxAp == ""
    {
      this.mac, rssis, maxRssi, maxAp, lastUpdated := mac, map[], -500, "", now;
    }

    method UpdateMax()
      modifies this`maxRssi, this`maxAp
      ensures IsBest(rssis, maxAp)
      ensures maxAp in rssis && rssis[maxAp].rssi >= FLOOR ==> maxRssi == rssis[maxAp].rssi
    {
      maxRssi, maxAp := FLOOR, "";
      var todo := rssis.Keys;
      while todo != {}
        invariant todo <= rssis.Keys
        invariant forall k :: k in rssis && k !in todo ==> rssis[k].rssi <= maxRssi
        invariant
          || (maxAp in rssis && rssis[maxAp].rssi == maxRssi >= FLOOR)
          || (maxAp == "" && maxRssi == FLOOR && forall k :: k in rssis && k !in todo ==> rssis[k].rssi < FLOOR)
        decreases |todo|
      {
        var mac :| mac in todo;
        todo := todo - {mac};
        if rssis[mac].rssi < maxRssi { continue; }
        maxRssi := rssis[mac].rssi;
        maxAp := mac;
      }
    }

    method UpdateRssi(ap: string, rssi: int, now: real)
      modifies this
      ensures rssis == old(rssis)[ap := Seen(rssi, now)] && lastUpdated == now
      ensures IsBest(rssis, maxAp)
    {
      rssis := rssis[ap := Seen(rssi, now)];
      UpdateMax();
      lastUpdated := now;
    }

    // Old readings go; says whether none is left.
    method Expired(now: real) returns (gone: bool)
      modifies this`rssis, this`maxRssi, this`maxAp
      ensures rssis == Fresh(old(rssis), now)
      ensures old(IsBest(rssis, maxAp)) ==> IsBest(rssis, maxAp)
      ensures gone <==> rssis == map[]
    {
      var shouldUpdate := false;
      var items := rssis;
      var todo := items.Keys;
      while todo != {}
        invariant todo <= items.Keys
        invariant rssis == map k | k in items && (k in todo || now - items[k].at < LIFETIME) :: items[k]
        invariant !shouldUpdate ==> rssis == items
        invariant maxAp == old(maxAp) && maxRssi == old(maxRssi)
        decreases |todo|
      {
        var mac :| mac in todo;
        todo := todo - {mac};
        var delta := now - items[mac].at;
        if delta < LIFETIME { continue; }
        rssis := rssis - {mac};
        shouldUpdate := true;
      }
      if shouldUpdate { UpdateMax(); }
      gone := |rssis| <= 0;
    }
  }

  class Ap {
    const mac: string
    var stas: map<string, string>

    constructor (mac: string)
      ensures this.mac == mac && stas == map[]
    {
      this.mac, stas := mac, map[];
    }

    method AddSta(sta: string)
      modifies this`stas
      ensures stas.Keys == old(stas.Keys) + {sta}
    {
      stas := stas[sta := sta];
    }

    method DelSta(sta: string)
      modifies this`stas
      ensures stas.Keys == old(stas.Keys) - {sta}
    {
      if sta in stas { stas := stas - {sta}; }
    }

    method GetStaNum() returns (n: nat)
      ensures n == |stas.Keys|
    {
      n := |stas|;
    }
  }

  // ---------------------------------------------------------------- the manager

  class Mgr {
    var aps: map<string, Ap>
    var stas: map<string, Sta>

    // The readings of each station, its best access point, and the stations kept with each access point.
    ghost var view: map<string, Rssis>
    ghost var best: map<string, string>
    ghost var index: map<string, set<string>>

    // The objects in the two dictionaries.
    ghost var apObjs: set<Ap>
    ghost var staObjs: set<Sta>

    ghost predicate ApAt(a: string)
      requires a in aps && a in index
      reads this`aps, this`index, aps[a]
    {
      aps[a].mac == a && aps[a].stas.Keys == index[a]
    }

    ghost predicate StaAt(s: string)
      requires s in stas && s in view && s in best
      reads this`stas, this`view, this`best, stas[s]
    {
      && stas[s].mac == s
      && stas[s].rssis == view[s]
      && stas[s].maxAp == best[s]
    }

    ghost predicate ApsValid()
      reads this`aps, this`index, this`apObjs, apObjs
    {
      aps.Keys == index.Keys && forall a :: a in aps ==> aps[a] in apObjs && ApAt(a)
    }

    ghost predicate StasValid()
      reads this`stas, this`view, this`best, this`staObjs, staObjs
    {
      stas.Keys == view.Keys == best.Keys && forall s :: s in stas ==> stas[s] in staObjs && StaAt(s)
    }

    ghost predicate Valid()
      reads this, apObjs, staObjs
    {
      ApsValid() && StasValid()
    }

    ghost predicate InStep()
      reads this
    {
      Sound(view, best, index)
    }

    ghost predicate InStepSince(was: set<string>)
      reads this
    {
      SoundSince(was, view, best, index)
    }

    constructor ()
      ensures Valid() && apObjs == {} && staObjs == {}
      ensures view == map[] && index == map[] && best == map[]
    {
      aps, stas := map[], map[];
      view, best, index, apObjs, staObjs := map[], map[], map[], {}, {};
    }

    method DelFrom(mac: string, sta: string)
      requires ApsValid()
      modifies this`index, apObjs
      ensures ApsValid()
      ensures index == if mac in old(index) then old(index)[mac := old(index)[mac] - {sta}] else old(index)
    {
      if mac in aps {
        var ap := aps[mac];
        ap.DelSta(sta);
        index := index[mac := index[mac] - {sta}];
        forall a | a in aps ensures aps[a] in apObjs && ApAt(a) { assert old(ApAt(a)); }
      }
    }

    method AddTo(mac: string, sta: string)
      requires ApsValid()
      modifies this`index, apObjs
      ensures ApsValid()
      ensures index == if mac in old(index) then old(index)[mac := old(index)[mac] + {sta}] else old(index)
    {
      if mac in aps {
        var ap := aps[mac];
        ap.AddSta(sta);
        index := index[mac := index[mac] + {sta}];
        forall a | a in aps ensures aps[a] in apObjs && ApAt(a) { assert old(ApAt(a)); }
      }
    }

    method MaxChanged(sta: string, oldMax: string, newMax: string)
      requires Valid()
      modifies this`index, apObjs
      ensures Valid() && index == MovedAll(old(index), sta, oldMax, newMax)
    {
      MovedInSteps(index, sta, oldMax, newMax);
      if oldMax == newMax { return; }
      DelFrom(oldMax, sta);
      AddTo(newMax, sta);
    }

    method AddAp(mac: string)
      requires ApsValid()
      modifies this`aps, this`index, this`apObjs
      ensures ApsValid()
      ensures fresh(apObjs - old(apObjs))
      ensures index == if mac in old(index) then old(index) else old(index)[mac := {}]
    {
      if mac in aps { return; }
      var ap := new Ap(mac);
      aps := aps[mac := ap];
      index, apObjs := index[mac := {}], apObjs + {ap};
      forall a | a in aps ensures ApAt(a) { assert a != mac ==> old(ApAt(a)); }
    }

    method NewSta(sta: string, now: real) returns (station: Sta)
      requires StasValid() && sta !in stas
      modifies this`stas, this`view, this`best, this`staObjs
      ensures StasValid()
      ensures fresh(staObjs - old(staObjs))
      ensures sta in stas && stas[sta] == station && station.mac == sta
      ensures view == old(view)[sta := map[]] && best == old(best)[sta := ""]
    {
      station := new Sta(sta, now);
      stas := stas[sta := station];
      view, best, staObjs := view[sta := map[]], best[sta := ""], staObjs + {station};
      forall s | s in stas ensures stas[s] in staObjs && StaAt(s) { assert s != sta ==> old(StaAt(s)); }
    }

    // The station, tracked from now on.
    method Track(sta: string, now: real) returns (station: Sta)
      requires Valid()
      modifies this`stas, this`view, this`best, this`staObjs
      ensures Valid()
      ensures fresh(staObjs - old(staObjs))
      ensures sta in stas && stas[sta] == station && station.mac == sta
      ensures view == if sta in old(view) then old(view) else old(view)[sta := map[]]
      ensures best == if sta in old(best) then old(best) else old(best)[sta := ""]
    {
      if sta in stas {
        station := stas[sta];
        assert StaAt(sta);
      } else {
        station := NewSta(sta, now);
      }
    }

    // A tracked station was heard.
    method Update(station: Sta, ap: string, rssi: int, now: real)
      requires Valid() && station.mac in stas && stas[station.mac] == station
      modifies this`view, this`best, station
      ensures Valid()
      ensures view == old(view)[station.mac := old(view)[station.mac][ap := Seen(rssi, now)]]
      ensures best == old(best)[station.mac := station.maxAp]
      ensures IsBest(view[station.mac], best[station.mac])
    {
      assert StaAt(station.mac);
      station.UpdateRssi(ap, rssi, now);
      view := view[station.mac := station.rssis];
      best := best[station.mac := station.maxAp];
      forall s | s in stas ensures stas[s] in staObjs && StaAt(s) { assert old(StaAt(s)); }
    }

    // The station's reading and its new best access point, with the change told to the access points.
    method Hear(station: Sta, ap: string, rssi: int, now: real)
      requires Valid() && station.mac in stas && stas[station.mac] == station
      modifies this`view, this`best, this`index, apObjs, station
      ensures Valid()
      ensures view == old(view)[station.mac := old(view)[station.mac][ap := Seen(rssi, now)]]
      ensures station.mac in best && best == old(best)[station.mac := best[station.mac]]
      ensures IsBest(view[station.mac], best[station.mac])
      ensures index == MovedAll(old(index), station.mac, old(best)[station.mac], best[station.mac])
    {
      assert StaAt(station.mac);
      var oldMax := station.maxAp;
      Update(station, ap, rssi, now);
      var newMax := station.maxAp;
      MaxChanged(station.mac, oldMax, newMax);
    }

    // The station and the access point, known from now on.
    method Meet(sta: string, ap: string, now: real) returns (station: Sta)
      requires Valid()
      modifies this
      ensures Valid()
      ensures fresh(apObjs - old(apObjs)) && fresh(staObjs - old(staObjs))
      ensures sta in stas && stas[sta] == station && station.mac == sta
      ensures view == if sta in old(view) then old(view) else old(view)[sta := map[]]
      ensures best == if sta in old(best) then old(best) else old(best)[sta := ""]
      ensures index == if ap in old(index) then old(index) else old(index)[ap := {}]
    {
      station := Track(sta, now);
      AddAp(ap);
    }

    method Enter(sta: string, ap: string, rssi: int, now: real)
      requires Valid()
      modifies this, apObjs, staObjs
      ensures Valid()
      ensures fresh(apObjs - old(apObjs)) && fresh(staObjs - old(staObjs))
      ensures sta in best && IsBest(view[sta], best[sta])
      ensures view == Reported(old(view), sta, ap, Seen(rssi, now))
      ensures best == old(best)[sta := best[sta]]
      ensures index == Reindexed(old(index), ap, sta, BestOf(old(best), sta), best[sta])
    {
      var station := Meet(sta, ap, now);
      Hear(station, ap, rssi, now);
      ReportedInSteps(old(view), sta, ap, Seen(rssi, now));
      UpdateTwice(old(best), sta, "", best[sta]);
    }

    // An access point heard a station. Everything stays in step exactly if the report is safe.
    method ReportRssi(sta: string, ap: string, rssi: int, now: real)
      requires Valid()
      modifies this, apObjs, staObjs
      ensures Valid() && fresh(apObjs - old(apObjs)) && fresh(staObjs - old(staObjs))
      ensures view == Reported(old(view), sta, ap, Seen(rssi, now))
      ensures index.Keys == old(index.Keys) + {ap}
      ensures old(InStep()) ==> (InStep() <==> Safe(old(best), old(index.Keys), sta, ap, rssi))
    {
      ghost var view0, best0, index0 := view, best, index;
      Enter(sta, ap, rssi, now);
      ReportOutcome(view0, best0, index0, sta, ap, Seen(rssi, now), best);
    }

    method Wither(station: Sta, now: real) returns (gone: bool)
      requires Valid() && station.mac in stas && stas[station.mac] == station
      modifies this`view, this`best, station
      ensures Valid()
      ensures view == old(view)[station.mac := Fresh(old(view)[station.mac], now)]
      ensures best == old(best)[station.mac := station.maxAp]
      ensures old(IsBest(view[station.mac], best[station.mac])) ==> IsBest(view[station.mac], station.maxAp)
      ensures gone <==> view[station.mac] == map[]
    {
      assert StaAt(station.mac);
      gone := station.Expired(now);
      view := view[station.mac := station.rssis];
      best := best[station.mac := station.maxAp];
      forall s | s in stas ensures stas[s] in staObjs && StaAt(s) { assert old(StaAt(s)); }
    }

    method Forget(sta: string, gone: bool)
      requires Valid()
      modifies this`stas, this`view, this`best
      ensures Valid()
      ensures stas == Without(old(stas), sta, gone)
      ensures view == Without(old(view), sta, gone)
      ensures best == Without(old(best), sta, gone)
    {
      if !gone { return; }
      stas := stas - {sta};
      view, best := view - {sta}, best - {sta};
      forall s | s in stas ensures stas[s] in staObjs && StaAt(s) { assert old(StaAt(s)); }
    }

    // The station drops its old readings and the access points are told of its new best one.
    method Reselect(station: Sta, now: real) returns (gone: bool)
      requires Valid() && station.mac in stas && stas[station.mac] == station
      modifies this`view, this`best, this`index, apObjs, station
      ensures Valid()
      ensures view == old(view)[station.mac := Fresh(old(view)[station.mac], now)]
      ensures station.mac in best && best == old(best)[station.mac := best[station.mac]]
      ensures old(IsBest(view[station.mac], best[station.mac])) ==> IsBest(view[station.mac], best[station.mac])
      ensures gone <==> view[station.mac] == map[]
      ensures index == MovedAll(old(index), station.mac, old(best)[station.mac], best[station.mac])
    {
      assert StaAt(station.mac);
      var oldMax := station.maxAp;
      gone := Wither(station, now);
      var newMax := station.maxAp;
      MaxChanged(station.mac, oldMax, newMax);
    }

    // One station of house_keeping's walk.
    method Age(station: Sta, now: real) returns (gone: bool, ghost newMax: string)
      requires Valid() && station.mac in stas && stas[station.mac] == station
      modifies this`stas, this`view, this`best, this`index, apObjs, station
      ensures Valid() && view == Aged(old(view), station.mac, now)
      ensures old(IsBest(view[station.mac], best[station.mac])) ==> IsBest(Fresh(old(view)[station.mac], now), newMax)
      ensures gone <==> Fresh(old(view)[station.mac], now) == map[]
      ensures best == Rebest(old(best), station.mac, gone, newMax)
      ensures index == MovedAll(old(index), station.mac, old(best)[station.mac], newMax)
      ensures stas == Without(old(stas), station.mac, gone)
    {
      gone := Reselect(station, now);
      newMax := best[station.mac];
      Forget(station.mac, gone);
    }

    // How far house keeping has come: the stations in todo are as they were and the others have grown older.
    ghost predicate Walking(items: map<string, Sta>, todo: set<string>, was: map<string, Rssis>, now: real)
      reads this, apObjs, staObjs
    {
      && Valid() && todo <= items.Keys
      && (forall s :: s in todo ==> s in stas && stas[s] == items[s])
      && view == KeptBut(was, todo, now)
    }

    method AgeInStep(station: Sta, now: real, ghost was: set<string>) returns (gone: bool)
      requires Valid() && station.mac in stas && stas[station.mac] == station && view.Keys <= was
      modifies this`stas, this`view, this`best, this`index, apObjs, station
      ensures Valid() && view == Aged(old(view), station.mac, now) && index.Keys == old(index.Keys)
      ensures stas == Without(old(stas), station.mac, gone)
      ensures old(InStepSince(was)) ==> InStepSince(was)
    {
      ghost var view0, best0, index0 := view, best, index;
      ghost var newMax;
      gone, newMax := Age(station, now);
      if SoundSince(was, view0, best0, index0) {
        AgeKeepsSound(was, view0, best0, index0, station.mac, now, newMax);
      }
    }

    // The walk's next station.
    method Visit(items: map<string, Sta>, mac: string, ghost todo: set<string>, ghost was: map<string, Rssis>,
                 now: real)
      requires Walking(items, todo, was, now) && mac in todo
      modifies this`stas, this`view, this`best, this`index, apObjs, staObjs
      ensures Walking(items, todo - {mac}, was, now) && index.Keys == old(index.Keys)
      ensures old(InStepSince(was.Keys)) ==> InStepSince(was.Keys)
    {
      assert StaAt(mac);
      KeptStep(was, todo, mac, now);
      var gone := AgeInStep(items[mac], now, was.Keys);
    }

    // The whole walk.
    method VisitAll(now: real)
      requires Valid()
      modifies this`stas, this`view, this`best, this`index, apObjs, staObjs
      ensures Valid() && view == Kept(old(view), now) && index.Keys == old(index.Keys)
      ensures old(InStepSince(view.Keys)) ==> InStepSince(old(view.Keys))
    {
      ghost var was, aps0, sound := view, index.Keys, InStepSince(view.Keys);
      var items := stas;
      var todo := items.Keys;
      KeptEnds(view, now);
      while todo != {}
        invariant Walking(items, todo, was, now) && index.Keys == aps0
        invariant sound ==> InStepSince(was.Keys)
        decreases todo
      {
        var mac :| mac in todo;
        Visit(items, mac, todo, was, now);
        todo := todo - {mac};
      }
    }

    // Old readings and stations without any are dropped. Everything stays in step exactly if no access point is named
    // "" or no station is dropped.
    method HouseKeeping(now: real)
      requires Valid()
      modifies this`stas, this`view, this`best, this`index, apObjs, staObjs
      ensures Valid() && view == Kept(old(view), now) && index.Keys == old(index.Keys)
      ensures old(InStep()) ==> (InStep() <==> "" !in index || NoneGoes(old(view), now))
    {
      VisitAll(now);
      if SoundSince(old(view).Keys, view, best, index) { HouseKept(old(view), now, best, index); }
    }

    method CountAt(mac: string) returns (n: nat)
      requires ApsValid() && mac in aps
      ensures n == |index[mac]|
    {
      assert ApAt(mac);
      n := aps[mac].GetStaNum();
    }

    // OnTimer's walk over the access points: the number that is drawn for each.
    method StaNums() returns (counts: seq<nat>, ghost order: seq<string>)
      requires ApsValid()
      ensures Counted(counts, index, order, {})
    {
      counts, order := [], [];
      var todo := aps.Keys;
      while todo != {}
        invariant todo <= aps.Keys
        invariant Counted(counts, index, order, todo)
        decreases |todo|
      {
        var mac :| mac in todo;
        var n := CountAt(mac);
        CountOneMore(counts, index, order, todo, mac);
        counts, order, todo := counts + [n], order + [mac], todo - {mac};
      }
    }

    // One turn of run().
    method Serve(turn: Turn)
      requires Valid() && InStep() && "" !in index
      requires turn.report.Some? ==> turn.report.value.ap != ""
      modifies this, apObjs, staObjs
      ensures Valid() && fresh(apObjs - old(apObjs)) && fresh(staObjs - old(staObjs))
      ensures InStep() && "" !in index && view == After(old(view), turn)
    {
      if turn.report.Some? {
        var r := turn.report.value;
        ReportRssi(r.sta, r.ap, r.rssi, r.at);
      }
      HouseKeeping(turn.now);
    }

    // Any number of turns keep everything in step.
    method Run(turns: seq<Turn>)
      requires Valid() && InStep() && "" !in index
      requires forall i :: 0 <= i < |turns| && turns[i].report.Some? ==> turns[i].report.value.ap != ""
      modifies this, apObjs, staObjs
      ensures Valid() && InStep() && "" !in index && view == AfterAll(old(view), turns)
    {
      for i := 0 to |turns|
        invariant Valid() && InStep() && "" !in index && view == AfterAll(old(view), turns[..i])
        invariant fresh(apObjs - old(apObjs)) && fresh(staObjs - old(staObjs))
      {
        Serve(turns[i]);
        assert turns[..i + 1][..i] == turns[..i];
      }
      assert turns[..|turns|] == turns;
    }
  }

  // A run from scratch with reports by named access points, none below the floor: the readings are those of the run,
  // and the counts that are then drawn for the access points add up to the stations tracked.
  method CountedRun(turns: seq<Turn>) returns (m: Mgr, counts: seq<nat>)
    requires forall i :: 0 <= i < |turns| && turns[i].report.Some? ==>
      turns[i].report.value.ap != "" && turns[i].report.value.rssi >= FLOOR
    ensures m.Valid() && m.InStep() && m.view == AfterAll(map[], turns)
    ensures exists order :: Counted(counts, m.index, order, {})
    ensures Sum(counts) == |m.view|
  {
    m := new Mgr();
    m.Run(turns);
    LoudRuns(turns);
    ghost var order;
    counts, order := m.StaNums();
    CountsSum(counts, m.index, order);
    assert m.index.Keys - {} == m.index.Keys;
    EveryStationCounted(m.view, m.best, m.index, order);
  }
}
