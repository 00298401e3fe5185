/** The pure part of the EDSM provider (providers/EDSM.py): converting the
    daily dump of populated systems into Systems, and cutting the list down
    to a faction's empire and its neighbourhood. The dump is an input value. */
module Edsm {
  import opened Wrappers
  import opened Seqs
  import opened DataClasses

  /** The source tag of systems built from the dump. */
  const EdsmSource := "EDSM"

  /** A faction record. An absent `activeStates`/`pendingStates` key reads as
      an empty list; `recovering` is None when the key is absent. */
  datatype RawFaction = RawFaction(
    name: string, influence: real, happiness: string,
    active: seq<string>, pending: seq<string>, recovering: Option<seq<string>>)

  /** A station record; `controllingFaction` is None when the key is absent. */
  datatype RawStation = RawStation(kind: string, name: string, controllingFaction: Option<string>)

  /** A system record. An absent `factions`/`stations` key reads as an empty list. */
  datatype RawSystem = RawSystem(
    name: string, x: real, y: real, z: real, population: int, controlling: string,
    factions: seq<RawFaction>, stations: seq<RawStation>)

  // ------------------------------------------------------------- conversion

  /** States of one phase, names as recorded (no case change), in order. */
  function StatesOf(names: seq<string>, phase: Phase, lk: Lookups): (r: seq<State>)
    ensures |r| == |names|
    ensures forall i :: 0 <= i < |names| ==> r[i] == FreshState(names[i], phase, lk.isConflict)
  {
    if names == [] then [] else [FreshState(names[0], phase, lk.isConflict)] + StatesOf(names[1..], phase, lk)
  }

  /** The presence a faction record describes: active, then pending, then
      recovering states. Iterating a missing recovering list is a fault. */
  function PresenceOf(rf: RawFaction, lk: Lookups): (r: Result<Presence>)
    ensures r.Err? <==> rf.recovering.None?
    ensures r.Err? ==> r.fault == MissingRecoveringStates(rf.name)
    ensures r.Ok? ==> (r.value.name == rf.name && r.value.influence == Centi(rf.influence)
      && r.value.happiness == rf.happiness && r.value.isPlayer == lk.isPlayer(rf.name)
      && r.value.source == lk.presenceSource
      && |r.value.states| == |rf.active| + |rf.pending| + |rf.recovering.value|)
  {
    match rf.recovering
    case None => Err(MissingRecoveringStates(rf.name))
    case Some(rec) =>
      Ok(Presence(rf.name, Centi(rf.influence), rf.happiness, lk.isPlayer(rf.name), false,
        StatesOf(rf.active, Active, lk) + StatesOf(rf.pending, Pending, lk) + StatesOf(rec, Recovering, lk),
        lk.presenceSource))
  }

  /** States come active first, then pending, then recovering, in record order. */
  lemma PresenceStatesInOrder(rf: RawFaction, lk: Lookups, i: nat)
    requires PresenceOf(rf, lk).Ok? && i < |PresenceOf(rf, lk).value.states|
    ensures var st := PresenceOf(rf, lk).value.states[i];
      var na, np := |rf.active|, |rf.pending|;
      if i < na then st == FreshState(rf.active[i], Active, lk.isConflict)
      else if i < na + np then st == FreshState(rf.pending[i - na], Pending, lk.isConflict)
      else st == FreshState(rf.recovering.value[i - na - np], Recovering, lk.isConflict)
  {
    var a, b, c := StatesOf(rf.active, Active, lk), StatesOf(rf.pending, Pending, lk),
      StatesOf(rf.recovering.value, Recovering, lk);
    var all := a + b + c;
    assert PresenceOf(rf, lk).value.states == all;
    if i < |a| {
      assert all[i] == a[i];
    } else if i < |a| + |b| {
      assert all[i] == b[i - |a|];
    } else {
      assert all[i] == c[i - |a| - |b|];
    }
  }

  /** A record with positive raw influence: the test is made before rounding. */
  predicate Counted(rf: RawFaction) { rf.influence > 0.0 }

  /** Some counted record carries the name `n`. */
  predicate CountedName(rfs: seq<RawFaction>, n: string)
  {
    exists k :: 0 <= k < |rfs| && Counted(rfs[k]) && rfs[k].name == n
  }

  /** `addfaction` for each counted record, in order; the first fault aborts. */
  function AddFactions(s: System, rfs: seq<RawFaction>, lk: Lookups): (r: Result<System>)
    ensures r.Ok? ==> r.value == s.(factions := r.value.factions)
    decreases |rfs|
  {
    if rfs == [] then Ok(s)
    else if !Counted(rfs[0]) then AddFactions(s, rfs[1..], lk)
    else match PresenceOf(rfs[0], lk)
      case Err(f) => Err(f)
      case Ok(p) => AddFactions(AddFaction(s, p, lk.homeSystem), rfs[1..], lk)
  }

  /** The conversion fails exactly when a counted record lacks its recovering
      list, and then names the first such faction. */
  lemma {:induction false} AddFactionsFails(s: System, rfs: seq<RawFaction>, lk: Lookups)
    ensures AddFactions(s, rfs, lk).Err? <==>
      exists k :: 0 <= k < |rfs| && Counted(rfs[k]) && rfs[k].recovering.None?
    ensures AddFactions(s, rfs, lk).Err? ==> exists k :: (0 <= k < |rfs| && Counted(rfs[k])
      && rfs[k].recovering.None? && AddFactions(s, rfs, lk).fault == MissingRecoveringStates(rfs[k].name)
      && forall m :: 0 <= m < k ==> !(Counted(rfs[m]) && rfs[m].recovering.None?))
    decreases |rfs|
  {
    if rfs != [] {
      var s' := if Counted(rfs[0]) && rfs[0].recovering.Some? then AddFaction(s, PresenceOf(rfs[0], lk).value, lk.homeSystem) else s;
      if Counted(rfs[0]) && rfs[0].recovering.None? {
        assert AddFactions(s, rfs, lk) == Err(MissingRecoveringStates(rfs[0].name));
      } else {
        assert AddFactions(s, rfs, lk) == AddFactions(s', rfs[1..], lk);
        AddFactionsFails(s', rfs[1..], lk);
        assert forall k :: 0 <= k < |rfs[1..]| ==> rfs[1..][k] == rfs[k + 1];
        if AddFactions(s, rfs, lk).Err? {
          var k :| 0 <= k < |rfs[1..]| && Counted(rfs[1..][k]) && rfs[1..][k].recovering.None?
            && AddFactions(s', rfs[1..], lk).fault == MissingRecoveringStates(rfs[1..][k].name)
            && forall m :: 0 <= m < k ==> !(Counted(rfs[1..][m]) && rfs[1..][m].recovering.None?);
          assert forall m :: 0 <= m < k + 1 ==> !(Counted(rfs[m]) && rfs[m].recovering.None?) by {
            forall m | 0 <= m < k + 1 ensures !(Counted(rfs[m]) && rfs[m].recovering.None?) {
              if m > 0 { assert rfs[m] == rfs[1..][m - 1]; }
            }
          }
        }
      }
    }
  }

  /** Presences already there stay present. */
  lemma {:induction false} AddFactionsKeeps(s: System, rfs: seq<RawFaction>, lk: Lookups, name: string)
    requires IsFactionPresent(s, name) && AddFactions(s, rfs, lk).Ok?
    ensures IsFactionPresent(AddFactions(s, rfs, lk).value, name)
    decreases |rfs|
  {
    if rfs != [] {
      if Counted(rfs[0]) {
        var p := PresenceOf(rfs[0], lk).value;
        AddFactionKeepsPresent(s, p, lk.homeSystem, name);
        AddFactionsKeeps(AddFaction(s, p, lk.homeSystem), rfs[1..], lk, name);
      } else {
        AddFactionsKeeps(s, rfs[1..], lk, name);
      }
    }
  }

  /** Every counted record becomes a presence, even one whose influence
      rounds to zero. */
  lemma {:induction false} AddFactionsAdds(s: System, rfs: seq<RawFaction>, lk: Lookups, j: nat)
    requires j < |rfs| && Counted(rfs[j]) && AddFactions(s, rfs, lk).Ok?
    ensures IsFactionPresent(AddFactions(s, rfs, lk).value, rfs[j].name)
    decreases |rfs|
  {
    if Counted(rfs[0]) {
      var p := PresenceOf(rfs[0], lk).value;
      var s' := AddFaction(s, p, lk.homeSystem);
      if j == 0 {
        AddFactionsKeeps(s', rfs[1..], lk, p.name);
      } else {
        assert rfs[1..][j - 1] == rfs[j];
        AddFactionsAdds(s', rfs[1..], lk, j - 1);
      }
    } else {
      assert rfs[1..][j - 1] == rfs[j];
      AddFactionsAdds(s, rfs[1..], lk, j - 1);
    }
  }

  /** Only counted records contribute: every name afterwards was there before
      or belongs to a record with positive raw influence. */
  lemma {:induction false} AddFactionsOnlyCounted(s: System, rfs: seq<RawFaction>, lk: Lookups, i: nat)
    requires AddFactions(s, rfs, lk).Ok? && i < |AddFactions(s, rfs, lk).value.factions|
    ensures var n := AddFactions(s, rfs, lk).value.factions[i].name;
      IsFactionPresent(s, n) || CountedName(rfs, n)
    decreases |rfs|
  {
    var n := AddFactions(s, rfs, lk).value.factions[i].name;
    if rfs != [] {
      assert forall k :: 0 <= k < |rfs[1..]| ==> rfs[1..][k] == rfs[k + 1];
      if Counted(rfs[0]) {
        var p := PresenceOf(rfs[0], lk).value;
        var s' := AddFaction(s, p, lk.homeSystem);
        AddFactionsOnlyCounted(s', rfs[1..], lk, i);
        if IsFactionPresent(s', n) && n != p.name {
          var m :| 0 <= m < |s'.factions| && s'.factions[m].name == n;
          match FirstNamed(s.factions, p.name) {
            case Some(x) =>
              assert s'.factions[m] == s.factions[m];
            case None =>
              assert s'.factions[m] == s.factions[m];
          }
        }
      } else {
        AddFactionsOnlyCounted(s, rfs[1..], lk, i);
      }
    }
  }

  /** A station's faction: the controlling faction, or the station type when
      none is recorded. */
  function StationOf(st: RawStation): (r: Station)
    ensures r.kind == st.kind && r.name == st.name
    ensures st.controllingFaction.Some? ==> r.faction == st.controllingFaction.value
    ensures st.controllingFaction.None? ==> r.faction == st.kind
  {
    Station(st.kind, st.name, match st.controllingFaction case Some(f) => f case None => st.kind)
  }

  function StationsOf(sts: seq<RawStation>): (r: seq<Station>)
    ensures |r| == |sts| && forall i :: 0 <= i < |sts| ==> r[i] == StationOf(sts[i])
  {
    if sts == [] then [] else [StationOf(sts[0])] + StationsOf(sts[1..])
  }

  /** The System a record has before its factions are added. */
  function Skeleton(rs: RawSystem, lastModified: int): System
  {
    System(rs.name, rs.x, rs.y, rs.z, rs.controlling, rs.population, lastModified, EdsmSource,
      [], StationsOf(rs.stations), None, [])
  }

  /** The System a record describes, stamped with the dump's modification
      time `lastModified`. */
  function ConvertSystem(rs: RawSystem, lastModified: int, lk: Lookups): (r: Result<System>)
    ensures r.Err? <==> exists k :: 0 <= k < |rs.factions| && Counted(rs.factions[k]) && rs.factions[k].recovering.None?
    ensures r.Ok? ==> (r.value.name == rs.name && r.value.x == rs.x && r.value.y == rs.y && r.value.z == rs.z
      && r.value.population == rs.population && r.value.controllingFaction == rs.controlling
      && r.value.updated == lastModified && r.value.source == EdsmSource
      && r.value.stations == StationsOf(rs.stations))
  {
    AddFactionsFails(Skeleton(rs, lastModified), rs.factions, lk);
    AddFactions(Skeleton(rs, lastModified), rs.factions, lk)
  }

  /** A converted system's presences are exactly the counted records. */
  lemma ConvertSystemPresences(rs: RawSystem, lastModified: int, lk: Lookups)
    requires ConvertSystem(rs, lastModified, lk).Ok?
    ensures var s := ConvertSystem(rs, lastModified, lk).value;
      (forall j :: 0 <= j < |rs.factions| && Counted(rs.factions[j]) ==> IsFactionPresent(s, rs.factions[j].name))
      && (forall i :: 0 <= i < |s.factions| ==> CountedName(rs.factions, s.factions[i].name))
  {
    var empty := Skeleton(rs, lastModified);
    var s := ConvertSystem(rs, lastModified, lk).value;
    assert AddFactions(empty, rs.factions, lk).value == s;
    forall j | 0 <= j < |rs.factions| && Counted(rs.factions[j]) ensures IsFactionPresent(s, rs.factions[j].name) {
      AddFactionsAdds(empty, rs.factions, lk, j);
    }
    forall i | 0 <= i < |s.factions| ensures CountedName(rs.factions, s.factions[i].name) {
      AddFactionsOnlyCounted(empty, rs.factions, lk, i);
      assert !IsFactionPresent(empty, s.factions[i].name);
    }
  }

  /** Every record, in order; the first fault aborts. */
  function ConvertAll(raws: seq<RawSystem>, lastModified: int, lk: Lookups): (r: Result<seq<System>>)
    ensures r.Err? <==> exists k :: 0 <= k < |raws| && ConvertSystem(raws[k], lastModified, lk).Err?
    ensures r.Ok? ==> (|r.value| == |raws|
      && forall i :: 0 <= i < |raws| ==> r.value[i] == ConvertSystem(raws[i], lastModified, lk).value)
    decreases |raws|
  {
    if raws == [] then Ok([])
    else match ConvertSystem(raws[0], lastModified, lk)
      case Err(f) => Err(f)
      case Ok(s) =>
        var rest := ConvertAll(raws[1..], lastModified, lk);
        assert forall k :: 0 <= k < |raws[1..]| ==> raws[1..][k] == raws[k + 1];
        match rest
        case Err(f) => Err(f)
        case Ok(ss) => Ok([s] + ss)
  }

  // ---------------------------------------------------------- empire filter

  /** The smallest cube distance from `x` to a system of `empire`. */
  function MinCube(empire: seq<System>, x: System): (r: real)
    requires empire != []
    ensures exists e :: (0 <= e < |empire| && r == CubeDistance(empire[e], x))
    ensures forall e :: 0 <= e < |empire| ==> r <= CubeDistance(empire[e], x)
    decreases |empire|
  {
    if |empire| == 1 then CubeDistance(empire[0], x)
    else
      var rest := MinCube(empire[1..], x);
      assert forall e :: 1 <= e < |empire| ==> empire[e] == empire[1..][e - 1];
      if CubeDistance(empire[0], x) <= rest then CubeDistance(empire[0], x) else rest
  }

  /** Near the empire: some empire system within `range` cube distance. */
  predicate NearEmpire(empire: seq<System>, range: real, x: System)
  {
    exists e :: 0 <= e < |empire| && CubeDistance(empire[e], x) <= range
  }

  /** The filter's test as a function value; an empty empire keeps nothing. */
  function NearPred(empire: seq<System>, range: real): System -> bool
  {
    (x: System) => empire != [] && MinCube(empire, x) <= range
  }

  lemma MinCubeWithin(empire: seq<System>, range: real, x: System)
    requires empire != []
    ensures MinCube(empire, x) <= range <==> NearEmpire(empire, range, x)
  {
    if NearEmpire(empire, range, x) {
      var e :| 0 <= e < |empire| && CubeDistance(empire[e], x) <= range;
    }
  }

  /** The cut-down of `GetSystemsFromEDSM`: with a faction given and present
      somewhere, the systems within `range` of its empire, in input order;
      otherwise the list unchanged. */
  function EmpireFilter(systems: seq<System>, faction: string, range: real): (r: seq<System>)
    ensures faction == "" || FactionPresence(systems, faction) == [] ==> r == systems
    ensures faction != "" && FactionPresence(systems, faction) != [] ==>
      r == Filter(systems, NearPred(FactionPresence(systems, faction), range))
  {
    if faction == "" then systems
    else
      var empire := FactionPresence(systems, faction);
      if empire == [] then systems
      else Filter(systems, NearPred(empire, range))
  }

  /** Membership of the cut-down list, both ways. */
  lemma EmpireFilterMembers(systems: seq<System>, faction: string, range: real, x: System)
    requires faction != "" && FactionPresence(systems, faction) != []
    ensures x in EmpireFilter(systems, faction, range) <==>
      x in systems && NearEmpire(FactionPresence(systems, faction), range, x)
  {
    var empire := FactionPresence(systems, faction);
    var r := EmpireFilter(systems, faction, range);
    MinCubeWithin(empire, range, x);
    if x in systems && NearEmpire(empire, range, x) {
      var i :| 0 <= i < |systems| && systems[i] == x;
    }
  }

  /** With a non-negative range every empire system is kept. */
  lemma EmpireKept(systems: seq<System>, faction: string, range: real, i: nat)
    requires range >= 0.0 && i < |systems| && IsFactionPresent(systems[i], faction)
    ensures systems[i] in EmpireFilter(systems, faction, range)
  {
    var empire := FactionPresence(systems, faction);
    if faction != "" {
      assert systems[i] in empire;
      var e :| 0 <= e < |empire| && empire[e] == systems[i];
      CubeDistanceSymmetric(systems[i], systems[i]);
      assert NearEmpire(empire, range, systems[i]);
      EmpireFilterMembers(systems, faction, range, systems[i]);
    }
  }

  /** `GetSystemsFromEDSM` after the download: convert, then cut down. */
  function GetSystemsFromEdsm(raws: seq<RawSystem>, lastModified: int, lk: Lookups,
                              faction: string, range: real): (r: Result<seq<System>>)
    ensures r.Err? <==> ConvertAll(raws, lastModified, lk).Err?
    ensures r.Ok? ==> |r.value| <= |raws|
    ensures r.Ok? ==> forall i :: 0 <= i < |r.value| ==> r.value[i] in ConvertAll(raws, lastModified, lk).value
  {
    match ConvertAll(raws, lastModified, lk)
    case Err(f) => Err(f)
    case Ok(systems) => Ok(EmpireFilter(systems, faction, range))
  }
}
