/** Systems, faction presences and the spatial "bubble" queries of
    DataClasses.py. A bubble is the sequence of its systems. */
module DataClasses {
  import opened Wrappers
  import opened Seqs
  import opened Strings

  datatype Phase = Pending | Active | Recovering

  /** A faction state. The conflict fields keep their defaults until conflict
      pairing fills them in; `isConflict` is decided from the state's name by
      the State class when the record is built. */
  datatype State = State(
    name: string, phase: Phase, isConflict: bool,
    opponent: string, atstake: string, gain: string,
    dayswon: int, dayslost: int)

  /** A faction's presence in one system. `influence` is in hundredths of a
      percent (1234 stands for 12.34%). `source` names the feed it came from. */
  datatype Presence = Presence(
    name: string, influence: int, happiness: string,
    isPlayer: bool, isNative: bool, states: seq<State>, source: string)

  datatype ExpansionTarget = ExpansionTarget(faction: string, systemName: string, description: string)

  datatype Station = Station(kind: string, name: string, faction: string)

  /** A star system. `updated` is a time in seconds; the expansion fields are
      produced by the expansion projector and only read here. */
  datatype System = System(
    name: string, x: real, y: real, z: real,
    controllingFaction: string, population: int,
    updated: int, source: string,
    factions: seq<Presence>, stations: seq<Station>,
    nextExpansion: Option<string>, expansionTargets: seq<ExpansionTarget>)

  /** Values supplied by code outside this model: the player-faction and
      home-system archives, the State class's conflict classifier, and the
      source tag the Presence class gives a new presence. */
  datatype Lookups = Lookups(
    isPlayer: string -> bool, homeSystem: string -> string,
    isConflict: string -> bool, presenceSource: string)

  /** A state as the State class builds it from a name and a phase: the
      conflict fields start empty and `isConflict` is the class's verdict on
      the name. */
  function FreshState(name: string, phase: Phase, isConflict: string -> bool): (st: State)
    ensures st.name == name && st.phase == phase && st.isConflict == isConflict(name)
    ensures st.opponent == "" && st.atstake == "" && st.gain == "" && st.dayswon == 0 && st.dayslost == 0
  {
    State(name, phase, isConflict(name), "", "", "", 0, 0)
  }

  /** Python's `round(100 * raw, 2)` for a feed fraction `raw`, in hundredths
      of a percent: the integer nearest to raw * 10000, ties to even. */
  function Centi(raw: real): (r: int)
    ensures -0.5 <= r as real - raw * 10000.0 <= 0.5
    ensures (r as real - raw * 10000.0 == 0.5 || raw * 10000.0 - r as real == 0.5) ==> r % 2 == 0
  {
    var x := raw * 10000.0;
    var f := x.Floor;
    var d := x - f as real;
    if d > 0.5 || (d == 0.5 && f % 2 == 1) then f + 1 else f
  }

  function Abs(r: real): real { if r < 0.0 then -r else r }

  function Max3(a: real, b: real, c: real): (m: real)
    ensures m >= a && m >= b && m >= c
    ensures m == a || m == b || m == c
  {
    if a >= b && a >= c then a else if b >= c then b else c
  }

  /** `System.cube_distance`: the Chebyshev distance, the metric of every
      "in range" decision. */
  function CubeDistance(a: System, b: System): (r: real)
    ensures r >= 0.0
    ensures r >= Abs(a.x - b.x) && r >= Abs(a.y - b.y) && r >= Abs(a.z - b.z)
    ensures r == Abs(a.x - b.x) || r == Abs(a.y - b.y) || r == Abs(a.z - b.z)
  {
    Max3(Abs(a.x - b.x), Abs(a.y - b.y), Abs(a.z - b.z))
  }

  lemma CubeDistanceSymmetric(a: System, b: System)
    ensures CubeDistance(a, b) == CubeDistance(b, a)
    ensures CubeDistance(a, a) == 0.0
  {
  }

  /** The square of the straight-line distance; `System.distance` is a
      rounded square root of it, passed around as `dist`. */
  function SqDistance(a: System, b: System): (r: real)
    ensures r >= 0.0
  {
    (a.x - b.x) * (a.x - b.x) + (a.y - b.y) * (a.y - b.y) + (a.z - b.z) * (a.z - b.z)
  }

  /** `Bubble.distance`: None when either system is missing. `dist` maps a
      squared distance to the displayed distance in hundredths of a light year. */
  function BubbleDistance(a: Option<System>, b: Option<System>, dist: real -> int): (r: Option<int>)
    ensures r.None? <==> a.None? || b.None?
    ensures r.Some? ==> r.value == dist(SqDistance(a.value, b.value))
  {
    if a.Some? && b.Some? then Some(dist(SqDistance(a.value, b.value))) else None
  }

  /** The distance does not depend on which system is named first. */
  lemma BubbleDistanceSymmetric(a: Option<System>, b: Option<System>, dist: real -> int)
    ensures BubbleDistance(a, b, dist) == BubbleDistance(b, a, dist)
  {
    if a.Some? && b.Some? {
      assert SqDistance(a.value, b.value) == SqDistance(b.value, a.value);
    }
  }

  /** `Bubble.cube_distance`: None when either system is missing. */
  function BubbleCubeDistance(a: Option<System>, b: Option<System>): (r: Option<real>)
    ensures r.None? <==> a.None? || b.None?
    ensures r.Some? ==> r.value >= 0.0 && r.value == CubeDistance(b.value, a.value)
  {
    if a.Some? && b.Some? then Some(CubeDistance(a.value, b.value)) else None
  }

  /** Index of the first presence called `name`, if any. */
  function FirstNamed(ps: seq<Presence>, name: string): (r: Option<nat>)
    ensures r.None? <==> forall i :: 0 <= i < |ps| ==> ps[i].name != name
    ensures r.Some? ==> r.value < |ps| && ps[r.value].name == name
    ensures r.Some? ==> forall i :: 0 <= i < r.value ==> ps[i].name != name
    decreases |ps|
  {
    if ps == [] then None
    else if ps[0].name == name then Some(0)
    else match FirstNamed(ps[1..], name)
      case None => None
      case Some(i) => Some(i + 1)
  }

  /** No two presences of a list share a faction name. */
  predicate UniqueNames(ps: seq<Presence>)
  {
    forall i, j :: 0 <= i < j < |ps| ==> ps[i].name != ps[j].name
  }

  /** `System.isfactionpresent`. */
  function IsFactionPresent(s: System, name: string): (r: bool)
    ensures r <==> exists i :: 0 <= i < |s.factions| && s.factions[i].name == name
  {
    FirstNamed(s.factions, name).Some?
  }

  /** The native flag `addfaction` stamps on a presence: true when the system's
      name is part of the faction's name, otherwise whether the faction's home
      system (looked up by `homeSystem`) is this system. */
  function NativeFlag(s: System, faction: string, homeSystem: string -> string): bool
  {
    if Contains(faction, s.name) then true else Lower(s.name) == homeSystem(faction)
  }

  /** `System.addfaction`: replace the first presence of the same name in
      place, or append. */
  function AddFaction(s: System, f: Presence, homeSystem: string -> string): (r: System)
    ensures r == s.(factions := r.factions)
    ensures var f' := f.(isNative := NativeFlag(s, f.name, homeSystem));
      match FirstNamed(s.factions, f.name)
      case Some(i) =>
        && |r.factions| == |s.factions|
        && r.factions[i] == f'
        && forall j :: 0 <= j < |s.factions| && j != i ==> r.factions[j] == s.factions[j]
      case None =>
        r.factions == s.factions + [f']
    ensures Contains(f.name, s.name) ==> (exists i :: 0 <= i < |r.factions| && r.factions[i] == f.(isNative := true))
    ensures IsFactionPresent(r, f.name)
    ensures UniqueNames(s.factions) ==> UniqueNames(r.factions)
  {
    var f' := f.(isNative := NativeFlag(s, f.name, homeSystem));
    match FirstNamed(s.factions, f.name)
    case Some(i) =>
      var fs := s.factions[i := f'];
      assert fs[i] == f';
      s.(factions := fs)
    case None =>
      var fs := s.factions + [f'];
      assert fs[|s.factions|] == f';
      s.(factions := fs)
  }

  /** With unique names before, exactly one presence carries the new name
      afterwards, and it is the added one. */
  lemma AddFactionExactlyOne(s: System, f: Presence, homeSystem: string -> string, i: nat, j: nat)
    requires UniqueNames(s.factions)
    requires var r := AddFaction(s, f, homeSystem);
      i < |r.factions| && j < |r.factions| && r.factions[i].name == f.name && r.factions[j].name == f.name
    ensures i == j
    ensures AddFaction(s, f, homeSystem).factions[i] == f.(isNative := NativeFlag(s, f.name, homeSystem))
  {
    var r := AddFaction(s, f, homeSystem);
    assert UniqueNames(r.factions);
    match FirstNamed(s.factions, f.name)
    case Some(k) =>
      assert r.factions[k].name == f.name;
    case None =>
      assert r.factions[|s.factions|].name == f.name;
  }

  /** Adding never removes a faction name: the names before are kept, position by position. */
  lemma AddFactionKeepsNames(s: System, f: Presence, homeSystem: string -> string)
    ensures var fs := AddFaction(s, f, homeSystem).factions;
      |s.factions| <= |fs| && forall i :: 0 <= i < |s.factions| ==> fs[i].name == s.factions[i].name
  {
  }

  lemma AddFactionKeepsPresent(s: System, f: Presence, homeSystem: string -> string, name: string)
    requires IsFactionPresent(s, name)
    ensures IsFactionPresent(AddFaction(s, f, homeSystem), name)
  {
    AddFactionKeepsNames(s, f, homeSystem);
    var i :| 0 <= i < |s.factions| && s.factions[i].name == name;
    assert AddFaction(s, f, homeSystem).factions[i].name == name;
  }

  /** Index of the first system whose name matches `name` ignoring case. */
  function GetSystemIndex(systems: seq<System>, name: string): (r: Option<nat>)
    ensures r.None? <==> forall i :: 0 <= i < |systems| ==> !SameIgnoringCase(systems[i].name, name)
    ensures r.Some? ==> r.value < |systems| && SameIgnoringCase(systems[r.value].name, name)
    ensures r.Some? ==> forall i :: 0 <= i < r.value ==> !SameIgnoringCase(systems[i].name, name)
    decreases |systems|
  {
    if systems == [] then None
    else if SameIgnoringCase(systems[0].name, name) then Some(0)
    else match GetSystemIndex(systems[1..], name)
      case None => None
      case Some(i) => Some(i + 1)
  }

  /** `Bubble.getsystem`: the first case-insensitive match, or None. */
  function GetSystem(systems: seq<System>, name: string): (r: Option<System>)
    ensures r.None? <==> forall i :: 0 <= i < |systems| ==> !SameIgnoringCase(systems[i].name, name)
    ensures r.Some? ==> exists i :: (0 <= i < |systems| && systems[i] == r.value
      && SameIgnoringCase(r.value.name, name)
      && forall j :: 0 <= j < i ==> !SameIgnoringCase(systems[j].name, name))
  {
    match GetSystemIndex(systems, name)
    case None => None
    case Some(i) => Some(systems[i])
  }

  /** The condition `cube_systems` filters by. */
  predicate InCube(origin: System, range: real, exclude: string, x: System)
  {
    CubeDistance(origin, x) <= range && (exclude == "" || !IsFactionPresent(x, exclude))
  }

  function CubeCandidates(systems: seq<System>, origin: System, range: real, exclude: string): seq<System>
  {
    Filter(systems, (x: System) => InCube(origin, range, exclude, x))
  }

  /** The ranking key of `cube_systems`: displayed distance from the origin. */
  function DistanceKey(origin: System, dist: real -> int): System -> int
  {
    (x: System) => dist(SqDistance(x, origin))
  }

  /** `Bubble.cube_systems`: the systems within cube `range` of `origin` (not
      holding `exclude` when it is non-empty), ordered by distance. */
  function CubeSystems(systems: seq<System>, origin: System, range: real, exclude: string,
                       dist: real -> int): (r: seq<System>)
    ensures forall x :: multiset(r)[x] == (if InCube(origin, range, exclude, x) then multiset(systems)[x] else 0)
    ensures forall i :: 0 <= i < |r| ==> r[i] in systems && CubeDistance(origin, r[i]) <= range
    ensures exclude != "" ==> forall i :: 0 <= i < |r| ==> !IsFactionPresent(r[i], exclude)
    ensures forall i :: 0 <= i < |systems| && InCube(origin, range, exclude, systems[i]) ==> systems[i] in r
    ensures SortedBy(r, DistanceKey(origin, dist))
  {
    var c := CubeCandidates(systems, origin, range, exclude);
    CandidatesCount(systems, origin, range, exclude);
    var r := SortBy(c, DistanceKey(origin, dist));
    CountsGiveMembership(r, systems, origin, range, exclude);
    r
  }

  lemma CandidatesCount(systems: seq<System>, origin: System, range: real, exclude: string)
    ensures forall x :: (multiset(CubeCandidates(systems, origin, range, exclude))[x]
      == (if InCube(origin, range, exclude, x) then multiset(systems)[x] else 0))
    decreases |systems|
  {
    forall x ensures multiset(CubeCandidates(systems, origin, range, exclude))[x]
      == (if InCube(origin, range, exclude, x) then multiset(systems)[x] else 0)
    {
      FilterCount(systems, (y: System) => InCube(origin, range, exclude, y), x);
    }
  }

  lemma CountsGiveMembership(r: seq<System>, systems: seq<System>, origin: System, range: real, exclude: string)
    requires forall x :: multiset(r)[x] == (if InCube(origin, range, exclude, x) then multiset(systems)[x] else 0)
    ensures forall i :: 0 <= i < |r| ==> r[i] in systems && InCube(origin, range, exclude, r[i])
    ensures forall i :: 0 <= i < |systems| && InCube(origin, range, exclude, systems[i]) ==> systems[i] in r
  {
    forall i | 0 <= i < |r| ensures r[i] in systems && InCube(origin, range, exclude, r[i]) {
      assert multiset(r)[r[i]] > 0;
    }
    forall i | 0 <= i < |systems| && InCube(origin, range, exclude, systems[i]) ensures systems[i] in r {
      assert multiset(systems)[systems[i]] > 0;
    }
  }

  /** Systems at the same distance stay in input order. */
  lemma CubeSystemsStable(systems: seq<System>, origin: System, range: real, exclude: string,
                          dist: real -> int, k: int)
    ensures var key := DistanceKey(origin, dist);
      WithKey(CubeSystems(systems, origin, range, exclude, dist), key, k)
      == WithKey(CubeCandidates(systems, origin, range, exclude), key, k)
  {
    SortByStable(CubeCandidates(systems, origin, range, exclude), DistanceKey(origin, dist), k);
  }

  /** `Bubble.faction_presence`: the systems where `name` is present. */
  function FactionPresence(systems: seq<System>, name: string): (r: seq<System>)
    ensures forall i :: 0 <= i < |r| ==> r[i] in systems && IsFactionPresent(r[i], name)
    ensures forall i :: 0 <= i < |systems| && IsFactionPresent(systems[i], name) ==> systems[i] in r
  {
    Filter(systems, (x: System) => IsFactionPresent(x, name))
  }

  /** One step of the presence filter. */
  lemma FactionPresenceHead(systems: seq<System>, name: string)
    requires systems != []
    ensures FactionPresence(systems, name)
      == (if IsFactionPresent(systems[0], name) then [systems[0]] else []) + FactionPresence(systems[1..], name)
  {
    FilterHead(systems, (x: System) => IsFactionPresent(x, name));
  }

  /** Input order is kept: the result for a concatenation is the concatenation of results. */
  lemma FactionPresenceInOrder(a: seq<System>, b: seq<System>, name: string)
    ensures FactionPresence(a + b, name) == FactionPresence(a, name) + FactionPresence(b, name)
  {
    FilterConcat(a, b, (x: System) => IsFactionPresent(x, name));
  }
}
