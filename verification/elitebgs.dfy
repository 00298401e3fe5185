/** The pure part of the Elite BGS provider: how a fetched system document
    updates a System (the update guard, presences and states, conflict
    pairing, the faction-list rebuild) and the refresh-or-touch decision of
    `RefreshFaction`. Fetching is a parameter: a document is an input value. */
module EliteBgs {
  import opened Wrappers
  import opened Seqs
  import opened Strings
  import opened DataClasses

  /** The source tag of data from this feed. */
  const EbgsSource := "EBGS"

  /** One faction of a system document; `influence` is the raw fraction. */
  datatype FactionDoc = FactionDoc(
    name: string, influence: real,
    pending: seq<string>, active: seq<string>, recovering: seq<string>)

  /** One side of a conflict record. */
  datatype Side = Side(name: string, stake: string, daysWon: int)

  datatype ConflictDoc = ConflictDoc(faction1: Side, faction2: Side)

  /** The first document of the systems query; `updatedAt` in seconds. */
  datatype SystemDoc = SystemDoc(
    updatedAt: int, controlling: string,
    factions: seq<FactionDoc>, conflicts: seq<ConflictDoc>)

  // ------------------------------------------------------ presences and states

  /** States of one phase, names title-cased, in feed order. */
  function StatesOf(names: seq<string>, phase: Phase, lk: Lookups): (r: seq<State>)
    ensures |r| == |names|
    ensures forall i :: 0 <= i < |names| ==> r[i] == FreshState(Title(names[i]), phase, lk.isConflict)
  {
    if names == [] then [] else [FreshState(Title(names[0]), phase, lk.isConflict)] + StatesOf(names[1..], phase, lk)
  }

  /** The presence a faction document describes: pending, then active, then
      recovering states (see `PresenceStatesInOrder`). */
  function PresenceOf(fd: FactionDoc, lk: Lookups): (p: Presence)
    ensures p.name == fd.name && p.influence == Centi(fd.influence)
    ensures p.isPlayer == lk.isPlayer(fd.name) && p.source == lk.presenceSource
    ensures |p.states| == |fd.pending| + |fd.active| + |fd.recovering|
  {
    Presence(fd.name, Centi(fd.influence), "", lk.isPlayer(fd.name), false,
      StatesOf(fd.pending, Pending, lk) + StatesOf(fd.active, Active, lk)
        + StatesOf(fd.recovering, Recovering, lk),
      lk.presenceSource)
  }

  /** States come pending first, then active, then recovering, each keeping
      its feed order and carrying its title-cased name. */
  lemma PresenceStatesInOrder(fd: FactionDoc, lk: Lookups, i: nat)
    requires i < |PresenceOf(fd, lk).states|
    ensures var st := PresenceOf(fd, lk).states[i];
      var np, na := |fd.pending|, |fd.active|;
      if i < np then st == FreshState(Title(fd.pending[i]), Pending, lk.isConflict)
      else if i < np + na then st == FreshState(Title(fd.active[i - np]), Active, lk.isConflict)
      else st == FreshState(Title(fd.recovering[i - np - na]), Recovering, lk.isConflict)
  {
    var a, b, c := StatesOf(fd.pending, Pending, lk), StatesOf(fd.active, Active, lk),
      StatesOf(fd.recovering, Recovering, lk);
    var all := a + b + c;
    assert PresenceOf(fd, lk).states == all;
    if i < |a| {
      assert all[i] == a[i];
    } else if i < |a| + |b| {
      assert all[i] == b[i - |a|];
    } else {
      assert all[i] == c[i - |a| - |b|];
    }
  }

  function PresencesOf(fds: seq<FactionDoc>, lk: Lookups): (ps: seq<Presence>)
    ensures |ps| == |fds| && forall j :: 0 <= j < |fds| ==> ps[j] == PresenceOf(fds[j], lk)
  {
    Map(fds, (fd: FactionDoc) => PresenceOf(fd, lk))
  }

  /** `addfaction` for each presence with positive influence, in order. */
  function AddPositive(s: System, ps: seq<Presence>, homeSystem: string -> string): (r: System)
    ensures r == s.(factions := r.factions)
    decreases |ps|
  {
    if ps == [] then s
    else AddPositive(if ps[0].influence > 0 then AddFaction(s, ps[0], homeSystem) else s, ps[1..], homeSystem)
  }

  /** Presences already there stay present. */
  lemma {:induction false} AddPositiveKeeps(s: System, ps: seq<Presence>, hs: string -> string, name: string)
    requires IsFactionPresent(s, name)
    ensures IsFactionPresent(AddPositive(s, ps, hs), name)
    decreases |ps|
  {
    if ps != [] {
      var s' := if ps[0].influence > 0 then AddFaction(s, ps[0], hs) else s;
      if ps[0].influence > 0 {
        var i :| 0 <= i < |s.factions| && s.factions[i].name == name;
        assert s'.factions[i].name == name;
      }
      AddPositiveKeeps(s', ps[1..], hs, name);
    }
  }

  /** Every presence with positive influence ends up present. */
  lemma {:induction false} AddPositiveAdds(s: System, ps: seq<Presence>, hs: string -> string, j: nat)
    requires j < |ps| && ps[j].influence > 0
    ensures IsFactionPresent(AddPositive(s, ps, hs), ps[j].name)
    decreases |ps|
  {
    var s' := if ps[0].influence > 0 then AddFaction(s, ps[0], hs) else s;
    if j == 0 {
      AddPositiveKeeps(s', ps[1..], hs, ps[0].name);
    } else {
      assert ps[1..][j - 1] == ps[j];
      AddPositiveAdds(s', ps[1..], hs, j - 1);
    }
  }

  /** Every presence afterwards was there before or is one of `ps` with
      positive influence (native flag aside): nothing at or below zero is added. */
  lemma {:induction false} AddPositiveOnlyPositive(s: System, ps: seq<Presence>, hs: string -> string, i: nat)
    requires i < |AddPositive(s, ps, hs).factions|
    ensures var q := AddPositive(s, ps, hs).factions[i];
      q in s.factions || exists j :: (0 <= j < |ps| && ps[j].influence > 0 && q == ps[j].(isNative := q.isNative))
    decreases |ps|
  {
    if ps != [] {
      var s' := if ps[0].influence > 0 then AddFaction(s, ps[0], hs) else s;
      var q := AddPositive(s, ps, hs).factions[i];
      AddPositiveOnlyPositive(s', ps[1..], hs, i);
      if q !in s'.factions {
        var j :| 0 <= j < |ps[1..]| && ps[1..][j].influence > 0 && q == ps[1..][j].(isNative := q.isNative);
        assert ps[1..][j] == ps[j + 1];
      } else if q !in s.factions {
        var f' := ps[0].(isNative := NativeFlag(s, ps[0].name, hs));
        AddFactionNewcomer(s, ps[0], hs);
        assert q == f';
        assert q == ps[0].(isNative := q.isNative);
      }
    }
  }

  /** Whatever `addfaction` leaves that was not there before is the added presence. */
  lemma AddFactionNewcomer(s: System, f: Presence, hs: string -> string)
    ensures var fs := AddFaction(s, f, hs).factions;
      forall k :: 0 <= k < |fs| ==> fs[k] == f.(isNative := NativeFlag(s, f.name, hs)) || fs[k] in s.factions
  {
    var fs := AddFaction(s, f, hs).factions;
    forall k | 0 <= k < |fs| ensures fs[k] == f.(isNative := NativeFlag(s, f.name, hs)) || fs[k] in s.factions {
      match FirstNamed(s.factions, f.name) {
        case Some(m) =>
          if k != m { assert fs[k] == s.factions[k]; }
        case None =>
          if k < |s.factions| { assert fs[k] == s.factions[k]; }
      }
    }
  }

  /** The first presence of a name keeps its source tag across an addition,
      as long as an addition of that name carries the same tag. */
  lemma AddFactionKeepsFirst(s: System, f: Presence, homeSystem: string -> string, name: string, src: string)
    requires FirstNamed(s.factions, name).Some?
    requires s.factions[FirstNamed(s.factions, name).value].source == src
    requires f.name == name ==> f.source == src
    ensures var fs := AddFaction(s, f, homeSystem).factions;
      FirstNamed(fs, name).Some? && fs[FirstNamed(fs, name).value].source == src
  {
    var fs := AddFaction(s, f, homeSystem).factions;
    var k := FirstNamed(s.factions, name).value;
    assert forall i :: 0 <= i < |s.factions| ==> fs[i].name == s.factions[i].name;
    assert fs[k].name == name;
    var v := FirstNamed(fs, name).value;
    assert v == k;
  }

  /** Later additions never take the tag `src` off the first presence of a
      name when every presence added carries it. */
  lemma {:induction false} AddPositiveKeepFirst(s: System, ps: seq<Presence>, hs: string -> string, name: string, src: string)
    requires FirstNamed(s.factions, name).Some?
    requires s.factions[FirstNamed(s.factions, name).value].source == src
    requires forall j :: 0 <= j < |ps| ==> ps[j].source == src
    ensures var fs := AddPositive(s, ps, hs).factions;
      FirstNamed(fs, name).Some? && fs[FirstNamed(fs, name).value].source == src
    decreases |ps|
  {
    if ps != [] {
      var s' := if ps[0].influence > 0 then AddFaction(s, ps[0], hs) else s;
      if ps[0].influence > 0 {
        AddFactionKeepsFirst(s, ps[0], hs, name, src);
      }
      assert forall j :: 0 <= j < |ps[1..]| ==> ps[1..][j] == ps[j + 1];
      AddPositiveKeepFirst(s', ps[1..], hs, name, src);
    }
  }

  /** The first presence named after a presence with positive influence
      carries the common tag. */
  lemma {:induction false} AddPositiveSourced(s: System, ps: seq<Presence>, hs: string -> string, j: nat, src: string)
    requires j < |ps| && ps[j].influence > 0
    requires forall k :: 0 <= k < |ps| ==> ps[k].source == src
    ensures var fs := AddPositive(s, ps, hs).factions;
      FirstNamed(fs, ps[j].name).Some? && fs[FirstNamed(fs, ps[j].name).value].source == src
    decreases |ps|
  {
    var s' := if ps[0].influence > 0 then AddFaction(s, ps[0], hs) else s;
    assert forall k :: 0 <= k < |ps[1..]| ==> ps[1..][k] == ps[k + 1];
    if j == 0 {
      var fs := s'.factions;
      assert IsFactionPresent(s', ps[0].name);
      var v := FirstNamed(fs, ps[0].name).value;
      match FirstNamed(s.factions, ps[0].name) {
        case Some(m) =>
          assert fs[m].name == ps[0].name;
          assert forall i :: 0 <= i < |s.factions| ==> fs[i].name == s.factions[i].name;
          assert v == m;
        case None =>
          assert forall i :: 0 <= i < |s.factions| ==> fs[i].name == s.factions[i].name;
          assert v == |s.factions|;
      }
      AddPositiveKeepFirst(s', ps[1..], hs, ps[0].name, src);
    } else {
      assert ps[1..][j - 1] == ps[j];
      AddPositiveSourced(s', ps[1..], hs, j - 1, src);
    }
  }

  // -------------------------------------------------------------- conflicts

  /** The conflict states of one side, seen from `me` against `other`. */
  function MirrorStates(states: seq<State>, me: Side, other: Side): (r: seq<State>)
    ensures |r| == |states|
    ensures forall i :: 0 <= i < |states| ==>
      (if states[i].isConflict
       then r[i] == states[i].(opponent := other.name, atstake := me.stake, dayswon := me.daysWon,
                               dayslost := other.daysWon, gain := other.stake)
       else r[i] == states[i])
  {
    Map(states, (st: State) =>
      if st.isConflict
      then st.(opponent := other.name, atstake := me.stake, dayswon := me.daysWon,
               dayslost := other.daysWon, gain := other.stake)
      else st)
  }

  /** One conflict applied to one presence: the faction1 update, then the
      faction2 update (both apply when the names coincide). */
  function MirrorPresence(p: Presence, c: ConflictDoc): (r: Presence)
    ensures r == p.(states := r.states) && |r.states| == |p.states|
  {
    var p1 := if p.name == c.faction1.name then p.(states := MirrorStates(p.states, c.faction1, c.faction2)) else p;
    if p1.name == c.faction2.name then p1.(states := MirrorStates(p1.states, c.faction2, c.faction1)) else p1
  }

  function ApplyConflict(fs: seq<Presence>, c: ConflictDoc): (r: seq<Presence>)
    ensures |r| == |fs| && forall i :: 0 <= i < |fs| ==> r[i] == MirrorPresence(fs[i], c)
  {
    Map(fs, (p: Presence) => MirrorPresence(p, c))
  }

  /** Every conflict of the document, in order. */
  function ApplyConflicts(fs: seq<Presence>, cs: seq<ConflictDoc>): (r: seq<Presence>)
    ensures |r| == |fs|
    ensures forall i :: 0 <= i < |fs| ==> (r[i] == fs[i].(states := r[i].states)
      && |r[i].states| == |fs[i].states|)
    decreases |cs|
  {
    if cs == [] then fs else ApplyConflicts(ApplyConflict(fs, cs[0]), cs[1..])
  }

  /** The two sides of a conflict agree: one side's days won are the other's
      days lost, one side's stake is the other's gain, and each names the
      other as opponent. */
  lemma MirrorSymmetric(p: Presence, q: Presence, c: ConflictDoc, a: nat, b: nat)
    requires c.faction1.name != c.faction2.name
    requires p.name == c.faction1.name && q.name == c.faction2.name
    requires a < |p.states| && p.states[a].isConflict
    requires b < |q.states| && q.states[b].isConflict
    ensures var s, t := MirrorPresence(p, c).states[a], MirrorPresence(q, c).states[b];
      && s.dayswon == t.dayslost && s.dayslost == t.dayswon
      && s.atstake == t.gain && s.gain == t.atstake
      && s.opponent == q.name && t.opponent == p.name
  {
  }

  /** Presences outside every conflict, and states that are not conflicts,
      come through unchanged. */
  lemma {:induction false} ConflictsLeaveOthers(fs: seq<Presence>, cs: seq<ConflictDoc>, i: nat, k: nat)
    requires i < |fs| && k < |fs[i].states|
    requires !fs[i].states[k].isConflict
      || forall m :: 0 <= m < |cs| ==> fs[i].name != cs[m].faction1.name && fs[i].name != cs[m].faction2.name
    ensures ApplyConflicts(fs, cs)[i].states[k] == fs[i].states[k]
    decreases |cs|
  {
    if cs != [] {
      var fs' := ApplyConflict(fs, cs[0]);
      assert fs'[i].states[k] == fs[i].states[k];
      assert fs'[i].name == fs[i].name;
      assert forall m :: 0 <= m < |cs[1..]| ==> cs[1..][m] == cs[m + 1];
      ConflictsLeaveOthers(fs', cs[1..], i, k);
    }
  }

  // ------------------------------------------------------------- the rebuild

  function IsEbgs(): Presence -> bool { (p: Presence) => p.source == EbgsSource }

  /** Sorting key for "influence, descending". */
  function Descending(): Presence -> int { (p: Presence) => -p.influence }

  /** What the sort of the feed's presences keeps and in which order. */
  lemma RebuildMembers(fs: seq<Presence>)
    ensures var r := SortBy(Filter(fs, IsEbgs()), Descending());
      (forall i :: 0 <= i < |r| ==> r[i] in fs && r[i].source == EbgsSource)
      && (forall i :: 0 <= i < |fs| && fs[i].source == EbgsSource ==> fs[i] in r)
  {
    var kept := Filter(fs, IsEbgs());
    var r := SortBy(kept, Descending());
    assert multiset(r) == multiset(kept);
    forall i | 0 <= i < |r| ensures r[i] in fs && r[i].source == EbgsSource {
      assert r[i] in multiset(kept);
      var k :| 0 <= k < |kept| && kept[k] == r[i];
      assert IsEbgs()(kept[k]);
    }
    forall i | 0 <= i < |fs| && fs[i].source == EbgsSource ensures fs[i] in r {
      assert IsEbgs()(fs[i]);
      assert fs[i] in multiset(kept);
    }
  }

  lemma RebuildOrder(fs: seq<Presence>)
    ensures var r := SortBy(Filter(fs, IsEbgs()), Descending());
      (forall i, j :: 0 <= i < j < |r| ==> r[i].influence >= r[j].influence)
      && (forall k :: WithKey(r, Descending(), k) == WithKey(Filter(fs, IsEbgs()), Descending(), k))
  {
    var kept := Filter(fs, IsEbgs());
    var r := SortBy(kept, Descending());
    assert forall i, j :: 0 <= i < j < |r| ==> Descending()(r[i]) <= Descending()(r[j]);
    forall k ensures WithKey(r, Descending(), k) == WithKey(kept, Descending(), k) {
      SortByStable(kept, Descending(), k);
    }
  }

  /** The faction-list rebuild: only presences from this feed, highest
      influence first, equal influence in list order. */
  function Rebuild(fs: seq<Presence>): (r: seq<Presence>)
    ensures multiset(r) == multiset(Filter(fs, IsEbgs()))
    ensures forall i :: 0 <= i < |r| ==> r[i] in fs && r[i].source == EbgsSource
    ensures forall i :: 0 <= i < |fs| && fs[i].source == EbgsSource ==> fs[i] in r
    ensures forall i, j :: 0 <= i < j < |r| ==> r[i].influence >= r[j].influence
    ensures forall k :: WithKey(r, Descending(), k) == WithKey(Filter(fs, IsEbgs()), Descending(), k)
  {
    RebuildMembers(fs);
    RebuildOrder(fs);
    SortBy(Filter(fs, IsEbgs()), Descending())
  }

  // ------------------------------------------------------ LiveSystemDetails

  /** The update itself: source, time and controller from the document, then
      presences, conflict pairing and the rebuild. */
  function Update(s: System, d: SystemDoc, lk: Lookups): (r: System)
    ensures r == s.(source := EbgsSource, updated := d.updatedAt, controllingFaction := d.controlling,
                    factions := r.factions)
    ensures forall i :: 0 <= i < |r.factions| ==> r.factions[i].source == EbgsSource
    ensures forall i, j :: 0 <= i < j < |r.factions| ==> r.factions[i].influence >= r.factions[j].influence
  {
    var s2 := Gathered(s, d, lk);
    s2.(factions := Rebuild(ApplyConflicts(s2.factions, d.conflicts)))
  }

  /** The system after the document's fields and presences are taken in,
      before conflict pairing and the rebuild. */
  function Gathered(s: System, d: SystemDoc, lk: Lookups): System
  {
    AddPositive(s.(source := EbgsSource, updated := d.updatedAt, controllingFaction := d.controlling),
      PresencesOf(d.factions, lk), lk.homeSystem)
  }

  /** Every presence after an update carries the name of a gathered one. */
  lemma UpdatedFromGathered(s: System, d: SystemDoc, lk: Lookups, i: nat)
    requires i < |Update(s, d, lk).factions|
    ensures exists m :: (0 <= m < |Gathered(s, d, lk).factions|
      && Gathered(s, d, lk).factions[m].name == Update(s, d, lk).factions[i].name)
  {
    var s2 := Gathered(s, d, lk);
    var fs := ApplyConflicts(s2.factions, d.conflicts);
    assert Update(s, d, lk).factions == Rebuild(fs);
    var q := Update(s, d, lk).factions[i];
    assert q in fs;
    var m :| 0 <= m < |fs| && fs[m] == q;
    assert s2.factions[m].name == q.name;
  }

  /** `LiveSystemDetails` after the fetch; `doc` is None when the fetch failed.
      The system changes only when the document is newer or the call is forced. */
  function LiveSystemDetails(s: System, doc: Option<SystemDoc>, forced: bool, lk: Lookups): (r: System)
    ensures r != s ==> doc.Some? && (doc.value.updatedAt > s.updated || forced)
    ensures doc.Some? && (doc.value.updatedAt > s.updated || forced) ==>
      r == Update(s, doc.value, lk) && r.updated == doc.value.updatedAt && r.source == EbgsSource
    ensures r.name == s.name && r.x == s.x && r.y == s.y && r.z == s.z
  {
    match doc
    case None => s
    case Some(d) => if d.updatedAt > s.updated || forced then Update(s, d, lk) else s
  }

  /** With the feed's source tag on new presences, every faction document
      with positive rounded influence is present after an update. */
  lemma UpdatedHasPresence(s: System, d: SystemDoc, lk: Lookups, j: nat)
    requires j < |d.factions| && Centi(d.factions[j].influence) > 0
    requires lk.presenceSource == EbgsSource
    ensures IsFactionPresent(Update(s, d, lk), d.factions[j].name)
  {
    var s1 := s.(source := EbgsSource, updated := d.updatedAt, controllingFaction := d.controlling);
    var ps := PresencesOf(d.factions, lk);
    var s2 := Gathered(s, d, lk);
    assert s2 == AddPositive(s1, ps, lk.homeSystem);
    AddPositiveSourced(s1, ps, lk.homeSystem, j, EbgsSource);
    var k := FirstNamed(s2.factions, d.factions[j].name).value;
    var fs := ApplyConflicts(s2.factions, d.conflicts);
    assert fs[k].name == d.factions[j].name && fs[k].source == EbgsSource;
    assert Update(s, d, lk).factions == Rebuild(fs);
    assert fs[k] in Rebuild(fs);
  }

  /** Only faction documents with positive rounded influence contribute: every
      presence after an update was in the system before or is named after such
      a document. */
  lemma UpdatedOnlyPositive(s: System, d: SystemDoc, lk: Lookups, i: nat)
    requires i < |Update(s, d, lk).factions|
    ensures var q := Update(s, d, lk).factions[i];
      (exists k :: 0 <= k < |s.factions| && s.factions[k].name == q.name)
      || exists j :: 0 <= j < |d.factions| && Centi(d.factions[j].influence) > 0 && d.factions[j].name == q.name
  {
    UpdatedFromGathered(s, d, lk, i);
    var m :| 0 <= m < |Gathered(s, d, lk).factions|
      && Gathered(s, d, lk).factions[m].name == Update(s, d, lk).factions[i].name;
    GatheredOnlyPositive(s, d, lk, m);
  }

  /** The gathering step adds presences only for positive documents. */
  lemma GatheredOnlyPositive(s: System, d: SystemDoc, lk: Lookups, m: nat)
    requires m < |Gathered(s, d, lk).factions|
    ensures var n := Gathered(s, d, lk).factions[m].name;
      (exists k :: 0 <= k < |s.factions| && s.factions[k].name == n)
      || exists j :: 0 <= j < |d.factions| && Centi(d.factions[j].influence) > 0 && d.factions[j].name == n
  {
    var s1 := s.(source := EbgsSource, updated := d.updatedAt, controllingFaction := d.controlling);
    var ps := PresencesOf(d.factions, lk);
    var q := AddPositive(s1, ps, lk.homeSystem).factions[m];
    AddPositiveOnlyPositive(s1, ps, lk.homeSystem, m);
    if q in s1.factions {
      var k :| 0 <= k < |s.factions| && s.factions[k] == q;
    } else {
      var j :| 0 <= j < |ps| && ps[j].influence > 0 && q == ps[j].(isNative := q.isNative);
      assert d.factions[j].name == q.name;
    }
  }



  // ---------------------------------------------------------- RefreshFaction

  /** One entry of the faction's system list: name, feed time, and whether
      the faction is in a conflict there. */
  datatype FactionSystem = FactionSystem(name: string, updated: int, inConflict: bool)

  /** Same names, position by position. */
  predicate SameNames(a: seq<System>, b: seq<System>)
  {
    |a| == |b| && forall j :: 0 <= j < |a| ==> a[j].name == b[j].name
  }

  /** The refresh-or-touch decision for one listed system: a fresh fetch
      (forced when in conflict) when the stored data is older or there is a
      conflict, otherwise only the stored time is overwritten. A name the
      bubble does not know is a fault. `fetch` stands for the query by name. */
  function RefreshOne(bubble: seq<System>, e: FactionSystem,
                      fetch: string -> Option<SystemDoc>, lk: Lookups): (r: Result<seq<System>>)
    ensures r.Err? <==> GetSystemIndex(bubble, e.name).None?
    ensures r.Err? ==> r.fault == UnknownSystem(e.name)
    ensures r.Ok? ==> SameNames(r.value, bubble)
    ensures r.Ok? ==> var i := GetSystemIndex(bubble, e.name).value;
      && (forall j :: 0 <= j < |bubble| && j != i ==> r.value[j] == bubble[j])
      && (bubble[i].updated < e.updated || e.inConflict ==>
            r.value[i] == LiveSystemDetails(bubble[i], fetch(bubble[i].name), e.inConflict, lk))
      && (!(bubble[i].updated < e.updated || e.inConflict) ==> r.value[i] == bubble[i].(updated := e.updated))
  {
    match GetSystemIndex(bubble, e.name)
    case None => Err(UnknownSystem(e.name))
    case Some(i) =>
      var s := bubble[i];
      var s' := if s.updated < e.updated || e.inConflict
        then LiveSystemDetails(s, fetch(s.name), e.inConflict, lk)
        else s.(updated := e.updated);
      Ok(bubble[i := s'])
  }

  /** Without new data or a conflict the stored time never moves forward:
      the touch writes a time no later than the one already stored. */
  lemma TouchNeverAdvances(bubble: seq<System>, e: FactionSystem,
                           fetch: string -> Option<SystemDoc>, lk: Lookups)
    requires RefreshOne(bubble, e, fetch, lk).Ok?
    ensures var i := GetSystemIndex(bubble, e.name).value;
      !e.inConflict && e.updated <= bubble[i].updated ==>
        RefreshOne(bubble, e, fetch, lk).value[i].updated == e.updated <= bubble[i].updated
  {
  }

  /** A system is refetched only when its stored time is older than the
      listed one or it is in conflict, and a fetch changes it only when the
      fetched document is newer than the stored time or the call is forced. */
  lemma RefreshChangesOnlyWhenDue(bubble: seq<System>, e: FactionSystem,
                                  fetch: string -> Option<SystemDoc>, lk: Lookups)
    requires RefreshOne(bubble, e, fetch, lk).Ok?
    ensures var i := GetSystemIndex(bubble, e.name).value;
      var s, s' := bubble[i], RefreshOne(bubble, e, fetch, lk).value[i];
      s' != s ==> ((s.updated < e.updated && fetch(s.name).Some? && fetch(s.name).value.updatedAt > s.updated)
        || (e.inConflict && fetch(s.name).Some?)
        || (!e.inConflict && e.updated < s.updated))
  {
  }

  /** Lookup by name sees only the names. */
  lemma {:induction false} GetSystemIndexByNames(a: seq<System>, b: seq<System>, name: string)
    requires SameNames(a, b)
    ensures GetSystemIndex(a, name) == GetSystemIndex(b, name)
    decreases |a|
  {
    if a != [] {
      GetSystemIndexByNames(a[1..], b[1..], name);
    }
  }

  /** Lookup by name sees only the names, for every name at once. */
  lemma SameIndices(a: seq<System>, b: seq<System>)
    requires SameNames(a, b)
    ensures forall name :: GetSystemIndex(a, name) == GetSystemIndex(b, name)
  {
    forall name ensures GetSystemIndex(a, name) == GetSystemIndex(b, name) {
      GetSystemIndexByNames(a, b, name);
    }
  }

  /** No listed name finds the system at position `i`. */
  predicate NotListed(bubble: seq<System>, listed: seq<FactionSystem>, i: nat)
  {
    forall k :: 0 <= k < |listed| ==> GetSystemIndex(bubble, listed[k].name) != Some(i)
  }

  /** `RefreshFaction` over the listed systems, in order; the first unknown
      name aborts the run. A system that no listed name finds is left as it
      was. */
  function RefreshFaction(bubble: seq<System>, listed: seq<FactionSystem>,
                          fetch: string -> Option<SystemDoc>, lk: Lookups): (r: Result<seq<System>>)
    ensures r.Ok? ==> SameNames(r.value, bubble)
    ensures r.Ok? ==> forall i :: 0 <= i < |bubble| && NotListed(bubble, listed, i) ==> r.value[i] == bubble[i]
    decreases |listed|
  {
    if listed == [] then Ok(bubble)
    else match RefreshOne(bubble, listed[0], fetch, lk)
      case Err(f) => Err(f)
      case Ok(b) =>
        SameIndices(b, bubble);
        assert forall i :: 0 <= i < |bubble| && NotListed(bubble, listed, i) ==>
          NotListed(b, listed[1..], i) && b[i] == bubble[i];
        RefreshFaction(b, listed[1..], fetch, lk)
  }

  /** A listed system in conflict is refetched with the forced flag: when no
      later entry finds the same system, the run ends with that fetch, made
      from the system as stored before it (`s0`), so a fetched document
      always lands, with its time and the feed's source tag. */
  lemma {:induction false} RefreshFactionForcesConflict(bubble: seq<System>, listed: seq<FactionSystem>,
                                                       fetch: string -> Option<SystemDoc>, lk: Lookups, k: nat)
    returns (s0: System)
    requires RefreshFaction(bubble, listed, fetch, lk).Ok?
    requires k < |listed| && listed[k].inConflict && GetSystemIndex(bubble, listed[k].name).Some?
    requires forall m :: k < m < |listed| ==>
      GetSystemIndex(bubble, listed[m].name) != GetSystemIndex(bubble, listed[k].name)
    ensures var i := GetSystemIndex(bubble, listed[k].name).value;
      s0.name == bubble[i].name
      && RefreshFaction(bubble, listed, fetch, lk).value[i] == LiveSystemDetails(s0, fetch(s0.name), true, lk)
    decreases |listed|
  {
    var i := GetSystemIndex(bubble, listed[k].name).value;
    var b := RefreshOne(bubble, listed[0], fetch, lk).value;
    var rest := listed[1..];
    var r := RefreshFaction(bubble, listed, fetch, lk).value;
    assert r == RefreshFaction(b, rest, fetch, lk).value;
    if k == 0 {
      forall m | 0 <= m < |rest| ensures GetSystemIndex(b, rest[m].name) != Some(i) {
        assert rest[m] == listed[m + 1];
        GetSystemIndexByNames(b, bubble, rest[m].name);
      }
      assert NotListed(b, rest, i);
      s0 := bubble[i];
    } else {
      assert rest[k - 1] == listed[k];
      GetSystemIndexByNames(b, bubble, listed[k].name);
      forall m | k - 1 < m < |rest|
        ensures GetSystemIndex(b, rest[m].name) != GetSystemIndex(b, rest[k - 1].name)
      {
        assert rest[m] == listed[m + 1];
        GetSystemIndexByNames(b, bubble, rest[m].name);
      }
      s0 := RefreshFactionForcesConflict(b, rest, fetch, lk, k - 1);
    }
  }

  /** Some listed name matches no system of the bubble. */
  predicate SomeUnknown(bubble: seq<System>, listed: seq<FactionSystem>)
  {
    exists k :: 0 <= k < |listed| && GetSystemIndex(bubble, listed[k].name).None?
  }

  /** `f` is the unknown-system fault for one of the listed names. */
  predicate ListedFault(f: Fault, listed: seq<FactionSystem>)
  {
    exists k :: 0 <= k < |listed| && f == UnknownSystem(listed[k].name)
  }

  /** Unknown names are judged by names alone, and the first entry splits off. */
  lemma SomeUnknownStep(bubble: seq<System>, b: seq<System>, listed: seq<FactionSystem>)
    requires listed != [] && SameNames(b, bubble)
    ensures SomeUnknown(bubble, listed) <==>
      GetSystemIndex(bubble, listed[0].name).None? || SomeUnknown(b, listed[1..])
  {
    forall k | 0 <= k < |listed[1..]|
      ensures GetSystemIndex(b, listed[1..][k].name) == GetSystemIndex(bubble, listed[k + 1].name)
    {
      GetSystemIndexByNames(b, bubble, listed[k + 1].name);
    }
    if SomeUnknown(bubble, listed) && GetSystemIndex(bubble, listed[0].name).Some? {
      var k :| 0 <= k < |listed| && GetSystemIndex(bubble, listed[k].name).None?;
      assert k > 0 && GetSystemIndex(b, listed[1..][k - 1].name).None?;
    }
    if SomeUnknown(b, listed[1..]) {
      var k :| 0 <= k < |listed[1..]| && GetSystemIndex(b, listed[1..][k].name).None?;
      assert GetSystemIndex(bubble, listed[k + 1].name).None?;
    }
  }

  /** The run fails exactly when some listed name matches no system of the
      bubble, and then with that fault. */
  lemma {:induction false} RefreshFactionFails(bubble: seq<System>, listed: seq<FactionSystem>,
                                              fetch: string -> Option<SystemDoc>, lk: Lookups)
    ensures RefreshFaction(bubble, listed, fetch, lk).Err? <==> SomeUnknown(bubble, listed)
    ensures RefreshFaction(bubble, listed, fetch, lk).Err? ==>
      ListedFault(RefreshFaction(bubble, listed, fetch, lk).fault, listed)
    decreases |listed|
  {
    if listed != [] {
      var r := RefreshFaction(bubble, listed, fetch, lk);
      var step := RefreshOne(bubble, listed[0], fetch, lk);
      if step.Ok? {
        var b := step.value;
        assert r == RefreshFaction(b, listed[1..], fetch, lk);
        RefreshFactionFails(b, listed[1..], fetch, lk);
        SomeUnknownStep(bubble, b, listed);
        if r.Err? {
          var k :| 0 <= k < |listed[1..]| && r.fault == UnknownSystem(listed[1..][k].name);
          assert listed[1..][k] == listed[k + 1];
        }
      } else {
        assert r == Err(UnknownSystem(listed[0].name));
        assert GetSystemIndex(bubble, listed[0].name).None?;
      }
    }
  }
}
