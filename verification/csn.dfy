/** The message priority engine of CSN.py: the rule evaluators, the
    per-system precedence chain, the final priority sort and the projection
    of patrol messages. Lower priority numbers are more urgent. */
module Csn {
  import opened Wrappers
  import opened Seqs
  import opened Strings
  import opened DataClasses

  /** Influence thresholds, in hundredths of a percent (15% and 29%). */
  const SafeGap := 1500
  const IgnoreGap := 2900
  const SecondsPerDay := 86400
  /** A system is "full" when it holds more than this many factions. */
  const FullSystem := 6
  /** Default number of projected expansion targets scanned for an invasion. */
  const InvasionCycles := 5
  /** Default number of fill-in suggestions. */
  const FillInCount := 3

  datatype OverrideKind = Normal | Override | Peacetime

  /** The text of a message, kept as the values its format string renders. */
  datatype Text =
    | Manual(line: string)
    | StaleData(ageDays: int)
    | Threat(threat: string, progress: int)
    | SupportRetreat(faction: string, influence: int)
    | RetreatSummary(systems: seq<string>)
    | Invasion(controller: string, description: string, target: string, influence: int, rank: int)
    | FillIn(faction: string, rival: string, gap: int)
    | Conflict(state: State)
    | GainControl(faction: string, gapFromTop: int)
    | GapWarning(faction: string, rival: string, gap: int)

  /** `emoji` is the key of the icon table entry. */
  datatype Message = Message(
    systemName: string, priority: int, text: Text, emoji: string,
    override: OverrideKind, isPatrol: bool)

  /** Run-wide settings and the values supplied by classes that are not part
      of this model. */
  datatype Config = Config(
    myFaction: string,
    now: int,                          // current time, seconds
    simpleRange: real,                 // the bubble's SIMPLERANGE
    paranoiaLevel: int,                // invasionparanoialevel, hundredths of a percent
    influence: System -> int,          // System.influence, hundredths of a percent
    controllerIsPlayer: System -> bool, // system.controllingdetails.isPlayer
    isIgnored: string -> bool,         // CSNSettings.isIgnored
    dist: real -> int,                 // displayed distance from a squared distance
    patrolDefault: bool)               // isPatrol of a Message built without one

  /** A message built by the engine itself (no override kind). */
  function Internal(cfg: Config, name: string, priority: int, text: Text, emoji: string): (m: Message)
    ensures m.systemName == name && m.priority == priority && m.text == text
    ensures m.override == Normal
  {
    Message(name, priority, text, emoji, Normal, cfg.patrolDefault)
  }

  // ---------------------------------------------------------------- stale data

  /** Whole days since the system was last updated (timedelta.days floors). */
  function AgeDays(s: System, cfg: Config): int
  {
    (cfg.now - s.updated) / SecondsPerDay
  }

  /** `age > influence / 10` with influence in percent, i.e. in hundredths:
      age * 1000 > influence. */
  predicate IsStale(s: System, cfg: Config)
  {
    AgeDays(s, cfg) * 1000 > cfg.influence(s)
  }

  function StaleMessage(s: System, cfg: Config): (m: Message)
    ensures m.systemName == s.name && m.priority == 11 && m.override == Normal
    ensures m.text == StaleData(AgeDays(s, cfg)) && m.emoji == "data"
  {
    Internal(cfg, s.name, 11, StaleData(AgeDays(s, cfg)), "data")
  }

  function StalePred(cfg: Config): System -> bool { (s: System) => IsStale(s, cfg) }

  /** The message comes from a stale system of `mine`. */
  predicate FromStale(m: Message, mine: seq<System>, cfg: Config)
  {
    exists j :: 0 <= j < |mine| && IsStale(mine[j], cfg) && m == StaleMessage(mine[j], cfg)
  }

  /** `StaleDataMessages`: one priority-11 message per stale system, in order. */
  function StaleDataMessages(mine: seq<System>, cfg: Config): (r: seq<Message>)
    ensures |r| == Count(mine, StalePred(cfg))
    ensures forall j :: 0 <= j < |mine| && IsStale(mine[j], cfg) ==> StaleMessage(mine[j], cfg) in r
    ensures forall i :: 0 <= i < |r| ==> FromStale(r[i], mine, cfg)
  {
    var f := (s: System) => StaleMessage(s, cfg);
    MapFilterMembers(mine, StalePred(cfg), f);
    var r := Map(Filter(mine, StalePred(cfg)), f);
    forall j | 0 <= j < |mine| && IsStale(mine[j], cfg) ensures StaleMessage(mine[j], cfg) in r {
      assert StalePred(cfg)(mine[j]);
    }
    forall i | 0 <= i < |r| ensures FromStale(r[i], mine, cfg) {
      var j :| 0 <= j < |mine| && StalePred(cfg)(mine[j]) && r[i] == f(mine[j]);
    }
    r
  }

  /** With 50% influence the threshold is 5 days. */
  lemma StaleExample(s: System, cfg: Config)
    requires cfg.influence(s) == 5000
    ensures cfg.now - s.updated == 31 * SecondsPerDay ==> IsStale(s, cfg)
    ensures cfg.now - s.updated == 4 * SecondsPerDay ==> !IsStale(s, cfg)
    ensures cfg.now - s.updated == 5 * SecondsPerDay + 3600 ==> !IsStale(s, cfg)
  {
  }

  // ----------------------------------------------------------- threat progress

  datatype ThreatEntry = ThreatEntry(systemName: string, threat: string, progress: int)

  /** The first feed entry for a system name, as `next(...)` finds it. */
  function FirstThreat(feed: seq<ThreatEntry>, name: string): (r: Option<ThreatEntry>)
    ensures r.None? <==> forall i :: 0 <= i < |feed| ==> feed[i].systemName != name
    ensures r.Some? ==> exists i :: (0 <= i < |feed| && feed[i] == r.value && r.value.systemName == name
      && forall j :: 0 <= j < i ==> feed[j].systemName != name)
    decreases |feed|
  {
    if feed == [] then None
    else if feed[0].systemName == name then Some(feed[0])
    else
      var r := FirstThreat(feed[1..], name);
      assert r.Some? ==> exists i :: (0 <= i < |feed| && feed[i] == r.value && r.value.systemName == name
        && forall j :: 0 <= j < i ==> feed[j].systemName != name) by {
        if r.Some? {
          var i :| (0 <= i < |feed[1..]| && feed[1..][i] == r.value && r.value.systemName == name
            && forall j :: 0 <= j < i ==> feed[1..][j].systemName != name);
          assert feed[i + 1] == r.value;
          assert forall j :: 0 <= j < i + 1 ==> feed[j].systemName != name by {
            forall j | 0 <= j < i + 1 ensures feed[j].systemName != name {
              if j > 0 { assert feed[j] == feed[1..][j - 1]; }
            }
          }
        }
      }
      r
  }

  predicate ThreatActive(s: System, feed: seq<ThreatEntry>)
  {
    var e := FirstThreat(feed, s.name);
    e.Some? && e.value.progress < 100
  }

  function ThreatMessage(s: System, feed: seq<ThreatEntry>, cfg: Config): (m: Message)
    requires ThreatActive(s, feed)
    ensures m.systemName == s.name && m.priority == 9 && m.override == Normal
    ensures exists e :: (e in feed && e.systemName == s.name && e.progress < 100
      && m.text == Threat(e.threat, e.progress))
    ensures m.text == Threat(FirstThreat(feed, s.name).value.threat, FirstThreat(feed, s.name).value.progress)
  {
    var e := FirstThreat(feed, s.name).value;
    Internal(cfg, s.name, 9, Threat(e.threat, e.progress), "thargoid1")
  }

  function ThreatPred(feed: seq<ThreatEntry>): System -> bool { (s: System) => ThreatActive(s, feed) }

  /** The message comes from a system of `mine` with a live threat. */
  predicate FromThreat(m: Message, mine: seq<System>, feed: seq<ThreatEntry>, cfg: Config)
  {
    exists j :: 0 <= j < |mine| && ThreatActive(mine[j], feed) && m == ThreatMessage(mine[j], feed, cfg)
  }

  /** `DCOHThargoidMessages` with the threat summary as an input: a priority-9
      message for each system whose first feed entry is below 100% progress. */
  function ThreatMessages(mine: seq<System>, feed: seq<ThreatEntry>, cfg: Config): (r: seq<Message>)
    ensures |r| == Count(mine, ThreatPred(feed))
    ensures forall j :: 0 <= j < |mine| && ThreatActive(mine[j], feed) ==> ThreatMessage(mine[j], feed, cfg) in r
    ensures forall i :: 0 <= i < |r| ==> FromThreat(r[i], mine, feed, cfg)
  {
    var f := (s: System) requires ThreatActive(s, feed) => ThreatMessage(s, feed, cfg);
    MapFilterMembers(mine, ThreatPred(feed), f);
    var r := Map(Filter(mine, ThreatPred(feed)), f);
    forall j | 0 <= j < |mine| && ThreatActive(mine[j], feed) ensures ThreatMessage(mine[j], feed, cfg) in r {
      assert ThreatPred(feed)(mine[j]);
    }
    forall i | 0 <= i < |r| ensures FromThreat(r[i], mine, feed, cfg) {
      var j :| 0 <= j < |mine| && ThreatPred(feed)(mine[j]) && r[i] == f(mine[j]);
    }
    r
  }

  // -------------------------------------------------------- retreat prevention

  /** A state that threatens a retreat: named "retreat" in any case, not recovering. */
  predicate LiveRetreat(st: State)
  {
    Lower(st.name) == "retreat" && st.phase != Recovering
  }

  predicate HasLiveRetreat(p: Presence)
  {
    exists k :: 0 <= k < |p.states| && LiveRetreat(p.states[k])
  }

  /** Some system within simple cube range is not controlled by my faction. */
  predicate HasForeignNeighbour(s: System, bubble: seq<System>, cfg: Config)
  {
    exists j :: 0 <= j < |bubble| && CubeDistance(s, bubble[j]) <= cfg.simpleRange
      && bubble[j].controllingFaction != cfg.myFaction
  }

  predicate SomeForeign(near: seq<System>, cfg: Config)
  {
    exists i :: 0 <= i < |near| && near[i].controllingFaction != cfg.myFaction
  }

  /** The retreat rule asks `cube_systems` for the neighbours (no exclusion)
      and looks for one not controlled by my faction: the same test. */
  lemma ForeignNeighbourMeaning(s: System, bubble: seq<System>, cfg: Config)
    ensures HasForeignNeighbour(s, bubble, cfg) <==>
      SomeForeign(CubeSystems(bubble, s, cfg.simpleRange, "", cfg.dist), cfg)
  {
    var near := CubeSystems(bubble, s, cfg.simpleRange, "", cfg.dist);
    if HasForeignNeighbour(s, bubble, cfg) {
      var j :| 0 <= j < |bubble| && CubeDistance(s, bubble[j]) <= cfg.simpleRange
        && bubble[j].controllingFaction != cfg.myFaction;
      assert InCube(s, cfg.simpleRange, "", bubble[j]);
      assert bubble[j] in near;
      var i :| 0 <= i < |near| && near[i] == bubble[j];
      assert SomeForeign(near, cfg);
    }
    if SomeForeign(near, cfg) {
      var i :| 0 <= i < |near| && near[i].controllingFaction != cfg.myFaction;
      assert near[i] in bubble;
      var j :| 0 <= j < |bubble| && bubble[j] == near[i];
      assert HasForeignNeighbour(s, bubble, cfg);
    }
  }

  /** Mine, full, and with a foreign system in simple range. */
  predicate RetreatWatch(s: System, bubble: seq<System>, cfg: Config)
  {
    s.controllingFaction == cfg.myFaction && |s.factions| > FullSystem
      && HasForeignNeighbour(s, bubble, cfg)
  }

  function SupportMessage(s: System, p: Presence, cfg: Config): (m: Message)
    ensures m.systemName == s.name && m.priority == 7 && m.override == Normal
    ensures m.text == SupportRetreat(p.name, p.influence)
  {
    Internal(cfg, s.name, 7, SupportRetreat(p.name, p.influence), "override")
  }

  /** The message supports a retreating presence of `ps`. */
  predicate SupportsOneOf(m: Message, s: System, ps: seq<Presence>, cfg: Config)
  {
    exists k :: 0 <= k < |ps| && HasLiveRetreat(ps[k]) && m == SupportMessage(s, ps[k], cfg)
  }

  /** One support message per presence of `ps` with a live retreat state. */
  function SupportIn(s: System, ps: seq<Presence>, cfg: Config): (r: seq<Message>)
    ensures |r| <= |ps|
    ensures forall i :: 0 <= i < |r| ==> r[i].priority == 7 && r[i].systemName == s.name
    decreases |ps|
  {
    if ps == [] then []
    else (if HasLiveRetreat(ps[0]) then [SupportMessage(s, ps[0], cfg)] else []) + SupportIn(s, ps[1..], cfg)
  }

  /** Every support message is for a presence with a live retreat. */
  lemma {:induction false} SupportInSound(s: System, ps: seq<Presence>, cfg: Config, i: nat)
    requires i < |SupportIn(s, ps, cfg)|
    ensures SupportsOneOf(SupportIn(s, ps, cfg)[i], s, ps, cfg)
    decreases |ps|
  {
    var head := if HasLiveRetreat(ps[0]) then [SupportMessage(s, ps[0], cfg)] else [];
    var rest := SupportIn(s, ps[1..], cfg);
    assert SupportIn(s, ps, cfg) == head + rest;
    if i < |head| {
      assert (head + rest)[i] == SupportMessage(s, ps[0], cfg) && HasLiveRetreat(ps[0]);
    } else {
      assert (head + rest)[i] == rest[i - |head|];
      SupportInSound(s, ps[1..], cfg, i - |head|);
      var k :| 0 <= k < |ps[1..]| && HasLiveRetreat(ps[1..][k]) && rest[i - |head|] == SupportMessage(s, ps[1..][k], cfg);
      assert ps[k + 1] == ps[1..][k];
      assert 0 <= k + 1 < |ps| && HasLiveRetreat(ps[k + 1]) && (head + rest)[i] == SupportMessage(s, ps[k + 1], cfg);
    }
  }

  /** Every presence with a live retreat gets its support message. */
  lemma {:induction false} SupportInComplete(s: System, ps: seq<Presence>, cfg: Config, k: nat)
    requires k < |ps| && HasLiveRetreat(ps[k])
    ensures SupportMessage(s, ps[k], cfg) in SupportIn(s, ps, cfg)
    decreases |ps|
  {
    var head := if HasLiveRetreat(ps[0]) then [SupportMessage(s, ps[0], cfg)] else [];
    var rest := SupportIn(s, ps[1..], cfg);
    assert SupportIn(s, ps, cfg) == head + rest;
    if k > 0 {
      assert ps[k] == ps[1..][k - 1];
      SupportInComplete(s, ps[1..], cfg, k - 1);
    }
  }

  lemma {:induction false} SupportInCount(s: System, ps: seq<Presence>, cfg: Config)
    ensures |SupportIn(s, ps, cfg)| == Count(ps, (p: Presence) => HasLiveRetreat(p))
    decreases |ps|
  {
    if ps != [] {
      SupportInCount(s, ps[1..], cfg);
    }
  }

  /** Without a retreating presence there is nothing to support. */
  lemma {:induction false} SupportInNone(s: System, ps: seq<Presence>, cfg: Config)
    requires forall k :: 0 <= k < |ps| ==> !HasLiveRetreat(ps[k])
    ensures SupportIn(s, ps, cfg) == []
    decreases |ps|
  {
    if ps != [] {
      assert forall k :: 0 <= k < |ps[1..]| ==> ps[1..][k] == ps[k + 1];
      SupportInNone(s, ps[1..], cfg);
    }
  }

  /** `RetreatWatch` as a function value, so that proofs about the support
      messages need not look inside the neighbour search. */
  function Watched(bubble: seq<System>, cfg: Config): System -> bool
  {
    (s: System) => RetreatWatch(s, bubble, cfg)
  }

  /** The message supports a retreating faction of a watched system of `mine`. */
  predicate FromRetreat(m: Message, mine: seq<System>, watched: System -> bool, cfg: Config)
  {
    exists j :: 0 <= j < |mine| && watched(mine[j])
      && SupportsOneOf(m, mine[j], mine[j].factions, cfg)
  }

  /** The priority-7 part of `RetreatMessages`, for the systems `watched` selects. */
  function RetreatSupport(mine: seq<System>, watched: System -> bool, cfg: Config): (r: seq<Message>)
    ensures forall i :: 0 <= i < |r| ==> r[i].priority == 7
    decreases |mine|
  {
    if mine == [] then []
    else
      (if watched(mine[0]) then SupportIn(mine[0], mine[0].factions, cfg) else [])
      + RetreatSupport(mine[1..], watched, cfg)
  }

  /** Every support message is for a retreating faction of a watched system. */
  lemma {:induction false} RetreatSupportSound(mine: seq<System>, watched: System -> bool, cfg: Config, i: nat)
    requires i < |RetreatSupport(mine, watched, cfg)|
    ensures FromRetreat(RetreatSupport(mine, watched, cfg)[i], mine, watched, cfg)
    decreases |mine|
  {
    var here := if watched(mine[0]) then SupportIn(mine[0], mine[0].factions, cfg) else [];
    var rest := RetreatSupport(mine[1..], watched, cfg);
    var r := RetreatSupport(mine, watched, cfg);
    assert r == here + rest;
    if i < |here| {
      assert r[i] == here[i];
      SupportInSound(mine[0], mine[0].factions, cfg, i);
      assert watched(mine[0]) && SupportsOneOf(r[i], mine[0], mine[0].factions, cfg);
    } else {
      assert r[i] == rest[i - |here|];
      RetreatSupportSound(mine[1..], watched, cfg, i - |here|);
      var j :| 0 <= j < |mine[1..]| && watched(mine[1..][j])
        && SupportsOneOf(rest[i - |here|], mine[1..][j], mine[1..][j].factions, cfg);
      assert mine[j + 1] == mine[1..][j];
      assert 0 <= j + 1 < |mine| && watched(mine[j + 1]) && SupportsOneOf(r[i], mine[j + 1], mine[j + 1].factions, cfg);
    }
  }

  /** Every retreating faction of a watched system gets a support message. */
  lemma {:induction false} RetreatSupportComplete(mine: seq<System>, watched: System -> bool, cfg: Config, j: nat, k: nat)
    requires j < |mine| && watched(mine[j])
    requires k < |mine[j].factions| && HasLiveRetreat(mine[j].factions[k])
    ensures SupportMessage(mine[j], mine[j].factions[k], cfg) in RetreatSupport(mine, watched, cfg)
    decreases |mine|
  {
    var here := if watched(mine[0]) then SupportIn(mine[0], mine[0].factions, cfg) else [];
    if j > 0 {
      assert mine[j] == mine[1..][j - 1];
      RetreatSupportComplete(mine[1..], watched, cfg, j - 1, k);
    } else {
      SupportInComplete(mine[j], mine[j].factions, cfg, k);
    }
  }

  function SystemNames(ms: seq<Message>): (r: seq<string>)
    ensures |r| == |ms|
    ensures forall i :: 0 <= i < |ms| ==> r[i] == ms[i].systemName
  {
    if ms == [] then [] else [ms[0].systemName] + SystemNames(ms[1..])
  }

  const RetreatSummaryName := "Retreats Detected in"

  /** `RetreatMessages`: the support messages followed, when there is at
      least one, by a priority-25 summary naming the system of each. */
  function RetreatMessages(mine: seq<System>, bubble: seq<System>, cfg: Config): (r: seq<Message>)
    ensures var support := RetreatSupport(mine, Watched(bubble, cfg), cfg);
      && (support == [] <==> r == [])
      && (support != [] ==> (|r| == |support| + 1 && r[..|support|] == support
          && r[|support|].priority == 25 && r[|support|].systemName == RetreatSummaryName
          && r[|support|].text == RetreatSummary(SystemNames(support))))
  {
    var support := RetreatSupport(mine, Watched(bubble, cfg), cfg);
    if support == [] then []
    else support + [Internal(cfg, RetreatSummaryName, 25, RetreatSummary(SystemNames(support)), "data")]
  }

  /** A watched system with one retreating faction gives
      exactly one support message and a summary naming that system once. */
  lemma RetreatExample(s: System, bubble: seq<System>, cfg: Config)
    requires RetreatWatch(s, bubble, cfg)
    requires HasLiveRetreat(s.factions[0])
    requires forall k :: 1 <= k < |s.factions| ==> !HasLiveRetreat(s.factions[k])
    ensures var r := RetreatMessages([s], bubble, cfg);
      |r| == 2 && r[0] == SupportMessage(s, s.factions[0], cfg)
      && r[1].priority == 25 && r[1].text == RetreatSummary([s.name])
  {
    var rest := SupportIn(s, s.factions[1..], cfg);
    SupportInNone(s, s.factions[1..], cfg);
    var w := Watched(bubble, cfg);
    assert w(s);
    var support := RetreatSupport([s], w, cfg);
    assert SupportIn(s, s.factions, cfg) == [SupportMessage(s, s.factions[0], cfg)] + rest;
    assert [s][1..] == [];
    assert support == SupportIn(s, s.factions, cfg) + RetreatSupport([], w, cfg);
    assert SystemNames(support) == [s.name];
  }

  // ------------------------------------------------------------------ invasion

  /** A system a player faction may invade from: not one of mine, with a
      projected expansion, above the paranoia level, controlled by a
      non-ignored player faction. */
  predicate InvasionSource(s: System, mine: seq<System>, cfg: Config)
  {
    s !in mine && s.nextExpansion.Some? && cfg.influence(s) > cfg.paranoiaLevel
      && cfg.controllerIsPlayer(s) && !cfg.isIgnored(s.controllingFaction)
  }

  /** Index of the first target aimed at `faction`. */
  function FirstTargetFor(ts: seq<ExpansionTarget>, faction: string): (r: Option<nat>)
    ensures r.None? <==> forall i :: 0 <= i < |ts| ==> ts[i].faction != faction
    ensures r.Some? ==> (r.value < |ts| && ts[r.value].faction == faction
      && forall i :: 0 <= i < r.value ==> ts[i].faction != faction)
    decreases |ts|
  {
    if ts == [] then None
    else if ts[0].faction == faction then Some(0)
    else match FirstTargetFor(ts[1..], faction)
      case None => None
      case Some(i) => Some(i + 1)
  }

  /** The system is an invasion source and my faction is among its leading
      `cycles` expansion targets. */
  predicate Invades(s: System, mine: seq<System>, cfg: Config, cycles: int)
  {
    InvasionSource(s, mine, cfg) && FirstTargetFor(PrefixSlice(s.expansionTargets, cycles), cfg.myFaction).Some?
  }

  lemma InvadesMeaning(s: System, mine: seq<System>, cfg: Config, cycles: int)
    ensures Invades(s, mine, cfg, cycles) <==> (InvasionSource(s, mine, cfg)
      && exists i :: (0 <= i < |PrefixSlice(s.expansionTargets, cycles)|
         && s.expansionTargets[i].faction == cfg.myFaction))
  {
    var ts := PrefixSlice(s.expansionTargets, cycles);
    if exists i :: 0 <= i < |ts| && s.expansionTargets[i].faction == cfg.myFaction {
      var i :| 0 <= i < |ts| && s.expansionTargets[i].faction == cfg.myFaction;
      assert ts[i] == s.expansionTargets[i];
    }
  }

  /** The invasion message for one system: for the first of the leading
      `cycles` targets that is my faction, ranked from 1. */
  function InvasionMessage(s: System, mine: seq<System>, cfg: Config, cycles: int): (m: Message)
    requires Invades(s, mine, cfg, cycles)
    ensures m.priority == 10 && m.systemName == s.name && m.override == Normal
    ensures m.text.Invasion? && 1 <= m.text.rank <= |PrefixSlice(s.expansionTargets, cycles)|
    ensures s.expansionTargets[m.text.rank - 1].faction == cfg.myFaction
    ensures m.text.target == s.expansionTargets[m.text.rank - 1].systemName
    ensures forall i :: 0 <= i < m.text.rank - 1 ==> s.expansionTargets[i].faction != cfg.myFaction
    ensures m.text.controller == s.controllingFaction && m.text.influence == cfg.influence(s)
    ensures m.text.description == s.expansionTargets[m.text.rank - 1].description
  {
    var ts := PrefixSlice(s.expansionTargets, cycles);
    var i := FirstTargetFor(ts, cfg.myFaction).value;
    Internal(cfg, s.name, 10,
      Invasion(s.controllingFaction, ts[i].description, ts[i].systemName, cfg.influence(s), i + 1), "data")
  }

  function InvadesPred(mine: seq<System>, cfg: Config, cycles: int): System -> bool
  {
    (s: System) => Invades(s, mine, cfg, cycles)
  }

  /** The message is the invasion message of some system of the bubble. */
  predicate FromInvasion(m: Message, bubble: seq<System>, mine: seq<System>, cfg: Config, cycles: int)
  {
    exists j :: 0 <= j < |bubble| && Invades(bubble[j], mine, cfg, cycles)
      && m == InvasionMessage(bubble[j], mine, cfg, cycles)
  }

  /** `InvasionMessages`: over the whole bubble, at most one priority-10
      message per system, in bubble order. */
  function InvasionMessages(bubble: seq<System>, mine: seq<System>, cfg: Config, cycles: int): (r: seq<Message>)
    ensures |r| == Count(bubble, InvadesPred(mine, cfg, cycles))
    ensures forall j :: 0 <= j < |bubble| && Invades(bubble[j], mine, cfg, cycles) ==>
      InvasionMessage(bubble[j], mine, cfg, cycles) in r
    ensures forall i :: 0 <= i < |r| ==> FromInvasion(r[i], bubble, mine, cfg, cycles)
  {
    var f := (s: System) requires Invades(s, mine, cfg, cycles) => InvasionMessage(s, mine, cfg, cycles);
    MapFilterMembers(bubble, InvadesPred(mine, cfg, cycles), f);
    var r := Map(Filter(bubble, InvadesPred(mine, cfg, cycles)), f);
    forall i | 0 <= i < |r| ensures FromInvasion(r[i], bubble, mine, cfg, cycles) {
      var j :| 0 <= j < |bubble| && InvadesPred(mine, cfg, cycles)(bubble[j]) && r[i] == f(bubble[j]);
    }
    r
  }

  // ------------------------------------------------------------------- fill-in

  /** Influence gap between the system's influence and the runner-up presence. */
  function RunnerUpGap(s: System, cfg: Config): int
    requires |s.factions| > 1
  {
    cfg.influence(s) - s.factions[1].influence
  }

  predicate FillInCandidate(s: System, cfg: Config)
  {
    s.controllingFaction == cfg.myFaction && |s.factions| > 1
      && SafeGap <= RunnerUpGap(s, cfg) <= IgnoreGap
  }

  function GapKey(cfg: Config): System -> int
  {
    (s: System) => if |s.factions| > 1 then RunnerUpGap(s, cfg) else 0
  }

  function FillInCandidates(mine: seq<System>, cfg: Config): seq<System>
  {
    Filter(mine, (s: System) => FillInCandidate(s, cfg))
  }

  function FillInPred(cfg: Config): System -> bool { (s: System) => FillInCandidate(s, cfg) }

  /** The systems `FillInMessages` suggests: the first `count` candidates
      after a stable sort by gap. */
  function FillInChoice(mine: seq<System>, cfg: Config, count: int): (r: seq<System>)
    ensures count >= 0 ==> |r| == Min(count, Count(mine, FillInPred(cfg)))
    ensures forall i :: 0 <= i < |r| ==> r[i] in mine && FillInCandidate(r[i], cfg)
    ensures SortedBy(r, GapKey(cfg))
    ensures multiset(r) <= multiset(Filter(mine, FillInPred(cfg)))
  {
    var r := PrefixSlice(SortBy(Filter(mine, FillInPred(cfg)), GapKey(cfg)), count);
    FilterSortedPrefix(mine, FillInPred(cfg), GapKey(cfg), count);
    assert forall i :: 0 <= i < |r| ==> FillInPred(cfg)(r[i]);
    r
  }

  /** No candidate left out has a smaller gap than one suggested. */
  lemma FillInChoiceSmallest(mine: seq<System>, cfg: Config, count: int, y: System, i: nat)
    requires y in mine && FillInCandidate(y, cfg)
    requires i < |FillInChoice(mine, cfg, count)|
    requires RunnerUpGap(y, cfg) < RunnerUpGap(FillInChoice(mine, cfg, count)[i], cfg)
    ensures y in FillInChoice(mine, cfg, count)
  {
    var cands := Filter(mine, FillInPred(cfg));
    var sorted := SortBy(cands, GapKey(cfg));
    var r := FillInChoice(mine, cfg, count);
    assert FillInPred(cfg)(y);
    assert y in cands;
    assert y in multiset(sorted);
    assert r[i] == sorted[i];
    SortedPrefixHoldsSmaller(sorted, GapKey(cfg), |r|, i, y);
  }

  function FillInMessage(s: System, cfg: Config): Message
    requires |s.factions| > 1
  {
    Internal(cfg, s.name, 5, FillIn(cfg.myFaction, s.factions[1].name, RunnerUpGap(s, cfg)), "mininf")
  }

  function FillInMessagesOf(chosen: seq<System>, cfg: Config): (r: seq<Message>)
    requires forall i :: 0 <= i < |chosen| ==> |chosen[i].factions| > 1
    ensures |r| == |chosen|
    ensures forall i :: 0 <= i < |chosen| ==> r[i] == FillInMessage(chosen[i], cfg)
  {
    if chosen == [] then [] else [FillInMessage(chosen[0], cfg)] + FillInMessagesOf(chosen[1..], cfg)
  }

  /** Suggestions for candidates drawn from `mine` each name one of them,
      with its gap, in the order of the chosen gaps. */
  lemma FillInMessagesFrom(chosen: seq<System>, mine: seq<System>, cfg: Config)
    requires forall i :: 0 <= i < |chosen| ==> |chosen[i].factions| > 1 && chosen[i] in mine && FillInCandidate(chosen[i], cfg)
    requires SortedBy(chosen, GapKey(cfg))
    ensures var r := FillInMessagesOf(chosen, cfg);
      (forall i :: 0 <= i < |r| ==> (r[i].priority == 5 && r[i].text.FillIn?
        && SafeGap <= r[i].text.gap <= IgnoreGap
        && exists j :: (0 <= j < |mine| && FillInCandidate(mine[j], cfg) && r[i].systemName == mine[j].name
           && r[i].text.gap == RunnerUpGap(mine[j], cfg))))
      && forall i, j :: 0 <= i < j < |r| ==> r[i].text.gap <= r[j].text.gap
  {
    var r := FillInMessagesOf(chosen, cfg);
    forall i | 0 <= i < |r|
      ensures exists j :: (0 <= j < |mine| && FillInCandidate(mine[j], cfg) && r[i].systemName == mine[j].name
         && r[i].text.gap == RunnerUpGap(mine[j], cfg))
    {
      var j :| 0 <= j < |mine| && mine[j] == chosen[i];
    }
    assert forall i, j :: 0 <= i < j < |r| ==> GapKey(cfg)(chosen[i]) <= GapKey(cfg)(chosen[j]);
  }

  /** `FillInMessages`: priority-5 suggestions for the smallest safe gaps,
      at most `count`, in ascending gap order. */
  function FillInMessages(mine: seq<System>, cfg: Config, count: int): (r: seq<Message>)
    ensures count >= 0 ==> |r| <= count
    ensures forall i :: 0 <= i < |r| ==> (r[i].priority == 5 && r[i].text.FillIn?
      && SafeGap <= r[i].text.gap <= IgnoreGap
      && exists j :: (0 <= j < |mine| && FillInCandidate(mine[j], cfg) && r[i].systemName == mine[j].name
         && r[i].text.gap == RunnerUpGap(mine[j], cfg)))
    ensures forall i, j :: 0 <= i < j < |r| ==> r[i].text.gap <= r[j].text.gap
    ensures var c := FillInChoice(mine, cfg, count);
      |r| == |c| && forall i :: 0 <= i < |r| ==> r[i] == FillInMessage(c[i], cfg)
  {
    var chosen := FillInChoice(mine, cfg, count);
    FillInMessagesFrom(chosen, mine, cfg);
    FillInMessagesOf(chosen, cfg)
  }

  /** Of gaps 10%, 16%, 29% and 40% only 16% and 29% lie
      in the inclusive band [15%, 29%]. */
  lemma FillInBandExample(a: System, b: System, c: System, d: System, cfg: Config)
    requires forall s :: s in [a, b, c, d] ==> s.controllingFaction == cfg.myFaction && |s.factions| > 1
    requires RunnerUpGap(a, cfg) == 1000 && RunnerUpGap(b, cfg) == 1600
    requires RunnerUpGap(c, cfg) == 2900 && RunnerUpGap(d, cfg) == 4000
    ensures !FillInCandidate(a, cfg) && FillInCandidate(b, cfg)
    ensures FillInCandidate(c, cfg) && !FillInCandidate(d, cfg)
  {
  }

  // --------------------------------------------------- per-system precedence

  /** Python's `round(x, 1)` on a value in hundredths: the nearest multiple of
      ten, ties to the even tenth. */
  function RoundTenth(c: int): (r: int)
    ensures r % 10 == 0
    ensures -5 <= r - c <= 5
  {
    var q := c / 10;
    var rem := c % 10;
    if rem > 5 || (rem == 5 && q % 2 == 1) then (q + 1) * 10 else q * 10
  }

  /** The rounded gap to the runner-up (0 when there is none). */
  function SystemGap(s: System, cfg: Config): int
  {
    RoundTenth(cfg.influence(s) - (if |s.factions| > 1 then s.factions[1].influence else 0))
  }

  /** Whether `msgs` holds a message of the given kind for the system. */
  predicate HasKind(msgs: seq<Message>, name: string, kind: OverrideKind)
  {
    exists i :: 0 <= i < |msgs| && msgs[i].override == kind && msgs[i].systemName == name
  }

  lemma HasKindConcat(a: seq<Message>, b: seq<Message>, name: string, kind: OverrideKind)
    ensures HasKind(a + b, name, kind) <==> HasKind(a, name, kind) || HasKind(b, name, kind)
  {
    if HasKind(a + b, name, kind) {
      var i :| 0 <= i < |a + b| && (a + b)[i].override == kind && (a + b)[i].systemName == name;
      if i >= |a| {
        assert b[i - |a|] == (a + b)[i];
      }
    }
    if HasKind(b, name, kind) {
      var i :| 0 <= i < |b| && b[i].override == kind && b[i].systemName == name;
      assert (a + b)[i + |a|] == b[i];
    }
    if HasKind(a, name, kind) {
      var i :| 0 <= i < |a| && a[i].override == kind && a[i].systemName == name;
      assert (a + b)[i] == a[i];
    }
  }

  /** The first conflict state of a presence. */
  function FirstConflict(states: seq<State>): (r: Option<State>)
    ensures r.None? <==> forall i :: 0 <= i < |states| ==> !states[i].isConflict
    ensures r.Some? ==> r.value in states && r.value.isConflict
    ensures r.Some? ==> exists i :: (0 <= i < |states| && states[i] == r.value
      && forall j :: 0 <= j < i ==> !states[j].isConflict)
  {
    if states == [] then None
    else if states[0].isConflict then Some(states[0])
    else
      var r := FirstConflict(states[1..]);
      assert forall i :: 1 <= i < |states| ==> states[i] == states[1..][i - 1];
      r
  }

  function RemoveSpaces(s: string): (r: string)
    ensures forall i :: 0 <= i < |r| ==> r[i] != ' '
    ensures r == Filter(s, (c: char) => c != ' ')
  {
    if s == [] then [] else (if s[0] == ' ' then [] else [s[0]]) + RemoveSpaces(s[1..])
  }

  /** The icon key of a conflict state: its name without spaces, lower-cased. */
  function ConflictIcon(st: State): string
  {
    Lower(RemoveSpaces(st.name))
  }

  /** The presence of my faction, if any. */
  function MyPresence(s: System, cfg: Config): Option<Presence>
  {
    match FirstNamed(s.factions, cfg.myFaction)
    case Some(i) => Some(s.factions[i])
    case None => None
  }

  /** The gap from the top to my presence, rounded to a tenth. */
  function GapFromTop(s: System, cfg: Config): int
  {
    match MyPresence(s, cfg)
    case Some(p) => RoundTenth(cfg.influence(s) - p.influence)
    case None => RoundTenth(0)
  }

  predicate IsStop(m: Message) { m.priority == 2 || m.priority == 3 || m.priority == 4 }

  /** My faction is in a conflict that is not yet resolved. */
  predicate LiveConflict(s: System, cfg: Config)
  {
    match MyPresence(s, cfg)
    case None => false
    case Some(p) => FirstConflict(p.states).Some? && FirstConflict(p.states).value.phase != Recovering
  }

  /** The note the chain adds for a resolved (recovering) conflict of my
      faction, before evaluation continues; empty without a conflict. */
  function RecoveringNote(s: System, cfg: Config): (r: seq<Message>)
    ensures |r| <= 1
    ensures forall i :: 0 <= i < |r| ==> (r[i].priority == 21 && r[i].emoji == "info"
      && r[i].systemName == s.name && r[i].override == Normal && r[i].text.Conflict?)
  {
    match MyPresence(s, cfg)
    case None => []
    case Some(p) =>
      var conflict := FirstConflict(p.states);
      if conflict.Some? then [Internal(cfg, s.name, 21, Conflict(conflict.value), "info")] else []
  }

  /** The chain reaches its control and gap links for `s`: no override, my
      faction is present, no live conflict and no peacetime message. */
  predicate ReachesControl(msgs: seq<Message>, s: System, cfg: Config)
  {
    !HasKind(msgs, s.name, Override) && IsFactionPresent(s, cfg.myFaction)
    && !LiveConflict(s, cfg) && !HasKind(msgs, s.name, Peacetime)
  }

  /** One pass of the per-system chain in `GenerateMissions`: the messages it
      appends for `s`, given the messages generated so far.
      override > conflict (recovering conflicts continue) > peacetime >
      control > gap. The two faults stand for the crashes of the source: no
      presence of my faction, and a thin lead with no runner-up. */
  function SystemStep(msgs: seq<Message>, s: System, cfg: Config): (r: Result<seq<Message>>)
    ensures HasKind(msgs, s.name, Override) ==> r == Ok([])
    ensures !HasKind(msgs, s.name, Override) && !IsFactionPresent(s, cfg.myFaction) ==>
      r == Err(MissingPresence(s.name))
    ensures (ReachesControl(msgs, s, cfg) && s.controllingFaction == cfg.myFaction
      && SystemGap(s, cfg) <= SafeGap && |s.factions| <= 1) ==> r == Err(NoRunnerUp(s.name))
    ensures r.Err? ==> !HasKind(msgs, s.name, Override)
    ensures r.Err? && r.fault.MissingPresence? ==> !IsFactionPresent(s, cfg.myFaction)
    ensures r.Err? && r.fault.NoRunnerUp? ==> |s.factions| <= 1
    ensures r.Ok? ==> (|r.value| <= 2
      && forall i :: 0 <= i < |r.value| ==> r.value[i].systemName == s.name && r.value[i].override == Normal)
  {
    if HasKind(msgs, s.name, Override) then Ok([])
    else match MyPresence(s, cfg)
    case None => Err(MissingPresence(s.name))
    case Some(p) =>
      var conflict := FirstConflict(p.states);
      if conflict.Some? && conflict.value.phase != Recovering then
        Ok([Internal(cfg, s.name, 2, Conflict(conflict.value), ConflictIcon(conflict.value))])
      else
        var pre := RecoveringNote(s, cfg);
        HasKindConcat(msgs, pre, s.name, Peacetime);
        assert !HasKind(pre, s.name, Peacetime);
        if HasKind(msgs + pre, s.name, Peacetime) then Ok(pre)
        else match ControlStep(s, cfg)
          case Err(f) => Err(f)
          case Ok(c) => Ok(pre + c)
  }

  /** The conflict links of the chain for one system: at most one terminal
      message, and it comes last; an actionable conflict is reported alone; a
      resolved conflict is reported first, and under a peacetime message it
      is all that is reported. */
  lemma SystemStepConflict(msgs: seq<Message>, s: System, cfg: Config)
    ensures var r := SystemStep(msgs, s, cfg);
      r.Ok? ==> forall i :: 0 <= i < |r.value| - 1 ==> !IsStop(r.value[i])
    ensures var r := SystemStep(msgs, s, cfg);
      r.Ok? && |r.value| == 2 ==> r.value[0].priority == 21
    ensures var r, p := SystemStep(msgs, s, cfg), MyPresence(s, cfg);
      !HasKind(msgs, s.name, Override) && LiveConflict(s, cfg) ==>
      r.Ok? && |r.value| == 1 && r.value[0].priority == 2
      && r.value[0].text == Conflict(FirstConflict(p.value.states).value)
    ensures var r, p := SystemStep(msgs, s, cfg), MyPresence(s, cfg);
      !HasKind(msgs, s.name, Override) && p.Some? && FirstConflict(p.value.states).Some?
      && FirstConflict(p.value.states).value.phase == Recovering ==>
      r.Ok? ==> |r.value| >= 1 && r.value[0].priority == 21 && r.value[0].emoji == "info"
    ensures var r := SystemStep(msgs, s, cfg);
      (!HasKind(msgs, s.name, Override) && IsFactionPresent(s, cfg.myFaction) && !LiveConflict(s, cfg)
      && HasKind(msgs, s.name, Peacetime)) ==> r == Ok(RecoveringNote(s, cfg))
  {
    HasKindConcat(msgs, RecoveringNote(s, cfg), s.name, Peacetime);
  }

  /** Past the conflict check, without a peacetime message, the chain hands
      over to the control and gap links: the recovering note, if any, then
      whatever `ControlStep` reports, its fault included. */
  lemma SystemStepContinues(msgs: seq<Message>, s: System, cfg: Config)
    requires ReachesControl(msgs, s, cfg)
    ensures SystemStep(msgs, s, cfg) == match ControlStep(s, cfg)
      case Err(f) => Err(f)
      case Ok(c) => Ok(RecoveringNote(s, cfg) + c)
  {
    HasKindConcat(msgs, RecoveringNote(s, cfg), s.name, Peacetime);
    assert !HasKind(RecoveringNote(s, cfg), s.name, Peacetime);
  }

  /** The peacetime, control and gap links of the chain for one system: a
      peacetime message silences everything after the conflict check; a
      control message exactly when another faction controls the system; a gap
      warning only for a controlled system with a thin lead over the
      runner-up. */
  lemma SystemStepControl(msgs: seq<Message>, s: System, cfg: Config)
    ensures var r := SystemStep(msgs, s, cfg);
      HasKind(msgs, s.name, Peacetime) && r.Ok? ==>
      forall i :: 0 <= i < |r.value| ==> r.value[i].priority == 2 || r.value[i].priority == 21
    ensures var r := SystemStep(msgs, s, cfg);
      r.Ok? ==> forall i :: 0 <= i < |r.value| ==>
      (r.value[i].priority == 3 <==> (!HasKind(msgs, s.name, Peacetime) && s.controllingFaction != cfg.myFaction
        && r.value[i].text.GainControl?))
    ensures var r := SystemStep(msgs, s, cfg);
      r.Ok? ==> forall i :: 0 <= i < |r.value| && r.value[i].priority == 4 ==>
      s.controllingFaction == cfg.myFaction && SystemGap(s, cfg) <= SafeGap && |s.factions| > 1
      && r.value[i].text == GapWarning(cfg.myFaction, s.factions[1].name, SystemGap(s, cfg))
  {
    if HasKind(msgs, s.name, Override) {
      assert SystemStep(msgs, s, cfg) == Ok([]);
    } else if !IsFactionPresent(s, cfg.myFaction) {
      assert SystemStep(msgs, s, cfg).Err?;
    } else if LiveConflict(s, cfg) {
      SystemStepConflict(msgs, s, cfg);
    } else if HasKind(msgs, s.name, Peacetime) {
      SystemStepConflict(msgs, s, cfg);
    } else {
      ControlLinks(msgs, s, cfg);
    }
  }

  /** `SystemStepControl` for a system that reaches the control links. */
  lemma ControlLinks(msgs: seq<Message>, s: System, cfg: Config)
    requires ReachesControl(msgs, s, cfg)
    ensures var r := SystemStep(msgs, s, cfg);
      r.Ok? ==> forall i :: 0 <= i < |r.value| ==>
      (r.value[i].priority == 3 <==> (s.controllingFaction != cfg.myFaction && r.value[i].text.GainControl?))
    ensures var r := SystemStep(msgs, s, cfg);
      r.Ok? ==> forall i :: 0 <= i < |r.value| && r.value[i].priority == 4 ==>
      s.controllingFaction == cfg.myFaction && SystemGap(s, cfg) <= SafeGap && |s.factions| > 1
      && r.value[i].text == GapWarning(cfg.myFaction, s.factions[1].name, SystemGap(s, cfg))
  {
    SystemStepContinues(msgs, s, cfg);
    var c := ControlStep(s, cfg);
    if c.Ok? {
      var n := RecoveringNote(s, cfg);
      assert SystemStep(msgs, s, cfg) == Ok(n + c.value);
      forall i | 0 <= i < |n + c.value|
        ensures i < |n| ==> (n + c.value)[i] == n[i]
        ensures i >= |n| ==> (n + c.value)[i] == c.value[i - |n|]
      {
      }
    }
  }

  /** The last two links of the chain: control, then the gap to the runner-up.
      Another controller gets exactly one control message; a thin lead gets
      exactly one gap warning; a safe lead adds nothing; a controlled system
      with a thin lead and no runner-up is a fault. */
  function ControlStep(s: System, cfg: Config): (r: Result<seq<Message>>)
    ensures r.Err? <==> s.controllingFaction == cfg.myFaction && SystemGap(s, cfg) <= SafeGap && |s.factions| <= 1
    ensures r.Err? ==> r.fault == NoRunnerUp(s.name)
    ensures s.controllingFaction != cfg.myFaction ==> r.Ok? && |r.value| == 1 && r.value[0].priority == 3
    ensures s.controllingFaction == cfg.myFaction && SystemGap(s, cfg) <= SafeGap && |s.factions| > 1 ==>
      r.Ok? && |r.value| == 1 && r.value[0].priority == 4
    ensures s.controllingFaction == cfg.myFaction && SystemGap(s, cfg) > SafeGap ==> r == Ok([])
    ensures r.Ok? ==> (|r.value| <= 1
      && forall i :: 0 <= i < |r.value| ==> (r.value[i].systemName == s.name && r.value[i].override == Normal
           && IsStop(r.value[i]) && !r.value[i].text.Conflict?))
    ensures r.Ok? ==> forall i :: 0 <= i < |r.value| ==>
      (r.value[i].priority == 3 <==> (s.controllingFaction != cfg.myFaction && r.value[i].text.GainControl?))
    ensures r.Ok? ==> forall i :: 0 <= i < |r.value| && r.value[i].priority == 4 ==>
      s.controllingFaction == cfg.myFaction && SystemGap(s, cfg) <= SafeGap && |s.factions| > 1
      && r.value[i].text == GapWarning(cfg.myFaction, s.factions[1].name, SystemGap(s, cfg))
  {
    if s.controllingFaction != cfg.myFaction then
      Ok([Internal(cfg, s.name, 3, GainControl(cfg.myFaction, GapFromTop(s, cfg)), "push")])
    else if SystemGap(s, cfg) <= SafeGap then
      if |s.factions| > 1 then
        Ok([Internal(cfg, s.name, 4, GapWarning(cfg.myFaction, s.factions[1].name, SystemGap(s, cfg)), "infgap")])
      else Err(NoRunnerUp(s.name))
    else Ok([])
  }

  /** Some system of `mine` is called `name`. */
  predicate NamedIn(name: string, mine: seq<System>)
  {
    exists j :: 0 <= j < |mine| && mine[j].name == name
  }

  /** `rv` extends `msgs` with chain messages for systems of `mine` only. */
  predicate ChainExtends(msgs: seq<Message>, mine: seq<System>, rv: seq<Message>)
  {
    |msgs| <= |rv| && rv[..|msgs|] == msgs
    && forall i :: |msgs| <= i < |rv| ==> rv[i].override == Normal && NamedIn(rv[i].systemName, mine)
  }

  /** The chain over every system of mine, in order, each step seeing the
      messages appended so far. */
  function RunChain(msgs: seq<Message>, mine: seq<System>, cfg: Config): (r: Result<seq<Message>>)
    ensures r.Ok? ==> ChainExtends(msgs, mine, r.value)
    decreases |mine|
  {
    if mine == [] then Ok(msgs)
    else match SystemStep(msgs, mine[0], cfg)
      case Err(f) => Err(f)
      case Ok(e) =>
        var r := RunChain(msgs + e, mine[1..], cfg);
        if r.Ok? then
          ChainExtendsStep(msgs, e, mine, r.value);
          r
        else r
  }

  /** One step of the chain followed by the rest keeps `ChainExtends`. */
  lemma ChainExtendsStep(msgs: seq<Message>, e: seq<Message>, mine: seq<System>, rv: seq<Message>)
    requires mine != []
    requires forall i :: 0 <= i < |e| ==> e[i].override == Normal && e[i].systemName == mine[0].name
    requires ChainExtends(msgs + e, mine[1..], rv)
    ensures ChainExtends(msgs, mine, rv)
  {
    assert rv[..|msgs|] == (msgs + e)[..|msgs|] == msgs;
    forall i | |msgs| <= i < |rv| ensures rv[i].override == Normal && NamedIn(rv[i].systemName, mine) {
      if i < |msgs + e| {
        assert rv[i] == rv[..|msgs + e|][i] == e[i - |msgs|];
        assert mine[0].name == rv[i].systemName;
      } else {
        assert NamedIn(rv[i].systemName, mine[1..]);
        var j :| 0 <= j < |mine[1..]| && mine[1..][j].name == rv[i].systemName;
        assert mine[j + 1].name == rv[i].systemName;
      }
    }
  }

  /** One step appends nothing for a system that already has an override. */
  lemma StepSkipsOverridden(msgs: seq<Message>, s: System, cfg: Config, name: string)
    requires HasKind(msgs, name, Override) && SystemStep(msgs, s, cfg).Ok?
    ensures forall i :: 0 <= i < |SystemStep(msgs, s, cfg).value| ==> SystemStep(msgs, s, cfg).value[i].systemName != name
  {
    if s.name == name {
      assert SystemStep(msgs, s, cfg) == Ok([]);
    }
  }

  /** A system with a manual OVERRIDE message gets no message from the chain. */
  lemma {:induction false} OverrideSilencesChain(msgs: seq<Message>, mine: seq<System>, cfg: Config, name: string)
    requires HasKind(msgs, name, Override)
    ensures var r := RunChain(msgs, mine, cfg);
      r.Ok? ==> forall i :: |msgs| <= i < |r.value| ==> r.value[i].systemName != name
    decreases |mine|
  {
    var r := RunChain(msgs, mine, cfg);
    if mine != [] && r.Ok? {
      var step := SystemStep(msgs, mine[0], cfg);
      assert step.Ok?;
      var e := step.value;
      StepSkipsOverridden(msgs, mine[0], cfg, name);
      HasKindConcat(msgs, e, name, Override);
      OverrideSilencesChain(msgs + e, mine[1..], cfg, name);
      assert r == RunChain(msgs + e, mine[1..], cfg);
      SilentAfter(msgs, e, r.value, name);
    }
  }

  /** A run that extends `msgs + e` says nothing about `name` after `msgs`
      when neither `e` nor the rest of the run does. */
  lemma SilentAfter(msgs: seq<Message>, e: seq<Message>, rv: seq<Message>, name: string)
    requires |msgs + e| <= |rv| && rv[..|msgs + e|] == msgs + e
    requires forall i :: 0 <= i < |e| ==> e[i].systemName != name
    requires forall i :: |msgs + e| <= i < |rv| ==> rv[i].systemName != name
    ensures forall i :: |msgs| <= i < |rv| ==> rv[i].systemName != name
  {
    forall i | |msgs| <= i < |msgs + e| ensures rv[i].systemName != name {
      assert rv[i] == rv[..|msgs + e|][i] == e[i - |msgs|];
    }
  }

  /** `pre` extends `msgs` with chain messages only (no override kinds). */
  predicate NormalFrom(msgs: seq<Message>, pre: seq<Message>)
  {
    |msgs| <= |pre| && pre[..|msgs|] == msgs
    && forall i :: |msgs| <= i < |pre| ==> pre[i].override == Normal
  }

  /** Chain messages never add an OVERRIDE or PEACETIME message, so the
      batch alone decides those links for every system. */
  lemma NormalKeepsKinds(msgs: seq<Message>, pre: seq<Message>, name: string, kind: OverrideKind)
    requires NormalFrom(msgs, pre) && kind != Normal
    ensures HasKind(pre, name, kind) <==> HasKind(msgs, name, kind)
  {
    var tail := pre[|msgs|..];
    assert pre == msgs + tail;
    HasKindConcat(msgs, tail, name, kind);
  }

  /** A successful run's first step succeeds, and the run goes on from there. */
  lemma RunChainHead(msgs: seq<Message>, mine: seq<System>, cfg: Config)
    requires mine != [] && RunChain(msgs, mine, cfg).Ok?
    ensures SystemStep(msgs, mine[0], cfg).Ok?
    ensures RunChain(msgs, mine, cfg) == RunChain(msgs + SystemStep(msgs, mine[0], cfg).value, mine[1..], cfg)
  {
  }

  /** Every system of mine gets its step: in a successful run, the step for
      `mine[j]` sees `pre`, the batch plus the chain messages of the systems
      before it, and what it appends follows `pre` in the result. */
  lemma {:induction false} ChainRunsStep(msgs: seq<Message>, mine: seq<System>, cfg: Config, j: nat)
    returns (pre: seq<Message>)
    requires j < |mine| && RunChain(msgs, mine, cfg).Ok?
    ensures NormalFrom(msgs, pre)
    ensures SystemStep(pre, mine[j], cfg).Ok?
    ensures var rv, e := RunChain(msgs, mine, cfg).value, SystemStep(pre, mine[j], cfg).value;
      |pre| + |e| <= |rv| && rv[..|pre| + |e|] == pre + e
    decreases |mine|
  {
    RunChainHead(msgs, mine, cfg);
    var e := SystemStep(msgs, mine[0], cfg).value;
    if j == 0 {
      pre := msgs;
      var rv := RunChain(msgs + e, mine[1..], cfg).value;
      assert rv[..|msgs + e|] == msgs + e;
    } else {
      assert mine[1..][j - 1] == mine[j];
      pre := ChainRunsStep(msgs + e, mine[1..], cfg, j - 1);
      assert pre[..|msgs|] == pre[..|msgs + e|][..|msgs|];
      forall i | |msgs| <= i < |pre| ensures pre[i].override == Normal {
        if i < |msgs + e| {
          assert pre[i] == pre[..|msgs + e|][i] == e[i - |msgs|];
        }
      }
    }
  }

  /** A message of the given priority for the named system. */
  predicate HasMessage(rv: seq<Message>, name: string, priority: int)
  {
    exists i :: 0 <= i < |rv| && rv[i].systemName == name && rv[i].priority == priority
  }

  /** A message of a list is found by `HasMessage`. */
  lemma MemberHasMessage(rv: seq<Message>, m: Message)
    requires m in rv
    ensures HasMessage(rv, m.systemName, m.priority)
  {
    var i :| 0 <= i < |rv| && rv[i] == m;
  }

  /** A message appended by the step for `mine[j]` reaches the sorted output. */
  lemma StepReachesOutput(batch: seq<Message>, mine: seq<System>, cfg: Config, j: nat, pre: seq<Message>, k: nat)
    requires j < |mine| && GenerateMissions(batch, mine, cfg).Ok?
    requires SystemStep(pre, mine[j], cfg).Ok? && k < |SystemStep(pre, mine[j], cfg).value|
    requires var rv, e := RunChain(batch, mine, cfg).value, SystemStep(pre, mine[j], cfg).value;
      |pre| + |e| <= |rv| && rv[..|pre| + |e|] == pre + e
    ensures var m := SystemStep(pre, mine[j], cfg).value[k];
      HasMessage(GenerateMissions(batch, mine, cfg).value, m.systemName, m.priority)
  {
    var rv := RunChain(batch, mine, cfg).value;
    var e := SystemStep(pre, mine[j], cfg).value;
    var out := GenerateMissions(batch, mine, cfg).value;
    var m := e[k];
    assert rv[|pre| + k] == (pre + e)[|pre| + k] == m;
    assert m in multiset(rv);
    assert multiset(out) == multiset(rv);
    MemberHasMessage(out, m);
  }

  /** End to end, an actionable conflict of my faction is always reported:
      unless the batch overrides the system, the output holds a priority-2
      message for it. */
  lemma GeneratedReportsConflict(batch: seq<Message>, mine: seq<System>, cfg: Config, j: nat)
    requires j < |mine| && GenerateMissions(batch, mine, cfg).Ok?
    requires !HasKind(batch, mine[j].name, Override) && LiveConflict(mine[j], cfg)
    ensures HasMessage(GenerateMissions(batch, mine, cfg).value, mine[j].name, 2)
  {
    var pre := ChainRunsStep(batch, mine, cfg, j);
    NormalKeepsKinds(batch, pre, mine[j].name, Override);
    SystemStepConflict(pre, mine[j], cfg);
    StepReachesOutput(batch, mine, cfg, j, pre, 0);
  }

  /** End to end, a member of my systems that has lost the faction (the
      refresh can do that, see `MySystems`) and is not overridden aborts the
      run with a fault: the crash on the missing presence. */
  lemma GeneratedFailsOnLostPresence(batch: seq<Message>, mine: seq<System>, cfg: Config, j: nat)
    requires j < |mine| && !HasKind(batch, mine[j].name, Override)
    requires !IsFactionPresent(mine[j], cfg.myFaction)
    ensures GenerateMissions(batch, mine, cfg).Err?
  {
    if GenerateMissions(batch, mine, cfg).Ok? {
      var pre := ChainRunsStep(batch, mine, cfg, j);
      NormalKeepsKinds(batch, pre, mine[j].name, Override);
    }
  }

  /** End to end, the control and gap links always speak: a system of mine
      that the batch neither overrides nor marks as peacetime, without a live
      conflict, gets a priority-3 message when another faction controls it
      and a priority-4 warning when my lead is thin. */
  lemma GeneratedReportsControl(batch: seq<Message>, mine: seq<System>, cfg: Config, j: nat)
    requires j < |mine| && GenerateMissions(batch, mine, cfg).Ok?
    requires !HasKind(batch, mine[j].name, Override) && !HasKind(batch, mine[j].name, Peacetime)
    requires !LiveConflict(mine[j], cfg)
    ensures mine[j].controllingFaction != cfg.myFaction ==>
      HasMessage(GenerateMissions(batch, mine, cfg).value, mine[j].name, 3)
    ensures mine[j].controllingFaction == cfg.myFaction && SystemGap(mine[j], cfg) <= SafeGap ==>
      HasMessage(GenerateMissions(batch, mine, cfg).value, mine[j].name, 4)
  {
    var s := mine[j];
    var pre := ChainRunsStep(batch, mine, cfg, j);
    NormalKeepsKinds(batch, pre, s.name, Override);
    NormalKeepsKinds(batch, pre, s.name, Peacetime);
    assert ReachesControl(pre, s, cfg);
    SystemStepContinues(pre, s, cfg);
    var note := RecoveringNote(s, cfg);
    if s.controllingFaction != cfg.myFaction || SystemGap(s, cfg) <= SafeGap {
      var c := ControlStep(s, cfg).value;
      assert SystemStep(pre, s, cfg).value == note + c;
      assert SystemStep(pre, s, cfg).value[|note|] == c[0];
      StepReachesOutput(batch, mine, cfg, j, pre, |note|);
    }
  }

  // ------------------------------------------------------------ orchestration

  function PriorityKey(): Message -> int { (m: Message) => m.priority }

  /** My systems as the run sees them: membership is fixed on the bubble
      `before` the live refresh, but the refresh updates those same system
      records in place, so each member carries its refreshed value from
      `after` (index for index, as the refresh keeps the bubble's order).
      A system the faction has just expanded into is not a member; a member
      the refresh leaves without the faction stays one. */
  function MySystems(before: seq<System>, after: seq<System>, faction: string): (r: seq<System>)
    requires |before| == |after|
    ensures |r| == |FactionPresence(before, faction)|
    ensures forall k :: 0 <= k < |r| ==> r[k] in after
    decreases |before|
  {
    if before == [] then []
    else
      FactionPresenceHead(before, faction);
      (if IsFactionPresent(before[0], faction) then [after[0]] else []) + MySystems(before[1..], after[1..], faction)
  }

  /** Every system present before the refresh is in the list, with its
      refreshed value. */
  lemma {:induction false} MySystemsMembers(before: seq<System>, after: seq<System>, faction: string, i: nat)
    requires |before| == |after| && i < |before| && IsFactionPresent(before[i], faction)
    ensures after[i] in MySystems(before, after, faction)
    decreases i
  {
    var h: seq<System> := if IsFactionPresent(before[0], faction) then [after[0]] else [];
    var rest := MySystems(before[1..], after[1..], faction);
    assert MySystems(before, after, faction) == h + rest;
    if i == 0 {
      assert (h + rest)[0] == after[0];
    } else {
      assert before[1..][i - 1] == before[i] && after[1..][i - 1] == after[i];
      MySystemsMembers(before[1..], after[1..], faction, i - 1);
      var k :| 0 <= k < |rest| && rest[k] == after[i];
      assert (h + rest)[|h| + k] == after[i];
    }
  }

  /** Member by member, the list names the systems of the pre-refresh
      presence list, in that order, when the refresh keeps the names. */
  lemma {:induction false} MySystemsNames(before: seq<System>, after: seq<System>, faction: string)
    requires |before| == |after| && forall j :: 0 <= j < |before| ==> before[j].name == after[j].name
    ensures var r, pre := MySystems(before, after, faction), FactionPresence(before, faction);
      |r| == |pre| && forall k :: 0 <= k < |r| ==> r[k].name == pre[k].name
    decreases |before|
  {
    if before != [] {
      var present := IsFactionPresent(before[0], faction);
      var h: seq<System>, hp: seq<System> := if present then [after[0]] else [], if present then [before[0]] else [];
      var rest, prest := MySystems(before[1..], after[1..], faction), FactionPresence(before[1..], faction);
      assert forall j :: 0 <= j < |before[1..]| ==> before[1..][j].name == after[1..][j].name by {
        forall j | 0 <= j < |before[1..]| ensures before[1..][j].name == after[1..][j].name {
          assert before[1..][j] == before[j + 1] && after[1..][j] == after[j + 1];
        }
      }
      MySystemsNames(before[1..], after[1..], faction);
      FactionPresenceHead(before, faction);
      assert MySystems(before, after, faction) == h + rest;
      assert FactionPresence(before, faction) == hp + prest;
      forall k | 0 <= k < |h + rest| ensures (h + rest)[k].name == (hp + prest)[k].name {
        if k >= |h| {
          assert (h + rest)[k] == rest[k - |h|] && (hp + prest)[k] == prest[k - |h|];
        }
      }
    }
  }

  /** Without a refresh the list is just the faction's presence list. */
  lemma {:induction false} MySystemsUnrefreshed(bubble: seq<System>, faction: string)
    ensures MySystems(bubble, bubble, faction) == FactionPresence(bubble, faction)
    decreases |bubble|
  {
    if bubble != [] {
      FactionPresenceHead(bubble, faction);
      MySystemsUnrefreshed(bubble[1..], faction);
    }
  }

  /** The messages every evaluator returns, in generation order: manual
      overrides, the rule evaluators, then the carrier locations, then the
      fill-in suggestions. Nothing is lost or invented on the way. The rule
      evaluators walk `mine` (see `MySystems`) and the refreshed `bubble`. */
  function Evaluated(overrides: seq<Message>, carriers: seq<Message>, feed: seq<ThreatEntry>,
                     bubble: seq<System>, mine: seq<System>, cfg: Config): (r: seq<Message>)
    ensures |overrides| <= |r| && r[..|overrides|] == overrides
    ensures multiset(r) == multiset(overrides) + multiset(StaleDataMessages(mine, cfg))
        + multiset(ThreatMessages(mine, feed, cfg)) + multiset(RetreatMessages(mine, bubble, cfg))
        + multiset(InvasionMessages(bubble, mine, cfg, InvasionCycles)) + multiset(carriers)
        + multiset(FillInMessages(mine, cfg, FillInCount))
  {
    var b1, b2, b3 := StaleDataMessages(mine, cfg), ThreatMessages(mine, feed, cfg), RetreatMessages(mine, bubble, cfg);
    var b4, b6 := InvasionMessages(bubble, mine, cfg, InvasionCycles), FillInMessages(mine, cfg, FillInCount);
    MultisetBlocks(overrides, b1, b2, b3, b4, carriers, b6);
    overrides + (b1 + b2 + b3 + b4 + carriers + b6)
  }

  /** The multiset of a batch is the sum over its seven blocks. */
  lemma MultisetBlocks(b0: seq<Message>, b1: seq<Message>, b2: seq<Message>, b3: seq<Message>,
                       b4: seq<Message>, b5: seq<Message>, b6: seq<Message>)
    ensures |b0| <= |b0 + (b1 + b2 + b3 + b4 + b5 + b6)|
    ensures (b0 + (b1 + b2 + b3 + b4 + b5 + b6))[..|b0|] == b0
    ensures multiset(b0 + (b1 + b2 + b3 + b4 + b5 + b6)) == multiset(b0) + multiset(b1) + multiset(b2)
      + multiset(b3) + multiset(b4) + multiset(b5) + multiset(b6)
  {
    assert (b0 + (b1 + b2 + b3 + b4 + b5 + b6))[..|b0|] == b0;
  }

  /** Among messages of one priority, the batch lists the evaluators' output
      block by block: overrides, stale data, threats, retreats, invasions,
      carriers, fill-ins. */
  lemma EvaluatedTieOrder(overrides: seq<Message>, carriers: seq<Message>, feed: seq<ThreatEntry>,
                          bubble: seq<System>, mine: seq<System>, cfg: Config, p: int)
    ensures var k := PriorityKey();
      WithKey(Evaluated(overrides, carriers, feed, bubble, mine, cfg), k, p)
      == WithKey(overrides, k, p) + (WithKey(StaleDataMessages(mine, cfg), k, p)
        + WithKey(ThreatMessages(mine, feed, cfg), k, p) + WithKey(RetreatMessages(mine, bubble, cfg), k, p)
        + WithKey(InvasionMessages(bubble, mine, cfg, InvasionCycles), k, p) + WithKey(carriers, k, p)
        + WithKey(FillInMessages(mine, cfg, FillInCount), k, p))
  {
    WithKeyBlocks(overrides, StaleDataMessages(mine, cfg), ThreatMessages(mine, feed, cfg),
      RetreatMessages(mine, bubble, cfg), InvasionMessages(bubble, mine, cfg, InvasionCycles), carriers,
      FillInMessages(mine, cfg, FillInCount), p);
  }

  /** `WithKey` over the seven blocks of a batch. */
  lemma WithKeyBlocks(b0: seq<Message>, b1: seq<Message>, b2: seq<Message>, b3: seq<Message>,
                      b4: seq<Message>, b5: seq<Message>, b6: seq<Message>, p: int)
    ensures var k := PriorityKey();
      WithKey(b0 + (b1 + b2 + b3 + b4 + b5 + b6), k, p)
      == WithKey(b0, k, p) + (WithKey(b1, k, p) + WithKey(b2, k, p) + WithKey(b3, k, p)
        + WithKey(b4, k, p) + WithKey(b5, k, p) + WithKey(b6, k, p))
  {
    var k := PriorityKey();
    var s2, s3, s4 := b1 + b2, b1 + b2 + b3, b1 + b2 + b3 + b4;
    var s5, s6 := b1 + b2 + b3 + b4 + b5, b1 + b2 + b3 + b4 + b5 + b6;
    var w0, w1, w2, w3 := WithKey(b0, k, p), WithKey(b1, k, p), WithKey(b2, k, p), WithKey(b3, k, p);
    var w4, w5, w6 := WithKey(b4, k, p), WithKey(b5, k, p), WithKey(b6, k, p);
    WithKeyConcat(b1, b2, k, p);
    assert WithKey(s2, k, p) == w1 + w2;
    WithKeyConcat(s2, b3, k, p);
    assert WithKey(s3, k, p) == w1 + w2 + w3;
    WithKeyConcat(s3, b4, k, p);
    assert WithKey(s4, k, p) == w1 + w2 + w3 + w4;
    WithKeyConcat(s4, b5, k, p);
    assert WithKey(s5, k, p) == w1 + w2 + w3 + w4 + w5;
    WithKeyConcat(s5, b6, k, p);
    assert WithKey(s6, k, p) == w1 + w2 + w3 + w4 + w5 + w6;
    WithKeyConcat(b0, s6, k, p);
  }

  /** The final ordering: a stable sort by priority. */
  function SortByPriority(all: seq<Message>): (r: seq<Message>)
    ensures multiset(r) == multiset(all)
    ensures forall i, j :: 0 <= i < j < |r| ==> r[i].priority <= r[j].priority
  {
    var r := SortBy(all, PriorityKey());
    assert forall i, j :: 0 <= i < j < |r| ==> PriorityKey()(r[i]) <= PriorityKey()(r[j]);
    r
  }

  /** The messages `GenerateMissions` hands to its outputs, given the
      evaluated messages `batch` (see `Evaluated`): the chain runs over my
      systems, then everything is sorted by priority; a fault in the chain
      aborts the run. */
  function GenerateMissions(batch: seq<Message>, mine: seq<System>, cfg: Config): (r: Result<seq<Message>>)
    ensures r.Ok? <==> RunChain(batch, mine, cfg).Ok?
    ensures r.Ok? ==> multiset(r.value) == multiset(RunChain(batch, mine, cfg).value)
    ensures r.Ok? ==> forall i, j :: 0 <= i < j < |r.value| ==> r.value[i].priority <= r.value[j].priority
    ensures r.Ok? ==> forall i :: 0 <= i < |batch| ==> batch[i] in r.value
  {
    match RunChain(batch, mine, cfg)
    case Err(f) => Err(f)
    case Ok(all) =>
      var sorted := SortByPriority(all);
      forall i | 0 <= i < |batch| ensures batch[i] in sorted {
        assert all[i] == all[..|batch|][i] == batch[i];
        assert batch[i] in multiset(all);
      }
      Ok(sorted)
  }

  /** Equal priorities keep their generation order. */
  lemma GenerateMissionsStable(batch: seq<Message>, mine: seq<System>, cfg: Config, priority: int)
    requires RunChain(batch, mine, cfg).Ok?
    ensures WithKey(GenerateMissions(batch, mine, cfg).value, PriorityKey(), priority)
         == WithKey(RunChain(batch, mine, cfg).value, PriorityKey(), priority)
  {
    assert GenerateMissions(batch, mine, cfg).value == SortBy(RunChain(batch, mine, cfg).value, PriorityKey());
    SortByStable(RunChain(batch, mine, cfg).value, PriorityKey(), priority);
  }

  /** Ties in the final report: among messages of one priority, the
      evaluated batch comes first and in generation order, block by block,
      ahead of the chain's own messages. */
  lemma GeneratedTieOrder(overrides: seq<Message>, carriers: seq<Message>, feed: seq<ThreatEntry>,
                          bubble: seq<System>, mine: seq<System>, cfg: Config, p: int)
    requires GenerateMissions(Evaluated(overrides, carriers, feed, bubble, mine, cfg), mine, cfg).Ok?
    ensures var k := PriorityKey();
      var batch := Evaluated(overrides, carriers, feed, bubble, mine, cfg);
      var ties := WithKey(GenerateMissions(batch, mine, cfg).value, k, p);
      var blocks := WithKey(overrides, k, p) + (WithKey(StaleDataMessages(mine, cfg), k, p)
        + WithKey(ThreatMessages(mine, feed, cfg), k, p) + WithKey(RetreatMessages(mine, bubble, cfg), k, p)
        + WithKey(InvasionMessages(bubble, mine, cfg, InvasionCycles), k, p) + WithKey(carriers, k, p)
        + WithKey(FillInMessages(mine, cfg, FillInCount), k, p));
      |blocks| <= |ties| && ties[..|blocks|] == blocks
  {
    var k := PriorityKey();
    var batch := Evaluated(overrides, carriers, feed, bubble, mine, cfg);
    GenerateMissionsStable(batch, mine, cfg, p);
    WithKeyPrefix(batch, RunChain(batch, mine, cfg).value, k, p);
    EvaluatedTieOrder(overrides, carriers, feed, bubble, mine, cfg, p);
  }

  /** Running on my own systems never meets the missing-presence fault. */
  lemma {:induction false} ChainOverMineHasPresence(msgs: seq<Message>, mine: seq<System>, cfg: Config)
    requires forall j :: 0 <= j < |mine| ==> IsFactionPresent(mine[j], cfg.myFaction)
    ensures var r := RunChain(msgs, mine, cfg); r.Err? ==> !r.fault.MissingPresence?
    decreases |mine|
  {
    if mine != [] {
      var step := SystemStep(msgs, mine[0], cfg);
      if step.Ok? {
        ChainOverMineHasPresence(msgs + step.value, mine[1..], cfg);
      }
    }
  }

  // -------------------------------------------------------------------- patrol

  /** A row of the patrol sheet: system, x, y, z, strength, faction, text, icon. */
  datatype PatrolRow = PatrolRow(
    systemName: string, x: real, y: real, z: real, strength: int,
    faction: string, text: Text, emoji: string)

  const PatrolFaction := "Canonn"

  function PatrolRowOf(m: Message, bubble: seq<System>): (row: PatrolRow)
    ensures row.systemName == m.systemName && row.text == m.text && row.emoji == m.emoji
    ensures row.strength == 0 && row.faction == PatrolFaction
    ensures match GetSystem(bubble, m.systemName)
      case None => row.x == 0.0 && row.y == 0.0 && row.z == 0.0
      case Some(s) => row.x == s.x && row.y == s.y && row.z == s.z
  {
    match GetSystem(bubble, m.systemName)
    case None => PatrolRow(m.systemName, 0.0, 0.0, 0.0, 0, PatrolFaction, m.text, m.emoji)
    case Some(s) => PatrolRow(m.systemName, s.x, s.y, s.z, 0, PatrolFaction, m.text, m.emoji)
  }

  function IsPatrolPred(): Message -> bool { (m: Message) => m.isPatrol }

  /** `WritePatrol` without the sheet write: one row per patrol message, in order. */
  function PatrolRows(messages: seq<Message>, bubble: seq<System>): (r: seq<PatrolRow>)
    ensures |r| == Count(messages, IsPatrolPred())
    ensures forall i :: 0 <= i < |messages| && messages[i].isPatrol ==> PatrolRowOf(messages[i], bubble) in r
    ensures forall i :: 0 <= i < |r| ==> exists j :: (0 <= j < |messages| && messages[j].isPatrol
      && r[i] == PatrolRowOf(messages[j], bubble))
  {
    var f := (m: Message) => PatrolRowOf(m, bubble);
    MapFilterMembers(messages, IsPatrolPred(), f);
    var r := Map(Filter(messages, IsPatrolPred()), f);
    forall j | 0 <= j < |messages| && messages[j].isPatrol ensures PatrolRowOf(messages[j], bubble) in r {
      assert IsPatrolPred()(messages[j]);
    }
    forall i | 0 <= i < |r| ensures exists j :: (0 <= j < |messages| && messages[j].isPatrol
      && r[i] == PatrolRowOf(messages[j], bubble)) {
      var j :| 0 <= j < |messages| && IsPatrolPred()(messages[j]) && r[i] == f(messages[j]);
    }
    r
  }

  /** Rows keep message order: rows of a concatenation are the concatenated rows. */
  lemma PatrolRowsInOrder(a: seq<Message>, b: seq<Message>, bubble: seq<System>)
    ensures PatrolRows(a + b, bubble) == PatrolRows(a, bubble) + PatrolRows(b, bubble)
  {
    FilterConcat(a, b, IsPatrolPred());
    MapConcat(Filter(a, IsPatrolPred()), Filter(b, IsPatrolPred()), (m: Message) => PatrolRowOf(m, bubble));
  }
}
