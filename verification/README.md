# Canon System Numberwang: the mission engine in Dafny

This project models the decision engine of Canon System Numberwang (CSN). CSN
is a planning tool for one player faction in Elite Dangerous' background
simulation. It takes a snapshot of the star systems around the faction's
empire and the faction presences in each. From that snapshot it produces a
ranked list of action messages. A lower priority number is more urgent: 2 for
a conflict, 3 to gain control, 4 when the lead is thin, 5 for fill-in
suggestions, 7 for retreat support, 9 for Thargoid threats, 10 for invasions,
11 for stale data, 21 for a resolved conflict and 25 for the retreat summary.

The model has three layers, one Dafny module per source file:

- `DataClasses` (dataclasses.dfy): systems, presences and states.
  - Add-or-replace of a presence, and the presence test.
  - Case-insensitive lookup by name.
  - Cube (Chebyshev) distance.
  - The range query `cube_systems`, and the faction-presence filter.
- `Csn` (csn.dfy): the rule evaluators and the per-system chain.
  - Evaluators: stale data, threat progress, retreat prevention, invasion and fill-in.
  - Chain order: override, then conflict, then peacetime, then control, then gap.
  - The final stable sort by priority, and the patrol projection of `WritePatrol`.
- `EliteBgs` (elitebgs.dfy): what `LiveSystemDetails` does with a fetched document.
  - The update guard, presences and states, and conflict mirroring.
  - The faction-list rebuild.
  - The refresh-or-touch decision of `RefreshFaction`.
- `Edsm` (edsm.dfy): converting the EDSM daily dump into systems, and the empire cube-range filter.
- `Api` (api.dfy):
  - The happiness label.
  - The `cubedist` annotation of the paged "systems near" answer.
  - The history scan behind `retreated_factions` and `retreated_systems`.

Supporting modules:

- `Wrappers`: `Option`, and `Result` with a `Fault` per exception the Python code lets escape.
- `Seqs`: an order-preserving filter, and a stable insertion sort with stability stated through `WithKey`, the subsequence of elements with one key.
- `Strings`: ASCII `lower`, `title` and substring tests.

Units and conventions:

- Influence is an integer in hundredths of a percent, so 12.34% is 1234. `SAFE_GAP` 15 is 1500 and `IGNORE_GAP` 29 is 2900.
- `round(100 * raw, 2)` is `Centi`: the nearest integer to raw × 10000, with ties to even.
- Times are integer seconds, and `timedelta.days` is a floor division by 86400.
- Coordinates are reals.

Values computed by classes outside the core are parameters. They are collected in `Csn.Config` and `DataClasses.Lookups`:

- the system influence, `controllingdetails.isPlayer` and `isIgnored`;
- `SIMPLERANGE`, the faction name and the invasion paranoia level;
- the `isPlayer` and `HomeSystem` archives;
- the `State` class's conflict test, and the source tag a new `Presence` gets;
- the displayed Euclidean distance, as a function of the squared distance.

My systems (`mySystems`) are fixed from the EDSM bubble before the live refresh, but the refresh updates those same system records in place. `Csn.MySystems` models this: the evaluators and the chain walk the pre-refresh membership with the refreshed values. So a system the faction has just expanded into gets no internal message, and a member the refresh leaves without the faction crashes the chain.

A Python exception becomes `Err(fault)`. Every fetched payload is an input value: a document, a list of records, or a list of pages.

## Model

| member | source | states |
|---|---|---|
| DataClasses.Centi | providers/EliteBGS.py:63 | the stored influence is within half a hundredth of 100 × raw, and an exact tie goes to the even value |
| DataClasses.CubeDistance | DataClasses.py:48-51 | cube distance is non-negative, at least each absolute axis difference, and equal to one of them |
| DataClasses.CubeDistanceSymmetric | DataClasses.py:48-51 | cube distance is symmetric and zero from a system to itself |
| DataClasses.BubbleDistance | DataClasses.py:108-110 | None exactly when either system is missing; otherwise the displayed distance of the squared distance |
| DataClasses.BubbleDistanceSymmetric | DataClasses.py:108-110 | the distance is the same whichever system is named first |
| DataClasses.BubbleCubeDistance | DataClasses.py:112-114 | None exactly when either system is missing; otherwise the non-negative cube distance, the same either way round |
| DataClasses.FirstNamed | DataClasses.py:62-65 | finds the first presence with the exact name, and None only when no presence has it |
| DataClasses.IsFactionPresent | DataClasses.py:68-73 | true exactly when some presence has exactly that name |
| DataClasses.AddFaction | DataClasses.py:53-66 | an existing name is replaced at its index, keeping the length; a new one is appended; other entries do not change; the system name inside the faction name makes the faction native; unique names stay unique |
| DataClasses.AddFactionExactlyOne | DataClasses.py:62-66 | with unique names before, exactly one presence carries the added name afterwards, and it is the added presence with its native flag |
| DataClasses.AddFactionKeepsNames | DataClasses.py:62-66 | no name is lost: the names before keep their positions |
| DataClasses.AddFactionKeepsPresent | DataClasses.py:53-73 | a faction present before an addition is still present after it |
| DataClasses.GetSystemIndex | DataClasses.py:103-106 | the index of the first case-insensitive name match, and None only when nothing matches |
| DataClasses.GetSystem | DataClasses.py:103-106 | `getsystem` returns the first case-insensitive match, or None exactly when no system matches |
| DataClasses.CubeSystems | DataClasses.py:116-124 | exactly the systems in cube range that lack the excluded faction (when one is given), each as often as in the input, sorted by distance from the origin |
| DataClasses.CubeSystemsStable | DataClasses.py:122-123 | systems at equal distance keep their input order |
| DataClasses.FactionPresence | DataClasses.py:126-128 | exactly the systems where the faction is present |
| DataClasses.FactionPresenceInOrder | DataClasses.py:126-128 | input order is kept: the result for a concatenation is the concatenation of the results |
| Strings.Lower | CSN.py:115 | `lower()` keeps the length and lower-cases each ASCII capital |
| Strings.SameIgnoringCaseIsEquivalence | DataClasses.py:106 | the case-insensitive name comparison is reflexive, symmetric and transitive |
| Strings.TitleKeepsLower | providers/EliteBGS.py:67-74 | title-casing a state name does not change its lower-case form, so the "retreat" test sees feed labels and title-cased labels alike |
| Strings.ContainsIffOccurs | DataClasses.py:57 | the substring test holds exactly when the needle occurs at some position |
| Strings.ContainsSelf | DataClasses.py:57 | a faction named after its system alone counts as native |
| Seqs.SortBy | CSN.py:281 | the sort returns a permutation of its input, ordered by the key |
| Seqs.SortByStable | CSN.py:281 | the sort is stable: for each key, the elements with that key keep their order |
| Seqs.PrefixSlice | CSN.py:160 | Python's `s[:n]`: min(n, length) elements for n ≥ 0, counted from the end for negative n, always a prefix |
| Csn.StaleMessage | CSN.py:85-86 | a stale-data message has priority 11, the data icon and the age in days |
| Csn.StaleExample | CSN.py:84 | at 50% influence, 31 days is stale, while 4 days and 5 days plus an hour are not |
| Csn.StaleDataMessages | CSN.py:78-88 | one message per system whose age in days exceeds influence / 10, every such system gets one, and each message comes from such a system |
| Csn.FirstThreat | CSN.py:96-97 | the first feed entry with the system's name, and None only when there is none |
| Csn.ThreatMessage | CSN.py:95-100 | priority 9, carrying the threat and progress of the first feed entry for the system, which is below 100% |
| Csn.ThreatMessages | CSN.py:91-102 | exactly one priority-9 message per system whose first feed entry is below 100%, and no other |
| Csn.ForeignNeighbourMeaning | CSN.py:113 | the neighbour test through `cube_systems` holds exactly when some system within simple range is not controlled by the faction |
| Csn.SupportMessage | CSN.py:116-117 | priority 7, naming the retreating faction and its influence |
| Csn.SupportIn | CSN.py:114-119 | at most one support message per presence, all priority 7 and for the system |
| Csn.SupportInSound | CSN.py:114-117 | every support message is for a presence with a non-recovering "retreat" state |
| Csn.SupportInComplete | CSN.py:114-117 | every presence with a non-recovering "retreat" state gets its support message |
| Csn.SupportInCount | CSN.py:114-119 | the number of support messages is the number of retreating presences |
| Csn.SupportInNone | CSN.py:114-115 | with no retreating presence there is no support message |
| Csn.RetreatSupport | CSN.py:109-119 | the support messages all have priority 7 |
| Csn.RetreatSupportSound | CSN.py:109-119 | each support message is for a retreating faction of an owned, full system with a foreign neighbour |
| Csn.RetreatSupportComplete | CSN.py:109-119 | every retreating faction of such a system gets a support message |
| Csn.RetreatMessages | CSN.py:105-125 | the support messages, then a priority-25 summary exactly when there is at least one; the summary lists one name per message |
| Csn.RetreatExample | CSN.py:105-125 | a watched system with one retreating faction gives one support message and a summary naming it once |
| Csn.FirstTargetFor | CSN.py:160-164 | the index of the first target aimed at the faction, and None only when there is none |
| Csn.InvadesMeaning | CSN.py:159-161 | invasion applies exactly to an eligible source whose first `cycles` targets include the faction |
| Csn.InvasionMessage | CSN.py:160-164 | priority 10; rank is the 1-based position of the first matching target among the first `cycles`; that target's description and system, the controller and the influence are reported |
| Csn.InvasionMessages | CSN.py:152-165 | exactly one priority-10 message per invading system of the bubble, and no other |
| Csn.FillInChoice | CSN.py:192-196 | min(count, number of candidates) owned systems with a runner-up and a gap in the inclusive band, sorted by gap, each taken no more often than it is a candidate |
| Csn.FillInChoiceSmallest | CSN.py:195-196 | no candidate left out has a smaller gap than one suggested |
| Csn.FillInMessages | CSN.py:189-200 | one priority-5 suggestion per chosen system, in the chosen order, naming the runner-up and gap; so at most `count`, each for a candidate with 15% ≤ gap ≤ 29%, in ascending gap order |
| Csn.FillInMessagesFrom | CSN.py:196-199 | suggestions for candidates taken from my systems name one of them with its gap, in the order of the chosen gaps |
| Csn.FillInBandExample | CSN.py:192-194 | of gaps 10%, 16%, 29% and 40%, only 16% and 29% lie in the band |
| Csn.RoundTenth | CSN.py:235-236 | `round(x, 1)` gives a multiple of a tenth within half a tenth of x |
| Csn.HasKindConcat | CSN.py:243 | an override or peacetime message is found in a concatenation exactly when it is in one of the parts |
| Csn.FirstConflict | CSN.py:248-249 | the first conflict state, and None only when no state is a conflict |
| Csn.RemoveSpaces | CSN.py:251 | the icon key is the state name with every space dropped and the other characters kept in order |
| Csn.SystemStep | CSN.py:232-278 | an overridden system gets nothing; without an override, a missing presence of the faction is exactly the missing-presence fault (the `None.states` crash); reaching the control links with my control, gap ≤ 15% and no runner-up is exactly the no-runner-up fault (the `factions[1]` crash); otherwise at most two messages, for the system |
| Csn.SystemStepContinues | CSN.py:249-278 | past the conflict check without a peacetime message, the step is the recovering note (if any) followed by whatever the control and gap links report, their fault included |
| Csn.SystemStepConflict | CSN.py:246-264 | a live conflict gives exactly one priority-2 message; a recovering one gives a priority-21 info message first, and under a peacetime message that note is all; at most one terminal message, last |
| Csn.SystemStepControl | CSN.py:262-278 | a peacetime message stops evaluation after the conflict check; a message has priority 3 exactly when it is the gain-control message for a system another faction controls, with no peacetime message; priority 4 only for an owned system with gap ≤ 15% and a runner-up, naming the runner-up and gap |
| Csn.ControlStep | CSN.py:266-278 | another controller gets exactly one priority-3 message; my control with gap ≤ 15% and a runner-up gets exactly one priority-4 warning naming the runner-up and gap; my control with a larger gap gets nothing; my control, a thin lead and no runner-up is the fault |
| Csn.RunChain | CSN.py:232-280 | the chain only appends to the messages so far, and each appended message is an ordinary message for one of the faction's systems |
| Csn.ChainRunsStep | CSN.py:232-278 | in a successful run every system of the faction gets its step, seeing the batch plus only ordinary chain messages, and what the step appends is in the result right after what it saw |
| Csn.NormalKeepsKinds | CSN.py:243-264 | chain messages never change whether a system has an OVERRIDE or PEACETIME message, so the batch alone decides those links |
| Csn.GeneratedReportsConflict | CSN.py:246-281 | end to end: a system with a live conflict of the faction and no override gets a priority-2 message in the output |
| Csn.GeneratedReportsControl | CSN.py:262-281 | end to end: a system with no override, no peacetime and no live conflict gets a priority-3 message when another faction controls it, and a priority-4 warning when the faction controls it with gap ≤ 15% |
| Csn.StepSkipsOverridden | CSN.py:242-244 | a step never emits a message for an overridden system |
| Csn.OverrideSilencesChain | CSN.py:242-244 | a system with an OVERRIDE message gets no message from the whole chain |
| Csn.ChainOverMineHasPresence | CSN.py:237-249 | when every system walked still has the faction, the chain never meets the missing-presence fault |
| Csn.GeneratedFailsOnLostPresence | CSN.py:237-249 | a system walked that has lost the faction and is not overridden aborts the run with a fault (the `None.states` crash) |
| Csn.MySystems | CSN.py:207-213 | membership is that of the bubble before the refresh (as many members as systems with the faction then), each member carrying its refreshed value |
| Csn.MySystemsMembers | CSN.py:207-213 | every system with the faction before the refresh is a member, with its refreshed value |
| Csn.MySystemsNames | CSN.py:207-213 | member by member, the names are those of the pre-refresh presence list, in order |
| Csn.MySystemsUnrefreshed | CSN.py:209 | without a refresh the members are exactly the faction's presence list |
| Csn.Evaluated | CSN.py:215-224 | the manual overrides come first, and the batch holds exactly the messages of the overrides and of the six evaluators, each as often as produced |
| Csn.EvaluatedTieOrder | CSN.py:215-224 | among messages of one priority the batch lists them block by block: overrides, stale data, threats, retreats, invasions, carriers, fill-ins |
| Csn.GeneratedTieOrder | CSN.py:215-281 | among messages of one priority the final output lists the evaluated batch first, block by block in that order, ahead of the chain's messages |
| Csn.SortByPriority | CSN.py:281 | the final list is a permutation of the messages, in ascending priority |
| Csn.GenerateMissions | CSN.py:203-281 | succeeds exactly when the chain does; the output is a permutation of the chain's messages, sorted by priority, and contains every evaluated message |
| Csn.GenerateMissionsStable | CSN.py:281 | messages of equal priority keep their generation order |
| Csn.PatrolRowOf | CSN.py:34-36 | a patrol row carries the message's name, text and icon, strength 0 and the faction tag; coordinates come from the lookup, or 0,0,0 when the lookup misses |
| Csn.PatrolRows | CSN.py:28-38 | exactly one row per patrol message |
| Csn.PatrolRowsInOrder | CSN.py:32-36 | rows come in message order |
| EliteBgs.PresenceOf | providers/EliteBGS.py:61-74 | the presence has the document's name, rounded influence and player flag, with one state per pending, active and recovering label |
| EliteBgs.PresenceStatesInOrder | providers/EliteBGS.py:66-74 | states come pending first, then active, then recovering, each in feed order and with its phase |
| EliteBgs.AddPositiveKeeps | providers/EliteBGS.py:76-77 | presences already there stay present |
| EliteBgs.AddPositiveAdds | providers/EliteBGS.py:76-77 | every presence with positive influence is added |
| EliteBgs.AddPositiveOnlyPositive | providers/EliteBGS.py:76-77 | nothing with influence at or below zero is added |
| EliteBgs.AddFactionNewcomer | DataClasses.py:62-66 | whatever an addition leaves that was not there before is the added presence |
| EliteBgs.AddFactionKeepsFirst | DataClasses.py:62-66 | the first presence of a name keeps its source tag across an addition that carries the same tag |
| EliteBgs.AddPositiveKeepFirst | providers/EliteBGS.py:76-77 | additions that all carry a tag never take it off the first presence of a name |
| EliteBgs.AddPositiveSourced | providers/EliteBGS.py:76-77 | the first presence named after a positive document carries the tag of the added presences |
| EliteBgs.MirrorStates | providers/EliteBGS.py:85-91 | every conflict state gets opponent, stake, days won, days lost and gain from its side; other states are unchanged |
| EliteBgs.MirrorPresence | providers/EliteBGS.py:82-100 | conflict pairing changes only a presence's states, never their number |
| EliteBgs.ApplyConflicts | providers/EliteBGS.py:79-100 | conflict pairing keeps every presence and changes only its states |
| EliteBgs.MirrorSymmetric | providers/EliteBGS.py:83-100 | the two sides agree: one side's days won are the other's days lost, one's stake is the other's gain, and each names the other as opponent |
| EliteBgs.ConflictsLeaveOthers | providers/EliteBGS.py:79-100 | presences outside every conflict, and states that are not conflicts, are unchanged |
| EliteBgs.RebuildMembers | providers/EliteBGS.py:103-105 | the rebuild keeps exactly the presences tagged EBGS |
| EliteBgs.RebuildOrder | providers/EliteBGS.py:103-105 | the rebuild orders by influence, highest first, with ties in list order |
| EliteBgs.Rebuild | providers/EliteBGS.py:102-105 | only EBGS-tagged presences, all of them, each as often as before, highest influence first, ties in list order |
| EliteBgs.Update | providers/EliteBGS.py:49-105 | the update sets source, time and controller from the document and changes nothing else outside the faction list, which is EBGS-only and sorted by descending influence |
| EliteBgs.UpdatedFromGathered | providers/EliteBGS.py:103-105 | each presence after the rebuild was gathered from the system or the document |
| EliteBgs.LiveSystemDetails | providers/EliteBGS.py:28-106 | the system changes only when a document arrived that is newer or the call is forced; then it is the update; a failed fetch returns the system unchanged |
| EliteBgs.UpdatedHasPresence | providers/EliteBGS.py:58-77 | when new presences carry the EliteBGS source tag, every faction document with positive rounded influence is present after an update |
| EliteBgs.UpdatedOnlyPositive | providers/EliteBGS.py:76-77 | every presence after an update was there before or is named after a document with positive rounded influence |
| EliteBgs.GatheredOnlyPositive | providers/EliteBGS.py:58-77 | gathering adds presences only for documents with positive rounded influence |
| EliteBgs.RefreshOne | providers/EliteBGS.py:141-147 | an unknown name is a fault; otherwise only that system changes: it is refetched (forced in conflict) when stored data is older or in conflict, and otherwise only its time is overwritten |
| EliteBgs.TouchNeverAdvances | providers/EliteBGS.py:146-147 | without a conflict or newer data, the stored time is overwritten with the listed, older or equal time |
| EliteBgs.RefreshChangesOnlyWhenDue | providers/EliteBGS.py:143-147 | a system changes only through a fetch that is due and newer (or forced), or through the touch moving its time back |
| EliteBgs.GetSystemIndexByNames | DataClasses.py:103-106 | the lookup depends on the names alone |
| EliteBgs.RefreshFaction | providers/EliteBGS.py:137-147 | the refresh keeps the bubble's systems and their names, and a system that no listed name finds is left exactly as it was |
| EliteBgs.RefreshFactionForcesConflict | providers/EliteBGS.py:141-145 | a listed system in conflict, not listed again later, ends as a forced fetch of the stored system of that name |
| EliteBgs.RefreshFactionFails | providers/EliteBGS.py:141-143 | the refresh fails exactly when some listed name matches no system, and then with that name |
| Edsm.PresenceOf | providers/EDSM.py:76-87 | a missing recovering list is a fault naming the faction; otherwise the presence has the record's name, rounded influence, happiness and player flag, and one state per label |
| Edsm.PresenceStatesInOrder | providers/EDSM.py:79-87 | states come active first, then pending, then recovering, each in record order and with its phase |
| Edsm.AddFactionsFails | providers/EDSM.py:72-89 | conversion fails exactly when a record with positive raw influence lacks a recovering list, naming the first such record |
| Edsm.AddFactionsKeeps | providers/EDSM.py:73-89 | presences already there stay present |
| Edsm.AddFactionsAdds | providers/EDSM.py:73-89 | every record with positive raw influence becomes a presence, even one that rounds to zero |
| Edsm.AddFactionsOnlyCounted | providers/EDSM.py:74 | records with influence at or below zero add nothing |
| Edsm.StationOf | providers/EDSM.py:93-96 | a station's faction is the controlling faction, or the station type when none is recorded |
| Edsm.ConvertSystem | providers/EDSM.py:66-98 | fails exactly on a counted record lacking recovering states; otherwise name, coordinates, population, controller, stations, the dump's time and the EDSM tag come from the record |
| Edsm.ConvertSystemPresences | providers/EDSM.py:71-89 | the converted presences are exactly the records with positive raw influence |
| Edsm.ConvertAll | providers/EDSM.py:65-98 | fails exactly when some record fails; otherwise one system per record, in order |
| Edsm.MinCube | providers/EDSM.py:105-106 | the smallest cube distance from a system to the empire, reached by some empire system |
| Edsm.MinCubeWithin | providers/EDSM.py:105-106 | the minimum is within range exactly when some empire system is |
| Edsm.EmpireFilter | providers/EDSM.py:101-108 | with no faction given, or a faction present nowhere, the list is unchanged |
| Edsm.EmpireFilterMembers | providers/EDSM.py:101-106 | a system is kept exactly when some empire system is within range of it |
| Edsm.EmpireKept | providers/EDSM.py:102-106 | with a non-negative range every empire system is kept |
| Edsm.GetSystemsFromEdsm | providers/EDSM.py:59-112 | fails exactly when conversion fails; otherwise every result is a converted system and there are no more of them than records |
| Api.HappyText | api.py:86 | "Elated" exactly for band 1, "Happy" exactly for band 2, and "Peeved" for every other code |
| Api.NearSystemsMeaning | api.py:157-187 | fails exactly when an empty page precedes a non-empty one; otherwise all records of all pages in order, each measured from the first record of the first page |
| Api.Chronological | api.py:317 | history entries are taken in ascending time order, none is lost or added, and entries with equal times keep their order |
| Api.Arrive | api.py:319-322 | tracked names keep their places; a name ends up tracked exactly when it was tracked or is in the snapshot, with no duplicates |
| Api.ArriveFirstOrder | api.py:319-322 | the appended names were not tracked before, and they are appended in the order of their first appearance in the snapshot |
| Api.DepartMembers | api.py:323-328 | after a departure check a name is still tracked exactly when it is present, and recorded exactly when it was tracked and is absent |
| Api.DepartWalkIsDepart | api.py:323-328 | the corrected in-place walk records and keeps exactly what the departure split does |
| Api.DepartWalkSplits | api.py:323-328 | from any position, the corrected walk keeps the present names and records the absent ones, in list order |
| Api.RemoveFirst | api.py:328 | `list.remove` drops one occurrence when the name is there, and changes nothing otherwise |
| Api.RemoveFirstAt | api.py:328 | the occurrence dropped is the first one, and the other names keep their order |
| Api.DepartAsWritten | api.py:323-328 | the written loop records only absent names and loses none: kept plus recorded is what was tracked |
| Api.DepartSkipsExample | api.py:323-328 | tracking A and B with neither present, the written loop records only A |
| Api.ScanFromMembers | api.py:318-328 | a name ends up recorded exactly when some entry lacks it while the entry before had it |
| Api.RetreatedMeaning | api.py:315-333 | corrected scan (the same code serves `retreated_systems` at api.py:350-368): a name is recorded exactly when, in time order, some entry lacks it while the previous entry had it |
| Api.ArriveExample | api.py:319-322 | arrivals from nothing take the snapshot's order, and a name seen once stays tracked |
| Api.DepartNoneLeftExample | api.py:323-328 | with everyone present, nothing is recorded by either version |
| Api.ScanAsWrittenSound | api.py:318-328 | from any entry on, the written scan records only names that some entry lacks while the entry before had it; a name its loop skips has left already or is still there |
| Api.RetreatedAsWrittenSound | api.py:315-333 | the written `retreated_factions` never invents a retreat: every name it records, the corrected scan records too |
| Api.RetreatedSkipsExample | api.py:315-333 | the history "A and B, then neither" records only A as written, and both A and B when corrected |
| Api.ChronologicalInOrderExample | api.py:317 | two entries already in time order stay as they are |

## Left out

- HTTP requests, pagination, retries and request counting (`requests` in api.py, providers/EliteBGS.py and providers/EDSM.py). Fetched payloads are input values.
- `EliteBGSFactionSystems` and `FactionsEverPresent`: remote fetch loops. The listed systems are an input to `RefreshFaction`.
- EDSM cache download and gzip/JSON loading (providers/EDSM.py:19-60). The dump and its modification time are inputs.
- History pickles (`HistoryCovert`, `HistoryLoad`, `HistorySave`) and the message pickle dump. These are file I/O.
- Discord and Google Sheets output (`WriteDiscord`, `CSNPatrolWrite`). `WritePatrol` is modelled up to the rows it writes.
- `OverrideMessages` and `ExpandMessage`. They read a sheet and use `str.format`. Override and peacetime messages are an input list.
- `FleetCarrierMessages`: a remote lookup inside a bare `except`. Its messages are an input list.
- `DCOHThargoidMessages`' fetch. The threat summary is an input.
- `MarketMessages`: a stub returning None that is never called.
- Date parsing (`EliteBGSDateTime`) and `datetime.now()`. Times are integers.
- Message text formatting. Texts are kept as the values their format strings render.
- Square roots and float rounding of the Euclidean distance. The displayed distance is a parameter applied to the squared distance.
- CSNSettings.py, CSNSchedule.py and the root EDSM.py are not part of this model. They cover settings, scheduling and an older copy of the provider.
- The classes `BubbleExpansion`, `System.influence`, `controllingdetails`, `isIgnored`, `dIcons`, `isPlayer` and `HomeSystem` are not part of this model. Their values are parameters.
- A failed fetch inside `retreated_factions`/`retreated_systems` leaves `myload` None and then crashes. Only the scan over a fetched history is modelled.
- A failed first page in `getnearsystems` crashes on `content['hasNextPage']`. Only fetched pages are modelled.
- Stations keep only type, name and faction. Ids, ids64, economy, security, allegiance and government are not modelled, because no rule reads them.
- DataClasses.Centi: uses exact real arithmetic, not binary floating point. A value one float step away from a tie may round differently in Python.
- Csn.RoundTenth: the same exact-arithmetic reading of `round(x, 1)`.
- Csn.SystemStep: a conflict state whose icon key is missing from the icon table (a `KeyError`) is not modelled, because the icon table is not part of this model.
- EliteBgs.UpdatedHasPresence: holds only when a new presence gets the EliteBGS source tag. The tag comes from the `Presense` class, which is not part of this model, so it is a hypothesis.
- Csn.SupportMessage: carries the influence unrounded; the one-decimal rounding in the text is formatting.
- Strings.Lower: covers ASCII letters only; Unicode case mapping is not modelled.
- Edsm.EmpireFilter: uses the two-argument cube distance of DataClasses.py. The `System` class the provider imports is not part of this model.
- Api.NearSystemsMeaning: an empty page followed by records is a `MissingReference` fault here. In Python it is a `TypeError` on `refsystem['x']`.

## Findings

| source | as written | input that shows it | evidently intended | confidence | as-written member | corrected member |
|---|---|---|---|---|---|---|
| api.py:323-328 | `for f in factions:` removes the departed `f` from `factions` while iterating, so the name that slides into the freed position is skipped in that snapshot (the same loop is at api.py:358-363) | history with entry 1 = [A, B], then entry 2 = [] | every tracked name absent from the current entry is recorded as retreated: both A and B | not executed | Api.DepartAsWritten, Api.DepartSkipsExample, Api.RetreatedSkipsExample, Api.RetreatedAsWrittenSound | Api.Depart, Api.DepartWalkIsDepart, Api.RetreatedMeaning |
