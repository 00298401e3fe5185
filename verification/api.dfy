/** The pure steps of api.py: the happiness label, the cube-distance
    annotation of a paged "systems near" answer, and the history scan behind
    `retreated_factions` and `retreated_systems`. The HTTP requests are left
    out: each operation takes the decoded response as input. */
module Api {
  import opened Wrappers
  import opened Seqs
  import opened DataClasses

  // -------------------------------------------------------- happiness label

  const Band1 := "$faction_happinessband1;"
  const Band2 := "$faction_happinessband2;"

  /** The label `getfaction` attaches to a presence's happiness code: the
      first two bands have names, every other code reads as "Peeved". */
  function HappyText(happiness: string): (r: string)
    ensures r == "Elated" || r == "Happy" || r == "Peeved"
    ensures r == "Elated" <==> happiness == Band1
    ensures r == "Happy" <==> happiness == Band2
  {
    if happiness == Band1 then "Elated" else if happiness == Band2 then "Happy" else "Peeved"
  }

  // ------------------------------------------------- the near-systems pages

  /** One record of a "systems near" page: a name and coordinates. */
  datatype NearRecord = NearRecord(name: string, x: real, y: real, z: real)

  /** A record with its `cubedist` annotation. */
  datatype Annotated = Annotated(rec: NearRecord, cubedist: real)

  function CubeFrom(ref: NearRecord, r: NearRecord): real
  {
    Max3(Abs(r.x - ref.x), Abs(r.y - ref.y), Abs(r.z - ref.z))
  }

  function Annotate(recs: seq<NearRecord>, ref: NearRecord): (r: seq<Annotated>)
    ensures |r| == |recs|
    ensures forall i :: 0 <= i < |recs| ==> r[i] == Annotated(recs[i], CubeFrom(ref, recs[i]))
  {
    if recs == [] then [] else [Annotated(recs[0], CubeFrom(ref, recs[0]))] + Annotate(recs[1..], ref)
  }

  function Records(a: seq<Annotated>): (r: seq<NearRecord>)
    ensures |r| == |a| && forall i :: 0 <= i < |a| ==> r[i] == a[i].rec
  {
    if a == [] then [] else [a[0].rec] + Records(a[1..])
  }

  /** All records of the pages, in page order. */
  function Flatten(pages: seq<seq<NearRecord>>): seq<NearRecord>
  {
    if pages == [] then [] else pages[0] + Flatten(pages[1..])
  }

  /** Some page is empty while a later page is not. */
  predicate GapBefore(pages: seq<seq<NearRecord>>)
  {
    exists k, j :: 0 <= k < j < |pages| && pages[k] == [] && pages[j] != []
  }

  /** `getnearsystems` from page `pages[0]` on: the later pages are fetched
      and annotated first, then this call's records and theirs are
      (re)annotated from the first record of this call's page. An empty page
      followed by records has no reference record, a fault. */
  function NearSystems(pages: seq<seq<NearRecord>>): (r: Result<seq<Annotated>>)
    requires pages != []
    decreases |pages|
  {
    var rest := if |pages| == 1 then Ok([]) else NearSystems(pages[1..]);
    match rest
    case Err(f) => Err(f)
    case Ok(later) =>
      var answer := pages[0] + Records(later);
      if answer == [] then Ok([])
      else if pages[0] == [] then Err(MissingReference)
      else Ok(Annotate(answer, pages[0][0]))
  }

  /** The answer fails exactly when an empty page precedes a non-empty one;
      otherwise it lists every record of every page in order, each measured
      from the very first record of the first page. */
  lemma {:induction false} NearSystemsMeaning(pages: seq<seq<NearRecord>>)
    requires pages != []
    ensures NearSystems(pages).Err? <==> GapBefore(pages)
    ensures NearSystems(pages).Ok? ==> Records(NearSystems(pages).value) == Flatten(pages)
    ensures NearSystems(pages).Ok? && pages[0] != [] ==> (forall i :: 0 <= i < |NearSystems(pages).value| ==>
      NearSystems(pages).value[i].cubedist == CubeFrom(pages[0][0], NearSystems(pages).value[i].rec))
    decreases |pages|
  {
    var tail := pages[1..];
    assert forall k :: 0 <= k < |tail| ==> tail[k] == pages[k + 1];
    if |pages| == 1 {
      assert !GapBefore(pages);
      assert Flatten(pages) == pages[0] + Flatten([]);
    } else {
      NearSystemsMeaning(tail);
      assert Flatten(pages) == pages[0] + Flatten(tail);
      if GapBefore(tail) {
        var k, j :| 0 <= k < j < |tail| && tail[k] == [] && tail[j] != [];
        assert pages[k + 1] == [] && pages[j + 1] != [];
      } else {
        var later := NearSystems(tail).value;
        assert Records(later) == Flatten(tail);
        forall k, j | 0 < k < j < |pages| ensures !(pages[k] == [] && pages[j] != []) {
          assert !(tail[k - 1] == [] && tail[j - 1] != []);
        }
        FlattenNonEmpty(tail);
        if pages[0] == [] && Flatten(tail) != [] {
          var j :| 0 <= j < |tail| && tail[j] != [];
          assert pages[j + 1] != [];
        }
        var answer := pages[0] + Records(later);
        if answer != [] && pages[0] != [] {
          assert Records(Annotate(answer, pages[0][0])) == answer;
        }
      }
    }
  }

  /** The pages flatten to something exactly when some page holds a record. */
  lemma {:induction false} FlattenNonEmpty(pages: seq<seq<NearRecord>>)
    ensures Flatten(pages) != [] <==> exists j :: 0 <= j < |pages| && pages[j] != []
    decreases |pages|
  {
    if pages != [] {
      var tail := pages[1..];
      assert forall j :: 0 <= j < |tail| ==> tail[j] == pages[j + 1];
      FlattenNonEmpty(tail);
      if exists j :: 0 <= j < |pages| && pages[j] != [] {
        var j :| 0 <= j < |pages| && pages[j] != [];
        if j > 0 {
          assert tail[j - 1] != [];
        }
      }
      if exists j :: 0 <= j < |tail| && tail[j] != [] {
        var j :| 0 <= j < |tail| && tail[j] != [];
        assert pages[j + 1] != [];
      }
    }
  }

  // ------------------------------------------------------- the history scan

  /** One entry of a system's (or faction's) history: when it was recorded
      and the names present then (factions in a system, or systems of a
      faction). */
  datatype Snapshot = Snapshot(updatedAt: int, names: seq<string>)

  function UpdatedKey(): Snapshot -> int { (h: Snapshot) => h.updatedAt }

  /** The history in time order; entries with the same time keep their order. */
  function Chronological(history: seq<Snapshot>): (r: seq<Snapshot>)
    ensures multiset(r) == multiset(history)
    ensures forall i, j :: 0 <= i < j < |r| ==> r[i].updatedAt <= r[j].updatedAt
    ensures forall t :: WithKey(r, UpdatedKey(), t) == WithKey(history, UpdatedKey(), t)
  {
    var r := SortBy(history, UpdatedKey());
    assert SortedBy(r, UpdatedKey());
    forall t ensures WithKey(r, UpdatedKey(), t) == WithKey(history, UpdatedKey(), t) {
      SortByStable(history, UpdatedKey(), t);
    }
    r
  }

  predicate NoDups(s: seq<string>)
  {
    forall i, j :: 0 <= i < j < |s| ==> s[i] != s[j]
  }

  /** The position of the first `x` in `s`, or `|s|` when there is none. */
  function FirstIndex(s: seq<string>, x: string): (r: nat)
    ensures r <= |s|
    ensures r < |s| ==> s[r] == x
    ensures forall i :: 0 <= i < r ==> s[i] != x
  {
    if s == [] then 0
    else if s[0] == x then 0
    else 1 + FirstIndex(s[1..], x)
  }

  /** Arrivals: each name of the snapshot not yet tracked is appended. */
  function Arrive(tracked: seq<string>, names: seq<string>): (r: seq<string>)
    ensures |tracked| <= |r| && r[..|tracked|] == tracked
    ensures forall x :: x in r <==> x in tracked || x in names
    ensures NoDups(tracked) ==> NoDups(r)
    decreases |names|
  {
    if names == [] then tracked
    else
      var t := if names[0] in tracked then tracked else tracked + [names[0]];
      assert t[..|tracked|] == tracked;
      assert forall x :: x in names <==> x == names[0] || x in names[1..];
      Arrive(t, names[1..])
  }

  /** The appended names were not tracked before, and they enter in the
      order of their first appearance in the snapshot. */
  lemma {:induction false} ArriveFirstOrder(tracked: seq<string>, names: seq<string>)
    ensures forall i :: |tracked| <= i < |Arrive(tracked, names)| ==> Arrive(tracked, names)[i] !in tracked
    ensures forall i, j :: |tracked| <= i < j < |Arrive(tracked, names)| ==>
      FirstIndex(names, Arrive(tracked, names)[i]) < FirstIndex(names, Arrive(tracked, names)[j])
    decreases |names|
  {
    if names != [] {
      var t := if names[0] in tracked then tracked else tracked + [names[0]];
      assert Arrive(t, names[1..]) == Arrive(tracked, names);
      ArriveFirstOrder(t, names[1..]);
      ArriveOrderStep(tracked, names, t, Arrive(t, names[1..]));
    }
  }

  /** One arrival step of `ArriveFirstOrder`: what holds of the rest of the
      snapshot after `t` holds of the whole snapshot after `tracked`. */
  lemma ArriveOrderStep(tracked: seq<string>, names: seq<string>, t: seq<string>, r: seq<string>)
    requires names != [] && t == if names[0] in tracked then tracked else tracked + [names[0]]
    requires |t| <= |r| && r[..|t|] == t
    requires forall i :: |t| <= i < |r| ==> r[i] !in t
    requires forall i, j :: |t| <= i < j < |r| ==> FirstIndex(names[1..], r[i]) < FirstIndex(names[1..], r[j])
    ensures forall i :: |tracked| <= i < |r| ==> r[i] !in tracked
    ensures forall i, j :: |tracked| <= i < j < |r| ==> FirstIndex(names, r[i]) < FirstIndex(names, r[j])
  {
    var x := names[0];
    assert x in t by {
      if x !in tracked {
        assert t[|tracked|] == x;
      }
    }
    forall i | |t| <= i < |r|
      ensures r[i] !in tracked && FirstIndex(names, r[i]) == 1 + FirstIndex(names[1..], r[i])
    {
      assert r[i] !in t && r[i] != x;
    }
    if x !in tracked {
      assert r[|tracked|] == x by {
        assert r[|tracked|] == r[..|t|][|tracked|];
      }
    }
  }

  /** How a departure check splits the tracked names: those that stay and
      those recorded as gone. */
  datatype Split = Split(kept: seq<string>, gone: seq<string>)

  /** Departures as evidently intended: every tracked name is checked; those
      absent from the snapshot are recorded, in tracked order, and stop being
      tracked. */
  function Depart(tracked: seq<string>, present: seq<string>): (r: Split)
    ensures |r.kept| + |r.gone| == |tracked|
    decreases |tracked|
  {
    if tracked == [] then Split([], [])
    else
      var d := Depart(tracked[1..], present);
      if tracked[0] in present then Split([tracked[0]] + d.kept, d.gone)
      else Split(d.kept, [tracked[0]] + d.gone)
  }

  /** Membership of either side of the split, both ways. */
  lemma {:induction false} DepartMembers(tracked: seq<string>, present: seq<string>, x: string)
    ensures x in Depart(tracked, present).kept <==> x in tracked && x in present
    ensures x in Depart(tracked, present).gone <==> x in tracked && x !in present
    decreases |tracked|
  {
    if tracked != [] {
      DepartMembers(tracked[1..], present, x);
      assert tracked == [tracked[0]] + tracked[1..];
    }
  }

  /** The departure walk done in place, corrected: position `i` advances
      only past a name that stays; a name that leaves is deleted there and
      the name sliding into its place is looked at next. */
  function DepartWalk(tracked: seq<string>, present: seq<string>, i: nat, gone: seq<string>): Split
    decreases |tracked| - i
  {
    if i >= |tracked| then Split(tracked, gone)
    else if tracked[i] !in present then
      DepartWalk(tracked[..i] + tracked[i + 1..], present, i, gone + [tracked[i]])
    else DepartWalk(tracked, present, i + 1, gone)
  }

  /** From position `i` on, the corrected walk keeps exactly the present
      names and records exactly the absent ones, each in list order. */
  lemma {:induction false} DepartWalkSplits(tracked: seq<string>, present: seq<string>, i: nat, gone: seq<string>)
    requires i <= |tracked|
    ensures DepartWalk(tracked, present, i, gone) == Split(
      tracked[..i] + Depart(tracked[i..], present).kept, gone + Depart(tracked[i..], present).gone)
    decreases |tracked| - i
  {
    if i == |tracked| {
      assert tracked[i..] == [] && tracked[..i] == tracked;
    } else {
      var x, rest := tracked[i], tracked[i + 1..];
      assert tracked[i..][0] == x && tracked[i..][1..] == rest;
      var d := Depart(rest, present);
      if x !in present {
        var t := tracked[..i] + rest;
        assert t[..i] == tracked[..i] && t[i..] == rest;
        DepartWalkSplits(t, present, i, gone + [x]);
        assert gone + [x] + d.gone == gone + ([x] + d.gone);
      } else {
        assert tracked[..i + 1] == tracked[..i] + [x];
        DepartWalkSplits(tracked, present, i + 1, gone);
        assert tracked[..i + 1] + d.kept == tracked[..i] + ([x] + d.kept);
      }
    }
  }

  /** The corrected walk from the start is the intended departure split. */
  lemma DepartWalkIsDepart(tracked: seq<string>, present: seq<string>)
    ensures DepartWalk(tracked, present, 0, []) == Depart(tracked, present)
  {
    DepartWalkSplits(tracked, present, 0, []);
    assert tracked[..0] == [] && tracked[0..] == tracked;
  }

  /** Python's `list.remove`: drop the first occurrence of `x`. */
  function RemoveFirst(s: seq<string>, x: string): (r: seq<string>)
    ensures x in s ==> |r| == |s| - 1 && multiset(r) == multiset(s) - multiset{x}
    ensures x !in s ==> r == s
  {
    if s == [] then []
    else
      assert s == [s[0]] + s[1..];
      if s[0] == x then s[1..]
      else [s[0]] + RemoveFirst(s[1..], x)
  }

  /** It is the first occurrence that goes; the rest keep their order. */
  lemma {:induction false} RemoveFirstAt(s: seq<string>, x: string)
    requires x in s
    ensures RemoveFirst(s, x) == s[..FirstIndex(s, x)] + s[FirstIndex(s, x) + 1..]
  {
    if s[0] != x {
      var t := s[1..];
      assert s == [s[0]] + t;
      assert x in t;
      RemoveFirstAt(t, x);
      var f := FirstIndex(t, x);
      assert FirstIndex(s, x) == f + 1;
      assert RemoveFirst(s, x) == [s[0]] + RemoveFirst(t, x);
      assert s[..f + 1] == [s[0]] + t[..f];
      assert s[f + 2..] == t[f + 1..];
    }
  }

  /** Departures as api.py writes them: a `for` loop over the tracked list
      that removes from the same list. The loop's position `i` still advances
      after a removal, so the name that slid into position `i` is never
      looked at. */
  function DepartAsWritten(tracked: seq<string>, present: seq<string>, i: nat, gone: seq<string>): (r: Split)
    ensures forall x :: x in r.gone && x !in gone ==> x !in present
    ensures multiset(r.kept) + multiset(r.gone) == multiset(tracked) + multiset(gone)
    decreases |tracked| - i
  {
    if i >= |tracked| then Split(tracked, gone)
    else if tracked[i] !in present then
      DepartAsWritten(RemoveFirst(tracked, tracked[i]), present, i + 1, gone + [tracked[i]])
    else DepartAsWritten(tracked, present, i + 1, gone)
  }

  /** The skip: tracking A then B and seeing neither, the written loop
      records only A and keeps tracking B. */
  lemma DepartSkipsExample()
    ensures DepartAsWritten(["A", "B"], [], 0, []) == Split(["B"], ["A"])
    ensures Depart(["A", "B"], []) == Split([], ["A", "B"])
  {
    assert RemoveFirst(["A", "B"], "A") == ["B"];
    assert ["A", "B"][1..] == ["B"] && ["B"][1..] == [];
  }

  /** The scan from a given state on: arrivals, then departures, per entry. */
  function ScanFrom(snaps: seq<Snapshot>, tracked: seq<string>, retreated: seq<string>): seq<string>
    decreases |snaps|
  {
    if snaps == [] then retreated
    else
      var d := Depart(Arrive(tracked, snaps[0].names), snaps[0].names);
      ScanFrom(snaps[1..], d.kept, retreated + d.gone)
  }

  function ScanFromAsWritten(snaps: seq<Snapshot>, tracked: seq<string>, retreated: seq<string>): seq<string>
    decreases |snaps|
  {
    if snaps == [] then retreated
    else
      var d := DepartAsWritten(Arrive(tracked, snaps[0].names), snaps[0].names, 0, []);
      ScanFromAsWritten(snaps[1..], d.kept, retreated + d.gone)
  }

  /** The names recorded as retreated, corrected. */
  function Retreated(history: seq<Snapshot>): seq<string>
  {
    ScanFrom(Chronological(history), [], [])
  }

  /** The names recorded as retreated, as api.py computes them. */
  function RetreatedAsWritten(history: seq<Snapshot>): seq<string>
  {
    ScanFromAsWritten(Chronological(history), [], [])
  }

  /** The names present just before entry `k`: `prev` before the first. */
  function Before(prev: seq<string>, snaps: seq<Snapshot>, k: nat): seq<string>
    requires k < |snaps|
  {
    if k == 0 then prev else snaps[k - 1].names
  }

  /** `x` was present before entry `k` and is missing from it. */
  predicate LeftAt(prev: seq<string>, snaps: seq<Snapshot>, k: nat, x: string)
    requires k < |snaps|
  {
    x in Before(prev, snaps, k) && x !in snaps[k].names
  }

  /** With the tracked names those of the previous entry, a name ends up
      recorded exactly when it was recorded already or some entry lacks it
      while the entry before had it. */
  lemma {:induction false} ScanFromMembers(snaps: seq<Snapshot>, prev: seq<string>, tracked: seq<string>,
                                           retreated: seq<string>, x: string)
    requires forall y :: y in tracked <==> y in prev
    ensures x in ScanFrom(snaps, tracked, retreated) <==>
      x in retreated || exists k :: 0 <= k < |snaps| && LeftAt(prev, snaps, k, x)
    decreases |snaps|
  {
    if snaps != [] {
      var names := snaps[0].names;
      var t := Arrive(tracked, names);
      var d := Depart(t, names);
      forall y ensures y in d.kept <==> y in names {
        DepartMembers(t, names, y);
      }
      DepartMembers(t, names, x);
      ScanFromMembers(snaps[1..], names, d.kept, retreated + d.gone, x);
      assert x in d.gone <==> LeftAt(prev, snaps, 0, x);
      assert forall k :: 0 <= k < |snaps| - 1 ==> (LeftAt(names, snaps[1..], k, x) <==> LeftAt(prev, snaps, k + 1, x));
      if exists k :: 0 <= k < |snaps| && LeftAt(prev, snaps, k, x) {
        var k :| 0 <= k < |snaps| && LeftAt(prev, snaps, k, x);
        if k > 0 {
          assert LeftAt(names, snaps[1..], k - 1, x);
        }
      }
      if exists k :: 0 <= k < |snaps| - 1 && LeftAt(names, snaps[1..], k, x) {
        var k :| 0 <= k < |snaps| - 1 && LeftAt(names, snaps[1..], k, x);
        assert LeftAt(prev, snaps, k + 1, x);
      }
    }
  }

  /** The evidently intended result: a name is recorded exactly when, in
      time order, some entry lacks it while the entry before had it. */
  lemma RetreatedMeaning(history: seq<Snapshot>, x: string)
    ensures var h := Chronological(history);
      x in Retreated(history) <==> exists k :: 0 < k < |h| && x in h[k - 1].names && x !in h[k].names
  {
    var h := Chronological(history);
    ScanFromMembers(h, [], [], [], x);
    if exists k :: 0 <= k < |h| && LeftAt([], h, k, x) {
      var k :| 0 <= k < |h| && LeftAt([], h, k, x);
      assert k > 0;
    }
    if exists k :: 0 < k < |h| && x in h[k - 1].names && x !in h[k].names {
      var k :| 0 < k < |h| && x in h[k - 1].names && x !in h[k].names;
      assert LeftAt([], h, k, x);
    }
  }

  /** Some entry among the first `p` of `h` lacks `y` while the entry
      before it had it. */
  predicate LeftBefore(h: seq<Snapshot>, p: nat, y: string)
  {
    exists k :: 0 <= k < p && k < |h| && LeftAt([], h, k, y)
  }

  /** What the written departure loop keeps or records was tracked, and what
      it records is absent. */
  lemma DepartAsWrittenWithin(tracked: seq<string>, present: seq<string>, y: string)
    ensures var d := DepartAsWritten(tracked, present, 0, []);
      (y in d.gone ==> y in tracked && y !in present) && (y in d.kept ==> y in tracked)
  {
    var d := DepartAsWritten(tracked, present, 0, []);
    var none: seq<string> := [];
    assert multiset(none) == multiset{};
    assert multiset(d.kept) + multiset(d.gone) == multiset(tracked);
    if y in d.gone {
      assert multiset(d.gone)[y] > 0;
      assert (multiset(d.kept) + multiset(d.gone))[y] > 0;
    }
    if y in d.kept {
      assert multiset(d.kept)[y] > 0;
      assert (multiset(d.kept) + multiset(d.gone))[y] > 0;
    }
  }

  /** One entry of the written scan keeps the invariant of `ScanAsWrittenSound`. */
  lemma ScanAsWrittenStep(h: seq<Snapshot>, p: nat, tracked: seq<string>, retreated: seq<string>, y: string)
    requires p < |h|
    requires forall z :: z in retreated ==> LeftBefore(h, p, z)
    requires forall z :: z in tracked ==> (0 < p && z in h[p - 1].names) || LeftBefore(h, p, z)
    ensures var d := DepartAsWritten(Arrive(tracked, h[p].names), h[p].names, 0, []);
      (y in retreated + d.gone ==> LeftBefore(h, p + 1, y))
      && (y in d.kept ==> y in h[p].names || LeftBefore(h, p + 1, y))
  {
    var names := h[p].names;
    var t := Arrive(tracked, names);
    DepartAsWrittenWithin(t, names, y);
    if y in tracked && y !in names {
      if 0 < p && y in h[p - 1].names {
        assert LeftAt([], h, p, y);
      } else {
        var k :| 0 <= k < p && k < |h| && LeftAt([], h, k, y);
      }
    }
    if y in retreated {
      var k :| 0 <= k < p && k < |h| && LeftAt([], h, k, y);
    }
  }

  /** The written scan from entry `p` on records only names that some entry
      lacks while the entry before had it: a tracked name the loop skipped
      is one that has already left, or is still present. */
  lemma {:induction false} ScanAsWrittenSound(h: seq<Snapshot>, p: nat, tracked: seq<string>,
                                              retreated: seq<string>, x: string)
    requires p <= |h|
    requires forall y :: y in retreated ==> LeftBefore(h, p, y)
    requires forall y :: y in tracked ==> (0 < p && y in h[p - 1].names) || LeftBefore(h, p, y)
    ensures x in ScanFromAsWritten(h[p..], tracked, retreated) ==> LeftBefore(h, |h|, x)
    decreases |h| - p
  {
    if p == |h| {
      assert h[p..] == [];
    } else {
      var names := h[p].names;
      var d := DepartAsWritten(Arrive(tracked, names), names, 0, []);
      assert h[p..][0] == h[p] && h[p..][1..] == h[p + 1..];
      assert ScanFromAsWritten(h[p..], tracked, retreated) == ScanFromAsWritten(h[p + 1..], d.kept, retreated + d.gone);
      forall y ensures (y in retreated + d.gone ==> LeftBefore(h, p + 1, y))
        && (y in d.kept ==> y in h[p].names || LeftBefore(h, p + 1, y)) {
        ScanAsWrittenStep(h, p, tracked, retreated, y);
      }
      ScanAsWrittenSound(h, p + 1, d.kept, retreated + d.gone, x);
    }
  }

  /** The written scan never invents a retreat: whatever it records, the
      corrected scan records too (it may miss some, see `RetreatedSkipsExample`). */
  lemma RetreatedAsWrittenSound(history: seq<Snapshot>, x: string)
    ensures x in RetreatedAsWritten(history) ==> x in Retreated(history)
  {
    var h := Chronological(history);
    assert h[0..] == h;
    ScanAsWrittenSound(h, 0, [], [], x);
    RetreatedMeaning(history, x);
    if LeftBefore(h, |h|, x) {
      var k :| 0 <= k < |h| && LeftAt([], h, k, x);
      assert 0 < k && x in h[k - 1].names && x !in h[k].names;
    }
  }

  lemma ArriveExample()
    ensures Arrive([], ["A", "B"]) == ["A", "B"]
    ensures Arrive(["A", "B"], []) == ["A", "B"]
  {
    assert ["A", "B"][1..] == ["B"];
    assert Arrive(["A"], ["B"]) == Arrive(["A", "B"], []);
  }

  lemma DepartNoneLeftExample()
    ensures DepartAsWritten(["A", "B"], ["A", "B"], 0, []) == Split(["A", "B"], [])
    ensures Depart(["A", "B"], ["A", "B"]) == Split(["A", "B"], [])
  {
    assert ["A", "B"][1..] == ["B"];
    assert ["B"][1..] == [];
  }

  /** Two entries already in time order stay as they are. */
  lemma ChronologicalInOrderExample(s0: Snapshot, s1: Snapshot)
    requires s0.updatedAt < s1.updatedAt
    ensures Chronological([s0, s1]) == [s0, s1]
  {
    var r := Chronological([s0, s1]);
    assert |r| == |multiset(r)| == 2;
    assert r[0] in multiset([s0, s1]) && r[1] in multiset([s0, s1]);
    assert r[0] == s0;
    assert multiset(r) == multiset{s0, r[1]};
  }

  /** The history "A and B present, then neither" loses B as written. */
  lemma RetreatedSkipsExample()
    ensures RetreatedAsWritten([Snapshot(1, ["A", "B"]), Snapshot(2, [])]) == ["A"]
    ensures Retreated([Snapshot(1, ["A", "B"]), Snapshot(2, [])]) == ["A", "B"]
  {
    ChronologicalInOrderExample(Snapshot(1, ["A", "B"]), Snapshot(2, []));
    ScanSkipsExample();
  }

  /** The scan over "A and B present, then neither", as written and corrected. */
  lemma ScanSkipsExample()
    ensures ScanFromAsWritten([Snapshot(1, ["A", "B"]), Snapshot(2, [])], [], []) == ["A"]
    ensures ScanFrom([Snapshot(1, ["A", "B"]), Snapshot(2, [])], [], []) == ["A", "B"]
  {
    var s0, s1 := Snapshot(1, ["A", "B"]), Snapshot(2, []);
    assert [s0, s1][1..] == [s1] && [s1][1..] == [];
    ArriveExample();
    DepartNoneLeftExample();
    DepartSkipsExample();
    var none: seq<string> := [];
    assert [s0, s1][0].names == ["A", "B"] && [s1][0].names == [];
    assert none + none == none && none + ["A"] == ["A"] && none + ["A", "B"] == ["A", "B"];
    assert ScanFromAsWritten([s0, s1], [], []) == ScanFromAsWritten([s1], ["A", "B"], []);
    assert ScanFromAsWritten([s1], ["A", "B"], []) == ScanFromAsWritten([], ["B"], ["A"]);
    assert ScanFrom([s0, s1], [], []) == ScanFrom([s1], ["A", "B"], []);
    assert ScanFrom([s1], ["A", "B"], []) == ScanFrom([], [], ["A", "B"]);
  }
}
