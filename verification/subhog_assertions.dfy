/**
 * The assertion checker of scripts/parse_metrics.py (check_subhog_assertions), as values:
 * the data it reads (an orthology model behind four lookups, the parsed assertion document),
 * the report it builds, and one specification function per step of the check. The class in
 * subhog_checker.dfy updates a report in place and is proved to follow these functions.
 */
module SubhogAssertions {
  import opened Wrappers

  // ---------------------------------------------------------------------------------------
  // The orthology model (a pyham.Ham object), reduced to the four lookups the checker uses.
  // ---------------------------------------------------------------------------------------

  /** Handle of an ancestral genome: a named node of the species hierarchy. */
  datatype Genome = Genome(key: nat)

  /** Handle of an extant gene. */
  datatype Gene = Gene(key: nat)

  /** Handle of a hierarchical orthologous group; equal handles are the same HOG object. */
  datatype Hog = Hog(key: nat)

  /**
   * genomeByName: the ancestral genome with a level name, if any.
   * geneById: the (first) gene with an external protein id; a KeyError is None.
   * ancestorHog: the HOG enclosing a gene at an ancestral genome, if any.
   * descendantIds: the protein ids of all genes below a HOG.
   */
  datatype Ham = Ham(
    genomeByName: string -> Option<Genome>,
    geneById: string -> Option<Gene>,
    ancestorHog: (Gene, Genome) -> Option<Hog>,
    descendantIds: Hog -> set<string>)

  // ---------------------------------------------------------------------------------------
  // The parsed assertion document. An Option field is a key that may be absent.
  // ---------------------------------------------------------------------------------------

  datatype Subgroup = Subgroup(name: Option<string>, members: seq<string>, complete: bool)

  /** One entry of `groups`; `complete` is false when the key is absent. */
  datatype Entry = Entry(
    level: string,
    members: Option<seq<string>>,
    subgroups: Option<seq<Subgroup>>,
    complete: bool)

  datatype Document = Document(groups: Option<seq<Entry>>)

  // ---------------------------------------------------------------------------------------
  // The metrics report.
  // ---------------------------------------------------------------------------------------

  /** The `name` of a violation or overlap: "main", a given name, or "subgroup_<index>". */
  datatype Label = Main | Named(text: string) | Numbered(index: nat)

  datatype Violation =
    /** {"group": level, "error": "Ancestral genome <level> not found"} */
    | GenomeNotFound(group: string)
    /** "Protein Sets are not identical: missing ...; extra ..." */
    | NotIdentical(level: string, name: Label, missing: set<string>, extra: set<string>)
    /** "Split into <groups> groups: <expected> members, found <found>" */
    | Split(level: string, name: Label, groups: nat, expected: nat, found: nat)
    /** name "subgroup_overlap": "Subgroups overlap between <first> and <second>: <common> common HOGs" */
    | SubgroupOverlap(level: string, first: Label, second: Label, common: nat)

  datatype Overlap = Overlap(level: string, name: Label, venn: (nat, nat, nat))

  datatype Report = Report(
    nGroups: nat,
    nAssertions: nat,
    nPassed: nat,
    nFailed: nat,
    violations: seq<Violation>,
    overlaps: seq<Overlap>)

  const EmptyReport := Report(0, 0, 0, 0, [], [])

  /** The report after a step, and whether the step raised (a TypeError in the source). */
  datatype Outcome = Outcome(report: Report, raised: bool)

  /** The `found` mapping: each HOG that received members, with the ids recorded for it. */
  type Found = map<Hog, set<string>>

  /** Python's `set(list)`: the same ids, duplicates merged, so never more ids than entries. */
  function ToSet(s: seq<string>): (ids: set<string>)
    ensures forall id :: id in ids <==> id in s
    ensures ids == {} <==> s == []
    ensures |ids| <= |s|
  {
    DistinctAtMost(s);
    assert s != [] ==> s[0] in (set id | id in s);
    set id | id in s
  }

  /** A list has at most as many distinct ids as entries. */
  lemma {:induction false} DistinctAtMost(s: seq<string>)
    ensures |(set id | id in s)| <= |s|
  {
    if s != [] {
      var init := s[..|s| - 1];
      DistinctAtMost(init);
      assert s == init + [s[|s| - 1]];
      assert (set id | id in s) == (set id | id in init) + {s[|s| - 1]};
    }
  }

  // ---------------------------------------------------------------------------------------
  // _get_groups_for_reference_geneset
  // ---------------------------------------------------------------------------------------

  /** The HOG a member id lands in at `genome`, or None when the gene or the HOG is not found. */
  function HogOf(ham: Ham, genome: Genome, id: string): Option<Hog> {
    match ham.geneById(id)
    case None => None
    case Some(gene) => ham.ancestorHog(gene, genome)
  }

  /**
   * `found` groups the members of `ids` by the HOG they land in: a HOG is a key iff some
   * member lands in it, and it records exactly the members that land in it.
   */
  ghost predicate Grouping(ham: Ham, genome: Genome, ids: set<string>, found: Found) {
    && (forall h :: h in found ==> found[h] != {})
    && (forall h, id :: h in found ==> (id in found[h] <==> id in ids && HogOf(ham, genome, id) == Some(h)))
    && (forall id :: id in ids && HogOf(ham, genome, id).Some? ==> HogOf(ham, genome, id).value in found)
  }

  /**
   * The members of `ids` grouped by the HOG they resolve to. Ids whose gene or HOG is not
   * found are dropped; every set is a subset of `ids`, and the sets are pairwise disjoint.
   */
  function Resolved(ham: Ham, genome: Genome, ids: set<string>): (found: Found)
    ensures Grouping(ham, genome, ids, found)
    ensures forall h :: h in found ==> found[h] <= ids
    ensures forall id, h :: id in ids && HogOf(ham, genome, id).None? && h in found ==> id !in found[h]
    ensures forall h1, h2 :: h1 in found && h2 in found && h1 != h2 ==> found[h1] !! found[h2]
  {
    var hogs := set id | id in ids && HogOf(ham, genome, id).Some? :: HogOf(ham, genome, id).value;
    var found := map h | h in hogs :: set id | id in ids && HogOf(ham, genome, id) == Some(h);
    assert forall h :: h in found ==> found[h] != {} by {
      forall h | h in found ensures found[h] != {} {
        var id :| id in ids && HogOf(ham, genome, id).Some? && HogOf(ham, genome, id).value == h;
        assert id in found[h];
      }
    }
    found
  }

  /** A grouping of `ids` is unique: it is the one Resolved computes. */
  lemma GroupingUnique(ham: Ham, genome: Genome, ids: set<string>, f: Found, g: Found)
    requires Grouping(ham, genome, ids, f) && Grouping(ham, genome, ids, g)
    ensures f == g
  {
    forall h ensures h in f <==> h in g {
      if h in f {
        var x :| x in f[h];
        assert HogOf(ham, genome, x) == Some(h);
      }
      if h in g {
        var x :| x in g[h];
        assert HogOf(ham, genome, x) == Some(h);
      }
    }
    forall h | h in f ensures f[h] == g[h] {
      assert h in g;
      forall x ensures x in f[h] <==> x in g[h] {
        assert x in f[h] <==> x in ids && HogOf(ham, genome, x) == Some(h);
        assert x in g[h] <==> x in ids && HogOf(ham, genome, x) == Some(h);
      }
    }
  }

  /** The `complete` expansion: every found HOG also records all its descendant protein ids. */
  function Expanded(ham: Ham, found: Found): (full: Found)
    ensures full.Keys == found.Keys
    ensures forall h :: h in full ==> found[h] <= full[h] && ham.descendantIds(h) <= full[h]
    ensures forall h, id :: h in full && id in full[h] ==> id in found[h] || id in ham.descendantIds(h)
  {
    map h | h in found :: found[h] + ham.descendantIds(h)
  }

  /** What _get_groups_for_reference_geneset returns. */
  function GroupsFor(ham: Ham, genome: Genome, ids: set<string>, complete: bool): Found {
    if complete then Expanded(ham, Resolved(ham, genome, ids)) else Resolved(ham, genome, ids)
  }

  /**
   * One step of the loop at lines 70-77: adding a member updates at most the entry of the HOG
   * it lands in (creating it if needed), and leaves the grouping unchanged if it lands nowhere.
   */
  lemma GroupingAdd(ham: Ham, genome: Genome, done: set<string>, found: Found, id: string)
    requires Grouping(ham, genome, done, found) && id !in done
    ensures Grouping(ham, genome, done + {id},
      match HogOf(ham, genome, id)
      case None => found
      case Some(h) => found[h := (if h in found then found[h] else {}) + {id}])
  {
  }

  // ---------------------------------------------------------------------------------------
  // The aggregates of _compare_group_sets over the values of `found`.
  // ---------------------------------------------------------------------------------------

  /** Cardinality is monotone under inclusion. */
  lemma SubsetSize<T>(a: set<T>, b: set<T>)
    requires a <= b
    ensures |a| <= |b|
  {
    assert b == a + (b - a);
  }

  /** The sum of the sizes of the sets recorded for `keys`. */
  ghost function SumOver(found: Found, keys: set<Hog>): nat
    requires keys <= found.Keys
    decreases keys
  {
    if keys == {} then 0
    else
      var h :| h in keys;
      |found[h]| + SumOver(found, keys - {h})
  }

  /** `sum(len(z) for z in found.values())` */
  ghost function SumSizes(found: Found): nat {
    SumOver(found, found.Keys)
  }

  /** Summing may start at any key. */
  lemma {:induction false} SumOverRemove(found: Found, keys: set<Hog>, h: Hog)
    requires keys <= found.Keys && h in keys
    ensures SumOver(found, keys) == |found[h]| + SumOver(found, keys - {h})
    decreases keys
  {
    var k :| k in keys && SumOver(found, keys) == |found[k]| + SumOver(found, keys - {k});
    if k != h {
      SumOverRemove(found, keys - {k}, h);
      SumOverRemove(found, keys - {h}, k);
      assert keys - {k} - {h} == keys - {h} - {k};
    }
  }

  /** The ids recorded for `keys`. */
  ghost function UnionOver(found: Found, keys: set<Hog>): set<string>
    requires keys <= found.Keys
  {
    set h, id | h in keys && id in found[h] :: id
  }

  /** The union of the sets recorded for `keys` is no larger than the sum of their sizes. */
  lemma {:induction false} UnionOverSize(found: Found, keys: set<Hog>)
    requires keys <= found.Keys
    ensures |UnionOver(found, keys)| <= SumOver(found, keys)
    decreases keys
  {
    if keys != {} {
      var h :| h in keys;
      SumOverRemove(found, keys, h);
      UnionOverSize(found, keys - {h});
      assert UnionOver(found, keys) == found[h] + UnionOver(found, keys - {h});
    } else {
      assert UnionOver(found, keys) == {};
    }
  }

  /** The largest share of `expected` held by one of the sets recorded for `keys`, or 0. */
  ghost function MaxOver(found: Found, keys: set<Hog>, expected: set<string>): nat
    requires keys <= found.Keys
    decreases keys
  {
    if keys == {} then 0
    else
      var h :| h in keys;
      var rest := MaxOver(found, keys - {h}, expected);
      if |found[h] * expected| > rest then |found[h] * expected| else rest
  }

  /** `max([0, *(len(z & expected) for z in found.values())])` */
  ghost function MaxShared(found: Found, expected: set<string>): nat {
    MaxOver(found, found.Keys, expected)
  }

  /** MaxOver bounds every share and is 0 or attained. */
  lemma {:induction false} MaxOverBounds(found: Found, keys: set<Hog>, expected: set<string>)
    requires keys <= found.Keys
    ensures forall h :: h in keys ==> |found[h] * expected| <= MaxOver(found, keys, expected)
    ensures MaxOver(found, keys, expected) == 0 ||
      exists h :: h in keys && |found[h] * expected| == MaxOver(found, keys, expected)
    decreases keys
  {
    if keys != {} {
      var h :| h in keys && MaxOver(found, keys, expected) ==
        var rest := MaxOver(found, keys - {h}, expected);
        if |found[h] * expected| > rest then |found[h] * expected| else rest;
      MaxOverBounds(found, keys - {h}, expected);
    }
  }

  /** MaxShared is the largest overlap of a found set with `expected`, and 0 when `found` is empty. */
  lemma MaxSharedBounds(found: Found, expected: set<string>)
    ensures forall h :: h in found ==> |found[h] * expected| <= MaxShared(found, expected)
    ensures MaxShared(found, expected) == 0 ||
      exists h :: h in found && |found[h] * expected| == MaxShared(found, expected)
    ensures MaxShared(found, expected) <= |expected|
  {
    MaxOverBounds(found, found.Keys, expected);
    if MaxShared(found, expected) != 0 {
      var h :| h in found && |found[h] * expected| == MaxShared(found, expected);
      SubsetSize(found[h] * expected, expected);
    }
  }

  /** `set.union(*found.values())` (for a non-empty `found`). */
  function UnionOf(found: Found): set<string>
  {
    set h, id | h in found && id in found[h] :: id
  }

  /**
   * The union at line 114 holds at most as many ids as the total the Split violation reports
   * at line 108 (equal when, as without `complete`, the found sets are disjoint).
   */
  lemma UnionSize(found: Found)
    ensures |UnionOf(found)| <= SumSizes(found)
  {
    UnionOverSize(found, found.Keys);
    assert UnionOf(found) == UnionOver(found, found.Keys);
  }

  /** The single value of a one-entry `found` (what `found.popitem()[1]` returns). */
  ghost function Only(found: Found): set<string>
    requires |found| == 1
  {
    assert found.Keys != {};
    var h :| h in found;
    found[h]
  }

  /** A one-entry map has one key. */
  lemma SingleKey(found: Found, a: Hog, b: Hog)
    requires |found| == 1 && a in found && b in found
    ensures a == b
  {
    if a != b {
      SubsetSize({a, b}, found.Keys);
    }
  }

  /** What is left of `found` after _compare_group_sets: popitem empties a one-entry map. */
  function Kept(found: Found): (left: Found)
    ensures |left| != 1
    ensures |found| == 1 ==> left == map[]
    ensures |found| != 1 ==> left == found
  {
    if |found| == 1 then map[] else found
  }

  // ---------------------------------------------------------------------------------------
  // _compare_group_sets
  // ---------------------------------------------------------------------------------------

  /**
   * One comparison of an expected member set with the HOGs found for it. Exactly one verdict
   * is recorded. With one HOG it passes iff that HOG's set equals `expected`; with any other
   * number of HOGs it fails whatever the contents. With none, the union of no sets raises
   * after the failure and its violation were recorded, before the overlaps entry.
   */
  ghost function Compared(r: Report, level: string, expected: set<string>, found: Found, name: Label): (out: Outcome)
    ensures out.report.nGroups == r.nGroups && out.report.nAssertions == r.nAssertions
    ensures out.report.nPassed + out.report.nFailed == r.nPassed + r.nFailed + 1
    ensures |out.report.violations| - out.report.nFailed == |r.violations| - r.nFailed
    ensures out.raised <==> |found| == 0
    ensures |out.report.overlaps| == |r.overlaps| + (if out.raised then 0 else 1)
  {
    if |found| == 1 then
      var actual := Only(found);
      var venn := (|expected - actual|, |actual * expected|, |actual - expected|);
      if actual == expected then
        assert expected - actual == {} && actual * expected == expected;
        Outcome(r.(nPassed := r.nPassed + 1, overlaps := r.overlaps + [Overlap(level, name, venn)]), false)
      else
        Outcome(r.(nFailed := r.nFailed + 1,
                   violations := r.violations + [NotIdentical(level, name, expected - actual, actual - expected)],
                   overlaps := r.overlaps + [Overlap(level, name, venn)]), false)
    else
      var failed := r.(nFailed := r.nFailed + 1,
                       violations := r.violations + [Split(level, name, |found|, |expected|, SumSizes(found))]);
      if |found| == 0 then
        Outcome(failed, true)
      else
        var venn := (|expected|, MaxShared(found, expected), |UnionOf(found) - expected|);
        Outcome(failed.(overlaps := failed.overlaps + [Overlap(level, name, venn)]), false)
  }

  /** Compared for a split, written out: one failure, the Split violation and the venn. */
  lemma ComparedSplit(r: Report, level: string, expected: set<string>, found: Found, name: Label)
    requires |found| != 1
    ensures var failed := r.(nFailed := r.nFailed + 1,
                             violations := r.violations + [Split(level, name, |found|, |expected|, SumSizes(found))]);
      Compared(r, level, expected, found, name) ==
        if |found| == 0 then Outcome(failed, true)
        else Outcome(failed.(overlaps := failed.overlaps +
                [Overlap(level, name, (|expected|, MaxShared(found, expected), |UnionOf(found) - expected|))]), false)
  {
  }

  /**
   * The verdict of one comparison: a split (or nothing found) always fails whatever the set
   * contents; a single HOG passes iff its set equals `expected`, a pass records the venn
   * (0, |expected|, 0), and a failure reports missing = expected - actual and
   * extra = actual - expected.
   */
  lemma ComparedVerdict(r: Report, level: string, expected: set<string>, found: Found, name: Label)
    ensures |found| != 1 ==>
      && Compared(r, level, expected, found, name).report.nPassed == r.nPassed
      && Compared(r, level, expected, found, name).report.nFailed == r.nFailed + 1
      && Compared(r, level, expected, found, name).report.violations ==
           r.violations + [Split(level, name, |found|, |expected|, SumSizes(found))]
    ensures |found| == 1 ==>
      (Compared(r, level, expected, found, name).report.nPassed == r.nPassed + 1 <==> found.Values == {expected})
    ensures |found| == 1 && found.Values == {expected} ==>
      && Compared(r, level, expected, found, name).report.violations == r.violations
      && Compared(r, level, expected, found, name).report.overlaps ==
           r.overlaps + [Overlap(level, name, (0, |expected|, 0))]
    ensures |found| == 1 && found.Values != {expected} ==>
      && Compared(r, level, expected, found, name).report.violations ==
           r.violations + [NotIdentical(level, name, expected - Only(found), Only(found) - expected)]
      && Compared(r, level, expected, found, name).report.overlaps ==
           r.overlaps + [Overlap(level, name, (|expected - Only(found)|, |Only(found) * expected|, |Only(found) - expected|))]
  {
    if |found| == 1 {
      var actual := Only(found);
      var h :| h in found && found[h] == actual;
      forall g | g in found ensures g == h { SingleKey(found, g, h); }
      assert found.Values == {actual};
    }
  }

  /**
   * The overlaps entry of a split: the expected size, the largest share of the expected set
   * that any one HOG holds, and the ids found in some HOG that were not expected.
   */
  lemma SplitVenn(r: Report, level: string, expected: set<string>, found: Found, name: Label)
    requires |found| >= 2
    ensures Compared(r, level, expected, found, name).report.overlaps ==
      r.overlaps + [Overlap(level, name, (|expected|, MaxShared(found, expected), |UnionOf(found) - expected|))]
    ensures forall h :: h in found ==> |found[h] * expected| <= MaxShared(found, expected) <= |expected|
    ensures forall h :: h in found ==> |found[h] - expected| <= |UnionOf(found) - expected|
  {
    MaxSharedBounds(found, expected);
    UnionExtra(found, expected);
  }

  /** No HOG holds more unexpected ids than the union does. */
  lemma UnionExtra(found: Found, expected: set<string>)
    ensures forall h :: h in found ==> |found[h] - expected| <= |UnionOf(found) - expected|
  {
    var all := UnionOf(found);
    forall h | h in found ensures |found[h] - expected| <= |all - expected| {
      SubsetSize(found[h] - expected, all - expected);
    }
  }

  // ---------------------------------------------------------------------------------------
  // Subgroups
  // ---------------------------------------------------------------------------------------

  /** The name of a subgroup: its own, or the given default index ("subgroup_<index>"). */
  function SubgroupName(s: Subgroup, index: nat): Label
  {
    if s.name.Some? then Named(s.name.value) else Numbered(index)
  }

  /** The HOGs found for one subgroup. */
  function FoundFor(ham: Ham, genome: Genome, s: Subgroup): Found {
    GroupsFor(ham, genome, ToSet(s.members), s.complete)
  }

  /** The HOGs found for each subgroup, in order (resolution reads nothing the check writes). */
  function FoundsFor(ham: Ham, genome: Genome, subs: seq<Subgroup>): seq<Found>
  {
    seq(|subs|, i requires 0 <= i < |subs| => FoundFor(ham, genome, subs[i]))
  }

  datatype Pass = Pass(outcome: Outcome, stored: seq<Found>)

  /**
   * The comparison loop over subgroups k.. (lines 136-140): subgroup k, with the HOGs
   * `founds[k]` found for it, is compared under its 1-based default name and what is left of
   * its `found` is stored; a raise ends the loop.
   */
  ghost function SubgroupPass(r: Report, level: string, subs: seq<Subgroup>, founds: seq<Found>,
                              k: nat, stored: seq<Found>): (p: Pass)
    requires |founds| == |subs| && k <= |subs| && |stored| == k
    ensures p.outcome.report.nGroups == r.nGroups && p.outcome.report.nAssertions == r.nAssertions
    ensures |p.outcome.report.violations| - p.outcome.report.nFailed == |r.violations| - r.nFailed
    ensures !p.outcome.raised ==> |p.stored| == |subs|
    ensures !p.outcome.raised ==>
      && p.outcome.report.nPassed + p.outcome.report.nFailed == r.nPassed + r.nFailed + (|subs| - k)
      && |p.outcome.report.overlaps| == |r.overlaps| + (|subs| - k)
    decreases |subs| - k
  {
    if k == |subs| then Pass(Outcome(r, false), stored)
    else
      var o := Compared(r, level, ToSet(subs[k].members), founds[k], SubgroupName(subs[k], k + 1));
      if o.raised then Pass(o, stored)
      else SubgroupPass(o.report, level, subs, founds, k + 1, stored + [Kept(founds[k])])
  }

  /** A completed pass stores, for each subgroup in order, what is left of its `found`. */
  lemma {:induction false} SubgroupPassStores(r: Report, level: string, subs: seq<Subgroup>, founds: seq<Found>,
                                              k: nat, stored: seq<Found>)
    requires |founds| == |subs| && k <= |subs| && |stored| == k
    ensures var p := SubgroupPass(r, level, subs, founds, k, stored);
      !p.outcome.raised ==>
        && |p.stored| == |subs|
        && p.stored[..k] == stored
        && forall i :: k <= i < |subs| ==> p.stored[i] == Kept(founds[i])
    decreases |subs| - k
  {
    if k < |subs| {
      var o := Compared(r, level, ToSet(subs[k].members), founds[k], SubgroupName(subs[k], k + 1));
      if !o.raised {
        var next := stored + [Kept(founds[k])];
        SubgroupPassStores(o.report, level, subs, founds, k + 1, next);
        var p := SubgroupPass(o.report, level, subs, founds, k + 1, next);
        assert SubgroupPass(r, level, subs, founds, k, stored) == p;
        if !p.outcome.raised {
          StoredPrefix(p.stored, stored, founds, k);
        }
      }
    }
  }

  /** Sequence bookkeeping for one step of SubgroupPassStores. */
  lemma StoredPrefix(all: seq<Found>, stored: seq<Found>, founds: seq<Found>, k: nat)
    requires |all| == |founds| && k < |founds| && |stored| == k
    requires all[..k + 1] == stored + [Kept(founds[k])]
    requires forall i :: k + 1 <= i < |founds| ==> all[i] == Kept(founds[i])
    ensures all[..k] == stored
    ensures forall i :: k <= i < |founds| ==> all[i] == Kept(founds[i])
  {
    assert all[..k] == all[..k + 1][..k];
    assert all[k] == all[..k + 1][k];
  }

  /** Subgroups a and b stored a HOG key in common. */
  predicate KeysMeet(stored: seq<Found>, a: nat, b: nat)
    requires a < |stored| && b < |stored|
  {
    stored[a].Keys * stored[b].Keys != {}
  }

  /**
   * The record after the pairwise check (lines 142-152) resumes at pair (i, j), in
   * itertools.combinations order: each pair whose stored HOG-key sets meet is one failure and
   * one overlap violation naming both subgroups with 0-based defaults.
   */
  function OverlapsChecked(r: Report, level: string, subs: seq<Subgroup>, stored: seq<Found>, i: nat, j: nat): Report
    requires |stored| == |subs| && i < j
    decreases |subs| - i, |subs| - j
  {
    if i >= |subs| then r
    else if j >= |subs| then OverlapsChecked(r, level, subs, stored, i + 1, i + 2)
    else OverlapsChecked(PairChecked(r, level, subs, stored, i, j), level, subs, stored, i, j + 1)
  }

  /** One pair (i, j): a failure and an overlap violation when their HOG-key sets meet. */
  function PairChecked(r: Report, level: string, subs: seq<Subgroup>, stored: seq<Found>, i: nat, j: nat): Report
    requires |stored| == |subs| && i < |subs| && j < |subs|
  {
    var common := stored[i].Keys * stored[j].Keys;
    if |common| > 0 then
      r.(nFailed := r.nFailed + 1,
         violations := r.violations + [SubgroupOverlap(level, SubgroupName(subs[i], i), SubgroupName(subs[j], j), |common|)])
    else r
  }

  /**
   * The pairwise check only counts failures and appends violations, each an overlap at
   * `level` with a nonzero count, one per failure.
   */
  lemma {:induction false} OverlapsShape(r: Report, level: string, subs: seq<Subgroup>, stored: seq<Found>, i: nat, j: nat)
    requires |stored| == |subs| && i < j
    ensures var out := OverlapsChecked(r, level, subs, stored, i, j);
      && out == r.(nFailed := out.nFailed, violations := out.violations)
      && |r.violations| <= |out.violations|
      && out.violations[..|r.violations|] == r.violations
      && out.nFailed - r.nFailed == |out.violations| - |r.violations|
      && forall k :: |r.violations| <= k < |out.violations| ==>
           out.violations[k].SubgroupOverlap? && out.violations[k].level == level && out.violations[k].common > 0
    decreases |subs| - i, |subs| - j
  {
    if i >= |subs| {
    } else if j >= |subs| {
      OverlapsShape(r, level, subs, stored, i + 1, i + 2);
    } else {
      var common := stored[i].Keys * stored[j].Keys;
      var next := PairChecked(r, level, subs, stored, i, j);
      OverlapsShape(next, level, subs, stored, i, j + 1);
      var out := OverlapsChecked(next, level, subs, stored, i, j + 1);
      assert out.violations[..|r.violations|] == out.violations[..|next.violations|][..|r.violations|];
    }
  }

  /** No pair from (i, j) on, in itertools.combinations order, stored a HOG key in common. */
  predicate NoneMeetFrom(stored: seq<Found>, i: nat, j: nat) {
    forall a, b :: i <= a < b < |stored| && (a > i || b >= j) ==> !KeysMeet(stored, a, b)
  }

  /**
   * The pairwise check from (i, j) leaves the record unchanged iff no pair still to come
   * stored a HOG key in common; it never lowers the failure count.
   */
  lemma {:induction false} OverlapsNone(r: Report, level: string, subs: seq<Subgroup>, stored: seq<Found>, i: nat, j: nat)
    requires |stored| == |subs| && i < j
    ensures OverlapsChecked(r, level, subs, stored, i, j).nFailed >= r.nFailed
    ensures OverlapsChecked(r, level, subs, stored, i, j) == r <==> NoneMeetFrom(stored, i, j)
    decreases |subs| - i, |subs| - j
  {
    if i >= |subs| {
    } else if j >= |subs| {
      OverlapsNone(r, level, subs, stored, i + 1, i + 2);
      NoneMeetRowEnd(stored, i, j);
    } else {
      var next := PairChecked(r, level, subs, stored, i, j);
      OverlapsNone(next, level, subs, stored, i, j + 1);
      assert OverlapsChecked(r, level, subs, stored, i, j) == OverlapsChecked(next, level, subs, stored, i, j + 1);
      if KeysMeet(stored, i, j) {
        assert next.nFailed == r.nFailed + 1;
      } else {
        assert next == r;
        NoneMeetStep(stored, i, j);
      }
    }
  }

  /** Past the end of row i the pairs still to come start at (i + 1, i + 2). */
  lemma NoneMeetRowEnd(stored: seq<Found>, i: nat, j: nat)
    requires i < |stored| <= j
    ensures NoneMeetFrom(stored, i, j) <==> NoneMeetFrom(stored, i + 1, i + 2)
  {
    if NoneMeetFrom(stored, i + 1, i + 2) {
      forall a, b | i <= a < b < |stored| && (a > i || b >= j) ensures !KeysMeet(stored, a, b) {
        assert a > i;
      }
    }
  }

  /** Pair (i, j) is the first still to come; when it does not meet, the rest decides. */
  lemma NoneMeetStep(stored: seq<Found>, i: nat, j: nat)
    requires i < j < |stored|
    ensures NoneMeetFrom(stored, i, j) ==> !KeysMeet(stored, i, j)
    ensures !KeysMeet(stored, i, j) ==> (NoneMeetFrom(stored, i, j) <==> NoneMeetFrom(stored, i, j + 1))
  {
    if !KeysMeet(stored, i, j) && NoneMeetFrom(stored, i, j + 1) {
      forall a, b | i <= a < b < |stored| && (a > i || b >= j) ensures !KeysMeet(stored, a, b) {
        if a != i || b != j {
          assert a > i || b >= j + 1;
        }
      }
    }
  }

  /** The subgroups branch: the comparison loop, then the pairwise overlap check. */
  ghost function SubgroupsChecked(r: Report, ham: Ham, genome: Genome, level: string, subs: seq<Subgroup>): (out: Outcome)
    ensures out.report.nGroups == r.nGroups && out.report.nAssertions == r.nAssertions
    ensures |out.report.violations| - out.report.nFailed == |r.violations| - r.nFailed
    ensures !out.raised ==> |out.report.overlaps| == |r.overlaps| + |subs|
    ensures !out.raised ==> out.report.nPassed + out.report.nFailed >= r.nPassed + r.nFailed + |subs|
  {
    var p := SubgroupPass(r, level, subs, FoundsFor(ham, genome, subs), 0, []);
    if p.outcome.raised then p.outcome
    else
      OverlapsShape(p.outcome.report, level, subs, p.stored, 0, 1);
      Outcome(OverlapsChecked(p.outcome.report, level, subs, p.stored, 0, 1), false)
  }

  /**
   * The pairwise check only sees subgroups that were split: when of any two subgroups one
   * found at most one HOG, no overlap violation is added, even if both found the same HOG.
   */
  lemma OnlySplitSubgroupsOverlap(r: Report, ham: Ham, genome: Genome, level: string, subs: seq<Subgroup>)
    requires forall a, b :: 0 <= a < b < |subs| ==>
      |FoundFor(ham, genome, subs[a])| < 2 || |FoundFor(ham, genome, subs[b])| < 2
    ensures SubgroupsChecked(r, ham, genome, level, subs) ==
      SubgroupPass(r, level, subs, FoundsFor(ham, genome, subs), 0, []).outcome
  {
    var founds := FoundsFor(ham, genome, subs);
    var p := SubgroupPass(r, level, subs, founds, 0, []);
    SubgroupPassStores(r, level, subs, founds, 0, []);
    if !p.outcome.raised {
      forall a, b | 0 <= a < b < |p.stored| ensures p.stored[a] == map[] || p.stored[b] == map[] {
        assert p.stored[a] == Kept(founds[a]) && p.stored[b] == Kept(founds[b]);
      }
      forall a, b | 0 <= a < b < |subs| && (a > 0 || b >= 1) ensures !KeysMeet(p.stored, a, b) {
        assert p.stored[a] == map[] || p.stored[b] == map[];
      }
      OverlapsNone(p.outcome.report, level, subs, p.stored, 0, 1);
    }
  }

  // ---------------------------------------------------------------------------------------
  // The violations of the pairwise check, listed
  // ---------------------------------------------------------------------------------------

  /** Pair p comes before pair q in `combinations` order. */
  predicate PairBefore(p: (nat, nat), q: (nat, nat)) {
    p.0 < q.0 || (p.0 == q.0 && p.1 < q.1)
  }

  /** `itertools.combinations(range(n), 2)` from the pair (i, j) on. */
  function PairsFrom(n: nat, i: nat, j: nat): seq<(nat, nat)>
    requires i < j
    decreases n - i, n - j
  {
    if i >= n then []
    else if j >= n then PairsFrom(n, i + 1, i + 2)
    else [(i, j)] + PairsFrom(n, i, j + 1)
  }

  /** The pairs from (i, j) on are exactly the a < b < n at or after (i, j). */
  ghost predicate PairsFromExactly(n: nat, i: nat, j: nat)
    requires i < j
  {
    forall p :: p in PairsFrom(n, i, j) <==> i <= p.0 < p.1 < n && (p.0 > i || p.1 >= j)
  }

  lemma {:induction false} PairsFromMembers(n: nat, i: nat, j: nat)
    requires i < j
    ensures PairsFromExactly(n, i, j)
    decreases n - i, n - j
  {
    if i >= n {
      assert PairsFrom(n, i, j) == [];
    } else if j >= n {
      PairsFromMembers(n, i + 1, i + 2);
      PairsRowEnd(n, i, j);
    } else {
      PairsFromMembers(n, i, j + 1);
      PairsNext(n, i, j);
    }
  }

  lemma PairsRowEnd(n: nat, i: nat, j: nat)
    requires i < n <= j && PairsFromExactly(n, i + 1, i + 2)
    ensures PairsFromExactly(n, i, j)
  {
    assert PairsFrom(n, i, j) == PairsFrom(n, i + 1, i + 2);
  }

  lemma PairsNext(n: nat, i: nat, j: nat)
    requires i < j < n && PairsFromExactly(n, i, j + 1)
    ensures PairsFromExactly(n, i, j)
  {
    assert PairsFrom(n, i, j) == [(i, j)] + PairsFrom(n, i, j + 1);
  }

  /** The pairs come in strictly increasing `combinations` order, so none repeats. */
  lemma {:induction false} PairsFromOrdered(n: nat, i: nat, j: nat)
    requires i < j
    ensures forall x, y :: 0 <= x < y < |PairsFrom(n, i, j)| ==> PairBefore(PairsFrom(n, i, j)[x], PairsFrom(n, i, j)[y])
    decreases n - i, n - j
  {
    if i >= n {
    } else if j >= n {
      PairsFromOrdered(n, i + 1, i + 2);
    } else {
      var rest := PairsFrom(n, i, j + 1);
      PairsFromOrdered(n, i, j + 1);
      PairsFromMembers(n, i, j + 1);
      var all := PairsFrom(n, i, j);
      assert all == [(i, j)] + rest;
      forall x, y | 0 <= x < y < |all| ensures PairBefore(all[x], all[y]) {
        if x == 0 {
          assert all[y] == rest[y - 1] && rest[y - 1] in rest;
        } else {
          assert all[x] == rest[x - 1] && all[y] == rest[y - 1];
        }
      }
    }
  }

  /** The overlap violation of subgroups a and b (0-based default names). */
  function OverlapOf(level: string, subs: seq<Subgroup>, stored: seq<Found>, a: nat, b: nat): Violation
    requires |stored| == |subs| && a < |subs| && b < |subs|
  {
    SubgroupOverlap(level, SubgroupName(subs[a], a), SubgroupName(subs[b], b), |stored[a].Keys * stored[b].Keys|)
  }

  /** Subgroups a and b exist and stored a HOG key in common. */
  predicate PairMeets(stored: seq<Found>, p: (nat, nat)) {
    p.0 < |stored| && p.1 < |stored| && KeysMeet(stored, p.0, p.1)
  }

  /** The overlap violations of the pairs of `pairs` that meet, in the order of `pairs`. */
  function PairOverlaps(level: string, subs: seq<Subgroup>, stored: seq<Found>, pairs: seq<(nat, nat)>): seq<Violation>
    requires |stored| == |subs|
  {
    if pairs == [] then []
    else
      (if PairMeets(stored, pairs[0]) then [OverlapOf(level, subs, stored, pairs[0].0, pairs[0].1)] else [])
      + PairOverlaps(level, subs, stored, pairs[1..])
  }

  /**
   * The pairwise check from (i, j) appends exactly the overlap violations of the pairs still
   * to come whose stored HOG keys meet, in `combinations` order, and one failure for each
   * (OverlapsShape: nothing else changes).
   */
  lemma {:induction false} OverlapsList(r: Report, level: string, subs: seq<Subgroup>, stored: seq<Found>, i: nat, j: nat)
    requires |stored| == |subs| && i < j
    ensures ListedFrom(r, level, subs, stored, i, j)
    decreases |subs| - i, |subs| - j
  {
    if i >= |subs| {
      OverlapsListDone(r, level, subs, stored, i, j);
    } else if j >= |subs| {
      OverlapsList(r, level, subs, stored, i + 1, i + 2);
      OverlapsListRowEnd(r, level, subs, stored, i, j);
    } else {
      OverlapsList(PairChecked(r, level, subs, stored, i, j), level, subs, stored, i, j + 1);
      OverlapsListPair(r, level, subs, stored, i, j);
    }
  }

  /** Past the last row nothing is listed and nothing changes. */
  lemma OverlapsListDone(r: Report, level: string, subs: seq<Subgroup>, stored: seq<Found>, i: nat, j: nat)
    requires |stored| == |subs| && |subs| <= i < j
    ensures ListedFrom(r, level, subs, stored, i, j)
  {
    assert PairsFrom(|subs|, i, j) == [];
    assert r.violations + [] == r.violations;
  }

  /**
   * From pair (i, j) on, the pairwise check appends exactly the listed overlap violations of
   * the pairs still to come, and one failure for each.
   */
  ghost predicate ListedFrom(r: Report, level: string, subs: seq<Subgroup>, stored: seq<Found>, i: nat, j: nat)
    requires |stored| == |subs| && i < j
  {
    var added := PairOverlaps(level, subs, stored, PairsFrom(|subs|, i, j));
    && OverlapsChecked(r, level, subs, stored, i, j).violations == r.violations + added
    && OverlapsChecked(r, level, subs, stored, i, j).nFailed == r.nFailed + |added|
  }

  /** At the end of row i, OverlapsList carries over from (i + 1, i + 2). */
  lemma OverlapsListRowEnd(r: Report, level: string, subs: seq<Subgroup>, stored: seq<Found>, i: nat, j: nat)
    requires |stored| == |subs| && i < |subs| <= j
    requires ListedFrom(r, level, subs, stored, i + 1, i + 2)
    ensures ListedFrom(r, level, subs, stored, i, j)
  {
    assert PairsFrom(|subs|, i, j) == PairsFrom(|subs|, i + 1, i + 2);
    assert OverlapsChecked(r, level, subs, stored, i, j) == OverlapsChecked(r, level, subs, stored, i + 1, i + 2);
  }

  /** Pair (i, j) puts its violation, if any, ahead of those of the pairs after it. */
  lemma OverlapsListPair(r: Report, level: string, subs: seq<Subgroup>, stored: seq<Found>, i: nat, j: nat)
    requires |stored| == |subs| && i < j < |subs|
    requires ListedFrom(PairChecked(r, level, subs, stored, i, j), level, subs, stored, i, j + 1)
    ensures ListedFrom(r, level, subs, stored, i, j)
  {
    OverlapsCheckedStep(r, level, subs, stored, i, j);
    PairsFromStep(level, subs, stored, i, j);
    PairCheckedAppends(r, level, subs, stored, i, j);
    AppendAssoc(r.violations, PairOverlaps(level, subs, stored, [(i, j)]),
                PairOverlaps(level, subs, stored, PairsFrom(|subs|, i, j + 1)));
  }

  /** Inside row i, the pairwise check goes on from (i, j + 1) after pair (i, j). */
  lemma OverlapsCheckedStep(r: Report, level: string, subs: seq<Subgroup>, stored: seq<Found>, i: nat, j: nat)
    requires |stored| == |subs| && i < j < |subs|
    ensures OverlapsChecked(r, level, subs, stored, i, j) ==
      OverlapsChecked(PairChecked(r, level, subs, stored, i, j), level, subs, stored, i, j + 1)
  {
  }

  lemma AppendAssoc<T>(a: seq<T>, b: seq<T>, c: seq<T>)
    ensures a + b + c == a + (b + c)
  {
  }

  /** The list from (i, j) is the violation of pair (i, j), if any, followed by the rest. */
  lemma PairsFromStep(level: string, subs: seq<Subgroup>, stored: seq<Found>, i: nat, j: nat)
    requires |stored| == |subs| && i < j < |subs|
    ensures PairOverlaps(level, subs, stored, PairsFrom(|subs|, i, j)) ==
      PairOverlaps(level, subs, stored, [(i, j)]) + PairOverlaps(level, subs, stored, PairsFrom(|subs|, i, j + 1))
  {
    var rest := PairsFrom(|subs|, i, j + 1);
    var pairs := PairsFrom(|subs|, i, j);
    assert pairs == [(i, j)] + rest;
    assert pairs[0] == (i, j) && pairs[1..] == rest;
    assert [(i, j)][1..] == [];
  }

  /** Pair (i, j) appends its listed violation, if any, and one failure for it. */
  lemma PairCheckedAppends(r: Report, level: string, subs: seq<Subgroup>, stored: seq<Found>, i: nat, j: nat)
    requires |stored| == |subs| && i < |subs| && j < |subs|
    ensures var head := PairOverlaps(level, subs, stored, [(i, j)]);
      && PairChecked(r, level, subs, stored, i, j).violations == r.violations + head
      && PairChecked(r, level, subs, stored, i, j).nFailed == r.nFailed + |head|
  {
    assert [(i, j)][0] == (i, j) && [(i, j)][1..] == [];
  }

  /** A violation is listed for every pair that meets, and only for those. */
  lemma {:induction false} PairOverlapsMembers(level: string, subs: seq<Subgroup>, stored: seq<Found>, pairs: seq<(nat, nat)>)
    requires |stored| == |subs|
    ensures forall p :: p in pairs && PairMeets(stored, p) ==>
      OverlapOf(level, subs, stored, p.0, p.1) in PairOverlaps(level, subs, stored, pairs)
    ensures forall v :: v in PairOverlaps(level, subs, stored, pairs) ==>
      exists p :: p in pairs && PairMeets(stored, p) && v == OverlapOf(level, subs, stored, p.0, p.1)
  {
    if pairs != [] {
      PairOverlapsMembers(level, subs, stored, pairs[1..]);
      assert pairs == [pairs[0]] + pairs[1..];
    }
  }

  /** When no pair repeats, exactly one violation is listed per pair that meets. */
  lemma {:induction false} PairOverlapsCount(level: string, subs: seq<Subgroup>, stored: seq<Found>, pairs: seq<(nat, nat)>)
    requires |stored| == |subs|
    requires forall x, y :: 0 <= x < y < |pairs| ==> pairs[x] != pairs[y]
    ensures |PairOverlaps(level, subs, stored, pairs)| == |set p | p in pairs && PairMeets(stored, p)|
  {
    if pairs == [] {
      assert (set p | p in pairs && PairMeets(stored, p)) == {};
    } else {
      var rest := pairs[1..];
      DistinctTail(pairs);
      PairOverlapsCount(level, subs, stored, rest);
      assert pairs == [pairs[0]] + rest;
      var tailSet := set p | p in rest && PairMeets(stored, p);
      if PairMeets(stored, pairs[0]) {
        assert (set p | p in pairs && PairMeets(stored, p)) == {pairs[0]} + tailSet;
      } else {
        assert (set p | p in pairs && PairMeets(stored, p)) == tailSet;
      }
    }
  }

  /** The tail of a list without repeats has no repeats and does not hold the head. */
  lemma DistinctTail(pairs: seq<(nat, nat)>)
    requires pairs != []
    requires forall x, y :: 0 <= x < y < |pairs| ==> pairs[x] != pairs[y]
    ensures forall x, y :: 0 <= x < y < |pairs[1..]| ==> pairs[1..][x] != pairs[1..][y]
    ensures pairs[0] !in pairs[1..]
  {
    var rest := pairs[1..];
    forall x, y | 0 <= x < y < |rest| ensures rest[x] != rest[y] {
      assert rest[x] == pairs[x + 1] && rest[y] == pairs[y + 1];
    }
    forall y | 0 <= y < |rest| ensures rest[y] != pairs[0] {
      assert rest[y] == pairs[y + 1];
    }
  }

  /**
   * After a subgroup pass that did not raise, the subgroups branch appends one overlap
   * violation, and one failure, per pair a < b of subgroups whose stored HOG keys meet, in
   * `combinations` order: as many as there are such pairs.
   */
  lemma SubgroupOverlapsListed(r: Report, ham: Ham, genome: Genome, level: string, subs: seq<Subgroup>)
    ensures var p := SubgroupPass(r, level, subs, FoundsFor(ham, genome, subs), 0, []);
      !p.outcome.raised ==>
        var added := PairOverlaps(level, subs, p.stored, PairsFrom(|subs|, 0, 1));
        && SubgroupsChecked(r, ham, genome, level, subs).report.violations == p.outcome.report.violations + added
        && SubgroupsChecked(r, ham, genome, level, subs).report.nFailed == p.outcome.report.nFailed + |added|
        && |added| == |set q | q in PairsFrom(|subs|, 0, 1) && PairMeets(p.stored, q)|
  {
    var p := SubgroupPass(r, level, subs, FoundsFor(ham, genome, subs), 0, []);
    if !p.outcome.raised {
      assert SubgroupsChecked(r, ham, genome, level, subs) ==
        Outcome(OverlapsChecked(p.outcome.report, level, subs, p.stored, 0, 1), false);
      OverlapsList(p.outcome.report, level, subs, p.stored, 0, 1);
      PairsFromDistinct(|subs|, 0, 1);
      PairOverlapsCount(level, subs, p.stored, PairsFrom(|subs|, 0, 1));
    }
  }

  /** No pair repeats. */
  lemma PairsFromDistinct(n: nat, i: nat, j: nat)
    requires i < j
    ensures forall x, y :: 0 <= x < y < |PairsFrom(n, i, j)| ==> PairsFrom(n, i, j)[x] != PairsFrom(n, i, j)[y]
  {
    PairsFromOrdered(n, i, j);
  }

  // ---------------------------------------------------------------------------------------
  // Only split subgroups overlap, pair by pair
  // ---------------------------------------------------------------------------------------

  /** What is left of a `found` has a HOG only when that `found` was a split. */
  lemma KeptNonEmpty(found: Found)
    ensures Kept(found).Keys != {} ==> |found| >= 2 && Kept(found) == found
  {
    if |found| == 0 {
      assert found.Keys == {};
    }
  }

  /**
   * v is the overlap violation of two subgroups a < b that both found at least two HOGs and
   * found a HOG in common.
   */
  ghost predicate SplitPairOverlap(level: string, subs: seq<Subgroup>, founds: seq<Found>, v: Violation)
    requires |founds| == |subs|
  {
    exists a, b :: 0 <= a < b < |subs| && |founds[a]| >= 2 && |founds[b]| >= 2 &&
      KeysMeet(founds, a, b) && v == OverlapOf(level, subs, founds, a, b)
  }

  /** Every listed violation belongs to a pair of split subgroups. */
  lemma ListedIsSplitPair(level: string, subs: seq<Subgroup>, stored: seq<Found>, founds: seq<Found>, v: Violation)
    requires |stored| == |subs| && |founds| == |subs|
    requires forall k :: 0 <= k < |subs| ==> stored[k] == Kept(founds[k])
    requires v in PairOverlaps(level, subs, stored, PairsFrom(|subs|, 0, 1))
    ensures SplitPairOverlap(level, subs, founds, v)
  {
    var pairs := PairsFrom(|subs|, 0, 1);
    PairOverlapsMembers(level, subs, stored, pairs);
    PairsFromMembers(|subs|, 0, 1);
    var q :| q in pairs && PairMeets(stored, q) && v == OverlapOf(level, subs, stored, q.0, q.1);
    var a, b := q.0, q.1;
    KeptNonEmpty(founds[a]);
    KeptNonEmpty(founds[b]);
    assert stored[a] == founds[a] && stored[b] == founds[b];
    assert KeysMeet(founds, a, b) && v == OverlapOf(level, subs, founds, a, b);
  }

  /** Every pair of split subgroups that found a HOG in common is listed. */
  lemma SplitPairIsListed(level: string, subs: seq<Subgroup>, stored: seq<Found>, founds: seq<Found>, v: Violation)
    requires |stored| == |subs| && |founds| == |subs|
    requires forall k :: 0 <= k < |subs| ==> stored[k] == Kept(founds[k])
    requires SplitPairOverlap(level, subs, founds, v)
    ensures v in PairOverlaps(level, subs, stored, PairsFrom(|subs|, 0, 1))
  {
    var pairs := PairsFrom(|subs|, 0, 1);
    var a, b :| 0 <= a < b < |subs| && |founds[a]| >= 2 && |founds[b]| >= 2 &&
      KeysMeet(founds, a, b) && v == OverlapOf(level, subs, founds, a, b);
    assert stored[a] == founds[a] && stored[b] == founds[b];
    PairsFromMembers(|subs|, 0, 1);
    assert (a, b) in pairs && PairMeets(stored, (a, b));
    PairOverlapsMembers(level, subs, stored, pairs);
  }

  /**
   * After a subgroup pass that did not raise, a violation is added by the pairwise check iff
   * it is the overlap of two subgroups a < b that were both split and found a HOG in common:
   * a subgroup that found a single HOG never appears in an overlap violation.
   */
  lemma SplitSubgroupsOverlap(r: Report, ham: Ham, genome: Genome, level: string, subs: seq<Subgroup>)
    ensures var founds := FoundsFor(ham, genome, subs);
      var p := SubgroupPass(r, level, subs, founds, 0, []);
      !p.outcome.raised ==>
        var out := SubgroupsChecked(r, ham, genome, level, subs).report;
        && |p.outcome.report.violations| <= |out.violations|
        && forall v :: v in out.violations[|p.outcome.report.violations|..] <==> SplitPairOverlap(level, subs, founds, v)
  {
    var founds := FoundsFor(ham, genome, subs);
    var p := SubgroupPass(r, level, subs, founds, 0, []);
    if !p.outcome.raised {
      SubgroupOverlapsListed(r, ham, genome, level, subs);
      SubgroupPassStores(r, level, subs, founds, 0, []);
      var added := PairOverlaps(level, subs, p.stored, PairsFrom(|subs|, 0, 1));
      var out := SubgroupsChecked(r, ham, genome, level, subs).report;
      assert out.violations[|p.outcome.report.violations|..] == added;
      forall v ensures v in added <==> SplitPairOverlap(level, subs, founds, v) {
        if v in added {
          ListedIsSplitPair(level, subs, p.stored, founds, v);
        }
        if SplitPairOverlap(level, subs, founds, v) {
          SplitPairIsListed(level, subs, p.stored, founds, v);
        }
      }
    }
  }

  // ---------------------------------------------------------------------------------------
  // Default subgroup names
  // ---------------------------------------------------------------------------------------

  /** The violation is a comparison verdict recorded under `name`. */
  predicate VerdictNamed(v: Violation, name: Label) {
    (v.NotIdentical? || v.Split?) && v.name == name
  }

  /** A comparison only appends, and what it appends is recorded under its name. */
  lemma ComparedLabels(r: Report, level: string, expected: set<string>, found: Found, name: Label)
    ensures var o := Compared(r, level, expected, found, name).report;
      && r.violations <= o.violations && r.overlaps <= o.overlaps
      && (forall i :: |r.violations| <= i < |o.violations| ==> VerdictNamed(o.violations[i], name))
      && (forall i :: |r.overlaps| <= i < |o.overlaps| ==> o.overlaps[i].name == name)
  {
  }

  /** The subgroup pass only appends violations and overlaps entries. */
  lemma {:induction false} SubgroupPassAppends(r: Report, level: string, subs: seq<Subgroup>, founds: seq<Found>,
                                               k: nat, stored: seq<Found>)
    requires |founds| == |subs| && k <= |subs| && |stored| == k
    ensures var out := SubgroupPass(r, level, subs, founds, k, stored).outcome.report;
      r.violations <= out.violations && r.overlaps <= out.overlaps
    decreases |subs| - k
  {
    if k < |subs| {
      var o := Compared(r, level, ToSet(subs[k].members), founds[k], SubgroupName(subs[k], k + 1));
      ComparedLabels(r, level, ToSet(subs[k].members), founds[k], SubgroupName(subs[k], k + 1));
      if !o.raised {
        SubgroupPassAppends(o.report, level, subs, founds, k + 1, stored + [Kept(founds[k])]);
      }
    }
  }

  /**
   * An unnamed subgroup at position k is compared as "subgroup_<k+1>": the pass from k starts
   * with that comparison, and its violation and overlaps entry carry Numbered(k + 1).
   */
  lemma UnnamedSubgroupCompared(r: Report, level: string, subs: seq<Subgroup>, founds: seq<Found>,
                                k: nat, stored: seq<Found>)
    requires |founds| == |subs| && k < |subs| && |stored| == k && subs[k].name.None?
    ensures var o := Compared(r, level, ToSet(subs[k].members), founds[k], Numbered(k + 1)).report;
      var out := SubgroupPass(r, level, subs, founds, k, stored).outcome.report;
      && o.violations <= out.violations && o.overlaps <= out.overlaps
      && (forall i :: |r.violations| <= i < |o.violations| ==> VerdictNamed(o.violations[i], Numbered(k + 1)))
      && (forall i :: |r.overlaps| <= i < |o.overlaps| ==> o.overlaps[i].name == Numbered(k + 1))
  {
    var o := Compared(r, level, ToSet(subs[k].members), founds[k], Numbered(k + 1));
    ComparedLabels(r, level, ToSet(subs[k].members), founds[k], Numbered(k + 1));
    if !o.raised {
      SubgroupPassAppends(o.report, level, subs, founds, k + 1, stored + [Kept(founds[k])]);
    }
  }

  /**
   * Two unnamed subgroups a < b whose stored HOG keys meet are reported as the overlap of
   * "subgroup_<a>" and "subgroup_<b>", 0-based, unlike in their comparisons.
   */
  lemma UnnamedSubgroupsOverlap(r: Report, level: string, subs: seq<Subgroup>, stored: seq<Found>, a: nat, b: nat)
    requires |stored| == |subs| && a < b < |subs| && subs[a].name.None? && subs[b].name.None?
    requires KeysMeet(stored, a, b)
    ensures var out := OverlapsChecked(r, level, subs, stored, 0, 1);
      && r.violations <= out.violations
      && SubgroupOverlap(level, Numbered(a), Numbered(b), |stored[a].Keys * stored[b].Keys|) in out.violations[|r.violations|..]
  {
    var pairs := PairsFrom(|subs|, 0, 1);
    OverlapsList(r, level, subs, stored, 0, 1);
    PairsFromMembers(|subs|, 0, 1);
    assert (a, b) in pairs && PairMeets(stored, (a, b));
    PairOverlapsMembers(level, subs, stored, pairs);
    var added := PairOverlaps(level, subs, stored, pairs);
    assert OverlapsChecked(r, level, subs, stored, 0, 1).violations[|r.violations|..] == added;
  }

  // ---------------------------------------------------------------------------------------
  // The loop over `groups`
  // ---------------------------------------------------------------------------------------

  /**
   * One entry: counted in n_groups; an unknown level is one failure keyed "group" with no
   * member lookups; `members` takes precedence over `subgroups`; an entry with neither only
   * counts.
   */
  ghost function EntryChecked(r: Report, ham: Ham, e: Entry): (out: Outcome)
    ensures out.report.nGroups == r.nGroups + 1 && out.report.nAssertions == r.nAssertions
    ensures |out.report.violations| - out.report.nFailed == |r.violations| - r.nFailed
    ensures ham.genomeByName(e.level).None? ==>
      && !out.raised
      && out.report.nPassed == r.nPassed && out.report.nFailed == r.nFailed + 1
      && out.report.violations == r.violations + [GenomeNotFound(e.level)]
      && out.report.overlaps == r.overlaps
    ensures ham.genomeByName(e.level).Some? && e.members.None? && e.subgroups.None? ==>
      out == Outcome(r.(nGroups := r.nGroups + 1), false)
  {
    var counted := r.(nGroups := r.nGroups + 1);
    match ham.genomeByName(e.level)
    case None =>
      Outcome(counted.(nFailed := counted.nFailed + 1,
                       violations := counted.violations + [GenomeNotFound(e.level)]), false)
    case Some(genome) => KnownEntryChecked(r, ham, genome, e)
  }

  /** EntryChecked at an unknown level, written out. */
  lemma EntryUnknown(r: Report, ham: Ham, e: Entry)
    requires ham.genomeByName(e.level).None?
    ensures EntryChecked(r, ham, e) ==
      Outcome(r.(nGroups := r.nGroups + 1, nFailed := r.nFailed + 1,
                 violations := r.violations + [GenomeNotFound(e.level)]), false)
  {
  }

  /** EntryChecked at a known level, written out. */
  lemma EntryKnown(r: Report, ham: Ham, e: Entry, genome: Genome)
    requires ham.genomeByName(e.level) == Some(genome)
    ensures EntryChecked(r, ham, e) == KnownEntryChecked(r, ham, genome, e)
  {
  }

  /** An entry whose level names `genome`: counted, then its members or its subgroups checked. */
  ghost function KnownEntryChecked(r: Report, ham: Ham, genome: Genome, e: Entry): (out: Outcome)
    ensures out.report.nGroups == r.nGroups + 1 && out.report.nAssertions == r.nAssertions
    ensures |out.report.violations| - out.report.nFailed == |r.violations| - r.nFailed
    ensures e.members.None? && e.subgroups.None? ==> out == Outcome(r.(nGroups := r.nGroups + 1), false)
  {
    var counted := r.(nGroups := r.nGroups + 1);
    if e.members.Some? then
      var expected := ToSet(e.members.value);
      Compared(counted, e.level, expected, GroupsFor(ham, genome, expected, e.complete), Main)
    else if e.subgroups.Some? then
      SubgroupsChecked(counted, ham, genome, e.level, e.subgroups.value)
    else
      Outcome(counted, false)
  }

  /** KnownEntryChecked with members: one comparison of the whole member list. */
  lemma KnownEntryMembers(r: Report, ham: Ham, genome: Genome, e: Entry)
    requires e.members.Some?
    ensures KnownEntryChecked(r, ham, genome, e) ==
      Compared(r.(nGroups := r.nGroups + 1), e.level, ToSet(e.members.value),
               GroupsFor(ham, genome, ToSet(e.members.value), e.complete), Main)
  {
  }

  /** KnownEntryChecked with subgroups and no members: the subgroups branch. */
  lemma KnownEntrySubgroups(r: Report, ham: Ham, genome: Genome, e: Entry)
    requires e.members.None? && e.subgroups.Some?
    ensures KnownEntryChecked(r, ham, genome, e) ==
      SubgroupsChecked(r.(nGroups := r.nGroups + 1), ham, genome, e.level, e.subgroups.value)
  {
  }

  /** The entries in order; the first raise ends the whole check. */
  ghost function AllChecked(r: Report, ham: Ham, entries: seq<Entry>): (out: Outcome)
    ensures out.report.nAssertions == r.nAssertions
    ensures |out.report.violations| - out.report.nFailed == |r.violations| - r.nFailed
    ensures r.nGroups <= out.report.nGroups <= r.nGroups + |entries|
    ensures !out.raised ==> out.report.nGroups == r.nGroups + |entries|
    decreases |entries|
  {
    if entries == [] then Outcome(r, false)
    else
      var o := EntryChecked(r, ham, entries[0]);
      if o.raised then o else AllChecked(o.report, ham, entries[1..])
  }

  /**
   * check_subhog_assertions on a whole document: n_assertions stays 0, there are as many
   * violations as failures, n_groups counts the entries, and a missing `groups` key gives
   * the empty report.
   */
  ghost function DocumentChecked(ham: Ham, doc: Document): (out: Outcome)
    ensures out.report.nAssertions == 0
    ensures |out.report.violations| == out.report.nFailed
    ensures !out.raised ==> out.report.nGroups == |doc.groups.GetOr([])|
    ensures doc.groups.None? ==> out == Outcome(EmptyReport, false)
  {
    AllChecked(EmptyReport, ham, doc.groups.GetOr([]))
  }

  // ---------------------------------------------------------------------------------------
  // Further properties
  // ---------------------------------------------------------------------------------------

  /** An unknown level does no member lookups: the outcome does not depend on them. */
  lemma UnknownLevelSkipsMembers(r: Report, ham1: Ham, ham2: Ham, e: Entry)
    requires ham1.genomeByName(e.level) == None && ham2.genomeByName(e.level) == None
    ensures EntryChecked(r, ham1, e) == EntryChecked(r, ham2, e)
  {
  }

  /**
   * An assertion none of whose members resolve (in particular one with no members) reaches
   * the split branch with no HOG and raises.
   */
  lemma NothingResolvedRaises(r: Report, ham: Ham, e: Entry)
    requires ham.genomeByName(e.level).Some? && e.members.Some?
    requires forall id :: id in e.members.value ==> HogOf(ham, ham.genomeByName(e.level).value, id) == None
    ensures EntryChecked(r, ham, e).raised
    ensures EntryChecked(r, ham, e).report.nFailed == r.nFailed + 1
  {
    var genome := ham.genomeByName(e.level).value;
    var expected := ToSet(e.members.value);
    var res := Resolved(ham, genome, expected);
    assert res.Keys == {};
    assert GroupsFor(ham, genome, expected, e.complete) == map[];
  }
}
