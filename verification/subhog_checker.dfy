/**
 * check_subhog_assertions of scripts/parse_metrics.py as the source runs it: a metrics record
 * whose counters and lists are updated in place, and loops over members, HOGs, subgroups and
 * subgroup pairs. Every method is proved to follow the specification functions of
 * SubhogAssertions.
 */
module SubhogChecker {
  import opened Wrappers
  import opened SubhogAssertions

  /**
   * _get_groups_for_reference_geneset: look up each member's gene and its HOG at `genome`,
   * record the member under that HOG, and with `complete` add each found HOG's descendants.
   */
  method GroupsForReferenceGeneset(ham: Ham, genome: Genome, ids: set<string>, complete: bool)
    returns (found: Found)
    ensures found == GroupsFor(ham, genome, ids, complete)
  {
    found := GroupMembers(ham, genome, ids);
    if complete {
      found := AddDescendants(ham, found);
    }
  }

  /** The member loop (lines 70-77). */
  method GroupMembers(ham: Ham, genome: Genome, ids: set<string>) returns (found: Found)
    ensures found == Resolved(ham, genome, ids)
  {
    found := map[];
    var rest := ids;
    while rest != {}
      invariant rest <= ids
      invariant Grouping(ham, genome, ids - rest, found)
      decreases |rest|
    {
      var id :| id in rest;
      GroupingAdd(ham, genome, ids - rest, found, id);
      found := AddMember(ham, genome, found, id);
      assert ids - (rest - {id}) == (ids - rest) + {id};
      rest := rest - {id};
    }
    assert ids - rest == ids;
    GroupingUnique(ham, genome, ids, found, Resolved(ham, genome, ids));
  }

  /** One member (lines 71-77): its gene, that gene's HOG at `genome`, and the record under it. */
  method AddMember(ham: Ham, genome: Genome, found: Found, id: string) returns (next: Found)
    ensures next == match HogOf(ham, genome, id)
      case None => found
      case Some(h) => found[h := (if h in found then found[h] else {}) + {id}]
  {
    next := found;
    var gene := ham.geneById(id);
    if gene.Some? {
      var group := ham.ancestorHog(gene.value, genome);
      if group.Some? {
        var h := group.value;
        next := found[h := (if h in found then found[h] else {}) + {id}];
      }
    }
  }

  /** The `complete` loop (lines 78-81): every HOG's set gains the ids of its descendants. */
  method AddDescendants(ham: Ham, base: Found) returns (found: Found)
    ensures found == Expanded(ham, base)
  {
    found := base;
    var todo := base.Keys;
    while todo != {}
      invariant todo <= base.Keys && found.Keys == base.Keys
      invariant forall h :: h in found ==>
        found[h] == if h in todo then base[h] else base[h] + ham.descendantIds(h)
      decreases |todo|
    {
      var h :| h in todo;
      found := found[h := found[h] + ham.descendantIds(h)];
      todo := todo - {h};
    }
  }

  /** `sum(len(z) for z in found.values())` */
  method TotalFound(found: Found) returns (total: nat)
    ensures total == SumSizes(found)
  {
    total := 0;
    var todo := found.Keys;
    while todo != {}
      invariant todo <= found.Keys
      invariant total + SumOver(found, todo) == SumSizes(found)
      decreases |todo|
    {
      var h :| h in todo;
      SumOverRemove(found, todo, h);
      total := total + |found[h]|;
      todo := todo - {h};
    }
  }

  /** `max([0, *(len(z & expected) for z in found.values())])` */
  method LargestShare(found: Found, expected: set<string>) returns (best: nat)
    ensures best == MaxShared(found, expected)
  {
    best := 0;
    var todo := found.Keys;
    while todo != {}
      invariant todo <= found.Keys
      invariant forall h :: h in found && h !in todo ==> |found[h] * expected| <= best
      invariant best == 0 || exists h :: h in found && h !in todo && |found[h] * expected| == best
      decreases |todo|
    {
      var h :| h in todo;
      if |found[h] * expected| > best {
        best := |found[h] * expected|;
      }
      todo := todo - {h};
    }
    MaxSharedBounds(found, expected);
    if best != 0 {
      var g :| g in found && |found[g] * expected| == best;
      assert best <= MaxShared(found, expected);
    }
    if MaxShared(found, expected) != 0 {
      var g :| g in found && |found[g] * expected| == MaxShared(found, expected);
      assert MaxShared(found, expected) <= best;
    }
  }

  /** The metrics record: four counters and the `violations` and `overlaps` lists. */
  class Metrics {
    var nGroups: nat
    var nAssertions: nat
    var nPassed: nat
    var nFailed: nat
    var violations: seq<Violation>
    var overlaps: seq<Overlap>

    /** The record as a value. */
    function Value(): Report
      reads this
    {
      Report(nGroups, nAssertions, nPassed, nFailed, violations, overlaps)
    }

    constructor ()
      ensures Value() == EmptyReport
    {
      nGroups, nAssertions, nPassed, nFailed := 0, 0, 0, 0;
      violations, overlaps := [], [];
    }

    /**
     * _compare_group_sets. Returns what is left of `found` (popitem empties a one-entry map)
     * and whether the union of no sets raised.
     */
    method CompareGroupSets(level: string, expected: set<string>, found: Found, name: Label)
      returns (left: Found, raised: bool)
      modifies this
      ensures Outcome(Value(), raised) == Compared(old(Value()), level, expected, found, name)
      ensures left == Kept(found)
    {
      if |found| == 1 {
        CompareSingle(level, expected, found, name);
        left, raised := map[], false;
      } else {
        raised := CompareSplit(level, expected, found, name);
        left := found;
      }
    }

    /** `found` holds one HOG: its set must equal `expected` (lines 95-103). */
    method CompareSingle(level: string, expected: set<string>, found: Found, name: Label)
      requires |found| == 1
      modifies this
      ensures Outcome(Value(), false) == Compared(old(Value()), level, expected, found, name)
    {
      var h :| h in found;
      var actual := found[h];
      assert actual == Only(found) by {
        var k :| k in found && found[k] == Only(found);
        SingleKey(found, h, k);
      }
      if actual == expected {
        nPassed := nPassed + 1;
      } else {
        nFailed := nFailed + 1;
        violations := violations + [NotIdentical(level, name, expected - actual, actual - expected)];
      }
      overlaps := overlaps + [Overlap(level, name, (|expected - actual|, |actual * expected|, |actual - expected|))];
    }

    /** `found` holds no HOG or several: a split (lines 104-115); none makes the union raise. */
    method CompareSplit(level: string, expected: set<string>, found: Found, name: Label)
      returns (raised: bool)
      requires |found| != 1
      modifies this
      ensures Outcome(Value(), raised) == Compared(old(Value()), level, expected, found, name)
    {
      ComparedSplit(old(Value()), level, expected, found, name);
      var total := TotalFound(found);
      nFailed := nFailed + 1;
      violations := violations + [Split(level, name, |found|, |expected|, total)];
      if |found| == 0 {
        return true;
      }
      var best := LargestShare(found, expected);
      overlaps := overlaps + [Overlap(level, name, (|expected|, best, |UnionOf(found) - expected|))];
      raised := false;
    }

    /** The pairwise overlap check over the stored HOG-key sets (lines 142-152). */
    method CheckOverlaps(level: string, subs: seq<Subgroup>, stored: seq<Found>)
      requires |stored| == |subs|
      modifies this
      ensures Value() == OverlapsChecked(old(Value()), level, subs, stored, 0, 1)
    {
      for i := 0 to |subs|
        invariant OverlapsChecked(Value(), level, subs, stored, i, i + 1) == OverlapsChecked(old(Value()), level, subs, stored, 0, 1)
      {
        for j := i + 1 to |subs|
          invariant OverlapsChecked(Value(), level, subs, stored, i, j) == OverlapsChecked(old(Value()), level, subs, stored, 0, 1)
        {
          CheckPair(level, subs, stored, i, j);
        }
      }
    }

    /** One pair of subgroups (lines 143-152). */
    method CheckPair(level: string, subs: seq<Subgroup>, stored: seq<Found>, i: nat, j: nat)
      requires |stored| == |subs| && i < |subs| && j < |subs|
      modifies this
      ensures Value() == PairChecked(old(Value()), level, subs, stored, i, j)
    {
      var common := stored[i].Keys * stored[j].Keys;
      if |common| > 0 {
        nFailed := nFailed + 1;
        violations := violations + [SubgroupOverlap(level, SubgroupName(subs[i], i), SubgroupName(subs[j], j), |common|)];
      }
    }

    /** The subgroups branch (lines 133-152). */
    method CheckSubgroups(ham: Ham, genome: Genome, level: string, subs: seq<Subgroup>)
      returns (raised: bool)
      modifies this
      ensures Outcome(Value(), raised) == SubgroupsChecked(old(Value()), ham, genome, level, subs)
    {
      ghost var founds := FoundsFor(ham, genome, subs);
      ghost var start := Value();
      var stored: seq<Found> := [];
      for k := 0 to |subs|
        invariant |stored| == k
        invariant SubgroupPass(start, level, subs, founds, 0, []) == SubgroupPass(Value(), level, subs, founds, k, stored)
      {
        var expected := ToSet(subs[k].members);
        var found := GroupsForReferenceGeneset(ham, genome, expected, subs[k].complete);
        var left, r := CompareGroupSets(level, expected, found, SubgroupName(subs[k], k + 1));
        if r {
          return true;
        }
        stored := stored + [left];
      }
      CheckOverlaps(level, subs, stored);
      raised := false;
    }

    /** The members branch (lines 128-131): the whole member list against the HOGs found. */
    method CheckMembers(ham: Ham, genome: Genome, level: string, members: seq<string>, complete: bool)
      returns (raised: bool)
      modifies this
      ensures Outcome(Value(), raised) ==
        Compared(old(Value()), level, ToSet(members), GroupsFor(ham, genome, ToSet(members), complete), Main)
    {
      var expected := ToSet(members);
      var found := GroupsForReferenceGeneset(ham, genome, expected, complete);
      var _, r := CompareGroupSets(level, expected, found, Main);
      raised := r;
    }

    /** One entry of `groups` (lines 117-152). */
    method CheckEntry(ham: Ham, e: Entry) returns (raised: bool)
      modifies this
      ensures Outcome(Value(), raised) == EntryChecked(old(Value()), ham, e)
    {
      var genome := ham.genomeByName(e.level);
      if genome.None? {
        EntryUnknown(Value(), ham, e);
        UnknownLevel(e.level);
        raised := false;
      } else {
        EntryKnown(Value(), ham, e, genome.value);
        raised := CheckKnownEntry(ham, genome.value, e);
      }
    }

    /** An entry whose level names no genome: counted, and one failure (lines 119-126). */
    method UnknownLevel(level: string)
      modifies this
      ensures Value() == old(Value()).(nGroups := old(nGroups) + 1, nFailed := old(nFailed) + 1,
                                       violations := old(violations) + [GenomeNotFound(level)])
    {
      nGroups := nGroups + 1;
      nFailed := nFailed + 1;
      violations := violations + [GenomeNotFound(level)];
    }

    /** An entry whose level names `genome`: counted, then checked (lines 119-152). */
    method CheckKnownEntry(ham: Ham, genome: Genome, e: Entry) returns (raised: bool)
      modifies this
      ensures Outcome(Value(), raised) == KnownEntryChecked(old(Value()), ham, genome, e)
    {
      ghost var r := Value();
      CountEntry();
      assert Value() == r.(nGroups := r.nGroups + 1);
      if e.members.Some? {
        KnownEntryMembers(r, ham, genome, e);
        raised := CheckMembers(ham, genome, e.level, e.members.value, e.complete);
      } else if e.subgroups.Some? {
        KnownEntrySubgroups(r, ham, genome, e);
        raised := CheckSubgroups(ham, genome, e.level, e.subgroups.value);
      } else {
        raised := false;
      }
    }

    /** `n_groups += 1` */
    method CountEntry()
      modifies this
      ensures Value() == old(Value()).(nGroups := old(nGroups) + 1)
    {
      nGroups := nGroups + 1;
    }
  }

  /**
   * check_subhog_assertions: a fresh record, then every entry of `groups` in order. When
   * `raised` is true the source propagates a TypeError and `metrics` is the record as it was
   * at that point.
   */
  method CheckSubhogAssertions(ham: Ham, doc: Document) returns (metrics: Metrics, raised: bool)
    ensures fresh(metrics)
    ensures Outcome(metrics.Value(), raised) == DocumentChecked(ham, doc)
  {
    metrics := new Metrics();
    var groups := doc.groups.GetOr([]);
    for i := 0 to |groups|
      invariant fresh(metrics)
      invariant DocumentChecked(ham, doc) == AllChecked(metrics.Value(), ham, groups[i..])
    {
      assert groups[i..][1..] == groups[i + 1..];
      raised := metrics.CheckEntry(ham, groups[i]);
      if raised {
        return;
      }
    }
    raised := false;
  }
}
