# fastoma-bench: subHOG assertion checker and dataset sharding, in Dafny

This project models two pieces of the fastoma-bench benchmarking scripts and proves properties
about them.

**check_subhog_assertions** (`scripts/parse_metrics.py`) checks an inferred orthology forest
against a list of expected groups. It walks the `groups` entries of an assertion document and
updates a metrics record in place. For each entry it does the following:

- Resolves the entry's level to an ancestral genome. An unknown level is one failure.
- Looks up the HOG that encloses each expected member at that genome. With `complete`, each
  found HOG also gains all its descendant protein ids.
- Compares the result with the expected set. Exactly one HOG must hold exactly the expected
  members; several HOGs are a split. Zero HOGs make `set.union()` raise.
- For `subgroups`, it does this per subgroup and then reports every pair of subgroups whose
  stored HOG keys meet.

The model has three parts:

- `subhog_assertions.dfy` (module `SubhogAssertions`) holds the values:
  - the orthology model, reduced to the four lookups the checker uses (`Ham`);
  - the parsed assertion document (`Document`, `Entry`, `Subgroup`);
  - the structured violations and the report;
  - one specification function per step of the check, and the lemmas about them.
- `subhog_checker.dfy` (module `SubhogChecker`) is the imperative code. The class `Metrics`
  holds the six fields of the metrics record, and its methods update them with the source's
  loops. Every method is proved equal to the specification function of its step.
- `dataset_selection.dfy` (module `DatasetSelection`) is **select_datasets**
  (`scripts/run_bench_batch_docker.py`) as pure functions over a manifest passed in. It keeps
  one tier, sorts it stably by id under Python's string order, and keeps the positions whose
  index `%` `group_total` (Python's `%`) equals `group_index`.

`wrappers.dfy` holds the `Option` type.

Two behaviours of the code are modelled as written:

- A single-HOG `found` is emptied by `found.popitem()` before it is stored for the overlap
  check (`Kept`). So an overlap violation always names two subgroups that were both split
  (`SplitSubgroupsOverlap`), and subgroups that each found one HOG never overlap, even when
  they found the same HOG (`OnlySplitSubgroupsOverlap`).
- When no HOG is found, the failure and its Split violation are recorded, and then the union
  of no sets raises a TypeError. The model's `raised` flag carries this. The whole check stops
  there, and the report is left as it was at that point.

Default subgroup names are `subgroup_<i>` with a 1-based i in the comparison and a 0-based i
in the overlap violation. `Label.Numbered(i)` keeps that index.

`n_assertions` is never incremented.

For `group_total == 0` the model follows the code: the comprehension evaluates `i % 0` only
when the tier has at least one dataset. So an empty tier selects `[]`, and a non-empty one
raises ZeroDivisionError (`None`). A negative `group_total` follows Python's `%`, where the
remainder takes the sign of the divisor.

## Model

| member | source | states |
|---|---|---|
| SubhogAssertions.ToSet | scripts/parse_metrics.py:129 | `set(members)` has exactly the ids of the member list, is empty iff the list is, and has at most as many ids as the list has entries (duplicates merge) |
| SubhogAssertions.Resolved | scripts/parse_metrics.py:69-77 | the found map groups the members by the HOG they land in: a HOG is a key iff some member lands in it, its set is exactly those members, every set is a subset of the expected ids, unresolved ids are dropped, and the sets are pairwise disjoint |
| SubhogAssertions.HogOf | scripts/parse_metrics.py:72-73 | no contract of its own: the HOG a member lands in; Resolved, GroupingAdd and SubhogChecker.AddMember state how `found` is built from it |
| SubhogAssertions.GroupingAdd | scripts/parse_metrics.py:70-77 | one member step extends the grouping: only the entry of the member's HOG changes, it is created if missing, and nothing changes when the gene or the HOG is not found |
| SubhogAssertions.GroupingUnique | scripts/parse_metrics.py:70-77 | any grouping of the members is the one Resolved gives, so the iteration order over the member set does not matter |
| SubhogAssertions.Expanded | scripts/parse_metrics.py:78-81 | with `complete` the key set is unchanged and each HOG's set becomes its found members united with all its descendant ids (nothing else) |
| SubhogAssertions.GroupsFor | scripts/parse_metrics.py:68-82 | no contract of its own: the grouping, expanded when `complete`; SubhogChecker.GroupsForReferenceGeneset is proved to return it, and Resolved and Expanded state its content |
| SubhogAssertions.SumSizes | scripts/parse_metrics.py:108 | no contract of its own: the total found size of the Split violation; SumOverRemove and UnionSize state its properties and SubhogChecker.TotalFound is proved to compute it |
| SubhogAssertions.SumOverRemove | scripts/parse_metrics.py:108 | the total found size does not depend on which HOG is summed first |
| SubhogAssertions.MaxShared | scripts/parse_metrics.py:113 | no contract of its own: the largest share of the expected set; MaxSharedBounds states its properties and SubhogChecker.LargestShare is proved to compute it |
| SubhogAssertions.MaxSharedBounds | scripts/parse_metrics.py:113 | `max([0, *(len(z & expected) ...)])` bounds every HOG's share of the expected set, is 0 or attained by some HOG, and is at most the expected size |
| SubhogAssertions.UnionOf | scripts/parse_metrics.py:114 | no contract of its own: the union of the found sets; UnionExtra, UnionSize and SplitVenn state what the split venn takes from it |
| SubhogAssertions.UnionSize | scripts/parse_metrics.py:108-114 | the union of the found sets holds at most as many ids as the total the Split violation reports |
| SubhogAssertions.Only | scripts/parse_metrics.py:93 | no contract of its own: the value `found.popitem()[1]` returns for a one-HOG map; ComparedVerdict states the verdict in terms of it |
| SubhogAssertions.Kept | scripts/parse_metrics.py:93 | after the comparison a one-HOG map is empty (popitem) and any other map is unchanged, so what is kept never has exactly one key |
| SubhogAssertions.Compared | scripts/parse_metrics.py:84-115 | one comparison records exactly one verdict (passed + failed grows by 1), keeps violations in step with failures, raises iff no HOG was found, and appends one overlaps entry unless it raised |
| SubhogAssertions.ComparedVerdict | scripts/parse_metrics.py:92-109 | a split always fails with the Split violation (HOG count, expected size, total found); a single HOG passes iff its set equals the expected set; a pass adds no violation and the venn (0, \|expected\|, 0); a failure reports missing = expected - actual and extra = actual - expected with their venn |
| SubhogAssertions.SplitVenn | scripts/parse_metrics.py:110-115 | a split with HOGs records the venn (\|expected\|, largest share, unexpected ids in the union), and the largest share and the unexpected count bound every single HOG's |
| SubhogAssertions.UnionExtra | scripts/parse_metrics.py:114 | no single HOG holds more unexpected ids than the union does |
| SubhogAssertions.UnnamedSubgroupCompared | scripts/parse_metrics.py:136-139 | an unnamed subgroup at 0-based position k is compared as "subgroup_<k+1>": the pass from k starts with that comparison, and its violation and overlaps entry carry Numbered(k + 1) |
| SubhogAssertions.UnnamedSubgroupsOverlap | scripts/parse_metrics.py:142-152 | two unnamed subgroups a < b whose stored HOG keys meet are reported as the overlap of "subgroup_<a>" and "subgroup_<b>", 0-based, with the number of common HOGs |
| SubhogAssertions.ComparedLabels | scripts/parse_metrics.py:84-115 | a comparison only appends, and every violation and overlaps entry it appends carries the name it was given |
| SubhogAssertions.FoundsFor | scripts/parse_metrics.py:136-138 | no contract of its own: subgroup k's HOGs are GroupsFor of its own members and `complete` flag; SubgroupPassStores, SplitSubgroupsOverlap and OnlySplitSubgroupsOverlap state what is stored and reported from it |
| SubhogAssertions.SubgroupPass | scripts/parse_metrics.py:136-140 | the subgroup loop leaves n_groups and n_assertions alone and keeps violations in step with failures; when nothing raised it records one verdict and one overlaps entry per subgroup and stores one map per subgroup |
| SubhogAssertions.SubgroupPassAppends | scripts/parse_metrics.py:136-140 | the subgroup loop only appends to violations and overlaps |
| SubhogAssertions.SubgroupPassStores | scripts/parse_metrics.py:136-140 | a completed subgroup loop stores, in order, what popitem left of each subgroup's found map |
| SubhogAssertions.OverlapsChecked | scripts/parse_metrics.py:142-152 | no contract of its own: the pairwise check from pair (i, j) on; OverlapsShape, OverlapsNone and OverlapsList state what it does, and SubhogChecker.Metrics.CheckOverlaps is proved to follow it |
| SubhogAssertions.PairChecked | scripts/parse_metrics.py:143-152 | no contract of its own: one pair; PairCheckedAppends states that it appends the pair's violation, if any, and one failure for it |
| SubhogAssertions.PairCheckedAppends | scripts/parse_metrics.py:145-152 | one pair appends its overlap violation and one failure when the stored keys meet, and nothing otherwise |
| SubhogAssertions.PairsFrom | scripts/parse_metrics.py:142 | no contract of its own: `itertools.combinations(range(n), 2)` from a given pair on; PairsFromMembers and PairsFromOrdered state it |
| SubhogAssertions.PairsFromMembers | scripts/parse_metrics.py:142 | the pairs from (i, j) on are exactly the a < b < n at or after (i, j); from (0, 1) that is every pair a < b < n |
| SubhogAssertions.PairsFromOrdered | scripts/parse_metrics.py:142 | the pairs come in strictly increasing lexicographic order, so none repeats |
| SubhogAssertions.OverlapsShape | scripts/parse_metrics.py:142-152 | the pairwise check changes only n_failed and violations, only appends, adds one failure per violation, and every new violation is a subgroup overlap at the entry's level with a nonzero count |
| SubhogAssertions.OverlapsNone | scripts/parse_metrics.py:142-152 | from pair (i, j) on in `combinations` order, the pairwise check leaves the record unchanged iff no pair still to come has stored HOG keys in common |
| SubhogAssertions.OverlapsList | scripts/parse_metrics.py:142-152 | from pair (i, j) on, the pairwise check appends exactly the overlap violations of the pairs still to come whose stored HOG keys meet, in `combinations` order, and one failure for each |
| SubhogAssertions.PairOverlapsMembers | scripts/parse_metrics.py:145-152 | a violation is listed for every pair whose stored keys meet, and every listed violation is that of such a pair |
| SubhogAssertions.PairOverlapsCount | scripts/parse_metrics.py:145-152 | over pairs without repeats, exactly one violation is listed per pair whose stored keys meet |
| SubhogAssertions.SubgroupOverlapsListed | scripts/parse_metrics.py:133-152 | after a subgroup pass that did not raise, the subgroups branch appends one overlap violation and one failure per pair a < b whose stored HOG keys meet, in `combinations` order, as many as there are such pairs |
| SubhogAssertions.SubgroupsChecked | scripts/parse_metrics.py:133-152 | the subgroups branch leaves n_groups and n_assertions alone and keeps violations in step with failures; when nothing raised it adds one overlaps entry per subgroup, and n_passed + n_failed grows by at least the number of subgroups (SubgroupOverlapsListed gives the exact overlap failures) |
| SubhogAssertions.OnlySplitSubgroupsOverlap | scripts/parse_metrics.py:142-152 | when of every two subgroups one found at most one HOG, the pairwise check adds nothing, even when both found the same HOG |
| SubhogAssertions.KeptNonEmpty | scripts/parse_metrics.py:93 | what is left of a `found` holds a HOG only when that `found` was a split, and then it is the whole `found` |
| SubhogAssertions.ListedIsSplitPair | scripts/parse_metrics.py:140-152 | every overlap violation listed for the stored maps is that of two subgroups a < b that both found at least two HOGs and found a HOG in common |
| SubhogAssertions.SplitPairIsListed | scripts/parse_metrics.py:140-152 | the overlap violation of every two split subgroups a < b that found a HOG in common is listed |
| SubhogAssertions.SplitSubgroupsOverlap | scripts/parse_metrics.py:133-152 | after a subgroup pass that did not raise, a violation is added by the pairwise check iff it is the overlap of two subgroups a < b that were both split and found a HOG in common, counted over their found HOGs: a subgroup that found one HOG is never named in an overlap |
| SubhogAssertions.EntryChecked | scripts/parse_metrics.py:117-152 | an entry adds one to n_groups, keeps violations in step with failures, is one GenomeNotFound failure with no overlaps entry at an unknown level, and only counts when it has neither members nor subgroups |
| SubhogAssertions.EntryUnknown | scripts/parse_metrics.py:118-126 | an unknown level gives exactly the counted entry, one more failure and the violation keyed by the level, without raising |
| SubhogAssertions.KnownEntryChecked | scripts/parse_metrics.py:128-152 | at a known level the entry adds one to n_groups, keeps violations in step with failures, and an entry with neither `members` nor `subgroups` is only counted |
| SubhogAssertions.KnownEntryMembers | scripts/parse_metrics.py:128-131 | with `members` the entry is one comparison of the whole member set under "main", whatever its `subgroups` say |
| SubhogAssertions.KnownEntrySubgroups | scripts/parse_metrics.py:133-152 | without `members`, `subgroups` are checked as SubgroupsChecked specifies |
| SubhogAssertions.AllChecked | scripts/parse_metrics.py:117-152 | the loop over entries never touches n_assertions, keeps violations in step with failures, and counts every entry when nothing raised |
| SubhogAssertions.DocumentChecked | scripts/parse_metrics.py:58-153 | the whole check leaves n_assertions at 0, has as many violations as failures, has n_groups equal to the number of entries when nothing raised, and gives the empty report for a missing `groups` key |
| SubhogAssertions.UnknownLevelSkipsMembers | scripts/parse_metrics.py:120-126 | at an unknown level the outcome does not depend on any member lookup |
| SubhogAssertions.NothingResolvedRaises | scripts/parse_metrics.py:104-114 | an entry none of whose members resolves (including an empty member list) fails once and raises |
| SubhogChecker.GroupsForReferenceGeneset | scripts/parse_metrics.py:68-82 | `_get_groups_for_reference_geneset` returns the grouping of the members, expanded with descendants when `complete` |
| SubhogChecker.GroupMembers | scripts/parse_metrics.py:69-77 | the member loop builds the grouping Resolved specifies |
| SubhogChecker.AddMember | scripts/parse_metrics.py:71-77 | one member is added under the HOG its gene lands in, or dropped when the gene or the HOG is not found |
| SubhogChecker.AddDescendants | scripts/parse_metrics.py:78-81 | the `complete` loop gives every found HOG its descendant ids |
| SubhogChecker.TotalFound | scripts/parse_metrics.py:108 | the loop computes the total size of the found sets |
| SubhogChecker.LargestShare | scripts/parse_metrics.py:113 | the loop computes the largest share of the expected set held by one HOG, 0 when there is none |
| SubhogChecker.Metrics.constructor | scripts/parse_metrics.py:58-65 | a fresh record has zero counters and empty lists |
| SubhogChecker.Metrics.CompareGroupSets | scripts/parse_metrics.py:84-115 | `_compare_group_sets` updates the record as Compared specifies, returns whether it raised, and leaves `found` as popitem does |
| SubhogChecker.Metrics.CompareSingle | scripts/parse_metrics.py:92-103 | the single-HOG branch updates the record as Compared specifies |
| SubhogChecker.Metrics.CompareSplit | scripts/parse_metrics.py:104-115 | the split branch records the failure and its violation, and raises before the overlaps entry when no HOG was found |
| SubhogChecker.Metrics.CheckPair | scripts/parse_metrics.py:143-152 | one pair of subgroups adds one failure and one overlap violation iff their stored HOG keys meet |
| SubhogChecker.Metrics.CheckOverlaps | scripts/parse_metrics.py:142-152 | the nested loops over pairs i < j update the record as OverlapsChecked specifies |
| SubhogChecker.Metrics.CheckSubgroups | scripts/parse_metrics.py:133-152 | the subgroups branch updates the record as SubgroupsChecked specifies and stops at the first raise |
| SubhogChecker.Metrics.CheckMembers | scripts/parse_metrics.py:128-131 | the members branch is one comparison of the whole member set under the name "main" |
| SubhogChecker.Metrics.CountEntry | scripts/parse_metrics.py:118 | n_groups grows by one and nothing else changes |
| SubhogChecker.Metrics.UnknownLevel | scripts/parse_metrics.py:118-126 | an unknown level counts the entry, adds one failure and appends GenomeNotFound, and nothing else changes |
| SubhogChecker.Metrics.CheckKnownEntry | scripts/parse_metrics.py:128-152 | an entry at a known level updates the record as KnownEntryChecked specifies |
| SubhogChecker.Metrics.CheckEntry | scripts/parse_metrics.py:117-152 | one entry updates the record as EntryChecked specifies |
| SubhogChecker.CheckSubhogAssertions | scripts/parse_metrics.py:47-153 | the whole check returns a fresh record equal to DocumentChecked, so all its properties hold of the returned metrics |
| DatasetSelection.IdLess | scripts/run_bench_batch_docker.py:17 | no contract of its own: Python's `<` on str (code points, a proper prefix first); IdLessIrreflexive, IdLessTransitive, IdLessTotal and IdLessAsymmetric make it a strict total order |
| DatasetSelection.IdLessIrreflexive | scripts/run_bench_batch_docker.py:17 | no id sorts before itself |
| DatasetSelection.IdLessTransitive | scripts/run_bench_batch_docker.py:17 | the string order on ids is transitive |
| DatasetSelection.IdLessTotal | scripts/run_bench_batch_docker.py:17 | any two ids are equal or ordered one way |
| DatasetSelection.IdLessAsymmetric | scripts/run_bench_batch_docker.py:17 | at most one of a < b and b < a holds |
| DatasetSelection.OfTier | scripts/run_bench_batch_docker.py:16 | the filter keeps exactly the manifest's datasets of the tier, each as often as the manifest lists it |
| DatasetSelection.OfTierKeepsOrder | scripts/run_bench_batch_docker.py:16 | the filter keeps manifest order: its datasets with one id are the manifest's datasets with that id, filtered by tier, in order |
| DatasetSelection.OfTierConcat | scripts/run_bench_batch_docker.py:16 | the filter of a concatenation is the concatenation of the filters |
| DatasetSelection.Insert | scripts/run_bench_batch_docker.py:17 | no contract of its own: one insertion step of the sort; InsertSorted and InsertKeepsIdOrder state it |
| DatasetSelection.InsertSorted | scripts/run_bench_batch_docker.py:17 | inserting into an id-sorted list keeps it sorted and adds exactly the new dataset |
| DatasetSelection.InsertKeepsIdOrder | scripts/run_bench_batch_docker.py:17 | insertion goes after every dataset with the same id |
| DatasetSelection.SortById | scripts/run_bench_batch_docker.py:17 | no contract of its own: `ds.sort(key=id)`; SortByIdSpec and SortByIdStable fix the list it returns |
| DatasetSelection.SortByIdSpec | scripts/run_bench_batch_docker.py:17 | the sort orders by id and is a permutation |
| DatasetSelection.SortByIdStable | scripts/run_bench_batch_docker.py:17 | the sort is stable: the datasets with one id keep their manifest order |
| DatasetSelection.PyMod | scripts/run_bench_batch_docker.py:19 | Python's `%` lies in [0, b) for b > 0 and agrees with Euclidean `%` there, and lies in (b, 0] for b < 0 |
| DatasetSelection.PyModNegativeDivisor | scripts/run_bench_batch_docker.py:19 | for a negative divisor Python's `a % b` is `-((-a) % (-b))` |
| DatasetSelection.Pick | scripts/run_bench_batch_docker.py:19 | no contract of its own: the comprehension over positions 0 .. n-1; PickFrom, PickSorted and PickPositions state it |
| DatasetSelection.RoundRobin | scripts/run_bench_batch_docker.py:19 | no contract of its own: the comprehension over the whole list; SelectedIff, ShardPositions and ShardsPartitionTier state it |
| DatasetSelection.PickFrom | scripts/run_bench_batch_docker.py:19 | a shard of the first n positions is a sub-multiset of them |
| DatasetSelection.SelectDatasets | scripts/run_bench_batch_docker.py:14-19 | no contract of its own: select_datasets with the manifest passed in; SelectDatasetsOutcome, SelectedSortedSubset, OutOfRangeSelectsNothing, DefaultSelection and DefaultSelectionKeepsManifestOrder state it |
| DatasetSelection.SelectDatasetsOutcome | scripts/run_bench_batch_docker.py:14-19 | selection fails iff group_total is 0 and the tier is not empty, and every selected dataset is in the manifest with the requested tier |
| DatasetSelection.SelectedSortedSubset | scripts/run_bench_batch_docker.py:16-19 | for group_total != 0 the selection is in id order and is a sub-multiset of the tier |
| DatasetSelection.PickSorted | scripts/run_bench_batch_docker.py:19 | a shard of a sorted list is sorted, and each element comes from some earlier position |
| DatasetSelection.PickPositions | scripts/run_bench_batch_docker.py:19 | shard `index` of the first n positions is positions index, index + total, ... below n, in order, and no later such position is below n |
| DatasetSelection.PositionInShard | scripts/run_bench_batch_docker.py:19 | a position k with k % total == index is element k / total of the shard |
| DatasetSelection.SelectedIff | scripts/run_bench_batch_docker.py:19 | position k of the sorted tier list is selected iff k % group_total == group_index, and element j of the shard is position group_index + j * group_total |
| DatasetSelection.ShardPositions | scripts/run_bench_batch_docker.py:19 | element j of the shard is position index + j * total, and that position belongs to the shard |
| DatasetSelection.OutOfRangeIndexEmpty | scripts/run_bench_batch_docker.py:19 | a group_index that `i % group_total` never takes picks nothing |
| DatasetSelection.OutOfRangeSelectsNothing | scripts/run_bench_batch_docker.py:19 | select_datasets with a group_index outside the range of `% group_total` returns [] |
| DatasetSelection.SingleShardIsAll | scripts/run_bench_batch_docker.py:19 | shard 0 of 1 is the whole list |
| DatasetSelection.DefaultSelection | scripts/run_bench_batch_docker.py:74-77 | with the defaults (group 0 of 1) the whole tier is returned in id order |
| DatasetSelection.DefaultSelectionKeepsManifestOrder | scripts/run_bench_batch_docker.py:16-17 | with the defaults, the selected datasets with one id are the manifest's datasets of the tier with that id, in manifest order |
| DatasetSelection.ShardsCover | scripts/run_bench_batch_docker.py:19 | over shards 0 .. total-1, the occurrences of a dataset add up to its occurrences in the first n positions, so each position is counted exactly once |
| DatasetSelection.ShardsPartitionTier | scripts/run_bench_batch_docker.py:16-19 | for group_total > 0 the shards 0 .. group_total-1 together hold each dataset of the tier exactly as often as the manifest does, and no two shards share an occurrence |

## Left out

- The `pyham` library is not part of this model. Its lookups (`get_ancestral_genome_by_name`, `get_genes_by_external_id(m)[0]`, `search_ancestor_hog_in_ancestral_genome`, and the prot_ids of `get_all_descendant_genes`) are the four total lookups of `Ham`. A KeyError is `None`. An IndexError on an empty gene list, which the source does not catch, is not modelled. The discarded `by_dup` flag is not modelled either.
- YAML loading (scripts/parse_metrics.py:66) is left out: the document is a parsed `Document`. These cases are not modelled because the datatype has no way to express them:
  - explicit `null` values (a `null` `groups`, `members`, `name` or `complete`);
  - non-list members;
  - a missing `level` or subgroup `members` key, which raises KeyError.
- The assertion loop converts `subgrp["members"]` to a set in place (scripts/parse_metrics.py:137). The model does not write this back into the input document, because nothing in the check reads it again.
- Error messages are structured violations, not formatted strings. In particular `sorted(missing)` and `sorted(extra)` stay sets.
- The order of `found` is not modelled: it is a map. The sum, maximum and union over its values do not depend on order, and popitem is only applied to a one-entry map.
- SubhogChecker.CheckSubhogAssertions: when the union raises, the source propagates the TypeError and returns no metrics. The method instead returns `raised` together with the record as it stood at that point.
- `parse_elapsed`, `parse_time_v` and `parse_subhog_fastoma_outputs` (scripts/parse_metrics.py:14-44, 156-168) are left out: they are regex scraping, float arithmetic and file reading.
- `run_step_docker`, `get_docker_commit` and `main` (scripts/run_bench_batch_docker.py:22-109) are left out: they are subprocess and Docker calls, environment variables, clocks and file writes. select_datasets takes the manifest as a parameter instead of reading `datasets/manifest.json`.
- Manifest entries are records with string fields. A missing `tier` or `id` key (KeyError) and non-string ids are not modelled. Ids are compared by code point, as Python compares `str`.
- `ds.sort` is modelled as a stable insertion sort, not Timsort. Only the result is modelled, not the algorithm; any stable sort by the same key gives the same list.
- scripts/make_dashboard.py, scripts/util.py and datasets/insulin_ensembl/convert.py are not part of this model: they are rendering, subprocess and file I/O.
