/**
 * select_datasets of scripts/run_bench_batch_docker.py: keep the manifest's datasets of one
 * tier, sort them by id (a stable sort under Python's string order), and keep the positions
 * whose index modulo `group_total` is `group_index`. The manifest is a parameter.
 */
module DatasetSelection {
  import opened Wrappers

  /** One manifest entry. */
  datatype Dataset = Dataset(id: string, tier: string, step: string, inputPath: string, spTree: string)

  // ---------------------------------------------------------------------------------------
  // Python's `<` on str: lexicographic on code points, a proper prefix comes first.
  // ---------------------------------------------------------------------------------------

  predicate IdLess(a: string, b: string)
    decreases |a|
  {
    |b| > 0 && (|a| == 0 || a[0] < b[0] || (a[0] == b[0] && IdLess(a[1..], b[1..])))
  }

  lemma {:induction false} IdLessIrreflexive(a: string)
    ensures !IdLess(a, a)
    decreases |a|
  {
    if |a| > 0 {
      IdLessIrreflexive(a[1..]);
    }
  }

  lemma {:induction false} IdLessTransitive(a: string, b: string, c: string)
    requires IdLess(a, b) && IdLess(b, c)
    ensures IdLess(a, c)
    decreases |a|
  {
    if |a| > 0 && a[0] == b[0] && b[0] == c[0] {
      IdLessTransitive(a[1..], b[1..], c[1..]);
    }
  }

  /** Any two ids are equal or ordered one way. */
  lemma {:induction false} IdLessTotal(a: string, b: string)
    ensures a == b || IdLess(a, b) || IdLess(b, a)
    decreases |a|
  {
    if |a| > 0 && |b| > 0 && a[0] == b[0] {
      IdLessTotal(a[1..], b[1..]);
      if a[1..] == b[1..] {
        assert a == [a[0]] + a[1..] && b == [b[0]] + b[1..];
      }
    }
  }

  /** At most one direction holds. */
  lemma IdLessAsymmetric(a: string, b: string)
    requires IdLess(a, b)
    ensures !IdLess(b, a)
  {
    if IdLess(b, a) {
      IdLessTransitive(a, b, a);
      IdLessIrreflexive(a);
    }
  }

  // ---------------------------------------------------------------------------------------
  // Filter by tier.
  // ---------------------------------------------------------------------------------------

  /** `[d for d in all_ds if d["tier"] == tier]` */
  function OfTier(manifest: seq<Dataset>, tier: string): (ds: seq<Dataset>)
    ensures forall d :: d in ds <==> d in manifest && d.tier == tier
    ensures forall d: Dataset :: d.tier == tier ==> multiset(ds)[d] == multiset(manifest)[d]
    ensures |ds| <= |manifest|
  {
    if manifest == [] then []
    else
      var rest := OfTier(manifest[1..], tier);
      assert manifest == [manifest[0]] + manifest[1..];
      if manifest[0].tier == tier then [manifest[0]] + rest else rest
  }

  // ---------------------------------------------------------------------------------------
  // `ds.sort(key=lambda x: x["id"])`: a stable sort by id.
  // ---------------------------------------------------------------------------------------

  /** No later dataset has an id smaller than an earlier one. */
  ghost predicate SortedById(s: seq<Dataset>) {
    forall i, j :: 0 <= i < j < |s| ==> !IdLess(s[j].id, s[i].id)
  }

  /** Insert `x` after every element whose id is not greater than its own. */
  function Insert(t: seq<Dataset>, x: Dataset): seq<Dataset>
  {
    if t == [] || IdLess(x.id, t[0].id) then [x] + t else [t[0]] + Insert(t[1..], x)
  }

  /** Insertion keeps a sorted list sorted and adds exactly `x`. */
  lemma {:induction false} InsertSorted(t: seq<Dataset>, x: Dataset)
    requires SortedById(t)
    ensures SortedById(Insert(t, x))
    ensures multiset(Insert(t, x)) == multiset(t) + multiset{x}
    ensures |Insert(t, x)| == |t| + 1
    decreases |t|
  {
    if t == [] {
    } else if IdLess(x.id, t[0].id) {
      forall j | 0 <= j < |t| ensures !IdLess(t[j].id, x.id) {
        if IdLess(t[j].id, x.id) {
          IdLessTransitive(t[j].id, x.id, t[0].id);
          if j == 0 {
            IdLessIrreflexive(t[0].id);
          }
        }
      }
      ConsSorted(x, t);
    } else {
      var tail := t[1..];
      assert SortedById(tail);
      InsertSorted(tail, x);
      InsertAtLeast(tail, x, t[0].id);
      ConsSorted(t[0], Insert(tail, x));
      assert t == [t[0]] + tail;
    }
  }

  /** No dataset of `s` has an id below `k`. */
  ghost predicate AtLeast(s: seq<Dataset>, k: string) {
    forall i :: 0 <= i < |s| ==> !IdLess(s[i].id, k)
  }

  /** A dataset not below the first of a sorted list can go in front of it. */
  lemma ConsSorted(h: Dataset, s: seq<Dataset>)
    requires SortedById(s) && AtLeast(s, h.id)
    ensures SortedById([h] + s)
  {
    var r := [h] + s;
    forall i, j | 0 <= i < j < |r| ensures !IdLess(r[j].id, r[i].id) {
      assert r[j] == s[j - 1];
      if i > 0 {
        assert r[i] == s[i - 1];
      }
    }
  }

  /** A lower bound on the ids of `t` and of `x` bounds the ids after insertion. */
  lemma {:induction false} InsertAtLeast(t: seq<Dataset>, x: Dataset, k: string)
    requires AtLeast(t, k) && !IdLess(x.id, k)
    ensures AtLeast(Insert(t, x), k)
    decreases |t|
  {
    if t == [] || IdLess(x.id, t[0].id) {
      var r := [x] + t;
      forall i | 0 <= i < |r| ensures !IdLess(r[i].id, k) {
        if i > 0 {
          assert r[i] == t[i - 1];
        }
      }
    } else {
      InsertAtLeast(t[1..], x, k);
      var r := [t[0]] + Insert(t[1..], x);
      forall i | 0 <= i < |r| ensures !IdLess(r[i].id, k) {
        if i > 0 {
          assert r[i] == Insert(t[1..], x)[i - 1];
        }
      }
    }
  }

  /** The datasets of `s` whose id is `k`, in order. */
  function WithId(s: seq<Dataset>, k: string): seq<Dataset>
  {
    if s == [] then []
    else (if s[0].id == k then [s[0]] else []) + WithId(s[1..], k)
  }

  lemma {:induction false} WithIdConcat(a: seq<Dataset>, b: seq<Dataset>, k: string)
    ensures WithId(a + b, k) == WithId(a, k) + WithId(b, k)
    decreases |a|
  {
    if a != [] {
      var head := if a[0].id == k then [a[0]] else [];
      assert (a + b)[0] == a[0];
      assert (a + b)[1..] == a[1..] + b;
      WithIdConcat(a[1..], b, k);
      assert WithId(a + b, k) == head + (WithId(a[1..], k) + WithId(b, k));
      assert head + (WithId(a[1..], k) + WithId(b, k)) == (head + WithId(a[1..], k)) + WithId(b, k);
    } else {
      assert a + b == b;
    }
  }

  /** In a sorted list whose first id is above `k`, no id equals `k`. */
  lemma {:induction false} NoIdBelow(t: seq<Dataset>, k: string)
    requires SortedById(t) && t != [] && IdLess(k, t[0].id)
    ensures WithId(t, k) == []
    decreases |t|
  {
    IdLessIrreflexive(k);
    assert t[0].id != k;
    if |t| > 1 {
      var u := t[1..];
      assert SortedById(u);
      assert !IdLess(u[0].id, t[0].id);
      IdLessTotal(t[0].id, u[0].id);
      if IdLess(t[0].id, u[0].id) {
        IdLessTransitive(k, t[0].id, u[0].id);
      }
      NoIdBelow(u, k);
    }
  }

  /** Inserting `x` into a sorted list keeps the order of each id's datasets, `x` last. */
  lemma {:induction false} InsertKeepsIdOrder(t: seq<Dataset>, x: Dataset, k: string)
    requires SortedById(t)
    ensures WithId(Insert(t, x), k) == WithId(t, k) + (if x.id == k then [x] else [])
    decreases |t|
  {
    if t == [] || IdLess(x.id, t[0].id) {
      InsertFrontKeepsIdOrder(t, x, k);
    } else {
      assert SortedById(t[1..]);
      InsertKeepsIdOrder(t[1..], x, k);
      InsertDeeperKeepsIdOrder(t, x, k);
    }
  }

  /** `x` goes in front: only when no dataset of t has its id, or t is empty. */
  lemma InsertFrontKeepsIdOrder(t: seq<Dataset>, x: Dataset, k: string)
    requires SortedById(t) && (t == [] || IdLess(x.id, t[0].id))
    ensures WithId(Insert(t, x), k) == WithId(t, k) + (if x.id == k then [x] else [])
  {
    var last := if x.id == k then [x] else [];
    assert Insert(t, x) == [x] + t;
    WithIdConcat([x], t, k);
    assert WithId([x], k) == last + WithId([], k);
    if t != [] && x.id == k {
      NoIdBelow(t, k);
    }
  }

  /** `x` goes after the head: the head's contribution comes first on both sides. */
  lemma InsertDeeperKeepsIdOrder(t: seq<Dataset>, x: Dataset, k: string)
    requires t != [] && !IdLess(x.id, t[0].id)
    requires WithId(Insert(t[1..], x), k) == WithId(t[1..], k) + (if x.id == k then [x] else [])
    ensures WithId(Insert(t, x), k) == WithId(t, k) + (if x.id == k then [x] else [])
  {
    var last := if x.id == k then [x] else [];
    var tail := t[1..];
    var head := if t[0].id == k then [t[0]] else [];
    var ins := Insert(t, x);
    assert ins == [t[0]] + Insert(tail, x);
    assert ins[0] == t[0] && ins[1..] == Insert(tail, x);
    assert WithId(ins, k) == head + WithId(Insert(tail, x), k);
    assert WithId(t, k) == head + WithId(tail, k);
    assert head + (WithId(tail, k) + last) == (head + WithId(tail, k)) + last;
  }

  /** `ds.sort(key=...)` as an insertion sort of the list front to back. */
  function SortById(s: seq<Dataset>): seq<Dataset>
  {
    if s == [] then [] else Insert(SortById(s[..|s| - 1]), s[|s| - 1])
  }

  /** The sort orders by id and is a permutation. */
  lemma {:induction false} SortByIdSpec(s: seq<Dataset>)
    ensures SortedById(SortById(s))
    ensures multiset(SortById(s)) == multiset(s)
    ensures |SortById(s)| == |s|
  {
    if s != [] {
      var init := s[..|s| - 1];
      SortByIdSpec(init);
      InsertSorted(SortById(init), s[|s| - 1]);
      assert s == init + [s[|s| - 1]];
    }
  }

  /** The sort is stable: the datasets sharing an id stay in their manifest order. */
  lemma {:induction false} SortByIdStable(s: seq<Dataset>, k: string)
    ensures WithId(SortById(s), k) == WithId(s, k)
  {
    if s != [] {
      var init := s[..|s| - 1];
      var x := s[|s| - 1];
      SortByIdStable(init, k);
      SortByIdSpec(init);
      InsertKeepsIdOrder(SortById(init), x, k);
      assert s == init + [x];
      WithIdConcat(init, [x], k);
    }
  }

  // ---------------------------------------------------------------------------------------
  // Integer facts for the positions of a shard.
  // ---------------------------------------------------------------------------------------

  lemma MulNonneg(a: int, t: int)
    requires a >= 0 && t >= 0
    ensures a * t >= 0
  {
  }

  /** A multiple of t strictly between -|t| and |t| is 0 * t. */
  lemma MulZero(a: int, t: int)
    requires t > 0 && -t < a * t < t
    ensures a == 0
  {
    MulLe(1, a, t);
    MulLe(a, -1, t);
  }

  /** Multiplying by a positive t keeps the order. */
  lemma MulLe(a: int, b: int, t: int)
    requires t > 0
    ensures a * t <= b * t <==> a <= b
  {
    assert b * t - a * t == (b - a) * t;
    if a <= b {
      MulNonneg(b - a, t);
    } else {
      MulNonneg(a - b - 1, t);
      assert (a - b) * t == (a - b - 1) * t + t;
    }
  }

  /** Quotient and remainder are unique. */
  lemma DivModUnique(x: int, q: int, r: int, t: int)
    requires t > 0 && x == q * t + r && 0 <= r < t
    ensures x % t == r && x / t == q
  {
    assert (x / t - q) * t == r - x % t;
    MulZero(x / t - q, t);
  }

  // ---------------------------------------------------------------------------------------
  // `[d for i, d in enumerate(ds) if i % group_total == group_index]`
  // ---------------------------------------------------------------------------------------

  /** Python's `%`: the remainder takes the sign of the divisor. */
  function PyMod(a: int, b: int): (m: int)
    requires b != 0
    ensures b > 0 ==> 0 <= m < b && m == a % b
    ensures b < 0 ==> b < m <= 0
  {
    var m := a % b;
    if b < 0 && m != 0 then m + b else m
  }

  /** Python's `a % b` for b < 0 is `-((-a) % (-b))`. */
  lemma PyModNegativeDivisor(a: int, b: int)
    requires b < 0
    ensures PyMod(a, b) == -PyMod(-a, -b)
  {
    var t := -b;
    var r := a % b;
    assert a == -(a / b) * t + r;
    if r == 0 {
      DivModUnique(-a, a / b, 0, t);
    } else {
      assert -a == (a / b - 1) * t + (t - r);
      DivModUnique(-a, a / b - 1, t - r, t);
    }
  }

  /** The datasets at positions 0 .. n-1 of `ds` whose index modulo `total` is `index`, in order. */
  function Pick(ds: seq<Dataset>, index: int, total: int, n: nat): seq<Dataset>
    requires total != 0 && n <= |ds|
  {
    if n == 0 then []
    else Pick(ds, index, total, n - 1) + (if PyMod(n - 1, total) == index then [ds[n - 1]] else [])
  }

  /** The round-robin shard `index` of `total`. */
  function RoundRobin(ds: seq<Dataset>, index: int, total: int): seq<Dataset>
    requires total != 0
  {
    Pick(ds, index, total, |ds|)
  }

  /** Every picked dataset comes from `ds`, at most as often as it occurs there. */
  lemma {:induction false} PickFrom(ds: seq<Dataset>, index: int, total: int, n: nat)
    requires total != 0 && n <= |ds|
    ensures multiset(Pick(ds, index, total, n)) <= multiset(ds[..n])
  {
    if n > 0 {
      PickFrom(ds, index, total, n - 1);
      PickGrowsByOne(ds, index, total, n);
      PrefixGrowsByOne(ds, n);
    }
  }

  /** Position n - 1 adds at most its own dataset to the shard. */
  lemma PickGrowsByOne(ds: seq<Dataset>, index: int, total: int, n: nat)
    requires total != 0 && 0 < n <= |ds|
    ensures multiset(Pick(ds, index, total, n)) <= multiset(Pick(ds, index, total, n - 1)) + multiset{ds[n - 1]}
  {
    var last := if PyMod(n - 1, total) == index then [ds[n - 1]] else [];
    assert Pick(ds, index, total, n) == Pick(ds, index, total, n - 1) + last;
  }

  /** The prefix of length n is the prefix of length n - 1 and one more dataset. */
  lemma PrefixGrowsByOne(ds: seq<Dataset>, n: nat)
    requires 0 < n <= |ds|
    ensures multiset(ds[..n]) == multiset(ds[..n - 1]) + multiset{ds[n - 1]}
  {
    assert ds[..n] == ds[..n - 1] + [ds[n - 1]];
  }

  /**
   * select_datasets. `None` is the ZeroDivisionError of `i % 0`, which needs at least one
   * dataset of the tier; an empty tier returns [] whatever `group_total` is.
   */
  function SelectDatasets(manifest: seq<Dataset>, tier: string, index: int, total: int): Option<seq<Dataset>>
  {
    var ds := SortById(OfTier(manifest, tier));
    if total == 0 then
      if |ds| == 0 then Some([]) else None
    else
      Some(RoundRobin(ds, index, total))
  }

  /**
   * select_datasets fails only for group_total == 0 with a non-empty tier, and what it
   * returns are datasets of the manifest with the requested tier.
   */
  lemma SelectDatasetsOutcome(manifest: seq<Dataset>, tier: string, index: int, total: int)
    ensures var r := SelectDatasets(manifest, tier, index, total);
      && (r.None? <==> total == 0 && exists d :: d in manifest && d.tier == tier)
      && (r.Some? ==> forall d :: d in r.value ==> d in manifest && d.tier == tier)
  {
    var t := OfTier(manifest, tier);
    var ds := SortById(t);
    SortByIdSpec(t);
    var r := SelectDatasets(manifest, tier, index, total);
    if total == 0 {
      if |ds| != 0 {
        assert ds[0] in multiset(t);
        assert ds[0] in manifest && ds[0].tier == tier;
      }
    } else {
      PickFrom(ds, index, total, |ds|);
      assert ds[..|ds|] == ds;
      forall d | d in r.value ensures d in manifest && d.tier == tier {
        assert d in multiset(r.value);
        assert d in multiset(t);
      }
    }
  }

  /** Each shard is in id order and drawn from the tier without repetition. */
  lemma SelectedSortedSubset(manifest: seq<Dataset>, tier: string, index: int, total: int)
    requires total != 0
    ensures SelectDatasets(manifest, tier, index, total).Some?
    ensures SortedById(SelectDatasets(manifest, tier, index, total).value)
    ensures multiset(SelectDatasets(manifest, tier, index, total).value) <= multiset(OfTier(manifest, tier))
  {
    var ds := SortById(OfTier(manifest, tier));
    SortByIdSpec(OfTier(manifest, tier));
    PickFrom(ds, index, total, |ds|);
    assert ds[..|ds|] == ds;
    PickSorted(ds, index, total, |ds|);
  }

  /** A shard keeps the order of the list it picks from. */
  lemma {:induction false} PickSorted(ds: seq<Dataset>, index: int, total: int, n: nat)
    requires total != 0 && n <= |ds| && SortedById(ds)
    ensures SortedById(Pick(ds, index, total, n))
    ensures forall i :: 0 <= i < |Pick(ds, index, total, n)| ==>
      exists p :: 0 <= p < n && Pick(ds, index, total, n)[i] == ds[p]
  {
    if n > 0 {
      PickSorted(ds, index, total, n - 1);
      var pre := Pick(ds, index, total, n - 1);
      if PyMod(n - 1, total) == index {
        var r := pre + [ds[n - 1]];
        forall i, j | 0 <= i < j < |r| ensures !IdLess(r[j].id, r[i].id) {
          if j == |pre| {
            var p :| 0 <= p < n - 1 && pre[i] == ds[p];
          }
        }
        forall i | 0 <= i < |r| ensures exists p :: 0 <= p < n && r[i] == ds[p] {
          if i == |pre| {
            assert r[i] == ds[n - 1];
          } else {
            var p :| 0 <= p < n - 1 && pre[i] == ds[p];
            assert r[i] == ds[p];
          }
        }
      }
    }
  }

  // ---------------------------------------------------------------------------------------
  // Which positions a shard holds.
  // ---------------------------------------------------------------------------------------

  /** The next position a shard holds is the one after its last, `total` further on. */
  lemma HitPosition(k: int, c: nat, index: int, total: int)
    requires 0 <= index < total && 0 <= k && k % total == index
    requires k <= index + c * total
    requires c == 0 || index + (c - 1) * total < k
    ensures k == index + c * total && k + total == index + (c + 1) * total
  {
    var q := k / total;
    DivMod(k, total);
    MulLe(q, c, total);
    if c > 0 {
      MulLe(q, c - 1, total);
    }
    MulLe(q, -1, total);
    assert q == c;
  }

  /**
   * With 0 <= index < total, shard `index` of the first n positions holds exactly the
   * positions index, index + total, index + 2 * total, ... below n, in that order.
   */
  lemma {:induction false} PickPositions(ds: seq<Dataset>, index: int, total: int, n: nat)
    requires 0 <= index < total && n <= |ds|
    ensures var r := Pick(ds, index, total, n);
      && (forall j :: 0 <= j < |r| ==> index + j * total < n && r[j] == ds[index + j * total])
      && n <= index + |r| * total
      && (|r| == 0 || index + (|r| - 1) * total < n)
  {
    if n > 0 {
      PickPositions(ds, index, total, n - 1);
      var pre := Pick(ds, index, total, n - 1);
      var c := |pre|;
      var k := n - 1;
      if k % total == index {
        HitPosition(k, c, index, total);
        var r := pre + [ds[k]];
        assert Pick(ds, index, total, n) == r;
        forall j | 0 <= j < |r| ensures index + j * total < n && r[j] == ds[index + j * total] {
          if j < c {
            assert r[j] == pre[j];
          }
        }
      } else {
        assert Pick(ds, index, total, n) == pre;
        if k == index + c * total {
          DivModUnique(k, c, index, total);
        }
      }
    }
  }

  /** A position k with k % total == index is element k / total of shard `index`. */
  lemma PositionInShard(ds: seq<Dataset>, index: int, total: int, k: int)
    requires 0 <= index < total && 0 <= k < |ds| && k % total == index
    ensures k / total < |RoundRobin(ds, index, total)|
    ensures RoundRobin(ds, index, total)[k / total] == ds[k]
  {
    var r := Pick(ds, index, total, |ds|);
    var q := k / total;
    var c := |r|;
    DivMod(k, total);
    assert k == index + q * total;
    PickPositions(ds, index, total, |ds|);
    assert q * total < c * total;
    MulLe(c, q, total);
    MulLe(q, -1, total);
    assert 0 <= q < |r|;
    assert r[q] == ds[index + q * total];
  }

  /** Euclidean division by a positive divisor. */
  lemma DivMod(x: int, t: int)
    requires t > 0
    ensures x == (x / t) * t + x % t && 0 <= x % t < t
  {
  }

  /**
   * Position k of the sorted tier list lands in shard `index` iff k % total == index, and
   * there it is element k / total.
   */
  lemma SelectedIff(ds: seq<Dataset>, index: int, total: int)
    requires 0 <= index < total
    ensures var r := RoundRobin(ds, index, total);
      && (forall k :: 0 <= k < |ds| && k % total == index ==> k / total < |r| && r[k / total] == ds[k])
      && (forall j :: 0 <= j < |r| ==> (index + j * total) % total == index && index + j * total < |ds| && r[j] == ds[index + j * total])
  {
    var r := RoundRobin(ds, index, total);
    forall k | 0 <= k < |ds| && k % total == index ensures k / total < |r| && r[k / total] == ds[k] {
      PositionInShard(ds, index, total, k);
    }
    ShardPositions(ds, index, total);
  }

  /** Element j of shard `index` is position index + j * total, which belongs to the shard. */
  lemma ShardPositions(ds: seq<Dataset>, index: int, total: int)
    requires 0 <= index < total
    ensures var r := RoundRobin(ds, index, total);
      forall j :: 0 <= j < |r| ==> (index + j * total) % total == index && index + j * total < |ds| && r[j] == ds[index + j * total]
  {
    var r := RoundRobin(ds, index, total);
    PickPositions(ds, index, total, |ds|);
    forall j | 0 <= j < |r|
      ensures (index + j * total) % total == index
    {
      DivModUnique(index + j * total, j, index, total);
    }
  }


  /** An index outside the range of `i % total` selects nothing. */
  lemma {:induction false} OutOfRangeIndexEmpty(ds: seq<Dataset>, index: int, total: int, n: nat)
    requires total != 0 && n <= |ds|
    requires total > 0 ==> index < 0 || index >= total
    requires total < 0 ==> index <= total || index > 0
    ensures Pick(ds, index, total, n) == []
  {
    if n > 0 {
      OutOfRangeIndexEmpty(ds, index, total, n - 1);
    }
  }

  /** select_datasets with a group_index outside the range of `i % group_total` is empty. */
  lemma OutOfRangeSelectsNothing(manifest: seq<Dataset>, tier: string, index: int, total: int)
    requires total != 0
    requires total > 0 ==> index < 0 || index >= total
    requires total < 0 ==> index <= total || index > 0
    ensures SelectDatasets(manifest, tier, index, total) == Some([])
  {
    var ds := SortById(OfTier(manifest, tier));
    OutOfRangeIndexEmpty(ds, index, total, |ds|);
  }

  /** The default shard (0 of 1) is the whole list. */
  lemma {:induction false} SingleShardIsAll(ds: seq<Dataset>, n: nat)
    requires n <= |ds|
    ensures Pick(ds, 0, 1, n) == ds[..n]
  {
    if n > 0 {
      SingleShardIsAll(ds, n - 1);
      assert ds[..n] == ds[..n - 1] + [ds[n - 1]];
    }
  }

  /** With the defaults (group 0 of 1) select_datasets returns the whole tier in id order. */
  lemma DefaultSelection(manifest: seq<Dataset>, tier: string)
    ensures SelectDatasets(manifest, tier, 0, 1) == Some(SortById(OfTier(manifest, tier)))
  {
    var ds := SortById(OfTier(manifest, tier));
    SingleShardIsAll(ds, |ds|);
    assert ds[..|ds|] == ds;
  }

  /** The filter keeps manifest order: its datasets with id `k` are the manifest's, filtered. */
  lemma {:induction false} OfTierKeepsOrder(manifest: seq<Dataset>, tier: string, k: string)
    ensures WithId(OfTier(manifest, tier), k) == OfTier(WithId(manifest, k), tier)
    decreases |manifest|
  {
    if manifest != [] {
      var d := manifest[0];
      var tail := manifest[1..];
      OfTierKeepsOrder(tail, tier, k);
      var picked := if d.tier == tier then [d] else [];
      assert OfTier(manifest, tier) == picked + OfTier(tail, tier);
      WithIdConcat(picked, OfTier(tail, tier), k);
      var same := if d.id == k then [d] else [];
      assert WithId(manifest, k) == same + WithId(tail, k);
      OfTierConcat(same, WithId(tail, k), tier);
    }
  }

  /** Filtering distributes over concatenation. */
  lemma {:induction false} OfTierConcat(a: seq<Dataset>, b: seq<Dataset>, tier: string)
    ensures OfTier(a + b, tier) == OfTier(a, tier) + OfTier(b, tier)
    decreases |a|
  {
    if a == [] {
      assert a + b == b;
    } else {
      assert (a + b)[0] == a[0];
      assert (a + b)[1..] == a[1..] + b;
      OfTierConcat(a[1..], b, tier);
    }
  }

  /**
   * With the defaults, the selected datasets with one id are the manifest's datasets of the
   * tier with that id, in manifest order (the sort is stable).
   */
  lemma DefaultSelectionKeepsManifestOrder(manifest: seq<Dataset>, tier: string, k: string)
    ensures SelectDatasets(manifest, tier, 0, 1).Some?
    ensures WithId(SelectDatasets(manifest, tier, 0, 1).value, k) == OfTier(WithId(manifest, k), tier)
  {
    DefaultSelection(manifest, tier);
    SortByIdStable(OfTier(manifest, tier), k);
    OfTierKeepsOrder(manifest, tier, k);
  }

  // ---------------------------------------------------------------------------------------
  // The shards partition the tier.
  // ---------------------------------------------------------------------------------------

  /** f(0) + ... + f(g - 1). */
  ghost function SumBelow(f: nat -> nat, g: nat): nat {
    if g == 0 then 0 else SumBelow(f, g - 1) + f(g - 1)
  }

  lemma {:induction false} SumBelowMonotone(f: nat -> nat, g1: nat, g2: nat)
    requires g1 <= g2
    ensures SumBelow(f, g1) <= SumBelow(f, g2)
    decreases g2
  {
    if g1 < g2 {
      SumBelowMonotone(f, g1, g2 - 1);
    }
  }

  /** Two different terms below g are both part of the sum. */
  lemma SumBelowTwo(f: nat -> nat, a: nat, b: nat, g: nat)
    requires a < b < g
    ensures f(a) + f(b) <= SumBelow(f, g)
  {
    SumBelowMonotone(f, a + 1, b);
    SumBelowMonotone(f, b + 1, g);
  }

  /** Raising the term m by c raises the sum by c when m is below g. */
  lemma {:induction false} SumBelowBump(f: nat -> nat, h: nat -> nat, m: nat, c: nat, g: nat)
    requires forall i :: f(i) == h(i) + (if i == m then c else 0)
    ensures SumBelow(f, g) == SumBelow(h, g) + (if m < g then c else 0)
  {
    if g > 0 {
      SumBelowBump(f, h, m, c, g - 1);
      assert f(g - 1) == h(g - 1) + (if g - 1 == m then c else 0);
    }
  }

  lemma {:induction false} SumBelowZero(f: nat -> nat, g: nat)
    requires forall i :: f(i) == 0
    ensures SumBelow(f, g) == 0
  {
    if g > 0 {
      SumBelowZero(f, g - 1);
      assert f(g - 1) == 0;
    }
  }

  /** Shard i's count of `x` over the first n positions, for every shard number i. */
  ghost function ShardCounts(ds: seq<Dataset>, total: int, n: nat, x: Dataset): nat -> nat
    requires total != 0 && n <= |ds|
  {
    i => multiset(Pick(ds, i, total, n))[x]
  }

  /** A shard gains position n - 1 exactly when that position belongs to it. */
  lemma PickStep(ds: seq<Dataset>, index: int, total: int, n: nat, x: Dataset)
    requires total > 0 && 0 < n <= |ds|
    ensures multiset(Pick(ds, index, total, n))[x] ==
      multiset(Pick(ds, index, total, n - 1))[x] + (if (n - 1) % total == index && ds[n - 1] == x then 1 else 0)
  {
    var added := if PyMod(n - 1, total) == index then [ds[n - 1]] else [];
    assert Pick(ds, index, total, n) == Pick(ds, index, total, n - 1) + added;
  }

  /** Position n - 1 adds to the count of shard (n - 1) % total only. */
  lemma ShardCountsStep(ds: seq<Dataset>, total: int, n: nat, x: Dataset)
    requires total > 0 && 0 < n <= |ds|
    ensures forall i: nat ::
              ShardCounts(ds, total, n, x)(i) ==
              ShardCounts(ds, total, n - 1, x)(i) + (if i == (n - 1) % total then (if ds[n - 1] == x then 1 else 0) else 0)
  {
    forall i: nat ensures ShardCounts(ds, total, n, x)(i) ==
      ShardCounts(ds, total, n - 1, x)(i) + (if i == (n - 1) % total then (if ds[n - 1] == x then 1 else 0) else 0)
    {
      PickStep(ds, i, total, n, x);
    }
  }

  /** The prefix of length n counts x once more than the one of length n - 1 if ds[n - 1] is x. */
  lemma PrefixCount(ds: seq<Dataset>, n: nat, x: Dataset)
    requires 0 < n <= |ds|
    ensures multiset(ds[..n])[x] == multiset(ds[..n - 1])[x] + (if ds[n - 1] == x then 1 else 0)
  {
    assert ds[..n] == ds[..n - 1] + [ds[n - 1]];
  }

  /** Together the shards 0 .. total-1 count every position of the first n exactly once. */
  lemma {:induction false} ShardsCover(ds: seq<Dataset>, total: int, n: nat, x: Dataset)
    requires total > 0 && n <= |ds|
    ensures SumBelow(ShardCounts(ds, total, n, x), total) == multiset(ds[..n])[x]
  {
    var f := ShardCounts(ds, total, n, x);
    if n == 0 {
      SumBelowZero(f, total);
    } else {
      ShardsCover(ds, total, n - 1, x);
      var h := ShardCounts(ds, total, n - 1, x);
      var m := (n - 1) % total;
      var c := if ds[n - 1] == x then 1 else 0;
      ShardCountsStep(ds, total, n, x);
      SumBelowBump(f, h, m, c, total);
      PrefixCount(ds, n, x);
    }
  }

  /**
   * For group_total > 0 the shards 0 .. group_total-1 of select_datasets together hold the
   * tier's datasets, each exactly as often as the manifest lists it, and no two shards hold
   * the same occurrence.
   */
  lemma ShardsPartitionTier(manifest: seq<Dataset>, tier: string, total: int)
    requires total > 0
    ensures var ds := SortById(OfTier(manifest, tier));
      && (forall x :: SumBelow(ShardCounts(ds, total, |ds|, x), total) == multiset(OfTier(manifest, tier))[x])
      && forall a, b :: 0 <= a < b < total ==>
           multiset(RoundRobin(ds, a, total)) + multiset(RoundRobin(ds, b, total)) <= multiset(OfTier(manifest, tier))
  {
    var ds := SortById(OfTier(manifest, tier));
    SortByIdSpec(OfTier(manifest, tier));
    assert ds[..|ds|] == ds;
    forall x ensures SumBelow(ShardCounts(ds, total, |ds|, x), total) == multiset(OfTier(manifest, tier))[x] {
      ShardsCover(ds, total, |ds|, x);
    }
    forall a, b | 0 <= a < b < total
      ensures multiset(RoundRobin(ds, a, total)) + multiset(RoundRobin(ds, b, total)) <= multiset(OfTier(manifest, tier))
    {
      forall x ensures (multiset(RoundRobin(ds, a, total)) + multiset(RoundRobin(ds, b, total)))[x] <= multiset(OfTier(manifest, tier))[x] {
        var f := ShardCounts(ds, total, |ds|, x);
        SumBelowTwo(f, a, b, total);
        ShardsCover(ds, total, |ds|, x);
      }
    }
  }
}
