/**
  The reward calculator of the chore board (`calculateWeeklyEarnings`).

  A child's week is a sparse mapping from category id to the number of times
  that chore was checked. The reward is decided by two tiers, each a pair of
  thresholds (total checkmarks, distinct categories) with a cash amount; the
  second tier is tested first, so the tiers are never added together.
*/
module Rewards {

  /** Per-category checkmark counts of one child for the current week. */
  type Chores = map<string, nat>

  /** The reward configuration. The concrete constants live in a module that
      is not part of this model, so every operation takes them as a value. */
  datatype Tiers = Tiers(
    tier1Chores: int, tier1Categories: int, tier1Cash: int,
    tier2Chores: int, tier2Categories: int, tier2Cash: int)

  /** Cash amounts ordered as the tiers are: nothing, then tier 1, then tier 2. */
  predicate CashOrdered(t: Tiers) {
    0 <= t.tier1Cash <= t.tier2Cash
  }

  /** No tier can be reached without at least one checkmark. */
  predicate NeedsActivity(t: Tiers) {
    t.tier1Chores >= 1 && t.tier2Chores >= 1
  }

  /** The count recorded for `k`, or 0 when the key is absent (`chores[k] || 0`). */
  function Count(m: Chores, k: string): nat {
    if k in m then m[k] else 0
  }

  /** The mapping after one more checkmark for `k` (the spread in `handleMarkChore`). */
  function AddOne(m: Chores, k: string): (r: Chores)
    ensures r.Keys == m.Keys + {k}
    ensures r[k] == Count(m, k) + 1
    ensures forall j :: j != k ==> Count(r, j) == Count(m, j)
  {
    m[k := Count(m, k) + 1]
  }

  /** The mapping after one checkmark for `k` is taken back: the count drops
      by one and a key whose count reaches zero is deleted. */
  function RemoveOne(m: Chores, k: string): (r: Chores)
    requires Count(m, k) > 0
    ensures Count(r, k) == Count(m, k) - 1
    ensures k in r <==> Count(m, k) > 1
    ensures forall j :: j != k ==> Count(r, j) == Count(m, j)
    ensures r.Keys <= m.Keys
  {
    if m[k] - 1 == 0 then m - {k} else m[k := m[k] - 1]
  }

  /** The categories done at least once this week. */
  function PositiveKeys(m: Chores): set<string> {
    set k | k in m && m[k] > 0
  }

  /** The number of categories done this week (the keys with a positive count). */
  function DistinctCategories(m: Chores): (r: nat)
    ensures r == 0 <==> PositiveKeys(m) == {}
  {
    |PositiveKeys(m)|
  }

  /** No category is done exactly when every recorded count is zero, and no
      more categories are done than there are keys. */
  lemma DistinctCategoriesBounds(m: Chores)
    ensures DistinctCategories(m) == 0 <==> forall k :: k in m ==> m[k] == 0
    ensures DistinctCategories(m) <= |m|
  {
    SubsetCardinality(PositiveKeys(m), m.Keys);
    if DistinctCategories(m) != 0 {
      var k :| k in PositiveKeys(m);
    } else {
      forall k | k in m ensures m[k] == 0 {
        assert k !in PositiveKeys(m);
      }
    }
  }

  /** Some key of a non-empty mapping; every sum below peels off this key. */
  ghost function Pick(m: Chores): (k: string)
    requires m != map[]
    ensures k in m
  {
    var k :| k in m; k
  }

  /** The sum of all counts (`Object.values(chores).reduce(+, 0)`). It is zero
      exactly when no category was done, and never below the number of
      distinct categories done. */
  ghost function TotalChores(m: Chores): (r: nat)
    ensures r == 0 <==> PositiveKeys(m) == {}
    ensures DistinctCategories(m) <= r
    decreases |m|
  {
    if m == map[] then 0
    else
      var k := Pick(m);
      var rest := m - {k};
      assert |rest| < |m| by { assert rest.Keys == m.Keys - {k}; }
      PositiveKeysPeel(m, k);
      m[k] + TotalChores(rest)
  }

  /** Removing key `k` removes it from the positive keys and nothing else. */
  lemma PositiveKeysPeel(m: Chores, k: string)
    requires k in m
    ensures PositiveKeys(m) == PositiveKeys(m - {k}) + (if m[k] > 0 then {k} else {})
    ensures k !in PositiveKeys(m - {k})
    ensures |PositiveKeys(m)| == |PositiveKeys(m - {k})| + (if m[k] > 0 then 1 else 0)
  {
  }

  ghost predicate MeetsTier2(m: Chores, t: Tiers) {
    TotalChores(m) >= t.tier2Chores && DistinctCategories(m) >= t.tier2Categories
  }

  ghost predicate MeetsTier1(m: Chores, t: Tiers) {
    TotalChores(m) >= t.tier1Chores && DistinctCategories(m) >= t.tier1Categories
  }

  /** `calculateWeeklyEarnings`: tier 2 is tested before tier 1, so the
      result is always exactly one of the two cash amounts or nothing. */
  ghost function WeeklyEarnings(m: Chores, t: Tiers): (r: int)
    ensures r == t.tier2Cash || r == t.tier1Cash || r == 0
    ensures MeetsTier2(m, t) ==> r == t.tier2Cash
  {
    if MeetsTier2(m, t) then t.tier2Cash
    else if MeetsTier1(m, t) then t.tier1Cash
    else 0
  }

  /** Reference meaning of the reward: the largest amount among nothing and
      the cash of every tier whose thresholds are met. */
  ghost predicate IsBestMetTier(m: Chores, t: Tiers, r: int) {
    && (r == 0 || (r == t.tier1Cash && MeetsTier1(m, t)) || (r == t.tier2Cash && MeetsTier2(m, t)))
    && r >= 0
    && (MeetsTier1(m, t) ==> r >= t.tier1Cash)
    && (MeetsTier2(m, t) ==> r >= t.tier2Cash)
  }

  /** With the cash amounts ordered, testing tier 2 first yields exactly the
      best tier met: a child meeting both gets the tier-2 amount alone, one
      meeting only tier 1 gets the tier-1 amount, anyone else gets nothing. */
  lemma EarningsAreBestMetTier(m: Chores, t: Tiers)
    requires CashOrdered(t)
    ensures IsBestMetTier(m, t, WeeklyEarnings(m, t))
    ensures t.tier1Cash > 0 && t.tier2Cash > 0 ==> WeeklyEarnings(m, t) != t.tier1Cash + t.tier2Cash
    ensures forall r :: IsBestMetTier(m, t, r) ==> r == WeeklyEarnings(m, t)
  {
  }

  /** Removing one key from the sum subtracts exactly its count, whichever key
      the definition happens to peel first. */
  lemma {:induction false} TotalChoresRemove(m: Chores, k: string)
    requires k in m
    ensures TotalChores(m) == m[k] + TotalChores(m - {k})
    decreases |m|
  {
    var j := Pick(m);
    if j != k {
      var mj, mk := m - {j}, m - {k};
      assert |mj| < |m| by { assert mj.Keys == m.Keys - {j}; }
      assert |mk| < |m| by { assert mk.Keys == m.Keys - {k}; }
      TotalChoresRemove(mj, k);
      TotalChoresRemove(mk, j);
      assert mj - {k} == mk - {j};
    }
  }

  /** One more checkmark adds exactly one to the total. */
  lemma TotalChoresAddOne(m: Chores, k: string)
    ensures TotalChores(AddOne(m, k)) == TotalChores(m) + 1
  {
    var r := AddOne(m, k);
    TotalChoresRemove(r, k);
    assert r - {k} == m - {k};
    if k in m {
      TotalChoresRemove(m, k);
    } else {
      assert m - {k} == m;
    }
  }

  /** Taking back one checkmark removes exactly one from the total. */
  lemma TotalChoresRemoveOne(m: Chores, k: string)
    requires Count(m, k) > 0
    ensures TotalChores(RemoveOne(m, k)) == TotalChores(m) - 1
  {
    var r := RemoveOne(m, k);
    TotalChoresRemove(m, k);
    if k in r {
      TotalChoresRemove(r, k);
      assert r - {k} == m - {k};
    } else {
      assert r == m - {k};
    }
  }

  /** `m2` holds at least every count of `m`. */
  ghost predicate Dominates(m2: Chores, m: Chores) {
    forall k :: k in m ==> m[k] <= Count(m2, k)
  }

  lemma {:induction false} TotalChoresMonotone(m: Chores, m2: Chores)
    requires Dominates(m2, m)
    ensures TotalChores(m) <= TotalChores(m2)
    decreases |m|
  {
    if m != map[] {
      var k := Pick(m);
      var rest := m - {k};
      assert |rest| < |m| by { assert rest.Keys == m.Keys - {k}; }
      if k in m2 {
        TotalChoresRemove(m2, k);
        TotalChoresMonotone(rest, m2 - {k});
      } else {
        TotalChoresMonotone(rest, m2);
      }
    }
  }

  lemma SubsetCardinality(a: set<string>, b: set<string>)
    requires a <= b
    ensures |a| <= |b|
  {
    assert b == a + (b - a);
  }

  lemma DistinctCategoriesMonotone(m: Chores, m2: Chores)
    requires Dominates(m2, m)
    ensures DistinctCategories(m) <= DistinctCategories(m2)
  {
    SubsetCardinality(PositiveKeys(m), PositiveKeys(m2));
  }

  /** Adding checkmarks never lowers the reward, when the cash amounts are
      ordered as the tiers are. */
  lemma EarningsMonotone(m: Chores, m2: Chores, t: Tiers)
    requires CashOrdered(t)
    requires Dominates(m2, m)
    ensures WeeklyEarnings(m, t) <= WeeklyEarnings(m2, t)
  {
    TotalChoresMonotone(m, m2);
    DistinctCategoriesMonotone(m, m2);
  }

  /** A week with no checkmark earns nothing when every tier needs activity. */
  lemma IdleWeekEarnsNothing(m: Chores, t: Tiers)
    requires NeedsActivity(t)
    requires TotalChores(m) == 0
    ensures WeeklyEarnings(m, t) == 0
  {
  }
}
