/**
  Worked examples of the board with tier 1 at (5 checkmarks, 2 categories)
  paying 2 and tier 2 at (10 checkmarks, 3 categories) paying 5.
*/
module Scenarios {
  import opened Wrappers
  import opened Rewards
  import opened ChoreBoard

  function ExampleTiers(): Tiers {
    Tiers(5, 2, 2, 10, 3, 5)
  }

  /** The total of a two-category week is the sum of its two counts. */
  lemma TotalChoresOfPair(a: string, b: string, x: nat, y: nat)
    requires a != b
    ensures TotalChores(map[a := x, b := y]) == x + y
  {
    var m := map[a := x, b := y];
    TotalChoresRemove(m, a);
    assert m - {a} == map[b := y];
    TotalChoresRemove(map[b := y], b);
    assert map[b := y] - {b} == map[];
  }

  lemma DistinctCategoriesOfPair(a: string, b: string, x: nat, y: nat)
    requires a != b && x > 0 && y > 0
    ensures DistinctCategories(map[a := x, b := y]) == 2
  {
    assert PositiveKeys(map[a := x, b := y]) == {a, b};
  }

  /** Two and two checkmarks earn nothing; the fifth one crosses tier 1, and
      the toast shows 2. */
  lemma TierCrossingScenario(weekOf: string)
    ensures var c := Child("child1", "Alex", "avatar1", map["catA" := 2, "catB" := 2], 0, []);
      var r := MarkChore(Board([c], [Category("catA", "Mettre la table"), Category("catB", "Ranger sa chambre")]), "child1", "catA", ExampleTiers());
      && WeeklyEarnings(c.chores, ExampleTiers()) == 0
      && r.board.children[0].chores == map["catA" := 3, "catB" := 2]
      && WeeklyEarnings(r.board.children[0].chores, ExampleTiers()) == 2
      && r.reward == Some(2)
  {
    var c := Child("child1", "Alex", "avatar1", map["catA" := 2, "catB" := 2], 0, []);
    var b := Board([c], [Category("catA", "Mettre la table"), Category("catB", "Ranger sa chambre")]);
    var after := map["catA" := 3, "catB" := 2];
    TotalChoresOfPair("catA", "catB", 2, 2);
    DistinctCategoriesOfPair("catA", "catB", 2, 2);
    assert AddOne(c.chores, "catA") == after;
    TotalChoresOfPair("catA", "catB", 3, 2);
    DistinctCategoriesOfPair("catA", "catB", 3, 2);
    MarkSignalsRewardIncrease(b, 0, "child1", "catA", ExampleTiers());
  }

  /** A week of five checkmarks over two categories: the total goes from 10 to
      12 and one entry of 5 checkmarks and 2 earned heads the history. */
  lemma ArchiveWithActivityScenario(weekOf: string)
    ensures var c := Child("child1", "Alex", "avatar1", map["catA" := 3, "catB" := 2], 10, []);
      ArchiveChild(c, weekOf, ExampleTiers())
        == Child("child1", "Alex", "avatar1", map[], 12, [WeeklyArchive(weekOf, 5, 2)])
  {
    TotalChoresOfPair("catA", "catB", 3, 2);
    DistinctCategoriesOfPair("catA", "catB", 3, 2);
  }

  /** A week with no checkmark leaves the total and the history as they were. */
  lemma ArchiveWithoutActivityScenario(weekOf: string, x: WeeklyArchive)
    ensures var c := Child("child1", "Alex", "avatar1", map[], 10, [x]);
      ArchiveChild(c, weekOf, ExampleTiers()) == c
  {
  }
}
