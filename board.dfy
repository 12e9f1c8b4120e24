/**
  The chore board's state transitions (the handlers of `App`), with the React
  setters, persistence and UI timing stripped away: each handler is a function
  from the board (roster of children and list of categories) to the next board.
*/
module ChoreBoard {
  import opened Wrappers
  import opened Rewards

  datatype Category = Category(id: string, name: string)

  /** One finished week in a child's history. */
  datatype WeeklyArchive = WeeklyArchive(weekOf: string, totalChores: nat, earnings: int)

  datatype Child = Child(
    id: string,
    name: string,
    avatarId: string,
    chores: Chores,
    totalEarnings: int,
    archive: seq<WeeklyArchive>)  // newest first

  datatype Board = Board(children: seq<Child>, categories: seq<Category>)

  /** The result of marking a chore: the next board and the "reward earned"
      signal (the amount shown by the toast), if one fired. */
  datatype Marked = Marked(board: Board, reward: Option<int>)

  // ---------------------------------------------------------------- invariants

  predicate Sparse(m: Chores) {
    forall k :: k in m ==> m[k] >= 1
  }

  predicate UniqueChildIds(cs: seq<Child>) {
    forall i, j :: 0 <= i < j < |cs| ==> cs[i].id != cs[j].id
  }

  predicate UniqueCategoryIds(cats: seq<Category>) {
    forall i, j :: 0 <= i < j < |cats| ==> cats[i].id != cats[j].id
  }

  predicate HasCategory(cats: seq<Category>, id: string) {
    exists j :: 0 <= j < |cats| && cats[j].id == id
  }

  predicate HasChild(cs: seq<Child>, id: string) {
    exists i :: 0 <= i < |cs| && cs[i].id == id
  }

  /** The board's invariants: unique ids, sparse counts, and every counted
      category still exists. */
  predicate Valid(b: Board) {
    && UniqueChildIds(b.children)
    && UniqueCategoryIds(b.categories)
    && (forall i :: 0 <= i < |b.children| ==> Sparse(b.children[i].chores))
    && (forall i, k :: 0 <= i < |b.children| && k in b.children[i].chores ==> HasCategory(b.categories, k))
  }

  /** The board seeded when no stored document exists: three children with
      nothing counted, earned or archived, and three categories. */
  function DefaultBoard(): (r: Board)
    ensures Valid(r)
    ensures |r.children| == 3 && |r.categories| == 3
    ensures forall i :: 0 <= i < |r.children| ==>
      r.children[i].chores == map[] && r.children[i].totalEarnings == 0 && r.children[i].archive == []
  {
    Board(
      [ Child("child1", "Enfant 1", "avatar1", map[], 0, []),
        Child("child2", "Enfant 2", "avatar2", map[], 0, []),
        Child("child3", "Enfant 3", "avatar3", map[], 0, []) ],
      [ Category("cat1", "Mettre la table"),
        Category("cat2", "Débarrasser la table"),
        Category("cat3", "Ranger sa chambre") ])
  }

  // ------------------------------------------------------------- mark / unmark

  /** A child that receives the mark: `childId` matches. */
  function MarkChild(c: Child, childId: string, categoryId: string): Child {
    if c.id == childId then c.(chores := AddOne(c.chores, categoryId)) else c
  }

  /** The toast a mark raises for this child: the earnings after the mark
      when this is the marked child and they exceed the earnings before. */
  ghost function Crossing(c: Child, childId: string, categoryId: string, t: Tiers): (r: Option<int>)
    ensures r.Some? <==> (c.id == childId
      && WeeklyEarnings(AddOne(c.chores, categoryId), t) > WeeklyEarnings(c.chores, t))
    ensures r.Some? ==> r.value == WeeklyEarnings(AddOne(c.chores, categoryId), t)
    ensures CashOrdered(t) && r.Some? ==> r.value != 0 && (r.value == t.tier1Cash || r.value == t.tier2Cash)
  {
    if c.id != childId then None
    else
      var before := WeeklyEarnings(c.chores, t);
      var after := WeeklyEarnings(AddOne(c.chores, categoryId), t);
      if after > before then Some(after) else None
  }

  /** The toast left standing after a pass over the roster: every raised
      toast replaces the one before, so the last one raised wins. */
  function LastSignal(xs: seq<Option<int>>): (r: Option<int>)
    ensures r.None? ==> forall i :: 0 <= i < |xs| ==> xs[i].None?
    ensures r.Some? ==> exists i :: 0 <= i < |xs| && xs[i] == r && forall j :: i < j < |xs| ==> xs[j].None?
    decreases |xs|
  {
    if xs == [] then None
    else if xs[|xs| - 1].Some? then xs[|xs| - 1]
    else
      var front := xs[..|xs| - 1];
      var r := LastSignal(front);
      assert forall i :: 0 <= i < |front| ==> front[i] == xs[i];
      r
  }

  /** `handleMarkChore`: every child with `childId` gets one more checkmark in
      `categoryId`; nothing else on the board changes. */
  ghost function MarkChore(b: Board, childId: string, categoryId: string, t: Tiers): (r: Marked)
    ensures r.board.categories == b.categories
    ensures |r.board.children| == |b.children|
    ensures forall i :: 0 <= i < |b.children| ==>
      r.board.children[i] == MarkChild(b.children[i], childId, categoryId)
    ensures r.reward == LastSignal(seq(|b.children|, i requires 0 <= i < |b.children| => Crossing(b.children[i], childId, categoryId, t)))
  {
    var children := seq(|b.children|, i requires 0 <= i < |b.children| => MarkChild(b.children[i], childId, categoryId));
    var toasts := seq(|b.children|, i requires 0 <= i < |b.children| => Crossing(b.children[i], childId, categoryId, t));
    Marked(b.(children := children), LastSignal(toasts))
  }

  /** A child that loses a mark: `childId` matches and the count is positive. */
  function UnmarkChild(c: Child, childId: string, categoryId: string): Child {
    if c.id == childId && Count(c.chores, categoryId) > 0
    then c.(chores := RemoveOne(c.chores, categoryId))
    else c
  }

  /** `handleUnmarkChore`: every child with `childId` whose count for
      `categoryId` is positive loses one checkmark; no signal is raised. */
  function UnmarkChore(b: Board, childId: string, categoryId: string): (r: Board)
    ensures r.categories == b.categories
    ensures |r.children| == |b.children|
    ensures forall i :: 0 <= i < |b.children| ==>
      r.children[i] == UnmarkChild(b.children[i], childId, categoryId)
  {
    b.(children := seq(|b.children|, i requires 0 <= i < |b.children| => UnmarkChild(b.children[i], childId, categoryId)))
  }

  /** Marking child `childId` (index `i`) sets its count for `categoryId` to
      the old count plus one; its other counts and fields, every other child,
      and the roster's order and length stay as they were. */
  lemma MarkUpdatesOneCount(b: Board, i: nat, childId: string, categoryId: string, t: Tiers)
    requires UniqueChildIds(b.children)
    requires i < |b.children| && b.children[i].id == childId
    ensures var after := MarkChore(b, childId, categoryId, t).board;
      && |after.children| == |b.children|
      && after.categories == b.categories
      && after.children[i].chores[categoryId] == Count(b.children[i].chores, categoryId) + 1
      && (forall k :: k != categoryId ==> Count(after.children[i].chores, k) == Count(b.children[i].chores, k))
      && after.children[i] == b.children[i].(chores := after.children[i].chores)
      && (forall j :: 0 <= j < |b.children| && j != i ==> after.children[j] == b.children[j])
  {
  }

  /** With unique ids, the signal fires exactly when the marked child's
      earnings rise, and carries the earnings after the mark. */
  lemma MarkSignalsRewardIncrease(b: Board, i: nat, childId: string, categoryId: string, t: Tiers)
    requires UniqueChildIds(b.children)
    requires i < |b.children| && b.children[i].id == childId
    ensures var c := b.children[i];
      var before := WeeklyEarnings(c.chores, t);
      var after := WeeklyEarnings(AddOne(c.chores, categoryId), t);
      MarkChore(b, childId, categoryId, t).reward == if after > before then Some(after) else None
  {
    var toasts := seq(|b.children|, j requires 0 <= j < |b.children| => Crossing(b.children[j], childId, categoryId, t));
    var r := LastSignal(toasts);
    assert toasts[i] == Crossing(b.children[i], childId, categoryId, t);
    if r.Some? {
      var j :| 0 <= j < |toasts| && toasts[j] == r && forall q :: j < q < |toasts| ==> toasts[q].None?;
      assert j == i;
    }
  }

  /** Marking a child that is not on the board changes nothing and raises no signal. */
  lemma MarkUnknownChildIsNoOp(b: Board, childId: string, categoryId: string, t: Tiers)
    requires !HasChild(b.children, childId)
    ensures MarkChore(b, childId, categoryId, t) == Marked(b, None)
  {
  }

  /** With the cash amounts ordered, one more checkmark never lowers the
      marked child's reward. */
  lemma MarkNeverLowersReward(m: Chores, categoryId: string, t: Tiers)
    requires CashOrdered(t)
    ensures WeeklyEarnings(m, t) <= WeeklyEarnings(AddOne(m, categoryId), t)
  {
    EarningsMonotone(m, AddOne(m, categoryId), t);
  }

  /** Unmarking is a no-op when the child is not on the board or when none of
      the children with that id has a positive count for the category. */
  lemma UnmarkWithoutCountIsNoOp(b: Board, childId: string, categoryId: string)
    requires forall i :: 0 <= i < |b.children| && b.children[i].id == childId ==>
      Count(b.children[i].chores, categoryId) == 0
    ensures UnmarkChore(b, childId, categoryId) == b
  {
  }

  /** Unmarking a positive count takes exactly one checkmark off the child's
      total, and deletes the key when its count reaches zero. */
  lemma UnmarkTakesOneOff(b: Board, i: nat, childId: string, categoryId: string)
    requires i < |b.children| && b.children[i].id == childId
    requires Count(b.children[i].chores, categoryId) > 0
    ensures var after := UnmarkChore(b, childId, categoryId).children[i].chores;
      && TotalChores(after) == TotalChores(b.children[i].chores) - 1
      && (categoryId in after <==> b.children[i].chores[categoryId] > 1)
  {
    TotalChoresRemoveOne(b.children[i].chores, categoryId);
  }

  /** Unmarking keeps every count at one or more if it was so before. */
  lemma UnmarkKeepsSparse(m: Chores, categoryId: string)
    requires Sparse(m)
    requires Count(m, categoryId) > 0
    ensures Sparse(RemoveOne(m, categoryId))
  {
  }

  /** Adding and taking back one checkmark restores sparse counts exactly. */
  lemma AddThenRemoveRestores(m: Chores, k: string)
    requires Sparse(m)
    ensures RemoveOne(AddOne(m, k), k) == m
  {
  }

  /** On sparse counts, marking and then unmarking the same category for the
      same child returns the board to exactly its prior state. */
  lemma MarkThenUnmarkRestores(b: Board, childId: string, categoryId: string, t: Tiers)
    requires forall i :: 0 <= i < |b.children| ==> Sparse(b.children[i].chores)
    ensures UnmarkChore(MarkChore(b, childId, categoryId, t).board, childId, categoryId) == b
  {
    var marked := MarkChore(b, childId, categoryId, t).board;
    var back := UnmarkChore(marked, childId, categoryId);
    forall i | 0 <= i < |b.children| ensures back.children[i] == b.children[i] {
      var c := b.children[i];
      if c.id == childId {
        AddThenRemoveRestores(c.chores, categoryId);
      }
    }
    assert back.children == b.children;
  }

  /** The roster is mapped as a whole: if two children share an id, both
      receive the mark. */
  lemma MarkActsOnEveryMatchingChild(b: Board, i: nat, j: nat, childId: string, categoryId: string, t: Tiers)
    requires i < j < |b.children| && b.children[i].id == childId && b.children[j].id == childId
    ensures var after := MarkChore(b, childId, categoryId, t).board;
      && Count(after.children[i].chores, categoryId) == Count(b.children[i].chores, categoryId) + 1
      && Count(after.children[j].chores, categoryId) == Count(b.children[j].chores, categoryId) + 1
  {
  }

  // ----------------------------------------------------------- category edits

  /** `categories.filter(c => c.id !== id)`. */
  function RemoveCategory(cats: seq<Category>, id: string): (r: seq<Category>)
    ensures forall q :: 0 <= q < |r| ==> r[q].id != id
    ensures |r| <= |cats|
    ensures (forall q :: 0 <= q < |cats| ==> cats[q].id != id) ==> r == cats
    decreases |cats|
  {
    if cats == [] then []
    else
      var rest := RemoveCategory(cats[1..], id);
      if cats[0].id == id then rest else [cats[0]] + rest
  }

  /** The filter keeps exactly the categories whose id differs. */
  lemma {:induction false} RemoveCategoryMembers(cats: seq<Category>, id: string)
    ensures forall c :: c in RemoveCategory(cats, id) <==> c in cats && c.id != id
    decreases |cats|
  {
    if cats != [] {
      RemoveCategoryMembers(cats[1..], id);
      assert cats == [cats[0]] + cats[1..];
    }
  }

  /** The filter keeps the surviving categories in their original order. */
  lemma {:induction false} RemoveCategoryKeepsOrder(a: seq<Category>, b: seq<Category>, id: string)
    ensures RemoveCategory(a + b, id) == RemoveCategory(a, id) + RemoveCategory(b, id)
    decreases |a|
  {
    var ab := a + b;
    if a == [] {
      assert ab == b;
    } else {
      assert ab[0] == a[0];
      assert ab[1..] == a[1..] + b;
      RemoveCategoryKeepsOrder(a[1..], b, id);
      var head := if a[0].id == id then [] else [a[0]];
      assert RemoveCategory(ab, id) == head + RemoveCategory(ab[1..], id);
      assert RemoveCategory(a, id) == head + RemoveCategory(a[1..], id);
    }
  }

  /** `handleDeleteCategory`, with the answer of the confirmation dialog as
      `confirmed`: nothing happens for an unknown id or a declined dialog;
      otherwise the category leaves the list and its key leaves every child's
      counts in one transition. */
  function DeleteCategory(b: Board, categoryId: string, confirmed: bool): (r: Board)
    ensures !HasCategory(b.categories, categoryId) || !confirmed ==> r == b
    ensures HasCategory(b.categories, categoryId) && confirmed ==>
      && r.categories == RemoveCategory(b.categories, categoryId)
      && |r.children| == |b.children|
      && forall i :: 0 <= i < |b.children| ==>
        r.children[i] == b.children[i].(chores := b.children[i].chores - {categoryId})
  {
    if !HasCategory(b.categories, categoryId) then b
    else if !confirmed then b
    else
      Board(
        seq(|b.children|, i requires 0 <= i < |b.children| => b.children[i].(chores := b.children[i].chores - {categoryId})),
        RemoveCategory(b.categories, categoryId))
  }

  /** After a confirmed deletion no child counts the category and the list no
      longer holds it; every other count of every child is kept. */
  lemma DeleteCategoryCascades(b: Board, categoryId: string)
    requires HasCategory(b.categories, categoryId)
    ensures var r := DeleteCategory(b, categoryId, true);
      && !HasCategory(r.categories, categoryId)
      && (forall i :: 0 <= i < |r.children| ==> categoryId !in r.children[i].chores)
      && (forall i, k :: 0 <= i < |r.children| && k != categoryId ==>
            Count(r.children[i].chores, k) == Count(b.children[i].chores, k))
  {
  }

  /** `handleAddCategory`, with the generated id passed in. */
  function AddCategory(b: Board, id: string, name: string): (r: Board)
    ensures r.children == b.children
    ensures r.categories == b.categories + [Category(id, name)]
  {
    b.(categories := b.categories + [Category(id, name)])
  }

  /** A category added and then deleted leaves the board as it was, provided
      its id was fresh and no child counted it. */
  lemma AddThenDeleteRestores(b: Board, id: string, name: string)
    requires !HasCategory(b.categories, id)
    requires forall i :: 0 <= i < |b.children| ==> id !in b.children[i].chores
    ensures DeleteCategory(AddCategory(b, id, name), id, true) == b
  {
    var added := AddCategory(b, id, name);
    assert added.categories[|b.categories|].id == id;
    RemoveCategoryKeepsOrder(b.categories, [Category(id, name)], id);
    assert RemoveCategory([Category(id, name)], id) == [];
    var r := DeleteCategory(added, id, true);
    forall i | 0 <= i < |b.children| ensures r.children[i] == b.children[i] {
      assert b.children[i].chores - {id} == b.children[i].chores;
    }
  }

  // ------------------------------------------------------------ field updates

  /** `handleUpdateName`. */
  function UpdateName(b: Board, childId: string, newName: string): (r: Board)
    ensures r.categories == b.categories && |r.children| == |b.children|
    ensures forall i :: 0 <= i < |b.children| ==>
      r.children[i] == if b.children[i].id == childId then b.children[i].(name := newName) else b.children[i]
  {
    b.(children := seq(|b.children|, i requires 0 <= i < |b.children| =>
      if b.children[i].id == childId then b.children[i].(name := newName) else b.children[i]))
  }

  /** `handleUpdateEarnings`: a manual edit of the displayed total. */
  function UpdateEarnings(b: Board, childId: string, newAmount: int): (r: Board)
    ensures r.categories == b.categories && |r.children| == |b.children|
    ensures forall i :: 0 <= i < |b.children| ==>
      r.children[i] == if b.children[i].id == childId then b.children[i].(totalEarnings := newAmount) else b.children[i]
  {
    b.(children := seq(|b.children|, i requires 0 <= i < |b.children| =>
      if b.children[i].id == childId then b.children[i].(totalEarnings := newAmount) else b.children[i]))
  }

  /** `handleSelectAvatar`. */
  function SelectAvatar(b: Board, childId: string, avatarId: string): (r: Board)
    ensures r.categories == b.categories && |r.children| == |b.children|
    ensures forall i :: 0 <= i < |b.children| ==>
      r.children[i] == if b.children[i].id == childId then b.children[i].(avatarId := avatarId) else b.children[i]
  {
    b.(children := seq(|b.children|, i requires 0 <= i < |b.children| =>
      if b.children[i].id == childId then b.children[i].(avatarId := avatarId) else b.children[i]))
  }

  // ----------------------------------------------------------- week archiving

  /** The sum of all archived weeks' earnings. */
  function ArchivedEarnings(a: seq<WeeklyArchive>): int {
    if a == [] then 0 else a[0].earnings + ArchivedEarnings(a[1..])
  }

  /** One child at the end of the week: the reward is credited, a history
      entry is prepended only if any chore was done, and the counts reset. */
  ghost function ArchiveChild(c: Child, weekOf: string, t: Tiers): (r: Child)
    ensures r.id == c.id && r.name == c.name && r.avatarId == c.avatarId
    ensures r.chores == map[]
    ensures r.totalEarnings == c.totalEarnings + WeeklyEarnings(c.chores, t)
    ensures TotalChores(c.chores) > 0 ==>
      r.archive == [WeeklyArchive(weekOf, TotalChores(c.chores), WeeklyEarnings(c.chores, t))] + c.archive
    ensures TotalChores(c.chores) == 0 ==> r.archive == c.archive
  {
    var weeklyEarnings := WeeklyEarnings(c.chores, t);
    var totalChores := TotalChores(c.chores);
    var archive := if totalChores > 0 then [WeeklyArchive(weekOf, totalChores, weeklyEarnings)] + c.archive else c.archive;
    c.(chores := map[], totalEarnings := c.totalEarnings + weeklyEarnings, archive := archive)
  }

  /** `finalizeWeekAndCloseSummary`, with the date label passed in: every
      child is archived independently; the categories are untouched. */
  ghost function FinalizeWeek(b: Board, weekOf: string, t: Tiers): (r: Board)
    ensures r.categories == b.categories
    ensures |r.children| == |b.children|
    ensures forall i :: 0 <= i < |b.children| ==> r.children[i] == ArchiveChild(b.children[i], weekOf, t)
  {
    b.(children := seq(|b.children|, i requires 0 <= i < |b.children| => ArchiveChild(b.children[i], weekOf, t)))
  }

  /** A child with no activity keeps its total and history when no tier can be
      reached without activity; only its (already empty) counts are reset. */
  lemma ArchiveIdleChildKeepsHistory(c: Child, weekOf: string, t: Tiers)
    requires NeedsActivity(t)
    requires c.chores == map[]
    ensures ArchiveChild(c, weekOf, t) == c
  {
  }

  /** A child's total equals the sum of its archived earnings. A manual edit
      of the total can break this; archiving never does. */
  predicate LedgerBalanced(c: Child) {
    c.totalEarnings == ArchivedEarnings(c.archive)
  }

  lemma ArchiveKeepsLedgerBalanced(c: Child, weekOf: string, t: Tiers)
    requires NeedsActivity(t)
    requires LedgerBalanced(c)
    ensures LedgerBalanced(ArchiveChild(c, weekOf, t))
  {
  }

  /** The sum of all children's running totals. */
  function RosterEarnings(cs: seq<Child>): int {
    if cs == [] then 0 else cs[0].totalEarnings + RosterEarnings(cs[1..])
  }

  /** The sum of all children's rewards for the current week. */
  ghost function RosterWeeklyEarnings(cs: seq<Child>, t: Tiers): int {
    if cs == [] then 0 else WeeklyEarnings(cs[0].chores, t) + RosterWeeklyEarnings(cs[1..], t)
  }

  lemma {:induction false} CreditsAddUp(before: seq<Child>, after: seq<Child>, t: Tiers)
    requires |after| == |before|
    requires forall i :: 0 <= i < |before| ==>
      after[i].totalEarnings == before[i].totalEarnings + WeeklyEarnings(before[i].chores, t)
    ensures RosterEarnings(after) == RosterEarnings(before) + RosterWeeklyEarnings(before, t)
    decreases |before|
  {
    if before != [] {
      CreditsAddUp(before[1..], after[1..], t);
    }
  }

  /** Archiving the week raises the household's total payout by exactly the
      sum of the week's rewards. */
  lemma FinalizeWeekCreditsRewards(b: Board, weekOf: string, t: Tiers)
    ensures RosterEarnings(FinalizeWeek(b, weekOf, t).children)
      == RosterEarnings(b.children) + RosterWeeklyEarnings(b.children, t)
  {
    CreditsAddUp(b.children, FinalizeWeek(b, weekOf, t).children, t);
  }

  // ------------------------------------------------- invariant preservation

  lemma AddOneKeepsSparse(m: Chores, k: string)
    requires Sparse(m)
    ensures Sparse(AddOne(m, k))
  {
  }

  lemma MarkPreservesValid(b: Board, childId: string, categoryId: string, t: Tiers)
    requires Valid(b)
    requires HasCategory(b.categories, categoryId)
    ensures Valid(MarkChore(b, childId, categoryId, t).board)
  {
    var r := MarkChore(b, childId, categoryId, t).board;
    forall i | 0 <= i < |r.children|
      ensures Sparse(r.children[i].chores)
      ensures r.children[i].chores.Keys <= b.children[i].chores.Keys + {categoryId}
    {
      var m := b.children[i].chores;
      if b.children[i].id == childId {
        AddOneKeepsSparse(m, categoryId);
      }
    }
    assert forall i :: 0 <= i < |r.children| ==> r.children[i].id == b.children[i].id;
  }

  lemma UnmarkPreservesValid(b: Board, childId: string, categoryId: string)
    requires Valid(b)
    ensures Valid(UnmarkChore(b, childId, categoryId))
  {
  }

  lemma DeletePreservesValid(b: Board, categoryId: string, confirmed: bool)
    requires Valid(b)
    ensures Valid(DeleteCategory(b, categoryId, confirmed))
  {
    var r := DeleteCategory(b, categoryId, confirmed);
    if HasCategory(b.categories, categoryId) && confirmed {
      RemoveCategoryKeepsUnique(b.categories, categoryId);
      forall i, k | 0 <= i < |r.children| && k in r.children[i].chores
        ensures HasCategory(r.categories, k)
      {
        assert k in b.children[i].chores && k != categoryId;
        assert HasCategory(b.categories, k);
        var j :| 0 <= j < |b.categories| && b.categories[j].id == k;
        RemoveCategoryMembers(b.categories, categoryId);
        assert b.categories[j] in r.categories;
        var p :| 0 <= p < |r.categories| && r.categories[p] == b.categories[j];
      }
    }
  }

  /** Filtering keeps category ids unique. */
  lemma {:induction false} RemoveCategoryKeepsUnique(cats: seq<Category>, id: string)
    requires UniqueCategoryIds(cats)
    ensures UniqueCategoryIds(RemoveCategory(cats, id))
    decreases |cats|
  {
    if cats != [] {
      var tail := cats[1..];
      UniqueTail(cats);
      RemoveCategoryKeepsUnique(tail, id);
      if cats[0].id != id {
        var rest := RemoveCategory(tail, id);
        RemoveCategoryMembers(tail, id);
        forall q | 0 <= q < |rest| ensures rest[q].id != cats[0].id {
          assert rest[q] in tail;
          var p :| 0 <= p < |tail| && tail[p] == rest[q];
          assert cats[0].id != cats[p + 1].id;
        }
        UniqueCons(cats[0], rest);
      }
    }
  }

  lemma UniqueTail(cats: seq<Category>)
    requires cats != [] && UniqueCategoryIds(cats)
    ensures UniqueCategoryIds(cats[1..])
  {
  }

  lemma UniqueCons(c: Category, rest: seq<Category>)
    requires UniqueCategoryIds(rest)
    requires forall q :: 0 <= q < |rest| ==> rest[q].id != c.id
    ensures UniqueCategoryIds([c] + rest)
  {
  }

  lemma AddCategoryPreservesValid(b: Board, id: string, name: string)
    requires Valid(b)
    requires !HasCategory(b.categories, id)
    ensures Valid(AddCategory(b, id, name))
  {
    var r := AddCategory(b, id, name);
    forall i, k | 0 <= i < |r.children| && k in r.children[i].chores
      ensures HasCategory(r.categories, k)
    {
      assert k in b.children[i].chores;
      assert HasCategory(b.categories, k);
      var j :| 0 <= j < |b.categories| && b.categories[j].id == k;
      assert r.categories[j] == b.categories[j];
    }
  }

  lemma FinalizeWeekPreservesValid(b: Board, weekOf: string, t: Tiers)
    requires Valid(b)
    ensures Valid(FinalizeWeek(b, weekOf, t))
  {
  }

  lemma FieldUpdatesPreserveValid(b: Board, childId: string, s: string, amount: int)
    requires Valid(b)
    ensures Valid(UpdateName(b, childId, s))
    ensures Valid(UpdateEarnings(b, childId, amount))
    ensures Valid(SelectAvatar(b, childId, s))
  {
  }
}
