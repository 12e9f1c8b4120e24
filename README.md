# Chore board: reward tiers, marking, category deletion and week archiving

This project models the domain layer of a household chore board. A roster of
children collects checkmarks across a shared list of chore categories during a
week. Each child earns a tiered cash reward at checkmark thresholds. At the end
of the week the board is archived: the rewards are credited to each child's
running total, a history entry is prepended when the child did anything, and
the counts are reset.

The application keeps this state in React and persists it to a document store.
The model keeps only the pure transforms that the handlers apply to the board
before handing it to a state setter. Each transform is a function from one
`Board` (children and categories) to the next.

- `wrappers.dfy`, module `Wrappers`: the `Option` type used for the
  "reward earned" toast.
- `rewards.dfy`, module `Rewards`: the reward calculator over a child's
  per-category counts (`map<string, nat>`). The sum of the counts peels off
  one key at a time, so it and everything built on it is a ghost function. The
  tier thresholds and cash amounts are a `Tiers` value passed to every
  operation, because the constants module is not part of this model.
- `board.dfy`, module `ChoreBoard`: the entities and the handlers (mark,
  unmark, add and delete a category, the three single-field edits, week
  finalisation, the seeded default board). It also defines the board invariant
  `Valid`: unique child ids, unique category ids, no count below one, and
  every counted category still exists. A lemma per handler shows that the
  handler preserves it.
- `scenarios.dfy`, module `Scenarios`: worked examples with tier 1 at
  (5 checkmarks, 2 categories) paying 2 and tier 2 at (10, 3) paying 5.

Money is an `int`. The date label of an archive entry, the generated id of a
new category and the answer of the deletion confirmation dialog are
parameters.

## Model

| member | source | states |
|---|---|---|
| `Rewards.TotalChores` | App.tsx:26 | The sum of all counts is zero exactly when no category has a positive count, and it is never below the number of distinct categories done. |
| `Rewards.TotalChoresRemove` | App.tsx:26 | The sum does not depend on the order in which the counts are added: it equals any one key's count plus the sum of the rest. |
| `Rewards.WeeklyEarnings` | App.tsx:25-36 | The reward is always the tier-2 amount, the tier-1 amount or 0, and it is exactly the tier-2 amount whenever the tier-2 thresholds are met. |
| `Rewards.EarningsAreBestMetTier` | App.tsx:29-35 | With 0 <= tier-1 cash <= tier-2 cash, the reward is the largest amount among 0 and the cash of every tier whose thresholds are met. It is the only value with that property, and it is never the sum of the two tiers. |
| `Rewards.AddOne` | App.tsx:106 | One more checkmark creates the key if absent and sets it to the old count (0 if absent) plus one; every other count is unchanged. |
| `Rewards.RemoveOne` | App.tsx:127-129 | Taking back a checkmark lowers the count by one and deletes the key exactly when the count reaches zero; every other count is unchanged and no key is added. |
| `Rewards.TotalChoresAddOne` | App.tsx:106 | A mark raises the week's total by exactly one. |
| `Rewards.TotalChoresRemoveOne` | App.tsx:128-129 | An unmark lowers the week's total by exactly one. |
| `Rewards.DistinctCategories` | App.tsx:27 | The number of categories done is 0 exactly when no key has a positive count. |
| `Rewards.DistinctCategoriesBounds` | App.tsx:27 | The number of categories done is 0 exactly when every recorded count is zero, and it never exceeds the number of keys. |
| `Rewards.TotalChoresMonotone` | App.tsx:26 | A mapping that holds at least every count of another has at least its total. |
| `Rewards.DistinctCategoriesMonotone` | App.tsx:27 | A mapping that holds at least every count of another has at least as many distinct categories done. |
| `Rewards.EarningsMonotone` | App.tsx:25-36 | With the cash amounts ordered, more checkmarks never lower the reward. |
| `Rewards.IdleWeekEarnsNothing` | App.tsx:25-36 | When every tier needs at least one checkmark, a week with none earns 0. |
| `ChoreBoard.DefaultBoard` | App.tsx:67-76 | The seeded board satisfies the board invariant and has three children with nothing counted, earned or archived, and three categories. |
| `ChoreBoard.MarkChore` | App.tsx:102-120 | The categories are unchanged, the roster keeps its length and order, and exactly the children with the given id get one more checkmark. The toast is the last raised by the pass over the roster. |
| `ChoreBoard.Crossing` | App.tsx:105-109 | A child raises a toast exactly when it is the marked child and its earnings after the mark exceed those before. The toast carries the earnings after the mark. With ordered cash amounts, it always shows the tier-1 or the tier-2 amount, never 0. |
| `ChoreBoard.LastSignal` | App.tsx:109-111 | The toast left after the pass is absent only if no child raised one. Otherwise it is the toast of a child that raised one, with no later child raising another. |
| `ChoreBoard.MarkUpdatesOneCount` | App.tsx:102-120 | With unique ids, the marked child's count for the category becomes the old count (or 0) plus one. Its other counts and fields, every other child, and the roster's order and length are unchanged. |
| `ChoreBoard.MarkSignalsRewardIncrease` | App.tsx:105-116 | With unique ids, the toast fires exactly when the earnings after the mark exceed those before, and it carries the earnings after the mark. |
| `ChoreBoard.MarkUnknownChildIsNoOp` | App.tsx:103-120 | Marking an id that is not on the roster changes nothing and raises no toast. |
| `ChoreBoard.MarkNeverLowersReward` | App.tsx:105-109 | With 0 <= tier-1 cash <= tier-2 cash, one more checkmark never lowers the reward. |
| `ChoreBoard.MarkActsOnEveryMatchingChild` | App.tsx:103-104 | If two children share an id, both receive the mark. |
| `ChoreBoard.UnmarkChore` | App.tsx:125-133 | The categories are unchanged, the roster keeps its length and order, and exactly the children with the given id and a positive count lose one checkmark. |
| `ChoreBoard.UnmarkWithoutCountIsNoOp` | App.tsx:127 | Unmarking leaves the board unchanged when no child with that id has a positive count for the category. This covers the case of an id not on the roster. |
| `ChoreBoard.UnmarkTakesOneOff` | App.tsx:127-130 | Unmarking a positive count removes exactly one checkmark from the child's total. The key survives exactly when the old count was above one. |
| `ChoreBoard.UnmarkKeepsSparse` | App.tsx:128-129 | If every count was at least one before an unmark, every count is at least one after it. |
| `ChoreBoard.AddThenRemoveRestores` | App.tsx:106-129 | On counts that are all at least one, a mark followed by an unmark of the same category gives back exactly the same mapping. |
| `ChoreBoard.MarkThenUnmarkRestores` | App.tsx:102-133 | When every child's counts are at least one, marking and then unmarking the same child and category returns the whole board to its exact prior state. |
| `ChoreBoard.RemoveCategory` | App.tsx:162 | The filtered list contains no category with the id and is no longer than the original. It equals the original when no category had the id. |
| `ChoreBoard.RemoveCategoryMembers` | App.tsx:162 | A category is kept by the filter exactly when it was in the list and its id differs. |
| `ChoreBoard.RemoveCategoryKeepsOrder` | App.tsx:162 | The filter distributes over concatenation, so the surviving categories keep their original order. |
| `ChoreBoard.RemoveCategoryKeepsUnique` | App.tsx:162 | Filtering a list with unique ids leaves the ids unique. |
| `ChoreBoard.DeleteCategory` | App.tsx:157-172 | An unknown id or a declined confirmation changes nothing. Otherwise the categories are the old list filtered by id, and every child keeps all its fields except that the key leaves its counts. |
| `ChoreBoard.DeleteCategoryCascades` | App.tsx:162-167 | After a confirmed deletion no category has the id and no child counts it; every other count of every child is kept. |
| `ChoreBoard.AddCategory` | App.tsx:150-153 | The new category is appended at the end of the list and the roster is unchanged. |
| `ChoreBoard.AddThenDeleteRestores` | App.tsx:150-172 | Adding a category with a fresh id and then deleting it, when no child counts that id, gives back the same board. |
| `ChoreBoard.UpdateName` | App.tsx:138-139 | Exactly the children with the id get the new name; everything else is unchanged. |
| `ChoreBoard.UpdateEarnings` | App.tsx:144-145 | Exactly the children with the id get the new running total; everything else is unchanged. |
| `ChoreBoard.SelectAvatar` | App.tsx:174-175 | Exactly the children with the id get the new avatar; everything else is unchanged. |
| `ChoreBoard.ArchiveChild` | App.tsx:193-207 | Id, name and avatar are kept and the counts become empty. The total grows by the week's reward. An entry with the week's checkmark total and reward is prepended exactly when that total is positive; otherwise the history is unchanged. |
| `ChoreBoard.FinalizeWeek` | App.tsx:192-208 | Every child is archived independently, the roster keeps its length and order, and the categories are unchanged. |
| `ChoreBoard.ArchiveIdleChildKeepsHistory` | App.tsx:193-206 | When no tier can be met without a checkmark, archiving a child with no counts leaves it exactly as it was, total and history included. |
| `ChoreBoard.ArchiveKeepsLedgerBalanced` | App.tsx:196-206 | When no tier can be met without a checkmark, a child whose total equals the sum of its archived earnings still has that property after archiving. |
| `ChoreBoard.CreditsAddUp` | App.tsx:205 | If each child's new total is its old total plus its weekly reward, the roster's summed totals grow by the roster's summed rewards. |
| `ChoreBoard.FinalizeWeekCreditsRewards` | App.tsx:192-208 | Archiving the week raises the sum of all children's totals by exactly the sum of the week's rewards. |
| `ChoreBoard.AddOneKeepsSparse` | App.tsx:106 | If every count was at least one before a mark, every count is at least one after it. |
| `ChoreBoard.MarkPreservesValid` | App.tsx:102-120 | Marking an existing category preserves the board invariant. |
| `ChoreBoard.UnmarkPreservesValid` | App.tsx:125-133 | Unmarking preserves the board invariant. |
| `ChoreBoard.DeletePreservesValid` | App.tsx:157-172 | Deleting a category, whether confirmed or not, preserves the board invariant. |
| `ChoreBoard.AddCategoryPreservesValid` | App.tsx:150-153 | Adding a category whose id is fresh preserves the board invariant. |
| `ChoreBoard.FinalizeWeekPreservesValid` | App.tsx:192-208 | Archiving the week preserves the board invariant. |
| `ChoreBoard.FieldUpdatesPreserveValid` | App.tsx:138-175 | Renaming, editing the total and choosing an avatar preserve the board invariant. |
| `Scenarios.TierCrossingScenario` | App.tsx:102-116 | With tiers (5, 2) paying 2 and (10, 3) paying 5, the counts {catA: 2, catB: 2} earn 0. Marking catA gives {catA: 3, catB: 2}, which earns 2, and the toast shows 2. |
| `Scenarios.ArchiveWithActivityScenario` | App.tsx:192-208 | With the same tiers, archiving {catA: 3, catB: 2} with a total of 10 and no history gives empty counts, a total of 12 and the history [(week, 5 checkmarks, 2 earned)]. |
| `Scenarios.ArchiveWithoutActivityScenario` | App.tsx:192-208 | With the same tiers, archiving a child with no counts leaves its total of 10 and its history unchanged. |

## Left out

- React state, effects and rendering: the setters, confetti and the toast's
  3.5-second timer (only the toast's amount is modelled).
- The 500 ms delay before archiving (App.tsx:191-213). The delayed callback
  builds the new roster from the `children` captured when finalisation was
  requested, and the lanes stay clickable meanwhile (App.tsx:276-289).
  `ChoreBoard.FinalizeWeek` archives the roster as it stood when finalisation
  was requested. A mark, unmark, rename or stored-document update made during
  the delay is overwritten by the archived roster, so it is neither credited
  nor archived. This lost update is not modelled.
- The two-step archive flow (`handleArchiveWeek`, `handleConfirmArchive`). Both
  only toggle dialog flags; the board changes only in the finalisation step,
  which is modelled.
- `openAvatarPicker`: only a UI lookup.
- Persistence: `persistState`, the live subscription and the seeding write to
  the document store (App.tsx:57-100). The values the handlers pass to it are
  modelled; the store is not. `services/firebaseService.ts`,
  `services/jsonBinService.ts` (HTTP calls with timeouts and retries) and the
  debounced-save variant of the application are not part of this model, nor
  are `components/ConfigError.tsx` and the suggestion service.
- The `fr-FR` date formatting and the `cat-${Date.now()}` id generation are
  nondeterministic, so both values are parameters.
- The reward constants live in a module that is not part of this model, so
  they are the `Tiers` parameter. Lemmas that need an ordering state it:
  `CashOrdered` (0 <= tier-1 cash <= tier-2 cash) and `NeedsActivity` (both
  chore thresholds at least one).
- Dynamic typing: `Number(total) || 0` for a non-numeric total, `archive || []`
  for a missing history, and non-integer or negative counts. In the model the
  total is an `int`, the history a sequence and every count a `nat`.
- The order of keys in a JavaScript object. The counts are an unordered map;
  the handlers read only the counts' sum and the number of positive counts,
  and neither depends on key order.
- Marking does not check that the category exists: the code records a
  checkmark for any id it is given, although an unknown category would be
  expected to be a no-op. The model follows the code.
  `ChoreBoard.MarkPreservesValid` therefore requires the category to exist.
- Archiving an idle child: the code adds the week's reward to the total
  unconditionally. The total stays unchanged only when no tier can be met
  without a checkmark. `ChoreBoard.ArchiveIdleChildKeepsHistory`
  and `ChoreBoard.ArchiveKeepsLedgerBalanced` state that condition.
- `ChoreBoard.MarkUpdatesOneCount` and `ChoreBoard.MarkSignalsRewardIncrease`
  assume unique child ids. The code maps over every child with the id, and
  the last toast raised wins; `ChoreBoard.MarkChore` and `ChoreBoard.LastSignal`
  state that general behaviour.
