# Verified model of the planning core

A Dafny model of the logic a product-planning workspace rests on: comparing and merging spec documents line by line,
keeping group and goal trees well formed, moving items through a gated status workflow, planning a tag import, laying
out a cycle schedule, rewriting spec files around their frontmatter, and mapping over a list with a bounded number of
calls in flight.

Code that moves cursors, fills tables, updates maps or pushes to lists is modelled as methods with loops (and, where
the state outlives a call, as classes: `UpdateStatus.Store`, `TagImport.Projected`, `WorkerPool.SharedPool`), each
proved against a specification function or a stated property. The promises themselves are lemmas about every input,
every run or every schedule. Check everything with `dafny verify dfyconfig.toml`.

## What is in which file

| files | subject |
|---|---|
| `Options`, `Text`, `Strings`, `Digits` | optional values, lines, trimming, string order, digits |
| `Lcs`, `Diff`, `Hunks`, `Compose` | line diff, its hunks, accepting some of them |
| `Merge`, `MergeLaws`, `MergeEdits` | three-way merge, its laws, and when two edits merge |
| `MatchRule` | which of the longest matchings the merge and the diff take |
| `Forest`, `ProductGroups` | parent chains, the group guards |
| `GroupRuns`, `GroupStore` | runs of admitted group changes, on the parent relation and on the stored rows |
| `Goals`, `GoalTree`, `GoalForest` | goal order and the goal forest |
| `CycleGuards` | the two cycle guards compared |
| `GoalRuns`, `GoalStore` | runs of admitted goal changes, on the parent relation and on the stored rows |
| `Status`, `Search`, `Routes` | workflows, the search, routes |
| `Gates`, `UpdateStatus`, `GateFields`, `GateRuns` | exit gates, the status move, what a gate reads, runs of moves |
| `Csv`, `Tags` | the CSV automaton, tag names |
| `TagImport`, `TagReplay`, `TagSpelling` | the import planner, replaying its plan, what a row means in names |
| `Calendar`, `DateStrings`, `Cycles`, `CycleNames` | day numbers, date-only strings, cycle schedules, cycle names |
| `Frontmatter`, `Spec`, `SpecIds` | delimiter scan, rewriting and reading a spec, giving it an id |
| `WorkerPool` | the bounded worker pool |

## Where the code falls short of a promise

Each of these is proved both ways, with the exact condition under which the code keeps its promise.

- Two edits in different places do not always merge: with one unchanged line between them a pure insertion swallows
  that line, and with none the regions run together. `MergeEdits.NonOverlappingEdits` gives the condition,
  `MergeEdits.InsertionBesideEdit` the smallest case.
- A file that stops right after a last record of one empty pair of quotes loses that record: `a`, a newline and `""` read
  as one row (`Csv.EmptyQuotesAreLost`). `Csv.ParseInvertsEncode` has the condition.
- A cycle schedule runs past its end date, up to 200 cycles, when the first cycle that does not fit would end after the
  year 9999: dates there start with a sign, which sorts below every digit. `Cycles.HorizonExactly` has the condition,
  `Cycles.PlansPastTheEnd` what is planned instead and when it throws, `Cycles.LastDaysRunAway` an input.
- An item archived early and unarchived further on in flexible mode passes no gate at all, because `archived` is last
  in the order and leaving it is never a forward move. `GateRuns.GatesHoldExactly` gives the condition on runs,
  `GateRuns.FlexibleRunsCanSkip` a run for every such workflow.
- The upward and downward cycle guards disagree on one pair of arguments: a child and a parent that are both the empty
  string (`CycleGuards.BothGuards`).
- The depth of a new group is checked under a placeholder id. That never admits too much; it refuses too much exactly
  when what is filed under a group of that very id would not fit where the new one goes (`GroupRuns.CreationIsExact`;
  `GroupRuns.PlaceholderRefusesWrongly` is an input). With random ids there is no such group, and every refusal is
  exact over every run (`GroupRuns.RefusalsAreExact`).
- A name template with white space around it is never recognised in the trimmed names, so the next number is 1 again
  and names repeat (`CycleNames.FreshExactlyWhenTrimmed`).
- Giving an id to a spec changes its body when the first line of dashes is not above the line that closes the block
  (`SpecIds.BodyIsKeptExactly`), as in a block closed by `...` with a line of dashes below (`SpecIds.DotsMissTheId`).
- A frontmatter block that the file ends on gains a newline when the spec is rewritten (`Spec.RewriteKeepsBlock`), and a
  fallback id that spans lines can close its own block early (`Spec.RoundTripExactly`, `Spec.TwoLineIdLeaks`). In just
  these two cases a second rewrite does not replace the first one cleanly (`Spec.LastRewriteWins`).
- A worker pool with a limit below 1 makes no workers and returns a list of holes (`WorkerPool.MapExactlyWithWorkers`).

Two comments promise a little more than the code does. Strict mode is described as one step back; the built-in workflow
sends `done` back two stages (`Routes.StrictNeighbours`). The comment on `specBody` calls it non-throwing; it loads the
YAML of the block on the way, so whatever the library throws on malformed text passes through, and
`Spec.RoundTripExactly` has the block's YAML in its condition.

## Model

| member | source | states |
|---|---|---|
| Text.JoinSplitLines | packages/core/src/diff.ts:57-60 | splitting a document into lines and joining them loses nothing, the empty document included |
| Text.LinesAreExact | packages/core/src/diff.ts:57-60 | the lines of a document are the one list of texts without line breaks that joins to it, and an empty document has none |
| Text.WhiteSpaceIs | packages/core/src/tags.ts:48-50 | what trimming takes away is exactly the white space and the line terminators of sections 12.2 and 12.3 of ECMA-262 |
| Lcs.Table | packages/core/src/diff.ts:72-82 | the table filled in place holds, in every cell, the longest-common-subsequence length of the two suffixes |
| Lcs.CommonSubsequenceBound | packages/core/src/diff.ts:72-82 | no common subsequence of two line lists is longer than the table's value |
| Lcs.LengthMonotone | packages/core/src/diff.ts:72-82 | a cell never shrinks by more than one or grows when one line is dropped from either side |
| Diff.DiffLines | packages/core/src/diff.ts:68-106 | the three loops over the filled table produce the script that the lemmas below are about |
| Diff.ScriptSides | packages/core/src/diff.ts:61-106 | same and remove lines spell `before`, same and add lines spell `after` |
| Diff.DiffIsMinimal | packages/core/src/diff.ts:61-106 | of all scripts between the two documents none keeps more lines, removes fewer or adds fewer |
| Diff.SurvivorsAreLongest | packages/core/src/diff.ts:61-106 | the unchanged lines are a common subsequence, as long as any |
| Diff.RemovalsComeFirst | packages/core/src/diff.ts:84-106 | no addition is immediately followed by a removal, so each changed run is removals then additions |
| MatchRule.DiffIsDetermined | packages/core/src/diff.ts:84-106 | the diff is the one script with these two sides that removes before it adds and keeps exactly the lines that the merge matches, so the rule below decides it too |
| Hunks.DiffHunks | packages/core/src/diff.ts:120-165 | the two mutating passes compute the hunks that the lemmas below are about |
| Hunks.HunksAreOrdered | packages/core/src/diff.ts:120-165 | hunks are non-empty, in order and disjoint, and their counts are the additions and removals inside them |
| Hunks.EveryChangeInOneHunk | packages/core/src/diff.ts:120-165 | every changed line lies in exactly one hunk |
| Hunks.HunkExtent | packages/core/src/diff.ts:120-165 | a hunk reaches exactly `context` lines beyond its first and last change, clipped to the document |
| Hunks.NeighboursShareHunk | packages/core/src/diff.ts:108-165 | two neighbouring changes share a hunk exactly when their context would touch or overlap |
| Hunks.SharedByDefault | packages/core/src/diff.ts:120 | with the default context that is six unchanged lines between them |
| Compose.ComposeFromHunks | packages/core/src/diff.ts:176-205 | the line-by-line rule over the owner map equals choosing `after` inside selected hunks and `before` elsewhere |
| Compose.PicksAreComposition | packages/core/src/diff.ts:176-205 | that equality for any script and any ordered hunks that own its changes |
| Compose.AllOrNothing | packages/core/src/diff.ts:167-205 | taking every hunk reproduces `after` exactly and taking none reproduces `before` |
| Compose.CompositionLength | packages/core/src/diff.ts:176-205 | the composed list has the lines of `before` plus additions less removals over the selected hunks |
| Merge.MatchedIndexes | packages/core/src/merge.ts:182-212 | the map built by the walk pairs equal lines in increasing order on both sides |
| Merge.MatchesAlign | packages/core/src/merge.ts:176-212 | the matching is monotonic |
| Merge.MatchesAreLongest | packages/core/src/merge.ts:182-212 | the matching is as large as the longest common subsequence |
| MatchRule.MatchesFollowRule | packages/core/src/merge.ts:197-211 | of the longest matchings the walk takes the one whose next pair has the earliest line of `to` that some longest matching can begin with, and of the lines equal to it the first that cannot be passed over without losing a pair |
| MatchRule.FirstPairIsUnique | packages/core/src/merge.ts:197-211 | that rule names one pair, so it determines the matching |
| MatchRule.TargetsComeFirst | packages/core/src/merge.ts:197-211 | against every other matching of the same size, at the first line of `to` that only one of the two uses it is the walk's that uses it |
| MatchRule.LaterSource | packages/core/src/merge.ts:197-211 | no such rule holds of the lines of `from`: here the walk pairs the later of two equal lines |
| MatchRule.SwapMeetsDeletion | packages/core/src/merge.ts:60-102 | one side swaps two lines and the other deletes the first: by the rule the merge is clean, and has both changes |
| Merge.Merge3 | packages/core/src/merge.ts:46-102 | the cursor loop returns what the regions of the three documents come to |
| Merge.EmitRegion | packages/core/src/merge.ts:105-133 | one region appends its outcome, and its three readings when it is a conflict |
| MergeLaws.MergePartitions | packages/core/src/merge.ts:60-102 | the regions, read in order, spell base, mine and theirs, each completely |
| MergeLaws.ConflictsAreTheRest | packages/core/src/merge.ts:105-133 | a region conflicts exactly when its readings differ pairwise; the side that changed wins, and `mine` where both did |
| MergeLaws.RegionsInOrder | packages/core/src/merge.ts:60-133 | conflicts and merged lines come region by region, in document order |
| MergeLaws.OneRegion | packages/core/src/merge.ts:105-133 | what one region adds to each |
| MergeLaws.KeptLinesSurvive | packages/core/src/merge.ts:60-102 | every base line matched on both sides is in the merge in base order, conflicts or not |
| MergeLaws.MergeUnits | packages/core/src/merge.ts:38-102 | a side that changed nothing loses to the other, and one edit made on both sides lands once, both cleanly |
| MergeLaws.MergeSymmetric | packages/core/src/merge.ts:38-133 | swapping the sides keeps `clean`, swaps the sides of each conflict, and keeps the text when clean |
| MergeEdits.EditMatches | packages/core/src/merge.ts:182-212 | replacing one stretch of a document of distinct lines by fresh lines leaves exactly the other lines matched |
| MergeEdits.NonOverlappingEdits | packages/core/src/merge.ts:46-102 | two real edits merge cleanly into both exactly when two lines lie between, or one line and the first edit removes something |
| MergeEdits.NonOverlappingEditsMerge | packages/core/src/merge.ts:46-102 | for whole documents: the merge is clean and has both edits exactly when one of them changes nothing or that condition holds |
| MergeEdits.InsertionBesideEdit | packages/core/src/merge.ts:60-102 | an insertion, one line and an edit come out as one conflict over all of it |
| ProductGroups.ChildrenByParent | packages/core/src/product-groups.ts:50-61 | the map holds, for each parent that has any, its child rows in row order |
| ProductGroups.DescendantGroupIds | packages/core/src/product-groups.ts:66-82 | for any parent relation, exactly the groups whose chain meets the given one |
| ProductGroups.GroupDepth | packages/core/src/product-groups.ts:88-98 | for any parent relation, cyclic or not, the number of different groups on the chain |
| ProductGroups.SubtreeHeight | packages/core/src/product-groups.ts:102-116 | for any parent relation, one more than the longest climb to the group from below that does not pass it on the way |
| ProductGroups.WouldCreateCycle | packages/core/src/product-groups.ts:119-126 | true exactly when the group is on the new parent's reflexive ancestor chain |
| ProductGroups.WouldExceedDepth | packages/core/src/product-groups.ts:133-142 | for any parent relation, true exactly when depth above plus height below passes `MAX_GROUP_DEPTH` |
| GroupRuns.GuardsAreExact | apps/web/src/lib/store/local/products.ts:182-277 | from a valid tree an admitted creation, re-parenting or deletion leaves a valid one, acyclic and at most four deep; a refused one would not, exactly when the placeholder is harmless and it is not only products that stand in the way of a deletion |
| GroupRuns.CreationIsExact | apps/web/src/lib/store/local/products.ts:194-196 | the check under the placeholder decides a creation exactly if and only if nothing can be filed there anyway, no group has that id, or all that is below it would fit below the new parent |
| GroupRuns.PlaceholderRefusesWrongly | apps/web/src/lib/store/local/products.ts:194-196 | a valid tree of five groups in which a creation is refused that would leave a valid tree |
| GroupRuns.DeletionIsExact | apps/web/src/lib/store/local/products.ts:252-277 | deleting a group leaves a valid tree exactly when no group is filed under it |
| GroupRuns.RefusalsAreExact | apps/web/src/lib/store/local/products.ts:182-277 | after any run that creates no group under the placeholder's id, a change is refused only if it would break the tree |
| GroupRuns.RunKeepsTreeValid | packages/db/src/schema.ts:182-183 | every run of admitted creations, re-parentings and deletions keeps the tree acyclic and every depth within the bound |
| Forest.ClosingACycle | packages/core/src/product-groups.ts:119-126 | a move the cycle guard refuses would make a cycle, in any relation |
| GroupRuns.DepthGuardIsNeeded | packages/core/src/product-groups.ts:133-142 | a move only the depth guard refuses would put some group below the bound |
| GroupRuns.MovingToTheTopFits | packages/core/src/product-groups.ts:138-141 | the top adds no depth: in a valid tree the depth guard lets any group move there |
| GroupStore.Admits | apps/web/src/lib/store/local/products.ts:182-277 | the decision as both guards make it over the stored rows, placeholder included, is the one on the parent relation |
| GroupStore.RowsAfterChange | apps/web/src/lib/store/local/products.ts:197-277 | the rows the store writes stand for the changed relation, and their ids stay unique |
| GroupStore.ApplyAll | apps/web/src/lib/store/local/products.ts:182-277 | any run of requests over the stored rows ends in rows that stand for a valid tree |
| Goals.WouldCreateGoalCycle | packages/core/src/goals.ts:363-379 | true exactly when the child is the new parent or one of its ancestors, for any parent relation |
| CycleGuards.BothGuards | packages/core/src/goals.ts:363-379 | the upward and downward guards agree on every relation, cyclic or not, except for the empty-string pair |
| GoalRuns.LinkIsExact | packages/core/src/goals.ts:363-379 | from any acyclic relation a link keeps it acyclic exactly when the guard lets it pass, with no bound on depth |
| GoalRuns.LinkKeepsAcyclic | apps/web/src/lib/store/local/goals.ts:133-147 | the same of the guard as it is computed over rows |
| GoalRuns.RunKeepsGoalsValid | apps/web/src/lib/store/local/goals.ts:79-169 | every run of admitted creations, links and deletions keeps goals acyclic and every parent a goal |
| GoalStore.Admits | apps/web/src/lib/store/local/goals.ts:79-156 | the decision as the store makes it over rows is the one on the parent relation |
| GoalStore.RowsAfterChange | apps/web/src/lib/store/local/goals.ts:83-169 | the rows the store writes, children of a deleted goal put at the top, stand for the changed relation |
| GoalStore.ApplyAll | apps/web/src/lib/store/local/goals.ts:79-169 | any run of requests over the stored rows ends in rows that stand for goals without a cycle |
| Goals.CompareTransitive | packages/core/src/goals.ts:196-212 | the display order is transitive |
| Goals.CompareTotal | packages/core/src/goals.ts:196-212 | the display order leaves no pair uncompared |
| Goals.SortedGoals | packages/core/src/goals.ts:196-212 | sorting by it orders the list and keeps its goals |
| Goals.DisplayOrder | packages/core/src/goals.ts:192-212 | in a sorted list open goals come first, then sooner period ends with undated last, then titles |
| GoalTree.FlattenGoalTree | packages/core/src/goals.ts:346-357 | flattening lists each node before its children's rows, in order |
| GoalForest.FiledExactly | packages/core/src/goals.ts:293-305 | a goal is filed under the goal it names, if there is one and it is not the goal itself |
| GoalForest.BuildGoalTree | packages/core/src/goals.ts:290-332 | every goal placed exactly once for any parent relation over distinct ids, each node under the goal it is filed under, and exactly the top goals at the top |
| GoalForest.SurfacesExactly | packages/core/src/goals.ts:326-330 | when the last loop comes to a goal, it is not placed yet exactly when no root and no goal that sorts before it is on its chain |
| GoalForest.GoalRows | packages/core/src/goals.ts:290-357 | built and flattened: every goal once, each parent the nearest earlier row one level up, siblings in display order; at the top the roots, then of the goals no root reaches those with nothing that sorts before them on their chain; a row is marked as orphaned exactly at the top with a parent named; without cycles a row's depth is its number of ancestors |
| GoalForest.ParentIsNearestAbove | packages/core/src/goals.ts:346-357 | the nearest earlier row one level up is the goal the row is filed under |
| GoalForest.SiblingsInOrder | packages/core/src/goals.ts:309-324 | rows at one level under one parent come in display order |
| GoalForest.DepthCountsAncestors | packages/core/src/goals.ts:306-332 | without cycles a row's depth is exactly how many ancestors it has in the set |
| Status.WorkflowExactly | packages/core/src/status.ts:147-161 | a workflow needs two stages, and its statuses are the stages and `archived` |
| Status.FlexibleNeighbours | packages/core/src/status.ts:83-93 | in flexible mode every status goes to every other one and nowhere else |
| Status.StrictTransitions | packages/core/src/status.ts:105-126 | the loop's map is the built-in one for the default stages and one step either way, or archive, for any other |
| Search.ShortestTransitionPath | packages/core/src/status.ts:250-287 | an answer is a shortest legal route not passing through `archived`, and of those the one that takes the sooner declared transition wherever another one differs; none means there is no such route |
| Routes.StrictNeighbours | packages/core/src/status.ts:18-126 | from a stage a strict workflow goes exactly to the next, the one before (from the built-in last stage two before) and `archived` |
| Routes.StrictIsPipeline | packages/core/src/status.ts:105-126 | every strict workflow, built-in or custom, goes forward one stage at most, can go back, and leaves `archived` only for the first stage |
| Routes.ForwardRouteIsEveryStage | packages/core/src/status.ts:260-287 | in strict mode the shortest way forward is exactly every stage after the source up to the target |
| Routes.EveryStatusReachesEvery | packages/core/src/status.ts:147-161 | every status of a workflow built from stages can reach every other, in both modes |
| Routes.RouteBetween | packages/core/src/status.ts:147-287 | so the search over such a workflow always answers, ties broken by declaration order, and with the whole pipeline forward in strict mode |
| Gates.GatesCrossingAre | packages/core/src/gates.ts:155-203 | a gate is crossed exactly when its stage is, and it belongs to the product's own set, or to the workspace's when the product has none |
| GateFields.GatesCrossingInOrder | packages/core/src/gates.ts:155-203 | and the crossed gates come in row order, each as often as it is there |
| Gates.OrderMatters | packages/core/src/gates.ts:164-203 | narrowing to stages before inheriting differs exactly when the product has gates, none crossed, and the workspace has one crossed |
| Gates.DeletedFieldBlocks | packages/core/src/gates.ts:102-135 | a gate on a field that left the catalog cannot be met |
| GateFields.BuiltInGateReadsItsField | packages/core/src/gates.ts:102-135 | a gate on the assignee, release, cycle, parent or tags is open exactly while that field of the item is empty, whatever its other fields hold |
| GateFields.CustomGateReadsItsField | packages/core/src/gates.ts:80-113 | a gate on a custom property is closed exactly when the property is defined for the item and the item's value is not missing, a blank text or an empty list |
| GateFields.OtherGates | apps/mcp/src/server.ts:801-903 | a gate on any other field is open, and a checklist gate until this item has completed it |
| GateFields.OpenGatesInOrder | apps/mcp/src/server.ts:801-903 | the gates that block are the governing ones on the passed stages that are not satisfied, in row order |
| UpdateStatus.OpenGates | apps/mcp/src/server.ts:801-903 | the two-phase lookup returns the unsatisfied gates among those crossed, in order |
| UpdateStatus.Store.Update | apps/mcp/src/server.ts:645-703 | the stored status changes exactly when the item exists and every check passes, and nothing else changes |
| UpdateStatus.ChecksInOrder | apps/mcp/src/server.ts:645-703 | which outcome each combination of permission, transition and gates has; a move to the same status passes |
| UpdateStatus.ForwardMoveChecksEveryStage | apps/mcp/src/server.ts:670-698 | a permitted forward move goes through exactly when every gate in scope on every passed stage is met |
| GateRuns.GatesHoldExactly | apps/mcp/src/server.ts:670-698 | over any run in either mode an item has passed the gates of every earlier stage since it last stood there exactly when no return from `archived` lands past the stage it was archived from |
| GateRuns.ReturningToStartIsSafe | packages/core/src/status.ts:193-204 | leaving `archived` only for the first stage is enough |
| GateRuns.StrictRunsAreAlwaysChecked | packages/core/src/status.ts:105-126 | in strict mode no run skips a gate |
| GateRuns.FlexibleRunsCanSkip | packages/core/src/status.ts:83-97 | in flexible mode any unmet gate on the first stage can be skipped in two moves through `archived` |
| Csv.ParseCsvRows | packages/core/src/tag-import.ts:64-124 | the character loop computes the automaton's rows |
| Csv.ParseInvertsEncode | packages/core/src/tag-import.ts:64-124 | parsing inverts the encoder of section 2 of RFC 4180, quoted and bare fields mixed, lines ended by LF, CRLF or the end of the file, with or without a byte-order mark, exactly when the file does not stop right after a record of one empty pair of quotes; records of one bare blank field are no rows |
| Csv.EmptyQuotesAreLost | packages/core/src/tag-import.ts:102-122 | an empty pair of quotes in the last line is lost without a line break after it and kept with one |
| Csv.QuotesInside | packages/core/src/tag-import.ts:81-116 | a pair of quotes inside a field adds what is between them, commas and line breaks included |
| Csv.QuoteNeverClosed | packages/core/src/tag-import.ts:81-122 | a quote that nothing closes runs to the end of the file |
| Csv.ReturnInside | packages/core/src/tag-import.ts:111-112 | a carriage return outside quotes is dropped wherever it stands |
| Csv.LineCountsNewlines | packages/core/src/tag-import.ts:64-124 | each row is numbered one more than the newlines in the file before it |
| Tags.NormalizedIsTidy | packages/core/src/tags.ts:48-58 | a normalized name has no white space at its ends and single spaces inside |
| Tags.NormalizeJoinsWords | packages/core/src/tags.ts:39-50 | a normalized name is the name's words in order with one space between, spelling and casing kept |
| Tags.NormalizeIdempotent | packages/core/src/tags.ts:48-75 | normalizing twice changes nothing, and a name has the key and the fault of its normal form |
| TagSpelling.SameKeyIsSameName | packages/core/src/tags.ts:52-62 | two names have one key exactly when, tidied, they have one length and agree in every character up to case |
| TagSpelling.NameFaults | packages/core/src/tags.ts:64-75 | a name is refused exactly when blank, longer than 64 characters tidied, or for a comma, in this order |
| TagImport.PlanTagImport | packages/core/src/tag-import.ts:212-255 | the planner's actions are the row-by-row plan over the projected registry, its counts are the number of actions of each kind, and its writes are the creates, renames and merges among them |
| TagImport.CountsAddUp | packages/core/src/tag-import.ts:241-254 | the three writing kinds add up to the writes, and with the other two to all actions |
| TagImport.EveryRowIsAnswered | packages/core/src/tag-import.ts:227-239 | each row gets one action, in file order and with its line, up to the cap, and one refusal stands for all rows past it |
| TagSpelling.OneColumnRow | packages/core/src/tag-import.ts:332-357 | over names: an unusable name is refused, a name that is there up to case and spacing is answered with the stored spelling, any other is created tidied |
| TagSpelling.TwoColumnRow | packages/core/src/tag-import.ts:280-330 | over names: the tag the first cell names is renamed, merged into the tag the second names, or left alone when that is its spelling |
| TagSpelling.TwoColumnRefusals | packages/core/src/tag-import.ts:257-300 | which refusal a row with a second name gets, and that it gets none otherwise |
| TagSpelling.RespelledTagIsThere | packages/core/src/tags.ts:52-62 | the tag `Web` and the row `web` |
| TagSpelling.HeaderExactly | packages/core/src/tag-import.ts:130-191 | which first rows are headings |
| TagSpelling.CellsAreJoined | packages/core/src/tag-import.ts:227-239 | a refusal quotes the cells with commas between them |
| TagImport.Projected.PlanRow | packages/core/src/tag-import.ts:257-330 | one row's action and the whole new projection, every error case included |
| TagImport.Projected.PlanCreate | packages/core/src/tag-import.ts:332-357 | a one-column row's action and the new projection |
| TagImport.Projected.ApplyRename | packages/core/src/tag-import.ts:360-381 | a rename keeps the row's id under its new key, a merge drops it, and both mark it used |
| TagReplay.PlanReadsTopToBottom | packages/core/src/tag-import.ts:201-250 | the plan is what reading each row against the real tag list gives, every row seeing what the rows above did |
| TagReplay.PlanIsFaithful | packages/core/src/tag-import.ts:212-381 | replayed in order every write is enabled, keys stay unique, no stored tag is a source twice, and size is initial plus creates less merges |
| TagReplay.RowIsFaithful | packages/core/src/tag-import.ts:257-381 | each single row keeps the projection a mirror of the replayed registry |
| TagReplay.NoWritesNoChange | packages/core/src/tag-import.ts:48-51 | a plan without writes leaves the registry as it is |
| Calendar.YearCount | packages/core/src/cycles.ts:212-215 | the day count of a year by fours, hundreds and four hundreds |
| Calendar.DateOf | packages/core/src/cycles.ts:212-215 | every day number has a proper date with this day number, and the year has four digits exactly before the end of 9999 |
| Calendar.EpochDay | packages/core/src/cycles.ts:212-215 | the day that millisecond times count from, from which the last day a time value can name is counted |
| Calendar.LatestDate | packages/core/src/cycles.ts:212-215 | that last day is the thirteenth of its month, so no month start is past it |
| Calendar.IsoOrder | packages/core/src/cycles.ts:157-168 | the order of YYYY-MM-DD texts (section 5.1 of RFC 3339) is the order of days |
| DateStrings.StringOrderIsDayOrder | packages/core/src/cycles.ts:157-168 | comparing date strings compares days, and a day has one string |
| DateStrings.FarIsBelow | packages/core/src/cycles.ts:212-215 | a date string past the year 9999 sorts below every date of four digits |
| DateStrings.SomeDates | packages/core/src/cycles.ts:212-215 | how a leap day and the first month with a six-digit year are written |
| Cycles.ValidMeansSomeFit | packages/core/src/cycles.ts:221-261 | a usable request over real dates is accepted exactly when at most 200 whole cycles fit and either one does or the first would end past the year 9999; the check throws exactly past the last day there is, and is left to the engine exactly for a date that does not exist where it matters |
| Cycles.ProblemsInOrder | packages/core/src/cycles.ts:221-251 | which problem is reported when several things are wrong |
| Cycles.GenerateCycleSchedule | packages/core/src/cycles.ts:277-299 | the loop computes the schedule that the lemmas below are about, for every input, the throwing runs included |
| Cycles.PlansExactlyCounted | packages/core/src/cycles.ts:254-299 | a contained schedule is exactly the cycles the division counts, the i-th starting i lengths after the start |
| Cycles.PlansPastTheEnd | packages/core/src/cycles.ts:277-299 | any other accepted one is the counted cycles followed, up to 200, by cycles that end past the year 9999 on exactly known days, and it throws exactly when one of these is past the last day there is |
| Cycles.ShortCyclesNeverThrow | packages/core/src/cycles.ts:277-299 | it does not throw when two hundred lengths from the start stay within the last day there is |
| Cycles.HorizonExactly | packages/core/src/cycles.ts:263-299 | no planned cycle ends after the requested end exactly when the first one left out would end within the year 9999 or the cap leaves no room for it |
| Cycles.LastDaysRunAway | packages/core/src/cycles.ts:277-299 | a fortnight from 20 to 31 December 9999 is accepted, and 200 cycles are planned that all end past the year 9999 |
| Cycles.CountIsWhatFits | packages/core/src/cycles.ts:254-261 | the division counts the cycles whose days fit the span |
| Cycles.CyclesLast | packages/core/src/cycles.ts:277-299 | every cycle lasts exactly the requested days, the first from the requested day |
| Cycles.CyclesAbut | packages/core/src/cycles.ts:263-299 | each cycle starts the day after the one before ends |
| Cycles.HorizonIsRespected | packages/core/src/cycles.ts:263-299 | a cycle ends within the horizon exactly when it is one of the counted ones |
| Cycles.CycleScheduleRemainderDays | packages/core/src/cycles.ts:307-315 | the days left over are the span modulo the length for a contained schedule, and none for any other; it throws exactly when planning does |
| CycleNames.ReplacingIsFilling | packages/core/src/cycles.ts:288-293 | replacing every token is splitting at the tokens and filling the gaps |
| CycleNames.FirstCaptureCovers | packages/core/src/cycles.ts:325-346 | the first greedy capture of a filled template starts with the digits it was filled with |
| CycleNames.NumberIsRead | packages/core/src/cycles.ts:325-344 | a name carries a number exactly when, trimmed, it is the literals with runs of digits between them, the first worth that number; of several readings the one with the longest first run counts |
| CycleNames.GeneratedIsRead | packages/core/src/cycles.ts:288-344 | with one token and no white space around the template every generated name carries its own number |
| CycleNames.NextCycleNumber | packages/core/src/cycles.ts:325-346 | one past the highest number in use among the trimmed names, and 1 when there is none |
| CycleNames.NextIsUnique | packages/core/src/cycles.ts:325-346 | at most one number meets that description |
| CycleNames.NextAfterRun | packages/core/src/cycles.ts:317-346 | after the names for 1 to k the next number is k + 1 |
| CycleNames.SixthSprint | packages/core/src/cycles.ts:317-346 | after five names from `S {n}` comes `S 6` |
| CycleNames.NoTokenMeansOne | packages/core/src/cycles.ts:329 | without a token the number is 1 |
| CycleNames.NextIsFresh | packages/core/src/cycles.ts:317-346 | for a trimmed template no number from the next one on names a cycle in use |
| CycleNames.NamesAreDistinct | packages/core/src/cycles.ts:277-299 | different numbers give different names, whatever digits the literals hold |
| CycleNames.FreshExactlyWhenTrimmed | packages/core/src/cycles.ts:325-346 | freshness for every list of names holds exactly when the template is trimmed |
| Cycles.ScheduledNamesAreFresh | packages/core/src/cycles.ts:277-346 | a schedule started at the next number has pairwise distinct names, none in use |
| Frontmatter.ScanFindsFirstLine | packages/core/src/spec.ts:56-73 | the leftmost match of the closing pattern is the first delimiter line, and there is none when no line is one |
| Frontmatter.BlockIsFirst | packages/core/src/spec.ts:126-135 | a block is an opening line and the text through the first delimiter line after it |
| Frontmatter.DelimiterLines | packages/core/src/spec.ts:126-135 | an opening line is three dashes, and a closing line three dashes or dots, with only spaces and tabs up to the line break or the end of the file |
| Spec.TidiedBody | packages/core/src/spec.ts:153-155 | the two replacements change only white space around the body |
| Spec.TidiedExactly | packages/core/src/spec.ts:153-155 | a tidied body is the body without whole blank lines before it and without white space after it, the indentation of its first line kept |
| Spec.TitleIsReadBack | packages/core/src/spec.ts:150-152 | the title line holds the title as a JSON string on one line, read back as it was, control characters by their short escapes (section 7 of RFC 8259) |
| Spec.RewriteKeepsBlock | packages/core/src/spec.ts:136-167 | rewriting keeps the block byte for byte when it ends in a newline, and its YAML always; after it come an empty line, the tidied body and one newline, which is the trimmed body when read |
| Spec.RewriteAddsBlock | packages/core/src/spec.ts:144-167 | a file without a block gets the synthesized one, read back whole with its two lines of YAML; after it come an empty line, the tidied body and one newline |
| Spec.RoundTripExactly | packages/core/src/spec.ts:144-167 | reading returns every written body, trimmed, exactly when the YAML of the block loads and the file has a block or the fallback id does not close its own |
| Spec.TwoLineIdLeaks | packages/core/src/spec.ts:144-167 | with a fallback id of two lines, the second of dashes, the title line is read as body |
| Spec.LastRewriteWins | packages/core/src/spec.ts:144-156 | whatever the bodies, a second rewrite gives what it would have given alone exactly when the block ends its line or, in a file without one, the fallback id does not close its own |
| SpecIds.InsertedAboveClose | packages/git/src/index.ts:190-200 | an id inserted above the closing line joins the block and leaves the text after it alone |
| SpecIds.BodyIsKeptExactly | packages/git/src/index.ts:190-200 | the text after the block is unchanged exactly when a file without a block gets a new one, or the first line of dashes is above the closing line; an id that closes a block itself keeps it only by repeating what is above it |
| SpecIds.ReadingIsKeptExactly | packages/git/src/index.ts:190-200 | a file that loads reads the same with the id exactly on that condition and when it still loads |
| SpecIds.DotsMissTheId | packages/git/src/index.ts:190-200 | in a file whose block is closed by dots the id line goes in below the block and shows in the body |
| SpecIds.PlainFileKeepsBody | packages/git/src/index.ts:190-200 | a file that does not start with dashes keeps its body and gains a block of one id line |
| SpecIds.DashedBlockKeepsBody | packages/git/src/index.ts:190-200 | so does any file whose block is closed by dashes |
| WorkerPool.EveryRunIsBounded | packages/git/src/github.ts:108-132 | under every interleaving, calls that reject included, each index is taken once in order, never more calls are in flight than the limit, and settled calls equal steps, at most one per item |
| WorkerPool.LaunchIsFull | packages/git/src/github.ts:128-130 | at the start as many calls are in flight as the smaller of the limit and the items, and none below a limit of 1 |
| WorkerPool.EveryRunProgresses | packages/git/src/github.ts:108-132 | no worker that has not failed idles while an item is left, and a run with a call outstanding can always go on |
| WorkerPool.QuietRunsAnswer | packages/git/src/github.ts:114-132 | once no call is outstanding the answer is the map in input order when all succeed, the error of the call that rejected first in the schedule when some reject, and holes below a limit of 1 |
| WorkerPool.FailureIsFirst | packages/git/src/github.ts:128-130 | at every point of every schedule the failure is the first rejection's, and there is none while no call rejected |
| WorkerPool.MapExactlyWithWorkers | packages/git/src/github.ts:114-132 | with calls that all succeed the answer is the map exactly when the limit is at least 1 or nothing is asked |
| WorkerPool.AnswersStand | packages/git/src/github.ts:130-131 | an answer is final: later calls do not change it |
| WorkerPool.SharedPool.Settle | packages/git/src/github.ts:122-127 | storing a result in its slot and taking the next index, or failing, on the shared variables |
| WorkerPool.MapWithConcurrency | packages/git/src/github.ts:114-132 | the whole call is one of the schedules, run until nothing is outstanding, and answers accordingly |

## Left out

- Hunks.DiffHunks: the hunk objects the passes widen in place are values in a list, replaced rather than mutated.
- Merge.MergeLoop: the three cursors travel as one record, so the model does not show them as separate variables.
- Goals.CompareTotal: `localeCompare` is any total preorder on titles, not a particular locale's.
- Tags.NormalizeIdempotent: `toLowerCase` is any fold of single characters, so length-changing foldings are not modelled.
- Cycles.GenerateCycleSchedule: what an engine makes of a date that matches the pattern but does not exist (30 February, month 13), which ECMA-262 leaves to it; the model says only that the outcome then depends on the engine. Lengths are whole numbers.
- CycleNames.NextCycleNumber: numbers are unbounded integers, so precision past 2 to the 53rd and infinity are not modelled.
- Spec.RewriteSpecBody: strings are sequences of Unicode scalars, so the escaping of lone surrogates is not modelled.
- UpdateStatus.Store.Update: the workflow and the write permission are parameters, and error texts and timestamps are not modelled.
- Spec.RoundTripExactly: which texts the YAML library loads is a parameter, so its errors are not told apart.
- WorkerPool.MapWithConcurrency: a call that never settles (the lemmas on runs cover it, as a run not yet quiet), and limits that are not whole numbers.
- GateRuns.GatesHoldExactly: repository configurations that pin their own transitions, where `archived` may stand anywhere.
- The order of insertion of object keys, and lookups that reach an object's prototype.
- Validation of frontmatter fields, and the section and heading readers built on regular expressions.
- Sections changed on both sides: trimming and heading patterns make the link to merge regions inexact.
- Which stages a workspace workflow is read from, and the labels, counts and messages shown to people.
- Byte limits on uploads, tag colours, releases, permissions, slugs, key results and the other single-branch helpers.
- The database, the web pages, the GitHub client and webhooks, and the command line.
