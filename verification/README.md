# A verified model of fql's query execution

fql answers SQL over text files. A query becomes a graph of processes that pass groups of records
through bounded ring buffers, join them through a hash table, group, order and update them, and
give the records back to their root rings by reference count. This project models that machinery
in Dafny and proves what it keeps over every run and every input.

Each file is one module. What the source updates in place is a class with the same fields, and
every method is proved against a function of the state before it; what the source promises is then
proved about those functions, over whole runs where it speaks of runs.

- **Rings** (`Ring`, `RingRuns`): the circular buffer with its wrapped 32-bit index arithmetic, block
  transfers, and every interleaving of one guarded producer with the one consumer.
- **Record pool** (`RecordPool`, `RecordStore`, `NodeLists`): reference counts, conservation of nodes,
  room in the root rings, and whose text a record shows; the recycling loop on linked nodes.
- **Tables** (`Keys`, `Probing`, `HashTable`, `CompositeMap`, `Assoc`): key normalisation against the
  comparison behind `=`, open addressing with growth, maps, sets, multimaps and composite keys.
- **Joins** (`JoinLogic`, `JoinSides`, `JoinRows`, `HashJoin`, `CartesianJoin`, `JoinPlan`, `JoinChoice`,
  `PlanStages`, `PlanRuns`): extraction of the join predicate, the two join processes, the equality of the two
  plans, the query behind a chosen predicate, and both plans as pipelines of processes under any schedule.
- **Grouping** (`FlexStore`, `GroupBy`, `GroupProcesses`, `CheckedArith`, `GroupAggregates`, `ExprKey`):
  GROUP BY, DISTINCT, checked integer arithmetic, integer aggregates, keys of grouping expressions.
- **Update** (`UpdateMerge`, `LogicProcess`, `UpdateProcess`): routing by a predicate, the merge in reading
  order, and the two processes together under any schedule of their calls.
- **Plan graph** (`PlanGraph`, `PlanClear`, `Traversal`, `WalkRing`, `DGraph`): contraction of passive nodes, and
  the breadth-first walk over a queue without bound and over the ring of the source.
- **Order and text** (`SortOrder`, `OrderBy`, `Binary`, `Utf8Text`): the ORDER BY comparator and TOP, and
  LEFT, RIGHT and SUBSTRING.
- `Common` and `Processes` hold what several modules share.

Row predicates, key extraction and expression values are total functions, the step that mixes a byte
into a hash is any function, and records of the join and grouping processes are values; the life of
the nodes that carry them is modelled in the record pool.

Several properties hold under a condition only. Each is stated with its exact condition, often next to a
failing input, and the code is modelled as it is:

- A negated equality is accepted as a join predicate, and the plans then differ
  (`JoinLogic.ExtractionNeedsNoNegation`, `JoinPlan.NegatedPredicateBreaksThePlan`).
- Blank keys, and keys with white space other than the space, can compare equal and be stored apart
  (`Keys.StoredAlikeOrdered`); for a join on the equality alone the plans agree exactly when no pair of
  keys does that (`JoinPlan.Query.SinglePredicatePlans`).
- An equality whose second operand reads both inputs is accepted too (`JoinSides.AcceptedKeysAreSeparate`); the
  plans are compared for keys that read one input each.
- `fifo_nget` with less than a block queued copies the whole ring (`Ring.Fifo.NGet`).
- The comment in lib/record.c:67-71 says that counting references keeps a copied record's text alive;
  it does so exactly while no copy is taken of a copy (`RecordPool.TextSurvivesExactly`).
- Addition misses one overflow and subtraction another (`CheckedArith.AddIsExact`, `CheckedArith.MinusIsExact`).
- Contracting the second branch depends on the order of the nodes unless the passive nodes on the way
  are plain (`PlanGraph.Graph.SecondBranch`).
- The work queue of the graph walk is a ring that can be too small; a call that overflows it also returns
  another node than the one it took and counted (`WalkRing.RingIsTooSmall`). The walk is right exactly when no
  queue of the unbounded walk reaches the number of slots (`WalkRing.RingIsExact`,
  `WalkRing.ReturnedAsTakenExactly`), and so on every graph where each node has one way in
  (`WalkRing.OneWayInSuffices`).
- A row that `fql_cartesian_join` sends to a full output takes all rows out of it, and it looks at the room
  only after the first row of a call (`CartesianJoin.Scanner.SendRow`).
- An addition overwrites a slot handed out earlier exactly when the gets since then and the queued elements
  use up the ring (`RingRuns.NextToBeOverwritten`). That never happens while the nodes taken since are all out
  (`RingRuns.SlotsOfNodesHeldAreIntact`); that the slot's own node is out is not enough
  (`RingRuns.SlotOfOneNodeIsLost`).
- The row counter of an aggregate has 32 bits: MIN and MAX restart after 2^32 rows and AVG then divides by
  zero (`CheckedArith.ExtremesAreExact`, `CheckedArith.AvgIsTruncatedQuotient`).
- An UPDATE with TOP n, n at least 1, is not cut short, because the counter that is compared is never
  advanced (`UpdateProcess.Updater.DrainTrue`).
- RIGHT of more characters than there are bytes reads past the text (`Utf8Text.RightPastTheEnd`).
- Control bytes make the comparison intransitive: on the strings over a set of bytes it is transitive exactly
  when no white space of the set is above another byte of it (`Keys.TransitiveExactly`).
- The forward scan of a text looks at lead bytes only: LEFT accepts a text that RIGHT refuses exactly when its
  blocks are not all characters (`Utf8Text.ScansAgree`).
- The map of grouping expressions folds case in binary components (`ExprKey.ConstantsAreConfused`) and
  does not look at the tests of a CASE (`ExprKey.TestsAreIgnored`); it takes two expressions for the same
  exactly when they agree node by node in the stored form (`ExprKey.LookupIsExact`).

## Model

| member | source | states |
|---|---|---|
| `Ring.AvailableLimit` | util/fifo.c:92-99 | the wrapped 32-bit computation is the distance from tail to head at all positions if and only if the ring has at most 2^31 slots |
| `Ring.AvailableIsDistance` | util/fifo.c:92-99 | for one position: exact if and only if the consumer index is not ahead or the wrapped difference still exceeds the size |
| `Ring.WrapIsRemainder` | util/fifo.c:4 | a position moved on by one, or by less than a lap, is the remainder by the ring's size that the code takes |
| `Ring.Fifo.Available` | util/fifo.c:92-99 | the number of queued elements |
| `Ring.Fifo.Receivable` | util/fifo.c:111-115 | under the producers' guard the free room, positive exactly when one more element keeps the guard |
| `Ring.Fifo.constructor` | util/fifo.c:8-27 | an open, empty ring of the given size, of two slots at least |
| `Ring.Fifo.Preempted` | util/fifo.c:117-121 | a ring filled to all slots but one, with the nodes laid in it in order |
| `Ring.Fifo.Add` | util/fifo.c:217-225 | appends when there is a slot to spare; the slot filled is the head slot either way |
| `Ring.Slots.AddAppends` | util/fifo.c:217-225 | an addition to a ring with one slot left makes it read as empty |
| `Ring.Fifo.Get` | util/fifo.c:136-144 | the oldest element leaves, and its slot still holds it |
| `Ring.Fifo.Iter` | util/fifo.c:334-339 | consumes the oldest element |
| `Ring.Fifo.NGet` | util/fifo.c:146-178 | moves the whole blocks at the front and returns what is left; with less than a block and a tail past slot 0 it copies the entire ring and consumes nothing |
| `Ring.GettingOneByOne` | util/fifo.c:146-178 | a block transfer out of the ring equals that many single gets, across the wrap |
| `Ring.Fifo.NAdd` | util/fifo.c:241-276 | moves the longest prefix that fits, leaves the rest in the source vector and keeps the guard |
| `Ring.AddingOneByOne` | util/fifo.c:241-276 | a block transfer into the ring equals that many single additions |
| `RingRuns.EveryRunIsSafe` | util/fifo.c:92-144 | under every interleaving of one guarded producer and one consumer the ring never overflows and what was added is what was consumed followed by what is queued |
| `RingRuns.ConsumedIsPrefixOfAdded` | util/fifo.c:136-225 | the consumed elements are the first added ones, in order |
| `RingRuns.IterationVisitsSnapshot` | util/fifo.c:328-344 | an iteration visits exactly the elements queued when it began, whatever is added meanwhile |
| `RingRuns.ReserveIsNeeded` | util/fifo.c:111-144 | on a ring of any size every run loses nothing, and every run leaves the slot handed out intact, if and only if the input count is at least one |
| `RingRuns.EveryRunKeepsTrail` | util/fifo.c:136-225 | over every run the slot of the d-th last get holds what was taken from it as long as d and the queued elements together do not exceed the size |
| `RingRuns.NextToBeOverwritten` | util/fifo.c:217-225 | an addition overwrites the slot of the d-th last get if and only if d and the queued elements together make up the size |
| `RingRuns.SlotsOfNodesHeldAreIntact` | lib/fqlprocesses.c:502-530 | as long as the nodes taken since are all out of a ring with a slot more than nodes, the slots of all of them are intact and none is the next to be filled |
| `RingRuns.SlotOfOneNodeIsLost` | util/fifo.c:136-225 | five calls that overwrite the slot of a node that is still out |
| `NodeLists.Links.Back` | util/node.c:89-98 | the last node of a group |
| `NodeLists.Links.RecordAt` | lib/record.c:46-57 | the first record of the group with that source, or null if and only if there is none |
| `NodeLists.Links.Export` | util/node.c:160-174 | the node is out of its list, which stays linked both ways without it, and no other list changes |
| `NodeLists.Links.PopExport` | util/node.c:40-44 | the first node, cut out, and the head of the rest |
| `NodeLists.Links.PushImport` | util/node.c:64-75 | a loose node becomes the first of the list |
| `NodeLists.Links.EnqueueImport` | util/node.c:100-115 | a loose node becomes the last of the list |
| `RecordPool.Pool.CopyIsCounted` | lib/record.c:59-77 | the source of a copy has a positive count, and a count of one exactly means released with this its only copy |
| `RecordPool.Pool.RecycleKeepsValid` | lib/fqlprocesses.c:121-154 | recycling keeps every reference count equal to one while unreleased plus the number of copies, and every node in its own ring at most once |
| `RecordPool.Pool.CopyKeepsValid` | lib/record.c:59-77 | so does copying a record |
| `RecordPool.Pool.AllReturned` | lib/fqlprocesses.c:121-154 | when no record is live every circulated node is back in its root ring |
| `RecordPool.Pool.RingHasRoom` | lib/fqlplan.c:99-138 | a node coming home finds a free slot besides the one always kept, so the unguarded addition never meets a full ring |
| `RecordPool.EveryRunConserves` | lib/fqlprocesses.c:121-154 | counts, homes and room over every run of takes, copies and recyclings |
| `RecordPool.TextSurvivesEveryRun` | lib/record.c:67-71 | while only originals are copied no text shown by a live record goes back to a ring |
| `RecordPool.TextSurvivesExactly` | lib/record.c:59-77 | that protection holds for all such runs from a state if and only if no live record there is a copy of a copy |
| `RecordPool.CopyOfCopyLosesText` | lib/record.c:59-77 | a run of four calls after which a live record's text is back in a ring |
| `RecordStore.Store.constructor` | lib/fqlplan.c:99-138 | dealing the nodes round the root rings and setting them full gives a valid pool with one idle node a ring |
| `RecordStore.FreshIsValid` | lib/fqlplan.c:99-138 | that pool satisfies all invariants, with no copies |
| `RecordStore.Store.DetachNode` | lib/fqlprocesses.c:133-141 | a copy gives up its source, which is recycled in turn exactly when this was the last reference; that call is a single node deep |
| `RecordStore.Store.Recycle` | lib/fqlprocesses.c:121-154 | on linked nodes, count arrays and real rings: the loop over a group is the pool operation on each node in order |
| `RecordStore.RecycleAllIsARun` | lib/fqlprocesses.c:121-154 | so every run property of the pool holds of it |
| `RecordStore.Store.CopyRecord` | lib/record.c:59-77 | the arrays after a copy are those of the pool after it |
| `RecordStore.Store.BuildRow` | lib/fqlprocesses.c:320-331 | the row built from a block of fresh nodes is linked as one group and the left group is undisturbed |
| `RecordStore.RowShowsLeftThenRight` | lib/fqlprocesses.c:320-331 | the row shows the left group's texts in the left group's order and then the right record |
| `Keys.LettersAreFolded` | util/stringview.c:91 | folding changes the 26 upper-case letters to their lower-case ones and nothing else |
| `Keys.WhiteIsSpace` | util/stringview.c:98 | white space is the space, tab, line feed, carriage return, vertical tab and form feed |
| `Keys.CompareRtrim` | util/stringview.c:49-101 | both trimming comparisons compute the comparison function, sign and magnitude |
| `Keys.CompareIsPaddedOrder` | util/stringview.c:76-101 | it is the lexicographic order of folded, space-padded strings if and only if the first non-space byte past the shorter string, if it decides, is above the space |
| `Keys.CompareIsTotalPreorder` | util/stringview.c:76-101 | on strings without bytes below the space it is a total preorder |
| `Keys.TransitiveExactly` | util/stringview.c:76-101 | on the strings over any set of bytes it is transitive if and only if no white space of the set is above another byte of it |
| `Keys.TabsBreakTransitivity` | util/stringview.c:95-99 | three strings with a tab on which it is not transitive |
| `Keys.CompareZero` | util/stringview.c:76-101 | when two strings of any bytes compare equal |
| `Keys.StoredAlikeOrdered` | util/hashmap.c:435-457 | when two strings are stored under the same key, for any bytes and both properties |
| `Keys.HashAgreesWithCompare` | util/hashmap.c:435-457 | keys with a byte other than white space and no white space but the space are stored alike exactly when they compare equal |
| `Keys.BlankAndTabKeysDisagree` | util/hashmap.c:435-457 | blank keys and keys with a tab that compare equal and are stored apart |
| `HashTable.HashInto` | util/hashmap.c:380-457 | all four hash functions: the normal form is left in the key buffer after the stored keys and the hash depends on it alone |
| `Probing.NextPowerOf2` | util/hashmap.c:11-18 | the least power of two that is not below the argument |
| `Probing.SomeSlotIsFree` | util/hashmap.c:136-157 | a table with fewer values than slots has a free slot |
| `Probing.Index.ProbeOn` | util/hashmap.c:472-482 | each round of probing passes one entry of another key and comes nearer to a free slot, so probing ends |
| `Probing.Index.ProbeEnds` | util/hashmap.c:472-482 | a free entry at the end of the probe path shows that the key is absent |
| `Probing.Index.WithKeepsOk` | util/hashmap.c:140-153 | an insertion at the end of its own probe path keeps all paths unbroken |
| `Probing.IncreaseSize` | util/hashmap.c:487-517 | growth doubles the table and changes no key, so no lookup |
| `HashTable.Probe` | util/hashmap.c:459-485 | finds the slot of the key, or the free slot where it belongs |
| `HashTable.HashMap.NSet` | util/hashmap.c:136-157 | stores a value under the normal form, at the end for a new key and in place for an old one, growth included |
| `HashTable.HashMap.NGet` | util/hashmap.c:159-169 | the value under the normal form, or nothing, and the table is as before |
| `HashTable.MultimapNSet` | util/hashmap.c:204-229 | appends to the key's vector |
| `HashTable.SetNAdd` | util/hashmap.c:80-100 | adds exactly the normal form |
| `HashTable.SetNHas` | util/hashmap.c:102-107 | says exactly whether the normal form was added |
| `Assoc.EveryRunOfPuts` | util/hashmap.c:136-169 | after any run of inserts a lookup finds the last value put under the key and no other key is found; keys stay in first-insertion order |
| `Assoc.EveryRunOfAppends` | util/hashmap.c:204-229 | after any run a multimap returns all values of the key in insertion order |
| `CompositeMap.CompositeEq` | util/hashmap.c:320-335 | compares exactly the components |
| `CompositeMap.FoldParts` | util/hashmap.c:347-366 | components are folded one after the other, located exactly, and the hash depends on the folded components |
| `CompositeMap.ProbeParts` | util/hashmap.c:368-377 | finds the slot of the composite key or its free slot |
| `CompositeMap.CompositeMap.Set` | util/hashmap.c:271-299 | stores a value under the componentwise normal form |
| `CompositeMap.CompositeMap.Get` | util/hashmap.c:301-318 | the value under the componentwise normal form |
| `JoinLogic.ExtractionIsSound` | lib/logic.c:230-248 | when the function answers that the condition cannot be true without the predicate, and its leaf is not negated, the condition is the predicate and the condition with the predicate skipped |
| `JoinLogic.CanBeFalseIsExact` | lib/logic.c:230-248 | on trees whose leaves have conditions of their own the function answers no exactly when the condition is in the tree and every way of satisfying the tree makes its leaf true |
| `JoinLogic.ExtractionNeedsNoNegation` | lib/logic.c:222-248 | on such trees extraction is sound for all values if and only if the leaf is not negated |
| `JoinLogic.OneConditionIsPassive` | lib/fqlplan.c:280-287 | with a condition count of one the logic process passes every row, so it may be made passive |
| `JoinSides.GetJoinSide` | lib/schema.c:758-790 | the loop over function arguments computes the side function |
| `JoinSides.SideIsWhatIsRead` | lib/schema.c:758-790 | for expressions of columns and functions the side says which sources are read |
| `JoinSides.ResolveJoinConditions` | lib/schema.c:792-826 | the first acceptable equality, under its own condition and with its own two operands, the one that reads the left input only on the left; its condition cannot be false, and an equality of separate operands that cannot be false is never passed over |
| `JoinSides.SeparateIsAccepted` | lib/schema.c:792-826 | an equality of an operand that reads left sources only and one that reads right ones only, in either order, is accepted if its condition cannot be false |
| `JoinSides.AcceptedKeysAreSeparate` | lib/schema.c:792-826 | an accepted equality gives keys that read one input each if and only if its second operand is not mixed and it is not a constant compared with a left operand |
| `JoinSides.MixedOperandIsAccepted` | lib/schema.c:758-826 | an equality that is accepted although its second operand reads both inputs |
| `JoinRows.JoinState.TurnConserves` | lib/fqlprocesses.c:397-548 | each round of the left side keeps rows sent and rows to come equal to the join |
| `JoinRows.EveryRunIsTheJoin` | lib/fqlprocesses.c:436-548 | however arrivals and rounds interleave, rows sent and rows to come are the join of the rows delivered, in order |
| `JoinRows.DrainedRunIsTheJoin` | lib/fqlprocesses.c:436-548 | with the queue worked off the output is the join: no match lost or repeated |
| `HashJoin.Joiner.LeftSide` | lib/fqlprocesses.c:397-434 | the next match of the pending ones, or of a fresh lookup |
| `HashJoin.Joiner.RightSide` | lib/fqlprocesses.c:360-395 | every queued right record goes into the multimap in order |
| `HashJoin.Joiner.Call` | lib/fqlprocesses.c:436-548 | one call in either state: a number of rounds of the join step ended by the output's room or the input's end, and what it returns |
| `CartesianJoin.Scanner.FillInbuf` | lib/fqlprocesses.c:92-102 | whole blocks of nodes from the root ring, only when the buffer was used up; from less than a block and a tail past slot 0 the buffer gets all slots and the ring keeps its nodes |
| `CartesianJoin.Scanner.SendRow` | lib/fqlprocesses.c:317-351 | the next row goes out on one block of nodes; a full output reads as empty afterwards |
| `CartesianJoin.Scanner.Call` | lib/fqlprocesses.c:289-358 | one call reads on from where the last one stopped and at least once if it can; it returns WAIT_ON_OUT0 for a full output, WAIT_ON_IN0 or RUNNING after the end of the right table, RUNNING without nodes, and COMPLETE exactly when its output is closed or no left group will come |
| `CartesianJoin.EveryRunIsTheProduct` | lib/fqlprocesses.c:289-358 | under every interleaving rows sent and rows to come are the product in row order |
| `JoinPlan.Query.StoredAlikeIsEqual` | lib/table.c:197-217 | usable keys are stored alike in the join's multimap exactly when the predicate finds them equal |
| `JoinPlan.Query.MatchesAreEqualRows` | lib/fqlprocesses.c:360-434 | the multimap returns exactly the right rows with an equal key, in table order |
| `JoinPlan.Query.HashPlanIsBruteForce` | lib/fqlprocesses.c:289-611 | the hash join followed by the condition without its join predicate emits the same rows in the same order as the product followed by the whole condition |
| `JoinPlan.Query.SinglePredicatePlans` | lib/schema.c:792-826 | with the join predicate as the whole condition the plans agree if and only if all key pairs are stored alike exactly when equal |
| `JoinPlan.Query.DrainedPlansAgree` | lib/fqlprocesses.c:289-611 | the same for runs of the two joins' steps under any interleaving once both are worked off |
| `PlanStages.HashRun.DrainedIsThePlan` | lib/fqlprocesses.c:360-611 | a pipeline of hash join and filter in order that is worked off has passed the plan's rows |
| `PlanStages.HashRun.TurnsKeepOrder` | lib/fqlprocesses.c:436-548 | rows passed, held, outstanding and to come stay the join's rows over any number of rounds of the left side |
| `PlanStages.BruteRun.DrainedIsThePlan` | lib/fqlprocesses.c:289-358 | the same for a pipeline of product and filter |
| `PlanRuns.HashPlan.Run` | lib/fqlprocesses.c:360-611 | hash join, filter and next process under any schedule of arrivals on both sides and calls: the pipeline stays in order and passes the plan's rows once worked off |
| `PlanRuns.HashPlan.JoinTurn` | lib/fqlprocesses.c:436-548 | what a call of the join does to the pipeline in every case: nothing, the queued right records taken in, the turn to the left, or at least one round |
| `PlanRuns.HashPlan.WorkOff` | lib/process.c:336-348 | called again and again once the right table is closed, the processes work everything off, however small the rings are, and pass exactly the plan's rows |
| `PlanRuns.BrutePlan.Run` | lib/fqlprocesses.c:289-611 | the same for product, filter and next process, with nodes coming home |
| `PlanRuns.DrainedPipelinesAgree` | lib/fqlprocesses.c:289-611 | two pipelines for one query that got the same rows and worked them off passed the same rows in the same order |
| `PlanRuns.SinglePredicatePipelines` | lib/schema.c:792-826 | with the join predicate as the whole condition they do so if and only if all key pairs are stored alike exactly when equal |
| `JoinChoice.Condition.ChosenPlanIsTheJoin` | lib/schema.c:792-826 | the hash join planned from an equality and the filter that skips its condition emit the rows of the product on which the join condition as written holds |
| `JoinChoice.PlanJoin` | lib/schema.c:792-826 | a condition over separate equalities gets a hash join exactly when one of them cannot be false, and that join is the one of the condition unless the leaf is negated |
| `JoinPlan.Query.LeftJoinRows` | lib/fqlprocesses.c:436-548 | a LEFT JOIN on one equality: each left group with its equal right rows, or alone |
| `JoinPlan.NegatedPredicateBreaksThePlan` | lib/query.c:1068-1073 | a negated equality, collected like any other, makes the plans differ |
| `FlexStore.Flex.PushBack` | util/flex.c:104-112 | an element more at the end |
| `FlexStore.Flex.Resize` | util/flex.c:60-89 | shrinking takes off exactly the last elements and their bytes |
| `FlexStore.Flex.PairAt` | util/flex.c:45-52 | the element at an index |
| `FlexStore.ElementsDetermine` | util/flex.c:60-89 | a store taken back to its former elements is back in its former state to the byte |
| `GroupBy.Grouping.GroupsAreTheRowsOfTheirKeys` | lib/group.c:145-160 | the reference grouping: distinct keys in first-appearance order, each with exactly its rows in order |
| `GroupBy.Grouping.FirstTextsSize` | lib/group.c:187-193 | the store holds the composite size times the number of groups |
| `GroupBy.Group.AddAggResult` | lib/group.c:88-101 | a zeroed result and the first step of every aggregate, or a failure of one |
| `GroupBy.Group.UpdateAggResult` | lib/group.c:103-112 | one more step of every aggregate of the group, or a failure of one |
| `GroupBy.Group.Record` | lib/group.c:114-163 | map, store and results are those of the groups with the row; a new group is reported exactly for a new key, a failure only if an aggregate cannot be folded over the row's group |
| `GroupBy.Group.DumpRecord` | lib/group.c:187-219 | the next group's record: the first row's key texts and each aggregate folded over exactly the group's rows |
| `GroupProcesses.Distinct.Call` | lib/fqlprocesses.c:756-804 | what was sent is always the first occurrences among the rows read, no row is lost, and every return value is exact; a failure means that an aggregate cannot be folded over the group of some row queued |
| `GroupProcesses.Grouper.Call` | lib/fqlprocesses.c:707-754 | all queued rows enter the group, or are dropped when it has no expressions; every return value is exact, and a failure means that an aggregate cannot be folded over the group of some row queued |
| `GroupProcesses.NoAggregateNoFailure` | lib/group.c:88-112 | recording into a group without aggregates never fails |
| `GroupProcesses.Grouper.Dump` | lib/fqlprocesses.c:670-705 | a record for every fresh node used, in first-appearance order; it ends for want of room, of nodes or, with all groups sent, of groups |
| `CheckedArith.AddIsExact` | lib/misc.h:38-52 | the sum, or a failure exactly when it does not fit, if and only if not both operands are the smallest long |
| `CheckedArith.MinusIsExact` | lib/misc.h:54-68 | the same for subtraction but for zero minus the smallest long |
| `CheckedArith.Multiply` | lib/misc.h:70-95 | wrapped multiplication and division check: the product, or a failure exactly when it does not fit |
| `CheckedArith.SumIsExact` | lib/aggregatefn.c:84-92 | SUM after every row is exact, or fails exactly when a partial sum does not fit, if and only if no row adds the smallest long to itself |
| `CheckedArith.NoMinimumNoTrouble` | lib/aggregatefn.c:84-92 | in particular when no input is the smallest long |
| `CheckedArith.AvgIsTruncatedQuotient` | lib/aggregatefn.c:104-115 | below 2^32 rows AVG is the sum divided by the number of rows, truncated towards zero, or fails where SUM fails; from there on it fails, as the division is by zero |
| `CheckedArith.TruncatedIsQuotient` | lib/aggregatefn.c:112 | the quotient is the one number whose product with the divisor lies between zero and the dividend and is less than a divisor away from it |
| `CheckedArith.CountIsExact` | lib/aggregatefn.c:6-10 | COUNT is the number of rows, while the 32-bit row counter is that number modulo its range |
| `CheckedArith.RowsIsRemainder` | lib/group.c:88-112 | the counter advanced row by row is the number of rows modulo 2^32 |
| `CheckedArith.MinSinceWrap` | lib/aggregatefn.c:12-21 | for any number of rows MIN is the least number among the rows since the counter was last zero |
| `CheckedArith.MaxSinceWrap` | lib/aggregatefn.c:48-57 | MAX is the greatest number among them |
| `CheckedArith.ExtremesAreExact` | lib/aggregatefn.c:12-57 | for inputs of a given length MIN and MAX are always extremes of all rows if and only if there are at most 2^32 rows |
| `GroupAggregates.SumOfGroup` | lib/group.c:88-112 | the SUM column of a group is the exact total of that group's rows |
| `ExprKey.MapExpression` | lib/schema.c:842-947 | the components of the tree are appended, or a failure exactly when an unexpected expression is met |
| `ExprKey.PrefixFree` | lib/schema.c:842-947 | the encoding is a prefix code |
| `ExprKey.KeysAreEqual` | lib/schema.c:842-947 | two trees have the same components if and only if they are equal but for CASE tests, aggregate arguments and whole-record columns |
| `ExprKey.PlainKeysAreEqual` | lib/schema.c:842-947 | on constants, columns, functions, subqueries and asterisks the encoding is injective |
| `ExprKey.TestsAreIgnored` | lib/schema.c:911-925 | CASE expressions with different tests and the same values have the same components |
| `ExprKey.LookupIsExact` | lib/schema.c:1018-1054 | a table of either kind takes two expressions for the same if and only if their trees agree in kind and arity and, node by node, in the stored form of their components |
| `ExprKey.LookupOfSteadyKeys` | lib/schema.c:1018-1054 | in particular the lookup tells apart what the components tell apart when folding and trimming leave them alone |
| `ExprKey.ConstantsAreConfused` | lib/schema.c:1024-1027 | the lookup takes the arguments 65 and 97 for the same |
| `UpdateMerge.Flow.NextIsAtOneHead` | lib/fqlprocesses.c:1111-1169 | while a row is outstanding exactly one ring has the next row at its head and the other cannot go on |
| `UpdateMerge.EveryRunKeepsOrder` | lib/fqlprocesses.c:550-611 | under every interleaving of routing and writing the rows are written in reading order, once each, updated exactly where their predicate holds |
| `UpdateMerge.RouteAllKeepsValid` | lib/fqlprocesses.c:550-611 | a routed batch keeps the rings in order |
| `UpdateMerge.CallMakesProgress` | lib/fqlprocesses.c:1111-1169 | a call with a row in either ring writes at least one |
| `LogicProcess.Router.Call` | lib/fqlprocesses.c:550-611 | one call: the rows read go in order to the ring of their condition's value or are dropped where there is none, a constant query delivers one row that stays in its ring, and the return value in every case |
| `UpdateProcess.Updater.DrainTrue` | lib/fqlprocesses.c:1147-1166 | the loop over updated rows drains what may be written for any TOP but zero; with TOP zero it stops after one row that stays in its ring |
| `UpdateProcess.Updater.Call` | lib/fqlprocesses.c:1111-1169 | one call for any TOP: it drains the rows not updated and then the updated ones, with TOP zero it stops after one updated row; when it completes with both rings empty and closed, everything routed was written in order; the rows counted as affected are those written as updated |
| `UpdateProcess.RouteTurn` | lib/fqlprocesses.c:550-611 | a call of the router whose outputs are the updater's inputs is, on the flow, the routing of the rows it read, at least one when there is a row and room |
| `UpdateProcess.WriteInOrder` | lib/fqlprocesses.c:1111-1169 | a call of the updater with any TOP keeps the flow in order, writes a row while one is outstanding and the updater has not stopped, and when it completes everything routed has been written |
| `UpdateProcess.RunBoth` | lib/fqlprocesses.c:550-1169 | both processes with any TOP under any schedule of arrivals and calls: no row is lost and the rows written are the first ones that arrived, in order, once each, updated exactly where their predicate holds |
| `PlanGraph.Graph.Contraction` | lib/fqlplan.c:618-642 | in any order of the nodes no link leads to a passive node afterwards and each first branch leads to the first active node of its old chain |
| `PlanGraph.Graph.SecondBranch` | lib/fqlplan.c:629-641 | a second branch leads there whatever the order if and only if every passive node on its chain is plain |
| `PlanGraph.Graph.FirstBranchOnly` | lib/fqlplan.c:604-609 | passive nodes that use their first branch only are plain, and both walks agree |
| `PlanClear.ProcessGraph.Relink0` | lib/fqlplan.c:620-627 | the loop over a first branch ends and sets it to the first active node |
| `PlanClear.ProcessGraph.Relink1` | lib/fqlplan.c:629-641 | the loop over a second branch ends and sets it to the first active node of its walk in the graph as it is then |
| `PlanClear.ProcessGraph.Remove` | util/dgraph.c:76-92 | links to the node become null, no other link changes, and it leaves the vector |
| `PlanClear.ProcessGraph.ClearPassive` | lib/fqlplan.c:610-653 | exactly the active nodes stay, in order, and the removal severs none of their links |
| `DGraph.DGraph.AssumeRoots` | util/dgraph.c:94-128 | the roots are exactly the nodes no link leads to, in order, and the counters are zero again |
| `DGraph.AllAreReached` | util/dgraph.c:94-128 | in a graph without cycles every node is reached from those roots |
| `DGraph.DGraph.TraverseReset` | util/dgraph.c:158-175 | the walk starts with the first root queued and nothing marked |
| `DGraph.DGraph.Traverse` | util/dgraph.c:177-202 | one call is one step of the walk over the ring; it returns what stands at its end in the slot of the node it took, which is another node exactly when the ring overflows |
| `Traversal.Walk.CallMakesProgress` | util/dgraph.c:177-202 | each call that returns a node marks a new one or moves the first unmarked queue entry up |
| `Traversal.Walk.EndIsComplete` | util/dgraph.c:177-202 | at the end of the unbounded walk the marked nodes are exactly those reached from the roots |
| `WalkRing.RingIsExact` | util/dgraph.c:158-202 | the walk over the ring is the unbounded walk after every number of calls if and only if no queue of the unbounded walk reaches the number of slots |
| `WalkRing.ReturnedIsTaken` | util/dgraph.c:191-201 | a call returns the node it took and counted if and only if it does what it does on an unbounded queue |
| `WalkRing.ReturnedAsTakenExactly` | util/dgraph.c:177-202 | a walk that ran to its end returned the nodes it took, call by call, if and only if the ring suffices |
| `WalkRing.OneWayInSuffices` | util/dgraph.c:158-202 | it is on every graph where no two ways lead into a node, counting a place among the roots as a way |
| `WalkRing.RingIsTooSmall` | util/dgraph.c:158-202 | a graph of two nodes on which the first call counts the root, overflows the ring and returns the other node, and the next call returns null: the root is never returned |
| `DGraph.DGraph.WalkAll` | lib/fqlplan.c:1053-1066 | the loop of calls over the ring ends on every graph and the nodes returned are reached ones; the counters count the nodes taken, which are the nodes returned if and only if the ring suffices, and then all nodes that are reached |
| `DGraph.ForestIsWalked` | util/dgraph.c:94-202 | on a graph without cycles in which no two links lead to the same node the ring suffices and every node is reached from the computed roots |
| `SortOrder.SortedIsUnique` | lib/order.c:389-391 | any two sorted arrangements agree place by place up to entries that compare equal |
| `OrderBy.LongRoundTrip` | lib/order.c:226-232 | an integer key read back from the store is the one written |
| `OrderBy.Order.AddRecord` | lib/order.c:210-252 | one entry more, whose keys lie in the store from its index on, the others undisturbed |
| `OrderBy.Order.Compare` | lib/order.c:254-294 | the comparison of the two rows by the first sort expression that tells them apart, reversed where descending |
| `OrderBy.CompareRowsOrder` | lib/order.c:254-294 | a row comes first if and only if some sort expression has the smaller number or padded text there, or the larger where descending, and all before it tie; rows are equal exactly when all tie |
| `OrderBy.SortedNumbers` | lib/order.c:389-391 | sorted by one number means non-decreasing numbers, and non-increasing ones where descending |
| `OrderBy.CompareRowsLaws` | lib/order.c:254-294 | for texts without control bytes the comparison of all keys is a total preorder |
| `OrderBy.Order.Select` | lib/order.c:296-307 | the first entries up to TOP |
| `OrderBy.TopIsWellDefined` | lib/order.c:296-307 | TOP is determined up to equal rows, and no row left out precedes one written |
| `Utf8Text.GetRevByteCount` | lib/scalarfn.c:38-73 | the backward scan over continuation bytes |
| `Utf8Text.Left` | lib/scalarfn.c:183-218 | all branches and failures of LEFT |
| `Utf8Text.Right` | lib/scalarfn.c:220-256 | all branches and failures of RIGHT |
| `Utf8Text.Substring` | lib/scalarfn.c:258-309 | all branches and failures of SUBSTRING |
| `Utf8Text.EncodedIsChar` | lib/scalarfn.c:13-73 | an encoded code point, by section 3 of RFC 3629, is one character of one to four bytes, from which it can be read back |
| `Utf8Text.CharIsEncoded` | lib/scalarfn.c:38-73 | a character is an encoded code point if and only if it is the shortest spelling of one |
| `Utf8Text.LeftTakesCodePoints` | lib/scalarfn.c:183-218 | LEFT of an encoded text is the encoding of its first n code points |
| `Utf8Text.RightTakesCodePoints` | lib/scalarfn.c:220-256 | RIGHT is the encoding of the last n, for n up to the byte length |
| `Utf8Text.SubstringTakesCodePoints` | lib/scalarfn.c:258-309 | SUBSTRING from k, at least 1, is the encoding of n code points from the k-th on |
| `Utf8Text.BytesAreTaken` | lib/scalarfn.c:183-256 | counting bytes, LEFT and RIGHT take bytes; a negative count fails for all three functions |
| `Utf8Text.SubstringTakesBytes` | lib/scalarfn.c:258-309 | counting bytes, SUBSTRING takes bytes, and positions before the text count |
| `Utf8Text.SubstringFromBefore` | lib/scalarfn.c:258-309 | from before the text SUBSTRING takes what is left of the length |
| `Utf8Text.CopyStopsAtZero` | lib/scalarfn.c:183-309 | a copy ends at the first zero byte or at the end of its range |
| `Utf8Text.ForwardPasses` | lib/scalarfn.c:13-36 | from a character position the forward scan moves exactly n characters on |
| `Utf8Text.BackwardPasses` | lib/scalarfn.c:38-73 | and the backward scan exactly n characters back |
| `Utf8Text.LeftTakes` | lib/scalarfn.c:183-218 | LEFT is the first n characters |
| `Utf8Text.RightTakes` | lib/scalarfn.c:220-256 | RIGHT is the last n characters for n up to the byte length |
| `Utf8Text.RightPastTheEnd` | lib/scalarfn.c:232-235 | beyond that it is the text if and only if a zero byte follows the text in memory |
| `Utf8Text.LeftAndRightRebuild` | lib/scalarfn.c:183-256 | the first n and the remaining characters make up the text |
| `Utf8Text.SubstringTakes` | lib/scalarfn.c:258-309 | SUBSTRING from k, at least 1, drops k - 1 characters and takes the next n |
| `Utf8Text.BackwardAcceptsText` | lib/scalarfn.c:38-73 | the backward scan accepts a whole text if and only if it is a sequence of characters |
| `Utf8Text.ForwardAcceptsBlocks` | lib/scalarfn.c:13-36 | the forward scan accepts a whole text if and only if it is a sequence of blocks as long as their first bytes announce |
| `Utf8Text.BlocksAreUnique` | lib/scalarfn.c:13-36 | a text is such a sequence in one way at most |
| `Utf8Text.ScansAgree` | lib/scalarfn.c:183-256 | LEFT and RIGHT of a whole text accept and refuse it together if and only if all its blocks are characters, if it has blocks; RIGHT never accepts what LEFT refuses |
| `Utf8Text.ForwardTrustsLeads` | lib/scalarfn.c:13-36 | a text that LEFT accepts and RIGHT refuses |

## Left out

- Parsing, the command line, reading and writing of CSV and fixed-width files, memory mapping, temporary files, signals and printing.
- LIKE, whose meaning lies in PCRE2; the library sort behind ORDER BY, of which only the comparator and what sortedness determines are modelled.
- Floating-point keys, sums and comparisons, NULL values, row numbers inside groups, string MIN and MAX, UNION casts and subquery records.
- DELETE and UPDATE over joins, LEFT JOIN with further ON conditions, and IF and WHILE blocks.
- Threads, locks and wake-ups: processes are single calls, rings have one producer and one consumer, and runs interleave whole steps.
- Failures of expressions: row predicates, keys and group texts are total functions, and a call that fails for another reason leaves the state open.
- Constant queries in fql_groupby, which stop after one row.
- The false output of fql_hash_join, which the planner never connects (lib/fqlplan.c:280-287); fqlprocess_recycle_buffer, which recycles group after group.
- Records of joins and groups are values: their nodes, and the order in which a process recycles them, appear in RecordStore only, apart from the processes.
- Memory: allocation, reallocation and its failure; counts and lengths are unbounded except where their width decides the result.
- Ring.Fifo.constructor: for rings of at most 2^31 slots, above which fifo_available is not exact.
- Ring.Fifo.Preempted: for rings that were dealt at least two nodes; on a ring of one slot every position is the same.
- Ring.Fifo.NAdd: for a source vector with an element, as its only caller has, and producers that kept the guard; otherwise the transfer counts wrap below zero.
- RecordStore.Store.constructor: for plans that deal at least two nodes to every root ring; a ring of one slot is outside the model.
- RecordPool.TextSurvivesExactly: whether a record in a row of three sources is in fact read after its text's owner went home is not part of this model.
- HashTable.HashMap.NSet: keys are at most as long as the 32-bit length allows, and the number of values stays below the all-ones sentinel.
- FlexStore.Flex.Resize: growing by flex_resize leaves elements unset and is not modelled; no caller grows.
- CheckedArith.AvgIsTruncatedQuotient: a division by zero is a failure here; the source is killed by it.
- JoinSides.AcceptedKeysAreSeparate: for operands without CASE and without leaves that hide what they read.
- HashJoin.Joiner.Call: without the false output and the nodes behind the records.
- CartesianJoin.Scanner.Call: for a root ring that is not short and an output with room when the call begins; what happens otherwise is in FillInbuf and SendRow.
- PlanRuns.BrutePlan.Run: under the same condition, which the schedule looks at before it calls the join.
- UpdateProcess.RouteTurn: for a router of a query that is not constant; an update reads a table.
- GroupProcesses.Grouper.Call: without constant queries.
- OrderBy.Order.Compare: without floating-point sort keys.
- JoinPlan.Query.HashPlanIsBruteForce: for integer and string keys; the key of a floating-point join is its bytes, which is not modelled.
- PlanClear.ProcessGraph.ClearPassive: for chains of passive nodes without a cycle, on which the source would not end.
- DGraph.DGraph.TraverseReset: for a graph with at least one root; without one the source enters whatever lies behind the empty vector.
- ExprKey.MapExpression: constants whose type was not determined add no component at all and are not modelled, nor is the byte-wise flavour of string functions, which no component shows.
- Utf8Text.Substring: with byte-wise counting and a start so far before the text that the length becomes negative the source passes a negative size on; the model fails instead.
