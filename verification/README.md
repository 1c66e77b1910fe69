# KeyQuorum in Dafny

KeyQuorum splits a secret over a tree of people and devices, moves keys
between devices, and keeps an organisation's hierarchy, bridges and outgoing
mail in step. This project models the parts of it whose guarantees hold over
whole runs, and proves them.

- **Shares** (`Field`, `Interpolation`, `Sharing`, `ProactiveRefresh`): share
  arithmetic over any field of characteristic two. Interpolation is proved from
  the field laws; `Field.QuarterIsField` shows that the laws can be met.
- **The key tree** (`KeyTree`, `TreeChanges`, `TreeKeys`, `TreeRuns`,
  `Combination`, `Custody`, `Selection`, `Recovery`): nested splitting, adding, evicting with
  proactive refresh, rebinding, and recovery with its search for enough devices.
- **What recovery misses** (`Completeness`, `PolicyMisses`, `SearchLimit`): under
  a custody policy each node settles on its own best choice, so a recovery can
  fail although some leaves would do; for which trees it never does, and for
  which it does.
- **Transfer** (`Holdings`, `Transfer`, `TransferCommands`, `Identity`): the two-device
  COPY/MOVE protocol as steps with a crash allowed between any two, and the
  meaning of identity ids across all stores. A method's `steps` parameter is
  how many durable steps it gets before the crash.
- **Mail** (`Ring`, `Outbox`, `OutboxRuns`): the slot ring, and an outbox that
  several senders work on at once with claims that lapse.
- **Time** (`Calendar`, `Text`, `Timestamps`): days and civil dates, their text
  and its order. Month lengths follow section 5.7 of RFC 3339.
- **Hierarchy** (`Labels`, `Visibility`, `PublicTrees`, `Merge`, `Projection`,
  `OrgUpdate`, `OrgLetters`, `OrgRuns`, `PrivateBridge`): dotted labels, what one
  person may see, merging published trees, signed restructures from plan to
  receipt, and private bridges.

Tables are maps, a transaction is one step, and a refused transaction changes
nothing. Randomness, freshly drawn ids and keys, clocks, passphrases that open a
slot, and the outcome of a delivery are parameters. A signature is the key that
made it together with what was signed. Values that methods change step by step
are either fields of a class or the result of a method, and a class then carries
the whole run (`TransferCommands.Devices`, `Identity.Fleet`, `Ring.Table`,
`Outbox.Box`, `OrgRuns.Store`, `PrivateBridge.Bridges`).

Where the code and its comments differ, the model follows the code: the merge
of a public tree is documented as never overwriting a sealed share, but it
clears the share when the snapshot brings another hardware key
(`Merge.ShareSurvives`). A row whose parent is outside the snapshot is stored
and then goes with that parent, because the table deletes children with their
parents (`Merge.DropOthers`).

`dafny verify dfyconfig.toml` checks the whole project.

## Model

| member | source | states |
|---|---|---|
| Interpolation.InterpolationRecovers | src/key_tree.rs:1191-1201 | interpolating any t or more points of a polynomial of degree below t at zero gives its constant term, over every field of characteristic two |
| Sharing.RecoverDealing | src/key_tree.rs:1191-1201 | any threshold-many shares of one dealing, at distinct non-zero coordinates, give back exactly the shared secret |
| ProactiveRefresh.RequireDistinctNonzeroXs | src/pss.rs:113-121 | accepts exactly the coordinate lists without zero and without repetition |
| ProactiveRefresh.GenerateZeroDeltas | src/pss.rs:21-49 | succeeds exactly for threshold at least two, a non-empty length and distinct usable coordinates; the deltas are then the values, at exactly those coordinates, of polynomials that share zero |
| ProactiveRefresh.AddSharesAddsPolys | src/pss.rs:57-65 | adding two shares at one coordinate is taking the share, there, of the sum of the two polynomial sets |
| ProactiveRefresh.RefreshPolysShareZero | src/pss.rs:21-49 | whatever coins the holders toss, their blinding polynomials add up to a dealing of zero |
| ProactiveRefresh.RefreshKeepsSecret | src/pss.rs:69-111 | adding a dealing of zero to a dealing leaves threshold and secret as they were |
| ProactiveRefresh.CombinedDeltas | src/pss.rs:90-103 | one round of every holder comes to one delta per coordinate, on the sum of their polynomials |
| ProactiveRefresh.RefreshAmong | src/pss.rs:69-111 | refreshes the array in place exactly when shapes, threshold and coordinates are in order, moving every share onto one common zero-sharing set of polynomials; a refusal changes no share |
| TreeChanges.SplitNode | src/key_tree.rs:244-302 | every active child of every node it makes holds its share of one dealing of the node's own value; the tree has the shape of the spec and gives no id twice |
| TreeChanges.BuildTree | src/key_tree.rs:141-242 | succeeds exactly for a valid spec with distinct labels |
| TreeChanges.ActiveLeaves | src/key_tree.rs:1116-1126 | finds the active children, in order, exactly when they are all leaves |
| TreeChanges.Reseal | src/key_tree.rs:1155-1165 | replaces exactly the listed leaves' shares, in order, and nothing else |
| TreeChanges.RecoverParent | src/key_tree.rs:1116-1144 | from genuine shares the parent's value comes back exactly when enough active leaves are presented and one more fits the coordinates |
| TreeChanges.AddHere | src/key_tree.rs:1096-1178 | under one parent: succeeds exactly under its stated conditions; the re-dealt children share the parent's unchanged value |
| TreeChanges.EvictHere | src/key_tree.rs:1262-1336 | under one parent: succeeds exactly under its stated conditions; the refreshed survivors, still at least threshold many, share the parent's unchanged value |
| KeyTree.Locate | src/key_tree.rs:244-302 | a node of a well-shared tree has a value of its own, and any node sharing that value may take its place without touching the root secret |
| KeyTree.OneValue | src/key_tree.rs:1191-1201 | a well-shared node shares one value only, whichever dealing one looks at |
| KeyTree.ReplaceKeeps | src/key_tree.rs:1096-1178 | exchanging a node for one that stands for it leaves every split node of the tree at its place, sharing the value it shared before |
| TreeKeys.FindExact | src/key_tree.rs:488-502 | where no two places carry the same id or the same name, the search answers with a path exactly when that path leads to the key, and with none exactly when no path does |
| TreeKeys.Exchanged | src/key_tree.rs:1146-1178 | exchanging the node at a path changes what is there and below it, and at every other path leaves what was there |
| TreeKeys.BuiltIsUnique | src/key_tree.rs:141-302 | in a tree built from a spec no two places carry the same id or the same name |
| TreeKeys.StaysUnique | src/key_tree.rs:1096-1178 | a node exchanged for one with the same children, or with one more whose id and name are new, leaves ids and names unique in the whole tree |
| TreeRuns.AddLeafAndReshare | src/key_tree.rs:1096-1178 | with genuine shares under the named parent, adds a leaf with a new id exactly when the name is in use nowhere in the tree, some path leads to the parent, and the parent takes it; the tree shares the same secret, every split node its own unchanged value, ids and names stay unique, and only the named parent changes |
| TreeRuns.EvictAndRefresh | src/key_tree.rs:1262-1336 | with genuine shares of the leaf's siblings, evicts it exactly when some path leads to its parent and that parent lets it go; the tree shares the same secret, every split node its own unchanged value, ids and names stay unique, and only that leaf's activity and its siblings' shares change |
| TreeRuns.RebindLeaf | src/key_tree.rs:1030-1055 | moves the leaf a path leads to by its name to another key exactly when it is active, the old key opened it and the new one is usable; every split node shares its own unchanged value |
| TreeRuns.Run | src/key_tree.rs:1030-1336 | after any sequence of additions, evictions and rebinds the tree shares the original secret and every split node still shares its own value, with ids and names unique throughout; the result is the end of a trace in which each change took effect exactly when allowed and a refused one changed nothing |
| Recovery.ReconstructNode | src/key_tree.rs:642-693 | from genuine shares a success is always the right value; without a policy it comes exactly when the presented active leaves satisfy the nested thresholds; with one, exactly when the node has a pick, which is then reported: of what its children picked, the first choice with enough devices or else the first with the most |
| Recovery.UsedLeavesArePresented | src/key_tree.rs:642-693 | every leaf reported as used is a leaf of the tree that is active, presented and no ghost |
| Recovery.ReconstructPresented | src/key_tree.rs:348-393 | a returned secret comes with leaves that use exactly threshold children at every split, with at least the minimum of distinct devices and, in hardware mode, at most one key on a device; from genuine shares it is returned exactly when the root's pick is such |
| Completeness.SimpleIsGood | src/key_tree.rs:642-760 | where no node that combines several children has one with anything to choose, and choices are within the search limit, the pick is no worse than any acceptable leaves, for all presented leaves and policies |
| Completeness.LenientIsComplete | src/key_tree.rs:642-760 | a policy that lets keys share a device and asks for at most one device is served on every tree, however large |
| Completeness.SharedIsProper | src/key_tree.rs:244-302 | every tree that shares a secret has thresholds that can be met and ask for something, as these results need |
| Completeness.PickDecides | src/key_tree.rs:348-393 | in both cases recovery succeeds if and only if some leaves meet thresholds and policy |
| PolicyMisses.NotSimpleMisses | src/key_tree.rs:642-760 | in every other tree whose leaves have keys of their own, some presented leaves and some policy are refused although other leaves would do |
| PolicyMisses.CompleteExactly | src/key_tree.rs:642-760 | within the search limit recovery is complete for all presented leaves and policies if and only if the tree is of that simple shape |
| PolicyMisses.BuiltApart | src/key_tree.rs:141-302 | a tree built from a spec with distinct hardware keys has its leaves apart, so the condition applies to it |
| PolicyMisses.BuiltMiss | src/key_tree.rs:141-393 | a two-level tree built as the code builds it, all shares presented, that is refused although two of three leaves would do |
| SearchLimit.LimitExactly | src/key_tree.rs:718-760 | over one level of leaves with keys of their own nothing is missed, for all presented leaves and policies, if and only if the choices with the first leaf number at most 100,000 |
| Recovery.SplitChangeRecover | src/key_tree.rs:231-302 | split, change in any way, recover: the tree is the one the changes lead to, recovery succeeds exactly when its nested thresholds are met, and returns the original secret |
| Combination.NextCombination | src/key_tree.rs:786-806 | steps in place to the lexicographic successor among all combinations, or reports and keeps the last one |
| Combination.ListCombinations | src/key_tree.rs:786-806 | repeated from the first indexes it lists every k-subset exactly once, in lexicographic order |
| Combination.CombinationsAreAll | src/key_tree.rs:786-806 | the reference set holds every k-subset of n and nothing else |
| Combination.CombinationCount | src/key_tree.rs:726-730 | the number of k-subsets is the binomial coefficient, which the search limit is compared with |
| Selection.PickIndexed | src/key_tree.rs:772-784 | removing by swapping the last element in, from the highest index down, yields exactly the children at the chosen indexes, in order |
| Selection.TakeIndexed | src/key_tree.rs:772-784 | shares and leaves of exactly the chosen children, in order |
| Selection.Search | src/key_tree.rs:718-759 | of the subsets it comes to before the limit of 100,000, whatever their number, the first acceptable one with enough devices comes out, or else the first with the most; there is one exactly when some subset is acceptable, and a refusal names custody exactly when custody refused one |
| Selection.WinsOnce | src/key_tree.rs:718-759 | that choice is unique |
| Selection.AllReached | src/key_tree.rs:726-730 | with no more subsets than the limit the search comes to all of them |
| Selection.SelectChildSubset | src/key_tree.rs:706-760 | returns exactly threshold children with their shares and leaves in order; without a policy the first ones, and exactly when there are enough |
| Custody.ClassifyDevices | src/device.rs:546-588 | succeeds exactly when no leaf is a ghost and hardware mode sees no two keys on one device; one group for each distinct device, with its keys and labels |
| Custody.EnforceDevices | src/device.rs:531-542 | succeeds exactly when classification does and the distinct devices reach the minimum |
| Transfer.AlwaysUsable | src/transfer.rs:413-473 | in every valid state each included label can be opened on the source or on the destination |
| Transfer.GhostMeansScrubbed | src/transfer.rs:1118-1199 | in every valid state a row that is a ghost belongs to a move whose included slots are all gone from the source |
| Transfer.RowsMean | src/transfer.rs:1074-1199 | in every valid state an included identity is a ghost on the source if and only if a move is finished there; in a copy, and for every label not included, possession and generation are as at the start, on the destination too |
| Transfer.CommitKeeps | src/transfer.rs:801-840 | unless a stored generation is ahead of the package, committing keeps the invariant if and only if no included label is taken on the destination by another key |
| Transfer.CompletedMeans | src/transfer.rs:1000-1113 | a completed transfer is wholly on the destination, and a completed move nowhere else |
| Transfer.NothingLostYet | src/transfer.rs:1204-1219 | before the destination commits the source has lost no slot |
| TransferCommands.InstallAll | src/transfer.rs:743-799 | however it ends, every slot written is in the write-ahead list and every entry and slot cost one step; a finished write holds every included key, or as many new slots as the limit allows |
| TransferCommands.Uninstall | src/transfer.rs:1231-1256 | taking the logged installs away, a step for each, leaves exactly the slots the destination started with |
| TransferCommands.ScrubMovedSlots | src/transfer.rs:1204-1219 | deletes only moved slots, a step for each, and all of them when it is not cut short |
| TransferCommands.RaiseGenerations | src/transfer.rs:1146-1173 | each included generation on the destination becomes the larger of its own and what the source records next, or still has its own if cut short; no other changes |
| TransferCommands.Prepare | src/transfer.rs:503-653 | refuses exactly when some included slot does not open under its key; then nothing changes |
| TransferCommands.StageDestination | src/transfer.rs:655-719 | refuses exactly a package that is known here, not admitted or older than a stored generation; any other it stages, unless cut short |
| TransferCommands.WriteDestinationSlots | src/transfer.rs:723-799 | keeps the invariant at every crash point; a complete write leaves every included key in its slot; with every passphrase and no conflict it does not refuse |
| TransferCommands.CommitDestinationRows | src/transfer.rs:801-840 | exact condition of refusal; a commit takes the generations that were sent; after it the invariant holds if and only if no included label was already under another key |
| TransferCommands.Acknowledge | src/transfer.rs:842-851 | only a committed destination acknowledges, and only its row changes |
| TransferCommands.AcceptPackage | src/transfer.rs:881-966 | an acknowledgement exists only after everything is committed, at the generations that were sent; an earlier attempt is picked up, an aborted one refused, and a welcome new one is never refused |
| TransferCommands.RetireSourceMaterial | src/transfer.rs:1118-1199 | refuses exactly while the destination is not committed; cut short at any point it has deleted only slots the destination holds and retired no row; done, the source is finished, which with the invariant makes the moved rows ghosts and no other |
| TransferCommands.FinalizeSource | src/transfer.rs:1000-1020 | ends completed on both sides, with ghosts exactly for what was moved, and after a move with generations that let the identities move back |
| TransferCommands.FinalizeAfterAck | src/transfer.rs:1040-1113 | a mismatching acknowledgement never deletes a slot; a matching one completes the source alone, with ghosts exactly for what was moved; after a move the identities can move back if and only if the destination already recorded generations as high as the source's next ones |
| TransferCommands.AcknowledgedMove | src/transfer.rs:881-1113 | prepare, accept, finalize on the acknowledgement: with nothing in the way the move completes, and can be undone by a move back if and only if every generation was already the largest |
| TransferCommands.AcknowledgedMoveStays | src/transfer.rs:1040-1113 | a concrete identity moved by acknowledgement that cannot move back |
| TransferCommands.AbortTransfer | src/transfer.rs:1231-1256 | refused exactly once the destination has committed; otherwise the destination ends with its original slots |
| TransferCommands.RecoverPair | src/transfer.rs:1278-1325 | from every valid state one recovery that is not itself cut short ends completed, aborted or with the administrator, and another one then changes nothing |
| TransferCommands.DirectTransfer | src/transfer.rs:413-473 | with every slot opening, nothing in the way and enough steps it succeeds; success completes both sides with every key on the destination; every refusal leaves both sides' slots as they were |
| TransferCommands.ConflictPassesLabelCheck | src/transfer.rs:816-824 | the commit's check looks at labels only: a state where it passes although the slot holds another key |
| TransferCommands.Devices.Execute | src/transfer.rs:413-1325 | one command of the eleven, cut off anywhere: it is refused exactly under its conditions, leads where it should when carried through, and is never cut off with enough steps; the invariant holds, commitment is never undone, and a source slot disappears only in a move whose keys are all on the committed destination |
| TransferCommands.Devices.Run | src/transfer.rs:413-1325 | after any mix of commands, retries, aborts and recoveries, each cut off at any step, every included identity can still be opened somewhere; the result is the end of a trace in which each command did what it does |
| Identity.ClassifyIncoming | src/transfer.rs:1468-1495 | a conflict is reported exactly when label or id already mean something else in this store |
| Identity.ApplyEntry | src/transfer.rs:1497-1567 | succeeds exactly for entries that fit; a secret makes its row active at the entry's generation, a hint adds a ghost or leaves the known row; labels stay unique, no row changes whom it stands for, no generation falls |
| Identity.ApplyEntries | src/transfer.rs:826-838 | all entries or none; of entries with different ids and labels all are taken exactly when each fits the store, then a secret's row is active at its generation, a hint adds a ghost or leaves a known row, and every other row is as it was; the store goes on agreeing with everybody else about every id |
| Identity.Enroll | src/transfer.rs:242-279 | an enrolled label keeps its id, a label under other keys is refused, a new one gets the drawn id at generation one |
| Identity.Retire | src/transfer.rs:1146-1173 | succeeds exactly when every label is known; after a move each named row is a ghost one generation on for each time it is named, as far as generations go, the same ids on the destination have caught up, and every other row is as it was |
| Identity.DoPack | src/transfer.rs:503-653 | a package describes exactly the chosen rows, secrets first and then hints, as the store has them |
| Identity.DoTake | src/transfer.rs:801-840 | taking a package does to one store what its entries say, all or none, and touches nothing else |
| Identity.DoFinish | src/transfer.rs:1118-1199 | finishing with both stores at hand retires the named rows of the one, raises the other, and touches no third store |
| Identity.DoFinishAlone | src/transfer.rs:1074-1112 | finishing on the source alone retires its rows in the same way, all or none, and touches no other store |
| Identity.OneMeaning | src/transfer.rs:242-279 | an id stands for one label and one key pair in every store and every package, and a label for one id in a store |
| Identity.Fleet.Run | src/transfer.rs:242-279 | in any run of enrolments, packages, takings and finishings, with the destination or on the source alone, over any number of stores and in any order, ids keep their meaning and no generation of any store falls; the result is the end of a trace in which each action did what it does |
| Ring.PushedOk | src/ring.rs:86-96 | a push keeps the pointers consistent and appends to the span, into a slot that was outside it |
| Ring.ReleasedOk | src/ring.rs:100-136 | releasing any slot loses no other held slot and moves the head past exactly the leading released ones |
| Ring.NoReuseBeforeEarlier | src/ring.rs:100-136 | while an earlier slot is not released, no sequence of pushes, releases and resizes writes a later one again: the span keeps both, in order |
| Ring.ReachableOk | src/ring.rs:68-167 | after any operations on an empty ring write = (read + size) mod capacity, all held slots lie in the span and the head is held when it is not empty |
| Ring.Table.Push | src/ring.rs:86-96 | takes a slot exactly when there is room and appends it to the span |
| Ring.Table.Release | src/ring.rs:100-136 | the loop over the read pointer ends, in the state the specification of a release describes |
| Ring.Table.Resize | src/ring.rs:154-167 | changes the number of slots exactly when the ring is empty |
| Outbox.Box.Queue | src/outbox.rs:496-527 | appends the letter, unclaimed, exactly when there is room |
| Outbox.Box.ClaimHead | src/outbox.rs:670-715 | hands out the head's letter exactly when its claim is free, lapsed or taken over, and marks it with the new token |
| Outbox.LeaseLasts | src/outbox.rs:587-600 | a claim made at one instant keeps others from the head exactly until 120 seconds later, unless they take over |
| Outbox.Box.FreeIfOurs | src/outbox.rs:744-770 | frees the head as sent exactly when it still carries this sender's token |
| Outbox.Box.Unclaim | src/outbox.rs:725-733 | no slot carries the token any more; letters, their order and every other claim are as they were |
| Outbox.Box.DropHead | src/outbox.rs:786-806 | discards the head, uncounted, exactly when its claim is free, lapsed or taken over |
| Outbox.Box.List | src/outbox.rs:562-570 | the held letters, oldest first |
| OutboxRuns.EveryInterleaving | src/outbox.rs:496-806 | in every interleaving of queueing, claiming, delivering, freeing, giving up and dropping, letters leave in push order, pushed = sent + dropped + held, and each letter counted as sent was delivered by the one sender that freed it |
| OutboxRuns.OnlyTheCurrentClaimFrees | src/outbox.rs:744-770 | a sender frees a letter if and only if its claim is still on the head, which then is the very letter it was handed |
| Calendar.CivilOfDays | src/provider.rs:444-456 | a date's day number converts back to the date, for all dates |
| Calendar.DaysOfCivil | src/provider.rs:405-456 | every day number converts to a real date and back |
| Calendar.CivilSteps | src/provider.rs:444-456 | the next day number is the next day, before the epoch as well |
| Calendar.CivilIsStepped | src/locked_files.rs:288-300 | the conversion equals stepping day by day from 1970-01-01 under the repository's own month lengths and leap years |
| Calendar.CivilMonotone | src/provider.rs:444-456 | later day numbers are later dates |
| Calendar.CutExact | src/provider.rs:444-456 | the cast of the year changes the date exactly when the year does not fit 32 bits |
| Timestamps.RoundTrip | src/provider.rs:394-441 | parsing a formatted minute gives back the seconds less the seconds of the minute if and only if the instant lies before the first year that does not fit 32 bits |
| Timestamps.ExpiryAcceptsFormatted | src/locked_files.rs:138-171 | the expiry parser accepts every formatted timestamp of the years 1970 to 9999 and returns it unchanged |
| Timestamps.ExpiryExactly | src/locked_files.rs:138-171 | the expiry parser accepts a text exactly when it writes a real date of the years 1 to 9999 and a time of day, with or without seconds, and returns the full text with seconds |
| Timestamps.ExpiryIdempotent | src/locked_files.rs:138-171 | what the expiry parser returns it would return again |
| Timestamps.TextOrderIsTimeOrder | src/provider.rs:89-111 | for the years 1970 to 9999 comparing the texts is comparing whole minutes, equality included |
| Timestamps.TextOrderExact | src/provider.rs:89-111 | of instants whose years fit 32 bits, text order is minute order if and only if the years have equally many digits or the shorter year is no greater than the leading digits of the longer one |
| Timestamps.OrderLimit | src/provider.rs:89-111 | every pair of instants below a bound sorts by its text if and only if the bound is at most the end of 9999 |
| Timestamps.FiveDigitsBreakTheOrder | src/provider.rs:89-111 | the very next minute, in year 10000, sorts before the last one of 9999 |
| Labels.AncestryIsParentSteps | src/authority.rs:95-100 | the distance is n exactly when n parent steps lead there |
| Labels.AncestryIsReachability | src/authority.rs:54-64 | the string-prefix test is reachability by the parent function |
| Labels.ParentIsOneStep | src/authority.rs:89-91 | a direct parent is an ancestor at distance one |
| Labels.DeepestShared | src/authority.rs:105-116 | the lowest common ancestor covers both labels, every other common ancestor covers it, and none means there is none |
| Labels.RelationshipIsDual | src/authority.rs:154-173 | seen from the other end descendant and ancestor swap with equal depth, and the other answers are the same, the common ancestor included |
| Labels.StrictDescendantAgrees | src/transfer.rs:1763-1768 | the transfer module's own descendant test is the strict ancestor test |
| Visibility.WalkAncestors | src/key_tree.rs:1739-1757 | adds exactly the lineage, ends even on a parent loop, and reports growth exactly when something was new |
| Visibility.AddDescendants | src/key_tree.rs:1759-1775 | adds exactly the labels that a path down from the start reaches past nothing visible before |
| Visibility.VisitSeed | src/key_tree.rs:1706-1720 | in a forest it adds exactly the seed's lineage and siblings and what lies below it with nothing visible in between |
| Visibility.VisibleFromMaps | src/key_tree.rs:1700-1737 | terminates for all maps; in a forest the result is the least link-closed set with everything a seed touches or exposes, and nothing the seeds' lineages, descendants, siblings and links do not call for; these are all there if nothing below a seed is hidden by an earlier one, and without links only if |
| Visibility.UpperFirstHidesNothing | src/key_tree.rs:1706-1720 | nothing is hidden when no seed lies below a later one, as with one seed, with leaves, and with seeds from the top down |
| Visibility.OrderMatters | src/key_tree.rs:1706-1720 | two seeds that see a label in one order and miss it in the other |
| Visibility.LinkOrderIsIrrelevant | src/key_tree.rs:1721-1735 | the order and repetition of links make no difference |
| Visibility.SliceSeesItself | src/key_tree.rs:1777-1800 | on the tree cut down to what the seeds see, they see exactly that again |
| PublicTrees.VisibleInPublicTree | src/key_tree.rs:1680-1698 | the same sets, computed over a published tree, under the same condition |
| PublicTrees.SliceForKey | src/relay/org_tree.rs:178-192 | the slice for a key is cut to what the nodes carrying it see, or absent when nobody does; a tree that lists parents before children shows them all they should see |
| PublicTrees.CarriersUpperFirst | src/relay/org_tree.rs:178-192 | with parents listed first, no node carrying the key comes after one below it |
| PublicTrees.ChildlessUpperFirst | src/key_tree.rs:1680-1720 | seeds that nobody names as their parent, as with leaves, hide nothing from each other |
| PublicTrees.SliceShowsTheSame | src/key_tree.rs:1777-1800 | filtering a well-formed tree by what the seeds see leaves a well-formed tree that keeps the seeds and shows them the same set |
| Merge.MergeNodes | src/key_tree.rs:1867-1886 | the loop terminates on every snapshot and succeeds exactly when the parents form no cycle and every node is storable with its outside parent stored; then every node is in place and no other row changed |
| Merge.StorableMeans | src/key_tree.rs:1966-2000 | what keeps a node from being stored, spelled out on its fields and the row already there |
| Merge.StoredAsListed | src/key_tree.rs:1966-2030 | after an accepted snapshot every listed node with its lineage in the snapshot is stored under the listed parent, with the listed threshold and activity, and the listed key; its sealed share is the one it had under that key before, if any |
| Merge.StuckIsCyclic | src/key_tree.rs:1882-1884 | a pass without progress means a cycle |
| Merge.DeleteRow | src/db/schema.sql:72-87 | a delete takes with it exactly the rows whose lineage holds the deleted one |
| Merge.DropOthers | src/key_tree.rs:1888-1899 | what stays are exactly the rows with their whole lineage in the snapshot |
| Merge.ApplyPublicTree | src/key_tree.rs:1813-1937 | taken exactly when it is acceptable, as a whole; an older generation is refused as stale |
| Merge.ClosedSnapshotIsStored | src/key_tree.rs:1863-1899 | with every parent in the snapshot, stored labels and parents are exactly the snapshot's |
| Merge.ShareSurvives | src/key_tree.rs:2000-2014 | a sealed share survives if and only if its node stays and its key is not replaced, and then beside the same key |
| Merge.NoNewShare | src/key_tree.rs:2000-2028 | no share appears that was not there |
| Projection.ProjectLocal | src/key_tree.rs:1804-1809 | succeeds exactly for labels of the tree; what is left are the visible rows, each with its sealed share as it was |
| OrgUpdate.TakeLetter | src/org_update.rs:1160-1214 | takes a letter exactly when it is about this recipient and key, newer than the store and mergeable; then one tree, one generation and one log line change |
| OrgUpdate.NeverLogged | src/org_update.rs:1473-1506 | a generation newer than the tree is never in the log, so the unique index never has to refuse |
| OrgUpdate.VerifiedExactly | src/org_update.rs:895-969 | the checks on a letter pass exactly when its key is held here and somebody reached by going up from the recipient, with one known key, signed it for that key |
| OrgUpdate.ImportTreeUpdate | src/org_update.rs:895-969 | takes effect exactly when a root label above the recipient signed it for this recipient key |
| OrgUpdate.ImportTreeProposal | src/org_update.rs:971-1003 | files a proposal exactly under its conditions; trees, generations and log stay as they were |
| OrgUpdate.ImportCountersigned | src/org_update.rs:1005-1022 | takes effect exactly when the signer's direct parent signed the same letter, signature and recipient key; the waiting proposal is gone |
| OrgUpdate.CommitRestructure | src/org_update.rs:746-815 | a root's plan moves the tree on by one exactly when nobody did since; anybody else's is only filed, each letter once, exactly when none of them waits already |
| OrgUpdate.SignedIsLawful | src/org_update.rs:665-815 | a root's own plan has the authority a receiver would ask of each of its letters |
| OrgUpdate.RecipientKeyExactly | src/private_bridge.rs:1082-1107 | a label is reached by the key of its active leaf, or without one by its only known key, and by no other |
| OrgUpdate.PlanCountersign | src/org_update.rs:1026-1090 | succeeds exactly when the actor may countersign every waiting proposal; one envelope for each, carrying the two signatures a store with the same directory asks for |
| OrgUpdate.CommitCountersign | src/org_update.rs:1092-1139 | moves the tree on by one exactly when nobody did since, and clears its waiting proposals |
| OrgUpdate.BackedIsLawful | src/org_update.rs:1026-1139 | an own countersigning has the authority a receiver would ask of each of its envelopes |
| OrgLetters.PlanRestructure | src/org_update.rs:665-741 | one signed letter to each active leaf the signer stands over, showing exactly what that leaf may see, itself and its key included; the others are listed as skipped |
| OrgLetters.AnnounceAndDeliver | src/org_update.rs:665-969 | end to end: a root plans, and any letter of the plan is taken by a store that awaits it, which then holds exactly the slice it was sent |
| OrgLetters.ProposeCountersignDeliver | src/org_update.rs:665-1139 | end to end: a plan is filed, its parent countersigns every letter, and each is taken by a store that awaits it, which then holds exactly the slice |
| OrgRuns.Step | src/org_update.rs:895-1139 | an event takes effect exactly under its conditions and otherwise changes nothing; whatever happens, generations do not fall, and a tree changes by an update only with lawful signatures, its own commits included, and to a strictly newer generation |
| OrgRuns.Store.Execute | src/org_update.rs:895-1139 | every event takes effect exactly under its conditions and otherwise changes nothing; a proposal changes neither tree nor log; an applied restructure raises its tree's generation |
| OrgRuns.Store.Run | src/org_update.rs:895-1139 | over any run the applied generations of each tree rise strictly, and each applied restructure, own commits included, was signed by a root above every recipient, or by somebody above them and that signer's direct parent; the result is the end of a trace in which each event did what it does |
| PrivateBridge.FillImpliedSupervisors | src/private_bridge.rs:1167-1183 | accepts exactly when every member's direct parent is named, and keeps nobody in two roles |
| PrivateBridge.SupervisorsFor | src/private_bridge.rs:1185-1204 | exactly the parents the members lack among themselves, as far as they were on the old roster, with their old keys |
| PrivateBridge.UniqueMembers | src/private_bridge.rs:1121-1146 | accepts exactly lists of named, distinct parties with signing keys |
| PrivateBridge.PackagesForRoster | src/private_bridge.rs:1345-1410 | one envelope to each party; members' carry the secret, supervisors' do not |
| PrivateBridge.PlanCreate | src/private_bridge.rs:264-319 | exact condition of success; the roster has two or more members with every direct parent on it, each party with the keys it was listed with |
| PrivateBridge.StillCovered | src/private_bridge.rs:1185-1204 | after a removal every remaining member's direct parent is still on the roster |
| PrivateBridge.PlanRemoveMember | src/private_bridge.rs:544-697 | exact condition of success; exactly one envelope to every party of the old roster; rotates while two members remain and otherwise ends |
| PrivateBridge.RemovedLearnsNothing | src/private_bridge.rs:626-673 | the removed member gets exactly one envelope, without the new secret |
| PrivateBridge.CommitRemoval | src/private_bridge.rs:702-787 | goes through exactly when the bridge is live and still at the planned generation; then a rotation stores exactly the reduced roster, without the removed member, one generation on, with the new secret sealed to the local member alone; an ending keeps roster and generation and holds no sealed secret; no other bridge changes |
| PrivateBridge.CommitCreation | src/private_bridge.rs:321-353 | stores the planned roster at generation one exactly when the bridge is new; no other bridge changes |
| PrivateBridge.Bridges.Execute | src/private_bridge.rs:702-787 | a removal that goes through was worked out from the roster the bridge still has, and leaves that roster without the removed member |
| PrivateBridge.Bridges.Run | src/private_bridge.rs:264-787 | in any run of plans and commits, however interleaved, live bridges keep two members and their parents, destruction is final, generations only rise, and no bridge ever gains a party; the result is the end of a trace in which each plan was made exactly when allowed and carried out exactly when it still fitted |
| PrivateBridge.Bridges.Plan | src/private_bridge.rs:264-697 | adds the plan that was asked for, worked out from the bridge as it is, exactly when it may be made |

## Left out

- Ciphers, hashes, key derivation and randomness: sealing, signatures and fresh values are symbolic; nothing is claimed about secrecy or probability, such as an evicted share becoming noise.
- SQL text, migrations, file formats, byte codecs, the command line, the network relay and its workers.
- The 256-element byte field itself: the share arithmetic holds for every field of characteristic two, with the dealer's coordinates a list of distinct non-zero elements.
- `src/file_history.rs`, `src/vault.rs`, `src/pin.rs`, `src/sharing.rs`, `src/access.rs`, `src/keys.rs`: small guards or parts whose logic lies elsewhere.
- Transfers with both sides in one store: the single row changes role, so the two-store invariant does not apply.
- Two transactions for one label at a time, commands on one device that interleave, and a crash inside the installing or removing of a single slot: the transfer model excludes these.
- Key reissue letters, and the coordinator's own dropping of bridge members, which neither rotates the secret nor keeps the parents on the roster.
- Importing bridge packages in the other parties' stores.
- Bindings between sibling leaves, established bridges as rows of the key tree proper, and recovery from a lowest common ancestor instead of the root.
- TreeChanges.BuildTree: the validation of the specification's allowed bridges is not modelled.
- TreeRuns.EvictAndRefresh: the removal of the evicted leaf's bindings and bridges is not modelled.
- TreeRuns.Run: a change for which, under the parent that changes, other bytes than the leaves' current shares are presented is passed over, and so is a new leaf with an id already in use, since the code draws a new one; the code cannot tell such bytes from genuine ones before it uses them.
- Completeness.SimpleIsGood: needs every node's choices within the limit of the search. Past it the exact condition is stated for one level of leaves (`SearchLimit.LimitExactly`), not for nodes that combine larger parts, where it depends on how many leaves each part has.
- PolicyMisses.CompleteExactly: stated for leaves with hardware keys of their own. Leaves under one key never crowd each other, so a tree with repeated keys may be complete without being simple.
- TransferCommands.Prepare: refusals that come from authorisation or from the choice of what to export are not modelled; what is left is whether each included slot opens.
- TransferCommands.RetireSourceMaterial: the branch for two rows whose package hashes differ is not modelled; both rows belong to one package here.
- TransferCommands.Devices.Run: a stand-alone commit is part of the run only while no included label is taken by another key; `TransferCommands.CommitDestinationRows` says what it does otherwise.
- TransferCommands.RecoverPair: the comparison of the two rows' package hashes is not modelled; a row that is already with the administrator stays there.
- Merge.ApplyPublicTree: hardware keys are already resolved to row ids, so unknown fingerprints and malformed keys are not modelled; labels within one tree are unique.
- OrgUpdate.ImportTreeUpdate: which of the authority checks failed is not told apart in the error.
- OrgUpdate.RecipientKeyExactly: the revocation of a leaf's hardware key is not modelled; a leaf has a key or has none.
- PrivateBridge.UniqueMembers: weak or malformed public keys are not modelled.
- PrivateBridge.PlanCreate: weak or malformed public keys are not modelled; the 32-bit generation is unbounded here.
- Identity.Enroll: a freshly drawn id is one nobody has; the chance of a collision is not modelled.
- Timestamps.TextOrderExact: stated for years that fit 32 bits; from then on the code cuts the year, and what order the cut years come in is not stated.
