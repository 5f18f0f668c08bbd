# FP-Growth frequent-itemset miner in Dafny

This project models the FP-Growth miner of `107062303_hw1.cpp` and proves its
properties. The miner reads a transaction database and a threshold
`min_support_count`. It counts every item and keeps the frequent ones, those
whose count is at least the threshold. It drops the other items from every
transaction, and then drops the transactions left empty. It sorts each
transaction by descending count, with ties broken by the smaller item. It then
inserts the transactions into an FP-tree, a prefix tree whose nodes count the
transactions sharing their root path. Nodes with the same label are threaded
on a cross-link chain, whose head and tail sit in the header table. To mine
an item `x`, it collects the label sets of the root paths of `x`'s nodes. It
builds a conditional tree from those paths and collects `x`'s paths again in
that tree. Every subset of each path, with `x` added, gains the path's
weight. Finally it erases the patterns below the threshold. `mine_all` mines
a strided share of the frequent items and merges the results.

The model has six modules:

- `Ordering` (`ordering.dfy`): items and patterns, `FrequencyCmp`,
  `PatternCmp`, the ascending enumeration of a `std::set`, and the
  transaction sort.
- `Transactions` (`transactions.dfy`): occurrence counts, the frequent-item
  filter, `exclude_non_frequent_items` as pure functions, and prefix counts.
- `Patterns` (`patterns.dfy`): `combinations_with`, `expand_all_combinations`,
  `erase_infrequent_patterns` and `std::map::merge`.
- `Arena` (`arena.dfy`): the tree's nodes and `add_item_to_child`. It also
  holds the invariants of the tree, the cross-link chains and the header
  table, and the lemmas about one step of `construct_fp_tree`.
- `Scheduling` (`scheduling.dfy`): the strided partition of `mine_all`.
- `FPTrees` (`fptree.dfy`): the class `FPTree`, whose methods update its
  fields as the C++ class does.

Pointers become indices into an arena. The arena is a sequence of
`TreeNode` values held by the tree, with the root at index 0 and
`nullptr` as `NIL` (-1). Nodes are only appended, so a node's parent, its
earlier siblings and the earlier nodes of its chain all have smaller indices.
Two ghost fields describe the tree's structure: the child list of every node
(`kids`), and the node of every root path (`pathIndex`).

Three `operator[]` lookups insert a default entry when the key is missing, and
the model writes that insertion out (`item_counter` is a `std::unordered_map`,
`header_table` a `std::map`):

- `item_counter[x]` in `get_key` inserts a count of 0.
- `header_table[key]` in `find_all_pattern_paths` inserts an empty entry.
- `header_table[key]` in `construct_fp_tree` also inserts an empty entry.

The model states each lookup's new map exactly (`WithDefault`,
`TableWithDefault`) and proves that none of these insertions changes a key, a
chain or the tree. The comparator of `sort_transaction_items` reads counts with the same
default of 0.

`is_frequent` is the predicate `FPTrees.FPTree.IsFrequent`, which tests
membership in `frequent_items`. `BuildHeaderTable` uses it.

In a few places the code departs from the usual FP-Growth formulation, and the
model follows the code:

- `mine_all` visits the frequent items in ascending item order, because it
  copies a `std::set<Item>`. The usual formulation mines the items in
  frequency order.
- A conditional tree sorts its transactions by its parent's counts, not its
  own.
- `std::map::merge` keeps the existing entry when a key collides, rather than
  reporting the collision; the model keeps that behaviour (`MergeAllFirst`).
- Mining does not clone the tree. `mine` builds a fresh conditional tree from
  the collected paths. The only change to the mined tree is the
  default-inserting lookups above.
- The threshold is one absolute `min_support_count`, passed unchanged to
  every conditional tree.
- The relative `min_support` is stored in every tree (`FPTree.minSupport`)
  and passed on to each conditional tree, but nothing reads it, as in the
  source. No contract depends on it.

## Model

| member | source | states |
|---|---|---|
| Ordering.FrequencyLessIsStrictTotalOrder | 107062303_hw1.cpp:24-33 | `FrequencyCmp` is irreflexive, asymmetric and transitive, and it orders any two distinct keys one way or the other |
| Ordering.FrequencyLessKeys | 107062303_hw1.cpp:26-31 | a higher count comes first; at equal counts the smaller item comes first; two keys ordered neither way are equal |
| Ordering.WithDefault | 107062303_hw1.cpp:284-286 | `item_counter[x]` adds `x` to the counter's keys (with count 0 when missing) and leaves the key `get_key` gives every item unchanged |
| Ordering.WithDefaultsKeys | 107062303_hw1.cpp:284-286 | reading `item_counter[x]` for each `x` of a list adds exactly those items as keys and changes no item's key; when every item is already counted it changes nothing |
| Ordering.WithDefaultsSnoc | 107062303_hw1.cpp:284-286 | one more lookup extends the sequence of lookups by one `WithDefault` step |
| Ordering.KeyOfInjective | 107062303_hw1.cpp:288-290 | `frequent_than` orders any two distinct items one way or the other, so a sort by it has a single sorted result |
| Ordering.PatternLessIsStrictTotalOrder | 107062303_hw1.cpp:42-49 | `PatternCmp` (size first, then lexicographic on ascending items) is a strict total order |
| Ordering.PatternEquivalenceIsEquality | 107062303_hw1.cpp:42-49 | two patterns `PatternCmp` cannot tell apart are equal, so a `FrequentPatterns` map is keyed by set equality |
| Ordering.PatternMinExists | 107062303_hw1.cpp:42-49 | every non-empty set of patterns has a `PatternCmp`-least member, the first key a map iteration visits |
| Ordering.Elems | 107062303_hw1.cpp:158 | iterating a `std::set` from `cbegin` to `cend` yields each item once, in strictly ascending order |
| Ordering.ElemsInjective | 107062303_hw1.cpp:387 | distinct patterns become distinct transactions in the conditional base |
| Ordering.SortByFrequency | 107062303_hw1.cpp:344-345 | sorting a transaction gives a permutation of it, with no item followed by one that `frequent_than` puts before it |
| Ordering.SortedPermutationUnique | 107062303_hw1.cpp:344-345 | two sorted permutations of one transaction are equal, so whatever algorithm `std::sort` uses, its result is `SortByFrequency` |
| Ordering.SortSameKeys | 107062303_hw1.cpp:344-345 | two counters that give every item the same key sort every transaction alike, so the default insertions of mining do not change a later sort |
| Transactions.CountItems | 107062303_hw1.cpp:303-307 | the counter's keys are exactly the items that occur, and each value is the item's number of occurrences across all transactions, which is positive |
| Transactions.ItemsOfIffOccurs | 107062303_hw1.cpp:303-307 | an item is a key of the counter exactly when it occurs in some transaction |
| Transactions.CountItemsSnoc | 107062303_hw1.cpp:305 | `item_counter[item]++` after scanning one more item raises that item's count by one (from an implicit 0) and changes no other |
| Transactions.FrequentOfDatabase | 107062303_hw1.cpp:302-313 | an item is frequent exactly when it occurs in the database and its number of occurrences is at least `min_support_count` (inclusive, unrounded) |
| Transactions.FrequentOfAntitone | 107062303_hw1.cpp:308-312 | raising the threshold only removes frequent items |
| Transactions.KeepFrequent | 107062303_hw1.cpp:326-329 | after `remove_if(!is_frequent)` a transaction holds only frequent items |
| Transactions.KeepFrequentCounts | 107062303_hw1.cpp:326-329 | the filter keeps every occurrence of a frequent item and no occurrence of another item |
| Transactions.KeepFrequentAppend | 107062303_hw1.cpp:326-329 | the filter keeps relative order: filtering a concatenation filters each part in place |
| Transactions.DropEmpty | 107062303_hw1.cpp:333-336 | no transaction left after `remove_if(empty)` is empty |
| Transactions.DropEmptyCounts | 107062303_hw1.cpp:333-336 | every non-empty transaction survives as often as it occurred, and no empty one does |
| Transactions.DropEmptyAppend | 107062303_hw1.cpp:333-336 | dropping empty transactions keeps the survivors' relative order |
| Transactions.ExcludedIsFrequentAndNonEmpty | 107062303_hw1.cpp:323-337 | after `exclude_non_frequent_items` every transaction is non-empty and holds only frequent items |
| Transactions.SortAll | 107062303_hw1.cpp:339-357 | every transaction is replaced by a sorted permutation of itself, and the number of transactions is unchanged |
| Transactions.SortAllSameKeys | 107062303_hw1.cpp:339-357 | sorting the database by two counters that give every item the same key gives the same transactions |
| Transactions.PrefixCountWitness | 107062303_hw1.cpp:361-379 | a positive prefix count has a transaction that begins with the prefix |
| Transactions.PrefixCountBounds | 107062303_hw1.cpp:361-379 | no prefix is shared by more transactions than there are, and the empty prefix is shared by all |
| Transactions.PrefixCountAntitone | 107062303_hw1.cpp:361-379 | extending a prefix can only lower its count, so a child never counts more than its parent |
| Patterns.AddWeight | 107062303_hw1.cpp:160 | `fp[pattern] += w` adds `pattern` as a key with its old weight (0 if absent) plus `w`, and leaves the other entries alone |
| Patterns.AddWeightSum | 107062303_hw1.cpp:405 | adding `w` to one entry raises the sum of all weights by `w` |
| Patterns.CombinationsWith | 107062303_hw1.cpp:130-150 | `combinations_with` appends to `patterns` exactly the list `Combos` and leaves the earlier entries in place |
| Patterns.CombosMembers | 107062303_hw1.cpp:130-150 | a pattern is pushed exactly when it is `current_pattern` extended by `k` items of the range other than `x` |
| Patterns.CombosFromMembers | 107062303_hw1.cpp:139-149 | the loop over the range for `k > 0` pushes exactly the extensions of `current_pattern` by `k` items of the range other than `x` (both directions) |
| Patterns.CombosDistinct | 107062303_hw1.cpp:130-150 | `combinations_with` never pushes the same pattern twice |
| Patterns.AddAllDistinct | 107062303_hw1.cpp:159-161 | adding `w` to each of distinct patterns in turn: every listed pattern gains exactly `w` and nothing else changes |
| Patterns.GeneratedMembers | 107062303_hw1.cpp:155-158 | the rounds `0 .. k-1` of the size loop produce exactly the patterns made of `x` and fewer than `k` other items of the path |
| Patterns.GeneratedDistinct | 107062303_hw1.cpp:155-158 | no two rounds (and no round twice) produce the same pattern |
| Patterns.PathPatternsMembers | 107062303_hw1.cpp:155-161 | one path contributes `x` together with every subset of its other items, each exactly once |
| Patterns.AddPathPatterns | 107062303_hw1.cpp:155-162 | the size loop for one path adds its weight to every pattern of every round, in the order `combinations_with` lists them |
| Patterns.ExpandOnePattern | 107062303_hw1.cpp:154-163 | after one more path, a pattern has an entry exactly when it holds `x` and some path so far covers it, and its weight is the summed weight of those covering paths |
| Patterns.ExpandAllCombinations | 107062303_hw1.cpp:152-166 | every pattern produced holds `x` and is covered by some path; its support is the summed weight of the paths `P` with `pattern - {x}` a subset of `P - {x}`; the map's visiting order does not matter |
| Patterns.SupportAntitone | 107062303_hw1.cpp:152-166 | a larger pattern is covered by fewer paths, so its support is no larger |
| Patterns.EraseInfrequentPatterns | 107062303_hw1.cpp:168-176 | exactly the entries whose support is strictly below the threshold are erased; the others keep their support |
| Patterns.ErasedExpansion | 107062303_hw1.cpp:220-221 | erasing the infrequent entries of the expansion leaves exactly the patterns of `x` that at least one path covers and whose support meets the threshold, each with its support |
| Patterns.ThresholdMonotone | 107062303_hw1.cpp:168-176 | raising the threshold only removes patterns and never changes a kept support |
| Patterns.FilterIdempotent | 107062303_hw1.cpp:168-176 | erasing twice with one threshold is the same as erasing once |
| Patterns.Merge | 107062303_hw1.cpp:211 | `result.merge(src)` holds every key of both maps; on a collision the entry already in `result` stays, and other keys take `src`'s entry |
| Patterns.MergeDisjointCommutes | 107062303_hw1.cpp:259 | without collisions the order in which thread results are merged does not matter |
| Arena.AddItemToChild | 107062303_hw1.cpp:98-114 | when a child labelled `x` exists, its count rises by one, it is returned with `false` and nothing else changes; otherwise a node labelled `x` with count 1 and parent `p` is appended as the last sibling and returned with `true`, and only the link it hangs on changes |
| Arena.Relink | 107062303_hw1.cpp:99-112 | hanging a new node on `p` sets `left_child` of a childless `p`, or else `right_sibling` of the last child; no count, label, cross-link or other link changes |
| Arena.SiblingLabelsDistinct | 107062303_hw1.cpp:105-110 | in a tree whose root paths are indexed, as `construct_fp_tree` keeps it, the children of one node carry pairwise distinct labels, so `add_item_to_child` finds at most one child labelled `x` |
| Arena.ShapeNewChild | 107062303_hw1.cpp:112 | appending a child keeps every child list in creation order, with first-child and sibling links that spell the list |
| Arena.NextWith | 107062303_hw1.cpp:400 | the first node from a given index on with a given label, or `NIL` when there is none |
| Arena.LastWith | 107062303_hw1.cpp:373-374 | the last non-root node before a bound with a given label, or `NIL` when there is none |
| Arena.ChainFromLabels | 107062303_hw1.cpp:400 | an item's chain holds only nodes with that label, inside the arena |
| Arena.ChainStep | 107062303_hw1.cpp:400 | following `cross_link` from a node of the chain reaches the next node with its label, in creation order |
| Arena.ChainEnd | 107062303_hw1.cpp:400 | when no later node has the label, the rest of the chain is empty |
| Arena.ChainFromHolds | 107062303_hw1.cpp:400 | every node with the label from a given index on lies on the chain, so the walk from the header's head reaches every node of the item |
| Arena.LastIsTail | 107062303_hw1.cpp:373-374 | a node with that label whose `cross_link` ends the chain is the last node with the label, the header entry's tail |
| Arena.CrossLinkNew | 107062303_hw1.cpp:373 | setting the old tail's `cross_link` to the new node keeps every node's `cross_link` pointing to the next node created with its label |
| Arena.HeaderEntry | 107062303_hw1.cpp:369 | the entry `header_table[get_key(x)]` reads (an empty one when missing) is the head and tail of `x`'s chain |
| Arena.HeaderNew | 107062303_hw1.cpp:369-375 | after a node is created, setting the entry to (node, node) when empty, or moving its tail to the node, keeps every entry at its chain's ends |
| Arena.AppendToChain | 107062303_hw1.cpp:370-375 | an empty entry becomes (node, node); otherwise the old tail's `cross_link` and the entry's tail move to the node |
| Arena.ChainEmptyBoth | 107062303_hw1.cpp:370 | an entry's head is `NIL` exactly when its tail is |
| Arena.InsertedBump | 107062303_hw1.cpp:106-108 | counting one more transaction through an existing child keeps every node's count equal to its prefix count |
| Arena.InsertedNew | 107062303_hw1.cpp:100-112 | a created node with count 1 for a new prefix keeps every node's count equal to its prefix count |
| Arena.InsertedFinish | 107062303_hw1.cpp:361-380 | a fully inserted transaction joins the inserted ones |
| Arena.TreeCounts | 107062303_hw1.cpp:359-381 | after `construct_fp_tree` every non-root node counts exactly the transactions that begin with its root path (at least one), and a non-empty item sequence has a node exactly when some transaction begins with it |
| Arena.BuildingStart | 107062303_hw1.cpp:360 | the root alone over empty header entries satisfies the construction invariant |
| Arena.BuildingBump | 107062303_hw1.cpp:364-378 | the branch where `add_item_to_child` returns `false` keeps the construction invariant, one item further |
| Arena.BuildingNew | 107062303_hw1.cpp:364-378 | the branch where `add_item_to_child` returns `true` and the node is spliced into its chain keeps the construction invariant, one item further |
| Arena.PatternPathsWeights | 107062303_hw1.cpp:400-406 | the collected label sets are exactly those of the chain's nodes (both directions); each maps to the summed count of the nodes that share it, and a label set no node has weighs nothing |
| Arena.PatternPathsTotal | 107062303_hw1.cpp:400-406 | the weights of the collected paths add up to the total count along the chain |
| Arena.PatternPathsContain | 107062303_hw1.cpp:402-404 | every collected label set holds the chain's item |
| Arena.PathsOfProperties | 107062303_hw1.cpp:395-409 | the paths of `x` are exactly the label sets of the root paths of `x`'s nodes and nothing else; each holds `x`, and their weights add up to the total count of `x`'s nodes |
| Scheduling.StrideStep | 107062303_hw1.cpp:210 | `i += t_count` stays on the thread's stride |
| Scheduling.AssignedFrom | 107062303_hw1.cpp:210 | every index a thread visits is at least `t_id` |
| Scheduling.OwnerExists | 107062303_hw1.cpp:210 | the threads `0 .. t_count-1` together visit every index |
| Scheduling.OwnerUnique | 107062303_hw1.cpp:210 | no index is visited by two threads |
| Scheduling.StridePrefixSnoc | 107062303_hw1.cpp:210-211 | visiting `freq_items[i]` and moving on by `t_count` extends the list of visited items by that item, in stride order |
| Scheduling.StrideDoneCovers | 107062303_hw1.cpp:210 | when the loop has run off the end, every index below the size that the thread is assigned has its item in the visited list, at its position on the stride |
| FPTrees.HeaderKeysOnePerItem | 107062303_hw1.cpp:315-321 | the header table gets one key per counted frequent item: as many keys as such items, and no two keys for one item |
| FPTrees.TableWithDefaultsKeys | 107062303_hw1.cpp:396 | reading `header_table[get_key(x)]` for each `x` of a list adds exactly the keys of those items, each with an empty entry, and leaves every existing entry as it was |
| FPTrees.TableWithDefaultsSnoc | 107062303_hw1.cpp:396 | one more lookup extends the sequence of lookups by one `TableWithDefault` step |
| FPTrees.FrequentLookupsKeyed | 107062303_hw1.cpp:284-286 | on a tree whose header keys are those of its counted frequent items, looking up frequent items changes neither the counter nor the header table |
| FPTrees.MineAllLookupsKeyed | 107062303_hw1.cpp:206-214 | on a built tree, the lookups of `mine_all` change neither the counter nor the header table, because the thread's items are all frequent |
| FPTrees.SortedExcludedKeyed | 107062303_hw1.cpp:323-357 | after exclusion and sorting every item left is counted and has its header entry, so the lookups of `construct_fp_tree` insert nothing |
| FPTrees.ConditionalBase | 107062303_hw1.cpp:385-390 | the conditional base holds each path, as its ascending items, exactly as often as its weight and nothing else; its size is the sum of the weights |
| FPTrees.PartialBaseStep | 107062303_hw1.cpp:388-389 | inserting `weight` copies of one more path keeps the base's invariant |
| FPTrees.LookupKey | 107062303_hw1.cpp:284-286 | `get_key` returns the key of `x` as the counter stood, and the new counter is the old one with `x` defaulted to 0 (`WithDefault`) |
| FPTrees.InsertItem | 107062303_hw1.cpp:364-378 | one item of a transaction keeps the construction invariant and the tree's shape, changes no key, and inserts no header entry when the item is keyed |
| FPTrees.NewChild | 107062303_hw1.cpp:367-376 | a created node is spliced in as the tail of its item's chain, and the header entry is updated |
| FPTrees.InsertTransaction | 107062303_hw1.cpp:362-379 | inserting one transaction from the root adds it to the inserted ones |
| FPTrees.BuildTree | 107062303_hw1.cpp:360-380 | every transaction inserted: node counts equal prefix counts, chains and header entries are in order, and no key changes |
| FPTrees.HeaderDefault | 107062303_hw1.cpp:396 | reading a missing entry inserts an empty one, which keeps the table consistent with the tree, and the entry read is `x`'s chain |
| FPTrees.LabelSet | 107062303_hw1.cpp:401-404 | walking from a node to the root collects exactly the labels of its root path |
| FPTrees.WalkStep | 107062303_hw1.cpp:400-405 | one step along `cross_link` adds the node's count to its label set and moves to the next node of the chain |
| FPTrees.CollectPaths | 107062303_hw1.cpp:400-406 | the walk along the chain from its head collects exactly the paths of `x` |
| FPTrees.MergeMined | 107062303_hw1.cpp:210-211 | merging `mine(freq_items[i])` keeps every collected pattern frequent and holding an item of the thread's stride |
| FPTrees.MergeAllKeys | 107062303_hw1.cpp:206-214 | the left-to-right merge of the thread's `mine` results holds a pattern exactly when one of those results holds it |
| FPTrees.MergeAllFirst | 107062303_hw1.cpp:211 | since `merge` keeps an existing entry, a pattern's support in the merged result is the one from the first `mine` result that holds it |
| FPTrees.MergeAllSnoc | 107062303_hw1.cpp:211 | `result.merge(mine(x))` extends the left-to-right merge by one more result |
| FPTrees.MinedItem | 107062303_hw1.cpp:217-224 | the results of `mine(x)`, with the counter changed only by default insertions, are one record `MinedFrom`: the conditional base of `x`'s paths, the conditional tree of that base, its paths of `x`, and the patterns characterized by those paths |
| FPTrees.AllMinedFromAt | 107062303_hw1.cpp:206-214 | every `mined[j]` records `mine(items[j])` |
| FPTrees.AllMinedFromSnoc | 107062303_hw1.cpp:210-211 | one more `mine` call extends the records of the thread's items by one |
| FPTrees.MineAllStep | 107062303_hw1.cpp:210-211 | one iteration of `mine_all`'s loop keeps its invariant: the visited items are the stride so far, each has its `mine` record, the result is their left-to-right merge, and every pattern in it is frequent and holds a visited item |
| FPTrees.FPTree.constructor | 107062303_hw1.cpp:193-196 | the constructor stores the thresholds and parent and leaves the built state |
| FPTrees.FPTree.Build | 107062303_hw1.cpp:198-204 | `build` leaves the counts, the frequent items, one header key per frequent item, the filtered and sorted transactions, and a tree whose counts are their prefix counts |
| FPTrees.FPTree.Prepare | 107062303_hw1.cpp:199-202 | the first four steps of `build` leave counts, frequent items, empty header entries and the prepared transactions, every item of which is keyed |
| FPTrees.FPTree.FindFrequentItems | 107062303_hw1.cpp:302-313 | `item_counter` holds every item's occurrence count, and `frequent_items` the items whose count meets the threshold |
| FPTrees.FPTree.BuildHeaderTable | 107062303_hw1.cpp:315-321 | an empty entry is added for exactly the counted frequent items |
| FPTrees.FPTree.ExcludeNonFrequentItems | 107062303_hw1.cpp:323-337 | the transactions become the filtered, non-empty ones, in order |
| FPTrees.FPTree.SortTransactionItems | 107062303_hw1.cpp:339-357 | every transaction is sorted by the counts of the parent when there is one, and by the tree's own counts otherwise |
| FPTrees.FPTree.GetKey | 107062303_hw1.cpp:284-286 | returns the key of `x` as the counter stood; the counter becomes the old one with `x` defaulted to 0 and nothing else changes |
| FPTrees.FPTree.FrequentThan | 107062303_hw1.cpp:288-290 | the frequency order on the keys of the two items as the counter stood; the counter ends with `lhs`, then `rhs`, defaulted to 0, and nothing else changes |
| FPTrees.FPTree.ConstructFpTree | 107062303_hw1.cpp:359-381 | every transaction is inserted, with node counts equal to prefix counts and chains and header entries in order; with every item keyed, counter and header keys are unchanged |
| FPTrees.FPTree.FindAllPatternPaths | 107062303_hw1.cpp:395-409 | the label sets of the root paths of `x`'s nodes, each with the summed count of the nodes that share it; the tree stays valid, the counter gains only `x` (defaulted to 0) and the header table only an empty entry for `x`'s key when it had none |
| FPTrees.FPTree.ConstructConditionalFpTree | 107062303_hw1.cpp:383-393 | a fresh tree, with this tree as its parent, built from the conditional base of `x`'s paths with the same thresholds; this tree changes only by the two default insertions of `find_all_pattern_paths` |
| FPTrees.FPTree.ConditionalPaths | 107062303_hw1.cpp:218-219 | the first two steps of `mine`: the conditional tree of `x`'s paths and its own paths of `x`; this tree changes only by the two default insertions |
| FPTrees.FPTree.Mine | 107062303_hw1.cpp:217-224 | every pattern returned holds `x` and meets the threshold; a pattern is returned exactly when some conditional path covers it and the covering paths' summed weight meets the threshold; that sum is its support; the counter gains only `x` and the header table only `x`'s empty entry |
| FPTrees.FPTree.MineRecord | 107062303_hw1.cpp:211 | the call `mine(freq_items[i])` in `mine_all`, with its results gathered in a `MinedFrom` record whose patterns are the ones returned; the counter gains only `x` and the header table only `x`'s empty entry |
| FPTrees.FPTree.MineAll | 107062303_hw1.cpp:206-214 | the thread visits exactly the frequent items at indices `t_id`, `t_id + t_count`, ... in ascending item order; `mined[j]` records `mine` of the j-th; the result is the left-to-right `merge` of their patterns; every pattern returned meets the threshold and holds one of those items; the tree stays valid; the counter and the header table are the old ones after exactly the lookups of those items |

## Left out

- Reading the input file (`read_transaction_file`), the command line, output formatting and the debug printers are not modelled. The database and the threshold are parameters.
- The threshold `total_counts * min_support` is computed in `long double`. The model takes `min_support_count` as a given `real`. Supports are `nat`, since the source only adds integer counts to them.
- Node counts, item counts and weights are unbounded integers, so the 32-bit `int` of the source and the `static_cast<int>` of a weight are not modelled. Overflow needs more than 2^31 transactions.
- Threads are not modelled: `thread_mine`, the pthread pool, the mutex and the join. Only the strided index partition and the merge function are modelled.
- Destructors, `new`/`delete` and the unused `TreeNode` copy constructor are not modelled. The arena replaces the pointer graph.
- FPTrees.FPTree.Build: the tree is built on values (`BuildTree`) and then assigned to the fields, so aliasing between nodes is not modelled.
- FPTrees.FPTree.SortTransactionItems: the comparator reads counts with a default of 0 but does not insert that 0 into the parent's counter. Every item sorted is already counted there, so no insertion would happen anyway.
- FPTrees.ConditionalBase: iterates `paths` in `PatternCmp` order, as the `std::map` does. Which transactions the base holds, and how often, is proved independently of that order.
- Patterns.ExpandAllCombinations and Patterns.EraseInfrequentPatterns: the loops pick map entries in an unspecified order. The proved results do not depend on the order.
- FPTrees.FPTree.MineAll: each item's patterns are characterized as in `Mine`, through its conditional tree's paths, so the limitation below carries over.
- FPTrees.FPTree.Mine: states the support of each pattern over the conditional tree's paths of `x`. It does not restate that support as a count over the original database.
