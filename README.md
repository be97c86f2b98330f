# Fenwick tree, trie and skip list

This project models three data structures of the Advanced_Data_Structures
repository in Dafny and proves their contracts:

- `fenwick_tree.dfy` (module `FenwickTrees`): the Fenwick tree (binary
  indexed tree) of `src/fenwick_tree.py`. The cell array is a Dafny
  `array<int>` of `size + 1` cells, with cell 0 unused. The array the tree
  stands for is the ghost field `A`. The invariant `CellsHold` says that
  cell `j` holds the sum of the `LowBit(j)` elements of `A` that end at
  position `j - 1`. `LowBit(j)` is `j & -j`, defined on naturals and proved
  to be the power of two that times an odd number gives `j`. Update, query,
  range query and build are methods with the source's loops. Each is
  proved against prefix sums of `A`.
- `trie.dfy` (module `Tries`): the prefix tree of `src/trie.py`. Nodes
  live in an arena `nodes`, with the root at position 0. Each node has a
  child map from characters to positions and an end-of-word flag. The
  ghost map `Loc` sends each path from the root to the node it reaches.
  The ghost set `Stored` holds the words. `Words()` and `Paths()` are the
  abstract view that insert, search, starts-with, delete and prefix
  collection are specified against.
- `skip_list.dfy` (module `SkipLists`): the skip list of
  `src/skip_list.py`. Nodes live in an arena, with the header at
  position 0. The ghost sequence `Chain` lists the data nodes in level-0
  order, with their keys and heights. `Linked` says that every forward
  pointer at level `l` leads to the next node of the chain whose height
  reaches `l`. So each level is the chain restricted to the nodes tall
  enough for it. Insert and delete are proved to put in, or take out, one
  key at its rank (the number of smaller keys). They keep the keys sorted
  and keep the level bound.

Insert in the skip list moves on during its descent only while the next
key is strictly smaller than the new one. A new key therefore goes in
front of any keys equal to it (`SkipLists.SkipList.Insert`: the new key
lands at `Rank`). So equal keys sit in reverse insertion order, and delete,
which removes the first of them, removes the most recently inserted one.

## Model

| member | source | states |
|---|---|---|
| FenwickTrees.FenwickTree.constructor | src/fenwick_tree.py:16-26 | a tree of `size` elements all zero, with `size + 1` zero cells that satisfy the cell invariant |
| FenwickTrees.FenwickTree.Update | src/fenwick_tree.py:28-42 | for `0 <= index < size`, the abstract array gains `delta` at `index` and nowhere else; an index at or past `size` changes nothing; the cell invariant is kept |
| FenwickTrees.FenwickTree.Query | src/fenwick_tree.py:44-59 | the result is the sum of elements `0..index` inclusive (zero for a negative index) |
| FenwickTrees.FenwickTree.RangeQuery | src/fenwick_tree.py:61-73 | the result is the prefix sum to `right` minus the prefix sum before `left`, and, for `0 <= left <= right`, the sum of elements `left..right` |
| FenwickTrees.FenwickTree.BuildFromArray | src/fenwick_tree.py:75-85 | the abstract array gains `arr[i]` at each position `i` inside the tree; positions past `size` are ignored as `update` ignores them |
| FenwickTrees.LowBit | src/fenwick_tree.py:42 | `1 <= LowBit(n) <= n`; `LowBitIsLowestSetBit` shows it is the lowest set bit of `n`, the value of `n & -n` |
| FenwickTrees.LowBitIsLowestSetBit | src/fenwick_tree.py:42 | `LowBit(n)` is a power of two and `n` is that power times an odd number: the single bit `n & -n` keeps |
| FenwickTrees.LowBitAfterStep | src/fenwick_tree.py:42 | stepping up by the lowest set bit at least doubles the lowest set bit |
| FenwickTrees.UpdateStepCovers | src/fenwick_tree.py:40-42 | from a cell covering position `p`, the next cell the update loop visits covers `p` again and no cell in between covers it |
| FenwickTrees.UpdateStep | src/fenwick_tree.py:40-42 | one update iteration adds `delta` to a covering cell and leaves the invariant pending only on the later covering cells |
| FenwickTrees.UpdateEnd | src/fenwick_tree.py:40 | once the walk passes `size`, every cell holds its sum again |
| FenwickTrees.FreshQueryIsZero | src/fenwick_tree.py:25-26 | every prefix query on a fresh tree is zero |
| FenwickTrees.QueryAfterUpdate | src/fenwick_tree.py:28-59 | after adding `d` at `i`, the prefix sum up to `j` grows by `d` when `i <= j` and is unchanged when `j < i` |
| FenwickTrees.RangeIsDifferenceOfPrefixes | src/fenwick_tree.py:71-73 | the difference of the prefix sums to `right` and before `left` is the sum of `left..right` |
| FenwickTrees.BuildGivesPrefixSums | src/fenwick_tree.py:75-85 | building a fresh tree from `arr` answers each query inside both with the prefix sum of `arr` |
| Tries.Trie.constructor | src/trie.py:30-33 | an empty trie: no words, only the empty path, count zero |
| Tries.Trie.Insert | src/trie.py:35-53 | the words become the old words plus `word`; the paths become the old paths plus every prefix of `word`; the count grows by one exactly when `word` was not stored |
| Tries.Trie.MakePath | src/trie.py:45-49 | the walk creates exactly the missing prefixes of `word` and returns the node `word` reaches; words and count are unchanged |
| Tries.Trie.Descend | src/trie.py:46-49 | one step adds the path `word[..i+1]` (if new) and moves to its node |
| Tries.Trie.AddChild | src/trie.py:47-48 | a fresh unflagged child on character `c` adds exactly the path `p + [c]` and no word |
| Tries.Trie.SetEnd | src/trie.py:51-53 | flagging an unstored word stores it and adds one to the count; clearing a stored one removes it and takes one off |
| Tries.Trie.Walk | src/trie.py:65-69 | the walk succeeds exactly when the whole string is a path, and then returns its node |
| Tries.Trie.Search | src/trie.py:55-70 | true exactly when `word` is stored |
| Tries.Trie.StartsWith | src/trie.py:72-87 | true exactly when `prefix` is a path of the trie |
| Tries.Trie.Delete | src/trie.py:89-109 | true exactly when `word` was stored; the word is removed, no path disappears, the count drops by one exactly when deleted, nothing changes otherwise |
| Tries.Trie.GetAllWordsWithPrefix | src/trie.py:111-128 | the result holds each stored word that starts with `prefix`, exactly once, and nothing else; it is empty when `prefix` is not a path |
| Tries.Trie.DfsCollect | src/trie.py:130-141 | appends to `results` (leaving its old part intact) each stored word below `currentWord`, exactly once, and nothing else |
| Tries.StoredWordPrefixesArePaths | src/trie.py:45-53 | every prefix of a stored word is a path, so `starts_with` succeeds on it |
| Tries.PathsArePrefixClosed | src/trie.py:45-49 | the paths are closed under taking prefixes |
| Tries.MissingStepMeansAbsent | src/trie.py:66-68 | a missing child on the walk of `w` means `w` is not a path, so the early `False` is right |
| Tries.AddChildPreserves | src/trie.py:47-48 | hanging a fresh node keeps the arena well formed and changes no word |
| Tries.FlagKeepsConsistent | src/trie.py:51-53 | setting or clearing one flag adds or removes exactly that word and keeps the count equal to the number of words |
| Tries.FlagChangesOneWord | src/trie.py:105-106 | the flag of a path's node decides that path's word and no other |
| Tries.BelowChildShrinks | src/trie.py:140-141 | the recursion into a child has strictly fewer paths below it, so the traversal ends |
| SkipLists.SkipList.constructor | src/skip_list.py:31-46 | an empty list at level 0 with a header of `maxLevel + 1` pointers |
| SkipLists.SkipList.RandomLevel | src/skip_list.py:48-61 | the height is at most `maxLevel`, every trial below it succeeded, and the trial at it failed unless `maxLevel` stopped the loop; it is `TrialHeight(draws, maxLevel)` |
| SkipLists.TrialHeight | src/skip_list.py:58-61 | the number of leading successful trials, capped at `maxLevel`: every trial below it succeeded and the one at it failed unless the cap or the end of the trials stopped the count |
| SkipLists.SkipList.Advance | src/skip_list.py:77-79 | moving right along level `i` while the next key is smaller stops at the level-`i` predecessor of the key's rank |
| SkipLists.SkipList.FindPredecessors | src/skip_list.py:73-80 | the descent records at every level the last node before the key's rank that reaches that level (the header when none) |
| SkipLists.SkipList.Search | src/skip_list.py:99-120 | true exactly when `key` is stored |
| SkipLists.SkipList.SpliceNode | src/skip_list.py:92-95 | the new node takes over each predecessor's pointer at its levels and each predecessor now points at it; nothing else changes |
| SkipLists.SkipList.Link | src/skip_list.py:92-97 | splicing in behind the predecessors stores `key` at its rank as a node of height `h`, leaves every other entry and its height as it was, adds one to the size and keeps the invariant |
| SkipLists.SkipList.Insert | src/skip_list.py:63-97 | the chain becomes the old chain with the new node put at the rank of `key` (in front of equal keys), every other node keeping its height, so the keys gain `key` there, one more occurrence of `key`, size plus one; the new node's height is the one the trials give, and the level becomes the larger of the old level and that height |
| SkipLists.SkipList.BypassNode | src/skip_list.py:147-151 | from level 0 up, each predecessor that points at the node takes over the node's pointer; the loop stops at the first one that does not |
| SkipLists.SkipList.LowerLevel | src/skip_list.py:153-155 | the level drops while the header has no successor at it, ending at the largest height of any stored node (0 when there is none) |
| SkipLists.SkipList.Detach | src/skip_list.py:147-151 | bypassing the node at chain position `q` removes exactly that key and keeps the keys sorted |
| SkipLists.SkipList.Unlink | src/skip_list.py:147-157 | bypassing and lowering the level remove exactly the key at position `q` and keep the invariant |
| SkipLists.SkipList.Delete | src/skip_list.py:122-158 | true exactly when `key` was stored; then the chain loses exactly the node of its first occurrence, every other node keeping its height, the size drops by one and the level ends at the tallest remaining height; otherwise nothing changes |
| SkipLists.RankOfSorted | src/skip_list.py:141-144 | in sorted keys, `key` is stored exactly when it sits at position `Rank`, so checking the next node at level 0 decides membership |
| SkipLists.BottomTarget | src/skip_list.py:117-120 | after the descent, the next node at level 0 has key `key` exactly when `key` is stored, and it is then the node at position `Rank` |
| SkipLists.PredPointsAtTarget | src/skip_list.py:148-150 | the predecessor at a level points at the node to delete exactly when the node takes part in that level |
| SkipLists.SpliceIsInsertion | src/skip_list.py:92-95 | splicing behind the predecessors of position `q` makes the arena realise the chain with the new node at `q` |
| SkipLists.BypassIsRemoval | src/skip_list.py:147-151 | bypassing the node at position `q` makes the arena realise the chain without it |
| SkipLists.InsertionKeepsConsistent | src/skip_list.py:83-97 | insertion keeps the arena, the sorted keys, the level bound and the size consistent, and adds exactly one occurrence of the key |
| SkipLists.RemovalKeepsOrder | src/skip_list.py:147-151 | removal keeps the arena linked and the keys sorted, and removes exactly one occurrence of the key |
| SkipLists.InsertAtRankKeepsOrder | src/skip_list.py:78 | putting a key at its rank keeps sorted keys sorted and adds exactly that key |
| SkipLists.RemoveKeepsOrder | src/skip_list.py:147-151 | removing one position keeps sorted keys sorted and removes exactly its key |
| SkipLists.InsertKeepsLevel | src/skip_list.py:86-89 | raising the level to the new height when it is larger keeps the level bound |
| SkipLists.EmptyTopLevel | src/skip_list.py:154 | while the header has no successor at the top level, no node reaches it, so lowering is safe |
| SkipLists.TopLevelOccupied | src/skip_list.py:154-155 | in a consistent list, the header has a successor at the active level unless that level is 0 |
| SkipLists.BottomWalk | src/skip_list.py:92-97 | walking level 0 from the header meets exactly `size` nodes, whose keys are the stored keys in non-decreasing order |
| SkipLists.LevelWalks | src/skip_list.py:93-95 | each level below `maxLevel`, walked from the header, is a subsequence of the level below it |
| SkipLists.LevelHolds | src/skip_list.py:93-95 | every level up to and including `maxLevel`, walked from the header, holds exactly the nodes whose height reaches it |
| SkipLists.WalkIsLevel | src/skip_list.py:78-79 | following level-`l` pointers from a node on that level visits exactly the later nodes tall enough for `l`, in order |

## Left out

- The random source: `random.random()` and the probability `p` are not modelled. `RandomLevel` takes the outcomes of its trials as a parameter (`draws`), and `Insert` passes them on. So no statement about the distribution of heights is made.
- SkipLists.SkipList.RandomLevel: trials past the end of `draws` count as failures. The source draws as many as it needs.
- The header key `-inf` is never compared in the source. The model gives the header an unused key.
- Nodes removed from the skip list stay in the arena, unreachable. The source leaves them to the garbage collector.
- FenwickTrees.FenwickTree.Update: requires `index >= 0`. For `-(size + 2) <= index <= -1` the source adds `delta` to zero or more cells counted from the end of its list, then reaches cell 0, where `0 & -0` is 0, and loops forever. For `index <= -(size + 3)` its first write fails with an index error.
- FenwickTrees.FenwickTree.Query: requires `index < size`. Past the end the source fails with an index error, and the model has no error path for it.
- FenwickTrees.FenwickTree.RangeQuery: requires `left <= size` and `right < size`, for the same reason.
- Tries.Trie.DfsCollect: the order of the collected words is not stated. The source visits children in the insertion order of its dictionary, which the model does not keep; the model visits them in an unspecified order.
- Tries.Trie.DfsCollect: the source appends to a list passed in by reference. The model returns the extended list, and `GetAllWordsWithPrefix` starts it empty as the source does.
- The skip list's pointer walk (`Walk`) carries a step budget so that it is defined on any arena. `BottomWalk`, `LevelWalks` and `LevelHolds` hold for every budget of at least the number of nodes.
- Integer widths: Python integers are unbounded, and so are the model's.
- Tries.Trie.DfsCollect: the source recurses once per character below the prefix, so a stored word about a thousand characters longer than the prefix exceeds Python's recursion limit and `get_all_words_with_prefix` fails. The model has no depth limit and returns the list.
- SkipLists.SkipList.constructor: the source's default `max_level = 16` is not modelled. The caller always passes `maxLevel`.
- FenwickTrees.FenwickTree.constructor: `size` is a natural number. The source accepts a negative size without a check. The same holds for `maxLevel` in `SkipLists.SkipList.constructor`.
- The benchmarks, dataset generators, demos and command-line entry points of the repository are not part of this model.
