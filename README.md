# rusty_dawg word index, modelled in Dafny

This project models the core of `rusty_dawg`, an in-memory word index. It has three parts:

- **The builder (`PackedDawgBuilder`).** It turns a word list into an arena of nodes.
  - `nodes` holds one word-end flag per node.
  - `edges` is a transition map `(node, letter) -> node`.
  - Before each word is grown into its own branch, a stack of "unchecked" transitions is cut back to the prefix that word shares with the previous word.
- **Exact lookup (`lookup`, `has_word`).** These walk the transition map from root 0.
- **Bounded Levenshtein search (`search`, `search_recursive`).** This is a depth-first walk over the letters `'a'..='z'`.
  - Each step computes one row of the edit-distance matrix.
  - A branch is dropped once the row's minimum exceeds the budget.

The modules follow the source files:

| file | module | models |
|---|---|---|
| `utilities.dfy` | `Utilities` | `common_prefix`, specified by `Lcp` |
| `levenshtein.dfy` | `Levenshtein` | the reference distance `Lev`, the rows `Row`, and the pruning lemmas |
| `packed_dawg.dfy` | `Dawg` | the finished index (`PackedDawg`), `lookup`, `has_word`, `search_recursive`, `search` |
| `builder.dfy` | `DawgBuilder` | the builder class (`minimize`, `insert_word`, `finish`) and `from_words` |
| `test_data.dfy` | `DawgScenarios` | the library's own test scenarios over the dictionary apple, banana, cherry |

Each part takes the same form as the source:

- **Builder.** It is a class whose methods update `previousWord`, `nodes`, `minimizedNodes`, `uncheckedNodes` and `edges` in place. Each method is proved against ghost functions of the old state:
  - `Pad` appends fresh unflagged nodes;
  - `ChainEdges` and `ChainStack` add the chain of new transitions;
  - `Children` gives the set of popped child nodes.
- **Walks.** `lookup` and `common_prefix` are loops, proved against the functions `Reach` and `Lcp`.
- **Search.** The search appends to a result sequence passed in and returned, as the source appends to its `&mut Vec`.
  - Each row is built by a loop (`NextRow`) and proved equal to `Row(path, query)`.
  - The whole result is proved to be exactly the stored non-empty words over `'a'..'z'` within the budget, each once, paired with its distance.

The class invariant `Valid()` holds for any insertion order. It covers:

- every transition leads upward inside the arena;
- the stack spells the previous word from the root, and each stack entry is a transition of the index;
- no child on the stack is in `minimizedNodes`.

When the words arrive in lexicographic order, the invariant also says that the arena is the tree of the words' prefixes and stores exactly those words. A ghost `history` field supports this. It records:

- the words inserted so far;
- the word that leads to each node;
- the parent of each node.

**The code builds a plain prefix tree, with no suffix sharing.** A design description of this system says otherwise: it calls the builder a suffix-sharing minimization. The model follows the code.

- The redirect branch in `minimize` (`src/packed_dawg.rs:22-23`) tests whether a popped child is already in `minimized_nodes`.
- Every child on the stack was allocated fresh, so that test never succeeds. `FrontierDisjoint` and `PopFresh`/`GrowFresh` prove this.
- Even if the test did succeed, the branch would only rewrite a transition that is already in the map (`RewriteSame`).

## Model

| member | source | states |
|---|---|---|
| Utilities.CommonPrefix | src/utilities.rs:1-10 | the result is at most both lengths, the two words agree below it, they differ at it when both are longer, and it equals the reference `Lcp` |
| Utilities.LcpCharacterised | src/utilities.rs:3-7 | a length is bounded, agreeing and maximal exactly when it is `Lcp(a, b)` (both directions) |
| Utilities.LcpSymmetric | src/utilities.rs:1-10 | the common prefix does not depend on the order of the operands |
| Utilities.LcpSelf | src/utilities.rs:2-9 | a word shares all of itself with itself and nothing with the empty word |
| Levenshtein.MinOf | src/packed_dawg.rs:124 | the minimum of a non-empty row is one of its entries and no entry is smaller |
| Levenshtein.LevStepUpper | src/packed_dawg.rs:110-117 | the insert, delete and replace costs of the row recurrence each bound the distance from above |
| Levenshtein.LevStepAttained | src/packed_dawg.rs:110-117 | one of the three costs equals the distance |
| Levenshtein.StartRow | src/packed_dawg.rs:144 | the starting row `0..=len` is the row of the empty path |
| Levenshtein.RowMinNondecreasing | src/packed_dawg.rs:124 | extending the path by a letter never lowers the row's minimum |
| Levenshtein.ExtensionCostBound | src/packed_dawg.rs:124-138 | no extension of a path is closer to the query than the minimum of the path's row, so a pruned subtree holds no match |
| Levenshtein.LevSelf | src/lib.rs:35-36 | a word is at distance 0 from itself |
| Levenshtein.LevZeroIffEqual | src/lib.rs:35-36 | distance 0 holds exactly for equal words |
| Levenshtein.LevLengthBound | src/lib.rs:38-42 | the distance is at least the difference of the lengths |
| Levenshtein.LevDropSuffix | src/lib.rs:38-42 | a word is at distance (its length minus `k`) from its prefix of length `k` |
| Levenshtein.LevSingleLetter | src/lib.rs:44-53 | the distance to a one-letter query is the length minus one if the letter occurs in the word, and the length otherwise |
| Dawg.ReachInBounds | src/packed_dawg.rs:93 | in a valid index every successful walk ends inside the arena, so `nodes[node_id]` is in bounds |
| Dawg.ReachNoneExtends | src/packed_dawg.rs:84-86 | once a walk fails, every longer walk through it fails |
| Dawg.ReachPrefix | src/packed_dawg.rs:80-88 | when a word can be walked, so can each of its prefixes |
| Dawg.ReachStep | src/packed_dawg.rs:82-83 | the walk of `p + [x]` is the walk of `p` followed by the transition on `x` |
| Dawg.Lookup | src/packed_dawg.rs:78-89 | the result is the walk `Reach(edges, word)` from the root: `None` exactly when some letter has no transition, otherwise the node reached, which lies inside the arena of a valid index |
| Dawg.HasWord | src/packed_dawg.rs:91-95 | the result is `Accepts`: the walk succeeds and ends on a flagged node |
| Dawg.NextRow | src/packed_dawg.rs:107-118 | from the row of `path`, the loop computes exactly the row of `path + [letter]` (each entry the distance to a prefix of the query) |
| Dawg.SelfReport | src/packed_dawg.rs:120-122 | the path itself is reported exactly when it ends a word within budget |
| Dawg.ChildStep | src/packed_dawg.rs:125-137 | probing one more letter keeps the results exactly the matches whose next letter has been probed, with no repeats |
| Dawg.PrunedSubtree | src/packed_dawg.rs:124 | when the row's minimum exceeds the budget, no word below the path must be reported |
| Dawg.SearchRecursive | src/packed_dawg.rs:97-139 | only appends to `results`, and what it appends is exactly the matches below the path (stored, non-empty, letters `'a'..'z'`, within budget), each once with its distance |
| Dawg.Search | src/packed_dawg.rs:141-163 | the results are exactly the stored non-empty words over `'a'..'z'` within `maxCost` of the query, each once, with its distance; the root is never reported |
| Dawg.SearchMonotone | src/packed_dawg.rs:141-163 | every match found with budget `c` is found with any larger budget |
| DawgBuilder.PastCommonPrefix | src/packed_dawg.rs:31-38 | past the common prefix with an earlier word, every prefix of the new word comes strictly after that word, so no existing node carries it |
| DawgBuilder.ReachGivesLabel | src/packed_dawg.rs:78-89 | in the built tree, walking a word ends on the node labelled by that word |
| DawgBuilder.LabelGivesReach | src/packed_dawg.rs:78-89 | every node's label walks to that node |
| DawgBuilder.TrieAccepts | src/packed_dawg.rs:49-55 | a tree-shaped arena accepts exactly the words it flags |
| DawgBuilder.GrowingStart | src/packed_dawg.rs:31-37 | with sorted input, cutting the stack to the common prefix starts the loop at the node of that prefix |
| DawgBuilder.GrowingStep | src/packed_dawg.rs:38-44 | with sorted input, each iteration's transition is new (the insert at :41 never overwrites) and the tree shape is kept |
| DawgBuilder.GrowingEnd | src/packed_dawg.rs:45-46 | flagging the last node makes the index store exactly one word more |
| DawgBuilder.PadShape | src/packed_dawg.rs:39-40 | the fresh nodes are appended unflagged after the old flags |
| DawgBuilder.GrownFlags | src/packed_dawg.rs:39-45 | insert_word appends exactly one node per letter of `word` past the common prefix `k`; the only flag raised is the last node's, which is the newest fresh node when one was made; no other flag changes |
| DawgBuilder.ChainStackShape | src/packed_dawg.rs:39-43 | the `j`-th pushed entry leaves the previous node by `word[k + j]` and enters the fresh node `old len + j` |
| DawgBuilder.SpellsShared | src/packed_dawg.rs:31-37 | cut back to the common prefix, the stack spells a prefix of the new word from the root |
| DawgBuilder.TopInBounds | src/packed_dawg.rs:33-37 | the node read from the stack's top (or the root) is inside the arena |
| DawgBuilder.LinkedGrow | src/packed_dawg.rs:39-42 | whatever the input order, a new transition from the stack's top to a fresh node keeps every transition upward and the stack linked |
| DawgBuilder.LinkedPrefix | src/packed_dawg.rs:20-21 | popping keeps the remaining entries transitions of the index |
| DawgBuilder.ChildrenSplit | src/packed_dawg.rs:21-26 | popping one entry moves exactly its child into the popped set |
| DawgBuilder.FrontierDisjoint | src/packed_dawg.rs:22 | under the invariant no stack child is in `minimized_nodes`, so the test at :22 is always false |
| DawgBuilder.PopFresh | src/packed_dawg.rs:19-28 | after popping to `k`, the popped children are arena nodes and none of them remains on the stack |
| DawgBuilder.GrowFresh | src/packed_dawg.rs:38-44 | the fresh children pushed by the loop are not in `minimized_nodes` |
| DawgBuilder.RewriteSame | src/packed_dawg.rs:22-23 | writing back a transition already in the map leaves the map unchanged |
| DawgBuilder.InsertStart | src/packed_dawg.rs:31-37 | the invariant at `previous_word` and the truncation to `Lcp` give the loop's invariant at the common prefix |
| DawgBuilder.InsertStep | src/packed_dawg.rs:38-44 | one iteration keeps the loop's invariant |
| DawgBuilder.InsertEnd | src/packed_dawg.rs:45-46 | flagging the last node restores the builder's invariant with the new word as `previous_word` |
| DawgBuilder.ChainState | src/packed_dawg.rs:38-44 | after `i - k` iterations the state is the chain of fresh nodes for `word[k..i]`, with the loop's invariant |
| DawgBuilder.InsertPreserves | src/packed_dawg.rs:30-47 | the whole of insert_word preserves the builder's invariant; with sorted input the index then stores exactly the words so far |
| DawgBuilder.InsertKeepsState | src/packed_dawg.rs:30-47 | insert_word also keeps the stack's children out of `minimized_nodes` |
| DawgBuilder.PackedDawgBuilder.constructor | src/packed_dawg.rs:62-70 | the empty builder holds the root alone, unflagged, with no transitions |
| DawgBuilder.PackedDawgBuilder.Minimize | src/packed_dawg.rs:19-28 | pops the stack to exactly its first `downTo` entries (nothing when it is shorter), adds the popped children to `minimizedNodes`, and changes neither `nodes` nor `edges` |
| DawgBuilder.PackedDawgBuilder.GrowBranch | src/packed_dawg.rs:33-46 | from the stack's top (or the root), appends one fresh node per letter of `word[k..]`, adds a transition and a stack entry for each, flags the last node and sets `previous_word` |
| DawgBuilder.PackedDawgBuilder.InsertWord | src/packed_dawg.rs:30-47 | the new state is the chain below the common prefix `Lcp(word, previous_word)`; the invariant is kept; with sorted input the index stores exactly the words inserted so far |
| DawgBuilder.PackedDawgBuilder.Finish | src/packed_dawg.rs:49-55 | empties the stack and hands over `nodes` and `edges` unchanged; the result is a valid index, and with sorted input it accepts exactly the inserted words |
| DawgBuilder.FromWords | src/packed_dawg.rs:59-76 | the index is valid; with sorted input it accepts exactly the given words, and every prefix of a given word can be walked |
| DawgScenarios.Build | src/lib.rs:12-13 | the index built from apple, banana, cherry stores exactly those three words |
| DawgScenarios.StoredWords | src/lib.rs:10-17 | `has_word` is true for each dictionary word and false for the prefix "app" |
| DawgScenarios.PrefixLookups | src/lib.rs:19-28 | `lookup` succeeds on prefixes of the dictionary words, the empty one included |
| DawgScenarios.ExactSearch | src/lib.rs:35-36 | `search("cherry", 0)` is exactly `[("cherry", 0)]` |
| DawgScenarios.PrefixDistances | src/lib.rs:38-42 | apple is at distance 1 from "appl" and 2 from "app"; banana and cherry are farther than the budgets |
| DawgScenarios.OneEditSearch | src/lib.rs:38-39 | `search("appl", 1)` is exactly `[("apple", 1)]` |
| DawgScenarios.TwoEditSearch | src/lib.rs:41-42 | `search("app", 2)` is exactly `[("apple", 2)]` |
| DawgScenarios.OneLetterDistances | src/lib.rs:44-53 | apple, banana and cherry are at distances 4, 5 and 6 from "a" |
| DawgScenarios.WideSearch | src/lib.rs:44-53 | `search("a", 6)` has three entries, and they are exactly ("apple", 4), ("banana", 5) and ("cherry", 6); so sorted by distance it is the test's list |

## Left out

- `prep_word` (`src/utilities.rs:12-14`) trims and lower-cases with Unicode rules from the standard library. Every operation here takes words that are already normalized, as `seq<char>`.
- The `with_capacity` sizing in `from_words` (`src/packed_dawg.rs:60-69`) is a performance hint and is not modelled.
- The `String` collection at `src/packed_dawg.rs:121` is not modelled: result words stay `seq<char>`.
- Costs are modelled as `nat`, not `u32`. A row entry is at most the query length plus the path length, so the source cannot overflow on words that fit in memory.
- `usize` node ids are modelled as `nat`, and Rust's `HashMap` and `HashSet` as Dafny `map` and `set`. Hashing and capacity are not modelled.
- No suffix sharing is claimed, because the code does not share suffixes. See the paragraph above the table.
- DawgBuilder.PackedDawgBuilder.InsertWord: correctness (stores exactly the inserted words) is stated only for lexicographically sorted input. The source does not check the order. For unsorted input only the structural invariants are proved.
- DawgBuilder.FromWords: the same applies; the exact-contents clauses are conditional on sorted input.
- DawgBuilder.PackedDawgBuilder.GrowBranch holds the second half of `insert_word` (`src/packed_dawg.rs:33-46`) as a method of its own. `InsertWord` calls `Minimize` and then `GrowBranch`, in the source's order.
- The ghost field `history` (inserted words, node labels, parents) has no counterpart in the source. It only states the tree invariant.
- Dawg.HasWord requires a valid index, that is, transitions that stay inside the arena. Otherwise `nodes[node_id]` at `src/packed_dawg.rs:93` would panic. Every index built by `FromWords` is valid.
- Dawg.SearchRecursive takes as preconditions facts that the source's callers establish:
  - the node is the end of the walk of the path;
  - the previous row is the row of the path before the letter.
- DawgScenarios.PrefixLookups checks four representative prefixes, not all of them. `DawgBuilder.FromWords` states the general fact for every prefix of every stored word.
- The test dictionary file used by `src/lib.rs` is not part of this model. The scenarios use the three-word dictionary apple, banana, cherry.
