# Verified models of the coursework data structures and algorithms

This project models, in Dafny, the data structures and algorithms of a set
of Python coursework exercises, and proves what each of them promises. Every
exercise is its own module:

- **HashProbe**, **HashMap** (hw8/hashmap.py): `CustomHashMap`, an
  open-addressing hash map over an array of slots. Lookups follow the
  perturbed probe sequence `index := (5 * index + perturb + 1) & (c - 1)` with
  `perturb >>= 5`. Deletion leaves tombstones, and a grow-only rehash happens
  above a 2/3 load factor. The probe sequence is proved to visit every slot of
  a power-of-two table. Lookup therefore stops whenever an empty slot
  remains, and the map abstraction (`get` after `set`, `delete`, `len`,
  iteration) is proved against a ghost map.
- **Blockchain** (hw8/blockchain.py): the `Ledger` of balances kept in a
  `CustomHashMap`, the text and byte forms of a `Transaction`, and the
  `Blockchain` with its genesis block, `add_block` and mining reward.
- **MagicSort** (hw7/MagicSort.py): `linear_scan`, `reverse_list`,
  insertion sort, depth-limited quicksort with its partition, mergesort with
  its merge, and the `magic_sort` dispatch. Every sort works in place on a
  range of an array.
- **Heaps**, **PriorityQueues** (lab10/lab10.py): binary-heap sifting as
  functions on sequences; the heap-backed and the ordered-list priority
  queues as classes.
- **WeightedGraph** (hw11/Graph.py): the weighted undirected graph, its heap
  priority queue, breadth-first search, Dijkstra's shortest paths and Prim's
  spanning tree.
- **SimpleGraphs** (lab11/lab11.py): the edge-set graph `Graph_ES` and the
  adjacency-set graph `Graph_AS`.
- **SinglyLinked** (lab4/Lab4.py), **DoublyLinked** (hw4/DoublyLinkedList.py):
  linked lists over heap-allocated nodes with `Repr` footprints.
- **SearchTree** (lab9/BSTNode.py, lab9/BSTSet.py): the binary search tree,
  its three traversals and its node iterator.
- **OrderedLists** (lab6/lab6.py), **CustomSets** (lab8/lab8.py),
  **HalfSorted** (hw6/hw6.py), **Waitlist** (hw10/waitlist.py).
- **ExpressionTrees** (hw9/BET.py): binary expression trees with exact
  rational evaluation, the postfix parser, tree enumeration and the search
  for hands that make 24.
- **Pairs** (hw3/hw3.py), **JumpPuzzle** (lab5/solve_puzzle.py),
  **GroupGame** (hw2/what/hw2.py), **Cards** (hw2/Cards.py), **Maze** and
  **Game** (hw5/maze.py, hw5/game.py).
- **Util**, **Seqs**, **Strings**: shared pieces. These are the result types
  naming the Python exception an operation raises, Python's negative list
  indexing, sequence facts, Python's string order, and decimal rendering.

Classes whose fields the Python code updates in place are Dafny classes with
`modifies` clauses. Their methods are proved against specification
functions, and the loops carry their invariants. Pure Python code (the
expression trees, the jump puzzle, the route search) is functions and
lemmas. A raised exception is an `Err` or `Raised` result naming the
exception class.

Where a docstring and the code disagree, the model follows the code:
- `Graph.remove_vertex` raises `KeyError` (from `set.remove`), not the
  documented `ValueError`.
- `CardType.from_str` raises `KeyError` (from the dictionary lookup), not the
  documented `ValueError`.
- `Graph_AS.add_edge` does not refuse an edge that is already present, and
  `Graph_AS.remove_edge` discards silently. The abstract docstrings of
  lab11/lab11.py say both raise `ValueError`.
- In hw2/TestCards.py, the expected first draw is the ace of clubs. The
  code's `draw_top` pops the last card of the sorted deck, the king of
  spades, and the model follows the code (`Cards.DefaultDeck`).

## Model

| member | source | states |
|---|---|---|
| Util.PyIndex | lab6/lab6.py:32-34 | a Python list index is valid exactly from `-len` to `len - 1`, and names position `i` or, when negative, `i + len` |
| Seqs.Reverse | hw7/MagicSort.py:72-76 | the reversed list has the same length, element `i` taken from position `len - 1 - i` |
| Seqs.ReverseOfDecreasing | hw7/MagicSort.py:72-76 | reversing a strictly decreasing list gives a sorted one (also lines 293-295) |
| Seqs.ReverseMultiset | hw7/MagicSort.py:72-76 | reversing keeps every element, as often as before |
| Seqs.PermutedWithinTrans | hw7/MagicSort.py:111-203 | two permutations of one range combine into one |
| Seqs.PermutedWithinWiden | hw7/MagicSort.py:111-203 | a permutation of a sub-range is one of any range around it |
| Seqs.SwapPermutes | hw7/MagicSort.py:164-203 | swapping two positions of a range permutes that range |
| Seqs.SortedInsert | lab6/lab6.py:18-21 | the result holds the old elements and the new one, one longer |
| Seqs.SortedInsertSorted | lab6/lab6.py:18-21 | inserting into a sorted list gives a sorted list |
| Seqs.SortedFirstIsLeast | lab6/lab6.py:21 | the first element of a sorted list is its least |
| Seqs.SameFirst | lab6/lab6.py:21 | two sorted arrangements of the same elements begin alike |
| Seqs.SameRest | lab6/lab6.py:21 | dropping the first element of two arrangements of the same elements that begin alike leaves the same elements |
| Seqs.SortedUnique | lab6/lab6.py:21 | two sorted arrangements of the same elements are the same list, so any correct sort gives one result |
| Seqs.AppendThenSort | lab6/lab6.py:18-21 | appending to a sorted list and sorting it, by any method, gives `SortedInsert` |
| Strings.LexLess | hw2/Cards.py:18-19 | under Python's string order no string is less than itself, and a proper prefix comes first |
| Strings.LexLessTransitive | hw2/Cards.py:18-19 | Python's string order is transitive |
| Strings.LexLessTotal | hw2/Cards.py:18-19 | two different strings are ordered one way or the other |
| Strings.DigitChar | hw8/blockchain.py:35 | the character of a digit is `'0'` to `'9'` and stands for that digit |
| Strings.NatToString | hw8/blockchain.py:35 | `str(n)` is a non-empty string of digits with no leading zero unless `n` is 0 |
| Strings.IntToString | hw8/blockchain.py:35 | `str(n)` of a negative number is a minus sign and the digits of `-n` |
| Strings.NatToStringRoundTrip | hw8/blockchain.py:35 | the digits of `str(n)` read back as `n` |
| Strings.Zeros | hw8/blockchain.py:35 | `k` zero digits |
| Strings.ZFill | hw8/blockchain.py:35 | `zfill(width)` pads to `width` characters and leaves a string already that long unchanged |
| Strings.ZerosValue | hw8/blockchain.py:35 | leading zeros do not change the number digits denote |
| Strings.ZerosAlone | hw8/blockchain.py:35 | a string of zeros denotes 0 |
| HashProbe.ProbeState | hw8/hashmap.py:68-82 | each probe step, starting at `hash mod capacity` and moving by `(5*index + perturb + 1) mod capacity` with `perturb` divided by 32, names a slot inside the table |
| HashProbe.PerturbVanishes | hw8/hashmap.py:82 | after `hash` steps the shifted `perturb` has reached zero |
| HashProbe.ProbeAfterPerturb | hw8/hashmap.py:81-82 | once `perturb` is zero, the probe continues as the plain recurrence `x -> 5x + 1 (mod capacity)` |
| HashProbe.FullPeriod | hw8/hashmap.py:81 | on a power-of-two table, `x -> 5x + 1 (mod capacity)` reaches every slot from any start within `capacity` steps |
| HashProbe.ProbeCovers | hw8/hashmap.py:68-84 | every slot of a power-of-two table lies on the probe sequence of every non-negative hash |
| HashMap.GrownIsPow2 | hw8/hashmap.py:107 | growing by 4x (capacity up to 50000) or 2x keeps the capacity a power of two and at least doubles it |
| HashMap.StopStep | hw8/hashmap.py:73-84 | with an empty slot in a power-of-two table, the probe loop stops: at an empty slot or at the slot holding the key, the first such step |
| HashMap.DeletedSlotFacts | hw8/hashmap.py:77-79 | the remembered slot is the first tombstone probed before the stop, and there is none in a table without tombstones |
| HashMap.LookupFinds | hw8/hashmap.py:55-97 | `_lookup` reports a hit exactly for the keys of the abstract map, at the slot holding that key's entry; on a miss the offered slot holds no live entry |
| HashMap.LookupMissReachable | hw8/hashmap.py:86-87 | on a miss the offered slot (first tombstone, but a tombstone at slot 0 is skipped because of `deleted_slot or table_index`) lies on the key's probe path before any empty slot |
| HashMap.LookupHome | hw8/hashmap.py:68-87 | a key whose home slot is empty is offered that slot at once |
| HashMap.ProbeNeverStops | hw8/hashmap.py:73-84 | in a table with no empty slot, a lookup of a key that is not live never stops |
| HashMap.AllEmptyFacts | hw8/hashmap.py:125-127 | an all-empty table is the empty map with no live and no filled slots |
| HashMap.StoreFacts | hw8/hashmap.py:188-193 | writing the entry at the slot `_lookup` returns keeps the open-addressing invariant and maps the key to the new value, leaving every other key alone |
| HashMap.DeleteFacts | hw8/hashmap.py:203-220 | turning the key's entry into a tombstone (hash and value kept) keeps the invariant and removes exactly that key |
| HashMap.RehashStep | hw8/hashmap.py:110-113 | re-inserting one live entry of the old table into the tombstone-free new table keeps the invariant and adds that entry's key |
| HashMap.RehashSkip | hw8/hashmap.py:111 | empty slots and tombstones of the old table are dropped without changing the map or the count |
| HashMap.LiveKeysFacts | hw8/hashmap.py:164-168 | iteration yields each live key once: exactly the keys of the map, as many as `len` reports |
| HashMap.CustomHashMap.constructor | hw8/hashmap.py:125-127 | a new map has capacity 8, `_used` 0, every slot empty and the empty map as contents |
| HashMap.CustomHashMap.FromPairs | hw8/hashmap.py:137-142 | building from pairs stores them in order: the contents are the pairs' map, later pairs overriding earlier ones |
| HashMap.CustomHashMap.Copy | hw8/hashmap.py:130-132 | building from another map copies its contents |
| HashMap.CustomHashMap.Lookup | hw8/hashmap.py:55-97 | the probe loop returns the slot and hit flag that `LookupSpec` defines |
| HashMap.CustomHashMap.Rehash | hw8/hashmap.py:99-115 | the capacity grows 4x or 2x, the new table has no tombstones and an empty slot, `_used` is unchanged and the contents are the same |
| HashMap.CustomHashMap.MoveLive | hw8/hashmap.py:110-113 | the loop re-inserts every live entry of the old table: the new table's map and live count equal the old table's |
| HashMap.CustomHashMap.Reinsert | hw8/hashmap.py:112-113 | one live entry goes to the slot `_lookup` offers in the new table |
| HashMap.CustomHashMap.Len | hw8/hashmap.py:153-154 | `len` is the number of keys in the map |
| HashMap.CustomHashMap.Contains | hw8/hashmap.py:156-162 | `in` holds exactly for the keys of the map |
| HashMap.CustomHashMap.GetItem | hw8/hashmap.py:170-179 | returns the key's value, or raises KeyError for a missing key |
| HashMap.CustomHashMap.Store | hw8/hashmap.py:186-193 | the entry is written at the slot `_lookup` offers; the contents become `old[key := value]`; `_used` grows by one only for a new key |
| HashMap.CustomHashMap.SetItem | hw8/hashmap.py:181-197 | after the store, the map rehashes exactly when `capacity * 2 < 3 * used`; contents and `_used` as for `Store` |
| HashMap.CustomHashMap.CountFilled | hw8/hashmap.py:99-115 | counts the filled slots (live and tombstones), at least `_used` |
| HashMap.CustomHashMap.SetItemCorrected | hw8/hashmap.py:99-105 | counting tombstones in the load factor keeps an empty slot after every store, with the same contents and `_used` as `SetItem` (also lines 195-197) |
| HashMap.CustomHashMap.DelItem | hw8/hashmap.py:199-220 | raises KeyError for a missing key and changes nothing; otherwise removes the key, `_used` drops by one and the slot becomes a tombstone with the entry's hash |
| HashMap.CustomHashMap.Keys | hw8/hashmap.py:164-168 | iteration yields the live keys in slot order, each once, exactly the keys of the map |
| HashMap.CustomHashMap.Items | hw8/hashmap.py:164-179 | the (key, value) pairs read back through iteration and lookup rebuild the map |
| HashMap.TombstoneExhaustion | hw8/hashmap.py:195-220 | with the identity hash, set/delete of keys 0..6 then a set of 7 leaves seven tombstones, one live entry and no empty slot; the lookup of key 8 never stops |
| Blockchain.AmountFieldRoundTrip | hw8/blockchain.py:35 | the amount column, `str(amount).zfill(5)`, is all digits and reads back as the amount |
| Blockchain.UserField | hw8/blockchain.py:23-33 | a name column is ten characters: a short name padded with spaces, a long one cut to seven characters followed by `...` |
| Blockchain.TransactionString | hw8/blockchain.py:22-35 | the sender column, the arrow, the receiver column and the colon sit at fixed positions whatever the names and amount, and the text ends in ` HSKYC` |
| Blockchain.TransactionStringColumns | hw8/blockchain.py:22-35 | for an amount below 100000 the rendering has a fixed width, with the two name columns, the arrow and the amount at fixed positions |
| Blockchain.TransactionBytes | hw8/blockchain.py:19-20 | the sender's name comes first, then the receiver's, then the decimal amount, with nothing between them |
| Blockchain.TransactionBytesAmbiguous | hw8/blockchain.py:19-51 | two different transactions can have the same bytes, and hence the same hash input |
| Blockchain.DepositSpec | hw8/blockchain.py:87-92 | a deposit creates the user's balance or adds to it; every other balance stays |
| Blockchain.WithdrawSpec | hw8/blockchain.py:94-108 | a withdrawal succeeds exactly when the user is known and has the funds (`has_funds`), otherwise ValueError; on success only the user's balance drops, by the amount |
| Blockchain.ApplyTransaction | hw8/blockchain.py:179-185 | a transaction fails exactly when `has_funds` is false for its sender; a success opens the receiver's account if needed and keeps every other |
| Blockchain.ApplyBlock | hw8/blockchain.py:178-185 | a block that applies keeps every account and leaves each receiver with one |
| Blockchain.TransferConserves | hw8/blockchain.py:178-181 | a funded transaction succeeds; it leaves every other balance alone, a self-transfer changes nothing, and the sum of two existing accounts is kept |
| Blockchain.ApplyBlockFails | hw8/blockchain.py:178-185 | once a transaction fails, the whole block fails whatever follows |
| Blockchain.ApplyBlockStep | hw8/blockchain.py:178-181 | each transaction of the loop is applied to the result of the ones before it |
| Blockchain.ApplyBlockStopsAt | hw8/blockchain.py:179-185 | a transaction whose sender lacks the funds makes the whole block fail |
| Blockchain.ApplyBlockNonNegative | hw8/blockchain.py:178-181 | with non-negative balances and amounts, no balance becomes negative |
| Blockchain.NegativeAmountAccepted | hw8/blockchain.py:78-85 | a negative amount passes `has_funds` and leaves the receiver with a negative balance (also lines 178-181) |
| Blockchain.MiningRewardAfterGenesis | hw8/blockchain.py:128-163 | after genesis (ROOT holds 999999), one mining reward leaves ROOT with 998999 and the user with 1000 |
| Blockchain.Ledger.constructor | hw8/blockchain.py:75-76 | a new ledger has no balances |
| Blockchain.Ledger.Over | hw8/blockchain.py:75-76 | a ledger over a given map has that map's balances |
| Blockchain.Ledger.Get | hw8/blockchain.py:80 | the user's balance, or none for an unknown user |
| Blockchain.Ledger.HasFunds | hw8/blockchain.py:78-85 | false for an unknown user, otherwise whether the balance is at least the amount |
| Blockchain.Ledger.Deposit | hw8/blockchain.py:87-92 | the balances become `DepositSpec` of the old balances |
| Blockchain.Ledger.Withdraw | hw8/blockchain.py:94-108 | raises ValueError and changes nothing when `WithdrawSpec` fails, otherwise the balances become its result |
| Blockchain.Ledger.ApplyTransactionOf | hw8/blockchain.py:179-185 | one transaction: withdraw and deposit when the sender has the funds, otherwise report failure and change nothing |
| Blockchain.Ledger.ApplyTransactions | hw8/blockchain.py:178-185 | the loop succeeds exactly when the whole block applies, and then leaves the block's resulting balances |
| Blockchain.Blockchain.constructor | hw8/blockchain.py:120-144 | a new chain holds only the genesis block, and ROOT holds 999999 tokens |
| Blockchain.Blockchain.AddBlock | hw8/blockchain.py:169-188 | the block (with the previous block's hash) is appended in every case; the ledger is replaced by the replayed copy when every transaction succeeds; otherwise ValueError with the old ledger kept |
| Blockchain.Blockchain.CopyLedger | hw8/blockchain.py:175 | the copied ledger is fresh and has the same balances |
| Blockchain.Blockchain.DistributeMiningReward | hw8/blockchain.py:147-163 | adds a block with the one transaction of 1000 tokens from ROOT to the user, with `add_block`'s outcome |
| Cards.CardLess | hw2/Cards.py:18-19 | cards are ordered by suit, then value, and no card is smaller than itself |
| Cards.CardLessTransitive | hw2/Cards.py:18-19 | the suit-then-value order is transitive |
| Cards.CardLessTotal | hw2/Cards.py:18-19 | of two different cards one is the smaller |
| Cards.CardLessAsymmetric | hw2/Cards.py:18-19 | at most one of two cards is the smaller |
| Cards.Insert | hw2/Cards.py:37 | inserting a card adds exactly that card to the multiset |
| Cards.InsertSorted | hw2/Cards.py:37 | inserting into a sorted list keeps it sorted |
| Cards.SortCards | hw2/Cards.py:37-44 | sorting keeps the multiset of cards |
| Cards.SortCardsSorted | hw2/Cards.py:37-44 | the sorted list is in ascending card order |
| Cards.SortedUnique | hw2/Cards.py:37-44 | two sorted arrangements of the same cards are the same list, so the sort's result does not depend on the algorithm |
| Cards.SortCardsIsSort | hw2/Cards.py:37-44 | any sorted permutation of the input is what `SortCards` returns |
| Cards.SortedFirstIsMin | hw2/Cards.py:37 | the first card of a sorted deck is the least card |
| Cards.SortedLastIsMax | hw2/Cards.py:37-56 | the last card of a sorted deck, the one drawn first, is the greatest |
| Cards.SuitRow | hw2/Cards.py:34-35 | one value's row has one card per suit |
| Cards.Grid | hw2/Cards.py:33-35 | the combinations number `len(values) * len(suits)` |
| Cards.GridHas | hw2/Cards.py:33-35 | the combinations are exactly the cards with a listed value and a listed suit |
| Cards.Combinations | hw2/Cards.py:31-35 | the nested loops append the cards value by value, then suit by suit |
| Cards.Deck.constructor | hw2/Cards.py:27-37 | a new deck holds every combination, sorted |
| Cards.Deck.Hand | hw2/Cards.py:65-66 | a hand holds the given cards in the given order |
| Cards.Deck.Len | hw2/Cards.py:39-40 | the length is the number of cards |
| Cards.Deck.Sort | hw2/Cards.py:42-44 | the cards are replaced by their sorted arrangement |
| Cards.Deck.DrawTop | hw2/Cards.py:49-56 | removes and returns the last card; IndexError and no change on an empty deck |
| Cards.Deck.Play | hw2/Cards.py:71-79 | removes the first occurrence of the card and returns it; ValueError and no change if the card is absent |
| Cards.NewDeck | hw2/Cards.py:27-37 | a new deck holds `len(values) * len(suits)` cards, sorted, and exactly the listed combinations |
| Cards.RemoveFirst | hw2/Cards.py:77 | `list.remove` drops one occurrence of the card, and nothing when it is absent |
| Cards.RemoveFirstAt | hw2/Cards.py:77 | it is the occurrence at the first index holding the card that goes; the rest keep their order |
| Cards.DefaultValues | hw2/Cards.py:23 | the default values are 1 to 13 |
| Cards.DefaultCardBounds | hw2/Cards.py:18-23 | every default card lies between the ace of clubs and the king of spades |
| Cards.DefaultDeck | hw2/Cards.py:22-56 | the default deck has 52 cards, the ace of clubs first and the king of spades last, so the king of spades is drawn first |
| GroupGame.Product | hw2/what/hw2.py:56-58 | `itertools.product` of the four attribute lists has the product of their lengths as its size |
| GroupGame.Line | hw2/what/hw2.py:56-58 | the innermost run of the product varies the shape, in the given order |
| GroupGame.ProductIsCombinations | hw2/what/hw2.py:56-58 | the deck holds exactly the cards whose every attribute is one of the given values |
| GroupGame.ProductFirst | hw2/what/hw2.py:56-58 | the first combination has every attribute at its first value |
| GroupGame.Reversed | hw2/what/hw2.py:59 | `[::-1]` reverses the list element by element |
| GroupGame.Deck.constructor | hw2/what/hw2.py:50-59 | a new deck is the product in reverse order, of size the product of the four counts |
| GroupGame.Deck.Len | hw2/what/hw2.py:76-77 | the length is the number of cards |
| GroupGame.Deck.DrawTop | hw2/what/hw2.py:62-69 | removes and returns the last card of the list; AttributeError and no change on an empty deck |
| GroupGame.FirstDraw | hw2/what/hw2.py:50-69 | the first draw from a new deck is the first product tuple |
| GroupGame.ThreeValues | hw2/what/hw2.py:91-95 | three values have one distinct value exactly when all are equal, and three exactly when all differ |
| GroupGame.IsGroupOfThree | hw2/what/hw2.py:86-98 | three cards form a group exactly when each attribute is all the same or all different |
| GroupGame.IsGroup | hw2/what/hw2.py:86-98 | no cards, or one card, always form a group |
| MagicSort.Descents | hw7/MagicSort.py:42-53 | the count of adjacent descents is at most `len - 1`, and 0 for an empty list |
| MagicSort.DescentsPrefix | hw7/MagicSort.py:55-59 | a prefix has no more descents than the whole, and the remaining elements add at most one each, so the early stop cannot change the verdict |
| MagicSort.DescentsZeroIffSorted | hw7/MagicSort.py:61-62 | no descents exactly when the list is sorted, empty and single-element lists included |
| MagicSort.DescentsFullIffDecreasing | hw7/MagicSort.py:63-64 | `len - 1` descents exactly when the list is strictly decreasing |
| MagicSort.ScanSortedIff | hw7/MagicSort.py:61-62 | the scan says AlreadySorted exactly for sorted input |
| MagicSort.ScanReversedIff | hw7/MagicSort.py:61-64 | from two elements on, the scan says ReverseSorted exactly for strictly decreasing input |
| MagicSort.LinearScan | hw7/MagicSort.py:35-70 | the loop with its early exit returns the verdict of the full descent count: AlreadySorted at 0, ReverseSorted at `len - 1`, MostlySorted at most 5, MostlyReverseSorted at least `len - 6`, otherwise none |
| MagicSort.ReverseInPlace | hw7/MagicSort.py:72-76 | swapping the first half with the mirrored second half reverses the list |
| Seqs.ReverseReverse | hw7/MagicSort.py:72-76 | reversing twice gives the original list back |
| MagicSort.RotatedPermutes | hw7/MagicSort.py:109 | `insert(ins, pop(i))` permutes the range |
| MagicSort.RotatedSorted | hw7/MagicSort.py:103-109 | moving the element to its insertion point extends the sorted run by one |
| MagicSort.FindInsertIndex | hw7/MagicSort.py:103 | the first index in `[left, i)` whose element is at least `L[i]`, or `i` when there is none |
| MagicSort.MoveBack | hw7/MagicSort.py:109 | the array becomes the rotation of `L[ins..i]` that moves `L[i]` to `ins` |
| MagicSort.InsertionSortRange | hw7/MagicSort.py:78-109 | ValueError with no change when `left > right`; otherwise `[left, right)` ends sorted, a permutation of what it held, and nothing outside it changes |
| MagicSort.Partition | hw7/MagicSort.py:164-203 | the last element, the pivot, lands at the returned index `p` in `[left, right)`; everything before it is smaller and everything after it is at least the pivot; the range is permuted |
| MagicSort.Swap | hw7/MagicSort.py:196-201 | exchanging two elements of the range permutes it |
| MagicSort.SortedAfterPartition | hw7/MagicSort.py:140-152 | after partitioning, sorting both sides leaves the whole range sorted and permuted |
| MagicSort.BitLength | hw7/MagicSort.py:131 | `int.bit_length(n)` is the number of binary digits: `n < 2^b`, and `2^(b-1) <= n` for positive `n` |
| MagicSort.QuickSortDepth | hw7/MagicSort.py:111-162 | the range ends sorted and permuted; no algorithm for at most one element, `{insertionsort}` up to 16, quicksort below depth `2 * best_max_depth`, exactly `{insertionsort, mergesort}` at or past it; insertion sort is always among the algorithms for more than 16 elements |
| MagicSort.QuickSortRange | hw7/MagicSort.py:111-131 | ValueError with no change when `left > right`; otherwise the range ends sorted and permuted, with no algorithm for at most one element, `{insertionsort}` up to 16, and both quicksort and insertion sort among the algorithms above 16 |
| MagicSort.MergeMultiset | hw7/MagicSort.py:262-282 | the merge holds the elements of both runs |
| MagicSort.MergeSorted | hw7/MagicSort.py:262-282 | merging two sorted runs gives a sorted run |
| MagicSort.MergeInOrder | hw7/MagicSort.py:256-259 | two sorted runs already in order merge to their concatenation, which is what the early return keeps |
| MagicSort.MergeTake | hw7/MagicSort.py:268-274 | each step of the merge takes the smaller head, the first run's head on a tie |
| MagicSort.MergedRuns | hw7/MagicSort.py:262-282 | the merge loop and the two tail copies build the merge of the two runs |
| MagicSort.CopyBack | hw7/MagicSort.py:285 | the slice assignment writes the merged list over `[left, right)` and nothing else |
| MagicSort.MergeRuns | hw7/MagicSort.py:243-285 | nothing changes when `L[middle-1] <= L[middle]`; otherwise `[left, right)` becomes the merge of the two runs |
| MagicSort.MergeStep | hw7/MagicSort.py:229-233 | after both halves are sorted, the merge leaves the range sorted and permuted |
| MagicSort.MergeSortRange | hw7/MagicSort.py:205-241 | ValueError with no change when `left > right`; otherwise the range sorted and permuted, with no algorithm for at most one element, `{insertionsort}` up to 16, and exactly `{insertionsort, mergesort}` above |
| MagicSort.MagicSortList | hw7/MagicSort.py:287-304 | the list ends sorted with the same elements; sorted input is untouched with no algorithm; reversed input is reversed with `{reverse_list}`; mostly sorted gives `{insertionsort}`, mostly reversed `{reverse_list, insertionsort}`; otherwise quicksort's set: `{insertionsort}` up to 16 elements, and one holding quicksort and insertion sort above |
| Heaps.BelowIsStrictTotalOrder | lab10/lab10.py:26-27 | priorities, integers or infinity (`math.inf`), are strictly and totally ordered |
| Heaps.ParentOf | lab10/lab10.py:79-102 | `(i - 1) // 2` is the parent of exactly the children `2i + 1` and `2i + 2` |
| Heaps.SiftUp | lab10/lab10.py:98-105 | the sift-up loop only swaps entries, keeping the multiset |
| Heaps.SiftDown | lab10/lab10.py:107-121 | the sift-down loop only swaps entries, keeping the multiset |
| Heaps.SmallerChild | lab10/lab10.py:113-116 | the child followed is the right one only when it is strictly smaller, and it precedes every child |
| Heaps.SiftDownRestores | lab10/lab10.py:107-121 | a sift-down from `j` repairs the heap order that only `j` broke |
| Heaps.SiftUpRestores | lab10/lab10.py:98-105 | a sift-up from `j` repairs a heap whose only disorder is the edge into `j` |
| Heaps.SiftUpInPlace | lab10/lab10.py:98-105 | a sift-up changes nothing when every edge on the way is in order |
| Heaps.HeapRootLeast | lab10/lab10.py:124-136 | the root of a heap has the least priority |
| Heaps.Pushed | lab10/lab10.py:138-144 | `insert` adds exactly the new entry and grows the size by one |
| Heaps.PushKeepsHeap | lab10/lab10.py:138-144 | inserting into a heap gives a heap |
| Heaps.Popped | lab10/lab10.py:156-159 | `remove_min` drops exactly the root entry and shrinks the size by one |
| Heaps.PopKeepsHeap | lab10/lab10.py:146-160 | removing the root of a heap gives a heap, and the root removed has the least priority |
| Heaps.Updated | hw11/Graph.py:104-111 | `update` replaces one entry by the new one, keeping the others |
| Heaps.UpdateKeepsHeap | hw11/Graph.py:107-111 | re-prioritising one entry of a heap, then sifting up and down from it, gives a heap |
| Heaps.HeapSiftDownStays | lab10/lab10.py:107-121 | a sift-down anywhere in a heap leaves a heap |
| Heaps.HeapifyAsWritten | lab10/lab10.py:94-95 | the constructor's sift-downs from the root downwards keep the multiset |
| Heaps.Heapify | lab10/lab10.py:94-95 | sift-downs from the last parent back to the root keep the multiset |
| Heaps.SiftDownRangeHeap | lab10/lab10.py:94-95 | sifting down from `hi - 1` back to `lo` extends heap order from `hi` to `lo` |
| Heaps.HeapifyIsHeap | lab10/lab10.py:94-95 | building bottom-up always gives a heap |
| Heaps.HeapifyAsWrittenCounterexample | lab10/lab10.py:94-95 | building top-down from priorities `[3, 2, 1, 0]` gives `[1, 0, 3, 2]`, which is not a heap |
| Heaps.Items | lab10/lab10.py:44-49 | iteration yields the entries' items in list order |
| Heaps.ItemsPermute | hw11/Graph.py:72-78 | entries that are a permutation of each other hold the same items |
| PriorityQueues.HeapQueue.constructor | lab10/lab10.py:87-95 | the tree is the top-down sift of the given entries |
| PriorityQueues.HeapQueue.Heapified | lab10/lab10.py:87-95 | building with the sift-downs in reverse order gives a heap |
| PriorityQueues.HeapQueue.SiftDownBelow | lab10/lab10.py:94-95 | the loop of sift-downs computes `SiftDownRange` |
| PriorityQueues.HeapQueue.SiftUpAt | lab10/lab10.py:98-105 | the loop computes `SiftUp` |
| PriorityQueues.HeapQueue.SiftDownAt | lab10/lab10.py:107-121 | the loop computes `SiftDown` |
| PriorityQueues.HeapQueue.Len | lab10/lab10.py:37-42 | `len` is the number of entries |
| PriorityQueues.HeapQueue.Contains | lab10/lab10.py:51-56 | `in` holds exactly when some entry's item equals x |
| PriorityQueues.HeapQueue.FindMin | lab10/lab10.py:124-136 | IndexError exactly on an empty queue; otherwise the root, which in a heap has the least priority |
| PriorityQueues.HeapQueue.Insert | lab10/lab10.py:138-144 | the size grows by one, the multiset gains exactly the new entry, and a heap stays a heap |
| PriorityQueues.HeapQueue.RemoveMin | lab10/lab10.py:146-160 | returns what `find_min` returned (IndexError and no change when empty); otherwise the size drops by one, that entry leaves the multiset, and a heap stays a heap |
| PriorityQueues.InsertionIndex | lab10/lab10.py:199-203 | the index of the first entry of smaller priority, or the length when there is none |
| PriorityQueues.InsertKeepsDescending | lab10/lab10.py:192-206 | inserting there keeps the list in non-increasing priority order |
| PriorityQueues.InsertionIndexIs | lab10/lab10.py:199-203 | the scan with its `break` and `else` stops exactly at that index |
| PriorityQueues.InsertEntryFacts | lab10/lab10.py:192-206 | one insertion adds exactly the new entry to the multiset and keeps a non-increasing order |
| PriorityQueues.InsertAllSorted | lab10/lab10.py:170-176 | inserting the entries one after another gives the same entries in non-increasing priority order |
| PriorityQueues.InsertEntryStable | lab10/lab10.py:192-206 | the new entry lands after every entry of its own priority, so among equal priorities it comes last |
| PriorityQueues.AfterInsertionIndex | lab10/lab10.py:199-203 | in an ordered list, no entry from the insertion point on has the inserted priority |
| PriorityQueues.InsertAllStable | lab10/lab10.py:170-176 | like the stable `sort(reverse=True)` on entries compared by priority alone, the entries of each priority keep their given order |
| PriorityQueues.OrderedQueue.constructor | lab10/lab10.py:170-176 | the list is the entries inserted one by one: the same entries, in non-increasing priority order, entries of equal priority in their given order, which is what the stable `sort(reverse=True)` produces |
| PriorityQueues.OrderedQueue.Len | lab10/lab10.py:37-42 | `len` is the number of entries |
| PriorityQueues.OrderedQueue.Contains | lab10/lab10.py:51-56 | `in` holds exactly when some entry's item equals x |
| PriorityQueues.OrderedQueue.FindMin | lab10/lab10.py:178-190 | IndexError exactly on an empty queue; otherwise the last entry, which in an ordered list has the least priority |
| PriorityQueues.OrderedQueue.Insert | lab10/lab10.py:192-206 | the entry goes before the first entry of smaller priority; the multiset gains it and the order is kept |
| PriorityQueues.OrderedQueue.RemoveMin | lab10/lab10.py:208-218 | pops the last entry, which is what `find_min` returned; IndexError and no change when empty |
| WeightedGraph.PriorityQueue.constructor | hw11/Graph.py:37-44 | the tree is the top-down sift of the given entries and holds the same items |
| WeightedGraph.PriorityQueue.Heapified | hw11/Graph.py:43-44 | the corrected build, sifting down from the last parent back to the root, always gives a heap of the same items |
| WeightedGraph.PriorityQueue.SiftDownBelow | hw11/Graph.py:43-44 | the loop sifts down from each index below the bound, last first |
| WeightedGraph.PriorityQueue.SiftUpAt | hw11/Graph.py:46-53 | the loop computes `SiftUp` |
| WeightedGraph.PriorityQueue.SiftDownAt | hw11/Graph.py:55-70 | the loop computes `SiftDown` |
| WeightedGraph.PriorityQueue.Len | hw11/Graph.py:80-82 | `len` is the number of items |
| WeightedGraph.PriorityQueue.Contains | hw11/Graph.py:72-74 | `in` holds exactly when some entry holds the item |
| WeightedGraph.PriorityQueue.Front | hw11/Graph.py:84-87 | IndexError exactly on an empty queue; otherwise a queued item whose priority, in a heap, is the least |
| WeightedGraph.PriorityQueue.Pop | hw11/Graph.py:89-96 | returns what `front` returned and takes one occurrence of it out; IndexError and no change when empty; a heap stays a heap |
| WeightedGraph.PriorityQueue.Push | hw11/Graph.py:98-102 | adds exactly the item, and a heap stays a heap |
| WeightedGraph.PriorityQueue.Update | hw11/Graph.py:104-113 | ValueError and no change when no entry holds the item; otherwise the first entry holding it gets the new priority, the items are unchanged and a heap stays a heap |
| WeightedGraph.PoppedItems | hw11/Graph.py:89-96 | `pop` removes one occurrence of the root's item |
| WeightedGraph.FirstIndex | hw11/Graph.py:107-108 | the first index whose entry holds the item |
| WeightedGraph.NeighborSet | hw11/Graph.py:262-266 | exactly the vertices joined to `v` by an edge |
| WeightedGraph.Enumerate | hw11/Graph.py:212 | a loop over a set visits each element once, in some order (also line 264) |
| WeightedGraph.Add | hw11/Graph.py:342-350 | adding a weight to infinity gives infinity; to a number, the sum |
| WeightedGraph.Graph.constructor | hw11/Graph.py:155-178 | a new graph has the given vertices and no edges |
| WeightedGraph.Graph.HasVertex | hw11/Graph.py:183-189 | `in` for a vertex; in a valid graph, every endpoint of an edge is in |
| WeightedGraph.Graph.HasEdge | hw11/Graph.py:121-126 | an edge is found in either orientation, since it is keyed by the unordered pair (also lines 183-189) |
| WeightedGraph.Graph.Len | hw11/Graph.py:191-193 | `len` is the number of vertices |
| WeightedGraph.Graph.AddVertex | hw11/Graph.py:199-201 | the vertex joins the set; the edges are unchanged |
| WeightedGraph.Graph.AddEdge | hw11/Graph.py:216-230 | ValueError and no change unless both endpoints are vertices and the weight is non-negative; otherwise the unordered edge gets the weight, the same in both orientations |
| WeightedGraph.Graph.AddEdges | hw11/Graph.py:179-181 | the constructor's edges are added in turn; ValueError exactly when one is invalid |
| WeightedGraph.Graph.RemoveVertex | hw11/Graph.py:203-214 | KeyError (from `set.remove`) and no change for a missing vertex; otherwise it leaves the vertex set, and the edge to it from each remaining vertex is deleted |
| WeightedGraph.Graph.RemoveVertexCorrected | hw11/Graph.py:203-214 | deleting the self-loop as well removes every edge at the vertex and keeps every edge between vertices of the graph |
| WeightedGraph.RemoveVertexKeepsSelfLoop | hw11/Graph.py:211-214 | a self-loop at the removed vertex survives, and its endpoint is no longer a vertex |
| WeightedGraph.Graph.RemoveEdge | hw11/Graph.py:232-240 | KeyError (from `del`) when the edge is absent; otherwise the edge is gone in both orientations |
| WeightedGraph.Graph.Weight | hw11/Graph.py:242-252 | the weight of the edge, the same in both orientations; ValueError for a missing edge |
| WeightedGraph.Graph.Neighbors | hw11/Graph.py:254-266 | ValueError for a missing vertex; otherwise exactly the vertices joined to `v`, each with the edge's weight |
| WeightedGraph.Graph.NeighborsSymmetric | hw11/Graph.py:254-266 | `u` is a neighbour of `v` exactly when `v` is one of `u`, with the same weight |
| WeightedGraph.Graph.FewestEdges | hw11/Graph.py:268-312 | ValueError exactly when `start` is missing; otherwise `prev` (without `start`) and the counts form a tree rooted at `start` with count 0 there and one more along each link, and counts grow by at most one along any edge |
| WeightedGraph.Graph.Discover | hw11/Graph.py:304-308 | each neighbour of `u` not yet reached gets `u` as predecessor, one edge more, and joins the queue |
| WeightedGraph.TreeWalk | hw11/Graph.py:298-312 | each vertex in the tree is reached from `start` by a walk of exactly its count of edges |
| WeightedGraph.LayeredBound | hw11/Graph.py:302-308 | no walk from `start` is shorter than the count, so each count is the fewest edges |
| WeightedGraph.ClosedHoldsWalks | hw11/Graph.py:302-308 | a set of vertices closed under edges holds every walk that starts in it, so the searches reach every reachable vertex (also lines 389-394) |
| WeightedGraph.BreadthFirstStep | hw11/Graph.py:302-308 | processing the head of the queue keeps the breadth-first invariant |
| WeightedGraph.Graph.ShortestPaths | hw11/Graph.py:314-355 | ValueError when `start` is missing, or when `update` raises; otherwise every vertex has a distance, `start`'s is 0, no edge can shorten any distance, and each finite distance other than `start`'s is its tree parent's plus the edge's weight |
| WeightedGraph.Graph.Settle | hw11/Graph.py:340-353 | the queue and loop leave distances that are relaxed and accounted for by the tree |
| WeightedGraph.Graph.RelaxEdge | hw11/Graph.py:350-353 | a neighbour whose distance shrinks by way of `v` gets that distance, `v` as parent and its priority updated |
| WeightedGraph.Graph.SettleFront | hw11/Graph.py:347-353 | one round takes the front vertex off the queue and relaxes its edges, keeping the invariant whichever queued vertex that is |
| WeightedGraph.Graph.RelaxNeighbors | hw11/Graph.py:349-353 | the inner loop relaxes every edge at `v` |
| WeightedGraph.Graph.QueueVertices | hw11/Graph.py:345 | the queue holds every vertex once and, built by the corrected constructor, is a heap |
| WeightedGraph.DijkstraBuildAsWritten | hw11/Graph.py:43-44 | on vertices 0 to 3 with 3 at distance 0, the top-down build leaves vertex 0, at infinity, at the front: no heap |
| WeightedGraph.DijkstraFirstPop | hw11/Graph.py:89-96 | popping that queue brings vertex 3 to the front |
| WeightedGraph.DijkstraSecondPop | hw11/Graph.py:89-96 | popping again leaves only vertices 2 and 1 |
| WeightedGraph.DijkstraBuildCorrected | hw11/Graph.py:43-44 | the bottom-up build of the same entries puts vertex 3 at the front |
| WeightedGraph.DijkstraQueueAsWritten | hw11/Graph.py:345-353 | as written, the loop pops vertex 0 before the start 3, and relaxing the edge {0, 3} calls `update` on 0, which raises ValueError |
| WeightedGraph.DijkstraQueueCorrected | hw11/Graph.py:345-348 | with the corrected build, the start vertex is popped first |
| WeightedGraph.RelaxedBound | hw11/Graph.py:340-355 | relaxed distances are at most the weight of every walk from `start` |
| WeightedGraph.TightWalk | hw11/Graph.py:350-352 | each finite distance is the weight of the walk along the tree links, so it is the least weight of any walk |
| WeightedGraph.DijkstraPop | hw11/Graph.py:348 | the vertex popped is one not yet visited |
| WeightedGraph.RelaxStep | hw11/Graph.py:350-353 | relaxing a shorter edge to an unvisited neighbour keeps the invariant |
| WeightedGraph.DijkstraDone | hw11/Graph.py:347-355 | with the queue empty every vertex is visited, giving the results |
| WeightedGraph.Graph.MinimumSpanningTree | hw11/Graph.py:357-398 | ValueError exactly when `start` is missing; otherwise the tree links each reached vertex to one reached before it along an edge, the reached vertices are closed under edges, and each weight is that of the edge to the parent |
| WeightedGraph.Graph.GrowTree | hw11/Graph.py:383-396 | the loop ends with nothing queued; `start` maps to itself, every other reached vertex links to a reached vertex along an edge, and the reached vertices are closed under edges |
| WeightedGraph.Graph.PrimRound | hw11/Graph.py:389-394 | each round either reaches a new vertex or shortens the queue, which bounds the loop |
| WeightedGraph.Graph.PushEdges | hw11/Graph.py:386-394 | every edge at `v` is queued as `(v, n)`, and nothing else is added |
| WeightedGraph.PrimGrow | hw11/Graph.py:390-394 | reaching the far end of a popped edge and queueing its edges keeps the invariant, each vertex added at most once |
| WeightedGraph.PrimDone | hw11/Graph.py:389-396 | with nothing queued, the reached vertices are closed under edges and the tree without `start` is rooted at `start` |
| WeightedGraph.WithEdges | hw11/Graph.py:179-181 | adding edges in turn keeps the old ones and adds each given one |
| WeightedGraph.RemainingEdges | hw11/Graph.py:212-214 | after the loop, exactly the edges that do not join `v` to a remaining vertex are left |
| WeightedGraph.DijkstraStart | hw11/Graph.py:340-345 | every vertex at infinity except `start` at 0, nothing visited and every vertex queued is a valid starting state, with nothing yet to relax |
| WeightedGraph.RelaxKeepsRelaxed | hw11/Graph.py:350-353 | lowering a neighbour's distance through `v` keeps every already relaxed edge relaxed |
| WeightedGraph.RelaxKeepsTight | hw11/Graph.py:350-352 | after setting `tree[u] = v` and the lowered distance, each finite distance is still the weight of its tree walk |
| WeightedGraph.RelaxedAll | hw11/Graph.py:349-353 | once the inner loop has handled every neighbour of `v`, all edges from visited vertices are relaxed |
| WeightedGraph.PopFromSet | hw11/Graph.py:348 | popping from a queue of the unvisited vertices yields an unvisited vertex and leaves exactly the others |
| WeightedGraph.BfsStepLinks | hw11/Graph.py:304-308 | after discovering the neighbours of the head, `prev` and the counts cover the same vertices of the graph |
| WeightedGraph.BfsStepQueue | hw11/Graph.py:303-308 | after the step the queue's counts still rise by at most one from front to back |
| WeightedGraph.BfsStepDone | hw11/Graph.py:303-308 | after the step every vertex off the queue has a count no larger than any queued one, and its neighbours are reached within one more edge |
| WeightedGraph.PrimStart | hw11/Graph.py:383-387 | `start` alone in the tree, with the edges at `start` queued, is a valid starting state |
| WeightedGraph.PrimSkip | hw11/Graph.py:390-391 | dropping a popped edge whose far end is already in the tree keeps the invariant |
| WeightedGraph.WalkExtend | hw11/Graph.py:304-308 | a walk followed by an edge from its last vertex is a walk, heavier by that edge's weight (also lines 350-352) |
| Pairs.FindPairsNaive | hw3/hw3.py:6-15 | the nested loops collect exactly the pairs `(nums[i], nums[j])` with `i < j` that add up to the target |
| Pairs.NaiveRowStart | hw3/hw3.py:12 | the inner loop starts at the index after `i` |
| Pairs.NaiveStep | hw3/hw3.py:12-14 | one inner step adds `(n, m)` exactly when they add up to the target |
| Pairs.NaiveRowEnd | hw3/hw3.py:11-12 | the end of one row is the start of the next |
| Pairs.NaiveDone | hw3/hw3.py:15 | after the last row the collected set is the naive pair set |
| Pairs.NaivePairsSound | hw3/hw3.py:13-14 | every collected pair adds up to the target and both its values occur in the input |
| Pairs.NaivePairsShort | hw3/hw3.py:11-12 | fewer than two values give no pair |
| Pairs.NaivePairsExample | hw3/hw3.py:6-15 | `[1, 2, 3, 4, 5]` with target 6 gives `{(1, 5), (2, 4)}` |
| Pairs.FindPairsOptimized | hw3/hw3.py:17-34 | each pair adds up to the target, of two different values from the input; no pair is there in both orders; every value whose different partner occurs is paired with it; each pair is in the order in which its values first occur in the input |
| Pairs.FirstIndex | hw3/hw3.py:27-32 | the index of a value's first occurrence: it holds the value and no earlier index does (the loop meets values in this order) |
| Pairs.FirstSeenFirst | hw3/hw3.py:28-32 | when a value finds its partner and the reversed pair is not collected yet, the value occurred before its partner |
| Pairs.OptimizedAdd | hw3/hw3.py:28-32 | a turn that adds `(n, m)` keeps every part of the loop invariant |
| Pairs.OptimizedKeep | hw3/hw3.py:28-31 | a turn that adds nothing keeps every part of the loop invariant |
| Pairs.OptimizedOrientation | hw3/hw3.py:17-34 | every pair of different input values adding up to the target is collected as `(first-occurring, later)` and never the other way round |
| Pairs.OptimizedPairsShort | hw3/hw3.py:27-32 | fewer than two values give no pair |
| Pairs.OptimizedMatchesNaive | hw3/hw3.py:6-34 | up to order within a pair, the two searches agree on every pair of different values |
| JumpPuzzle.Unvisited | lab5/solve_puzzle.py:16-30 | the number of tiles not marked visited, at most the board's length |
| JumpPuzzle.UnvisitedMark | lab5/solve_puzzle.py:29-31 | marking a fresh tile visited leaves one tile fewer, so the recursion ends |
| JumpPuzzle.SolvePuzzle | lab5/solve_puzzle.py:6-9 | AssertionError exactly when some tile is negative; an answer exactly when the board is non-empty and every tile non-negative |
| JumpPuzzle.RouteCons | lab5/solve_puzzle.py:24-34 | a move from a fresh tile followed by a route on the marked board is a route |
| JumpPuzzle.SolveFromSound | lab5/solve_puzzle.py:12-34 | a true answer from `index` comes with a route from `index` to the last tile |
| JumpPuzzle.SolveFromComplete | lab5/solve_puzzle.py:12-34 | whenever a route exists from a tile, the search from there answers true |
| JumpPuzzle.SolveFromIffRoute | lab5/solve_puzzle.py:12-34 | the search answers true exactly when a route exists |
| JumpPuzzle.SolvableExample | lab5/solve_puzzle.py:6-34 | `[3, 6, 4, 1, 3, 4, 2, 0]` is solvable |
| JumpPuzzle.UnsolvableAfterClockwise | lab5/solve_puzzle.py:24-34 | after the clockwise first move of `[3, 4, 1, 2, 0]` the end is out of reach |
| JumpPuzzle.UnsolvableAfterCounterclockwise | lab5/solve_puzzle.py:24-34 | after the counter-clockwise first move, neither |
| JumpPuzzle.UnsolvableExample | lab5/solve_puzzle.py:6-34 | `[3, 4, 1, 2, 0]` is not solvable |
| Maze.InMaze | hw5/maze.py:103-105 | a square is in the maze when both indices lie in range; in a rectangular grid it is read directly, with no wrap-around |
| Maze.IsWall | hw5/maze.py:107-109 | a square in the maze is a wall exactly when reading it gives the wall marker |
| Maze.CellAt | hw5/maze.py:109-116 | reading a square follows Python indexing: it gives nothing (IndexError) exactly when a row or column index lies outside `-len .. len-1`, and a non-negative index in range reads that square |
| Maze.SetCell | hw5/maze.py:129-130 | writing a square succeeds exactly when reading it would; afterwards the square reads as the new value, the row count is unchanged and every other row is untouched |
| Maze.InMazeAccess | hw5/maze.py:103-116 | inside a rectangular grid, reading gives the square itself and writing changes that square and nothing else |
| Maze.NegativeAccess | hw5/maze.py:129-130 | `(-1, -1)` reads and writes the bottom-right square |
| Maze.Maze.constructor | hw5/maze.py:37-41 | a new maze has the given dimensions, no grid (the `_maze` attribute does not exist yet), and no start or finish |
| Maze.Maze.SetMaze | hw5/maze.py:45-46 | the grid is set to the one given; nothing else changes |
| Maze.Maze.MakeMove | hw5/maze.py:111-116 | the square is appended to the path, then its content is returned: AttributeError before a grid is set, IndexError when out of range; inside the maze it is the square's content |
| Maze.Maze.SetStartFinish | hw5/maze.py:118-130 | RuntimeError and no change when the start is outside the maze or equals the finish; otherwise both are recorded, then AttributeError when no grid is set, else their squares are set to 0, with an IndexError part-way when an index is out of range; the finish itself is never checked |
| Maze.Maze.SetStartFinishChecked | hw5/maze.py:118-130 | RuntimeError and no change unless both squares are in the maze and differ; otherwise both are recorded, then AttributeError when no grid is set, else exactly those two squares become 0 |
| Maze.FinishOutsideAccepted | hw5/maze.py:121 | on a 2x2 grid, a finish of `(-1, -1)` is accepted and zeroes the bottom-right square |
| Maze.FinishOutsideRefused | hw5/maze.py:121-122 | the checked version raises RuntimeError for the same call |
| Game.Available | hw5/game.py:15-18 | a square off the path, in the maze and not a wall; `make_move` there reads a square of points |
| Game.Steps | hw5/game.py:36 | four neighbours, none of them the square itself |
| Game.Best | hw5/game.py:30-40 | `max` with a key picks a candidate whose score no other candidate exceeds, and the first such candidate on a tie |
| Game.FindRoute | hw5/game.py:26-44 | as written, any path returned is the path so far followed by a route to the finish, scored as the starting score plus its points |
| Game.FindBestRoute | hw5/game.py:26-44 | corrected, the same, and a result without a path scores -1 |
| Game.Search | hw5/game.py:26-44 | in the corrected search, an empty path always comes with the score -1 |
| Game.Children | hw5/game.py:30-40 | the candidates end with the sentinel `(-1, [])`; in the corrected search every pathless candidate scores -1 |
| Game.ChildOf | hw5/game.py:31-37 | a candidate with a path is the search from an available neighbour, with the current square added to the path |
| Game.ChildIn | hw5/game.py:31-37 | the search from every available neighbour is among the candidates |
| Game.RouteCons | hw5/game.py:15-37 | a step from a fresh open square onto a route that avoids it is a route, and gains the square's points |
| Game.RouteTail | hw5/game.py:15-37 | the rest of a route is a route from an available neighbour, avoiding the first square |
| Game.SearchSound | hw5/game.py:26-44 | whatever path comes back, as written or corrected, is the path so far followed by a route to the finish, scored as the starting score plus the points along it |
| Game.ExtendFound | hw5/game.py:44 | a route found from a neighbour, with this square's points added, is a route found from here |
| Game.GainNonNegative | hw5/maze.py:25-53 | with non-negative points, a route's gain is non-negative |
| Game.BestRouteOptimal | hw5/game.py:26-44 | the corrected search finds a route whenever one exists, and scores at least that route's gain |
| Game.OptimalStep | hw5/game.py:30-44 | a candidate worth at least `g` lifts the chosen result to at least `g` plus this square's points |
| Game.FindBestRouteCorrect | hw5/game.py:26-44 | from the start, the corrected search returns a route exactly when one exists, scored by its gain, and no route gains more; with no route it returns -1 |
| Game.DeadEndOutscoresRoute | hw5/game.py:38-44 | in `[[9, 0, 0]]`, from the middle to the right-hand end, a route exists, yet the search as written returns `(8, [])`; the corrected search returns the route |
| Game.RowRoute | hw5/game.py:26-44 | in `[[9, 0, 0]]`, the middle then the right-hand end is a route |
| Game.RowAsWritten | hw5/game.py:26-44 | the search as written returns `(8, [])` there |
| Game.RowCorrected | hw5/game.py:26-44 | the corrected search returns the route, scored 0 |
| Game.FromMiddle | hw5/game.py:30-38 | from the middle, the candidates are the route to the right, then the dead end to the left, then the sentinel |
| Game.MiddleRight | hw5/game.py:31-37 | the right-hand neighbour gives the route |
| Game.MiddleLeft | hw5/game.py:31-37 | the left-hand neighbour gives `(8, [])` as written and `(-1, [])` corrected |
| Game.DeadEnd | hw5/game.py:26-44 | the left-hand square is a dead end once the middle is on the path |
| Waitlist.MakeTime | hw10/waitlist.py:6-18 | a time exists exactly when the hour is in 0..23 and the minute in 0..59, with those fields; ValueError otherwise |
| Waitlist.Pad2Digits | hw10/waitlist.py:22 | `02d` gives the tens digit and the units digit of a number below 100 |
| Waitlist.TimeStr | hw10/waitlist.py:20-22 | the text is five characters: two hour digits, a colon, two minute digits |
| Waitlist.TwoDigitsValue | hw10/waitlist.py:22 | two digit characters read back as ten times the first plus the second |
| Waitlist.TimeStrRoundTrip | hw10/waitlist.py:20-22 | the hour and the minute read back from their columns of the text |
| Waitlist.LexLessStep | hw10/waitlist.py:20-22 | on strings of one length, the first differing character decides the order |
| Waitlist.DigitPairLess | hw10/waitlist.py:22 | two padded numbers below 100 compare as their digit pairs do |
| Waitlist.TimeStrOrder | hw10/waitlist.py:6-22 | one time is before another exactly when its text sorts first |
| Waitlist.EntryLessIrreflexive | hw10/waitlist.py:24-29 | no entry is before itself |
| Waitlist.EntryLessTransitive | hw10/waitlist.py:24-29 | the entry order is transitive |
| Waitlist.EntryLessTotal | hw10/waitlist.py:24-29 | two different entries are ordered one way or the other |
| Waitlist.Insert | hw10/waitlist.py:41-42 | the result holds the entries and the new one, each as often as before |
| Waitlist.ConsSorted | hw10/waitlist.py:42 | an entry no greater than the head of a sorted list keeps it sorted in front |
| Waitlist.InsertSorted | hw10/waitlist.py:41-42 | inserting into a sorted list gives a sorted list |
| Waitlist.SortedHead | hw10/waitlist.py:44-48 | the head of a sorted list is its least entry |
| Waitlist.SameHead | hw10/waitlist.py:42 | two sorted arrangements of the same entries begin alike |
| Waitlist.SameTail | hw10/waitlist.py:42 | and the rest of them hold the same entries |
| Waitlist.SortedUnique | hw10/waitlist.py:42 | two sorted arrangements of the same entries are the same list, so any correct sort gives one result |
| Waitlist.AddIsSort | hw10/waitlist.py:38-42 | appending to a sorted list and sorting it gives `Insert` |
| Waitlist.RemoveAtSorted | hw10/waitlist.py:87 | taking one entry out keeps a list sorted |
| Waitlist.FirstNamed | hw10/waitlist.py:85-86 | the first position holding the name, or none when no entry has it |
| Waitlist.Waitlist.constructor | hw10/waitlist.py:35-36 | a new waitlist is empty |
| Waitlist.Waitlist.AddCustomer | hw10/waitlist.py:38-42 | the entry joins the list, which stays sorted and is one longer |
| Waitlist.Waitlist.Peek | hw10/waitlist.py:44-48 | None exactly on an empty list; otherwise the name and time of an entry in the list that no other entry precedes |
| Waitlist.Waitlist.SeatCustomer | hw10/waitlist.py:50-64 | ValueError and no change on an empty list; otherwise the first entry leaves and its name and time are returned, and no one left has an earlier time |
| Waitlist.Waitlist.ChangeReservation | hw10/waitlist.py:77-91 | ValueError and no change when no entry has the name; otherwise the first such entry is taken out and the customer added again at the new time, the list staying sorted |
| Waitlist.ChangeKeepsOthers | hw10/waitlist.py:85-89 | a changed reservation holds the same entries with one of them moved to the new time |
| SinglyLinked.Node.constructor | lab4/Lab4.py:24-27 | a node holds the item and the next node given |
| SinglyLinked.LinkedList.constructor | lab4/Lab4.py:84-88 | a new list is empty, with no head, no tail and length 0 |
| SinglyLinked.LinkedList.FromItems | lab4/Lab4.py:84-91 | a list built from items holds them in order, with that length |
| SinglyLinked.LinkedList.Len | lab4/Lab4.py:146-148 | `len` is the counter, which is the number of items whenever head, tail and counter agree |
| SinglyLinked.LinkedList.AddFirst | lab4/Lab4.py:93-103 | the item goes in front and the counter grows by one, but the tail is left as it was, so a list that was empty has no tail afterwards |
| SinglyLinked.LinkedList.AddFirstChecked | lab4/Lab4.py:93-103 | the item goes in front, the counter grows by one, and head, tail and counter keep agreeing |
| SinglyLinked.LinkedList.AddLast | lab4/Lab4.py:105-121 | with a tail, the item goes at the back; with none, the list becomes just that item; the counter grows by one |
| SinglyLinked.LinkedList.RemoveFirst | lab4/Lab4.py:123-144 | RuntimeError and no change on an empty list; otherwise the first item is removed and returned and the counter shrinks by one |
| SinglyLinked.LinkedList.Iterate | lab4/Lab4.py:29-52 | iteration yields the items from the head along the links (also lines 150-152) |
| SinglyLinked.LostFirstItem | lab4/Lab4.py:93-121 | on an empty list, `add_first(1)` then `add_last(2)` leaves only 2 while the length says 2 |
| SinglyLinked.KeptFirstItem | lab4/Lab4.py:93-121 | with the corrected `add_first` the same calls keep 1 and 2 |
| SinglyLinked.FrontIsStack | lab4/Lab4.py:93-144 | adding at the front and removing from the front is last in, first out |
| SinglyLinked.BackIsQueue | lab4/Lab4.py:105-144 | adding at the back and removing from the front is first in, first out |
| DoublyLinked.Node.constructor | hw4/DoublyLinkedList.py:14-18 | a node holds the item and both links given |
| DoublyLinked.DoublyLinkedList.constructor | hw4/DoublyLinkedList.py:32-37 | a new list is empty with an empty dictionary |
| DoublyLinked.DoublyLinkedList.FromItems | hw4/DoublyLinkedList.py:32-42 | a list built from items holds them in order, and the dictionary holds only its nodes |
| DoublyLinked.DoublyLinkedList.Len | hw4/DoublyLinkedList.py:44-46 | `len` is the number of items |
| DoublyLinked.DoublyLinkedList.AddFirst | hw4/DoublyLinkedList.py:48-68 | the item goes in front and the dictionary maps it to its new node, replacing any earlier node for it |
| DoublyLinked.DoublyLinkedList.LinkFront | hw4/DoublyLinkedList.py:51-68 | the new node becomes the head, linked both ways to the old head |
| DoublyLinked.DoublyLinkedList.AddLast | hw4/DoublyLinkedList.py:70-90 | the item goes at the back and the dictionary maps it to its new node |
| DoublyLinked.DoublyLinkedList.LinkBack | hw4/DoublyLinkedList.py:73-90 | the new node becomes the tail, linked both ways to the old tail |
| DoublyLinked.DoublyLinkedList.RemoveFirst | hw4/DoublyLinkedList.py:92-114 | RuntimeError on an empty list; KeyError and no change when the dictionary no longer holds the first item; otherwise the first item leaves the list and the dictionary and is returned |
| DoublyLinked.DoublyLinkedList.UnlinkFirst | hw4/DoublyLinkedList.py:104-112 | the head moves on one node and the new head has no predecessor |
| DoublyLinked.DoublyLinkedList.RemoveLast | hw4/DoublyLinkedList.py:116-135 | RuntimeError on an empty list; otherwise the last item leaves the list and is returned, but the dictionary is unchanged |
| DoublyLinked.DoublyLinkedList.RemoveLastChecked | hw4/DoublyLinkedList.py:116-135 | as `remove_last`, and the item also leaves the dictionary, so the dictionary keeps holding only nodes in the list |
| DoublyLinked.DoublyLinkedList.UnlinkLast | hw4/DoublyLinkedList.py:125-133 | the tail moves back one node and the new tail has no successor |
| DoublyLinked.DoublyLinkedList.Contains | hw4/DoublyLinkedList.py:137-139 | `in` answers whether the dictionary holds the item; when the dictionary holds only live nodes, such an item is in the list |
| DoublyLinked.DoublyLinkedList.LiveItem | hw4/DoublyLinkedList.py:137-139 | when the dictionary holds only live nodes, every key is an item of the list |
| DoublyLinked.DoublyLinkedList.Neighbors | hw4/DoublyLinkedList.py:141-150 | ValueError when the dictionary lacks the item; otherwise the items just before and after its node, None at either end |
| DoublyLinked.DoublyLinkedList.RemoveNode | hw4/DoublyLinkedList.py:152-174 | ValueError and no change when the dictionary lacks the item; otherwise its node is spliced out, the other items keep their order, and the item leaves the dictionary |
| DoublyLinked.DoublyLinkedList.Unlink | hw4/DoublyLinkedList.py:162-174 | splicing out a node at either end or in the middle removes exactly that position |
| DoublyLinked.DoublyLinkedList.UnlinkMiddle | hw4/DoublyLinkedList.py:165-172 | a node with both neighbours is bypassed in both directions |
| DoublyLinked.Splice | hw4/DoublyLinkedList.py:162-174 | removing one position keeps the others in order |
| DoublyLinked.SpliceDistinct | hw4/DoublyLinkedList.py:162-174 | removing one node from a chain of distinct nodes leaves distinct nodes |
| DoublyLinked.StaleAfterRemoveLast | hw4/DoublyLinkedList.py:116-139 | after `remove_last` on `[1, 2]` the list holds only 1, yet `2 in` the list answers true |
| DoublyLinked.FreshAfterRemoveLast | hw4/DoublyLinkedList.py:116-139 | with the corrected `remove_last` it answers false |
| DoublyLinked.FrontIsStack | hw4/DoublyLinkedList.py:48-114 | adding at the front and removing from the front is last in, first out |
| DoublyLinked.BackIsQueue | hw4/DoublyLinkedList.py:70-114 | adding at the back and removing from the front is first in, first out |
| DoublyLinked.RepeatedItem | hw4/DoublyLinkedList.py:29-30 | an item added twice is popped from the dictionary once, so removing the second copy is a KeyError (also lines 55-58, 101) |
| SearchTree.Insert | lab9/BSTNode.py:49-62 | `put` adds exactly the key to the tree's keys |
| SearchTree.InsertBST | lab9/BSTNode.py:49-62 | `put` keeps every key on the left smaller and every key on the right larger |
| SearchTree.InsertPresent | lab9/BSTNode.py:50-51 | in a search tree, putting a key already there changes nothing |
| SearchTree.InOrderSorted | lab9/BSTNode.py:34-44 | the in-order traversal of a search tree is strictly increasing |
| SearchTree.InOrderKeys | lab9/BSTNode.py:34-44 | the in-order traversal lists exactly the tree's keys |
| SearchTree.TraversalsAgree | lab9/BSTNode.py:34-44 | the three traversals list the same keys, each as often (also lines 64-76) |
| SearchTree.PostOrderMirrorsPreOrder | lab9/BSTNode.py:64-76 | post-order is the pre-order of the mirror image, read backwards |
| SearchTree.BSTNode.constructor | lab9/BSTNode.py:14-23 | a new node is a leaf with the key |
| SearchTree.BSTNode.Put | lab9/BSTNode.py:49-62 | the subtree becomes the tree value with the key inserted: an equal key changes nothing, a smaller one goes left and a larger one right, a new leaf where the side is empty |
| SearchTree.BSTNode.PutLeft | lab9/BSTNode.py:53-57 | a smaller key becomes a new left leaf, or is put into the left subtree; the subtree becomes the tree value with the key inserted |
| SearchTree.BSTNode.PutRight | lab9/BSTNode.py:59-62 | a larger key becomes a new right leaf, or is put into the right subtree; likewise |
| SearchTree.BSTNode.InOrder | lab9/BSTNode.py:34-44 | the node's generator yields the in-order traversal of its subtree |
| SearchTree.BSTNode.PreOrder | lab9/BSTNode.py:64-69 | the pre-order traversal of its subtree |
| SearchTree.BSTNode.PostOrder | lab9/BSTNode.py:71-76 | the post-order traversal of its subtree |
| SearchTree.KeysOf | lab9/BSTNode.py:101 | the keys of the queued nodes, in queue order |
| SearchTree.BSTNodeIterator.constructor | lab9/BSTNode.py:84-87 | the queue holds the subtree's nodes in order and the counter starts at 0 |
| SearchTree.BSTNodeIterator.Enqueue | lab9/BSTNode.py:90-95 | the subtree's nodes are appended to the queue in order |
| SearchTree.BSTNodeIterator.Next | lab9/BSTNode.py:98-103 | while the counter is within the queue, the key at the counter comes back and the counter moves on; after that, StopIteration and no change |
| SearchTree.Drain | lab9/BSTNode.py:98-106 | calling `__next__` until it stops collects every queued key, in order |
| SearchTree.BSTSet.constructor | lab9/BSTSet.py:15-16 | a new set is empty |
| SearchTree.BSTSet.Put | lab9/BSTSet.py:31-35 | the first key becomes the root, later ones go to the root's `put`; the keys are the old ones with the key inserted, and the order is kept |
| SearchTree.BSTSet.InOrder | lab9/BSTSet.py:25-28 | ValueError on an empty set; otherwise the keys, strictly increasing |
| SearchTree.BSTSet.PreOrder | lab9/BSTSet.py:37-40 | nothing for an empty set; otherwise the pre-order traversal |
| SearchTree.BSTSet.PostOrder | lab9/BSTSet.py:42-45 | nothing for an empty set; otherwise the post-order traversal |
| SearchTree.BSTSet.Iterate | lab9/BSTSet.py:19-22 | ValueError on an empty set; otherwise the node iterator, drained, yields the in-order traversal |
| SearchTree.RightChain | lab9/BSTSet.py:31-45 | putting 0, 1, 2, 3 gives pre-order 0, 1, 2, 3 and post-order 3, 2, 1, 0 |
| SearchTree.RightChainTree | lab9/BSTNode.py:49-76 | that tree is a chain to the right, with those traversals |
| SearchTree.Balanced | lab9/BSTNode.py:34-76 | putting 3, 1, 0, 2, 5, 4, 6 gives in-order 0 to 6, pre-order 3, 1, 0, 2, 5, 4, 6 and post-order 0, 2, 1, 4, 6, 5, 3 |
| SearchTree.BalancedShape | lab9/BSTNode.py:49-62 | those puts build the balanced tree of seven keys |
| OrderedLists.Search | lab6/lab6.py:78-96 | on a sorted list, `_bs` over `[lo, hi)` answers whether the item is in that range |
| OrderedLists.SearchHalves | lab6/lab6.py:84-96 | in a sorted list, an item smaller than the median can only be left of it and a larger one only right of it |
| OrderedLists.SearchSlow | lab6/lab6.py:59-76 | on a sorted list, the slicing search answers whether the item is in the list |
| OrderedLists.FirstIndex | lab6/lab6.py:30 | the first position holding the item, which `list.remove` drops |
| OrderedLists.RemoveAtSorted | lab6/lab6.py:30 | dropping one element keeps a list sorted |
| OrderedLists.RemoveAtMultiset | lab6/lab6.py:30 | dropping one element removes exactly one occurrence of it |
| OrderedLists.OrderedList.constructor | lab6/lab6.py:14-16 | with no items the list is empty |
| OrderedLists.OrderedList.FromItems | lab6/lab6.py:14-16 | with items the list holds them, sorted |
| OrderedLists.OrderedList.Add | lab6/lab6.py:18-21 | the item is added in its sorted place; the list holds one more occurrence of it and stays sorted |
| OrderedLists.OrderedList.Remove | lab6/lab6.py:23-30 | ValueError and no change when the item is absent; otherwise its first occurrence goes and the list stays sorted |
| OrderedLists.OrderedList.GetItem | lab6/lab6.py:32-34 | Python indexing: valid exactly from `-len` to `len - 1`, negative counting from the end; IndexError otherwise |
| OrderedLists.OrderedList.Len | lab6/lab6.py:40-42 | `len` is the number of items |
| OrderedLists.OrderedList.Contains | lab6/lab6.py:44-46 | on the sorted list, `in` answers whether the item is there |
| OrderedLists.OrderedList.ContainsSlow | lab6/lab6.py:59-60 | the slicing search over a copy answers the same |
| HalfSorted.FindZero | hw6/hw6.py:10-44 | an index it returns holds a zero; on a sign-ordered list it finds a zero whenever there is one, returns None when there is none but some element is positive, and raises IndexError when every element is negative |
| HalfSorted.FindZeroChecked | hw6/hw6.py:10-44 | testing `median == high` before indexing: an index it returns holds a zero, and on a sign-ordered list it returns one exactly when there is a zero |
| HalfSorted.AllNegativeRaises | hw6/hw6.py:29-38 | on `[-1, -2]` the loop as written raises IndexError, and the corrected one returns None |
| HalfSorted.NoZeroWithPositive | hw6/hw6.py:22-23 | `[-1, -1, -2, 7]` gives None |
| HalfSorted.SingleZero | hw6/hw6.py:18-19 | `[-1, -2, -69, 0, 2, 3]` gives 3 |
| HalfSorted.AtMostPermuted | hw6/hw6.py:56-64 | an upper bound on a range survives permuting it |
| HalfSorted.AtLeastPermuted | hw6/hw6.py:72-77 | a lower bound on a range survives permuting it |
| HalfSorted.SortedSlice | hw6/hw6.py:46-96 | a range sorted by index is a sorted slice |
| HalfSorted.OrderPair | hw6/hw6.py:60-61 | the pair ends in order, the larger value at `j + 1`, and nothing else moves |
| HalfSorted.BubblePass | hw6/hw6.py:59-62 | one inner pass permutes the range and leaves its largest element at the end |
| HalfSorted.Bubble | hw6/hw6.py:46-64 | ValueError and no change when `left > right`; otherwise `[left, right)` ends sorted holding the same elements, and nothing outside it changes |
| HalfSorted.PassExtends | hw6/hw6.py:56-62 | after a pass, the sorted tail grows by one and everything before it is at most its first element |
| HalfSorted.MinIndex | hw6/hw6.py:76 | `min` with a key gives the first position of a least element of `[i, right)` |
| HalfSorted.Selection | hw6/hw6.py:66-77 | ValueError and no change when `left > right`; otherwise `[left, right)` ends sorted holding the same elements, and nothing outside it changes |
| HalfSorted.SelectStep | hw6/hw6.py:76-77 | swapping a least element into place `i` extends the sorted prefix, still no larger than the rest |
| HalfSorted.FirstGreater | hw6/hw6.py:92 | the first position before `i` holding a larger element, or `i` when there is none |
| HalfSorted.Insertion | hw6/hw6.py:79-96 | ValueError and no change when `left > right`; otherwise `[left, right)` ends sorted holding the same elements, and nothing outside it changes |
| HalfSorted.SortRange | hw6/hw6.py:98-101 | whichever of the three sorts is passed, the range is sorted in place as promised |
| HalfSorted.AroundZero | hw6/hw6.py:102-108 | in a sign-ordered list nothing before a zero is positive and nothing after it negative |
| HalfSorted.SortedAroundZero | hw6/hw6.py:127-132 | both sides of the zero sorted, the left at most 0 and the right at least 0: the whole list is sorted |
| HalfSorted.AroundMultiset | hw6/hw6.py:127-132 | permuting the range before a position and then the one after it permutes the list and keeps that position |
| HalfSorted.AroundSorted | hw6/hw6.py:127-132 | sorting both sides of the zero of a sign-ordered list sorts all of it |
| HalfSorted.SortHalfSorted | hw6/hw6.py:98-132 | on a sign-ordered list with a zero, the list ends sorted holding the same elements; with no zero but a positive, AssertionError; all negative, IndexError from `find_zero`, with nothing changed on either error |
| CustomSets.BucketOf | lab8/lab8.py:32-40 | Python's `hash(x) % n` with a positive `n` is a bucket index in `[0, n)` |
| CustomSets.Without | lab8/lab8.py:88 | `list.remove` drops one occurrence: one shorter, one copy of the item fewer |
| CustomSets.WithoutNoDups | lab8/lab8.py:88 | a bucket without repeats, minus the item, has no repeats and no copy of the item |
| CustomSets.EmptyPlaced | lab8/lab8.py:22-36 | fresh empty buckets hold the empty set |
| CustomSets.AppendPlaced | lab8/lab8.py:41-72 | appending a new item to its bucket adds exactly that item to the set held |
| CustomSets.InBucket | lab8/lab8.py:38-41 | whatever bucket `j` holds is in the set and hashes to `j` |
| CustomSets.RemovePlaced | lab8/lab8.py:88 | removing an item from its bucket removes exactly it from the set held |
| CustomSets.CustomSet.constructor | lab8/lab8.py:18-22 | a new set is empty, with 8 buckets |
| CustomSets.CustomSet.FindBucket | lab8/lab8.py:24-32 | the bucket index is in range, and a held item is in that bucket |
| CustomSets.CustomSet.Len | lab8/lab8.py:46-48 | `len` is the number of items held |
| CustomSets.CustomSet.Contains | lab8/lab8.py:55-62 | looking only in the item's own bucket answers whether the set holds it |
| CustomSets.CustomSet.Rehash | lab8/lab8.py:34-44 | moving every item to bucket `hash % m` of `m` new buckets keeps the same items and count |
| CustomSets.CustomSet.MoveBucket | lab8/lab8.py:39-41 | the items of one old bucket are appended to their new buckets |
| CustomSets.CustomSet.Add | lab8/lab8.py:64-76 | the item is held afterwards; a duplicate changes nothing; a new item adds one to the count and doubles the buckets once the count exceeds half of them, so at most half stay used |
| CustomSets.CustomSet.Remove | lab8/lab8.py:78-95 | KeyError and no change when the item is absent; otherwise it leaves, the count drops by one, and the buckets halve when fewer than a quarter are used unless that leaves fewer than 8 |
| CustomSets.TwoItems | lab8/lab8.py:18-76 | adding 1 and 2 to a new set holds both, in 8 buckets |
| CustomSets.FourItems | lab8/lab8.py:18-76 | four items are not more than half of 8 buckets |
| CustomSets.FifthAddDoubles | lab8/lab8.py:64-76 | adding 4 again changes nothing; a fifth distinct item doubles the buckets to 16 |
| SimpleGraphs.GraphES.constructor | lab11/lab11.py:91-97 | a graph whose edges join vertices holds exactly the given vertices and edges |
| SimpleGraphs.GraphES.Create | lab11/lab11.py:91-101 | ValueError exactly when some edge has an endpoint that is not a vertex; otherwise a graph of those vertices and edges |
| SimpleGraphs.GraphES.Len | lab11/lab11.py:103-104 | `len` is the number of vertices |
| SimpleGraphs.GraphES.Contains | lab11/lab11.py:109-110 | `in` answers whether the vertex is in the graph |
| SimpleGraphs.GraphES.AddVertex | lab11/lab11.py:112-115 | ValueError and no change when the vertex is there already; otherwise it joins; the edges never change |
| SimpleGraphs.GraphES.RemoveVertex | lab11/lab11.py:117-121 | ValueError and no change when absent; otherwise the vertex goes and exactly the edges touching it go with it |
| SimpleGraphs.GraphES.AddEdge | lab11/lab11.py:123-128 | the edge is added exactly when it is new and joins two vertices; otherwise ValueError and no change |
| SimpleGraphs.GraphES.RemoveEdge | lab11/lab11.py:130-133 | ValueError and no change when the edge is absent; otherwise exactly that edge goes |
| SimpleGraphs.GraphES.Neighbors | lab11/lab11.py:135-136 | the heads of the edges leaving `v`, all of them vertices; edges are directed |
| SimpleGraphs.Adjacency | lab11/lab11.py:147-154 | ValueError exactly when some pair has an endpoint that is not a vertex; otherwise a symmetric neighbour map over the vertices joining exactly the given pairs, in either direction |
| SimpleGraphs.Join | lab11/lab11.py:153-154 | each end's set gains exactly the other end; no other set changes |
| SimpleGraphs.JoinSymmetric | lab11/lab11.py:153-154 | joining two vertices keeps the neighbour map symmetric |
| SimpleGraphs.JoinBoth | lab11/lab11.py:150-154 | joining both ends of one more pair records exactly that pair as well |
| SimpleGraphs.JoinNext | lab11/lab11.py:150-154 | one step of the constructor's loop keeps the map symmetric and recording the pairs so far |
| SimpleGraphs.GraphAS.constructor | lab11/lab11.py:142-148 | a graph holds the given vertices and symmetric neighbour map |
| SimpleGraphs.GraphAS.Create | lab11/lab11.py:142-154 | ValueError exactly when some pair has an endpoint that is not a vertex; otherwise a graph whose neighbour sets join exactly the given pairs |
| SimpleGraphs.GraphAS.Len | lab11/lab11.py:156-157 | `len` is the number of vertices |
| SimpleGraphs.GraphAS.Contains | lab11/lab11.py:162-163 | `in` answers whether the vertex is in the graph |
| SimpleGraphs.GraphAS.AddVertex | lab11/lab11.py:165-169 | ValueError and no change when the vertex is there already; otherwise it joins with no neighbours |
| SimpleGraphs.GraphAS.RemoveVertex | lab11/lab11.py:171-177 | ValueError and no change when absent; otherwise its entry goes and every other neighbour set loses it |
| SimpleGraphs.DiscardEverywhere | lab11/lab11.py:176-177 | every neighbour set loses `v`, and the keys stay |
| SimpleGraphs.GraphAS.AddEdge | lab11/lab11.py:179-183 | ValueError and no change unless both ends are vertices; otherwise each end gains the other and no other set changes; a repeated edge changes nothing |
| SimpleGraphs.GraphAS.RemoveEdge | lab11/lab11.py:185-187 | KeyError and no change when an end is not a vertex; otherwise each end loses the other, and a missing edge is no error |
| SimpleGraphs.GraphAS.Neighbors | lab11/lab11.py:189-190 | KeyError for a vertex not in the graph; otherwise its neighbour set, all vertices, each of which has `v` as a neighbour |
| SimpleGraphs.DirectedVersusUndirected | lab11/lab11.py:87-190 | for the single pair `(1, 2)`, vertex 2 has no neighbour in `Graph_ES` and neighbour 1 in `Graph_AS` |
| ExpressionTrees.Value | hw9/BET.py:18-33 | a card's value is between 1 and 13 |
| ExpressionTrees.CardName | hw9/BET.py:35-50 | a card prints as one character, except Ten as `10`, and never as a parenthesis |
| ExpressionTrees.ParseCard | hw9/BET.py:35-76 | `from_str` inverts `__str__`: it accepts exactly the thirteen card names, giving that card, and raises KeyError for anything else |
| ExpressionTrees.OpName | hw9/BET.py:86-92 | an operator prints as one character that is no card's name, which lets `from_postfix` tell the two apart |
| ExpressionTrees.ParseOp | hw9/BET.py:86-101 | `from_str` inverts `__str__` for the four operators; KeyError otherwise |
| ExpressionTrees.Leaves | hw9/BET.py:175-239 | every tree has at least one card |
| ExpressionTrees.Equal | hw9/BET.py:200-203 | the nodes' `__eq__`, with a leaf never equal to an operator node, is exactly equality of trees (also lines 264-271) |
| ExpressionTrees.Show | hw9/BET.py:194-195 | `repr` is never empty, and it opens with a parenthesis exactly for an operator node (also lines 261-262) |
| ExpressionTrees.OccurrencesAppend | hw9/BET.py:261-262 | counting a character in a concatenation adds the counts |
| ExpressionTrees.NoOccurrences | hw9/BET.py:194-195 | a string without the character counts none |
| ExpressionTrees.ShowNodeOccurrences | hw9/BET.py:261-262 | an operator node adds one parenthesis of each kind to its operands' text |
| ExpressionTrees.ShowParenthesised | hw9/BET.py:194-195 | `repr` holds exactly one opening and one closing parenthesis per operator node (also lines 261-262) |
| ExpressionTrees.PositiveProduct | hw9/BET.py:241-257 | denominators stay positive under multiplication |
| ExpressionTrees.PlusMeaning | hw9/BET.py:245-246 | exact addition gives the sum |
| ExpressionTrees.MinusMeaning | hw9/BET.py:248-249 | exact subtraction gives the difference |
| ExpressionTrees.TimesMeaning | hw9/BET.py:251-252 | exact multiplication gives the product |
| ExpressionTrees.OverMeaning | hw9/BET.py:254-257 | division gives the quotient, and 0 for a zero divisor |
| ExpressionTrees.ApplyMeaning | hw9/BET.py:241-259 | each operator's exact result is its ordinary value |
| ExpressionTrees.EvaluateMeaning | hw9/BET.py:197-198 | `evaluate` (the function `Evaluate`) gives every tree its ordinary arithmetic value, dividing by zero giving 0 (also lines 241-259) |
| ExpressionTrees.TargetValue | hw9/BET.py:15 | a fraction equals 24 exactly when its numerator is 24 times its denominator (also line 346) |
| ExpressionTrees.IsSolutionMeaning | hw9/BET.py:346-353 | a tree is a solution exactly when its ordinary value is 24 |
| ExpressionTrees.WordLength | hw9/BET.py:137 | the leading run before the first whitespace |
| ExpressionTrees.Words | hw9/BET.py:137 | `split()` gives non-empty runs without whitespace |
| ExpressionTrees.WordLengthOfWord | hw9/BET.py:137 | a word followed by whitespace or nothing is read whole |
| ExpressionTrees.WordsUnwords | hw9/BET.py:137 | splitting words joined by spaces gives them back |
| ExpressionTrees.Postfix | hw9/BET.py:108-134 | the postfix tokens of a tree are all words |
| ExpressionTrees.RunPostfix | hw9/BET.py:137-147 | reading a tree's postfix form pushes exactly that tree |
| ExpressionTrees.FlattenTopTwo | hw9/BET.py:143-145 | combining the two topmost trees under an operator appends that operator's token |
| ExpressionTrees.PushFlattens | hw9/BET.py:138-147 | each accepted token extends the stack's postfix tokens by that token |
| ExpressionTrees.RunFlattens | hw9/BET.py:137-147 | the tokens a run accepts become, in order, the stack's postfix tokens |
| ExpressionTrees.ParsePostfix | hw9/BET.py:108-154 | `from_postfix` accepts exactly the postfix forms of trees and returns that tree |
| ExpressionTrees.Push | hw9/BET.py:138-147 | an accepted token keeps the trees below the new top, an operator taking two off and a card adding one; a failure is KeyError, or ValueError with fewer than two trees |
| ExpressionTrees.Run | hw9/BET.py:137-147 | the tokens are pushed in turn, and a failed run is a KeyError (not a card) or a ValueError (missing operand) |
| ExpressionTrees.Finish | hw9/BET.py:149-154 | the result is the one tree left on the stack; ValueError when not exactly one is |
| ExpressionTrees.RunStep | hw9/BET.py:137-147 | a run is one push and then the rest |
| ExpressionTrees.FromPostfix | hw9/BET.py:108-154 | the loop over `split()` returns a tree exactly when the words are its postfix form, and raises KeyError or ValueError otherwise |
| ExpressionTrees.PushToken | hw9/BET.py:138-147 | an operator pops two operands, the top one on the right, with ValueError when fewer than two; any other token pushes a leaf or raises KeyError |
| ExpressionTrees.UnwordsCons | hw9/BET.py:137 | joining a word before others adds it and a space |
| ExpressionTrees.UnwordsSnoc | hw9/BET.py:137 | joining one more word adds a space and the word |
| ExpressionTrees.JoinExample | hw9/BET.py:115 | the tokens of `'A 2 3 4 + - *'` joined by spaces |
| ExpressionTrees.ShowExample | hw9/BET.py:130-131 | the tree of `'A 2 3 4 + - *'` prints as `(A*(2-(3+4)))` |
| ExpressionTrees.SplitExample | hw9/BET.py:130-131 | `'A 2 3 4 + - *'.split()` is that tree's postfix form |
| ExpressionTrees.PostfixExample | hw9/BET.py:130-131 | `'A 2 3 4 + - *'` parses to `(A*(2-(3+4)))` |
| ExpressionTrees.PostfixExampleQJ | hw9/BET.py:132-133 | `'Q J *'` parses to `(Q*J)` |
| ExpressionTrees.SplitQJ | hw9/BET.py:132-133 | `'Q J *'.split()` is that tree's postfix form |
| ExpressionTrees.TwoTreesLeft | hw9/BET.py:149-152 | two complete expressions side by side leave two trees: ValueError |
| ExpressionTrees.MissingOperand | hw9/BET.py:138-142 | an operator after one complete expression finds one operand: ValueError |
| ExpressionTrees.JoinTwoTrees | hw9/BET.py:149-152 | the tokens of `'A 2 3 4 + -'` joined by spaces |
| ExpressionTrees.SplitTwoTrees | hw9/BET.py:149-152 | `'A 2 3 4 + -'` splits into a card and a complete expression |
| ExpressionTrees.JoinMissingOperand | hw9/BET.py:138-142 | the tokens of `'A 2 3 4 + - * *'` joined by spaces |
| ExpressionTrees.SplitMissingOperand | hw9/BET.py:138-142 | `'A 2 3 4 + - * *'` splits into a complete expression and one more operator |
| ExpressionTrees.SplitNoOperator | hw9/BET.py:149-152 | `'A 2'` splits into two cards |
| ExpressionTrees.InvalidPostfix | hw9/BET.py:138-152 | `'A 2 3 4 + -'`, `'A 2 3 4 + - * *'` and `'A 2'` raise ValueError |
| ExpressionTrees.Row | hw9/BET.py:308-313 | one node per right-hand tree |
| ExpressionTrees.Pairs | hw9/BET.py:307-313 | one node per pair of left and right trees |
| ExpressionTrees.ForOps | hw9/BET.py:306-313 | one node per operator and pair of trees |
| ExpressionTrees.InRow | hw9/BET.py:308-313 | the innermost loop builds exactly the nodes with that operator, that left tree and a right tree from the list |
| ExpressionTrees.InPairs | hw9/BET.py:307-313 | the two inner loops build exactly the nodes with that operator over a left and a right tree |
| ExpressionTrees.InForOps | hw9/BET.py:306-313 | the three inner loops build exactly the nodes over a listed operator, left and right tree |
| ExpressionTrees.TreesExactly | hw9/BET.py:277-313 | `create_trees` yields exactly the trees whose cards, read left to right, are the given cards |
| ExpressionTrees.SplitsExactly | hw9/BET.py:305-313 | the splits from `i` on give exactly the operator trees over the cards whose left operand has at least `i` cards |
| ExpressionTrees.SplitHere | hw9/BET.py:305-313 | the trees of split `i` are exactly those whose left operand holds the first `i` cards |
| ExpressionTrees.EveryOp | hw9/BET.py:78-84 | iterating `OperatorType` visits every operator (also line 306) |
| ExpressionTrees.SplitAt | hw9/BET.py:307-308 | cutting the cards at `i` is taking a left part of `i` cards |
| ExpressionTrees.Trees | hw9/BET.py:277-313 | how many trees `create_trees` yields depends only on the number of cards |
| ExpressionTrees.SplitsFrom | hw9/BET.py:305-313 | the splits from `i` on yield, summed over the splits, four trees for each pair of a left tree and a right tree |
| ExpressionTrees.TreesCounts | hw9/BET.py:294-303 | no trees for no cards, one leaf for one card, 4 trees for two cards and 320 for four |
| ExpressionTrees.TreesOfTwo | hw9/BET.py:296-297 | two cards give `(a+b)`, `(a-b)`, `(a*b)`, `(a/b)`, in that order |
| ExpressionTrees.ForOpsSingle | hw9/BET.py:306-313 | with one tree on each side, one node per operator, in operator order |
| ExpressionTrees.RemoveAt | hw9/BET.py:344 | one element fewer, one occurrence of it gone |
| ExpressionTrees.Prepend | hw9/BET.py:344 | one sequence per sequence given |
| ExpressionTrees.Permutations | hw9/BET.py:344 | `permutations` yields `n!` orderings of `n` cards |
| ExpressionTrees.PermutationsFrom | hw9/BET.py:344 | the orderings starting at position `i` or later number `(n - i)` times `(n - 1)!` |
| ExpressionTrees.PermutationsExactly | hw9/BET.py:344-350 | `permutations` yields exactly the rearrangements of the hand |
| ExpressionTrees.PermutationsFromExactly | hw9/BET.py:344-350 | the orderings from position `j` on are the rearrangements starting with one of those cards |
| ExpressionTrees.PrependedAt | hw9/BET.py:344-350 | a rearrangement starting with the `j`th card is among that card's orderings |
| ExpressionTrees.PrependedIn | hw9/BET.py:344-350 | a sequence is in `Prepend(x, ps)` exactly when it is `x` followed by one of `ps` |
| ExpressionTrees.CardSetSize | hw9/BET.py:343 | `len(set(cards)) == len(cards)` holds exactly when no card repeats |
| ExpressionTrees.FoundExtends | hw9/BET.py:344-347 | a solution already reported stays reported as more are added |
| ExpressionTrees.TreesOverHand | hw9/BET.py:344-345 | the trees over an ordering of the hand use exactly the hand's cards |
| ExpressionTrees.ScanAll | hw9/BET.py:345-347 | the inner loop of the first branch reports every tree that makes 24, and only those |
| ExpressionTrees.CollectAll | hw9/BET.py:344-347 | the first branch reports every tree over every ordering that makes 24, and only those |
| ExpressionTrees.ScanUnseen | hw9/BET.py:351-355 | the inner loop of the second branch reports each tree that makes 24 the first time it is seen, and none twice |
| ExpressionTrees.CollectUnseen | hw9/BET.py:349-355 | the second branch reports every solution over every ordering once |
| ExpressionTrees.FindSolutions | hw9/BET.py:315-355 | every reported tree makes 24 from exactly the hand's cards; every such tree is reported; when a card repeats, no tree is reported twice |

## Left out

- Input and output are not modelled. This covers `print_reservation_list`, `_print_maze`, `Block`/`Blockchain.pretty_print`, the `__repr__` methods used only for printing, the menu of hw10/menu.py, and the timing driver of hw3/hw3.py.
- Randomness is not modelled: `Deck.shuffle` in both card games, `Maze.init_random`, `add_random_walls` and the generation of half-sorted lists.
- Blockchain.TransactionBytes: names are assumed to be ASCII. `.encode('ascii')` (hw8/blockchain.py:20) raises `UnicodeEncodeError` for any other character, and `add_block` would raise it when it hashes the previous block (hw8/blockchain.py:171). Neither `TransactionBytes` nor `Blockchain.Blockchain.AddBlock` models that error.
- SHA-256 block hashing and `validate_chain` are not modelled. They rely on a foreign library; a block's hash is left abstract.
- Python's `hash` is a parameter of each hash-based class: a function to naturals for `CustomHashMap`, to integers for the lab8 set. A negative hash, which drives `perturb` to -1, is therefore not modelled.
- The `TypeError` raised for an unhashable key (`hasattr(key, '__hash__')` in hw8/hashmap.py and `_find_bucket` in lab8/lab8.py) is not modelled. Every key is hashable here.
- `__hash__` and `__eq__` of keys and vertices are Dafny equality.
- Items of generic containers are integers where order is needed (ordered list, search tree, sorts). Elsewhere they are a type parameter.
- Generators are modelled as the sequence they yield.
- The `__iter__` methods of lab6/lab6.py, lab8/lab8.py and lab11/lab11.py are not modelled. They only delegate to the underlying list, buckets or vertex set.
- `OrderedList._contains_list` (lab6/lab6.py:55-57) is not modelled. It is the list's own `in`, which `OrderedLists.OrderedList.Contains` states directly.
- Iteration over a Python set or dictionary visits its elements in an order the model leaves open (`WeightedGraph.Enumerate`).
- Dijkstra's floating-point weights and `math.inf` are integer weights with an explicit `Infinity`.
- `ItemNotInListError` of lab6/lab6.py, a subclass of both `ValueError` and `RuntimeError`, is modelled as `ValueError`. Exception classes have no hierarchy in the model.
- Maze.IsWall: requires the square to be in the maze of a rectangular grid. The source indexes any pair: a negative index wraps and any other out-of-range index raises `IndexError`. Its only caller, `_is_move_available`, tests `is_move_in_maze` first. `Maze.CellAt` states Python's indexing for reads in general.
- Maze.Rectangular: `set_maze` stores whatever grid it is given. The model assumes the grid has `rows` rows of `cols` cells wherever it searches or tests for walls.
- Game.Search: requires a rectangular grid and a current square inside it, off the path and not a wall. The source only calls it that way, from `find_route` at the start square.
- `_is_puzzle_solved` (hw5/game.py:20-22) has no member of its own: `find_route` never calls it and compares the square with the finish inline, which the search writes as `finish == cur`.
- JumpPuzzle.SolveFrom: the recursion is unbounded. In Python it is one call deep per tile visited, so a long board raises `RecursionError` (the test at lab5/TestSolvePuzzle.py:16 notes one for 2000 tiles). The model answers for every length.
- Game.FindBestRouteCorrect: the 2x2 example and the all-zero maze of hw5/test_game.py are not proved as concrete evaluations. The general optimality and no-route results cover the corrected search on those mazes. The tests call `find_route` as written, and that it returns the same there is not proved; for the search as written only soundness is (`Game.SearchSound`, `Game.FindRoute`).
- Waitlist.Waitlist.AddCustomer: requires the ordering invariant `Valid()`, which every method keeps; `list.sort` is modelled by sorted insertion, proved equal to sorting (`Waitlist.AddIsSort`).
- DoublyLinked.DoublyLinkedList.RemoveNode: requires `Live()`, that the dictionary holds only nodes in the list. After the as-written `remove_last` this fails, as the finding below shows.
- DoublyLinked.DoublyLinkedList.Neighbors: the items returned are stated only under `Live()`. Otherwise only the `ValueError` case is stated.
- CustomSets.CustomSet.Rehash: requires at least 8 buckets, which every call from `add` and `remove` supplies.
- HalfSorted.Bubble: requires `0 <= left` and `right <= len(L)`. Python slicing would clamp or wrap other bounds; the same holds for `HalfSorted.Selection`, `HalfSorted.Insertion` and `HalfSorted.SortRange`.
- HalfSorted.SortHalfSorted: the `sort` argument is one of the three sorts of hw6/hw6.py. The source accepts any callable that sorts a range; other sort functions are not modelled.
- HalfSorted.SortHalfSorted: uses the as-written `find_zero`, so on an all-negative list it reports the `IndexError`.
- WeightedGraph.Graph.ShortestPaths: the queue is built by the corrected constructor `PriorityQueue.Heapified` rather than the top-down one at hw11/Graph.py:43-44 (see Findings). The cases in which `update` raises `ValueError` are not characterised. Distances are proved least over all walks only when it returns normally.
- WeightedGraph.Graph.MinimumSpanningTree: the total weight of the tree is not proved minimal. The tree's shape, reach and weights are.
- ExpressionTrees.Trees: takes parsed cards, as do `ExpressionTrees.SplitsFrom` and `ExpressionTrees.TreesExactly`. `create_trees` builds each leaf with `BETLeaf(card)`, which parses the string and raises `KeyError` for one that is not a card (hw9/BET.py:302). That error is not modelled here; `ExpressionTrees.ParseCard` states it for a single card.
- ExpressionTrees.FindSolutions: takes the hand as parsed cards. That no tree is reported twice is proved only for a hand with a repeated card, the case filtered through `seen_trees`; for a hand of distinct cards it is not stated. The exact counts and lists in the docstring (33 solutions, the six trees for `4444`, none for `10AAA`) are not proved either.
- MagicSort.InsertionSortRange: requires `0 <= left` and `right <= len(L)`. Python's negative indices and clamped ranges outside these bounds are not modelled.
- MagicSort.QuickSortRange: requires `0 <= left` and `right <= len(L)`, for the same reason.
- MagicSort.MergeSortRange: requires `0 <= left` and `right <= len(L)`, for the same reason.
- MagicSort.InsertionSortRange: the docstring calls insertion sort stable, but the insertion point is the first earlier element with `L[i] <= L[j]` (hw7/MagicSort.py:103), which puts an element in front of an equal one. Over integers stability cannot be observed, so the model states no stability for any of the sorts.
- SearchTree.BSTNode.constructor: only the default children are modelled. Passing `left` and `right` to `BSTNode(key, left, right)` (lab9/BSTNode.py:14-23) is not, since every caller in lab9 builds leaves.
- HashMap.CustomHashMap.Lookup: requires an empty slot in the table. The probe loop of `_lookup` (hw8/hashmap.py:73-85) stops only at an empty slot or at the key, so without an empty slot a missing key is probed forever (see Findings), which a terminating method cannot return from. A table with no empty slot whose probe does reach the key is not covered either.
- HashMap.CustomHashMap.Contains (`in` calls `_lookup`): requires an empty slot in the table. The probe loop of `_lookup` (hw8/hashmap.py:73-85) stops only at an empty slot or at the key, so without an empty slot a missing key is probed forever (see Findings), which a terminating method cannot return from. A table with no empty slot whose probe does reach the key is not covered either.
- HashMap.CustomHashMap.GetItem (`__getitem__` calls `_lookup`): requires an empty slot in the table. The probe loop of `_lookup` (hw8/hashmap.py:73-85) stops only at an empty slot or at the key, so without an empty slot a missing key is probed forever (see Findings), which a terminating method cannot return from. A table with no empty slot whose probe does reach the key is not covered either.
- HashMap.CustomHashMap.Store (the store calls `_lookup`): requires an empty slot in the table. The probe loop of `_lookup` (hw8/hashmap.py:73-85) stops only at an empty slot or at the key, so without an empty slot a missing key is probed forever (see Findings), which a terminating method cannot return from. A table with no empty slot whose probe does reach the key is not covered either.
- HashMap.CustomHashMap.SetItem (`__setitem__` calls `_lookup`): requires an empty slot in the table. The probe loop of `_lookup` (hw8/hashmap.py:73-85) stops only at an empty slot or at the key, so without an empty slot a missing key is probed forever (see Findings), which a terminating method cannot return from. A table with no empty slot whose probe does reach the key is not covered either.
- HashMap.CustomHashMap.DelItem (`__delitem__` calls `_lookup`): requires an empty slot in the table. The probe loop of `_lookup` (hw8/hashmap.py:73-85) stops only at an empty slot or at the key, so without an empty slot a missing key is probed forever (see Findings), which a terminating method cannot return from. A table with no empty slot whose probe does reach the key is not covered either.
- HashMap.CustomHashMap.Items (each value is read with `__getitem__`): requires an empty slot in the table. The probe loop of `_lookup` (hw8/hashmap.py:73-85) stops only at an empty slot or at the key, so without an empty slot a missing key is probed forever (see Findings), which a terminating method cannot return from. A table with no empty slot whose probe does reach the key is not covered either.
- HashMap.CustomHashMap.Copy (of the map copied from, whose items are read): requires an empty slot in the table. The probe loop of `_lookup` (hw8/hashmap.py:73-85) stops only at an empty slot or at the key, so without an empty slot a missing key is probed forever (see Findings), which a terminating method cannot return from. A table with no empty slot whose probe does reach the key is not covered either.
- Cards.Deck.Play: `play` belongs to the `Hand` subclass of `Deck` (hw2/Cards.py:63-79). The model merges the two classes into `Cards.Deck`, with `Cards.Deck.Hand` as the constructor of a hand, so a plain deck can also be played from.
- HashMap.CustomHashMap.FromPairs: the keyword arguments of `CustomHashMap(**kwargs)` (hw8/hashmap.py:144-150) are not modelled; they store string keys exactly as pairs do. Building from a mapping is `HashMap.CustomHashMap.Copy` or `FromPairs` over its items.
- GroupGame.Deck.constructor: the four attribute lists are parameters; the default lists `(1, 2, 3)`, three colours, three shadings and three shapes are not built in.
- Strings.LexLessTotal: Python string comparison is by code point, with no Unicode normalisation.

## Findings

| source | as written | input that shows it | evidently intended | confidence | as-written member | corrected member |
|---|---|---|---|---|---|---|
| hw8/hashmap.py:195-197 | the load check counts live entries only (`_used`), so tombstones never trigger a rehash and can fill every empty slot | identity hash, capacity 8: set and delete keys 0 to 6, then set key 7; no slot is empty and a lookup of key 8 never stops | count tombstones toward the load factor, so that a store always leaves an empty slot | not executed | HashMap.TombstoneExhaustion | HashMap.CustomHashMap.SetItemCorrected |
| lab10/lab10.py:94-95 | the constructor sifts down the parents from the root downwards | priorities `[3, 2, 1, 0]` become `[1, 0, 3, 2]`, whose root is not the least, so `remove_min` returns priority 1 first | sift down from the last parent back to the root, which always builds a heap | not executed | Heaps.HeapifyAsWrittenCounterexample | Heaps.HeapifyIsHeap |
| hw11/Graph.py:43-44 | the queue is built by sifting down from the root downwards, which need not give a heap, so `shortest_paths` can pop a vertex before its distance is final | vertices enumerated as 0, 1, 2, 3, the one edge `{0, 3}` of weight 1, start 3: vertex 0 is popped first, then 3, whose edge calls `update(0)` on a vertex no longer queued, which raises ValueError | sift down from the last parent back to the root | not executed | WeightedGraph.DijkstraQueueAsWritten | WeightedGraph.PriorityQueue.Heapified |
| hw11/Graph.py:211-214 | `remove_vertex` deletes the edge to each remaining vertex after taking `v` out of the vertex set, so a self-loop at `v` stays | vertex 0 with the edge `{0}` of weight 1; `remove_vertex(0)` leaves that edge, to a vertex no longer in the graph | remove every edge at `v`, the self-loop included | not executed | WeightedGraph.RemoveVertexKeepsSelfLoop | WeightedGraph.Graph.RemoveVertexCorrected |
| hw5/maze.py:121 | `set_start_finish` tests `start` twice and never tests `finish` | on a 2x2 grid, start `(0, 0)` and finish `(-1, -1)` are accepted and the bottom-right square is set to 0 | raise `RuntimeError` when the finish is outside the maze | not executed | Maze.FinishOutsideAccepted | Maze.Maze.SetStartFinishChecked |
| hw5/game.py:38-44 | the current square's points are added to the result even when it is the `(-1, [])` sentinel of a dead end | in `[[9, 0, 0]]` from `(0, 1)` to `(0, 2)`, the dead end to the left outscores the route, and the search returns `(8, [])` | keep the sentinel when no neighbour reaches the finish, so the best route is found | not executed | Game.DeadEndOutscoresRoute | Game.FindBestRouteCorrect |
| lab4/Lab4.py:93-103 | `add_first` on an empty list leaves `_tail` as `None` | on an empty list, `add_first(1)` then `add_last(2)` leaves only 2 in the list while `len` is 2 | set `_tail` to the new node when the list was empty | not executed | SinglyLinked.LostFirstItem | SinglyLinked.LinkedList.AddFirstChecked |
| hw4/DoublyLinkedList.py:116-135 | `remove_last` leaves the removed item in `_nodes` | after `remove_last` on `[1, 2]`, `2 in` the list is true | pop the item from `_nodes`, as `remove_first` does | not executed | DoublyLinked.StaleAfterRemoveLast | DoublyLinked.DoublyLinkedList.RemoveLastChecked |
| hw6/hw6.py:29-38 | `find_zero` reads `L[median]` before testing whether `median` has reached `len(L)` | `[-1, -2]` raises `IndexError` | return `None` when there is no zero | not executed | HalfSorted.AllNegativeRaises | HalfSorted.FindZeroChecked |
