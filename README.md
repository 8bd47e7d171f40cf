# Parallel-programming exercises, modelled in Dafny

The repository is a collection of course exercises in C. This project models the sequential
logic at their heart and proves what each exercise promises:

- **Conway's Game of Life on a block-partitioned grid** (`life.c`, module `Life`).
  It covers the command-line checks `Proc_valid` and `Life_valid` and the tile sizes.
  It covers the `Split` scan that gives every process its tile and the rank ↔ process-grid
  coordinate mapping.
  It covers the partner loop over the 8 surrounding processes and the neighbour counting
  loops with the Life rule.
  It also covers the reassembly of the tiles that `Join` is meant to perform.
  The generation is modelled as intended: a tile extended by a one-cell halo ring, cells
  outside the life grid dead, the count over the 8 surrounding cells, and the result in a
  separate buffer.
  The model proves that a generation computed tile by tile equals the tile of the generation
  of the whole grid.
- **The sorted linked list of ints** (`pthreads.c`, `stuff.c`, `past.c`, modules
  `SortedIntList` and `TaskList`).
  It covers `Insert`, `Delete`, `Member` and `Is_empty` on a heap-allocated chain kept
  strictly ascending, and the `ExecuteTasks` dispatcher of `stuff.c`.
- **The linked list of strings** (`linkedlist.c`, module `LinkedStrings`).
  It covers tail `Insert`, `RightSide`, `Free` and the half-by-half `Merge`.
  `Merge` is modelled as written, with the case in which it goes wrong.
  It also covers the doubling merge sort the exercise asks for.
- **Array merges and sorts.**
  - Odd-even transposition sort (`serial_odd_even_timed.c`, module
    `OddEvenTransposition`). Sortedness after n phases is proved through the 0-1 principle.
  - The two-array `Merge` of `MergePP.c` (module `MergePP`).
  - The power-of-two `Mergesort` with its global `scratch` buffer (`mergesort.c`, module
    `MergeSortPow2`).
  - The top-down string `mergesort` (`merge.c`, module `StringMergeSort`).
  - Shared specification modules: `IntMerge` (merging ints, ties taken from the first input)
    and `StrOrder` (`strcmp` as lexicographic order on character codes).
- **The butterfly global sum** (`global_sum_bf.c`, module `Butterfly`).
  The `MPI_Sendrecv` rounds are simulated in lockstep over the array of per-rank sums, with
  `partner = rank ^ bitmask`.
- **Trial-division primes** (`primes1.c`, module `Primes`).

`Powers` (powers of two, quotient facts) and `SeqFacts` (sequence lemmas) are helpers.

## Model

| member | source | states |
|---|---|---|
| Life.ProcValid | life.c:199-208 | The result is 0 or 1, and it is 1 exactly when the process count equals row × col. |
| Life.LifeValid | life.c:221-230 | The result is 0 or 1, and it is 1 exactly when each life-grid side is a whole multiple of the process-grid side. |
| Life.TileSizes | life.c:124-127 | Under a valid layout: (l_row / p_row) · p_row = l_row and (l_col / p_col) · p_col = l_col. Both tile sides are non-negative, and positive when the grid side is. |
| Life.RankToPlace | life.c:333-334 | Every rank r < p_row · p_col sits at row r / p_col < p_row and column r % p_col < p_col. `row * p_col + col` there gives r back. |
| Life.PlaceToRank | life.c:356 | Every place of the process grid gives a rank below p_row · p_col whose row and column are that place. |
| Life.Partners | life.c:344-357 | The partners the double offset loop visits are exactly the neighbours: ranks one step away in each direction, inside the process grid, the rank itself excluded. Each is listed once, and there are `NeighbourCount` of them. |
| Life.PartnerColumn | life.c:345-356 | One pass of the inner l loop adds the neighbours of column offset k, each once. It adds as many as the rows a − 1 .. a + 1 inside the process grid, one fewer for the rank's own column. |
| Life.NeighbourCounts | life.c:344-357 | On a process grid of at least 2 × 2, a corner rank has 3 partners, an edge rank 5 and an inner rank 8. |
| Life.PartnerCandidate | life.c:346-356 | The place at offset (l, k) holds a neighbour exactly when it lies in the process grid and is not the rank's own. That neighbour is the only rank at that offset. |
| Life.PartnerTestAsWrittenAdmitsOutside | life.c:349 | For a rank in the bottom process row, the test as written lets through the place below it. The partner number there is ≥ p_row · p_col, so it is not a neighbour. |
| Life.CellAt | life.c:289-294 | Flat position n of the life array is a cell of the grid whose index `i * l_col + j` is n. |
| Life.CellPlace | life.c:291-293 | A cell's `dest` is a rank in [0, p_row · p_col), in process row i / lrs and column j / lcs. The cell is element `Slot` (< local size) of that rank's tile. |
| Life.TileCell | life.c:289-308 | Element k of rank r's tile lies in r's block: rows Top..Top+lrs and columns Left..Left+lcs of the life grid. |
| Life.TileCellAt | life.c:289-308 | Row a, column b of r's tile is element a · lcs + b, which is the cell (Top + a, Left + b). |
| Life.DestIs | life.c:291-293 | `dest` of a cell is r exactly when the cell lies in r's rows and in r's columns. |
| Life.TileCellOwner | life.c:289-301 | Element k of r's tile is a cell that the scan sends to r and stores at position k. |
| Life.ReceivedBound | life.c:288-301 | At any point of the scan, rank r has received between 0 and local_size cells. |
| Life.SplitCellStep | life.c:295-301 | A cell owned by r is the next element of r's tile and adds one to r's count. Any other cell leaves r's count unchanged. |
| Life.SplitRowStep | life.c:289-290 | Going from the end of row i to the start of row i + 1 meets no cell. |
| Life.SplitScanEnds | life.c:287-309 | The count starts at 0. After the last row it is local_size. |
| Life.Split | life.c:284-310 | The count reaches local_size, and the local array holds exactly the rank's tile of the first l_row · l_col cells, in row-major order. The life array may be longer than the grid. |
| Life.SplitRow | life.c:290-302 | One row of the scan stores each of r's cells at the next free place. The count advances to the scan position after the row and stays within local_size. |
| Life.AssembledAt | life.c:170-172 | The assembled grid holds, at every cell, the owner's tile entry at the cell's slot. |
| Life.SplitThenAssemble | life.c:170-172 | Reassembling the tiles that `Split` produces gives the life grid back. |
| Life.AssembleThenSplit | life.c:270-272 | Splitting an assembled grid gives every rank back its own tile. |
| Life.Join | life.c:177-187 | Corrected `Join`: afterwards the first l_row · l_col cells of the life array are the assembly of all ranks' tiles, and the cells after them are unchanged. |
| Life.JoinRow | life.c:179-185 | Row i of the life array is written from the owners' tiles, and the rows before it are kept. |
| Life.JoinAsWritten | life.c:177-187 | `Join` as written, with its i, j and k loops: the life array becomes `JoinedAsWritten` of its old contents. With local_size > 0, every cell of the grid ends with temp_array[local_size − 1]. |
| Life.JoinAsWrittenRow | life.c:180-185 | The j loop writes every cell of row i through the k loop and leaves every other cell unchanged. |
| Life.CopyEntries | life.c:182-184 | The k loop stores temp_array[0], …, temp_array[local_size − 1] into one cell in turn, and no other cell changes. |
| Life.OverwrittenLast | life.c:182-184 | After stores of temp[k], …, temp[last] into a cell, the cell holds the last entry of temp. If no store happens it keeps its value. |
| Life.JoinAsWrittenLosesCells | life.c:179-186 | For any grid with two different cells and any non-empty `temp_array`, `Join` as written does not give the grid back, while reassembling the tiles does. |
| Life.Rule | life.c:445-460 | The result is 0 or 1. A live cell lives on exactly with 2 or 3 live neighbours. Any other cell becomes live exactly with 3. |
| Life.AroundSame | life.c:432-444 | The neighbour count depends only on the 8 cells around the cell. |
| Life.CountColumn | life.c:433-443 | The inner counting loop adds up the live halo cells of one column offset, the centre excluded. |
| Life.CountLive | life.c:432-444 | The counting loops give the number of live cells among the 8 halo cells around tile cell (i, j). |
| Life.NextTileAt | life.c:445-460 | Entry i · lcs + j of the next tile is the rule applied to the cell and its live-neighbour count. |
| Life.Neighbors | life.c:430-462 | The separate result buffer ends up holding the next generation of the tile, computed from its halo. |
| Life.NeighborsRow | life.c:431-461 | Row i of the buffer is filled with the next generation, and the rows before it are kept. |
| Life.AllDeadStaysDead | life.c:445-460 | A tile with no live cell, and none in its halo, has no live cell in the next generation. |
| Life.HaloCell | life.c:336-339 | Halo cell (row, col) of the (lrs+2) × (lcs+2) ring is life-grid cell (Top + row − 1, Left + col − 1), dead outside the grid. |
| Life.HaloAgrees | life.c:336-339 | Around every tile cell, the halo shows the same 8 neighbours as the life grid. |
| Life.HaloFromNeighbours | life.c:344-357 | Every cell of a rank's halo ring that lies in the life grid belongs to a neighbour of the rank, that is, to one of its partners. |
| Life.TileStepIsGridStep | life.c:430-462 | One generation computed tile by tile, from each tile and its halo, gives every rank the tile of the next generation of the whole grid. |
| SortedIntList.SortedList.constructor | pthreads.c:51 | An empty list (`head == NULL`). |
| SortedIntList.SortedList.Search | pthreads.c:164-167 | The walk stops at the first element not below the value. `pred` is the node before it, or null at the head. |
| SortedIntList.SortedList.Insert | pthreads.c:158-182 | The list becomes the old list with v added at its sorted place, or is unchanged when v was present. Returns 1 exactly when v was absent. The `Insert` of stuff.c:242-263 and past.c:178-199 is the same walk without the return code. |
| SortedIntList.SortedList.LinkIn | pthreads.c:169-176 | The new node is linked at its place (at the head when `pred` is null). The order is kept, and the contents gain exactly v there. |
| SortedIntList.SortedList.Delete | pthreads.c:275-305 | The list loses exactly v when present and is unchanged otherwise. Returns 1 exactly when v was present. Deleting the first element moves `head` to its successor. The `Delete` of stuff.c:268-288 and past.c:205-225 is the same walk without the return code. |
| SortedIntList.SortedList.Unlink | pthreads.c:286-299 | The found node is unlinked: `head` moves on when it was first, otherwise `pred->next` skips it. |
| SortedIntList.SortedList.Member | pthreads.c:309-327 | Returns 1 exactly when v is in the list, and changes nothing. The `Member` of stuff.c:293-305 and past.c:230-242 is the same lookup. |
| SortedIntList.SortedList.IsEmpty | pthreads.c:331-336 | Returns 1 exactly when the list is empty. |
| SortedIntList.Stop | pthreads.c:313-314 | The walk's stopping index: everything before it is below v, and the element there (if any) is at least v. |
| SortedIntList.StopAt | pthreads.c:164-167 | A walk that has passed exactly the values below v and stands at the end or at a value ≥ v has stopped where `Stop` says. |
| SortedIntList.InsertedSorted | pthreads.c:169-176 | Linking v in between the smaller and the larger values keeps the list strictly ascending. |
| SortedIntList.UnlinkedSorted | pthreads.c:293-299 | Unlinking one node keeps the list strictly ascending. |
| SortedIntList.Node.constructor | pthreads.c:170-172 | A node holding the value, with the given successor. |
| SortedIntList.FoundIffIn | pthreads.c:316-326 | On a strictly ascending list, stopping at the first element ≥ v and comparing it with v decides membership. |
| SortedIntList.InsertSpecCorrect | pthreads.c:164-179 | Inserting keeps the list strictly ascending. It adds exactly one v when v was absent and changes nothing otherwise. |
| SortedIntList.DeleteSpecCorrect | pthreads.c:281-302 | Deleting keeps the list strictly ascending. It removes exactly one v when present and changes nothing otherwise. |
| TaskList.ApplyTaskEffect | stuff.c:187-197 | 'i' adds the number to the set of values and 'd' removes it. Any other letter changes nothing. The list stays strictly ascending. |
| TaskList.ApplyTasksSorted | stuff.c:184-199 | Any block of tasks keeps the list strictly ascending. |
| TaskList.LookupsChangeNothing | stuff.c:192-196 | A block of lookups (letters other than 'i' and 'd') leaves the list as it was. |
| TaskList.ExecuteTask | stuff.c:187-197 | One task runs the list operation its letter names. |
| TaskList.ExecuteTasks | stuff.c:184-199 | The tasks are applied in array order, the first one first. |
| LinkedStrings.StringList.constructor | linkedlist.c:206 | A list record with `head == tail == NULL` and no strings. |
| LinkedStrings.SNode.constructor | linkedlist.c:201-204 | A fresh node holding its own copy of the string; its `next` is null (see Left out). |
| LinkedStrings.StringList.Insert | linkedlist.c:198-214 | A fresh copy of the string is appended at the tail, and the existing nodes and their order are kept. An empty list gets `head == tail ==` the new node. |
| LinkedStrings.StringList.LinkAtTail | linkedlist.c:206-212 | The node becomes the new tail, and `head` is set only when the list was empty. |
| LinkedStrings.StringList.RightSide | linkedlist.c:183-190 | Returns the node reached after size / 2 steps from `head`: the suffix that starts at index size / 2. |
| LinkedStrings.StringList.Free | linkedlist.c:265-279 | Afterwards `head == tail == NULL` and the list holds no strings. |
| LinkedStrings.PassAt | linkedlist.c:105-139 | The branch one pass of `Merge` takes. It takes from the right only while the right chain has a node, and from the left only while fewer than size / 2 have been taken. |
| LinkedStrings.WrittenBounds | linkedlist.c:105-141 | As written, `Merge` never takes more than size / 2 strings from the left. The output length is the number of strings taken. |
| LinkedStrings.WrittenStep | linkedlist.c:105-139 | The output is the strings of the first pass followed by the output of the remaining passes. |
| LinkedStrings.WrittenTie | linkedlist.c:119-127 | On equal strings one pass emits the left string, then the right one, and advances both chains. |
| LinkedStrings.WrittenAgrees | linkedlist.c:96-143 | For an even size, when the two halves share no string, `Merge` as written is the sorted merge of the first size / 2 strings of each side. |
| LinkedStrings.WrittenOvershoots | linkedlist.c:109-127 | A concrete input on which `Merge` as written takes 3 strings from a right half of 2 and returns an unsorted list. |
| LinkedStrings.MergeHalvesCorrect | linkedlist.c:96-143 | Corrected merge: for sorted halves the result is sorted, has length size, and is a permutation of the two halves. |
| LinkedStrings.Merge | linkedlist.c:96-143 | Returns a fresh list whose strings are what `Merge` as written appends. |
| LinkedStrings.MergeInto | linkedlist.c:105-141 | The loop of `Merge` appends exactly the as-written output to the new list. |
| LinkedStrings.MergeStep | linkedlist.c:105-140 | One iteration keeps "appended so far + still to come = whole output". |
| LinkedStrings.MergePass | linkedlist.c:106-139 | One pass appends the strings of its branch and advances the counters `l` and `r` accordingly. |
| LinkedStrings.CompareFronts | linkedlist.c:119-139 | The three `strcmp` branches append what the pass specification says. |
| LinkedStrings.Sort | linkedlist.c:10-18 | The doubling merge sort, for a list of any length: the result is sorted in `strcmp` order and is a permutation of the input. |
| StrOrder.CompareZero | linkedlist.c:119 | The `strcmp` model returns 0 exactly for equal strings. |
| StrOrder.Compare | merge.c:86 | The `strcmp` model returns only -1, 0 or 1: shorter prefixes first, then the first differing character code. |
| StrOrder.CompareFlip | merge.c:86 | Swapping the arguments negates the comparison. |
| StrOrder.CompareTransitive | merge.c:86 | The comparison is transitive, and strictly so when either step is strict. |
| StrOrder.NotBefore | merge.c:86-88 | "not `strcmp < 0`" means the right string is at most the left one. |
| OddEvenTransposition.GetArgs | serial_odd_even_timed.c:80-92 | Accepts exactly argc = 3, n > 0 and a flag 'g' or 'i'. Returns those values. Rejects a wrong argument count first. |
| OddEvenTransposition.Swap | serial_odd_even_timed.c:188-192 | The two cells are exchanged, and nothing else changes. |
| OddEvenTransposition.CompareExchange | serial_odd_even_timed.c:173 | The pair ends in order (min, max), and nothing else changes. The array is a permutation of its input. |
| OddEvenTransposition.PairCells | serial_odd_even_timed.c:170-180 | Inside a phase, a compared pair becomes (min, max). |
| OddEvenTransposition.LoneCell | serial_odd_even_timed.c:170-180 | An edge cell without a partner in this phase keeps its value. |
| OddEvenTransposition.EvenPhase | serial_odd_even_timed.c:170-174 | The even phase orders every pair (i-1, i) with i odd. The array becomes the phase function of its old contents, a permutation of them. |
| OddEvenTransposition.OddPhase | serial_odd_even_timed.c:175-180 | The odd phase orders every pair (i, i+1) with i odd and i < n−1. The result is the phase function of the old contents, a permutation of them. |
| OddEvenTransposition.OddEvenIter | serial_odd_even_timed.c:167-181 | One iteration applies the phase given by `phase % 2` and leaves a permutation of the input. |
| OddEvenTransposition.OddEvenSort | serial_odd_even_timed.c:146-159 | After n phases the array is sorted ascending and is a permutation of its input. |
| OddEvenTransposition.PhasesSort | serial_odd_even_timed.c:152-158 | n phases sort every sequence of length n. |
| OddEvenTransposition.NeighboursInOrder | serial_odd_even_timed.c:152-158 | After n phases each pair of adjacent cells is in order (from the 0-1 case, thresholding at the left cell). |
| OddEvenTransposition.ThresholdPhases | serial_odd_even_timed.c:170-180 | The phases commute with replacing each value by "≥ c" (0-1 principle). |
| OddEvenTransposition.ZeroOneSorted | serial_odd_even_timed.c:152-158 | n phases sort every 0/1 sequence of length n. |
| OddEvenTransposition.ProgressPhases | serial_odd_even_timed.c:152-158 | After t phases on a 0/1 sequence the number of ones is unchanged, and the ones have moved right at the rate that sorts them in n phases. |
| OddEvenTransposition.OnesTotal | serial_odd_even_timed.c:170-180 | A phase keeps the number of ones of a 0/1 sequence. |
| IntMerge.FrontStep | MergePP.c:96-103 | Each step takes A's front when A[ai] <= B[bi] (ties from A) and B's front otherwise. |
| IntMerge.MergeFromExhausted | MergePP.c:106-111 | Once one input is used up, the rest of the other is copied in order. |
| IntMerge.MergePermutes | MergePP.c:92-112 | The merge has length asize + bsize and is a permutation of A ++ B. |
| IntMerge.MergeSorted | MergePP.c:92-112 | The merge of two sorted inputs is sorted. |
| IntMerge.MergeOrderedInputs | MergePP.c:97-99 | When no element of A is greater than any of B, the merge is A ++ B: ties keep A's elements first (stable). |
| MergePP.MergeArrays | MergePP.c:92-112 | C[0..csize) is the merge of A and B. It is a permutation of A ++ B, sorted when A and B are, and C is not written beyond csize. |
| MergePP.MergeFronts | MergePP.c:96-104 | The first loop writes a prefix of the merge and stops when one input is used up. |
| MergePP.CopyRest | MergePP.c:106-111 | The tail loop copies the rest of one input into C[ci..csize) and nothing else. |
| MergeSortPow2.Merge | mergesort.c:81-99 | list1[0..2n) becomes the merge of the two halves (ties from list1). `scratch[0..2n)` holds the same values, and nothing else changes. |
| MergeSortPow2.MergeIntoScratch | mergesort.c:84-95 | `scratch[0..2n)` receives the merge of the halves. |
| MergeSortPow2.MergeFronts | mergesort.c:85-90 | The first loop writes a prefix of the merge into `scratch`. |
| MergeSortPow2.CopyTails | mergesort.c:92-95 | The two tail loops complete the merge in `scratch`. |
| MergeSortPow2.CopyTail | mergesort.c:92-93 | One tail loop copies the rest of one half. |
| MergeSortPow2.Mergesort | mergesort.c:46-78 | The largest power-of-two prefix of the n cells (all of them when n is a power of 2) is sorted. Nothing outside it changes, the array is a permutation of its input, and n ≤ 1 changes nothing. |
| MergeSortPow2.MergePass | mergesort.c:59-69 | One pass sorts the right half recursively and merges, doubling the sorted prefix. |
| MergeSortPow2.PassFacts | mergesort.c:58-74 | Loop invariant: a sorted prefix of `list_sz / 2`, a sorted right half, then the merge gives a sorted prefix of `list_sz`. The cells outside are kept and the multiset is preserved. |
| MergeSortPow2.MergePermutesRange | mergesort.c:84-98 | Merging a range in place is a permutation of the whole array. |
| MergeSortPow2.SortedSpanOfPow2 | mergesort.c:58 | For n a power of 2 the loop covers all n cells. |
| StringMergeSort.MergeRanges | merge.c:57-95 | The range becomes the `strcmp` merge of the two halves, and nothing outside it changes. |
| StringMergeSort.MergeFronts | merge.c:84-89 | The first loop writes a prefix of the merge and stops when one half is used up. |
| StringMergeSort.CopyLeftRest | merge.c:92 | The rest of the left half is copied. |
| StringMergeSort.CopyRightRest | merge.c:93 | The rest of the right half is copied. |
| StringMergeSort.MergeTieTakesRight | merge.c:86-88 | On equal front strings the right-half string is placed first. |
| StringMergeSort.MergeRightFirst | merge.c:86-88 | When no right string is above any left string, the merge puts the whole right half first. |
| StringMergeSort.MergeSorted | merge.c:57-95 | The merge of two sorted halves is sorted. |
| StringMergeSort.MergePermutes | merge.c:72-93 | The merge is a permutation of the two halves. |
| StringMergeSort.MergesortRange | merge.c:35-55 | A range of length ≤ 1 is unchanged. Otherwise [left, right) ends sorted, nothing outside it changes, and the array is a permutation of its input. |
| StringMergeSort.SortFacts | merge.c:43-54 | Sorting both halves and merging gives a sorted, permuted range. |
| StringMergeSort.Mergesort | merge.c:29-33 | list[0..length) ends sorted, and the array is a permutation of its input. |
| Butterfly.XorInvolution | global_sum_bf.c:98-109 | The partner of the partner is the rank itself. |
| Butterfly.XorMoves | global_sum_bf.c:118 | The partner is never the rank itself. |
| Butterfly.XorBound | global_sum_bf.c:117-118 | For p = 2^k and rank < p, every partner is < p. |
| Butterfly.XorPow2 | global_sum_bf.c:90-97 | XOR with 2^j adds or removes bit j. |
| Butterfly.PartnerBlocks | global_sum_bf.c:117-118 | In round j, a rank and its partner own the two halves of one aligned block of 2^(j+1) ranks. |
| Butterfly.RoundDoublesBlock | global_sum_bf.c:117-124 | Adding the partner's sum of its aligned 2^j block gives the sum of the aligned 2^(j+1) block. |
| Butterfly.ExchangeRound | global_sum_bf.c:118-122 | One simultaneous `MPI_Sendrecv` round turns every rank's block sum for 2^j into the one for 2^(j+1). |
| Butterfly.GlobalSum | global_sum_bf.c:111-127 | After log2 p rounds every rank holds the sum of all contributions. |
| Primes.IsPrimeTest | primes1.c:74-81 | Returns 0 or 1, and 1 exactly when i has no divisor in [2, i). For i ≥ 2 that means i is prime. For i < 4 the loop never runs and the result is 1. |
| Primes.SquareRootBound | primes1.c:77-79 | Trial division up to j · j ≤ i suffices: no divisor there means no divisor in [2, i). |
| Primes.GetN | primes1.c:54-66 | Accepts exactly argc = 2 and n > 1, and returns n. Rejects a wrong argument count first. |
| Primes.EvenNotPrime | primes1.c:29 | Even numbers above 2 are not prime, so stepping through odd i only loses nothing. |
| Primes.ListPrimes | primes1.c:27-31 | The list is 2 followed by every odd prime ≤ n, in ascending order. For n ≥ 2 these are all the primes ≤ n. |

## Left out

- MPI communication is not modelled. This covers the halo send/receive ladder, `MPI_Bcast` and `MPI_Barrier` in `main`, the per-cell `MPI_Send`/`MPI_Recv` of `Split`, and the gathers of the global-sum driver.
  - The result of the halo exchange is modelled as the function `Halo`.
  - `Split` is modelled per rank: rank 0's scan stores the rank's cells in the order rank 0 sends them.
  - The butterfly rounds are simultaneous updates of an array of per-rank sums.
- Threads, locks, barriers, `malloc`/`free`, printing and reading input are not modelled. The task-queue `main` bodies of `stuff.c` and `past.c` and `Thread_Work` are left out.
- C's `int` width is not modelled: all integers are unbounded. `atoi`/`strtol` parsing is a parameter.
- Life.Neighbors: the step is modelled as intended, not as written. As written, `Neighbors` does not reset `count` per cell. It tests bounds with `>` instead of `>=`, and tests directions on absolute coordinates. It sends `local_row_size` east/west but receives `local_col_size`. It counts the cell itself, reads `temp` with the tile's stride, and writes the result in place.
- Life: `main` computes `size = l_row * l_col` (life.c:75) from the defaults 4 × 6 before it reads the command line. `life_array` therefore always has 24 cells (life.c:116-119). `Split` and `Join` accept a life array at least as long as the grid and use its first l_row · l_col cells. A grid of more than 24 cells, where the C code reads and writes past the array, is outside the model.
- Life: `main` sets p_row, p_col, l_row and l_col only on rank 0 and broadcasts only the tile sizes (life.c:132-133). Every other rank calls `Split` and `Neighbors` with the defaults 2, 3, 4 and 6. The model gives all ranks the one `Layout` of the command line.
- Life: the partner loop as written skips the rank's own place with the absolute test `row == 0 && col == 0` (life.c:359). `Partners` skips offset (0, 0), as meant.
- Life: a process grid or life grid with a negative side is excluded by `Valid`, although `Proc_valid` and `Life_valid` would accept some.
- Life: `main` calls `Life_valid` even after `Proc_valid` failed; a process-grid side of 0 would then divide by zero.
- Life: `Split` is modelled for any rank, so rank 0's scan is generalised to rank r.
- The inner loops of `Split`, `Join`, `Neighbors` and the counting loop are separate row methods.
- Sorted int lists: `free` of a deleted node is not modelled; the node simply leaves the chain.
- LinkedStrings.Merge: the `tempList` it returns is modelled as an empty list created by `Merge`; `malloc` leaves its fields uninitialised.
- LinkedStrings.StringList.Insert: the `next` of the new node is null in every branch, which the C code sets only on the empty-list branch.
- LinkedStrings.WrittenBounds: it does not state the multiset accounting of `Merge` as written. It states only the bound on strings taken and the output length.
- LinkedStrings: `Sort` as written in C (with `power` = 2^(size/2) and `Merge` of the list records) is not modelled. `Sort` models the doubling algorithm the exercise describes, on sequences.
- LinkedStrings: chains are modelled through their sequence of strings, and `Free`'s walk over the nodes is not modelled.
- merge.c: `left_half`/`right_half` are arrays of uninitialised `char *` that `strcpy` writes through. The model copies the strings.
- MergeSortPow2.Mergesort: `scratch` is passed as a parameter of length 100 instead of being a global.
- OddEvenTransposition: n is the array's length. `Generate_list`, `Read_list` and the timing are I/O.
- `Usage` is modelled as the error result of `Get_args` and `Get_n`.
- The `stuff.c` comparison of the task letter as a string is modelled as a comparison of the character.

## Findings

| source | as written | input that shows it | evidently intended | confidence | as-written member | corrected member |
|---|---|---|---|---|---|---|
| linkedlist.c:119-127 | On equal strings a pass takes one string from each side, and the `l == size/2` branch (linkedlist.c:109-113) then keeps taking from the right chain. | Left chain a z a b c with the right chain starting at its third node (a b c), size 4: the output is a a b z c. It takes 3 from the right and is not sorted. | Take at most size / 2 strings from each half and produce their sorted merge. | not executed | LinkedStrings.WrittenOvershoots | LinkedStrings.MergeHalvesCorrect |
| life.c:179-186 | For every cell `Join` copies every entry of `temp_array` in turn, so every cell gets the same value. | A 1 × 2 life grid [1, 0] on a 1 × 2 process grid: whatever `temp_array` holds, both cells come back with its last entry, so [1, 0] is lost. | Write each cell from its owner's tile at its slot (the inverse of `Split`). | not executed | Life.JoinAsWrittenLosesCells | Life.SplitThenAssemble |
| life.c:349 | The partner loop skips a place only when `row > p_row` or `col > p_col`. | Rank 0 on a 1 × 1 process grid at offset (1, 0): row 1 passes the test and gives partner 1, which is not a rank. | Skip when `row >= p_row` or `col >= p_col`. | not executed | Life.PartnerTestAsWrittenAdmitsOutside | Life.Partners |
