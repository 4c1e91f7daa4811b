# Nine integer sorts, modelled and verified in Dafny

This project models the nine integer sorting procedures of the repository
that sort the caller's array: bubble, insertion, selection, shell, merge,
quick, heap, counting and radix sort. Each C++ procedure works on an `int` array or
`std::vector<int>` and is modelled as a Dafny method on `array<int>` with
`modifies a`. The source's loops become `while` loops with invariants.
Where an inner loop carries its own invariant, it is a separate method.

Every sort is proved to leave the array sorted and a permutation of what it
held; merge and quick sort are proved to do so for the range they are given
([left, right] and [low, high]) and to leave the rest of the array alone.
Every sort also leaves sorted input unchanged (for merge and quick sort, a
sorted range). Each also keeps the invariant its algorithm is
built on:

- bubble sort grows a sorted tail of the largest elements;
- selection sort grows a sorted prefix of the smallest elements;
- insertion sort keeps the prefix sorted and the suffix untouched;
- shell sort makes the array gap-sorted for every gap of n/2, n/4, ..., 1, and each pass permutes every chain of cells a gap apart within itself;
- merge sort merges two sorted halves stably;
- quick sort uses the Lomuto partition around the last cell;
- heap sort keeps the max-heap property over a prefix and grows a sorted tail;
- counting sort places elements by prefix sums, right to left;
- radix sort makes least-significant-digit passes, each a stable counting
  pass by one decimal digit.

Modules:

- `SortSpec` (`sort_spec.dfy`) holds the shared vocabulary:
  - `Sorted`;
  - the range predicates `SortedBetween`, `PermutedBetween` and
    `SameOutside`;
  - the swap;
  - the maximum;
  - the fact that a sorted permutation is unique, which is where
    idempotence comes from.
- `Distribution` (`distribution.dfy`) specifies one stable counting pass.
  - A `Key` is either the value itself or a decimal digit of it.
  - `Select(s, key, k)` is the subsequence of elements whose key is `k`.
    "Stable" means a pass leaves it unchanged for every `k`.
  - `Bucketed(s, key, m)` lays out buckets `0 .. m-1` one after the other.
  - The module proves that `Bucketed` is key-sorted, a permutation and
    stable. It also holds the state predicates of the placement loop.
- `CountingPass` (`counting_pass.dfy`) holds the four loops shared by
  counting sort and the radix digit pass: tally, prefix sums, placement and
  copy-back. They are proved to compute `Bucketed`.
- `Bubble`, `Insertion`, `Selection`, `Shell`, `Merge`, `Quick`, `Heap`,
  `Counting` and `Radix` model the nine source files, one module each.

Integers are unbounded, and `/` and `%` are applied only to non-negative
values. There, C++'s truncating division agrees with Dafny's.

## Model

| member | source | states |
|---|---|---|
| SortSpec.MaxElement | sort/radix_sort/radix_sort.cpp:36-38 | the maximum of a non-empty array is one of its elements and no element exceeds it (findMax, and max_element at sort/counting_sort/counting_sort.cpp:36) |
| SortSpec.Swap | sort/bubble_sort/bubble_sort.cpp:22-26 | cells i and j exchange their values, every other cell keeps its value and the multiset is unchanged; when i == j nothing changes (the same swap is in selection_sort.cpp:22-26) |
| SortSpec.SwapPermutes | sort/shell_sort/shell_sort.cpp:44 | a general lemma: exchanging two entries of a sequence gives a permutation of it (used for the moving hole of shell sort) |
| SortSpec.RotatePermutes | sort/insertion_sort/insertion_sort.cpp:29-34 | moving arr[i] down to j+1 while arr[j+1..i-1] shift up one place is a permutation |
| SortSpec.AdjacentSorted | sort/shell_sort/shell_sort.cpp:32-50 | an array whose neighbours are in order is sorted: the gap-1 pass leaves the array sorted |
| SortSpec.SortedUnique | sort/shell_sort/shell_sort.cpp:28-51 | a general lemma: two sorted sequences with the same multiset are equal, so the output of a sort is determined by its input's multiset (the step behind every sorted-input-unchanged clause) |
| SortSpec.SortedPermutationOfSorted | sort/shell_sort/shell_sort.cpp:28-51 | a sort whose output is a sorted permutation returns already-sorted input unchanged (used for shell, selection, heap, counting and radix sort) |
| SortSpec.SortedRangeUnchanged | sort/quick_sort/quick_sort.cpp:43-52 | when the range [lo, hi) ends sorted and permuted with nothing outside it changed, input whose range was already sorted is returned unchanged (used by merge and quick sort) |
| SortSpec.RangePermutation | sort/quick_sort/quick_sort.cpp:31-40 | when only the cells [lo, hi) change, the range is permuted exactly when the whole array is |
| SortSpec.OutsidePermutation | sort/quick_sort/quick_sort.cpp:31-40 | swaps that permute the whole array and leave everything outside [low, high] alone permute [low, high] |
| SortSpec.AtMostPermutation | sort/quick_sort/quick_sort.cpp:49-50 | an upper bound on every element (the pivot for the left side) survives the recursive sort of that side |
| SortSpec.AbovePermutation | sort/quick_sort/quick_sort.cpp:49-50 | a strict lower bound on every element (the pivot for the right side) survives the recursive sort of that side |
| Bubble.BubbleSort | sort/bubble_sort/bubble_sort.cpp:28-36 | the array ends sorted and a permutation of the input; exactly n-1 outer passes run for n >= 1 and none for n = 0; a sorted input is never swapped and comes back unchanged; the loop keeps the last i cells sorted and no smaller than anything before them |
| Bubble.BubblePass | sort/bubble_sort/bubble_sort.cpp:30-34 | one inner pass carries the largest of arr[0..bound] to arr[bound], keeps the tail after bound unchanged and above the prefix, permutes the array, and swaps nothing on sorted input (the swap guard is the strict >) |
| Insertion.InsertionSort | sort/insertion_sort/insertion_sort.cpp:23-36 | the array ends sorted and a permutation of the input; before iteration i the prefix arr[0..i-1] is sorted and arr[i..] is untouched; sorted input needs no shift and comes back unchanged |
| Insertion.Insert | sort/insertion_sort/insertion_sort.cpp:25-34 | one outer iteration extends the sorted prefix by arr[i], leaves arr[i+1..] untouched and permutes the array; when arr[i-1] <= arr[i] there is no shift and nothing changes |
| Insertion.ShiftGreater | sort/insertion_sort/insertion_sort.cpp:29-32 | the shift loop stops with -1 <= j < i and either j < 0 or arr[j] <= key; everything it moved up one place was strictly greater than key, and cells up to j and after i are untouched |
| Insertion.ShiftStep | sort/insertion_sort/insertion_sort.cpp:30-31 | one shift arr[j+1] = arr[j] of an element greater than key moves the gap down by one and keeps the shift-loop invariant |
| Insertion.Landed | sort/insertion_sort/insertion_sort.cpp:34 | writing key at j+1, which lies in [0, i], leaves arr[0..i] sorted, the suffix untouched and the multiset unchanged; the array is unchanged when nothing shifted |
| Insertion.Inserted | sort/insertion_sort/insertion_sort.cpp:29-34 | inserting arr[i] after the last element not greater than it, past elements strictly greater, gives a sorted prefix; equal elements are not passed, which keeps them in order |
| Selection.MinIndexFrom | sort/selection_sort/selection_sort.cpp:31-36 | the scan returns the index of the leftmost minimum of arr[i..n-1]: it is in range, no element is smaller, and every earlier element of the suffix is strictly greater |
| Selection.SelectionSort | sort/selection_sort/selection_sort.cpp:28-41 | the array ends sorted and a permutation of the input; exactly one swap per outer iteration, n-1 in all for n >= 1, even when the minimum is already in place; the loop keeps the prefix sorted and no greater than the suffix; sorted input comes back unchanged |
| Shell.Gaps | sort/shell_sort/shell_sort.cpp:32 | defines the gap sequence n/2, n/4, ... of the outer loop: empty exactly when the first gap is not positive, and starting with that gap |
| Shell.GapsDecrease | sort/shell_sort/shell_sort.cpp:32 | every gap is positive and smaller than the one before, so the passes end |
| Shell.GapsEndAtOne | sort/shell_sort/shell_sort.cpp:32 | there is a pass exactly when the first gap is at least 1, and the last gap is then 1 |
| Shell.ShellSort | sort/shell_sort/shell_sort.cpp:28-51 | the gaps run through n/2, n/4, ..., 1; the array ends sorted and a permutation of the input; sorted input comes back unchanged |
| Shell.GapPass | sort/shell_sort/shell_sort.cpp:36-49 | after the pass for gap g, arr[k-g] <= arr[k] for every k >= g, the array is a permutation of what it held, and each chain of cells congruent modulo g is a permutation of its own old elements |
| Shell.GapInsert | sort/shell_sort/shell_sort.cpp:39-48 | adding arr[i] to the gap-sorted arr[0..i-1] makes arr[0..i] gap-sorted and permutes the array; every cell off the chain i, i-gap, i-2*gap, ... (including all of arr[i+1..]) keeps its value, and each chain is a permutation of its old elements |
| Shell.ShiftChain | sort/shell_sort/shell_sort.cpp:43-45 | the shift loop stops with j < gap or arr[j-gap] <= temp; it reads arr[j-gap] only when j >= gap; the hole j stays on the chain of i in [0, i]; every chain cell above the hole holds the old value one gap below it, and every other cell but the hole keeps its old value |
| Shell.ShiftDown | sort/shell_sort/shell_sort.cpp:44 | one shift arr[j] = arr[j-gap] of an element greater than temp moves the hole down the chain and keeps the shift-loop invariant |
| Shell.HoleStart | sort/shell_sort/shell_sort.cpp:39 | holding arr[i] in temp starts the shift loop with the hole at i |
| Shell.HoleStep | sort/shell_sort/shell_sort.cpp:43-45 | the shift-loop invariant survives one shift: pairs away from the hole stay in order, and temp in the hole still gives back the original elements |
| Shell.HoleFilled | sort/shell_sort/shell_sort.cpp:48 | writing temp into the hole when the loop stops makes arr[0..i] gap-sorted with the original elements and the suffix unchanged |
| Shell.HoleMove | sort/shell_sort/shell_sort.cpp:44 | moving the hole from j down to j-gap keeps the multiset with temp in the hole |
| Shell.HoleFrame | sort/shell_sort/shell_sort.cpp:44 | one shift moves the chain cell below the hole up into it, so the moved cells are still exactly the chain cells above the new hole |
| Shell.ChainBelow | sort/shell_sort/shell_sort.cpp:43 | the step j -= gap goes from one chain cell to the next one down, and no cell strictly between them is on the chain |
| Shell.Strided | sort/shell_sort/shell_sort.cpp:36-49 | defines the chain of residue r: the cells whose index is congruent to r modulo gap, in index order (or, with `on` false, the cells off that chain) |
| Shell.InClassMod | sort/shell_sort/shell_sort.cpp:36-49 | the recursive residue-class test is congruence: k is in class r exactly when k % gap == r |
| Shell.ChainResidue | sort/shell_sort/shell_sort.cpp:43 | every cell of the chain i, i-gap, ... lies in the residue class of i |
| Shell.StridedSplit | sort/shell_sort/shell_sort.cpp:36-49 | the cells below n are one chain together with the cells off it |
| Shell.StridedSame | sort/shell_sort/shell_sort.cpp:36-49 | two arrays that agree on a chain have the same chain |
| Shell.ChainInsertPermutes | sort/shell_sort/shell_sort.cpp:39-48 | an insertion that permutes the array and moves only cells of the chain of i permutes every chain within itself |
| Merge.Merged | sort/merge_sort/merge_sort.cpp:45-68 | the merge of two buffers, taking from the left one on ties, has as many elements as both |
| Merge.MergedPermutation | sort/merge_sort/merge_sort.cpp:45-68 | the merge holds exactly the elements of both buffers |
| Merge.MergedSorted | sort/merge_sort/merge_sort.cpp:45-68 | merging two sorted buffers gives a sorted result |
| Merge.MergedKeysAtLeast | sort/merge_sort/merge_sort.cpp:45-68 | a lower bound on both buffers bounds the merge |
| Merge.MergedStable | sort/merge_sort/merge_sort.cpp:46 | with ties taken from the left buffer, the elements of each key come out as those of the left buffer followed by those of the right, in order: the merge is stable |
| Merge.SelectNone | sort/merge_sort/merge_sort.cpp:46-51 | when the right head's key is smaller than every key of the sorted left buffer, the left buffer holds no element of that key, so taking the right head first keeps stability |
| Merge.MergedFrom | sort/merge_sort/merge_sort.cpp:45-68 | defines the merge in the index form of the three loops: the next element comes from leftArray[i] while the right buffer is used up or leftArray[i] <= rightArray[j], else from rightArray[j] |
| Merge.MergedFromSlices | sort/merge_sort/merge_sort.cpp:45-68 | what remains to merge at buffer indices i, j is the merge of leftArray[i..] and rightArray[j..] |
| Merge.MergeRanges | sort/merge_sort/merge_sort.cpp:26-69 | merge(arr, left, middle, right) copies both halves into buffers and leaves arr[left..right] equal to their merge; cells outside [left, right] are unchanged |
| Merge.CopyOut | sort/merge_sort/merge_sort.cpp:35-38 | each buffer-filling loop leaves the buffer equal to the n cells of arr from its start index, in order |
| Merge.MergeBack | sort/merge_sort/merge_sort.cpp:41-68 | the three merge loops write the merge of the buffers from left onwards and nothing else |
| Merge.TakeSmaller | sort/merge_sort/merge_sort.cpp:45-54 | the first loop writes the merge one element at a time and stops when one buffer is used up |
| Merge.DrainLeft | sort/merge_sort/merge_sort.cpp:57-61 | the second loop copies the rest of the left buffer, after which i == n1 |
| Merge.DrainRight | sort/merge_sort/merge_sort.cpp:64-68 | the third loop copies the rest of the right buffer, after which j == n2 and every cell of [left, right] is written |
| Merge.EmitStep | sort/merge_sort/merge_sort.cpp:46-53 | writing the chosen head at k = left + i + j advances the merge by one element |
| Merge.MergeDone | sort/merge_sort/merge_sort.cpp:45-68 | with both buffers drained, arr[left..right] is the merge and nothing outside it changed |
| Merge.MergeSort | sort/merge_sort/merge_sort.cpp:71-83 | for left < right the range ends sorted and a permutation of what it held; left >= right changes nothing; no cell outside the range changes; a range that is already sorted comes back unchanged |
| Merge.MergeSortStep | sort/merge_sort/merge_sort.cpp:74-81 | sorting both halves split at left <= middle < right and merging them leaves the range sorted and permuted and the rest unchanged |
| Merge.HalvesPermuted | sort/merge_sort/merge_sort.cpp:77-78 | sorting the left half and then the right half in place leaves the two halves holding together exactly the elements the range held |
| Merge.FrameChain | sort/merge_sort/merge_sort.cpp:77-81 | the two recursive calls and the merge each leave the cells outside [left, right] alone, so together they do too |
| Merge.MergedHalves | sort/merge_sort/merge_sort.cpp:81 | the merge of two sorted halves is sorted and holds the elements of both |
| Quick.Partition | sort/quick_sort/quick_sort.cpp:27-41 | returns p with low <= p <= high and arr[p] the old arr[high]; arr[low..p-1] are at most the pivot and arr[p+1..high] greater; the range is permuted and nothing outside it changes |
| Quick.QuickSort | sort/quick_sort/quick_sort.cpp:43-52 | for low < high the range ends sorted and a permutation of what it held; low >= high, including (0, -1), changes nothing; no cell outside the range changes; a range that is already sorted comes back unchanged |
| Quick.QuickSortStep | sort/quick_sort/quick_sort.cpp:44-51 | partitioning and then sorting [low, p-1] and [p+1, high] leaves [low, high] sorted, permuted and the rest unchanged |
| Quick.SideSorted | sort/quick_sort/quick_sort.cpp:49-50 | a recursive call on fewer than two cells leaves its range trivially sorted and permuted |
| Quick.QuickSortPieces | sort/quick_sort/quick_sort.cpp:49-50 | after both recursive calls the range is the left side, the pivot and the right side, each a permutation of its side |
| Quick.SortedAround | sort/quick_sort/quick_sort.cpp:39-50 | a sorted left side no greater than the pivot, the pivot, and a sorted right side greater than it form a sorted range |
| Heap.Heapify | sort/heap_sort/heap_sort.cpp:27-49 | if every node but i is heap-ordered below n and i's parent bounds i's children, then afterwards the whole heap below n is ordered; only cells in [i, n) move, and they are permuted; the recursion descends, so n - i falls |
| Heap.SiftStep | sort/heap_sort/heap_sort.cpp:43-47 | swapping node i with its larger child leaves only that child's subtree to repair |
| Heap.SiftDone | sort/heap_sort/heap_sort.cpp:43 | a node no smaller than its children completes the heap |
| Heap.RootAbove | sort/heap_sort/heap_sort.cpp:55-57 | in a max-heap every cell is at most the root |
| Heap.RootIsMax | sort/heap_sort/heap_sort.cpp:62 | the root swapped to the end is the maximum of the heap |
| Heap.Leaves | sort/heap_sort/heap_sort.cpp:55 | the nodes from n/2 on have no children, so the build loop starts at n/2 - 1 |
| Heap.BuildHeap | sort/heap_sort/heap_sort.cpp:55-57 | after the build loop arr[0..n-1] is a max-heap and a permutation of the input |
| Heap.ExtractStart | sort/heap_sort/heap_sort.cpp:62 | swapping the root with the last heap cell breaks the heap only at the root |
| Heap.ExtractStep | sort/heap_sort/heap_sort.cpp:60-66 | each extraction grows the sorted tail by one, and the tail stays no smaller than the heap part |
| Heap.SortedCons | sort/heap_sort/heap_sort.cpp:60-66 | a value no greater than the first element of a sorted tail extends it |
| Heap.HeapSort | sort/heap_sort/heap_sort.cpp:51-67 | the array ends sorted and a permutation of the input, and the loop keeps the heap, the sorted tail and the order between them; sorted input comes back unchanged |
| Distribution.ValueSorted | sort/counting_sort/counting_sort.cpp:34-64 | ordered by the value key means sorted, in both directions |
| Distribution.KeyOf | sort/radix_sort/radix_sort.cpp:51 | defines the index a pass counts by: the value itself (`num` in counting sort, counting_sort.cpp:43,56) or the digit `(x / exp) % 10` of radix sort (also lines 61-62); Dafny's `/` and `%` are Euclidean, so it agrees with the C++ expression on non-negative values only |
| Distribution.CppDiv | sort/radix_sort/radix_sort.cpp:51 | defines C++ integer division, which truncates toward zero |
| Distribution.CppRem | sort/radix_sort/radix_sort.cpp:51 | defines the C++ remainder, which keeps the sign of the dividend |
| Distribution.DigitAgreesWithCpp | sort/radix_sort/radix_sort.cpp:51 | on a non-negative value the digit key equals the C++ `(x / exp) % 10` with truncating `/` and `%` |
| Distribution.DigitOfNegative | sort/radix_sort/radix_sort.cpp:51 | on a negative value the two differ: C++ gives digit -3 for -3 at the units, the key is 7 |
| Distribution.Select | sort/counting_sort/counting_sort.cpp:55-58 | the elements of one key, in input order, are no more than the input |
| Distribution.SelectKeys | sort/counting_sort/counting_sort.cpp:55-58 | every element selected for key k has key k |
| Distribution.SelectAppend | sort/counting_sort/counting_sort.cpp:55-58 | selecting from a concatenation selects from each part |
| Distribution.SelectTwice | sort/counting_sort/counting_sort.cpp:55-58 | selecting a bucket again by key k keeps all of it when k is the bucket's key and none of it otherwise |
| Distribution.Bucketed | sort/counting_sort/counting_sort.cpp:52-58 | defines the reference result the placement loop builds: buckets 0 .. d-1 one after the other, each holding its elements in input order; the Bucketed lemmas below state its properties |
| Distribution.BucketedLengthMonotone | sort/counting_sort/counting_sort.cpp:47-49 | the prefix sums never decrease |
| Distribution.BucketedOccurrences | sort/counting_sort/counting_sort.cpp:52-58 | laying out all buckets keeps the count of every value |
| Distribution.BucketedPermutation | sort/counting_sort/counting_sort.cpp:52-63 | the laid-out buckets are a permutation of the input of the same length |
| Distribution.BucketedEmpty | sort/counting_sort/counting_sort.cpp:55 | an empty input lays out to nothing |
| Distribution.BucketedKeys | sort/counting_sort/counting_sort.cpp:55-58 | the first d buckets hold only keys below d |
| Distribution.BucketedKeySorted | sort/counting_sort/counting_sort.cpp:55-58 | the laid-out buckets are ordered by key |
| Distribution.BucketedStable | sort/counting_sort/counting_sort.cpp:55-58 | within the first d buckets, each key k < d keeps exactly its input elements in input order |
| Distribution.SelectAbsent | sort/counting_sort/counting_sort.cpp:55-58 | a key no element has selects nothing |
| Distribution.BucketedStableAll | sort/counting_sort/counting_sort.cpp:55-58 | laying out all buckets is stable: for every key its elements keep their input order |
| Distribution.Occ | sort/counting_sort/counting_sort.cpp:42-44 | defines the running tally of key d over the first i elements, which is at most i |
| Distribution.OccSelect | sort/counting_sort/counting_sort.cpp:42-44 | the tally of key d over the first i elements is the size of their selection for d |
| Distribution.SelectFromSuffix | sort/counting_sort/counting_sort.cpp:55-58 | what remains to place for key d from index i on is the selection from arr[i..] |
| Distribution.BucketStart | sort/counting_sort/counting_sort.cpp:47-49 | after the prefix sums, bucket d starts where buckets 0 .. d-1 end |
| Distribution.PlacedStartAt | sort/counting_sort/counting_sort.cpp:55 | before placement bucket d has nothing placed and its counter at its end |
| Distribution.PlacedStart | sort/counting_sort/counting_sort.cpp:47-55 | before the placement loop every counter is its bucket's end, and the ends are ascending |
| Distribution.BucketEndsAscending | sort/counting_sort/counting_sort.cpp:47-49 | the bucket ends left by the prefix sums never decrease |
| Distribution.PlaceOwn | sort/counting_sort/counting_sort.cpp:56-57 | count[x]-1 lies inside the bucket of x, below its placed part, and writing x there and decrementing extends that part |
| Distribution.PlaceOther | sort/counting_sort/counting_sort.cpp:56-57 | writing x outside another bucket's placed part leaves that bucket as it was |
| Distribution.PlaceStep | sort/counting_sort/counting_sort.cpp:55-58 | every placement index count[x]-1 lies in [0, n), and no slot already placed is overwritten; the placement invariant is kept |
| Distribution.PlacedBucket | sort/counting_sort/counting_sort.cpp:55-58 | after the loop, bucket d occupies its own slots in input order |
| Distribution.PlacedPrefix | sort/counting_sort/counting_sort.cpp:55-58 | an output holding every bucket in its slots begins with the first e buckets laid out |
| Distribution.PlacedDone | sort/counting_sort/counting_sort.cpp:55-58 | after the placement loop the output is exactly the buckets laid out in order |
| CountingPass.Distribute | sort/counting_sort/counting_sort.cpp:39-63 | the tally, prefix-sum, placement and copy-back loops leave the array equal to its buckets laid out in order |
| CountingPass.Tally | sort/counting_sort/counting_sort.cpp:42-44 | after the tally loop count[v] is the number of elements with key v |
| CountingPass.PrefixSums | sort/counting_sort/counting_sort.cpp:47-49 | when count[v] starts as the size of bucket v, the prefix-sum loop leaves count[v] equal to the total size of buckets 0 .. v, which is where bucket v ends |
| CountingPass.BuildOutput | sort/counting_sort/counting_sort.cpp:52-58 | the right-to-left placement loop fills a fresh output of length n with the buckets laid out in order |
| CountingPass.PlaceOne | sort/counting_sort/counting_sort.cpp:56-57 | one placement step writes arr[i] at count[key]-1 inside its bucket, below the part already placed, and decrements that counter, keeping the placement invariant |
| CountingPass.CopyBack | sort/counting_sort/counting_sort.cpp:61-63 | the copy loop leaves arr equal to output |
| Counting.CountingSort | sort/counting_sort/counting_sort.cpp:34-64 | on a non-empty array of non-negative values the array ends sorted and a permutation of the input, equal values keep their order, and sorted input comes back unchanged |
| Counting.ValuesWithin | sort/counting_sort/counting_sort.cpp:36-43 | non-negative values up to the maximum index the count array of size max + 1 |
| Counting.CountingSorted | sort/counting_sort/counting_sort.cpp:34-64 | the laid-out buckets of the values are sorted, a permutation and stable, and equal to the input when it was sorted |
| Radix.CountingSortByDigit | sort/radix_sort/radix_sort.cpp:44-69 | the digit pass leaves the array as the ten buckets of (x / exp) % 10 laid out in order: ordered by that digit, a permutation, and stable |
| Radix.DigitsWithin | sort/radix_sort/radix_sort.cpp:47-51 | every digit (x / exp) % 10 indexes one of the ten count slots |
| Radix.DigitBuckets | sort/radix_sort/radix_sort.cpp:60-63 | the ten digit buckets laid out are ordered by the digit, a permutation, and stable |
| Radix.RadixSort | sort/radix_sort/radix_sort.cpp:72-79 | on a non-empty array of non-negative values the array ends sorted and a permutation of the input; sorted input, including an all-zero one where no pass runs, comes back unchanged |
| Radix.DigitRound | sort/radix_sort/radix_sort.cpp:76-78 | the pass at exp turns an array sorted by x % exp into one sorted by x % (10 * exp), with the same elements |
| Radix.RadixDone | sort/radix_sort/radix_sort.cpp:76 | once max / exp is 0, sorted by x % exp is sorted by value |
| Radix.MaxBounds | sort/radix_sort/radix_sort.cpp:73 | the maximum of non-negative values is non-negative and bounds every element |
| Radix.DivPositive | sort/radix_sort/radix_sort.cpp:76 | while max / exp > 0, exp is at most max, so the loop ends |
| Radix.DivZero | sort/radix_sort/radix_sort.cpp:76 | a non-negative value whose quotient by exp is 0 is below exp |
| Radix.LowOne | sort/radix_sort/radix_sort.cpp:76 | before any pass the array is trivially sorted by x % 1 |
| Radix.LowIsValue | sort/radix_sort/radix_sort.cpp:76 | once exp exceeds every element, x % exp is x, so sorted by x % exp is sorted |
| Radix.ModSplit | sort/radix_sort/radix_sort.cpp:61 | x % (10 * exp) is the digit (x / exp) % 10 times exp plus x % exp |
| Radix.DigitDecides | sort/radix_sort/radix_sort.cpp:60-63 | a smaller digit at exp means a smaller x % (10 * exp) |
| Radix.LowDecides | sort/radix_sort/radix_sort.cpp:60-63 | with equal digits at exp, the order of x % exp decides the order of x % (10 * exp) |
| Radix.SelectMembers | sort/radix_sort/radix_sort.cpp:60-63 | every element of a digit bucket comes from the input |
| Radix.SelectKeySorted | sort/radix_sort/radix_sort.cpp:60-63 | a bucket keeps any order its input had, because the pass is stable |
| Radix.DigitPassSorted | sort/radix_sort/radix_sort.cpp:76-78 | laying out the digit buckets at exp of an array sorted by x % exp gives one sorted by x % (10 * exp): the least-significant-digit invariant |
| Radix.DigitPass | sort/radix_sort/radix_sort.cpp:77 | one digit pass extends the sorted low digits by one place and permutes the array |

## Left out

- Every `main` is not modelled: file reading, `printArray`, timing with `std::chrono`, and the stack arrays `int arr[n]`. The sorts are modelled on their own range arguments. The top-level calls `mergeSort(arr, 0, n-1)` and `quickSort(arr, 0, n-1)` take `n` from the file rather than from `arr.size()`. These calls are part of `main` and are not modelled.
- The complexity claims in the header comments are not behaviour and are not modelled. The bubble sort comment claims an O(n) best case, but the code has no early exit. `Bubble.BubbleSort` states that exactly n-1 passes always run.
- Machine-integer overflow is not modelled; integers are unbounded.
  - `Radix.RadixSort`: the source multiplies `exp *= 10` in `int`. This overflows once the maximum is at least 10^9, which is undefined behaviour in C++.
  - `Counting.CountingSort`: the source computes `maxElement + 1`, which overflows at `INT_MAX`.
- `Counting.CountingSort` requires a non-empty array with no negative value. On an empty vector the source dereferences `end()`, which is undefined behaviour. Negative values lead to one of two outcomes, depending on the maximum:
  - when the maximum is -2 or less, as in `[-5, -3]`, `count(maxElement + 1, 0)` gets a negative size. That size converts to a huge `size_type`, and the constructor throws `std::length_error` before any element is indexed. The run ends with an uncaught exception, which is well defined;
  - when the maximum is -1, `count` is empty. When the maximum is 0 or more, some value is negative. Either way `count[num]` is indexed out of range, which is undefined behaviour.
  The model does not cover the exception; it takes both cases as the precondition.
- `Radix.RadixSort` requires a non-empty array with no negative value. An empty vector is undefined behaviour, as for counting sort. The negative case is broader than undefined behaviour, because C++ `/` and `%` truncate toward zero. A negative value's digit `(x / exp) % 10` lies in -9 .. 0. Only a nonzero one indexes `count` out of range. So some runs that the precondition excludes are well defined, and some of those silently return unsorted output:
  - when no value is positive, as in `[-1, -5]`, the maximum is at most 0, no pass runs, and the array comes back as it was;
  - when every negative value has digit 0 at every pass that runs, the passes are well defined. `[1, -10]` comes back sorted as `[-10, 1]`, but `[5, -10, -20]` comes back as `[-10, -20, 5]`.
  The model does not cover these runs. It proves sortedness only for non-negative input.
- `Counting.CountingSort` does not itself state that the array equals the buckets laid out in order. That equality holds through `CountingPass.Distribute`, and `Counting.CountingSorted` derives sortedness, permutation and stability from it.
- Merge buffers: `Merge.MergeRanges` builds `leftArray` and `rightArray` as sequence values, filled by the two copy loops. It does not allocate vectors, and the buffers cannot alias `arr`.
- The `count` and `output` vectors of counting and radix sort are Dafny arrays. The count array always has exactly `max + 1` or 10 slots.
- The inner loops with invariants of their own are separate methods. Examples are the bubble pass, the selection scan, the insertion and shell shift loops, the three merge loops, and the four counting-pass loops. This does not change what the program does.
- Stability is stated with `Distribution.Select`: for each key, the subsequence of elements with that key is unchanged. On plain `int` values equal elements cannot be told apart, so for merge and counting sort with the value key this reads as "equal values keep their multiplicity in order". Stability is what carries radix sort, where the key is one digit.
- Insertion sort stability is not stated as a separate contract. `Insertion.Inserted` shows that an inserted element never passes an equal one.
