# Test-group balancing and sharded runs, in Dafny

This project models the core of a small test-parallelization tool. The tool
has two PHP copies (php/ and php-test-parallelization/) and two Python
variants (python/parallel_test_run.py and the root parallel_test_run.py). Each
one does three things:

1. **Splitting** (`splitTestClasses` / `split_test_classes`). The test suites
   are split into `k` groups of similar size, where a suite's size is its
   number of test cases. With no more suites than groups (PHP and python/
   only), every suite becomes a group of its own, in input order. Otherwise
   the suites are stable-sorted by descending case count. Each suite is then
   appended to the least entry popped from a min-heap, and that entry is
   pushed back with its load increased. PHP reads the groups back by
   iterating the heap, which empties it in ascending order. Python returns
   the heap list as it stands.
2. **Shard selection** from an optional index list. This part differs per
   file:
   - Python keeps `groups[idx]` for every `idx < len(groups)`, in the order
     of the list.
   - php/ keeps the first `min(count(indices), count(groups))` groups.
   - php-test-parallelization/ uses the selection only to return early, and
     otherwise runs every group.
3. **Verdict** (PHP). The children's exit statuses are folded into one
   boolean, which is true iff every status is 0.

Suites are `Suite(id, cases)`. The code reads a suite only through
`count()` / `countTestCases()`, and `id` stands for the suite object. PHP's
heap also compares suite objects on ties (see below). Groups
are `TestGroup(numClasses, numCases, classes)`, as in the source.

The heap is modelled as a sequence of entries `Bucket(load, tag, members)`.
Popping means choosing a position that holds a least entry, and a sequence
of positions (`picks`) records the choices. `Greedy.Follows` requires every
choice to be least under the language's comparison of entries:
- `PhpArray`: PHP compares `[load, suites]` arrays by load, then by the
  shorter array.
- `PythonTuple`: Python compares `(load, n, suites)` tuples by load, then by
  `n`, then by the lists. The model compares the lists by length; the
  `HeapQ.Less` line under "## Left out" explains why that agrees with
  Python here.

Past load and member count, PHP compares the suite objects themselves, and
that order is opaque. The PHP split therefore takes the heap's choices as
inputs, constrained to be least (`PhpBalancer.HeapChoices`), and
`PhpBalancer.ChoicesExist` shows that valid choices always exist.

Python's heap is modelled exactly. `HeapQ` follows CPython's `heappush` and
`heappop` with their `_siftdown` and `_siftup` helpers, so the groups come
out in the layout of the returned list, and a group index names the same
group as in Python. The model follows CPython's `heapq` sifting, which
Lib/heapq.py and the C accelerator `_heapq` implement the same way: the
hole moves to the smaller child, the right child wins ties, and the item
is then sifted back up from the leaf. The properties come from a
reference fill that pops the first least entry. `PyBalancer.LeastEntryIsUnique`
proves that any two least entries are equal. `PyBalancer.PyFillIsGreedy`
then shows that the `heapq` loop holds the same entries as the reference
fill after every step, in a different layout.

Where the source raises, the model returns `Err`:
- `EmptyHeap`: a suite is left to place and the heap is empty, because the
  group count is below one.
- `IndexOutOfRange`: a Python index lies below `-len(groups)`.

Edge behaviour of the code that the model keeps:
- **Group count below one.** The split raises only when a suite is left to
  place. With no suites it returns no groups.
- **Index selection.** Python follows the order of the index list. It keeps
  repeated indices, and negative indices count from the end.
- **Empty index list.** Every variant treats an empty index list like a
  missing one: all groups are selected.
- **Heap ties.** Ties between equally loaded entries are broken by the
  heap's comparison of whole entries.

## Model

| member | source | states |
|---|---|---|
| `Units.Singletons` | php/tests/suite/AppTestSuite.php:35-41 | One `TestGroup(1, count, [suite])` per suite, in input order. `Units.SingletonsKeepSuites` states what this regime keeps. |
| `Units.SingletonsKeepSuites` | php/tests/suite/AppTestSuite.php:35-41 | One group per suite lists the suites in input order. Each such group is consistent (`numClasses` 1, `numCases` its suite's count). The case total is kept, and no group exceeds another by more than the largest suite. The same code is at php-test-parallelization/tests/suite/AppTestSuite.php:35-41 and python/parallel_test_run.py:19-25. |
| `Units.CaseCountPermutation` | python/parallel_test_run.py:34-35 | Any reordering of suites keeps their total number of cases. The total is carried through the sort and through the heap this way. |
| `Units.MaxCasesPermutation` | parallel_test_run.py:14 | Sorting does not change the largest suite, so the balance bound refers to the input. |
| `Units.TotalCasesOfConsistent` | php/tests/suite/AppTestSuite.php:63-66 | When every group's `numCases` is the case count of its suites, the sum of `numCases` equals the case count of all the suites. |
| `StableSort.SortDescending` | php/tests/suite/AppTestSuite.php:45-49 | The processing order is non-increasing in case count and holds exactly the input suites. |
| `StableSort.SortIsStable` | python/parallel_test_run.py:28 | For every case count, the suites with that count keep their input order. |
| `StableSort.StableSortIsSortDescending` | php-test-parallelization/tests/suite/AppTestSuite.php:43-47 | Any descending sort that keeps equal counts in input order gives the same sequence. This covers `usort` (stable since PHP 8) and `list.sort(reverse=True)`. |
| `StableSort.SortKeepsCaseCount` | parallel_test_run.py:14 | Sorting keeps the case total. |
| `Greedy.Fresh` | php/tests/suite/AppTestSuite.php:51-53 | Exactly `k` entries, each `[0, []]`, the PHP form; parallel_test_run.py:16 builds the same entries as `(0, 0, [])`. |
| `Greedy.FirstMinimal` | python/parallel_test_run.py:32 | The position chosen holds an entry that is least under the heap's order, and every earlier position holds a strictly greater entry. |
| `Greedy.MinimalHasLeastLoad` | php/tests/suite/AppTestSuite.php:56 | Under either language's order, an extracted entry has the least load in the heap. |
| `Greedy.Place` | php/tests/suite/AppTestSuite.php:56-58 | One round of the loop: the chosen entry gains the suite and its case count, tagged with the suite's position. It states only that the entry count is kept. `Greedy.PlaceStaysWithin` and `PyBalancer.PlaceKeepsTagsApart` state what a round keeps. |
| `Greedy.Fill` | parallel_test_run.py:17-20 | The greedy loop over the sorted suites, popping at the recorded positions. It states that the entry count is kept. `Greedy.FillKeepsMembers`, `Greedy.FillKeepsTally` and `Greedy.FillStaysWithin` state what the loop keeps. The same loop is at php/tests/suite/AppTestSuite.php:55-59. |
| `Greedy.LeastPicks` | python/parallel_test_run.py:31-34 | Whenever the heap is not empty, a valid sequence of pops exists for the greedy loop. |
| `Greedy.FollowsLoadOnly` | parallel_test_run.py:17-20 | Every suite is placed in an entry of least load at that moment. |
| `Greedy.Remove` | php/tests/suite/AppTestSuite.php:62 | Extracting an entry takes exactly that one entry out of the heap. |
| `Greedy.FillKeepsMembers` | php/tests/suite/AppTestSuite.php:55-59 | The greedy loop adds exactly the placed suites to the entries: none is lost and none is duplicated. |
| `Greedy.FillKeepsTally` | php/tests/suite/AppTestSuite.php:57-58 | Each entry's load stays the case count of its suites. |
| `Greedy.PlaceStaysWithin` | php-test-parallelization/tests/suite/AppTestSuite.php:53-55 | Adding at most `m` cases to a least-loaded entry keeps every pair of loads within `m` of each other. |
| `Greedy.FillStaysWithin` | php-test-parallelization/tests/suite/AppTestSuite.php:52-56 | Placing suites of at most `m` cases, each in a least-loaded entry, keeps every pair of loads within `m`. |
| `Greedy.GreedyFacts` | parallel_test_run.py:16-20 | Filling `k` fresh entries gives exactly `k` entries holding every suite once. Loads equal case counts, and no two loads are further apart than the largest suite. |
| `Greedy.LeastFirst` | php-test-parallelization/tests/suite/AppTestSuite.php:59 | A valid sequence of extractions always exists for iterating the heap. |
| `Greedy.Drain` | php/tests/suite/AppTestSuite.php:62 | Iterating the heap extracts every entry exactly once, and the entries come out sorted by the heap's order. |
| `Greedy.PermutationKeepsMembers` | php/tests/suite/AppTestSuite.php:62-67 | Rearranging the entries keeps the same suites. |
| `Greedy.PermutationKeepsBounds` | php-test-parallelization/tests/suite/AppTestSuite.php:58-64 | Rearranging the entries keeps each load equal to its case count, and keeps the loads within the bound. |
| `Greedy.ToGroups` | php/tests/suite/AppTestSuite.php:61-67 | One group per entry, in entry order: `TestGroup(count(members), load, members)`. `Greedy.ToGroupsFacts` states what carries over. The same comprehension is at parallel_test_run.py:21. |
| `Greedy.ToGroupsFacts` | php/tests/suite/AppTestSuite.php:63-66 | The groups hold the entries' suites. `numClasses` is the member count and `numCases` the load, so tallied entries give consistent groups. |
| `Greedy.GroupsFacts` | python/parallel_test_run.py:35 | Any arrangement of the filled heap gives exactly `k` groups, every suite in exactly one. Each group is consistent, the case total is kept, and no two groups differ by more than the largest suite. |
| `Greedy.ToGroupsKeepsEmpty` | parallel_test_run.py:21 | An entry that received no suite becomes a group without suites. |
| `PhpBalancer.ChoicesExist` | php/tests/suite/AppTestSuite.php:50-59 | For every input, the heap has some valid sequence of choices. |
| `PhpBalancer.SplitTestClasses` | php/tests/suite/AppTestSuite.php:33-69 | The split fails (`EmptyHeap`) iff a suite exists and the group count is below one. With no more suites than groups, it gives one group per suite in input order. Otherwise it gives exactly `k` groups. php-test-parallelization/tests/suite/AppTestSuite.php:33-66 is the same code. |
| `PhpBalancer.GreedyRegime` | php-test-parallelization/tests/suite/AppTestSuite.php:48-64 | In the greedy regime, every suite is kept once and every group is consistent. The case total is kept and the groups are balanced within the largest suite. |
| `PhpBalancer.SplitKeepsEverySuite` | php/tests/suite/AppTestSuite.php:51-59 | In both regimes, every suite is in exactly one group. |
| `PhpBalancer.SplitCountsCases` | php/tests/suite/AppTestSuite.php:58 | In both regimes, each group's counters match its suites, and `numCases` sums to the input's case total. |
| `PhpBalancer.SplitIsBalanced` | php/tests/suite/AppTestSuite.php:55-59 | In both regimes, no group has more cases than another plus the largest suite. |
| `PhpBalancer.GreedyGroupsAscend` | php/tests/suite/AppTestSuite.php:62-67 | Greedy groups come out by non-decreasing `numCases`, and equal counts come out by non-decreasing `numClasses`. |
| `PyBalancer.PlaceKeepsTagsApart` | python/parallel_test_run.py:34 | Pushing `(load, n, list)` back keeps the tags of entries with suites distinct, and keeps entries without suites fresh. |
| `PyBalancer.FillKeepsTagsApart` | python/parallel_test_run.py:31-34 | The invariant holds throughout the greedy loop. |
| `PyBalancer.TiesInvolveAnEmptyList` | python/parallel_test_run.py:29-34 | Two entries with equal load and `n` never both hold suites. The tuple comparison therefore never compares two suites. |
| `PyBalancer.TagsApartPermutation` | python/parallel_test_run.py:30-34 | Rearranging the entries keeps fresh entries fresh and the tags of the other entries distinct. |
| `PyBalancer.HeapTiesInvolveAnEmptyList` | parallel_test_run.py:18-20 | In a `heapq` list holding the reference fill's entries, two tuples with equal load and `n` never both hold suites. `heappop` and `heappush` therefore never compare two suites, which Python cannot order. |
| `PyBalancer.LeastEntryIsUnique` | parallel_test_run.py:18 | Any two entries `heappop` may return are equal, so the popped entry is determined. |
| `HeapQ.SiftDownFrom` | python/parallel_test_run.py:34 | CPython's `_siftdown` from the hole at `pos`. It keeps the list length. `HeapQ.SiftDownMakesHeap` states that it restores the heap. |
| `HeapQ.SiftUpFrom` | python/parallel_test_run.py:32 | CPython's `_siftup` from the hole at `pos`. It keeps the list length. `HeapQ.SiftUpMakesHeap` states that it restores the heap. |
| `HeapQ.HeapPush` | parallel_test_run.py:20 | `heappush`, which grows the list by one entry. `HeapQ.PushKeepsHeap` states the heap invariant and the entries. |
| `HeapQ.HeapPop` | parallel_test_run.py:18 | `heappop`, which shrinks the list by one entry. `HeapQ.PopKeepsHeap` states that the least entry comes out and the rest stays a heap. |
| `HeapQ.SiftDownMakesHeap` | python/parallel_test_run.py:34 | `_siftdown`, called by `heappush`, ends with a heap holding exactly the entries around the hole plus the new item. It needs every parent-child pair away from the hole to be ordered, and the item and the hole's parent to be no greater than the hole's children. |
| `HeapQ.SiftUpMakesHeap` | python/parallel_test_run.py:32 | `_siftup`, called by `heappop`, ends with a heap holding exactly the entries around the hole plus the item. |
| `HeapQ.PushKeepsHeap` | parallel_test_run.py:20 | `heappush` keeps the heap invariant and adds exactly the pushed tuple. |
| `HeapQ.RootIsLeast` | parallel_test_run.py:18 | In a heap, no entry is less than the one at position 0. |
| `HeapQ.PopKeepsHeap` | python/parallel_test_run.py:32 | `heappop` returns an entry no other entry is less than. The rest is still a heap and holds every other entry. |
| `PyBalancer.PyFill` | python/parallel_test_run.py:30-34 | The loop of both Python files on the `heapq` list. It keeps the list length. `PyBalancer.PyFillIsGreedy` relates it to the reference fill. |
| `PyBalancer.PopTakesGreedyEntry` | parallel_test_run.py:18 | Given the same entries, `heappop` returns the entry the reference fill takes. |
| `PyBalancer.StepIsGreedy` | python/parallel_test_run.py:31-34 | One round of the loop keeps a heap, and changes the entries exactly as one round of the reference fill does. |
| `PyBalancer.PyFillIsGreedy` | parallel_test_run.py:17-20 | The `heapq` loop ends with a heap, holding exactly the entries the reference fill ends with. |
| `PyBalancer.HeapIsGreedy` | python/parallel_test_run.py:30-34 | From `k` fresh `(0, 0, [])` tuples, the final list is a heap and a rearrangement of the reference fill's entries. |
| `PyBalancer.GreedyGroupsInHeapOrder` | parallel_test_run.py:21 | The groups keep the list's heap layout. Group 0 has the fewest cases, and group `i` has no fewer cases than group `(i - 1) // 2`. |
| `PyBalancer.SplitGreedy` | parallel_test_run.py:12-21 | The root split fails iff a suite exists and the group count is below one. Otherwise it returns exactly `max(k, 0)` groups, with no singleton regime. |
| `PyBalancer.SplitTestClasses` | python/parallel_test_run.py:11-35 | Same failure condition. With no more suites than groups, it gives one group per suite in input order. Otherwise it gives exactly `k` groups. |
| `PyBalancer.GreedyRegime` | python/parallel_test_run.py:30-35 | A successful greedy split keeps every suite once, with consistent groups. The case total is kept, and the groups are balanced within the largest suite. |
| `PyBalancer.GreedyKeepsEverySuite` | parallel_test_run.py:17-21 | Root split: every suite is in exactly one group. |
| `PyBalancer.GreedyCountsCases` | parallel_test_run.py:20-21 | Root split: `num_classes` is `len(members)` and `num_cases` is the members' case count. The `num_cases` sum equals the input's total. |
| `PyBalancer.GreedyIsBalanced` | parallel_test_run.py:16-20 | Root split: no group has more cases than another plus the largest suite. |
| `PyBalancer.SplitKeepsEverySuite` | python/parallel_test_run.py:31-35 | python/ split, both regimes: every suite is in exactly one group. |
| `PyBalancer.SplitCountsCases` | python/parallel_test_run.py:34-35 | python/ split, both regimes: the groups are consistent and the case total is kept. |
| `PyBalancer.SplitIsBalanced` | python/parallel_test_run.py:30-34 | python/ split, both regimes: no group has more cases than another plus the largest suite. |
| `PyBalancer.PopsFreshFirst` | parallel_test_run.py:18 | While a fresh `(0, 0, [])` entry remains, `heappop` returns a fresh entry. |
| `PyBalancer.FillSpreads` | parallel_test_run.py:17-20 | With at least as many fresh entries as suites, no entry receives two suites, and the number of fresh entries drops by one per suite. |
| `PyBalancer.FewSuitesSpreadOut` | parallel_test_run.py:16-21 | Root split with `0 < k` and no more suites than groups: each group holds at most one suite, and exactly `k - len(suites)` groups stay empty. |
| `Verdict.WaitAll` | php/tests/suite/AppTestSuite.php:119-131 | The verdict is true iff every child's exit status is 0. It is true when there are no children. php-test-parallelization/tests/suite/AppTestSuite.php:113-123 is the same fold. |
| `Verdict.AllPassedAppend` | php-test-parallelization/tests/suite/AppTestSuite.php:115-119 | Folding two runs of statuses one after the other gives the conjunction of their verdicts. The wait loop uses it to fold one more child at a time. |
| `PhpRunner.PickPartialGroups` | php/tests/suite/AppTestSuite.php:85-90 | The loop keeps exactly the first `min(count(indices), count(groups))` groups, in order. |
| `PhpRunner.Selected` | php/tests/suite/AppTestSuite.php:84-96 | A null or empty index list selects every group. Otherwise the selection is the prefix of the groups of length `min(count(indices), count(groups))`. |
| `PhpRunner.SelectionIgnoresIndexValues` | php/tests/suite/AppTestSuite.php:84-96 | The selection depends only on the length of the index list, and it is a prefix of the groups. |
| `PhpRunner.RunTests` | php/tests/suite/AppTestSuite.php:80-132 | A run fails iff the split fails. Otherwise it starts exactly the selected groups, and returns true iff each started child exits with 0. An empty selection starts nothing and returns true. |
| `PhpParallelizationRunner.RunTests` | php-test-parallelization/tests/suite/AppTestSuite.php:77-124 | A run fails iff the split fails. Otherwise it starts every group, whatever the index list says, and returns true iff each child exits with 0. |
| `PhpParallelizationRunner.IndicesNeverNarrow` | php-test-parallelization/tests/suite/AppTestSuite.php:80-90 | With a non-empty index list, the early return fires iff there are no groups. |
| `PyRunner.At` | python/parallel_test_run.py:49 | `groups[idx]` fails iff `idx < -len(groups)`. A negative index counts from the end. |
| `PyRunner.PickByIndex` | python/parallel_test_run.py:48-51 | The comprehension fails iff some index lies below `-len(groups)`. Otherwise every picked item is one of the groups, and there are at most as many as indices. |
| `PyRunner.PickOne` | parallel_test_run.py:34-37 | A single index picks its group, counting from the end when negative, or nothing at or beyond `len(groups)`. |
| `PyRunner.PickAppend` | python/parallel_test_run.py:46-51 | Picking by `a + b` picks by `a`, then by `b`. The comprehension follows the order of the index list. |
| `PyRunner.PickInRange` | parallel_test_run.py:33-37 | In-range indices pick exactly `groups[idx]` for each `idx`, in the list's order and with repetitions. |
| `PyRunner.Selected` | python/parallel_test_run.py:46 | A missing or empty index list selects all groups. |
| `PyRunner.Launched` | python/parallel_test_run.py:52-59 | An empty selection starts nothing. Otherwise the pool has one worker per selected group, at least one, and runs exactly the selection. |
| `PyRunner.RunTests` | python/parallel_test_run.py:44-60 | A run fails iff a suite is left with a group count below one (`EmptyHeap`), or the split succeeds and some index lies below minus the group count (`IndexOutOfRange`). The error is `EmptyHeap` exactly in the first case and `IndexOutOfRange` otherwise, also with no suites and a count below one. Every launched job is one of the split's groups. With suites, a positive count and no index list, the pool runs every group, one worker each. With no suites and no index list, nothing is started. |
| `PyRunner.RunAllTests` | parallel_test_run.py:30-46 | A run fails iff a suite is left with a group count below one (`EmptyHeap`), or some index lies below `-max(k, 0)` (`IndexOutOfRange`). The error is `EmptyHeap` exactly in the first case and `IndexOutOfRange` otherwise, also with no suites and a count below one. Every launched job is one of the split's groups. With a positive count and no index list, the pool has exactly `k` workers running every group. |
| `PyRunner.RunAllTestsPicksIndices` | parallel_test_run.py:33-37 | With a positive count and a non-empty list of in-range indices, the pool runs exactly `groups[idx]` for each `idx`, in the list's order and with repetitions. |

## Left out

- Processes are not modelled: `pcntl_fork`, `pcntl_waitpid`, `pcntl_wexitstatus`, `die`, `exit` and `ProcessPoolExecutor` are operating-system concurrency. A child's exit status is an input (`exitOf(i)` for the `i`-th child started), and a fork failure (`die`) is not modelled.
- Running the tests is not modelled: `runTestGroup`, `run_test_group`, `run_grouped_tests` and the PHPUnit / unittest runners are foreign libraries. A suite's `count()` / `countTestCases()` is the input `cases`.
- Python's per-group results are only printed, never folded into a verdict, so the Python model stops at what the pool is given.
- Printing and report formatting are output only. This includes the `$sign[$status]` lookup at php-test-parallelization/tests/suite/AppTestSuite.php:120, which has no entry for statuses above 1.
- Configuration and discovery are input/output: `getenv` / `os.environ` parsing of `TEST_GROUP_INDICES` and `NUM_PARALLELIZATION`, `glob`, `TestLoader().discover`, and the `testSuite` / `__main__` drivers. The group count and the index list are inputs.
- dummy_test_generator.py and php-test-parallelization/DummyTestGenerator.php only write files with random content.
- PHP's order among entries with equal load and member count compares the suite objects, which is opaque. `PhpBalancer.HeapChoices` admits every least entry instead.
- HeapQ.Less: Python compares the lists of two tuples with equal load and `n` element by element. The model compares them by length. The two agree whenever one list is empty, and `PyBalancer.HeapTiesInvolveAnEmptyList` shows that no other tie occurs in the list.
- PhpBalancer.SplitIsBalanced: states the bound "max minus min is at most the largest suite", not LPT's 4/3 approximation ratio against the optimum. The code never relies on that ratio, and proving it needs a comparison with every other assignment.
- PyBalancer.SplitGreedy: `test_suites.sort(...)` also reorders the caller's list in place, at parallel_test_run.py:14 on every call and at python/parallel_test_run.py:28 in the greedy regime. No caller reads that list afterwards, so the model returns only the groups. PHP's `usort` sorts a by-value copy and changes nothing for its caller.
- Integer width is not modelled: loads and counts are unbounded. PHP's overflow of a 64-bit load to float would need more than 2^63 test cases.
