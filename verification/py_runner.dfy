/** The part of `run_tests` (python/parallel_test_run.py) and `run_all_tests`
    (parallel_test_run.py) between the split and the process pool. The two
    files share this code. A non-empty index list replaces the groups with
    `[groups[idx] for idx in indices if idx < len(groups)]`, and an empty
    selection returns before any pool is made. */
module PyRunner {
  import opened Units
  import PyBalancer

  /** Python's `groups[idx]` for `idx < |groups|`: a negative index counts
      from the end, and one below `-|groups|` raises `IndexError`. */
  function At(groups: seq<TestGroup>, idx: int): (r: Result<TestGroup, Failure>)
    requires idx < |groups|
    ensures r.Err? <==> idx < -|groups|
    ensures r.Ok? && idx >= 0 ==> r.value == groups[idx]
    ensures r.Ok? && idx < 0 ==> r.value == groups[|groups| + idx]
  {
    if idx >= 0 then Ok(groups[idx])
    else if idx >= -|groups| then Ok(groups[|groups| + idx])
    else Err(IndexOutOfRange)
  }

  /** The comprehension over the index list, in its order: indices at or
      beyond the group count are skipped, the others pick their group (so
      a repeated index picks its group again). */
  function PickByIndex(groups: seq<TestGroup>, indices: seq<int>): (r: Result<seq<TestGroup>, Failure>)
    ensures r.Err? <==> exists i :: 0 <= i < |indices| && indices[i] < -|groups|
    ensures r.Err? ==> r.error == IndexOutOfRange
    ensures r.Ok? ==> |r.value| <= |indices|
    ensures r.Ok? ==> forall j :: 0 <= j < |r.value| ==> r.value[j] in groups
    decreases |indices|
  {
    if |indices| == 0 then Ok([])
    else
      var rest := PickByIndex(groups, indices[1..]);
      assert forall i :: 0 < i < |indices| ==> indices[i] == indices[1..][i - 1];
      if indices[0] >= |groups| then rest
      else
        match At(groups, indices[0])
        case Err(e) => Err(e)
        case Ok(g) =>
          match rest
          case Err(e) => Err(e)
          case Ok(gs) => Ok([g] + gs)
  }

  /** One index picks its group, or nothing when it is at or beyond the
      group count. */
  lemma PickOne(groups: seq<TestGroup>, idx: int)
    ensures 0 <= idx < |groups| ==> PickByIndex(groups, [idx]) == Ok([groups[idx]])
    ensures -|groups| <= idx < 0 ==> PickByIndex(groups, [idx]) == Ok([groups[|groups| + idx]])
    ensures idx >= |groups| ==> PickByIndex(groups, [idx]) == Ok([])
  {
    assert [idx][1..] == [];
    assert PickByIndex(groups, [idx][1..]) == Ok([]);
    if -|groups| <= idx < |groups| {
      var g := At(groups, idx).value;
      assert [g] + [] == [g];
    }
  }

  /** Picking by `a + b` picks by `a`, then by `b`. */
  lemma {:induction false} PickAppend(groups: seq<TestGroup>, a: seq<int>, b: seq<int>)
    ensures PickByIndex(groups, a + b).Ok? <==> PickByIndex(groups, a).Ok? && PickByIndex(groups, b).Ok?
    ensures PickByIndex(groups, a + b).Ok? ==>
      PickByIndex(groups, a + b).value == PickByIndex(groups, a).value + PickByIndex(groups, b).value
    decreases |a|
  {
    if |a| == 0 {
      assert a + b == b;
    } else {
      assert (a + b)[0] == a[0];
      assert (a + b)[1..] == a[1..] + b;
      PickAppend(groups, a[1..], b);
    }
  }

  /** Indices within range pick exactly their groups, in the order and with
      the repetitions of the index list. */
  lemma {:induction false} PickInRange(groups: seq<TestGroup>, indices: seq<int>)
    requires forall i :: 0 <= i < |indices| ==> 0 <= indices[i] < |groups|
    ensures PickByIndex(groups, indices).Ok?
    ensures |PickByIndex(groups, indices).value| == |indices|
    ensures forall i :: 0 <= i < |indices| ==> PickByIndex(groups, indices).value[i] == groups[indices[i]]
    decreases |indices|
  {
    if |indices| > 0 {
      PickInRange(groups, indices[1..]);
    }
  }

  /** The groups a run picks: all of them when the index list is absent or
      empty (both false in Python), the comprehension otherwise. */
  function Selected(groups: seq<TestGroup>, indices: Option<seq<int>>): (r: Result<seq<TestGroup>, Failure>)
    ensures indices.None? ==> r == Ok(groups)
    ensures indices.Some? && |indices.value| == 0 ==> r == Ok(groups)
  {
    match indices
    case None => Ok(groups)
    case Some(idx) => if |idx| == 0 then Ok(groups) else PickByIndex(groups, idx)
  }

  /** What a run does after the selection: nothing, or a process pool with one
      worker per picked group, which runs every picked group. */
  datatype Launch = NothingToRun | Pool(workers: nat, jobs: seq<TestGroup>)

  /** The selection and the empty check. `ProcessPoolExecutor` needs at least
      one worker, and the empty check guarantees it. */
  function Launched(groups: seq<TestGroup>, indices: Option<seq<int>>): (r: Result<Launch, Failure>)
    ensures r.Err? <==> Selected(groups, indices).Err?
    ensures r.Ok? && r.value.Pool? ==> r.value.workers >= 1 && r.value.workers == |r.value.jobs|
    ensures r.Ok? ==> (r.value.NothingToRun? <==> Selected(groups, indices).value == [])
    ensures r.Ok? && r.value.Pool? ==> r.value.jobs == Selected(groups, indices).value
  {
    match Selected(groups, indices)
    case Err(e) => Err(e)
    case Ok(picked) => if |picked| == 0 then Ok(NothingToRun) else Ok(Pool(|picked|, picked))
  }

  /** Some index of a given list lies below `-count`. */
  predicate SomeIndexBelow(indices: Option<seq<int>>, count: nat)
  {
    indices.Some? && exists i :: 0 <= i < |indices.value| && indices.value[i] < -(count as int)
  }

  /** `run_tests` of python/parallel_test_run.py up to the pool: the split's
      or the selection's exception, or what is launched. */
  function RunTests(suites: seq<Suite>, k: int, indices: Option<seq<int>>): (r: Result<Launch, Failure>)
    ensures r.Err? <==>
      || (0 < |suites| && k <= 0)
      || (PyBalancer.SplitTestClasses(suites, k).Ok? && SomeIndexBelow(indices, |PyBalancer.SplitTestClasses(suites, k).value|))
    ensures 0 < |suites| && k <= 0 ==> r == Err(EmptyHeap)
    ensures r.Err? ==> (r.error == EmptyHeap <==> 0 < |suites| && k <= 0)
    ensures r.Err? && !(0 < |suites| && k <= 0) ==> r.error == IndexOutOfRange
    ensures |suites| == 0 && indices.None? ==> r == Ok(NothingToRun)
    ensures r.Ok? && r.value.Pool? ==>
      forall j :: 0 <= j < |r.value.jobs| ==> r.value.jobs[j] in PyBalancer.SplitTestClasses(suites, k).value
    ensures 0 < |suites| && 0 < k && indices.None? ==>
      r == Ok(Pool(|PyBalancer.SplitTestClasses(suites, k).value|, PyBalancer.SplitTestClasses(suites, k).value))
  {
    match PyBalancer.SplitTestClasses(suites, k)
    case Err(e) => Err(e)
    case Ok(groups) => Launched(groups, indices)
  }

  /** `run_all_tests` of parallel_test_run.py up to the pool. Discovery is
      outside the model: the discovered suites are an input. */
  function RunAllTests(suites: seq<Suite>, k: int, indices: Option<seq<int>>): (r: Result<Launch, Failure>)
    ensures r.Err? <==> (0 < |suites| && k <= 0) || SomeIndexBelow(indices, if k > 0 then k else 0)
    ensures 0 < |suites| && k <= 0 ==> r == Err(EmptyHeap)
    ensures r.Err? ==> (r.error == EmptyHeap <==> 0 < |suites| && k <= 0)
    ensures r.Err? && !(0 < |suites| && k <= 0) ==> r.error == IndexOutOfRange
    ensures r.Ok? && r.value.Pool? ==>
      forall j :: 0 <= j < |r.value.jobs| ==> r.value.jobs[j] in PyBalancer.SplitGreedy(suites, k).value
    ensures k > 0 && indices.None? ==> r == Ok(Pool(k, PyBalancer.SplitGreedy(suites, k).value))
  {
    match PyBalancer.SplitGreedy(suites, k)
    case Err(e) => Err(e)
    case Ok(groups) => Launched(groups, indices)
  }

  /** A run with an index list of in-range positions launches exactly
      `groups[idx]` for each `idx`, in the list's order and with
      repetitions. */
  lemma RunAllTestsPicksIndices(suites: seq<Suite>, k: int, indices: seq<int>)
    requires k > 0 && |indices| > 0
    requires forall i :: 0 <= i < |indices| ==> 0 <= indices[i] < k
    ensures var r := RunAllTests(suites, k, Some(indices));
      var groups := PyBalancer.SplitGreedy(suites, k).value;
      && r.Ok? && r.value.Pool?
      && |r.value.jobs| == |indices|
      && forall i :: 0 <= i < |indices| ==> r.value.jobs[i] == groups[indices[i]]
  {
    PickInRange(PyBalancer.SplitGreedy(suites, k).value, indices);
  }
}
