/** `ParallelTestRunner::runTests` of
    php-test-parallelization/tests/suite/AppTestSuite.php, without the
    processes. The index list is read only to decide an early return, which
    happens only when the picked prefix is empty. In every other case all
    groups are forked, whatever the indices say. A child's exit status is an
    input, `exitOf(i)` for the `i`-th child started. */
module PhpParallelizationRunner {
  import opened Units
  import opened PhpBalancer
  import opened Verdict
  import PhpRunner

  /** `runTests`: the split's exception, or the groups started and the
      verdict. */
  method RunTests(suites: seq<Suite>, k: int, indices: Option<seq<int>>,
                  fill: seq<nat>, drain: seq<nat>, exitOf: nat -> int)
    returns (r: Result<PhpRunner.Run, Failure>)
    requires HeapChoices(suites, k, fill, drain)
    ensures r.Err? <==> 0 < |suites| && k <= 0
    ensures r.Ok? ==> r.value.launched == SplitTestClasses(suites, k, fill, drain).value
    ensures r.Ok? ==> (r.value.ok <==> forall i :: 0 <= i < |r.value.launched| ==> exitOf(i) == 0)
  {
    var split := SplitTestClasses(suites, k, fill, drain);
    if split.Err? {
      return Err(split.error);
    }
    var groups := split.value;
    if indices.Some? && |indices.value| > 0 {
      var partial := PhpRunner.PickPartialGroups(groups, indices.value);
      if |partial| == 0 {
        return Ok(PhpRunner.Run([], true));
      }
    }
    var statuses := seq(|groups|, i requires 0 <= i => exitOf(i));
    var ok := WaitAll(statuses);
    assert forall i :: 0 <= i < |groups| ==> statuses[i] == exitOf(i);
    return Ok(PhpRunner.Run(groups, ok));
  }

  /** The early return fires only when there are no groups, so a run starts
      exactly the groups it would start without an index list. */
  lemma IndicesNeverNarrow(groups: seq<TestGroup>, idx: seq<int>)
    requires |idx| > 0
    ensures PhpRunner.Selected(groups, Some(idx)) == [] <==> groups == []
  {
  }
}
