/** `ParallelTestRunner::runTests` of php/tests/suite/AppTestSuite.php,
    without the processes. It splits the suites and picks the groups to run
    from the index list. Every picked group is forked into a child, the
    parent waits for the children, and it returns true iff every child
    exited with status 0. A child's exit status is an input, `exitOf(i)`
    for the `i`-th child started. */
module PhpRunner {
  import opened Units
  import opened PhpBalancer
  import opened Verdict

  /** What a run did: the groups it started, in order, and its verdict. */
  datatype Run = Run(launched: seq<TestGroup>, ok: bool)

  function Min(a: nat, b: nat): nat
  {
    if a <= b then a else b
  }

  /** The partial-groups loop: position `i` of the index list keeps
      `$test_groups[$i]` while `i` is below the group count. The value at
      that position is never read. */
  method PickPartialGroups(groups: seq<TestGroup>, indices: seq<int>) returns (partial: seq<TestGroup>)
    ensures |partial| == Min(|indices|, |groups|)
    ensures forall i :: 0 <= i < |partial| ==> partial[i] == groups[i]
  {
    partial := [];
    var i := 0;
    while i < |indices|
      invariant 0 <= i <= |indices|
      invariant partial == groups[..Min(i, |groups|)]
    {
      if i < |groups| {
        partial := partial + [groups[i]];
      }
      i := i + 1;
    }
  }

  /** The groups a run picks: every group when the index list is null or
      empty (PHP treats both as false), otherwise the first
      `min(count(indices), count(groups))` groups. */
  function Selected(groups: seq<TestGroup>, indices: Option<seq<int>>): (picked: seq<TestGroup>)
    ensures |picked| <= |groups|
    ensures forall i :: 0 <= i < |picked| ==> picked[i] == groups[i]
    ensures indices.Some? && |indices.value| > 0 ==> |picked| == Min(|indices.value|, |groups|)
    ensures (indices.None? || |indices.value| == 0) ==> picked == groups
  {
    match indices
    case None => groups
    case Some(idx) => if |idx| == 0 then groups else groups[..Min(|idx|, |groups|)]
  }

  /** The loop computes the selection, and only the length of the index
      list matters. */
  lemma SelectionIgnoresIndexValues(groups: seq<TestGroup>, a: seq<int>, b: seq<int>)
    requires |a| == |b|
    ensures Selected(groups, Some(a)) == Selected(groups, Some(b))
    ensures |a| > 0 ==> |Selected(groups, Some(a))| == Min(|a|, |groups|)
    ensures forall i :: 0 <= i < |Selected(groups, Some(a))| ==> Selected(groups, Some(a))[i] == groups[i]
  {
  }

  /** `runTests`: the split's exception, or the groups started and the
      verdict. With a non-empty index list and nothing picked, nothing is
      started and the verdict is true. */
  method RunTests(suites: seq<Suite>, k: int, indices: Option<seq<int>>,
                  fill: seq<nat>, drain: seq<nat>, exitOf: nat -> int)
    returns (r: Result<Run, Failure>)
    requires HeapChoices(suites, k, fill, drain)
    ensures r.Err? <==> 0 < |suites| && k <= 0
    ensures r.Ok? ==> r.value.launched == Selected(SplitTestClasses(suites, k, fill, drain).value, indices)
    ensures r.Ok? ==> (r.value.ok <==> forall i :: 0 <= i < |r.value.launched| ==> exitOf(i) == 0)
  {
    var split := SplitTestClasses(suites, k, fill, drain);
    if split.Err? {
      return Err(split.error);
    }
    var groups := split.value;
    var partial := groups;
    if indices.Some? && |indices.value| > 0 {
      partial := PickPartialGroups(groups, indices.value);
      if |partial| == 0 {
        return Ok(Run([], true));
      }
    }
    assert partial == Selected(groups, indices);
    var statuses := seq(|partial|, i requires 0 <= i => exitOf(i));
    var ok := WaitAll(statuses);
    assert forall i :: 0 <= i < |partial| ==> statuses[i] == exitOf(i);
    return Ok(Run(partial, ok));
  }
}
