/** The parent's verdict in both PHP runners: it waits for every child in
    turn and folds the child's exit status into one flag,
    `$was_all_successful &= $status === 0`. The flag starts true and only
    ever holds 0 or 1, so `&=` acts as a logical and. */
module Verdict {

  /** Every child exited with status 0. */
  predicate AllPassed(statuses: seq<int>)
  {
    forall i :: 0 <= i < |statuses| ==> statuses[i] == 0
  }

  /** The wait loop over the children's exit statuses, in launch order. */
  method WaitAll(statuses: seq<int>) returns (ok: bool)
    ensures ok <==> AllPassed(statuses)
    ensures |statuses| == 0 ==> ok
  {
    ok := true;
    var i := 0;
    while i < |statuses|
      invariant 0 <= i <= |statuses|
      invariant ok <==> AllPassed(statuses[..i])
    {
      assert statuses[..i + 1] == statuses[..i] + [statuses[i]];
      AllPassedAppend(statuses[..i], [statuses[i]]);
      ok := ok && statuses[i] == 0;
      i := i + 1;
    }
    assert statuses[..i] == statuses;
  }

  /** Folding the statuses of two runs of children one after the other gives
      the conjunction of their verdicts; the wait loop folds one more child
      at a time. */
  lemma AllPassedAppend(a: seq<int>, b: seq<int>)
    ensures AllPassed(a + b) <==> AllPassed(a) && AllPassed(b)
  {
    if AllPassed(a) && AllPassed(b) {
      forall i | 0 <= i < |a + b|
        ensures (a + b)[i] == 0
      {
        if i >= |a| {
          assert (a + b)[i] == b[i - |a|];
        }
      }
    }
    if AllPassed(a + b) {
      forall i | 0 <= i < |a|
        ensures a[i] == 0
      {
        assert (a + b)[i] == a[i];
      }
      forall i | 0 <= i < |b|
        ensures b[i] == 0
      {
        assert (a + b)[|a| + i] == b[i];
      }
    }
  }
}
