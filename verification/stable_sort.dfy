/** The ordering step of both balancers: suites sorted by descending number of
    test cases, equal counts keeping their input order. PHP's `usort` (stable
    since PHP 8) with the three-way comparator, and Python's `list.sort` with
    `reverse=True` (stable as well), both produce exactly this order. */
module StableSort {
  import opened Units

  /** Non-increasing number of test cases. */
  predicate Descending(ss: seq<Suite>)
  {
    forall i, j :: 0 <= i < j < |ss| ==> ss[j].cases <= ss[i].cases
  }

  /** The suites with exactly `c` test cases, in their order in `ss`. */
  function WithCases(ss: seq<Suite>, c: nat): seq<Suite>
  {
    if |ss| == 0 then []
    else (if ss[0].cases == c then [ss[0]] else []) + WithCases(ss[1..], c)
  }

  lemma {:induction false} WithCasesFrom(ss: seq<Suite>, c: nat)
    ensures forall x :: x in WithCases(ss, c) ==> x in ss && x.cases == c
  {
    if |ss| > 0 {
      WithCasesFrom(ss[1..], c);
    }
  }

  lemma {:induction false} WithCasesAppend(a: seq<Suite>, b: seq<Suite>, c: nat)
    ensures WithCases(a + b, c) == WithCases(a, c) + WithCases(b, c)
  {
    if |a| == 0 {
      assert a + b == b;
    } else {
      assert (a + b)[1..] == a[1..] + b;
      WithCasesAppend(a[1..], b, c);
    }
  }

  lemma WithCasesCons(h: Suite, rest: seq<Suite>, c: nat)
    ensures WithCases([h] + rest, c) == (if h.cases == c then [h] else []) + WithCases(rest, c)
  {
    assert ([h] + rest)[1..] == rest;
  }

  /** Puts `s` behind every suite of `r` with at least as many cases and in
      front of the first one with fewer. */
  function Insert(r: seq<Suite>, s: Suite): seq<Suite>
  {
    if |r| == 0 then [s]
    else if r[0].cases >= s.cases then [r[0]] + Insert(r[1..], s)
    else [s] + r
  }

  lemma {:induction false} InsertAddsOne(r: seq<Suite>, s: Suite)
    ensures multiset(Insert(r, s)) == multiset(r) + multiset{s}
  {
    if |r| > 0 && r[0].cases >= s.cases {
      InsertAddsOne(r[1..], s);
      assert r == [r[0]] + r[1..];
    }
  }

  /** A bound on every suite of `r` and on `s` bounds every suite of the insertion. */
  lemma {:induction false} InsertBounded(r: seq<Suite>, s: Suite, m: nat)
    requires forall i :: 0 <= i < |r| ==> r[i].cases <= m
    requires s.cases <= m
    ensures forall i :: 0 <= i < |Insert(r, s)| ==> Insert(r, s)[i].cases <= m
  {
    if |r| > 0 && r[0].cases >= s.cases {
      InsertBounded(r[1..], s, m);
    }
  }

  /** A suite with at least as many cases as every suite of a descending
      sequence can go in front of it. */
  lemma ConsDescending(h: Suite, rest: seq<Suite>)
    requires Descending(rest)
    requires forall i :: 0 <= i < |rest| ==> rest[i].cases <= h.cases
    ensures Descending([h] + rest)
  {
    var t := [h] + rest;
    forall i, j | 0 <= i < j < |t|
      ensures t[j].cases <= t[i].cases
    {
      assert t[j] == rest[j - 1];
      if i > 0 {
        assert t[i] == rest[i - 1];
      }
    }
  }

  lemma {:induction false} InsertKeepsDescending(r: seq<Suite>, s: Suite)
    requires Descending(r)
    ensures Descending(Insert(r, s))
  {
    if |r| == 0 {
    } else if r[0].cases >= s.cases {
      var rest := Insert(r[1..], s);
      assert Descending(r[1..]);
      InsertKeepsDescending(r[1..], s);
      InsertBounded(r[1..], s, r[0].cases);
      ConsDescending(r[0], rest);
    } else {
      ConsDescending(s, r);
    }
  }

  lemma {:induction false} WithCasesAbsent(ss: seq<Suite>, c: nat)
    requires forall i :: 0 <= i < |ss| ==> ss[i].cases != c
    ensures WithCases(ss, c) == []
  {
    if |ss| > 0 {
      WithCasesAbsent(ss[1..], c);
    }
  }

  /** The order in which the balancer hands suites to the heap. */
  function SortDescending(ss: seq<Suite>): (r: seq<Suite>)
    ensures Descending(r)
    ensures multiset(r) == multiset(ss)
  {
    if |ss| == 0 then []
    else
      var front := SortDescending(ss[..|ss| - 1]);
      assert ss == ss[..|ss| - 1] + [ss[|ss| - 1]];
      InsertKeepsDescending(front, ss[|ss| - 1]);
      InsertAddsOne(front, ss[|ss| - 1]);
      Insert(front, ss[|ss| - 1])
  }

  /** Prefixing the same suite keeps an equation between per-count subsequences. */
  lemma ConsKeepsTies(h: Suite, x: seq<Suite>, y: seq<Suite>, tail: seq<Suite>, c: nat)
    requires WithCases(x, c) == WithCases(y, c) + tail
    ensures WithCases([h] + x, c) == WithCases([h] + y, c) + tail
  {
    var head := if h.cases == c then [h] else [];
    WithCasesCons(h, x, c);
    WithCasesCons(h, y, c);
    assert head + (WithCases(y, c) + tail) == (head + WithCases(y, c)) + tail;
  }

  /** Inserting keeps, for every case count, the relative order already
      there and puts the new suite last among those with its count. */
  lemma {:induction false} InsertKeepsTies(r: seq<Suite>, s: Suite, c: nat)
    requires Descending(r)
    ensures WithCases(Insert(r, s), c) == WithCases(r, c) + (if s.cases == c then [s] else [])
  {
    var tail := if s.cases == c then [s] else [];
    if |r| == 0 {
      assert Insert(r, s) == [s];
      WithCasesCons(s, [], c);
    } else if r[0].cases >= s.cases {
      assert Descending(r[1..]);
      InsertKeepsTies(r[1..], s, c);
      ConsKeepsTies(r[0], Insert(r[1..], s), r[1..], tail, c);
      assert r == [r[0]] + r[1..];
    } else {
      InsertInFrontKeepsTies(r, s, c);
    }
  }

  /** The case of `InsertKeepsTies` where `s` has more cases than every suite of `r`. */
  lemma InsertInFrontKeepsTies(r: seq<Suite>, s: Suite, c: nat)
    requires Descending(r) && |r| > 0 && r[0].cases < s.cases
    ensures WithCases(Insert(r, s), c) == WithCases(r, c) + (if s.cases == c then [s] else [])
  {
    var tail := if s.cases == c then [s] else [];
    WithCasesCons(s, r, c);
    if s.cases == c {
      WithCasesAbsent(r, c);
    }
  }

  /** Appending one suite appends it to the subsequence of its count. */
  lemma AppendOneTies(front: seq<Suite>, last: Suite, c: nat)
    ensures WithCases(front + [last], c) == WithCases(front, c) + (if last.cases == c then [last] else [])
  {
    WithCasesAppend(front, [last], c);
    WithCasesCons(last, [], c);
    assert [last] + [] == [last];
  }

  /** Stability: for every case count, the suites with that count come out in
      the order they went in. */
  lemma {:induction false} SortIsStable(ss: seq<Suite>, c: nat)
    ensures WithCases(SortDescending(ss), c) == WithCases(ss, c)
  {
    if |ss| > 0 {
      var front, last := ss[..|ss| - 1], ss[|ss| - 1];
      var sorted := SortDescending(front);
      var tail := if last.cases == c then [last] else [];
      calc {
        WithCases(SortDescending(ss), c);
        WithCases(Insert(sorted, last), c);
      == { InsertKeepsTies(sorted, last, c); }
        WithCases(sorted, c) + tail;
      == { SortIsStable(front, c); }
        WithCases(front, c) + tail;
      == { AppendOneTies(front, last, c); }
        WithCases(front + [last], c);
      == { assert ss == front + [last]; }
        WithCases(ss, c);
      }
    }
  }

  /** Sorting neither adds nor loses test cases. */
  lemma SortKeepsCaseCount(ss: seq<Suite>)
    ensures CaseCount(SortDescending(ss)) == CaseCount(ss)
  {
    CaseCountPermutation(SortDescending(ss), ss);
  }

  lemma FirstIsKept(ss: seq<Suite>)
    requires |ss| > 0
    ensures WithCases(ss, ss[0].cases) != []
  {
    assert WithCases(ss, ss[0].cases)[0] == ss[0];
  }

  /** A descending order whose per-count subsequences are given is unique, so
      any stable descending sort (PHP's or Python's) yields `SortDescending`. */
  lemma {:induction false} StableOrderIsUnique(a: seq<Suite>, b: seq<Suite>)
    requires Descending(a) && Descending(b)
    requires forall c :: WithCases(a, c) == WithCases(b, c)
    ensures a == b
  {
    if |a| == 0 && |b| == 0 {
    } else if |a| == 0 {
      FirstIsKept(b);
      assert false;
    } else if |b| == 0 {
      FirstIsKept(a);
      assert false;
    } else {
      var ca, cb := a[0].cases, b[0].cases;
      assert WithCases(a, ca)[0] == a[0];
      assert WithCases(b, cb)[0] == b[0];
      assert ca <= cb by {
        WithCasesFrom(b, ca);
        var x := WithCases(b, ca)[0];
        assert x in b;
      }
      assert cb <= ca by {
        WithCasesFrom(a, cb);
        var x := WithCases(a, cb)[0];
        assert x in a;
      }
      assert a[0] == b[0];
      forall c
        ensures WithCases(a[1..], c) == WithCases(b[1..], c)
      {
        var h := if a[0].cases == c then [a[0]] else [];
        assert WithCases(a, c) == h + WithCases(a[1..], c);
        assert WithCases(b, c) == h + WithCases(b[1..], c);
        assert WithCases(a[1..], c) == WithCases(a, c)[|h|..];
        assert WithCases(b[1..], c) == WithCases(b, c)[|h|..];
      }
      StableOrderIsUnique(a[1..], b[1..]);
      assert a == [a[0]] + a[1..];
      assert b == [b[0]] + b[1..];
    }
  }

  /** Any stable sort by descending case count orders the suites exactly as
      `SortDescending` does. */
  lemma StableSortIsSortDescending(ss: seq<Suite>, sorted: seq<Suite>)
    requires Descending(sorted)
    requires forall c :: WithCases(sorted, c) == WithCases(ss, c)
    ensures sorted == SortDescending(ss)
  {
    forall c
      ensures WithCases(sorted, c) == WithCases(SortDescending(ss), c)
    {
      SortIsStable(ss, c);
    }
    StableOrderIsUnique(sorted, SortDescending(ss));
  }
}
