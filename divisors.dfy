/**
 * The divisor search `LRU::factor` runs on a cache miss. Only numbers of the
 * request itself are tried as divisors: for every `n` of the sorted request, each
 * candidate `d` of the request with `d * d <= n` that divides `n` contributes
 * `d`, and also `n / d` when that differs from `d`. The source bounds the
 * candidates by the truncated floating-point square root of `n`; for positive
 * integers `d <= floor(sqrt(n))` is the same test as `d * d <= n`.
 */
module Divisors {
  import opened Wrappers
  import opened Sorting
  import opened Seqs

  /** The result of `factor`: each number of the request with its divisor list. */
  type DivisorMap = map<int, seq<int>>

  /** The source divides by request elements and takes their square roots: they must be positive. */
  predicate AllPositive(s: seq<int>)
  {
    forall i :: 0 <= i < |s| ==> s[i] >= 1
  }

  /** Sorting keeps every number of the request, so it keeps them positive. */
  lemma SortKeepsPositive(s: seq<int>)
    requires AllPositive(s)
    ensures AllPositive(Sort(s))
  {
    forall i | 0 <= i < |Sort(s)|
      ensures Sort(s)[i] >= 1
    {
      assert Sort(s)[i] in multiset(Sort(s));
      assert Sort(s)[i] in s;
    }
  }

  /** What a tested candidate `d` adds to the list of `n`. */
  function Contribution(n: int, d: int): (r: seq<int>)
    requires d >= 1
    ensures forall x :: x in r <==> n % d == 0 && (x == d || x == n / d)
    ensures |r| == if n % d != 0 then 0 else if d * d == n then 1 else 2
    ensures n % d == 0 ==> r[0] == d
  {
    if n % d == 0 then
      CofactorIsSelf(n, d);
      if d != n / d then [d, n / d] else [d]
    else []
  }

  /** For a divisor `d` of `n`, the cofactor `n / d` is `d` itself exactly when `d * d == n`. */
  lemma CofactorIsSelf(n: int, d: int)
    requires d >= 1 && n % d == 0
    ensures d == n / d <==> d * d == n
  {
    assert n == d * (n / d);
    if d * d == n {
      assert d * d == d * (n / d);
    }
  }

  /**
   * The inner loop of the search, from candidate index `j` on: it stops at the
   * first candidate whose square exceeds `n`, or at the end of the request.
   */
  function Scan(s: seq<int>, n: int, j: nat): seq<int>
    requires AllPositive(s) && j <= |s|
    decreases |s| - j
  {
    if j < |s| && s[j] * s[j] <= n then Contribution(n, s[j]) + Scan(s, n, j + 1) else []
  }

  /** The reference definition: every candidate of `s` whose square is at most `n`, wherever it stands. */
  function Qualifying(s: seq<int>, n: int): seq<int>
    requires AllPositive(s)
  {
    if s == [] then []
    else (if s[0] * s[0] <= n then Contribution(n, s[0]) else []) + Qualifying(s[1..], n)
  }

  /** The map the search builds: every number of the request, keyed to its scan. */
  function DivisorMapOf(s: seq<int>): DivisorMap
    requires AllPositive(s)
  {
    map n | n in s :: Scan(s, n, 0)
  }

  /** Squaring is monotone on positive numbers. */
  lemma SquareMonotone(a: int, b: int)
    requires 1 <= a <= b
    ensures a * a <= b * b
  {
    assert a * a <= a * b <= b * b;
  }

  /** Candidate `d` passes the square test, divides `n` and yields `x` as itself or as its cofactor. */
  predicate Yields(d: int, n: int, x: int)
    requires d >= 1
  {
    d * d <= n && n % d == 0 && (x == d || x == n / d)
  }

  /** A number appears in the reference list exactly when some candidate of the request yields it. */
  lemma {:induction false} QualifyingMembers(s: seq<int>, n: int, x: int)
    requires AllPositive(s)
    ensures x in Qualifying(s, n) <==> exists k :: 0 <= k < |s| && Yields(s[k], n, x)
  {
    if s != [] {
      QualifyingMembers(s[1..], n, x);
      var head := if s[0] * s[0] <= n then Contribution(n, s[0]) else [];
      assert Qualifying(s, n) == head + Qualifying(s[1..], n);
      assert x in head <==> Yields(s[0], n, x);
      if x in Qualifying(s[1..], n) {
        var k :| 0 <= k < |s[1..]| && Yields(s[1..][k], n, x);
        assert Yields(s[k + 1], n, x);
      }
      if k :| 0 <= k < |s| && Yields(s[k], n, x) {
        if k > 0 {
          assert Yields(s[1..][k - 1], n, x);
        }
      }
    }
  }

  /** No candidate from `j` on passes the square test, so nothing qualifies there. */
  lemma {:induction false} QualifyingNone(s: seq<int>, n: int, j: nat)
    requires IsSorted(s) && AllPositive(s)
    requires j < |s| && s[j] * s[j] > n
    ensures Qualifying(s[j..], n) == []
    decreases |s| - j
  {
    if j + 1 < |s| {
      SquareMonotone(s[j], s[j + 1]);
      QualifyingNone(s, n, j + 1);
      assert s[j..][1..] == s[j + 1..];
    }
  }

  /** On a sorted request the early-stopping scan finds exactly the reference list. */
  lemma {:induction false} ScanIsQualifying(s: seq<int>, n: int, j: nat)
    requires IsSorted(s) && AllPositive(s) && j <= |s|
    ensures Scan(s, n, j) == Qualifying(s[j..], n)
    decreases |s| - j
  {
    if j < |s| {
      if s[j] * s[j] <= n {
        ScanIsQualifying(s, n, j + 1);
        assert s[j..][1..] == s[j + 1..];
      } else {
        QualifyingNone(s, n, j);
      }
    }
  }

  /**
   * What a miss returns: the keys are the numbers of the request, and the list of
   * `n` holds exactly the candidates `d` of the request with `d * d <= n` dividing
   * `n`, together with their cofactors `n / d`.
   */
  lemma DivisorMapSpec(s: seq<int>, n: int, x: int)
    requires IsSorted(s) && AllPositive(s)
    ensures n in DivisorMapOf(s) <==> n in s
    ensures n in s ==>
      (x in DivisorMapOf(s)[n] <==> exists k :: 0 <= k < |s| && Yields(s[k], n, x))
  {
    ScanIsQualifying(s, n, 0);
    QualifyingMembers(s, n, x);
  }

  /** The worked example: `[2, 4, 5, 10, 20]` gives `{2: [], 4: [2], 5: [], 10: [2, 5], 20: [2, 10, 4, 5]}`. */
  lemma WorkedExample()
    ensures DivisorMapOf([2, 4, 5, 10, 20]) ==
      map[2 := [], 4 := [2], 5 := [], 10 := [2, 5], 20 := [2, 10, 4, 5]]
  {
    ExampleScansSmall();
    ExampleScan10();
    ExampleScan20();
  }

  /** The scans of the worked example for 2, 4 and 5. */
  lemma ExampleScansSmall()
    ensures Scan([2, 4, 5, 10, 20], 2, 0) == []
    ensures Scan([2, 4, 5, 10, 20], 4, 0) == [2]
    ensures Scan([2, 4, 5, 10, 20], 5, 0) == []
  {
    var s := [2, 4, 5, 10, 20];
    assert Scan(s, 2, 0) == [];
    assert Scan(s, 4, 1) == [];
    assert Scan(s, 5, 1) == [];
  }

  /** The scan of the worked example for 10. */
  lemma ExampleScan10()
    ensures Scan([2, 4, 5, 10, 20], 10, 0) == [2, 5]
  {
    var s := [2, 4, 5, 10, 20];
    assert Scan(s, 10, 1) == [];
  }

  /** The scan of the worked example for 20. */
  lemma ExampleScan20()
    ensures Scan([2, 4, 5, 10, 20], 20, 0) == [2, 10, 4, 5]
  {
    var s := [2, 4, 5, 10, 20];
    assert Scan(s, 20, 2) == [];
    assert Scan(s, 20, 1) == [4, 5];
  }

  /**
   * The inner loop exactly as written: its guard tests `s[j]` without checking
   * that `j` is still an index, so running off the end is reported as `None`.
   */
  function ScanAsWritten(s: seq<int>, n: int, j: nat): Option<seq<int>>
    requires AllPositive(s) && j <= |s|
    decreases |s| - j
  {
    if j == |s| then None
    else if s[j] * s[j] <= n then
      match ScanAsWritten(s, n, j + 1)
      case None => None
      case Some(rest) => Some(Contribution(n, s[j]) + rest)
    else Some([])
  }

  /** The unbounded loop runs off the end exactly when every remaining candidate passes the guard; otherwise it agrees with `Scan`. */
  lemma {:induction false} ScanAsWrittenAgrees(s: seq<int>, n: int, j: nat)
    requires AllPositive(s) && j <= |s|
    ensures ScanAsWritten(s, n, j) ==
      if forall k :: j <= k < |s| ==> s[k] * s[k] <= n then None else Some(Scan(s, n, j))
    decreases |s| - j
  {
    if j < |s| && s[j] * s[j] <= n {
      ScanAsWrittenAgrees(s, n, j + 1);
      assert (forall k :: j <= k < |s| ==> s[k] * s[k] <= n) <==>
        (forall k :: j + 1 <= k < |s| ==> s[k] * s[k] <= n);
    }
  }

  /**
   * On a sorted request of positive numbers, the loop as written reads past the
   * end for some element `n` exactly when every number of the request is 1.
   */
  lemma ScanAsWrittenOverruns(s: seq<int>, n: int)
    requires IsSorted(s) && AllPositive(s) && n in s
    ensures ScanAsWritten(s, n, 0) == None <==> forall k :: 0 <= k < |s| ==> s[k] == 1
    ensures ScanAsWritten(s, n, 0) != None ==> ScanAsWritten(s, n, 0) == Some(Scan(s, n, 0))
  {
    ScanAsWrittenAgrees(s, n, 0);
    AllPassIffOnes(s, n);
  }

  /** A square grows at least as fast as `2 * m - 1`. */
  lemma SquareGrowth(m: int)
    requires m >= 1
    ensures m * m >= 2 * m - 1
  {
    assert m * (m - 1) >= 1 * (m - 1);
    assert m * m == m * (m - 1) + m;
  }

  /** In a sorted request holding `n`, every square is at most `n` exactly when every number is 1. */
  lemma AllPassIffOnes(s: seq<int>, n: int)
    requires IsSorted(s) && AllPositive(s) && n in s
    ensures (forall k :: 0 <= k < |s| ==> s[k] * s[k] <= n) <==> (forall k :: 0 <= k < |s| ==> s[k] == 1)
  {
    var i :| 0 <= i < |s| && s[i] == n;
    var m := s[|s| - 1];
    assert n <= m;
    if forall k :: 0 <= k < |s| ==> s[k] * s[k] <= n {
      assert m * m <= n;
      SquareGrowth(m);
      assert m == 1;
      forall k | 0 <= k < |s|
        ensures s[k] == 1
      {
        assert s[k] <= m;
      }
    }
    if forall k :: 0 <= k < |s| ==> s[k] == 1 {
      assert n == 1;
      forall k | 0 <= k < |s|
        ensures s[k] * s[k] <= n
      {
        assert s[k] == 1;
      }
    }
  }

  /** The smallest input that shows the overrun: `[1]`. */
  lemma OverrunExample()
    ensures ScanAsWritten([1], 1, 0) == None
  {
  }

  /** The search `factor` runs on a miss: over the sorted copy of the request. */
  function SearchSorted(input: seq<int>): DivisorMap
    requires AllPositive(input)
  {
    SortKeepsPositive(input);
    DivisorMapOf(Sort(input))
  }

  /**
   * The search restated over the request as the caller gave it: the keys are
   * its numbers, and the list of `n` holds exactly what some number `d` of the
   * request with `d * d <= n` dividing `n` yields, `d` or `n / d`.
   */
  lemma SearchSortedSpec(input: seq<int>, n: int, x: int)
    requires AllPositive(input)
    ensures n in SearchSorted(input) <==> n in input
    ensures n in input ==>
      (x in SearchSorted(input)[n] <==> exists d :: d in input && d >= 1 && Yields(d, n, x))
  {
    var sorted := Sort(input);
    SortKeepsPositive(input);
    SortSameMembers(input);
    DivisorMapSpec(sorted, n, x);
    YieldsOverMembers(sorted, input, n, x);
  }

  lemma SortSameMembers(s: seq<int>)
    ensures forall d :: d in Sort(s) <==> d in s
  {
    assert forall d :: d in Sort(s) <==> d in multiset(Sort(s));
  }

  /** Whether some candidate yields `x` depends only on which numbers the request holds. */
  lemma YieldsOverMembers(s: seq<int>, t: seq<int>, n: int, x: int)
    requires AllPositive(s) && AllPositive(t)
    requires forall d :: d in s <==> d in t
    ensures (exists k :: 0 <= k < |s| && Yields(s[k], n, x)) <==>
      (exists d :: d in t && d >= 1 && Yields(d, n, x))
  {
    if k :| 0 <= k < |s| && Yields(s[k], n, x) {
      assert s[k] in t;
    }
    if d :| d in t && d >= 1 && Yields(d, n, x) {
      var k :| 0 <= k < |s| && s[k] == d;
      assert Yields(s[k], n, x);
    }
  }

  /** No number occurs twice. */
  predicate NoRepeats(s: seq<int>)
  {
    forall i, j :: 0 <= i < j < |s| ==> s[i] != s[j]
  }

  /** A divisor `e` of `n` with `e * e <= n` is at most its cofactor. */
  lemma CofactorAtLeast(n: int, e: int)
    requires e >= 1 && e * e <= n && n % e == 0
    ensures e <= n / e
  {
    assert e * e <= e * (n / e);
  }

  /** The larger of two divisors of a positive `n` has the smaller cofactor. */
  lemma CofactorsDecrease(n: int, d: int, e: int)
    requires n >= 1 && 1 <= d < e && n % d == 0 && n % e == 0
    ensures n / e < n / d
  {
    assert (n / d) * d == n && (n / e) * e == n;
    assert n / d >= 1;
    assert (n / e) * e < (n / d) * e;
  }

  /**
   * Two different candidates `d < e` that both pass the square test and divide
   * `n` never yield the same number: `d < e <= n / e < n / d`, so the candidates
   * and their cofactors are four different numbers, except that `e` may be its
   * own cofactor.
   */
  lemma CandidatesApart(n: int, d: int, e: int, x: int)
    requires 1 <= d < e && d * d <= n && e * e <= n && n % d == 0 && n % e == 0
    ensures !((x == d || x == n / d) && (x == e || x == n / e))
  {
    CofactorAtLeast(n, e);
    CofactorsDecrease(n, d, e);
  }

  lemma NoRepeatsAppend(a: seq<int>, b: seq<int>)
    requires NoRepeats(a) && NoRepeats(b)
    requires forall x :: x in a ==> x !in b
    ensures NoRepeats(a + b)
  {
    var c := a + b;
    forall i, j | 0 <= i < j < |c|
      ensures c[i] != c[j]
    {
      if i < |a| && j >= |a| {
        assert c[i] in a && c[j] == b[j - |a|];
      } else if i >= |a| {
        assert c[i] == b[i - |a|] && c[j] == b[j - |a|];
      }
    }
  }

  /** On a request without repeats, sorted, the scan of `n` lists no number twice. */
  lemma {:induction false} ScanNoRepeats(s: seq<int>, n: int, j: nat)
    requires IsSorted(s) && NoRepeats(s) && AllPositive(s) && j <= |s|
    ensures NoRepeats(Scan(s, n, j))
    decreases |s| - j
  {
    if j < |s| && s[j] * s[j] <= n {
      ScanNoRepeats(s, n, j + 1);
      var d := s[j];
      var c, rest := Contribution(n, d), Scan(s, n, j + 1);
      if n % d == 0 {
        CofactorIsSelf(n, d);
      }
      ScanIsQualifying(s, n, j + 1);
      forall x | x in c
        ensures x !in rest
      {
        QualifyingMembers(s[j + 1..], n, x);
        if x in rest {
          var k :| 0 <= k < |s[j + 1..]| && Yields(s[j + 1..][k], n, x);
          var e := s[j + 1 + k];
          assert s[j + 1..][k] == e && d <= e && d != e;
          CandidatesApart(n, d, e, x);
        }
      }
      NoRepeatsAppend(c, rest);
    }
  }

  /** A sequence without repeats holds each number at most once. */
  lemma {:induction false} NoRepeatsCount(a: seq<int>, x: int)
    requires NoRepeats(a)
    ensures multiset(a)[x] <= 1
  {
    if a != [] {
      NoRepeatsCount(a[1..], x);
      assert a == [a[0]] + a[1..];
      if x == a[0] {
        assert x !in a[1..];
      }
    }
  }

  /** A number at two positions occurs at least twice. */
  lemma RepeatCount(b: seq<int>, i: int, j: int)
    requires 0 <= i < j < |b| && b[i] == b[j]
    ensures multiset(b)[b[i]] >= 2
  {
    assert b == b[..j] + [b[j]] + b[j + 1..];
    assert b[i] == b[..j][i];
  }

  /** A permutation of a sequence without repeats has none. */
  lemma NoRepeatsPermutation(a: seq<int>, b: seq<int>)
    requires multiset(a) == multiset(b) && NoRepeats(a)
    ensures NoRepeats(b)
  {
    forall i, j | 0 <= i < j < |b|
      ensures b[i] != b[j]
    {
      if b[i] == b[j] {
        RepeatCount(b, i, j);
        NoRepeatsCount(a, b[i]);
      }
    }
  }

  /**
   * A request without repeated numbers gets divisor lists without repeated
   * numbers: the perfect-square rule keeps `d` from being added a second time
   * as its own cofactor.
   */
  lemma SearchNoRepeats(input: seq<int>, n: int)
    requires AllPositive(input) && NoRepeats(input) && n in input
    ensures n in SearchSorted(input)
    ensures NoRepeats(SearchSorted(input)[n])
  {
    var sorted := Sort(input);
    SortKeepsPositive(input);
    SortSameMembers(input);
    NoRepeatsPermutation(input, sorted);
    ScanNoRepeats(sorted, n, 0);
  }

  /** A map keyed by the numbers of the request, each holding its scan, is the search's result. */
  lemma DivisorMapOfPointwise(s: seq<int>, m: DivisorMap)
    requires AllPositive(s)
    requires forall n :: n in m <==> n in s
    requires forall k :: 0 <= k < |s| ==> m[s[k]] == Scan(s, s[k], 0)
    ensures m == DivisorMapOf(s)
  {
    var r := DivisorMapOf(s);
    forall n | n in m
      ensures n in r && m[n] == r[n]
    {
      var k :| 0 <= k < |s| && s[k] == n;
    }
    MapsAgree(m, r);
  }

  lemma MapsAgree(m: DivisorMap, r: DivisorMap)
    requires forall n :: n in m ==> n in r && m[n] == r[n]
    requires forall n :: n in r ==> n in m
    ensures m == r
  {
    assert forall n :: n in m <==> n in r;
    assert forall n :: n in m ==> m[n] == r[n];
  }

  /**
   * The inner loop for one number `n`: candidates are tried in request order
   * while their square is at most `n`, and never past the end of the request.
   */
  method ScanCandidates(input: seq<int>, n: int) returns (v: seq<int>)
    requires AllPositive(input)
    ensures v == Scan(input, n, 0)
  {
    v := [];
    var j := 0;
    while j < |input| && input[j] * input[j] <= n
      invariant 0 <= j <= |input|
      invariant v + Scan(input, n, j) == Scan(input, n, 0)
    {
      var d := input[j];
      ghost var before := v;
      if n % d == 0 {
        v := v + [d];
        if d != n / d {
          v := v + [n / d];
        }
      }
      ContributionAppended(n, d, before, v);
      ScanStep(input, n, j, before, v);
      j := j + 1;
    }
  }

  /** The candidate and, when different, its cofactor are what one pass appends. */
  lemma ContributionAppended(n: int, d: int, before: seq<int>, after: seq<int>)
    requires d >= 1
    requires n % d != 0 ==> after == before
    requires n % d == 0 && d != n / d ==> after == before + [d] + [n / d]
    requires n % d == 0 && d == n / d ==> after == before + [d]
    ensures after == before + Contribution(n, d)
  {
    if n % d == 0 && d != n / d {
      assert before + [d] + [n / d] == before + [d, n / d];
    }
  }

  /** One pass of the inner loop appends the contribution of candidate `j` and keeps the scan's remainder. */
  lemma ScanStep(s: seq<int>, n: int, j: nat, before: seq<int>, after: seq<int>)
    requires AllPositive(s) && j < |s| && s[j] * s[j] <= n
    requires after == before + Contribution(n, s[j])
    ensures after + Scan(s, n, j + 1) == before + Scan(s, n, j)
  {
    var c, rest := Contribution(n, s[j]), Scan(s, n, j + 1);
    assert Scan(s, n, j) == c + rest;
    AppendAssoc(before, c, rest);
  }

  /**
   * The two loops that build the result on a miss: first every number is entered
   * with an empty list, then each list is replaced by the scan for that number.
   */
  method ComputeDivisors(input: seq<int>) returns (result: DivisorMap)
    requires AllPositive(input)
    ensures result == DivisorMapOf(input)
  {
    result := map[];
    for i := 0 to |input|
      invariant forall n :: n in result <==> n in input[..i]
      invariant forall n :: n in result ==> result[n] == []
    {
      result := result[input[i] := []];
      assert input[..i + 1] == input[..i] + [input[i]];
    }
    assert input[..|input|] == input;
    for i := 0 to |input|
      invariant forall n :: n in result <==> n in input
      invariant forall k :: 0 <= k < i ==> result[input[k]] == Scan(input, input[k], 0)
    {
      var v := ScanCandidates(input, input[i]);
      ghost var previous := result;
      result := result[input[i] := v];
      forall k | 0 <= k < i + 1
        ensures result[input[k]] == Scan(input, input[k], 0)
      {
        if input[k] != input[i] {
          assert result[input[k]] == previous[input[k]];
        }
      }
    }
    DivisorMapOfPointwise(input, result);
  }
}
