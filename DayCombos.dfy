/** The day-combination generator: for n sessions, the non-decreasing
    n-tuples of weekday indices, in lexicographic order. */
module DayCombos {
  import opened TimeGrid

  /** A tuple of days, one per session. */
  function Days1(i: Day): seq<Day> { [i] }

  function Days2(i: Day, j: Day): seq<Day> { [i, j] }

  function Days3(i: Day, j: Day, k: Day): seq<Day> { [i, j, k] }

  /** The one-session loop: each day from i on, as a one-day tuple. */
  function Walk1(acc: seq<seq<Day>>, i: int): seq<seq<Day>>
    requires 0 <= i <= DayCount
    decreases DayCount - i
  {
    if i == DayCount then acc else Walk1(acc + [Days1(i)], i + 1)
  }

  /** The two nested two-session loops, from the cursor (i, j) on. */
  function Walk2(acc: seq<seq<Day>>, i: int, j: int): seq<seq<Day>>
    requires 0 <= i <= j <= DayCount
    decreases DayCount - i, DayCount - j
  {
    if i == DayCount then acc
    else if j == DayCount then Walk2(acc, i + 1, i + 1)
    else Walk2(acc + [Days2(i, j)], i, j + 1)
  }

  /** The three nested three-session loops, from the cursor (i, j, k) on. */
  function Walk3(acc: seq<seq<Day>>, i: int, j: int, k: int): seq<seq<Day>>
    requires 0 <= i <= j <= k <= DayCount
    decreases DayCount - i, DayCount - j, DayCount - k
  {
    if i == DayCount then acc
    else if j == DayCount then Walk3(acc, i + 1, i + 1, i + 1)
    else if k == DayCount then Walk3(acc, i, j + 1, j + 1)
    else Walk3(acc + [Days3(i, j, k)], i, j, k + 1)
  }

  /** generateDaysCombinations as a function; any other count gives no tuple. */
  function DayCombinations(n: int): seq<seq<Day>>
  {
    if n == 1 then Walk1([], 0)
    else if n == 2 then Walk2([], 0, 0)
    else if n == 3 then Walk3([], 0, 0, 0)
    else []
  }

  /** generateDaysCombinations: fill the list with nested loops over the days. */
  method GenerateDaysCombinations(numSessions: int) returns (combinations: seq<seq<Day>>)
    ensures combinations == DayCombinations(numSessions)
  {
    combinations := [];
    ghost var none := combinations;
    if numSessions == 1 {
      var i := 0;
      while i < DayCount
        invariant 0 <= i <= DayCount
        invariant Walk1(combinations, i) == Walk1(none, 0)
      {
        combinations := combinations + [Days1(i)];
        i := i + 1;
      }
    } else if numSessions == 2 {
      for i := 0 to DayCount
        invariant Walk2(combinations, i, i) == Walk2(none, 0, 0)
      {
        for j := i to DayCount
          invariant Walk2(combinations, i, j) == Walk2(none, 0, 0)
        {
          if i == j {
            combinations := combinations + [Days2(i, i)];
          } else {
            combinations := combinations + [Days2(i, j)];
          }
        }
      }
    } else if numSessions == 3 {
      for i := 0 to DayCount
        invariant Walk3(combinations, i, i, i) == Walk3(none, 0, 0, 0)
      {
        for j := i to DayCount
          invariant Walk3(combinations, i, j, j) == Walk3(none, 0, 0, 0)
        {
          for k := j to DayCount
            invariant Walk3(combinations, i, j, k) == Walk3(none, 0, 0, 0)
          {
            combinations := combinations + [Days3(i, j, k)];
          }
        }
      }
    }
  }

  /** Each day is no earlier in the week than the one before it. */
  predicate NonDecreasing(c: seq<Day>)
  {
    forall a, b :: 0 <= a < b < |c| ==> c[a] <= c[b]
  }

  /** A one-day tuple the walk from cursor i has still to produce. */
  predicate Ahead1(i: int, c: seq<Day>)
  {
    |c| == 1 && c[0] >= i
  }

  /** A non-decreasing pair at or after the cursor (i, j) in lexicographic order. */
  predicate Ahead2(i: int, j: int, c: seq<Day>)
  {
    |c| == 2 && c[0] <= c[1] && (c[0] > i || (c[0] == i && c[1] >= j))
  }

  /** A non-decreasing triple at or after the cursor (i, j, k) in lexicographic order. */
  predicate Ahead3(i: int, j: int, k: int, c: seq<Day>)
  {
    |c| == 3 && c[0] <= c[1] <= c[2]
    && (c[0] > i || (c[0] == i && (c[1] > j || (c[1] == j && c[2] >= k))))
  }

  lemma {:induction false} Walk1Members(acc: seq<seq<Day>>, i: int, c: seq<Day>)
    requires 0 <= i <= DayCount
    ensures c in Walk1(acc, i) <==> c in acc || Ahead1(i, c)
    decreases DayCount - i
  {
    if i < DayCount {
      Walk1Members(acc + [Days1(i)], i + 1, c);
      if Ahead1(i, c) && c[0] == i {
        assert c == Days1(i);
      }
    }
  }

  lemma {:induction false} Walk2Members(acc: seq<seq<Day>>, i: int, j: int, c: seq<Day>)
    requires 0 <= i <= j <= DayCount
    ensures c in Walk2(acc, i, j) <==> c in acc || Ahead2(i, j, c)
    decreases DayCount - i, DayCount - j
  {
    if i == DayCount {
    } else if j == DayCount {
      Walk2Members(acc, i + 1, i + 1, c);
    } else {
      Walk2Members(acc + [Days2(i, j)], i, j + 1, c);
      if Ahead2(i, j, c) && c[0] == i && c[1] == j {
        assert c == Days2(i, j);
      }
    }
  }

  lemma {:induction false} Walk3Members(acc: seq<seq<Day>>, i: int, j: int, k: int, c: seq<Day>)
    requires 0 <= i <= j <= k <= DayCount
    ensures c in Walk3(acc, i, j, k) <==> c in acc || Ahead3(i, j, k, c)
    decreases DayCount - i, DayCount - j, DayCount - k
  {
    if i == DayCount {
    } else if j == DayCount {
      Walk3Members(acc, i + 1, i + 1, i + 1, c);
    } else if k == DayCount {
      Walk3Members(acc, i, j + 1, j + 1, c);
    } else {
      Walk3Members(acc + [Days3(i, j, k)], i, j, k + 1, c);
      if Ahead3(i, j, k, c) && c[0] == i && c[1] == j && c[2] == k {
        assert c == Days3(i, j, k);
      }
    }
  }

  /** The generator yields exactly the non-decreasing n-tuples of days, for
      one to three sessions, and nothing for any other count. */
  lemma DayCombinationsMembers(n: int, c: seq<Day>)
    ensures c in DayCombinations(n) <==> 1 <= n <= 3 && |c| == n && NonDecreasing(c)
  {
    if n == 1 {
      Walk1Members([], 0, c);
    } else if n == 2 {
      Walk2Members([], 0, 0, c);
    } else if n == 3 {
      Walk3Members([], 0, 0, 0, c);
      if |c| == 3 && NonDecreasing(c) {
        assert c[0] <= c[1] && c[1] <= c[2];
      }
    }
  }

  /** 1 + 2 + ... + n. */
  function Tri(n: int): int
  {
    if n <= 0 then 0 else n + Tri(n - 1)
  }

  /** Tri(1) + Tri(2) + ... + Tri(n). */
  function Tet(n: int): int
  {
    if n <= 0 then 0 else Tri(n) + Tet(n - 1)
  }

  lemma {:induction false} Walk2Length(acc: seq<seq<Day>>, i: int, j: int)
    requires 0 <= i <= j <= DayCount
    ensures |Walk2(acc, i, j)| == |acc| + (DayCount - j) + Tri(DayCount - 1 - i)
    decreases DayCount - i, DayCount - j
  {
    if i == DayCount {
    } else if j == DayCount {
      Walk2Length(acc, i + 1, i + 1);
    } else {
      Walk2Length(acc + [Days2(i, j)], i, j + 1);
    }
  }

  lemma {:induction false} Walk3Length(acc: seq<seq<Day>>, i: int, j: int, k: int)
    requires 0 <= i <= j <= k <= DayCount
    ensures |Walk3(acc, i, j, k)| == |acc| + (DayCount - k) + Tri(DayCount - 1 - j) + Tet(DayCount - 1 - i)
    decreases DayCount - i, DayCount - j, DayCount - k
  {
    if i == DayCount {
    } else if j == DayCount {
      Walk3Length(acc, i + 1, i + 1, i + 1);
    } else if k == DayCount {
      Walk3Length(acc, i, j + 1, j + 1);
    } else {
      Walk3Length(acc + [Days3(i, j, k)], i, j, k + 1);
    }
  }

  /** Six single days, 21 pairs and 56 triples; no tuple for any other count. */
  lemma DayCombinationsCount(n: int)
    ensures |DayCombinations(n)| == if n == 1 then 6 else if n == 2 then 21 else if n == 3 then 56 else 0
  {
    if n == 2 {
      Walk2Length([], 0, 0);
    } else if n == 3 {
      Walk3Length([], 0, 0, 0);
    }
  }
}
