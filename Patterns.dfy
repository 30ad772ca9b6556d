/** The session-pattern generator: the ways of splitting a requested number
    of 30-minute slots into one, two or three sessions of at most six hours. */
module Patterns {

  /** A session lasts at most 12 slots (six hours). */
  const MaxSessionSlots: int := 12

  function Sum(p: seq<int>): int
  {
    if p == [] then 0 else Sum(p[..|p| - 1]) + p[|p| - 1]
  }

  /** The single-session pattern, offered when it fits in one session. */
  function Single(t: int): seq<seq<int>>
  {
    if t <= MaxSessionSlots then [[t]] else []
  }

  /** The split [i, t - i], when both parts fit in a session. */
  function TwoAt(t: int, i: int): seq<seq<int>>
  {
    if i <= MaxSessionSlots && t - i <= MaxSessionSlots then [[i, t - i]] else []
  }

  /** The two-session loop from first part i on, appending to acc. */
  function TwoLoop(acc: seq<seq<int>>, t: int, i: int): seq<seq<int>>
    decreases t - i
  {
    if i >= t then acc else TwoLoop(acc + TwoAt(t, i), t, i + 1)
  }

  /** The split [i, j, t - i - j], when its last part is positive and every
      part fits in a session. */
  function ThreeAt(t: int, i: int, j: int): seq<seq<int>>
  {
    var k := t - i - j;
    if k > 0 && k <= MaxSessionSlots && i <= MaxSessionSlots && j <= MaxSessionSlots then [[i, j, k]] else []
  }

  /** Last second part tried for first part i: floor((t - i) / 2). */
  function RowEnd(t: int, i: int): int
  {
    (t - i) / 2
  }

  /** Last first part tried: floor(t / 3). */
  function FirstEnd(t: int): int
  {
    t / 3
  }

  /** The inner three-session loop: first part i, second part from j on. */
  function RowLoop(acc: seq<seq<int>>, t: int, i: int, j: int): seq<seq<int>>
    decreases RowEnd(t, i) - j + 1
  {
    if j > RowEnd(t, i) then acc else RowLoop(acc + ThreeAt(t, i, j), t, i, j + 1)
  }

  /** The outer three-session loop, from first part i on. */
  function ThreeLoop(acc: seq<seq<int>>, t: int, i: int): seq<seq<int>>
    decreases FirstEnd(t) - i + 1
  {
    if i > FirstEnd(t) then acc else ThreeLoop(RowLoop(acc, t, i, 1), t, i + 1)
  }

  /** generateSessionPatterns as a function: one session, then two, then three. */
  function SessionPatterns(t: int): seq<seq<int>>
  {
    var single := Single(t);
    var two := if t >= 2 then TwoLoop(single, t, 1) else single;
    if t >= 3 then ThreeLoop(two, t, 1) else two
  }

  /** generateSessionPatterns: fill the pattern list with nested loops. */
  method GenerateSessionPatterns(totalSlots: int) returns (patterns: seq<seq<int>>)
    ensures patterns == SessionPatterns(totalSlots)
  {
    var t := totalSlots;
    patterns := [];
    if t <= MaxSessionSlots {
      patterns := patterns + [[t]];
    }
    assert patterns == Single(t);
    if t >= 2 {
      var i := 1;
      while i < t
        invariant 1 <= i <= t
        invariant TwoLoop(patterns, t, i) == TwoLoop(Single(t), t, 1)
      {
        ghost var before := patterns;
        if i <= MaxSessionSlots && t - i <= MaxSessionSlots {
          patterns := patterns + [[i, t - i]];
        }
        assert patterns == before + TwoAt(t, i);
        i := i + 1;
      }
    }
    ghost var afterTwo := patterns;
    if t >= 3 {
      var i := 1;
      while i <= FirstEnd(t)
        invariant 1 <= i <= FirstEnd(t) + 1
        invariant ThreeLoop(patterns, t, i) == ThreeLoop(afterTwo, t, 1)
      {
        var j := 1;
        while j <= RowEnd(t, i)
          invariant 1 <= j <= RowEnd(t, i) + 1
          invariant ThreeLoop(RowLoop(patterns, t, i, j), t, i + 1) == ThreeLoop(afterTwo, t, 1)
        {
          var k := t - i - j;
          ghost var before := patterns;
          if k > 0 && k <= MaxSessionSlots && i <= MaxSessionSlots && j <= MaxSessionSlots {
            patterns := patterns + [[i, j, k]];
          }
          assert patterns == before + ThreeAt(t, i, j);
          j := j + 1;
        }
        i := i + 1;
      }
    }
  }

  /** The patterns the generator offers for t slots: t itself when it fits in
      one session; two positive parts of at most 12 each; or three positive
      parts of at most 12 with the first at most a third of t and the second
      at most the third. */
  predicate IsPattern(t: int, p: seq<int>)
  {
    (p == [t] && t <= MaxSessionSlots)
    || (|p| == 2 && 1 <= p[0] && 1 <= p[1] && p[0] + p[1] == t
        && p[0] <= MaxSessionSlots && p[1] <= MaxSessionSlots)
    || (|p| == 3 && 1 <= p[0] && 3 * p[0] <= t && 1 <= p[1] <= p[2] && p[0] + p[1] + p[2] == t
        && p[0] <= MaxSessionSlots && p[2] <= MaxSessionSlots)
  }

  /** A two-session split with first part at least lo. */
  predicate TwoSplit(t: int, lo: int, p: seq<int>)
  {
    |p| == 2 && lo <= p[0] < t && p[1] == t - p[0] && p[0] <= MaxSessionSlots && p[1] <= MaxSessionSlots
  }

  /** A three-session split with first part i and second part at least lo. */
  predicate ThreeSplitRow(t: int, i: int, lo: int, p: seq<int>)
  {
    |p| == 3 && p[0] == i && lo <= p[1] && 2 * p[1] <= t - i && p[2] == t - i - p[1]
    && 0 < p[2] <= MaxSessionSlots && i <= MaxSessionSlots && p[1] <= MaxSessionSlots
  }

  /** A three-session split with first part at least lo. */
  predicate ThreeSplitFrom(t: int, lo: int, p: seq<int>)
  {
    |p| == 3 && lo <= p[0] && 3 * p[0] <= t && ThreeSplitRow(t, p[0], 1, p)
  }

  lemma {:induction false} TwoLoopMembers(acc: seq<seq<int>>, t: int, i: int, p: seq<int>)
    ensures p in TwoLoop(acc, t, i) <==> p in acc || TwoSplit(t, i, p)
    decreases t - i
  {
    if i < t {
      TwoLoopMembers(acc + TwoAt(t, i), t, i + 1, p);
      if TwoSplit(t, i, p) && p[0] == i {
        assert p == [i, t - i];
      }
    }
  }

  lemma {:induction false} RowLoopMembers(acc: seq<seq<int>>, t: int, i: int, j: int, p: seq<int>)
    ensures p in RowLoop(acc, t, i, j) <==> p in acc || ThreeSplitRow(t, i, j, p)
    decreases RowEnd(t, i) - j + 1
  {
    if j <= RowEnd(t, i) {
      RowLoopMembers(acc + ThreeAt(t, i, j), t, i, j + 1, p);
      if ThreeSplitRow(t, i, j, p) && p[1] == j {
        assert p == [i, j, t - i - j];
      }
    }
  }

  lemma {:induction false} ThreeLoopMembers(acc: seq<seq<int>>, t: int, i: int, p: seq<int>)
    ensures p in ThreeLoop(acc, t, i) <==> p in acc || ThreeSplitFrom(t, i, p)
    decreases FirstEnd(t) - i + 1
  {
    if i <= FirstEnd(t) {
      ThreeLoopMembers(RowLoop(acc, t, i, 1), t, i + 1, p);
      RowLoopMembers(acc, t, i, 1, p);
    }
  }

  /** The generator offers exactly the patterns IsPattern describes. */
  lemma SessionPatternsMembers(t: int, p: seq<int>)
    ensures p in SessionPatterns(t) <==> IsPattern(t, p)
  {
    var single := Single(t);
    var two := if t >= 2 then TwoLoop(single, t, 1) else single;
    if t >= 2 {
      TwoLoopMembers(single, t, 1, p);
    }
    if t >= 3 {
      ThreeLoopMembers(two, t, 1, p);
    }
    assert p in single <==> p == [t] && t <= MaxSessionSlots;
  }

  /** Every pattern splits exactly t slots into one to three sessions of at
      most six hours, and a split has no empty session. */
  lemma PatternShape(t: int, p: seq<int>)
    requires p in SessionPatterns(t)
    ensures 1 <= |p| <= 3 && Sum(p) == t
    ensures forall n :: 0 <= n < |p| ==> p[n] <= MaxSessionSlots
    ensures |p| >= 2 ==> forall n :: 0 <= n < |p| ==> 1 <= p[n]
  {
    SessionPatternsMembers(t, p);
    assert IsPattern(t, p);
    SumOfShort(p);
    if |p| == 1 {
      assert p[0] == t;
    }
  }

  lemma SumOfShort(p: seq<int>)
    requires 1 <= |p| <= 3
    ensures |p| == 1 ==> Sum(p) == p[0]
    ensures |p| == 2 ==> Sum(p) == p[0] + p[1]
    ensures |p| == 3 ==> Sum(p) == p[0] + p[1] + p[2]
  {
    assert p[..0] == [];
    assert Sum(p[..1]) == p[0];
    if |p| >= 2 {
      assert p[..2][..1] == p[..1];
    }
    if |p| == 3 {
      assert p[..3][..2] == p[..2];
    }
  }

  /** Some pattern exists exactly when t is at most 36 slots (three sessions
      of six hours). */
  lemma SessionPatternsEmpty(t: int)
    ensures SessionPatterns(t) == [] <==> t > 3 * MaxSessionSlots
  {
    if t <= MaxSessionSlots {
      SessionPatternsMembers(t, [t]);
    } else if t <= 2 * MaxSessionSlots {
      SessionPatternsMembers(t, [MaxSessionSlots, t - MaxSessionSlots]);
    } else if t <= 3 * MaxSessionSlots {
      SessionPatternsMembers(t, [t - 2 * MaxSessionSlots, MaxSessionSlots, MaxSessionSlots]);
    } else if SessionPatterns(t) != [] {
      var p := SessionPatterns(t)[0];
      SessionPatternsMembers(t, p);
      assert false;
    }
  }

  /** The one-session pattern [t] is offered exactly when t fits in one
      session. */
  lemma SingleSessionPattern(t: int)
    ensures [t] in SessionPatterns(t) <==> t <= MaxSessionSlots
  {
    SessionPatternsMembers(t, [t]);
  }

  /** Six slots give, among others, [6], [3, 3] and [2, 2, 2]. */
  lemma SixSlots()
    ensures [6] in SessionPatterns(6) && [3, 3] in SessionPatterns(6) && [2, 2, 2] in SessionPatterns(6)
    ensures [1, 1, 4] in SessionPatterns(6) && [1, 4, 1] !in SessionPatterns(6)
  {
    SessionPatternsMembers(6, [6]);
    SessionPatternsMembers(6, [3, 3]);
    SessionPatternsMembers(6, [2, 2, 2]);
    SessionPatternsMembers(6, [1, 1, 4]);
    SessionPatternsMembers(6, [1, 4, 1]);
  }

  /** For a positive total, every part of every pattern is a whole session
      of one to twelve slots. */
  lemma PatternPartsPositive(t: int, p: seq<int>)
    requires t >= 1 && p in SessionPatterns(t)
    ensures forall n :: 0 <= n < |p| ==> 1 <= p[n] <= MaxSessionSlots
  {
    SessionPatternsMembers(t, p);
  }
}
