/** What the availability search guarantees: every result it offers is a
    full first-fit placement of a generated pattern, the list is ranked and
    at most ten long, and committing a result keeps a conflict-free registry
    conflict-free. */
module SearchProperties {
  import opened Options
  import opened TimeGrid
  import opened Conflicts
  import opened Patterns
  import opened DayCombos
  import opened SlotSearch
  import opened Availability

  /** The day of each session, in order. */
  function DaysOf(ss: seq<Session>): seq<Day>
  {
    seq(|ss|, m requires 0 <= m < |ss| => ss[m].day)
  }

  /** Session m of a placement starts at the first window found against
      what the version searches against (the registry, and for the corrected
      version the sessions before it); it lies on day combo[m] in the room,
      lasts pattern[m] slots, starts at 07:00 or later and ends at or before
      21:00 (start + pattern[m] <= 28), and its window was clear. */
  predicate PlacedAt(v: Version, entries: seq<Entry>, req: Request, pattern: seq<int>, combo: seq<Day>, room: string,
                     ss: seq<Session>, m: nat)
    requires m < |ss| && m < |pattern| && m < |combo|
  {
    && ss[m].day == combo[m] && ss[m].slots == pattern[m] && ss[m].room == room
    && FirstFit(SearchedAgainst(v, entries, ss[..m], req), req, combo[m], pattern[m], room) == Some(ss[m].start)
    && 0 <= ss[m].start && ss[m].start + ss[m].slots < SlotCount
    && WindowClear(SearchedAgainst(v, entries, ss[..m], req), req, combo[m], room, ss[m].start, pattern[m])
  }

  /** Every session of a placement is placed as PlacedAt says. */
  lemma {:induction false} PlaceShape(v: Version, entries: seq<Entry>, req: Request, pattern: seq<int>, combo: seq<Day>,
                                      room: string, n: nat)
    requires n <= |pattern| == |combo|
    requires Place(v, entries, req, pattern, combo, room, n).Some?
    ensures forall m :: 0 <= m < n ==>
      PlacedAt(v, entries, req, pattern, combo, room, Place(v, entries, req, pattern, combo, room, n).value, m)
  {
    if n > 0 {
      PlaceShape(v, entries, req, pattern, combo, room, n - 1);
      var prev := Place(v, entries, req, pattern, combo, room, n - 1).value;
      var ss := Place(v, entries, req, pattern, combo, room, n).value;
      FirstFitSpec(SearchedAgainst(v, entries, prev, req), req, combo[n - 1], pattern[n - 1], room);
      assert ss == prev + [ss[n - 1]];
      forall m | 0 <= m < n
        ensures PlacedAt(v, entries, req, pattern, combo, room, ss, m)
      {
        if m < n - 1 {
          assert PlacedAt(v, entries, req, pattern, combo, room, prev, m);
          assert ss[..m] == prev[..m];
        } else {
          assert ss[..m] == prev;
        }
      }
    }
  }

  /** The bookings of placed sessions, one after another. */
  lemma BookedSnoc(ss: seq<Session>, s: Session, req: Request)
    ensures Booked(ss + [s], req) == Booked(ss, req) + [SessionEntry(s, req, 0)]
  {
  }

  /** A placement of sessions of at least one slot each never double-books:
      added to a conflict-free registry, its bookings keep it conflict-free. */
  lemma {:induction false} PlaceConsistent(entries: seq<Entry>, req: Request, pattern: seq<int>, combo: seq<Day>,
                                           room: string, n: nat)
    requires n <= |pattern| == |combo|
    requires forall m :: 0 <= m < n ==> pattern[m] >= 1
    requires Consistent(entries)
    requires Place(Corrected, entries, req, pattern, combo, room, n).Some?
    ensures Consistent(entries + Booked(Place(Corrected, entries, req, pattern, combo, room, n).value, req))
  {
    if n > 0 {
      PlaceConsistent(entries, req, pattern, combo, room, n - 1);
      var prev := Place(Corrected, entries, req, pattern, combo, room, n - 1).value;
      var before := SearchedAgainst(Corrected, entries, prev, req);
      assert before == entries + Booked(prev, req);
      var day, k := combo[n - 1], pattern[n - 1];
      var i := FirstFit(before, req, day, k, room).value;
      FirstFitSpec(before, req, day, k, room);
      var s := Session(day, i, k, room);
      var x := SessionEntry(s, req, 0);
      BookedSnoc(prev, s, req);
      assert Place(Corrected, entries, req, pattern, combo, room, n).value == prev + [s];
      assert entries + Booked(prev + [s], req) == before + [x];
      forall e | e in before
        ensures !Clash(e, x)
      {
        if e.day == day && (e.room == room || e.faculty == req.faculty || e.section == req.section) {
          ClearWindowAvoids(before, req, day, room, i, k, e);
        }
      }
      ConsistentSnoc(before, x);
    }
  }

  /** Two bookings that differ at most in their ids. */
  predicate SameBooking(a: Entry, b: Entry)
  {
    a.(id := 0) == b.(id := 0)
  }

  /** Whether a registry is conflict-free does not depend on the ids. */
  lemma ConsistentIgnoresIds(xs: seq<Entry>, ys: seq<Entry>)
    requires |xs| == |ys| && forall m :: 0 <= m < |xs| ==> SameBooking(xs[m], ys[m])
    requires Consistent(xs)
    ensures Consistent(ys)
  {
    forall e | e in ys
      ensures e.start < e.end
    {
      var m :| 0 <= m < |ys| && ys[m] == e;
      assert xs[m] in xs;
    }
  }

  /** Committing a placement, whatever ids it receives, keeps a
      conflict-free registry conflict-free. */
  lemma CommitPlacementConsistent(entries: seq<Entry>, req: Request, pattern: seq<int>, combo: seq<Day>,
                                  room: string, ids: seq<nat>)
    requires |pattern| == |combo|
    requires forall m :: 0 <= m < |pattern| ==> pattern[m] >= 1
    requires Consistent(entries)
    requires Place(Corrected, entries, req, pattern, combo, room, |pattern|).Some?
    requires |ids| == |pattern|
    ensures Consistent(entries + Committed(Place(Corrected, entries, req, pattern, combo, room, |pattern|).value, req, ids))
  {
    var ss := Place(Corrected, entries, req, pattern, combo, room, |pattern|).value;
    PlaceConsistent(entries, req, pattern, combo, room, |pattern|);
    ConsistentIgnoresIds(entries + Booked(ss, req), entries + Committed(ss, req, ids));
  }

  /** A result that is a full placement of `pattern`: its sessions, one per
      part, on a day combination from `combos`, all in one room from
      `rooms`, exactly as the placement produces them, with its span. */
  predicate Placement(v: Version, entries: seq<Entry>, req: Request, pattern: seq<int>, combos: seq<seq<Day>>,
                      rooms: seq<string>, x: SearchResult)
  {
    && x.request == req && x.pattern == pattern
    && 1 <= |x.sessions| == |pattern|
    && DaysOf(x.sessions) in combos
    && x.sessions[0].room in rooms
    && Place(v, entries, req, pattern, DaysOf(x.sessions), x.sessions[0].room, |pattern|) == Some(x.sessions)
    && x.totalSpanDays == SpanOf(x.sessions)
  }

  /** The result built for one day combination and room is a placement on them. */
  lemma AttemptPlacement(v: Version, entries: seq<Entry>, req: Request, pattern: seq<int>, combos: seq<seq<Day>>,
                         rooms: seq<string>, c: nat, r: nat, x: SearchResult)
    requires c < |combos| && r < |rooms| && 1 <= |pattern| == |combos[c]|
    requires x in Attempt(v, entries, req, pattern, combos[c], rooms[r])
    ensures Placement(v, entries, req, pattern, combos, rooms, x)
    ensures DaysOf(x.sessions) == combos[c] && x.sessions[0].room == rooms[r]
  {
    var combo, room := combos[c], rooms[r];
    PlaceShape(v, entries, req, pattern, combo, room, |pattern|);
    var ss := Place(v, entries, req, pattern, combo, room, |pattern|).value;
    assert PlacedAt(v, entries, req, pattern, combo, room, ss, 0);
    forall m | 0 <= m < |ss|
      ensures DaysOf(ss)[m] == combo[m]
    {
      assert PlacedAt(v, entries, req, pattern, combo, room, ss, m);
    }
    assert DaysOf(ss) == combo;
  }

  /** A placement on one of the remaining combinations and rooms is built. */
  lemma PlacementInAttempt(v: Version, entries: seq<Entry>, req: Request, pattern: seq<int>, combos: seq<seq<Day>>,
                           rooms: seq<string>, c: nat, r: nat, x: SearchResult)
    requires c < |combos| && r < |rooms| && 1 <= |pattern| == |combos[c]|
    requires Placement(v, entries, req, pattern, combos, rooms, x)
    requires DaysOf(x.sessions) == combos[c] && x.sessions[0].room == rooms[r]
    ensures x in Attempt(v, entries, req, pattern, combos[c], rooms[r])
  {
  }

  /** The results the nested loops still have to build from cursor (c, r):
      those of a combination after c, or of c with a room from r on. */
  predicate BuiltAhead(v: Version, entries: seq<Entry>, req: Request, pattern: seq<int>, combos: seq<seq<Day>>,
                       rooms: seq<string>, c: nat, r: nat, x: SearchResult)
    requires FitsArity(|pattern|, combos)
  {
    exists c', r' :: c <= c' < |combos| && 0 <= r' < |rooms| && (c' > c || r' >= r)
      && x in Attempt(v, entries, req, pattern, combos[c'], rooms[r'])
  }

  lemma BuiltAheadNextCombo(v: Version, entries: seq<Entry>, req: Request, pattern: seq<int>, combos: seq<seq<Day>>,
                            rooms: seq<string>, c: nat, x: SearchResult)
    requires FitsArity(|pattern|, combos)
    ensures BuiltAhead(v, entries, req, pattern, combos, rooms, c, |rooms|, x)
      <==> BuiltAhead(v, entries, req, pattern, combos, rooms, c + 1, 0, x)
  {
    if BuiltAhead(v, entries, req, pattern, combos, rooms, c, |rooms|, x) {
      var c', r' :| c <= c' < |combos| && 0 <= r' < |rooms| && (c' > c || r' >= |rooms|)
        && x in Attempt(v, entries, req, pattern, combos[c'], rooms[r']);
      assert c' >= c + 1;
    }
  }

  lemma BuiltAheadNextRoom(v: Version, entries: seq<Entry>, req: Request, pattern: seq<int>, combos: seq<seq<Day>>,
                           rooms: seq<string>, c: nat, r: nat, x: SearchResult)
    requires FitsArity(|pattern|, combos) && c < |combos| && r < |rooms|
    ensures BuiltAhead(v, entries, req, pattern, combos, rooms, c, r, x) <==>
      x in Attempt(v, entries, req, pattern, combos[c], rooms[r])
      || BuiltAhead(v, entries, req, pattern, combos, rooms, c, r + 1, x)
  {
    if BuiltAhead(v, entries, req, pattern, combos, rooms, c, r, x) {
      var c', r' :| c <= c' < |combos| && 0 <= r' < |rooms| && (c' > c || r' >= r)
        && x in Attempt(v, entries, req, pattern, combos[c'], rooms[r']);
      if c' != c || r' != r {
        assert BuiltAhead(v, entries, req, pattern, combos, rooms, c, r + 1, x);
      }
    }
    if x in Attempt(v, entries, req, pattern, combos[c], rooms[r]) {
      assert c <= c < |combos| && 0 <= r < |rooms|;
    }
  }

  /** The walk from cursor (c, r) with accumulator acc holds exactly acc
      and the results still ahead of the cursor. */
  predicate WalkAhead(v: Version, acc: seq<SearchResult>, entries: seq<Entry>, req: Request,
                      pattern: seq<int>, combos: seq<seq<Day>>, rooms: seq<string>,
                      c: nat, r: nat, x: SearchResult)
    requires FitsArity(|pattern|, combos) && c <= |combos| && r <= |rooms|
  {
    x in PatternWalk(v, acc, entries, req, pattern, combos, rooms, c, r) <==>
      x in acc || BuiltAhead(v, entries, req, pattern, combos, rooms, c, r, x)
  }

  /** One room of the walk: the result built for (c, r) joins the accumulator. */
  lemma PatternWalkStep(v: Version, acc: seq<SearchResult>, entries: seq<Entry>, req: Request,
                        pattern: seq<int>, combos: seq<seq<Day>>, rooms: seq<string>,
                        c: nat, r: nat, x: SearchResult)
    requires FitsArity(|pattern|, combos) && c < |combos| && r < |rooms|
    requires WalkAhead(v, acc + Attempt(v, entries, req, pattern, combos[c], rooms[r]),
                       entries, req, pattern, combos, rooms, c, r + 1, x)
    ensures WalkAhead(v, acc, entries, req, pattern, combos, rooms, c, r, x)
  {
    var here := Attempt(v, entries, req, pattern, combos[c], rooms[r]);
    assert PatternWalk(v, acc, entries, req, pattern, combos, rooms, c, r)
      == PatternWalk(v, acc + here, entries, req, pattern, combos, rooms, c, r + 1);
    BuiltAheadNextRoom(v, entries, req, pattern, combos, rooms, c, r, x);
    assert x in acc + here <==> x in acc || x in here;
  }

  /** Past the last combination the walk adds nothing. */
  lemma PatternWalkDone(v: Version, acc: seq<SearchResult>, entries: seq<Entry>, req: Request,
                        pattern: seq<int>, combos: seq<seq<Day>>, rooms: seq<string>,
                        r: nat, x: SearchResult)
    requires FitsArity(|pattern|, combos) && r <= |rooms|
    ensures WalkAhead(v, acc, entries, req, pattern, combos, rooms, |combos|, r, x)
  {
    assert !BuiltAhead(v, entries, req, pattern, combos, rooms, |combos|, r, x);
  }

  /** At the end of a row of rooms the walk moves on to the next combination. */
  lemma {:induction false} PatternWalkRowEnd(v: Version, acc: seq<SearchResult>, entries: seq<Entry>, req: Request,
                                             pattern: seq<int>, combos: seq<seq<Day>>, rooms: seq<string>,
                                             c: nat, x: SearchResult)
    requires FitsArity(|pattern|, combos) && c < |combos|
    ensures WalkAhead(v, acc, entries, req, pattern, combos, rooms, c, |rooms|, x)
    decreases |combos| - c, 0, 0
  {
    PatternWalkMembers(v, acc, entries, req, pattern, combos, rooms, c + 1, 0, x);
    assert PatternWalk(v, acc, entries, req, pattern, combos, rooms, c, |rooms|)
      == PatternWalk(v, acc, entries, req, pattern, combos, rooms, c + 1, 0);
    BuiltAheadNextCombo(v, entries, req, pattern, combos, rooms, c, x);
  }

  /** Inside a row of rooms the walk adds the result built for (c, r) and
      goes on with the next room. */
  lemma {:induction false} PatternWalkRoom(v: Version, acc: seq<SearchResult>, entries: seq<Entry>, req: Request,
                                           pattern: seq<int>, combos: seq<seq<Day>>, rooms: seq<string>,
                                           c: nat, r: nat, x: SearchResult)
    requires FitsArity(|pattern|, combos) && c < |combos| && r < |rooms|
    ensures WalkAhead(v, acc, entries, req, pattern, combos, rooms, c, r, x)
    decreases |combos| - c, |rooms| - r, 0
  {
    PatternWalkMembers(v, acc + Attempt(v, entries, req, pattern, combos[c], rooms[r]),
                       entries, req, pattern, combos, rooms, c, r + 1, x);
    PatternWalkStep(v, acc, entries, req, pattern, combos, rooms, c, r, x);
  }

  /** The walk over combinations and rooms adds exactly the results still
      ahead of its cursor. */
  lemma {:induction false} PatternWalkMembers(v: Version, acc: seq<SearchResult>, entries: seq<Entry>, req: Request,
                                              pattern: seq<int>, combos: seq<seq<Day>>, rooms: seq<string>,
                                              c: nat, r: nat, x: SearchResult)
    requires FitsArity(|pattern|, combos) && c <= |combos| && r <= |rooms|
    ensures WalkAhead(v, acc, entries, req, pattern, combos, rooms, c, r, x)
    decreases |combos| - c, |rooms| - r, 1
  {
    if c == |combos| {
      PatternWalkDone(v, acc, entries, req, pattern, combos, rooms, r, x);
    } else if r == |rooms| {
      PatternWalkRowEnd(v, acc, entries, req, pattern, combos, rooms, c, x);
    } else {
      PatternWalkRoom(v, acc, entries, req, pattern, combos, rooms, c, r, x);
    }
  }

  /** The results of one pattern are exactly its placements on the day
      combinations of its arity and the predefined rooms. */
  lemma PatternResultsMembers(v: Version, entries: seq<Entry>, req: Request, pattern: seq<int>, x: SearchResult)
    requires |pattern| >= 1
    ensures x in PatternResults(v, entries, req, pattern) <==>
      Placement(v, entries, req, pattern, DayCombinations(|pattern|), PredefinedRooms, x)
  {
    var combos, rooms := DayCombinations(|pattern|), PredefinedRooms;
    DayCombinationsLength(|pattern|);
    PatternWalkMembers(v, [], entries, req, pattern, combos, rooms, 0, 0, x);
    if BuiltAhead(v, entries, req, pattern, combos, rooms, 0, 0, x) {
      var c, r :| 0 <= c < |combos| && 0 <= r < |rooms| && x in Attempt(v, entries, req, pattern, combos[c], rooms[r]);
      AttemptPlacement(v, entries, req, pattern, combos, rooms, c, r, x);
    }
    if Placement(v, entries, req, pattern, combos, rooms, x) {
      var c :| 0 <= c < |combos| && combos[c] == DaysOf(x.sessions);
      var r :| 0 <= r < |rooms| && rooms[r] == x.sessions[0].room;
      PlacementInAttempt(v, entries, req, pattern, combos, rooms, c, r, x);
    }
  }

  /** Some pattern from index i on produces x. */
  predicate FromPattern(v: Version, entries: seq<Entry>, req: Request, patterns: seq<seq<int>>, i: nat, x: SearchResult)
  {
    exists j :: i <= j < |patterns| && x in PatternResults(v, entries, req, patterns[j])
  }

  /** One pattern of the walk: its results join the accumulator. */
  lemma SearchWalkStep(v: Version, acc: seq<SearchResult>, entries: seq<Entry>, req: Request, patterns: seq<seq<int>>,
                       i: nat, x: SearchResult)
    requires i < |patterns|
    requires var here := PatternResults(v, entries, req, patterns[i]);
      x in SearchWalk(v, acc + here, entries, req, patterns, i + 1) <==>
      x in acc + here || FromPattern(v, entries, req, patterns, i + 1, x)
    ensures x in SearchWalk(v, acc, entries, req, patterns, i) <==> x in acc || FromPattern(v, entries, req, patterns, i, x)
  {
    var here := PatternResults(v, entries, req, patterns[i]);
    assert SearchWalk(v, acc, entries, req, patterns, i) == SearchWalk(v, acc + here, entries, req, patterns, i + 1);
    assert x in acc + here <==> x in acc || x in here;
    if FromPattern(v, entries, req, patterns, i, x) {
      var j :| i <= j < |patterns| && x in PatternResults(v, entries, req, patterns[j]);
      if j != i {
        assert FromPattern(v, entries, req, patterns, i + 1, x);
      }
    }
    if x in here {
      assert FromPattern(v, entries, req, patterns, i, x);
    }
  }

  /** The patterns loop adds exactly the results of the patterns from i on. */
  lemma {:induction false} SearchWalkMembers(v: Version, acc: seq<SearchResult>, entries: seq<Entry>, req: Request,
                                             patterns: seq<seq<int>>, i: nat, x: SearchResult)
    requires i <= |patterns|
    ensures x in SearchWalk(v, acc, entries, req, patterns, i) <==> x in acc || FromPattern(v, entries, req, patterns, i, x)
    decreases |patterns| - i
  {
    if i == |patterns| {
      assert !FromPattern(v, entries, req, patterns, i, x);
    } else {
      SearchWalkMembers(v, acc + PatternResults(v, entries, req, patterns[i]), entries, req, patterns, i + 1, x);
      SearchWalkStep(v, acc, entries, req, patterns, i, x);
    }
  }

  /** A result the search may offer for a request: a full placement, on the
      predefined rooms and the day combinations of its arity, of one of the
      session patterns of the requested total. */
  predicate ValidResult(v: Version, entries: seq<Entry>, req: Request, x: SearchResult)
    requires req.slots.Some?
  {
    x.pattern in SessionPatterns(req.slots.value)
    && Placement(v, entries, req, x.pattern, DayCombinations(|x.pattern|), PredefinedRooms, x)
  }

  /** The search gathers exactly the valid results. */
  lemma AllResultsMembers(v: Version, entries: seq<Entry>, req: Request, x: SearchResult)
    requires req.slots.Some?
    ensures x in AllResults(v, entries, req) <==> ValidResult(v, entries, req, x)
  {
    var patterns := SessionPatterns(req.slots.value);
    SearchWalkMembers(v, [], entries, req, patterns, 0, x);
    if x in AllResults(v, entries, req) {
      var j :| 0 <= j < |patterns| && x in PatternResults(v, entries, req, patterns[j]);
      PatternShape(req.slots.value, patterns[j]);
      PatternResultsMembers(v, entries, req, patterns[j], x);
    }
    if ValidResult(v, entries, req, x) {
      var j :| 0 <= j < |patterns| && patterns[j] == x.pattern;
      PatternShape(req.slots.value, x.pattern);
      PatternResultsMembers(v, entries, req, x.pattern, x);
    }
  }

  /** findAvailableSlots reports missing fields exactly for an incomplete
      form; otherwise it offers at most ten results, ranked, each of them
      valid. */
  lemma SearchSound(v: Version, entries: seq<Entry>, req: Request)
    ensures Search(v, entries, req).MissingFields? <==> !Accepted(v, req)
    ensures Search(v, entries, req).Found? ==>
      var rs := Search(v, entries, req).results;
      |rs| <= MaxResults && Ranked(rs) && forall x :: x in rs ==> ValidResult(v, entries, req, x)
  {
    if Accepted(v, req) {
      var all := AllResults(v, entries, req);
      var sorted := SortResults(all);
      SortResultsRanked(all);
      var rs := Take(sorted, MaxResults);
      forall x | x in rs
        ensures ValidResult(v, entries, req, x)
      {
        assert x in sorted;
        assert x in multiset(sorted);
        AllResultsMembers(v, entries, req, x);
      }
      forall a, b | 0 <= a < b < |rs|
        ensures RanksNoLater(rs[a], rs[b])
      {
        assert rs[a] == sorted[a] && rs[b] == sorted[b];
      }
    }
  }

  /** Nothing better is dropped: a valid result that is not offered comes
      after ten offered results, each ranking no later than it. */
  lemma SearchKeepsBest(v: Version, entries: seq<Entry>, req: Request, x: SearchResult)
    requires Accepted(v, req) && ValidResult(v, entries, req, x)
    ensures var rs := Search(v, entries, req).results;
      x in rs || (|rs| == MaxResults && forall y :: y in rs ==> RanksNoLater(y, x))
  {
    var all := AllResults(v, entries, req);
    var sorted := SortResults(all);
    SortResultsRanked(all);
    AllResultsMembers(v, entries, req, x);
    assert x in multiset(sorted);
    var k :| 0 <= k < |sorted| && sorted[k] == x;
    var rs := Take(sorted, MaxResults);
    if |sorted| <= MaxResults {
      assert rs == sorted;
    } else if x !in rs {
      assert k >= MaxResults;
      forall y | y in rs
        ensures RanksNoLater(y, x)
      {
        var i :| 0 <= i < |rs| && rs[i] == y;
        assert sorted[i] == y;
      }
    }
  }

  /** The latest and the earliest day of sessions in day order are those of
      the last and the first session. */
  lemma SpanOfOrdered(ss: seq<Session>)
    requires ss != [] && NonDecreasing(DaysOf(ss))
    ensures SpanOf(ss) == ss[|ss| - 1].day - ss[0].day + 1
  {
    forall m | 0 <= m < |ss|
      ensures ss[0].day <= ss[m].day <= ss[|ss| - 1].day
    {
      assert DaysOf(ss)[0] == ss[0].day && DaysOf(ss)[m] == ss[m].day;
      assert DaysOf(ss)[|ss| - 1] == ss[|ss| - 1].day;
    }
    assert ss[0] in ss && ss[|ss| - 1] in ss;
  }

  /** A valid result for a complete form: one to three sessions, one per
      part of its pattern, the parts adding up to the requested total; every
      session lasts one to six hours, lies inside 07:00-21:00 and uses the
      first session's predefined room; the days never go backwards, and the
      span runs from the first session's day to the last one's. */
  lemma ValidResultShape(v: Version, entries: seq<Entry>, req: Request, x: SearchResult)
    requires Complete(req) && ValidResult(v, entries, req, x)
    ensures x.request == req
    ensures 1 <= |x.sessions| == |x.pattern| <= 3 && Sum(x.pattern) == req.slots.value
    ensures forall m :: 0 <= m < |x.sessions| ==>
      && x.sessions[m].slots == x.pattern[m]
      && 1 <= x.sessions[m].slots <= MaxSessionSlots
      && 0 <= x.sessions[m].start && x.sessions[m].start + x.sessions[m].slots < SlotCount
      && x.sessions[m].room == x.sessions[0].room
    ensures x.sessions[0].room in PredefinedRooms
    ensures NonDecreasing(DaysOf(x.sessions))
    ensures x.totalSpanDays == x.sessions[|x.sessions| - 1].day - x.sessions[0].day + 1
  {
    var t, p := req.slots.value, x.pattern;
    var combo, room := DaysOf(x.sessions), x.sessions[0].room;
    PatternShape(t, p);
    PatternPartsPositive(t, p);
    DayCombinationsMembers(|p|, combo);
    PlaceShape(v, entries, req, p, combo, room, |p|);
    forall m | 0 <= m < |x.sessions|
      ensures x.sessions[m].slots == p[m] && x.sessions[m].room == room
      ensures 0 <= x.sessions[m].start && x.sessions[m].start + x.sessions[m].slots < SlotCount
    {
      assert PlacedAt(v, entries, req, p, combo, room, x.sessions, m);
    }
    SpanOfOrdered(x.sessions);
  }

  /** With the corrected search, committing a result offered for a
      conflict-free registry into that same registry, whatever ids its
      sessions receive, keeps it conflict-free. */
  lemma CommitFoundResult(entries: seq<Entry>, req: Request, rs: seq<SearchResult>, x: SearchResult, ids: seq<nat>)
    requires Consistent(entries)
    requires Search(Corrected, entries, req) == Found(rs) && x in rs
    requires |ids| == |x.sessions|
    ensures Consistent(entries + Committed(x.sessions, x.request, ids))
  {
    SearchSound(Corrected, entries, req);
    ValidResultShape(Corrected, entries, req, x);
    var p, combo, room := x.pattern, DaysOf(x.sessions), x.sessions[0].room;
    CommitPlacementConsistent(entries, req, p, combo, room, ids);
  }

  /** The first offered result ranks no later than any valid result. */
  lemma FirstOfferRanksFirst(v: Version, entries: seq<Entry>, req: Request, x: SearchResult)
    requires Accepted(v, req) && ValidResult(v, entries, req, x)
    ensures Search(v, entries, req).results != []
    ensures RanksNoLater(Search(v, entries, req).results[0], x)
  {
    var rs := Search(v, entries, req).results;
    SearchKeepsBest(v, entries, req, x);
    SearchSound(v, entries, req);
    if x in rs {
      var k :| 0 <= k < |rs| && rs[k] == x;
      if k > 0 {
        assert RanksNoLater(rs[0], rs[k]);
      }
    } else {
      assert rs[0] in rs;
    }
  }

  /** When some single session fits, the first offered result is a single
      session on one day. */
  lemma SingleSessionFirst(v: Version, entries: seq<Entry>, req: Request, x: SearchResult)
    requires Accepted(v, req) && ValidResult(v, entries, req, x) && |x.sessions| == 1
    ensures Search(v, entries, req).results != []
    ensures |Search(v, entries, req).results[0].sessions| == 1 && Search(v, entries, req).results[0].totalSpanDays == 1
  {
    var rs := Search(v, entries, req).results;
    FirstOfferRanksFirst(v, entries, req, x);
    SearchSound(v, entries, req);
    assert rs[0] in rs;
    var y := rs[0];
    assert |y.sessions| == 1 && y.totalSpanDays == SpanOf(y.sessions);
  }

  /** On an empty registry the first session of every valid result starts
      at 07:00; as written, every session does, whatever its day. */
  lemma EmptyRegistryStarts(v: Version, req: Request, x: SearchResult)
    requires req.slots.Some? && ValidResult(v, [], req, x)
    ensures x.sessions[0].start == 0
    ensures v == AsWritten ==> forall m :: 0 <= m < |x.sessions| ==> x.sessions[m].start == 0
  {
    var p, combo, room := x.pattern, DaysOf(x.sessions), x.sessions[0].room;
    PatternShape(req.slots.value, p);
    PlaceShape(v, [], req, p, combo, room, |p|);
    forall m | 0 <= m < |x.sessions| && (m == 0 || v == AsWritten)
      ensures x.sessions[m].start == 0
    {
      assert PlacedAt(v, [], req, p, combo, room, x.sessions, m);
      assert Booked(x.sessions[..0], req) == [];
      assert SearchedAgainst(v, [], x.sessions[..m], req) == [];
      FreeGridFirstFit(req, combo[m], p[m], room);
    }
  }

  /** The one-session placement of a whole request at 07:00 on Monday in the
      first predefined room, on an empty registry. */
  function MondayMorning(req: Request): SearchResult
    requires req.slots.Some?
  {
    SearchResult([Session(0, 0, req.slots.value, PredefinedRooms[0])], 1, [req.slots.value], req)
  }

  /** On an empty registry, a request of at most six hours (of any sign)
      may be placed as one session at 07:00 on Monday in E34. */
  lemma MondayMorningValid(v: Version, req: Request)
    requires req.slots.Some? && req.slots.value <= MaxSessionSlots
    ensures ValidResult(v, [], req, MondayMorning(req))
  {
    var t := req.slots.value;
    var x := MondayMorning(req);
    SingleSessionPattern(t);
    DayCombinationsMembers(1, [0]);
    assert DaysOf(x.sessions) == [0];
    assert SearchedAgainst(v, [], [], req) == [];
    FreeGridFirstFit(req, 0, t, PredefinedRooms[0]);
    assert Place(v, [], req, [t], [0], PredefinedRooms[0], 0) == Some([]);
    assert [] + [x.sessions[0]] == x.sessions;
    assert Place(v, [], req, [t], [0], PredefinedRooms[0], 1) == Some(x.sessions);
    assert SpanOf(x.sessions) == 1;
  }

  /** On an empty registry, a complete request of at most six hours may be
      placed Monday at 07:00 in E34, and the first result offered is a
      single session on one day, at 07:00 in a predefined room. */
  lemma EmptyRegistrySingleSession(v: Version, req: Request)
    requires Complete(req) && req.slots.value <= MaxSessionSlots
    ensures ValidResult(v, [], req, MondayMorning(req))
    ensures var rs := Search(v, [], req).results;
      rs != [] && |rs[0].sessions| == 1 && rs[0].totalSpanDays == 1
      && rs[0].sessions[0].start == 0 && rs[0].sessions[0].room in PredefinedRooms
  {
    MondayMorningValid(v, req);
    SingleSessionFirst(v, [], req, MondayMorning(req));
    var rs := Search(v, [], req).results;
    SearchSound(v, [], req);
    assert rs[0] in rs;
    EmptyRegistryStarts(v, req, rs[0]);
    ValidResultShape(v, [], req, rs[0]);
  }
}
