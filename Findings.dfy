/** Two places where the scheduler as written does not do what it evidently
    means to, shown on the `AsWritten` version of the finder next to the
    `Corrected` one. */
module Findings {
  import opened Options
  import opened TimeGrid
  import opened Conflicts
  import opened Patterns
  import opened DayCombos
  import opened SlotSearch
  import opened Availability
  import opened SearchProperties

  // ---------------------------------------------------------------------
  // 1. Sessions of one result are searched against the registry only.

  /** As written, two sessions of the same length on the same day always get
      the same window: whatever the registry holds, they double-book their
      room, their faculty member and their section. */
  lemma {:induction false} SameDaySessionsCollide(entries: seq<Entry>, req: Request, pattern: seq<int>,
                                                  combo: seq<Day>, room: string)
    requires 2 <= |pattern| == |combo| && pattern[0] == pattern[1] >= 1 && combo[0] == combo[1]
    requires Place(AsWritten, entries, req, pattern, combo, room, 2).Some?
    ensures var ss := Place(AsWritten, entries, req, pattern, combo, room, 2).value;
      ss[0] == ss[1] && Clash(SessionEntry(ss[0], req, 1), SessionEntry(ss[1], req, 2))
  {
    var ss := Place(AsWritten, entries, req, pattern, combo, room, 2).value;
    var first := Place(AsWritten, entries, req, pattern, combo, room, 1).value;
    assert Place(AsWritten, entries, req, pattern, combo, room, 0) == Some([]);
    assert ss == first + [ss[1]];
  }

  /** The request of the example: seven hours, as fourteen 30-minute slots,
      more than one session can hold. */
  function SevenHours(): Request
  {
    Request("BSCS-1A", "Programming", "Reyes", Some(14))
  }

  /** The result of the example: [1 + 6 hours], both on Monday at 07:00
      in E34. */
  function MondayPair(): SearchResult
  {
    SearchResult([Session(0, 0, 2, "E34"), Session(0, 0, 12, "E34")], 1, [2, 12], SevenHours())
  }

  /** As written, the pair of the example is placed on an empty registry:
      each session finds 07:00 free, the second one as well, because it does
      not see the first. */
  lemma MondayPairPlaced()
    ensures Place(AsWritten, [], SevenHours(), [2, 12], [0, 0], "E34", 2) == Some(MondayPair().sessions)
  {
    var req := SevenHours();
    var s0, s1 := Session(0, 0, 2, "E34"), Session(0, 0, 12, "E34");
    FreeGridFirstFit(req, 0, 2, "E34");
    FreeGridFirstFit(req, 0, 12, "E34");
    assert Place(AsWritten, [], req, [2, 12], [0, 0], "E34", 0) == Some([]);
    assert [] + [s0] == [s0];
    assert Place(AsWritten, [], req, [2, 12], [0, 0], "E34", 1) == Some([s0]);
    assert [s0] + [s1] == [s0, s1];
  }

  /** Concretely: seven hours as [1 + 6 hours] on Monday and Monday in E34,
      on an empty registry, is placed as two sessions that both start at
      07:00, and committing them double-books the room. */
  lemma SameDayExample()
    ensures [2, 12] in SessionPatterns(14) && [0, 0] in DayCombinations(2)
    ensures Place(AsWritten, [], SevenHours(), [2, 12], [0, 0], "E34", 2)
      == Some([Session(0, 0, 2, "E34"), Session(0, 0, 12, "E34")])
    ensures !Consistent(Committed([Session(0, 0, 2, "E34"), Session(0, 0, 12, "E34")], SevenHours(), [1, 2]))
  {
    var req := SevenHours();
    SessionPatternsMembers(14, [2, 12]);
    DayCombinationsMembers(2, [0, 0]);
    var s0, s1 := Session(0, 0, 2, "E34"), Session(0, 0, 12, "E34");
    MondayPairPlaced();
    var both := Committed([s0, s1], req, [1, 2]);
    assert Clash(both[0], both[1]);
  }

  /** The corrected placement of the same request sees the first session:
      07:00 and 07:30 are taken by it, and the second session goes to
      08:00-14:00. */
  lemma SameDayCorrected()
    ensures Place(Corrected, [], SevenHours(), [2, 12], [0, 0], "E34", 2)
      == Some([Session(0, 0, 2, "E34"), Session(0, 2, 12, "E34")])
  {
    var req := SevenHours();
    var s0, s1 := Session(0, 0, 2, "E34"), Session(0, 2, 12, "E34");
    FreeGridFirstFit(req, 0, 2, "E34");
    assert SearchedAgainst(Corrected, [], [], req) == [];
    assert Place(Corrected, [], req, [2, 12], [0, 0], "E34", 0) == Some([]);
    assert [] + [s0] == [s0];
    assert Place(Corrected, [], req, [2, 12], [0, 0], "E34", 1) == Some([s0]);
    var booked := SearchedAgainst(Corrected, [], [s0], req);
    var e := SessionEntry(s0, req, 0);
    assert booked == [e] && e.start == 420 && e.end == 480;
    assert SlotTaken(booked, req, 0, "E34", 0) by { assert Blocks(e, req, 0, "E34", 0); }
    assert SlotTaken(booked, req, 0, "E34", 1) by { assert Blocks(e, req, 0, "E34", 1); }
    assert WindowClear(booked, req, 0, "E34", 2, 12) by {
      forall j | 2 <= j < 14
        ensures !SlotTaken(booked, req, 0, "E34", j)
      {
        assert !Blocks(e, req, 0, "E34", j);
      }
    }
    assert FirstFitFrom(booked, req, 0, 12, "E34", 2) == Some(2);
    assert FirstFitFrom(booked, req, 0, 12, "E34", 1) == Some(2);
    assert FirstFit(booked, req, 0, 12, "E34") == Some(2);
    assert [s0] + [s1] == [s0, s1];
  }

  /** As written, that pair is a full placement of [1 + 6 hours] on a day
      combination of two days and a predefined room. */
  lemma MondayPairPlacement()
    ensures Placement(AsWritten, [], SevenHours(), [2, 12], DayCombinations(2), PredefinedRooms, MondayPair())
  {
    var x := MondayPair();
    DayCombinationsMembers(2, [0, 0]);
    MondayPairPlaced();
    var days := DaysOf(x.sessions);
    assert |days| == 2 && days[0] == 0 && days[1] == 0;
    assert days == [0, 0];
    assert x.sessions[0].room == PredefinedRooms[0];
    assert SpanOf(x.sessions) == 1;
  }

  /** As written, that pair is one of the results the search gathers. */
  lemma MondayPairValid()
    ensures ValidResult(AsWritten, [], SevenHours(), MondayPair())
  {
    SessionPatternsMembers(14, [2, 12]);
    MondayPairPlacement();
  }

  /** A result that ranks no later than two sessions on one day, for seven
      hours on an empty registry as written, is two sessions on one day,
      both at 07:00 in the same room, each at least one slot long. */
  lemma SameDayShape(y: SearchResult)
    requires ValidResult(AsWritten, [], SevenHours(), y) && RanksNoLater(y, MondayPair())
    ensures |y.sessions| == 2 && y.request == SevenHours()
    ensures y.sessions[0].day == y.sessions[1].day
    ensures y.sessions[0].start == 0 && y.sessions[1].start == 0
    ensures y.sessions[0].room == y.sessions[1].room
    ensures y.sessions[0].slots >= 1 && y.sessions[1].slots >= 1
  {
    var req := SevenHours();
    SessionPatternsMembers(14, y.pattern);
    assert |y.sessions| == 2;
    ValidResultShape(AsWritten, [], req, y);
    EmptyRegistryStarts(AsWritten, req, y);
    assert DaysOf(y.sessions)[0] == y.sessions[0].day && DaysOf(y.sessions)[1] == y.sessions[1].day;
  }

  /** The defect reaches the user: as written, the first result offered for
      seven hours on an empty registry is two sessions on the same day, both
      at 07:00 in the same room, so committing it double-books whatever ids
      the entries receive. */
  lemma SameDayOffered(ids: seq<nat>)
    requires |ids| == 2
    ensures Search(AsWritten, [], SevenHours()).Found?
    ensures var rs := Search(AsWritten, [], SevenHours()).results;
      rs != [] && |rs[0].sessions| == 2
      && rs[0].sessions[0].day == rs[0].sessions[1].day
      && rs[0].sessions[0].start == 0 && rs[0].sessions[1].start == 0
      && rs[0].sessions[0].room == rs[0].sessions[1].room
      && !Consistent(Committed(rs[0].sessions, SevenHours(), ids))
  {
    var req := SevenHours();
    MondayPairValid();
    FirstOfferRanksFirst(AsWritten, [], req, MondayPair());
    SearchSound(AsWritten, [], req);
    var rs := Search(AsWritten, [], req).results;
    var y := rs[0];
    assert y in rs;
    SameDayShape(y);
    var c := Committed(y.sessions, req, ids);
    assert Clash(c[0], c[1]);
  }

  // ---------------------------------------------------------------------
  // 2. A negative number of hours passes the form check.

  /** The request of the example: minus one hour. */
  function MinusOneHour(): Request
  {
    Request("BSCS-1A", "Programming", "Reyes", Some(-2))
  }

  /** As written, every result gathered for minus one hour on an empty
      registry is one session of -2 slots found at 07:00: its end index is
      two before its start, off the grid. */
  lemma NegativeHoursShape(y: SearchResult)
    requires ValidResult(AsWritten, [], MinusOneHour(), y)
    ensures |y.sessions| == 1 && y.sessions[0].start == 0 && y.sessions[0].start + y.sessions[0].slots == -2
  {
    var req := MinusOneHour();
    SessionPatternsMembers(-2, y.pattern);
    assert y.pattern == [-2];
    EmptyRegistryStarts(AsWritten, req, y);
    PlaceShape(AsWritten, [], req, y.pattern, DaysOf(y.sessions), y.sessions[0].room, 1);
    assert PlacedAt(AsWritten, [], req, y.pattern, DaysOf(y.sessions), y.sessions[0].room, y.sessions, 0);
  }

  /** Asking for minus one hour, as written, is accepted; every offered
      result is one session found at 07:00 whose end index is two before
      its start, off the grid, where the end label the source reads does
      not exist. The corrected check refuses the form. */
  lemma NegativeHoursAccepted()
    ensures Accepted(AsWritten, MinusOneHour()) && !Accepted(Corrected, MinusOneHour())
    ensures Search(Corrected, [], MinusOneHour()) == MissingFields
    ensures Search(AsWritten, [], MinusOneHour()).Found?
    ensures var rs := Search(AsWritten, [], MinusOneHour()).results;
      rs != [] && forall x :: x in rs ==>
        |x.sessions| == 1 && x.sessions[0].start == 0 && x.sessions[0].start + x.sessions[0].slots == -2
  {
    var req := MinusOneHour();
    MondayMorningValid(AsWritten, req);
    FirstOfferRanksFirst(AsWritten, [], req, MondayMorning(req));
    SearchSound(AsWritten, [], req);
    var rs := Search(AsWritten, [], req).results;
    forall y | y in rs
      ensures |y.sessions| == 1 && y.sessions[0].start == 0 && y.sessions[0].start + y.sessions[0].slots == -2
    {
      NegativeHoursShape(y);
    }
  }
}
