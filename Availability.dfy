/** The availability search: for every session pattern of the requested
    total, every combination of days and every predefined room, place each
    session first-fit; keep the full placements, rank them by session count
    and then by the number of days they span, and return the best ten. */
module Availability {
  import opened Options
  import opened TimeGrid
  import opened Conflicts
  import opened Patterns
  import opened DayCombos
  import opened SlotSearch

  /** The rooms the search proposes; custom rooms are never tried. */
  const PredefinedRooms: seq<string> := ["E34", "COE23", "COE52", "COE43", "E20"]

  /** Number of results shown. */
  const MaxResults: nat := 10

  /** A placed session: its day, the grid index at which it starts, its
      length in slots (it ends at grid point start + slots) and its room. */
  datatype Session = Session(day: Day, start: int, slots: int, room: string)

  /** A full placement of one pattern: its sessions in pattern order, the
      days it spans, the pattern (in slots) and the request it answers. */
  datatype SearchResult = SearchResult(sessions: seq<Session>, totalSpanDays: int, pattern: seq<int>, request: Request)

  /** The outcome of a search: the form was incomplete, or the ranked results. */
  datatype SearchOutcome = MissingFields | Found(results: seq<SearchResult>)

  /** The entry a session becomes when committed for a request. */
  function SessionEntry(s: Session, req: Request, id: nat): Entry
  {
    Entry(id, req.section, req.subject, s.room, req.faculty, s.day, SlotStart(s.start), SlotStart(s.start + s.slots))
  }

  /** The entries the sessions of a result become, with the given ids. */
  function Committed(ss: seq<Session>, req: Request, ids: seq<nat>): seq<Entry>
    requires |ids| == |ss|
  {
    seq(|ss|, m requires 0 <= m < |ss| => SessionEntry(ss[m], req, ids[m]))
  }

  /** The sessions already placed for a result, as bookings (their ids play
      no part in the search). */
  function Booked(ss: seq<Session>, req: Request): seq<Entry>
  {
    Committed(ss, req, seq(|ss|, _ => 0))
  }

  /** The two versions of the finder. As written, every session of a result
      is searched against the registry alone and the form check is
      `!totalHours`; corrected, each session also sees the sessions placed
      before it for the same result, and the hours must be positive. */
  datatype Version = AsWritten | Corrected

  /** What the window of a session is searched against, once the sessions
      ss of the same result are placed. */
  function SearchedAgainst(v: Version, entries: seq<Entry>, ss: seq<Session>, req: Request): seq<Entry>
  {
    if v.Corrected? then entries + Booked(ss, req) else entries
  }

  /** Place the first n sessions of the pattern, session m on day combo[m]
      in `room`, each searched first-fit against what the version searches
      against; None as soon as one finds no window. */
  function Place(v: Version, entries: seq<Entry>, req: Request, pattern: seq<int>, combo: seq<Day>, room: string, n: nat)
    : (r: Option<seq<Session>>)
    requires n <= |pattern| == |combo|
    ensures r.Some? ==> |r.value| == n
  {
    if n == 0 then Some([])
    else
      match Place(v, entries, req, pattern, combo, room, n - 1)
      case None => None
      case Some(ss) =>
        match FirstFit(SearchedAgainst(v, entries, ss, req), req, combo[n - 1], pattern[n - 1], room)
        case None => None
        case Some(i) => Some(ss + [Session(combo[n - 1], i, pattern[n - 1], room)])
  }

  /** Latest day of a result: `Math.max` over the sessions' day indices. */
  function MaxDay(ss: seq<Session>): (d: Day)
    requires ss != []
    ensures forall s :: s in ss ==> s.day <= d
    ensures exists s :: s in ss && s.day == d
  {
    if |ss| == 1 then ss[0].day
    else
      var d := MaxDay(ss[1..]);
      assert ss[1] in ss[1..];
      if ss[0].day >= d then ss[0].day else d
  }

  /** Earliest day of a result: `Math.min` over the sessions' day indices. */
  function MinDay(ss: seq<Session>): (d: Day)
    requires ss != []
    ensures forall s :: s in ss ==> d <= s.day
    ensures exists s :: s in ss && s.day == d
  {
    if |ss| == 1 then ss[0].day
    else
      var d := MinDay(ss[1..]);
      assert ss[1] in ss[1..];
      if ss[0].day <= d then ss[0].day else d
  }

  /** totalSpanDays: the days from the earliest session to the latest, inclusive. */
  function SpanOf(ss: seq<Session>): int
    requires ss != []
  {
    MaxDay(ss) - MinDay(ss) + 1
  }

  /** The result for one pattern, day combination and room, when every
      session was placed. */
  function Attempt(v: Version, entries: seq<Entry>, req: Request, pattern: seq<int>, combo: seq<Day>, room: string)
    : seq<SearchResult>
    requires 1 <= |pattern| == |combo|
  {
    match Place(v, entries, req, pattern, combo, room, |pattern|)
    case None => []
    case Some(ss) => [SearchResult(ss, SpanOf(ss), pattern, req)]
  }

  /** Every day combination has one day for each of n sessions, n >= 1. */
  predicate FitsArity(n: int, combos: seq<seq<Day>>)
  {
    forall i :: 0 <= i < |combos| ==> 1 <= |combos[i]| == n
  }

  /** The two nested loops of findSlotsForPattern, from day combination c and
      room r on, appending to acc. */
  function PatternWalk(v: Version, acc: seq<SearchResult>, entries: seq<Entry>, req: Request, pattern: seq<int>,
                       combos: seq<seq<Day>>, rooms: seq<string>, c: nat, r: nat): seq<SearchResult>
    requires FitsArity(|pattern|, combos) && c <= |combos| && r <= |rooms|
    decreases |combos| - c, |rooms| - r
  {
    if c == |combos| then acc
    else if r == |rooms| then PatternWalk(v, acc, entries, req, pattern, combos, rooms, c + 1, 0)
    else PatternWalk(v, acc + Attempt(v, entries, req, pattern, combos[c], rooms[r]),
                     entries, req, pattern, combos, rooms, c, r + 1)
  }

  /** findSlotsForPattern as a function. */
  function PatternResults(v: Version, entries: seq<Entry>, req: Request, pattern: seq<int>): seq<SearchResult>
  {
    DayCombinationsLength(|pattern|);
    PatternWalk(v, [], entries, req, pattern, DayCombinations(|pattern|), PredefinedRooms, 0, 0)
  }

  /** Every day combination has one day per session. */
  lemma DayCombinationsLength(n: int)
    ensures FitsArity(n, DayCombinations(n))
  {
    var combos := DayCombinations(n);
    forall i | 0 <= i < |combos|
      ensures 1 <= |combos[i]| == n
    {
      DayCombinationsMembers(n, combos[i]);
    }
  }

  /** The `pattern.forEach` of findSlotsForPattern: search a window for each
      session in turn; a session that finds none marks the placement invalid
      and the others are still searched. */
  method PlaceSessions(v: Version, entries: seq<Entry>, req: Request, pattern: seq<int>, daysCombo: seq<Day>, room: string)
    returns (sessions: seq<Session>, isValidPattern: bool)
    requires |pattern| == |daysCombo|
    ensures isValidPattern ==> Place(v, entries, req, pattern, daysCombo, room, |pattern|) == Some(sessions)
    ensures !isValidPattern ==> Place(v, entries, req, pattern, daysCombo, room, |pattern|) == None
  {
    sessions := [];
    isValidPattern := true;
    for index := 0 to |pattern|
      invariant isValidPattern ==> Place(v, entries, req, pattern, daysCombo, room, index) == Some(sessions)
      invariant !isValidPattern ==> Place(v, entries, req, pattern, daysCombo, room, index) == None
    {
      var day := daysCombo[index];
      var availableSlot := FindAvailableTimeSlot(SearchedAgainst(v, entries, sessions, req), req, day, pattern[index], room);
      if availableSlot.Some? {
        sessions := sessions + [Session(day, availableSlot.value, pattern[index], room)];
      } else {
        isValidPattern := false;
      }
    }
  }

  /** findSlotsForPattern: for every day combination and every predefined
      room, place the sessions one by one and keep the full placements. */
  method FindSlotsForPattern(v: Version, entries: seq<Entry>, req: Request, pattern: seq<int>)
    returns (results: seq<SearchResult>)
    ensures results == PatternResults(v, entries, req, pattern)
  {
    results := [];
    var daysCombinations := GenerateDaysCombinations(|pattern|);
    DayCombinationsLength(|pattern|);
    var rooms := PredefinedRooms;
    ghost var none := results;
    for c := 0 to |daysCombinations|
      invariant PatternWalk(v, results, entries, req, pattern, daysCombinations, rooms, c, 0)
        == PatternWalk(v, none, entries, req, pattern, daysCombinations, rooms, 0, 0)
    {
      var daysCombo := daysCombinations[c];
      for r := 0 to |rooms|
        invariant PatternWalk(v, results, entries, req, pattern, daysCombinations, rooms, c, r)
          == PatternWalk(v, none, entries, req, pattern, daysCombinations, rooms, 0, 0)
      {
        var room := rooms[r];
        var sessions, isValidPattern := PlaceSessions(v, entries, req, pattern, daysCombo, room);
        ghost var before := results;
        if isValidPattern && |sessions| == |pattern| {
          var totalSpanDays := SpanOf(sessions);
          results := results + [SearchResult(sessions, totalSpanDays, pattern, req)];
        }
        assert results == before + Attempt(v, entries, req, pattern, daysCombo, room);
      }
    }
  }

  /** The ranking comparator: fewer sessions first, then fewer days spanned. */
  predicate RanksNoLater(a: SearchResult, b: SearchResult)
  {
    |a.sessions| < |b.sessions| || (|a.sessions| == |b.sessions| && a.totalSpanDays <= b.totalSpanDays)
  }

  predicate Ranked(rs: seq<SearchResult>)
  {
    forall a, b :: 0 <= a < b < |rs| ==> RanksNoLater(rs[a], rs[b])
  }

  /** Insert x after every element that ranks no later than it. */
  function Insert(rs: seq<SearchResult>, x: SearchResult): seq<SearchResult>
  {
    if rs == [] then [x]
    else if RanksNoLater(rs[|rs| - 1], x) then rs + [x]
    else Insert(rs[..|rs| - 1], x) + [rs[|rs| - 1]]
  }

  /** `results.sort(...)` with the ranking comparator: a stable sort,
      written as an insertion sort. */
  function SortResults(rs: seq<SearchResult>): seq<SearchResult>
  {
    if rs == [] then [] else Insert(SortResults(rs[..|rs| - 1]), rs[|rs| - 1])
  }

  /** `results.slice(0, n)`. */
  function Take(rs: seq<SearchResult>, n: nat): (r: seq<SearchResult>)
    ensures r <= rs && |r| == if |rs| <= n then |rs| else n
  {
    if |rs| <= n then rs else rs[..n]
  }

  /** The `patterns.forEach` of findAvailableSlots, from pattern i on. */
  function SearchWalk(v: Version, acc: seq<SearchResult>, entries: seq<Entry>, req: Request, patterns: seq<seq<int>>, i: nat)
    : seq<SearchResult>
    requires i <= |patterns|
    decreases |patterns| - i
  {
    if i == |patterns| then acc
    else SearchWalk(v, acc + PatternResults(v, entries, req, patterns[i]), entries, req, patterns, i + 1)
  }

  /** Every field of the finder is filled and the hours are positive. */
  predicate Complete(req: Request)
  {
    req.section != "" && req.subject != "" && req.faculty != "" && req.slots.Some? && req.slots.value >= 1
  }

  /** The finder's form check. As written, `!totalHours` refuses only an
      empty, non-numeric or zero number of hours; corrected, the form must
      be complete. */
  predicate Accepted(v: Version, req: Request)
  {
    if v.Corrected? then Complete(req)
    else req.section != "" && req.subject != "" && req.faculty != "" && req.slots.Some? && req.slots.value != 0
  }

  /** Every result of every pattern, in enumeration order. */
  function AllResults(v: Version, entries: seq<Entry>, req: Request): seq<SearchResult>
    requires req.slots.Some?
  {
    SearchWalk(v, [], entries, req, SessionPatterns(req.slots.value), 0)
  }

  /** findAvailableSlots as a function. */
  function Search(v: Version, entries: seq<Entry>, req: Request): SearchOutcome
  {
    if !Accepted(v, req) then MissingFields
    else Found(Take(SortResults(AllResults(v, entries, req)), MaxResults))
  }

  /** findAvailableSlots: check the form, gather the results of every
      pattern, rank them and keep the first ten. */
  method FindAvailableSlots(v: Version, entries: seq<Entry>, req: Request) returns (outcome: SearchOutcome)
    ensures outcome == Search(v, entries, req)
  {
    if req.section == "" || req.subject == "" || req.faculty == "" || req.slots.None?
       || req.slots.value == 0 || (v.Corrected? && req.slots.value < 1) {
      return MissingFields;
    }
    var totalSlots := req.slots.value;
    var results: seq<SearchResult> := [];
    ghost var none := results;
    var patterns := GenerateSessionPatterns(totalSlots);
    for i := 0 to |patterns|
      invariant SearchWalk(v, results, entries, req, patterns, i) == SearchWalk(v, none, entries, req, patterns, 0)
    {
      var patternResults := FindSlotsForPattern(v, entries, req, patterns[i]);
      results := results + patternResults;
    }
    var sorted := SortResults(results);
    outcome := Found(Take(sorted, MaxResults));
  }

  /** Results of the same rank: same session count and same span. */
  function SameRank(rs: seq<SearchResult>, x: SearchResult): seq<SearchResult>
  {
    if rs == [] then []
    else
      var last := rs[|rs| - 1];
      SameRank(rs[..|rs| - 1], x) + (if RanksNoLater(last, x) && RanksNoLater(x, last) then [last] else [])
  }

  lemma {:induction false} InsertPermutes(rs: seq<SearchResult>, x: SearchResult)
    ensures multiset(Insert(rs, x)) == multiset(rs) + multiset{x}
    decreases |rs|
  {
    if rs != [] {
      var init, last := rs[..|rs| - 1], rs[|rs| - 1];
      assert rs == init + [last];
      if !RanksNoLater(last, x) {
        InsertPermutes(init, x);
      }
    }
  }

  lemma {:induction false} InsertRanked(rs: seq<SearchResult>, x: SearchResult)
    requires Ranked(rs)
    ensures Ranked(Insert(rs, x))
    decreases |rs|
  {
    if rs != [] {
      var init, last := rs[..|rs| - 1], rs[|rs| - 1];
      if !RanksNoLater(last, x) {
        InsertRanked(init, x);
        InsertPermutes(init, x);
        var ins := Insert(init, x);
        forall y | y in ins
          ensures RanksNoLater(y, last)
        {
          assert y in multiset(ins);
          if y != x {
            assert y in multiset(init);
          }
        }
        var r := ins + [last];
        forall a, b | 0 <= a < b < |r|
          ensures RanksNoLater(r[a], r[b])
        {
          if b == |r| - 1 {
            assert r[a] in ins;
          } else {
            assert r[a] == ins[a] && r[b] == ins[b];
          }
        }
      }
    }
  }

  /** The sort orders the results by rank and keeps each of them once. */
  lemma {:induction false} SortResultsRanked(rs: seq<SearchResult>)
    ensures Ranked(SortResults(rs))
    ensures multiset(SortResults(rs)) == multiset(rs)
    decreases |rs|
  {
    if rs != [] {
      var init, last := rs[..|rs| - 1], rs[|rs| - 1];
      SortResultsRanked(init);
      InsertRanked(SortResults(init), last);
      InsertPermutes(SortResults(init), last);
      assert rs == init + [last];
    }
  }

  lemma {:induction false} InsertStable(rs: seq<SearchResult>, x: SearchResult, y: SearchResult)
    ensures SameRank(Insert(rs, x), y)
      == SameRank(rs, y) + (if RanksNoLater(x, y) && RanksNoLater(y, x) then [x] else [])
    decreases |rs|
  {
    if rs != [] {
      var init, last := rs[..|rs| - 1], rs[|rs| - 1];
      if RanksNoLater(last, x) {
        assert (rs + [x])[..|rs|] == rs;
      } else {
        InsertStable(init, x, y);
        var ins := Insert(init, x);
        assert (ins + [last])[..|ins|] == ins;
      }
    }
  }

  /** The sort is stable: results of equal rank keep their relative order. */
  lemma {:induction false} SortResultsStable(rs: seq<SearchResult>, y: SearchResult)
    ensures SameRank(SortResults(rs), y) == SameRank(rs, y)
    decreases |rs|
  {
    if rs != [] {
      var init, last := rs[..|rs| - 1], rs[|rs| - 1];
      SortResultsStable(init, y);
      InsertStable(SortResults(init), last, y);
    }
  }
}
