/** The first-fit slot search: the earliest window of the grid, on one day
    and in one room, that no committed entry blocks for the requesting
    section and faculty. */
module SlotSearch {
  import opened Options
  import opened TimeGrid
  import opened Conflicts

  /** The finder form: who asks, for what, and the requested total as a
      number of 30-minute slots (twice the hours; None when the hours field is
      empty or not a number). */
  datatype Request = Request(section: string, subject: string, faculty: string, slots: Option<int>)

  /** An existing entry blocks the 30-minute slot at grid point j for a
      session in `room`: same day, overlapping time, and the same room, the
      requesting faculty or the requesting section. */
  predicate Blocks(e: Entry, req: Request, day: Day, room: string, j: int)
  {
    e.day == day && SlotStart(j) < e.end && SlotStart(j) + 30 > e.start
    && (e.room == room || e.faculty == req.faculty || e.section == req.section)
  }

  /** `schedules.find(...)` finds an entry blocking slot j. */
  predicate SlotTaken(entries: seq<Entry>, req: Request, day: Day, room: string, j: int)
  {
    exists e :: e in entries && Blocks(e, req, day, room, j)
  }

  /** Every 30-minute slot of the window [i, i + k) is free. */
  predicate WindowClear(entries: seq<Entry>, req: Request, day: Day, room: string, i: int, k: int)
  {
    forall j :: i <= j < i + k ==> !SlotTaken(entries, req, day, room, j)
  }

  /** The scan from start index i on: past `timeSlots.length - k`, or once the
      window's end index reaches the last grid point, nothing is found. */
  function FirstFitFrom(entries: seq<Entry>, req: Request, day: Day, k: int, room: string, i: int): Option<int>
    decreases SlotCount + 1 - k - i
  {
    if i > SlotCount - k then None
    else if i + k >= SlotCount then None
    else if WindowClear(entries, req, day, room, i, k) then Some(i)
    else FirstFitFrom(entries, req, day, k, room, i + 1)
  }

  /** findAvailableTimeSlot as a function: the start index of the window,
      which runs from TimeSlots[i] to TimeSlots[i + k]. */
  function FirstFit(entries: seq<Entry>, req: Request, day: Day, k: int, room: string): Option<int>
  {
    FirstFitFrom(entries, req, day, k, room, 0)
  }

  /** findAvailableTimeSlot: scan the start indices, and for each the slots
      of its window, stopping at the first blocked slot. */
  method FindAvailableTimeSlot(entries: seq<Entry>, req: Request, day: Day, requiredSlots: int, room: string)
    returns (r: Option<int>)
    ensures r == FirstFit(entries, req, day, requiredSlots, room)
  {
    var k := requiredSlots;
    var i := 0;
    while i <= SlotCount - k
      invariant 0 <= i
      invariant FirstFitFrom(entries, req, day, k, room, i) == FirstFit(entries, req, day, k, room)
      decreases SlotCount + 1 - k - i
    {
      var endIndex := i + k;
      if endIndex >= SlotCount {
        break;
      }
      var isAvailable := true;
      var j := i;
      while j < endIndex
        invariant i <= j
        invariant isAvailable ==> forall j' :: i <= j' < j ==> !SlotTaken(entries, req, day, room, j')
        invariant !isAvailable ==> !WindowClear(entries, req, day, room, i, k)
        decreases endIndex - j
      {
        var conflict := SlotTaken(entries, req, day, room, j);
        if conflict {
          isAvailable := false;
          break;
        }
        j := j + 1;
      }
      if isAvailable {
        return Some(i);
      }
      i := i + 1;
    }
    return None;
  }

  /** First fit: a window that is found starts at 07:00 or later, ends at
      or before 21:00 (index 28), is clear, and no earlier start is clear;
      nothing is found only when no start whose window ends at or before
      index 28 is clear. A negative k ends before its start, off the grid. */
  lemma {:induction false} FirstFitFromSpec(entries: seq<Entry>, req: Request, day: Day, k: int, room: string, i: int)
    requires 0 <= i
    ensures var r := FirstFitFrom(entries, req, day, k, room, i);
      (r.Some? ==>
         i <= r.value && r.value + k < SlotCount
         && WindowClear(entries, req, day, room, r.value, k)
         && forall i' :: i <= i' < r.value ==> !WindowClear(entries, req, day, room, i', k))
      && (r.None? ==> forall i' :: i <= i' && i' + k < SlotCount ==> !WindowClear(entries, req, day, room, i', k))
    decreases SlotCount + 1 - k - i
  {
    if i > SlotCount - k || i + k >= SlotCount {
    } else if !WindowClear(entries, req, day, room, i, k) {
      FirstFitFromSpec(entries, req, day, k, room, i + 1);
    }
  }

  /** findAvailableTimeSlot returns the earliest clear window lying on the
      grid, or nothing when there is none. */
  lemma FirstFitSpec(entries: seq<Entry>, req: Request, day: Day, k: int, room: string)
    ensures var r := FirstFit(entries, req, day, k, room);
      (r.Some? ==>
         0 <= r.value && r.value + k < SlotCount
         && WindowClear(entries, req, day, room, r.value, k)
         && forall i :: 0 <= i < r.value ==> !WindowClear(entries, req, day, room, i, k))
      && (r.None? <==> forall i :: 0 <= i && i + k < SlotCount ==> !WindowClear(entries, req, day, room, i, k))
  {
    FirstFitFromSpec(entries, req, day, k, room, 0);
  }

  /** A window of no slots is always "found" at 07:00. */
  lemma EmptyWindowAtStart(entries: seq<Entry>, req: Request, day: Day, k: int, room: string)
    requires k <= 0
    ensures FirstFit(entries, req, day, k, room) == Some(0)
  {
  }

  /** With no entries at all, every window of fewer than 29 slots is found
      at 07:00; a window of 28 slots runs from 07:00 to 21:00. */
  lemma FreeGridFirstFit(req: Request, day: Day, k: int, room: string)
    requires k < SlotCount
    ensures FirstFit([], req, day, k, room) == Some(0)
  {
  }

  /** A clear window of at least one slot does not overlap any well-formed
      entry on that day sharing the room, the faculty or the section. */
  lemma ClearWindowAvoids(entries: seq<Entry>, req: Request, day: Day, room: string, i: int, k: int, e: Entry)
    requires k >= 1 && WindowClear(entries, req, day, room, i, k)
    requires e in entries && e.start < e.end && e.day == day
    requires e.room == room || e.faculty == req.faculty || e.section == req.section
    ensures !Overlaps(SlotStart(i), SlotStart(i + k), e.start, e.end)
  {
    if Overlaps(SlotStart(i), SlotStart(i + k), e.start, e.end) {
      var j := if e.start <= SlotStart(i) then i else i + (e.start - SlotStart(i)) / 30;
      assert i <= j < i + k;
      assert Blocks(e, req, day, room, j);
      assert SlotTaken(entries, req, day, room, j);
    }
  }
}
