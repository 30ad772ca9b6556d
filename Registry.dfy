/** The schedule registry: the list of committed entries that the entry
    form adds to, the delete button removes from, and "Use This Option"
    commits a search result into. */
module Registry {
  import opened Options
  import opened TimeGrid
  import opened Conflicts
  import opened Availability

  /** The entry form. The day and time selects hold a weekday and a grid
      label, or nothing; the room is the chosen predefined room unless the
      custom room box is shown. */
  datatype Form = Form(
    section: string,
    subject: string,
    room: string,
    faculty: string,
    day: Option<Day>,
    startTime: Option<SlotIndex>,
    endTime: Option<SlotIndex>,
    showCustomRoom: bool,
    customRoom: string)

  /** What submitting the form does. */
  datatype SubmitOutcome =
    | MissingField
    | EndNotAfterStart
    | Rejected(conflicts: seq<Conflict>)
    | Added(entry: Entry)

  /** The room the form submits. */
  function FinalRoom(form: Form): string
  {
    if form.showCustomRoom then form.customRoom else form.room
  }

  /** Every field of the form is filled. */
  predicate Filled(form: Form)
  {
    form.section != "" && form.subject != "" && FinalRoom(form) != "" && form.faculty != ""
    && form.day.Some? && form.startTime.Some? && form.endTime.Some?
  }

  /** Minutes since midnight of the selected grid label, as timeToMinutes
      reads it. */
  function Minutes(i: SlotIndex): (m: int)
    ensures m == SlotStart(i)
  {
    GridLabelMinutes(i);
    TimeToMinutes(TimeSlots[i])
  }

  /** The entry a filled form describes, with the given id. */
  function Candidate(form: Form, id: nat): Entry
    requires Filled(form)
  {
    Entry(id, form.section, form.subject, FinalRoom(form), form.faculty, form.day.value,
          Minutes(form.startTime.value), Minutes(form.endTime.value))
  }

  /** handleSubmit as a function: missing fields first, then the string
      comparison of the two time labels, then the conflict check against
      every entry. */
  function Submission(entries: seq<Entry>, form: Form, id: nat): SubmitOutcome
  {
    if !Filled(form) then MissingField
    else if !LexLess(TimeSlots[form.startTime.value], TimeSlots[form.endTime.value]) then EndNotAfterStart
    else
      var cand := Candidate(form, id);
      var conflicts := ConflictsOf(entries, cand, None);
      if conflicts != [] then Rejected(conflicts) else Added(cand)
  }

  /** `schedules.filter(s => s.id !== id)`. */
  function WithoutId(entries: seq<Entry>, id: nat): seq<Entry>
  {
    if entries == [] then []
    else
      var last := entries[|entries| - 1];
      WithoutId(entries[..|entries| - 1], id) + (if last.id != id then [last] else [])
  }

  /** The schedules state. */
  class Registry {
    var entries: seq<Entry>

    /** The registry starts from what was stored. */
    constructor(stored: seq<Entry>)
      ensures entries == stored
    {
      entries := stored;
    }

    /** handleSubmit: add the entry the form describes unless a field is
        missing, the end is not after the start, or it conflicts. */
    method Submit(form: Form, id: nat) returns (outcome: SubmitOutcome)
      modifies this
      ensures outcome == Submission(old(entries), form, id)
      ensures entries == if outcome.Added? then old(entries) + [outcome.entry] else old(entries)
    {
      var finalRoom := if form.showCustomRoom then form.customRoom else form.room;
      if form.section == "" || form.subject == "" || finalRoom == "" || form.faculty == ""
         || form.day.None? || form.startTime.None? || form.endTime.None? {
        return MissingField;
      }
      if !LexLess(TimeSlots[form.startTime.value], TimeSlots[form.endTime.value]) {
        return EndNotAfterStart;
      }
      var scheduleToCheck := Candidate(form, id);
      var detectedConflicts := CheckConflicts(entries, scheduleToCheck, None);
      if |detectedConflicts| > 0 {
        return Rejected(detectedConflicts);
      }
      entries := entries + [scheduleToCheck];
      outcome := Added(scheduleToCheck);
    }

    /** deleteSchedule: drop every entry with the id. */
    method Delete(id: nat)
      modifies this
      ensures entries == WithoutId(old(entries), id)
    {
      entries := WithoutId(entries, id);
    }

    /** "Use This Option": append one entry per session of the result, with
        the request's section, subject and faculty, and no conflict check. */
    method CommitResult(result: SearchResult, ids: seq<nat>)
      requires |ids| == |result.sessions|
      modifies this
      ensures entries == old(entries) + Committed(result.sessions, result.request, ids)
    {
      var sessions := result.sessions;
      for i := 0 to |sessions|
        invariant entries == old(entries) + Committed(sessions[..i], result.request, ids[..i])
      {
        var newSchedule := SessionEntry(sessions[i], result.request, ids[i]);
        assert Committed(sessions[..i + 1], result.request, ids[..i + 1])
          == Committed(sessions[..i], result.request, ids[..i]) + [newSchedule];
        entries := entries + [newSchedule];
      }
      assert sessions[..|sessions|] == sessions && ids[..|ids|] == ids;
    }
  }

  /** The form's string comparison of the two labels is the comparison of
      their times: the end is refused exactly when it is not later. */
  lemma EndCheckIsTimeOrder(form: Form)
    requires Filled(form)
    ensures !LexLess(TimeSlots[form.startTime.value], TimeSlots[form.endTime.value])
      <==> Minutes(form.endTime.value) <= Minutes(form.startTime.value)
  {
    GridLabelOrder(form.startTime.value, form.endTime.value);
  }

  /** What submitting does: a missing field exactly when one is empty; an
      added entry is the form's entry, starts before it ends and clashes
      with no entry; a rejection lists exactly the conflicts found. */
  lemma SubmissionSpec(entries: seq<Entry>, form: Form, id: nat)
    ensures Submission(entries, form, id) == MissingField <==> !Filled(form)
    ensures Submission(entries, form, id).EndNotAfterStart? <==>
      Filled(form) && Minutes(form.endTime.value) <= Minutes(form.startTime.value)
    ensures Submission(entries, form, id).Added? ==>
      var e := Submission(entries, form, id).entry;
      Filled(form) && e == Candidate(form, id) && e.start < e.end
      && forall x :: x in entries ==> !Clash(x, e)
    ensures Submission(entries, form, id).Rejected? ==>
      var cs := Submission(entries, form, id).conflicts;
      Filled(form) && cs != [] && cs == ConflictsOf(entries, Candidate(form, id), None)
  {
    if Filled(form) {
      EndCheckIsTimeOrder(form);
      var cand := Candidate(form, id);
      NoConflictsIff(entries, cand, None);
    }
  }

  /** Adding a submitted entry keeps a conflict-free registry conflict-free. */
  lemma SubmitKeepsConsistent(entries: seq<Entry>, form: Form, id: nat)
    requires Consistent(entries)
    ensures var outcome := Submission(entries, form, id);
      Consistent(if outcome.Added? then entries + [outcome.entry] else entries)
  {
    var outcome := Submission(entries, form, id);
    if outcome.Added? {
      SubmissionSpec(entries, form, id);
      ConsistentSnoc(entries, outcome.entry);
    }
  }

  /** Deleting keeps exactly the entries with another id, in order. */
  lemma {:induction false} WithoutIdMembers(entries: seq<Entry>, id: nat, e: Entry)
    ensures e in WithoutId(entries, id) <==> e in entries && e.id != id
    decreases |entries|
  {
    if entries != [] {
      var init, last := entries[..|entries| - 1], entries[|entries| - 1];
      WithoutIdMembers(init, id, e);
      assert entries == init + [last];
    }
  }

  /** Deleting works entry by entry: the survivors keep their order. */
  lemma {:induction false} WithoutIdAppend(a: seq<Entry>, b: seq<Entry>, id: nat)
    ensures WithoutId(a + b, id) == WithoutId(a, id) + WithoutId(b, id)
    decreases |b|
  {
    if b == [] {
      assert a + b == a;
    } else {
      var init, last := b[..|b| - 1], b[|b| - 1];
      assert (a + b)[..|a + b| - 1] == a + init && (a + b)[|a + b| - 1] == last;
      WithoutIdAppend(a, init, id);
    }
  }

  /** Deleting an id that no entry has changes nothing. */
  lemma {:induction false} WithoutAbsentId(entries: seq<Entry>, id: nat)
    requires forall e :: e in entries ==> e.id != id
    ensures WithoutId(entries, id) == entries
    decreases |entries|
  {
    if entries != [] {
      var init, last := entries[..|entries| - 1], entries[|entries| - 1];
      assert entries == init + [last];
      forall e | e in init
        ensures e.id != id
      {
        assert e in entries;
      }
      WithoutAbsentId(init, id);
      assert last in entries;
    }
  }

  /** Deleting never leaves an entry with the id and never grows the list. */
  lemma {:induction false} WithoutIdShrinks(entries: seq<Entry>, id: nat)
    ensures |WithoutId(entries, id)| <= |entries|
    ensures forall e :: e in WithoutId(entries, id) ==> e.id != id
    decreases |entries|
  {
    if entries != [] {
      WithoutIdShrinks(entries[..|entries| - 1], id);
    }
  }

  /** Deleting keeps a conflict-free registry conflict-free. */
  lemma {:induction false} DeleteKeepsConsistent(entries: seq<Entry>, id: nat)
    requires Consistent(entries)
    ensures Consistent(WithoutId(entries, id))
    decreases |entries|
  {
    if entries != [] {
      var init, last := entries[..|entries| - 1], entries[|entries| - 1];
      assert Consistent(init) by {
        forall e | e in init
          ensures e.start < e.end
        {
          assert e in entries;
        }
        forall a, b | 0 <= a < b < |init|
          ensures !Clash(init[a], init[b])
        {
          assert init[a] == entries[a] && init[b] == entries[b];
        }
      }
      DeleteKeepsConsistent(init, id);
      var kept := WithoutId(init, id);
      if last.id != id {
        forall e | e in kept
          ensures !Clash(e, last)
        {
          WithoutIdMembers(init, id, e);
          var a :| 0 <= a < |init| && init[a] == e;
          assert entries[a] == e;
        }
        assert last in entries;
        ConsistentSnoc(kept, last);
      }
    }
  }

  /** Section A holds E34 on Monday 07:00-10:00; section B, taught by
      someone else, asks for E34 on Monday 08:00-09:00: the one reason is
      the room. */
  lemma RoomConflictExample()
    ensures var existing := Entry(1, "A", "Math", "E34", "F1", 0, SlotStart(0), SlotStart(6));
      var form := Form("B", "Physics", "E34", "F2", Some(0), Some(2), Some(4), false, "");
      Submission([existing], form, 2) == Rejected([RoomConflict(existing)])
  {
    var existing := Entry(1, "A", "Math", "E34", "F1", 0, SlotStart(0), SlotStart(6));
    var form := Form("B", "Physics", "E34", "F2", Some(0), Some(2), Some(4), false, "");
    GridLabelOrder(2, 4);
    var cand := Candidate(form, 2);
    assert [existing] == [] + [existing];
    ConflictsOfSnoc([], existing, cand, None);
    assert EntryConflicts(existing, cand) == [RoomConflict(existing)];
  }
}
