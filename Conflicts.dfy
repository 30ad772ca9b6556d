/** The conflict detector: which committed entries a candidate booking
    double-books, and why. */
module Conflicts {
  import opened Options
  import opened TimeGrid

  /** A committed schedule entry. Its times are minutes since midnight, as
      timeToMinutes reads its "HH:MM" labels. */
  datatype Entry = Entry(
    id: nat,
    section: string,
    subject: string,
    room: string,
    faculty: string,
    day: Day,
    start: int,
    end: int)

  /** One reason for rejecting a candidate, naming the existing entry that it
      collides with (the message text is built from that entry's fields). */
  datatype Conflict =
    | RoomConflict(existing: Entry)
    | FacultyConflict(existing: Entry)
    | SectionConflict(existing: Entry)

  /** Position of a reason among the three that one entry can produce. */
  function Rank(c: Conflict): nat
  {
    match c
    case RoomConflict(_) => 0
    case FacultyConflict(_) => 1
    case SectionConflict(_) => 2
  }

  /** Half-open time intervals [s1, e1) and [s2, e2) overlap. */
  predicate Overlaps(s1: int, e1: int, s2: int, e2: int)
  {
    s1 < e2 && e1 > s2
  }

  /** The candidate and an existing entry share a day and overlap in time. */
  predicate Collides(existing: Entry, cand: Entry)
  {
    existing.day == cand.day && Overlaps(cand.start, cand.end, existing.start, existing.end)
  }

  /** The two bookings double-book a room, a faculty member or a section. */
  predicate Clash(existing: Entry, cand: Entry)
  {
    Collides(existing, cand) &&
    (existing.room == cand.room || existing.faculty == cand.faculty || existing.section == cand.section)
  }

  /** The skip test `excludeId && existing.id === excludeId`: an absent id,
      and the falsy id 0, exclude nothing. */
  predicate Excluded(existing: Entry, excludeId: Option<nat>)
  {
    excludeId.Some? && excludeId.value != 0 && existing.id == excludeId.value
  }

  /** The reasons one existing entry gives against the candidate. */
  function EntryConflicts(existing: Entry, cand: Entry): seq<Conflict>
  {
    if Collides(existing, cand) then
      (if existing.room == cand.room then [RoomConflict(existing)] else []) +
      (if existing.faculty == cand.faculty then [FacultyConflict(existing)] else []) +
      (if existing.section == cand.section then [SectionConflict(existing)] else [])
    else
      []
  }

  /** One entry gives at most three reasons, none unless it clashes with
      the candidate, one per shared field, each naming that entry, and in
      the order room, faculty, section. */
  lemma EntryConflictsSpec(existing: Entry, cand: Entry)
    ensures var r := EntryConflicts(existing, cand);
      && |r| <= 3
      && (r == [] <==> !Clash(existing, cand))
      && (RoomConflict(existing) in r <==> Collides(existing, cand) && existing.room == cand.room)
      && (FacultyConflict(existing) in r <==> Collides(existing, cand) && existing.faculty == cand.faculty)
      && (SectionConflict(existing) in r <==> Collides(existing, cand) && existing.section == cand.section)
      && (forall c :: c in r ==> c.existing == existing)
      && (forall i, j :: 0 <= i < j < |r| ==> Rank(r[i]) < Rank(r[j]))
  {
  }

  /** The concatenation of f over xs, in order. */
  function Gather<T, U>(xs: seq<T>, f: T -> seq<U>): seq<U>
  {
    if xs == [] then [] else Gather(xs[..|xs| - 1], f) + f(xs[|xs| - 1])
  }

  /** checkConflicts as a function: the reasons of every entry that is not
      excluded, in entry order. */
  function ConflictsOf(entries: seq<Entry>, cand: Entry, excludeId: Option<nat>): seq<Conflict>
  {
    Gather(entries, e => Reasons(e, cand, excludeId))
  }

  /** The reasons an entry gives, unless it is the excluded one. */
  function Reasons(existing: Entry, cand: Entry, excludeId: Option<nat>): seq<Conflict>
  {
    if Excluded(existing, excludeId) then [] else EntryConflicts(existing, cand)
  }

  /** checkConflicts: walk the entries, pushing a reason for each shared
      room, faculty and section of a same-day overlapping entry. */
  method CheckConflicts(entries: seq<Entry>, cand: Entry, excludeId: Option<nat>)
    returns (conflicts: seq<Conflict>)
    ensures conflicts == ConflictsOf(entries, cand, excludeId)
  {
    conflicts := [];
    for i := 0 to |entries|
      invariant conflicts == ConflictsOf(entries[..i], cand, excludeId)
    {
      var existing := entries[i];
      assert entries[..i + 1][..i] == entries[..i];
      if Excluded(existing, excludeId) {
        continue;
      }
      ghost var before := conflicts;
      if existing.day == cand.day {
        var hasTimeOverlap := cand.start < existing.end && cand.end > existing.start;
        if hasTimeOverlap {
          if existing.room == cand.room {
            conflicts := conflicts + [RoomConflict(existing)];
          }
          if existing.faculty == cand.faculty {
            conflicts := conflicts + [FacultyConflict(existing)];
          }
          if existing.section == cand.section {
            conflicts := conflicts + [SectionConflict(existing)];
          }
        }
      }
      assert conflicts == before + Reasons(existing, cand, excludeId);
    }
    assert entries[..|entries|] == entries;
  }

  lemma GatherSnoc<T, U>(xs: seq<T>, last: T, f: T -> seq<U>)
    ensures Gather(xs + [last], f) == Gather(xs, f) + f(last)
  {
    assert (xs + [last])[..|xs|] == xs;
  }

  lemma {:induction false} GatherAppend<T, U>(a: seq<T>, b: seq<T>, f: T -> seq<U>)
    ensures Gather(a + b, f) == Gather(a, f) + Gather(b, f)
    decreases |b|
  {
    if b == [] {
      assert a + b == a;
    } else {
      var b', last := b[..|b| - 1], b[|b| - 1];
      assert b == b' + [last];
      assert a + b == (a + b') + [last];
      calc {
        Gather(a + b, f);
        { GatherSnoc(a + b', last, f); }
        Gather(a + b', f) + f(last);
        { GatherAppend(a, b', f); }
        (Gather(a, f) + Gather(b', f)) + f(last);
        Gather(a, f) + (Gather(b', f) + f(last));
        { GatherSnoc(b', last, f); }
        Gather(a, f) + Gather(b, f);
      }
    }
  }

  /** One more entry adds its own reasons at the end. */
  lemma ConflictsOfSnoc(entries: seq<Entry>, last: Entry, cand: Entry, excludeId: Option<nat>)
    ensures ConflictsOf(entries + [last], cand, excludeId)
      == ConflictsOf(entries, cand, excludeId) + Reasons(last, cand, excludeId)
  {
    GatherSnoc(entries, last, e => Reasons(e, cand, excludeId));
  }

  /** The reasons against a concatenation are those against each part, in
      order: reasons come out in entry order. */
  lemma ConflictsOfAppend(a: seq<Entry>, b: seq<Entry>, cand: Entry, excludeId: Option<nat>)
    ensures ConflictsOf(a + b, cand, excludeId) == ConflictsOf(a, cand, excludeId) + ConflictsOf(b, cand, excludeId)
  {
    GatherAppend(a, b, e => Reasons(e, cand, excludeId));
  }

  /** A reason is reported exactly when some non-excluded entry collides with
      the candidate on the day and time and shares the reason's field. */
  lemma {:induction false} ConflictsOfMembers(entries: seq<Entry>, cand: Entry, excludeId: Option<nat>, c: Conflict)
    ensures c in ConflictsOf(entries, cand, excludeId) <==>
      c.existing in entries && !Excluded(c.existing, excludeId) && Collides(c.existing, cand) &&
      match c
      case RoomConflict(e) => e.room == cand.room
      case FacultyConflict(e) => e.faculty == cand.faculty
      case SectionConflict(e) => e.section == cand.section
    decreases |entries|
  {
    if entries != [] {
      var init := entries[..|entries| - 1];
      var last := entries[|entries| - 1];
      ConflictsOfMembers(init, cand, excludeId, c);
      EntryConflictsSpec(last, cand);
      assert entries == init + [last];
      assert c.existing in entries <==> c.existing in init || c.existing == last;
    }
  }

  /** Each entry gives at most three reasons. */
  lemma {:induction false} ConflictsOfBound(entries: seq<Entry>, cand: Entry, excludeId: Option<nat>)
    ensures |ConflictsOf(entries, cand, excludeId)| <= 3 * |entries|
    decreases |entries|
  {
    if entries != [] {
      ConflictsOfBound(entries[..|entries| - 1], cand, excludeId);
      EntryConflictsSpec(entries[|entries| - 1], cand);
    }
  }

  /** The candidate is admissible (no reasons) exactly when it clashes with
      no entry that is not excluded; in particular entries on other days or
      outside its time range never count, whatever fields they share. */
  lemma {:induction false} NoConflictsIff(entries: seq<Entry>, cand: Entry, excludeId: Option<nat>)
    ensures ConflictsOf(entries, cand, excludeId) == [] <==>
      forall e :: e in entries && !Excluded(e, excludeId) ==> !Clash(e, cand)
    decreases |entries|
  {
    if entries != [] {
      var init := entries[..|entries| - 1];
      var last := entries[|entries| - 1];
      NoConflictsIff(init, cand, excludeId);
      assert Reasons(last, cand, excludeId) == [] <==> Excluded(last, excludeId) || !Clash(last, cand);
      assert entries == init + [last];
      assert forall e :: e in entries <==> e in init || e == last;
    }
  }

  /** A conflict-free registry: every entry starts before it ends and no
      two entries clash. */
  predicate Consistent(entries: seq<Entry>)
  {
    (forall e :: e in entries ==> e.start < e.end)
    && forall a, b :: 0 <= a < b < |entries| ==> !Clash(entries[a], entries[b])
  }

  /** A conflict-free list stays conflict-free when an entry that starts
      before it ends, and clashes with none of the list, is appended. */
  lemma ConsistentSnoc(entries: seq<Entry>, x: Entry)
    requires Consistent(entries) && x.start < x.end
    requires forall e :: e in entries ==> !Clash(e, x)
    ensures Consistent(entries + [x])
  {
    var after := entries + [x];
    forall a, b | 0 <= a < b < |after|
      ensures !Clash(after[a], after[b])
    {
      if b == |entries| {
        assert after[a] in entries;
      } else {
        assert after[a] == entries[a] && after[b] == entries[b];
      }
    }
  }

  /** Clashing is symmetric: A clashes with B exactly when B clashes with A. */
  lemma ClashSymmetric(a: Entry, b: Entry)
    ensures Clash(a, b) <==> Clash(b, a)
  {
  }

  /** Checking A against a registry holding only B reports the same kinds of
      reason, in the same order, as checking B against one holding only A. */
  lemma EntryConflictKinds(a: Entry, b: Entry)
    ensures |EntryConflicts(b, a)| == |EntryConflicts(a, b)|
    ensures forall i :: 0 <= i < |EntryConflicts(b, a)| ==> Rank(EntryConflicts(b, a)[i]) == Rank(EntryConflicts(a, b)[i])
  {
    assert Collides(a, b) <==> Collides(b, a);
  }
}
