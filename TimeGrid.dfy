/** The weekly time axis: six weekdays and a 30-minute grid of 29 points
    from 07:00 to 21:00, with the conversion from "HH:MM" labels to
    minutes since midnight. */
module TimeGrid {

  /** Weekday index into ["Monday", ..., "Saturday"]: Monday is 0, Saturday 5. */
  type Day = d: nat | d < 6

  const DayCount: nat := 6

  /** Number of grid points; the last one (21:00) only ever ends a session. */
  const SlotCount: nat := 29

  /** Index of a grid point. */
  type SlotIndex = i: nat | i < 29

  /** The grid labels, as the form's time selects offer them. */
  const TimeSlots: seq<string> := [
    "07:00", "07:30", "08:00", "08:30", "09:00", "09:30", "10:00", "10:30",
    "11:00", "11:30", "12:00", "12:30", "13:00", "13:30", "14:00", "14:30",
    "15:00", "15:30", "16:00", "16:30", "17:00", "17:30", "18:00", "18:30",
    "19:00", "19:30", "20:00", "20:30", "21:00"
  ]

  /** Minutes since midnight at which grid point `i` lies. */
  function SlotStart(i: int): int
  {
    420 + 30 * i
  }

  predicate IsDigit(c: char)
  {
    '0' <= c <= '9'
  }

  function DigitValue(c: char): (d: nat)
    requires IsDigit(c)
    ensures d < 10
  {
    c as nat - '0' as nat
  }

  function DigitChar(d: nat): char
    requires d < 10
  {
    ('0' as nat + d) as char
  }

  lemma DigitCharValue(d: nat)
    requires d < 10
    ensures IsDigit(DigitChar(d)) && DigitValue(DigitChar(d)) == d
  {
  }

  /** A two-digit "HH:MM" clock label. */
  predicate IsClockLabel(s: string)
  {
    |s| == 5 && IsDigit(s[0]) && IsDigit(s[1]) && s[2] == ':' && IsDigit(s[3]) && IsDigit(s[4])
  }

  /** timeToMinutes: hours * 60 + minutes of an "HH:MM" label. */
  function TimeToMinutes(s: string): nat
    requires IsClockLabel(s)
  {
    (10 * DigitValue(s[0]) + DigitValue(s[1])) * 60 + 10 * DigitValue(s[3]) + DigitValue(s[4])
  }

  /** The label of grid point `i`, built from its hour and minute. */
  function Label(i: SlotIndex): string
  {
    var h := 7 + i / 2;
    var m := 30 * (i % 2);
    [DigitChar(h / 10), DigitChar(h % 10), ':', DigitChar(m / 10), DigitChar(m % 10)]
  }

  lemma {:induction false} LabelIsClock(i: SlotIndex)
    ensures IsClockLabel(Label(i)) && TimeToMinutes(Label(i)) == SlotStart(i)
  {
    var h := 7 + i / 2;
    var m := 30 * (i % 2);
    assert 7 <= h < 22 && (m == 0 || m == 30);
    DigitCharValue(h / 10);
    DigitCharValue(h % 10);
    DigitCharValue(m / 10);
    DigitCharValue(m % 10);
    var s := Label(i);
    assert DigitValue(s[0]) == h / 10 && DigitValue(s[1]) == h % 10;
    assert DigitValue(s[3]) == m / 10 && DigitValue(s[4]) == m % 10;
    assert 10 * (h / 10) + h % 10 == h;
    assert 10 * (m / 10) + m % 10 == m;
    assert i == 2 * (i / 2) + i % 2;
  }

  /** JavaScript's `<` on strings: lexicographic by character code. */
  predicate LexLess(a: string, b: string)
  {
    if a == [] then b != []
    else if b == [] then false
    else if a[0] != b[0] then a[0] < b[0]
    else LexLess(a[1..], b[1..])
  }

  // The grid labels, five at a time (one symbolic index over all 29 is
  // costly for the solver).
  lemma GridLabels0(i: SlotIndex)
    requires 0 <= i < 5
    ensures TimeSlots[i] == Label(i)
  {
  }

  lemma GridLabels1(i: SlotIndex)
    requires 5 <= i < 10
    ensures TimeSlots[i] == Label(i)
  {
  }

  lemma GridLabels2(i: SlotIndex)
    requires 10 <= i < 15
    ensures TimeSlots[i] == Label(i)
  {
  }

  lemma GridLabels3(i: SlotIndex)
    requires 15 <= i < 20
    ensures TimeSlots[i] == Label(i)
  {
  }

  lemma GridLabels4(i: SlotIndex)
    requires 20 <= i < 25
    ensures TimeSlots[i] == Label(i)
  {
  }

  lemma GridLabels5(i: SlotIndex)
    requires 25 <= i < 29
    ensures TimeSlots[i] == Label(i)
  {
  }

  /** Every grid label is the label built from its index. */
  lemma TimeSlotsAreLabels(i: SlotIndex)
    ensures TimeSlots[i] == Label(i)
  {
    if i < 5 {
      GridLabels0(i);
    } else if i < 10 {
      GridLabels1(i);
    } else if i < 15 {
      GridLabels2(i);
    } else if i < 20 {
      GridLabels3(i);
    } else if i < 25 {
      GridLabels4(i);
    } else {
      GridLabels5(i);
    }
  }

  lemma {:induction false} LexLessCons(a: string, b: string)
    requires a != [] && b != []
    ensures LexLess(a, b) == if a[0] != b[0] then a[0] < b[0] else LexLess(a[1..], b[1..])
  {
  }

  /** The grid point `i` is a well-formed label lying SlotStart(i) minutes
      after midnight. */
  lemma {:induction false} GridLabelMinutes(i: SlotIndex)
    ensures IsClockLabel(TimeSlots[i]) && TimeToMinutes(TimeSlots[i]) == SlotStart(i)
  {
    TimeSlotsAreLabels(i);
    LabelIsClock(i);
  }

  lemma TwoDigitOrder(x: nat, y: nat)
    requires x < 100 && y < 100
    ensures x < y <==> x / 10 < y / 10 || (x / 10 == y / 10 && x % 10 < y % 10)
  {
  }

  lemma HalfOrder(i: nat, j: nat)
    ensures i < j <==> i / 2 < j / 2 || (i / 2 == j / 2 && i % 2 < j % 2)
  {
  }

  lemma {:induction false} DigitCharOrder(x: nat, y: nat)
    requires x < 10 && y < 10
    ensures DigitChar(x) < DigitChar(y) <==> x < y
    ensures DigitChar(x) == DigitChar(y) <==> x == y
  {
  }

  /** Two five-character strings with ':' in the middle compare by their
      other four characters in turn. */
  lemma {:induction false} FiveCharOrder(a: string, b: string)
    requires |a| == 5 && |b| == 5 && a[2] == ':' == b[2]
    ensures LexLess(a, b) <==> (a[0] < b[0] || (a[0] == b[0] &&
      (a[1] < b[1] || (a[1] == b[1] && (a[3] < b[3] || (a[3] == b[3] && a[4] < b[4]))))))
  {
    assert a[1..][1..][1..][1..][1..] == [] == b[1..][1..][1..][1..][1..];
    LexLessCons(a, b);
    LexLessCons(a[1..], b[1..]);
    LexLessCons(a[1..][1..], b[1..][1..]);
    LexLessCons(a[1..][1..][1..], b[1..][1..][1..]);
    LexLessCons(a[1..][1..][1..][1..], b[1..][1..][1..][1..]);
  }

  /** The string order of two labels follows hour first, then minute. */
  lemma {:induction false} LabelLexOrder(i: SlotIndex, j: SlotIndex)
    ensures LexLess(Label(i), Label(j)) <==> i < j
  {
    var ha, hb := 7 + i / 2, 7 + j / 2;
    var ma, mb := 30 * (i % 2), 30 * (j % 2);
    FiveCharOrder(Label(i), Label(j));
    DigitCharOrder(ha / 10, hb / 10);
    DigitCharOrder(ha % 10, hb % 10);
    DigitCharOrder(ma / 10, mb / 10);
    DigitCharOrder(ma % 10, mb % 10);
    TwoDigitOrder(ha, hb);
    TwoDigitOrder(ma, mb);
    HalfOrder(i, j);
  }

  /** Comparing two grid labels as strings, as the entry form does, agrees
      with comparing the grid points, and so with comparing their minutes. */
  lemma {:induction false} GridLabelOrder(i: SlotIndex, j: SlotIndex)
    ensures LexLess(TimeSlots[i], TimeSlots[j]) <==> i < j
    ensures LexLess(TimeSlots[i], TimeSlots[j]) <==> SlotStart(i) < SlotStart(j)
  {
    TimeSlotsAreLabels(i);
    TimeSlotsAreLabels(j);
    LabelLexOrder(i, j);
  }
}
