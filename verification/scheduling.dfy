/** The scheduling validator: time parsing, ordering, minimum duration and conflict freedom
    for one candidate event against the events already stored on the same date at the same
    location (the result of the storage query, passed in as `existing`).
 */
module Scheduling {
  import opened Wrappers
  import opened PyText
  import opened Store
  import Seqs

  /** Minimum length of an event, in minutes. */
  const MinDuration: int := 60

  /** The ways a candidate is rejected; each carries what the message reports. */
  datatype SchedError =
    | InvalidTimeFormat(text: string)                      // a time that is not HH:MM
    | StartNotBeforeEnd(startTime: string, endTime: string)
    | TooShort(duration: int)                              // the actual duration in minutes
    | TimeConflict(conflicts: seq<StoredEvent>)           // every overlapping stored event

  /** The pieces of a time string: the stripped text split at every colon. */
  function TimeParts(s: string): seq<string> {
    Split(Strip(s, IsSpace), ':')
  }

  /** `_parse_time_to_minutes`: minutes since midnight of a 24-hour `HH:MM` time.
      On success, reading the hour and minute parts back gives the quotient and remainder
      of the result by 60, so the result is `hour * 60 + minute` with both in range. */
  function ParseTimeToMinutes(s: string): (r: Result<int, SchedError>)
    ensures r.Failure? ==> r.error == InvalidTimeFormat(s)
    ensures r.Success? ==> 0 <= r.value < 24 * 60
    ensures r.Success? ==> |TimeParts(s)| == 2
    ensures r.Success? ==> (PyInt(TimeParts(s)[0]) == Some(r.value / 60)
                            && PyInt(TimeParts(s)[1]) == Some(r.value % 60))
  {
    var parts := TimeParts(s);
    if |parts| != 2 then Failure(InvalidTimeFormat(s))
    else
      match (PyInt(parts[0]), PyInt(parts[1]))
      case (Some(hour), Some(minute)) =>
        if 0 <= hour < 24 && 0 <= minute < 60 then
          ClockArithmetic(hour, minute);
          Success(hour * 60 + minute)
        else Failure(InvalidTimeFormat(s))
      case _ => Failure(InvalidTimeFormat(s))
  }

  /** Minutes since midnight determine the hour and minute they were built from. */
  lemma ClockArithmetic(hour: int, minute: int)
    requires 0 <= hour < 24 && 0 <= minute < 60
    ensures 0 <= hour * 60 + minute < 24 * 60
    ensures (hour * 60 + minute) / 60 == hour && (hour * 60 + minute) % 60 == minute
  {
  }

  /** A time string is rejected exactly when it does not have two colon-separated parts,
      when either part is not an integer, or when the hour or minute is out of range. */
  lemma ParseTimeFailsIff(s: string)
    ensures ParseTimeToMinutes(s).Failure? <==>
      || |TimeParts(s)| != 2
      || PyInt(TimeParts(s)[0]).None?
      || PyInt(TimeParts(s)[1]).None?
      || !(0 <= PyInt(TimeParts(s)[0]).value < 24)
      || !(0 <= PyInt(TimeParts(s)[1]).value < 60)
  {
  }

  /** The canonical `HH:MM` spelling of a minute of the day. */
  function FormatTime(t: int): (s: string)
    requires 0 <= t < 24 * 60
    ensures |s| == 5 && s[2] == ':'
  {
    TwoDigits(t / 60) + ":" + TwoDigits(t % 60)
  }

  /** The canonical spelling splits into its two-digit hour and minute. */
  lemma TimePartsOfFormat(t: int)
    requires 0 <= t < 24 * 60
    ensures TimeParts(FormatTime(t)) == [TwoDigits(t / 60), TwoDigits(t % 60)]
  {
    var hh, mm := TwoDigits(t / 60), TwoDigits(t % 60);
    var s := FormatTime(t);
    StripUnchanged(s, IsSpace);
    assert ':' !in hh && ':' !in mm;
    SplitJoin([hh, mm], ':');
    assert Join([hh, mm], ':') == s;
  }

  /** Formatting a minute of the day and parsing it back gives the same minute. */
  lemma ParseFormatRoundTrip(t: int)
    requires 0 <= t < 24 * 60
    ensures ParseTimeToMinutes(FormatTime(t)) == Success(t)
  {
    TimePartsOfFormat(t);
    PyIntTwoDigits(t / 60);
    PyIntTwoDigits(t % 60);
  }

  /** Any spelling whose two parts `int()` reads as an hour and a minute in range is accepted,
      whatever whitespace surrounds it, not only the canonical `HH:MM`: "9:5", "+9:05",
      " 09: 5 " all mean 09:05. */
  lemma LenientTimeAccepted(w1: string, hs: string, ms: string, w2: string, h: int, m: int)
    requires forall k :: 0 <= k < |w1| ==> IsSpace(w1[k])
    requires forall k :: 0 <= k < |w2| ==> IsSpace(w2[k])
    requires ':' !in hs && ':' !in ms
    requires |hs| > 0 && !IsSpace(hs[0]) && |ms| > 0 && !IsSpace(ms[|ms| - 1])
    requires PyInt(hs) == Some(h) && PyInt(ms) == Some(m)
    requires 0 <= h < 24 && 0 <= m < 60
    ensures ParseTimeToMinutes(w1 + hs + ":" + ms + w2) == Success(h * 60 + m)
  {
    TimePartsAround(w1, hs, ms, w2);
  }

  /** Whitespace around an `hours:minutes` spelling is stripped and the colon splits it in two. */
  lemma TimePartsAround(w1: string, hs: string, ms: string, w2: string)
    requires forall k :: 0 <= k < |w1| ==> IsSpace(w1[k])
    requires forall k :: 0 <= k < |w2| ==> IsSpace(w2[k])
    requires ':' !in hs && ':' !in ms
    requires |hs| > 0 && !IsSpace(hs[0]) && |ms| > 0 && !IsSpace(ms[|ms| - 1])
    ensures TimeParts(w1 + hs + ":" + ms + w2) == [hs, ms]
  {
    var s := hs + ":" + ms;
    assert w1 + hs + ":" + ms + w2 == w1 + s + w2;
    StripAround(w1, s, w2, IsSpace);
    SplitJoin([hs, ms], ':');
    assert Join([hs, ms], ':') == s;
  }

  /** Half-open intervals [newStart, newEnd) and [evStart, evEnd) intersect. */
  predicate Overlaps(newStart: int, newEnd: int, evStart: int, evEnd: int) {
    !(newEnd <= evStart || newStart >= evEnd)
  }

  /** Minute `t` lies in the half-open interval [lo, hi). */
  predicate Within(t: int, lo: int, hi: int) {
    lo <= t < hi
  }

  /** For non-empty intervals, overlapping means sharing at least one minute; the relation
      is symmetric, and back-to-back intervals (one ends where the other starts) never overlap. */
  lemma HalfOpenOverlap(a: int, b: int, c: int, d: int)
    requires a < b && c < d
    ensures Overlaps(a, b, c, d) <==> exists t :: Within(t, a, b) && Within(t, c, d)
    ensures Overlaps(a, b, c, d) == Overlaps(c, d, a, b)
    ensures !Overlaps(a, b, b, d) && !Overlaps(b, d, a, b)
  {
    if Overlaps(a, b, c, d) {
      var t := if a < c then c else a;
      assert Within(t, a, b) && Within(t, c, d);
    }
  }

  /** Both stored times of an event parse. */
  predicate WellTimed(ev: StoredEvent) {
    ParseTimeToMinutes(ev.startTime).Success? && ParseTimeToMinutes(ev.endTime).Success?
  }

  /** The time string of a badly timed stored event that the validator reports: its start
      time if that one is malformed, otherwise its end time. */
  function MalformedTime(ev: StoredEvent): string {
    if ParseTimeToMinutes(ev.startTime).Failure? then ev.startTime else ev.endTime
  }

  /** Index of the first stored event whose times do not parse (`|existing|` if there is none). */
  function FirstMalformed(existing: seq<StoredEvent>): (k: nat)
    ensures k <= |existing|
    ensures forall j :: 0 <= j < k ==> WellTimed(existing[j])
    ensures k < |existing| ==> !WellTimed(existing[k])
  {
    Seqs.FirstFailing(existing, WellTimed)
  }

  /** The search stops at a badly timed first event and otherwise goes on in the rest. */
  lemma FirstMalformedStep(existing: seq<StoredEvent>)
    requires |existing| > 0
    ensures FirstMalformed(existing) == if WellTimed(existing[0]) then 1 + FirstMalformed(existing[1..]) else 0
  {
  }

  /** The candidate [start, end) overlaps a stored event (false if the event's times do not parse). */
  predicate ConflictsWith(start: int, end: int, ev: StoredEvent) {
    match (ParseTimeToMinutes(ev.startTime), ParseTimeToMinutes(ev.endTime))
    case (Success(s), Success(e)) => Overlaps(start, end, s, e)
    case _ => false
  }

  /** The stored events that overlap [start, end), in their given order. */
  function Conflicts(start: int, end: int, existing: seq<StoredEvent>): seq<StoredEvent> {
    Seqs.Filter(existing, ev => ConflictsWith(start, end, ev))
  }

  /** The loop over the stored events: the first one whose time does not parse aborts the
      loop with a format error; otherwise every overlapping event is collected. */
  function CollectConflicts(start: int, end: int, existing: seq<StoredEvent>): (r: Result<seq<StoredEvent>, SchedError>)
    ensures r.Success? <==> forall i :: 0 <= i < |existing| ==> WellTimed(existing[i])
    ensures r.Success? ==> r.value == Conflicts(start, end, existing)
    ensures r.Failure? ==> r.error == InvalidTimeFormat(MalformedTime(existing[FirstMalformed(existing)]))
    decreases |existing|
  {
    if |existing| == 0 then Success([])
    else
      FirstMalformedStep(existing);
      Seqs.AllCons(existing, WellTimed);
      ConflictsCons(start, end, existing);
      if !WellTimed(existing[0]) then Failure(InvalidTimeFormat(MalformedTime(existing[0])))
      else
        match CollectConflicts(start, end, existing[1..])
        case Failure(err) => Failure(err)
        case Success(rest) => Success(if ConflictsWith(start, end, existing[0]) then [existing[0]] + rest else rest)
  }

  /** The conflicts of a non-empty list: the first event if it overlaps, then the conflicts of the rest. */
  lemma ConflictsCons(start: int, end: int, existing: seq<StoredEvent>)
    requires |existing| > 0
    ensures Conflicts(start, end, existing)
         == (if ConflictsWith(start, end, existing[0]) then [existing[0]] else []) + Conflicts(start, end, existing[1..])
  {
  }

  /** Nothing stored at the slot stands in the way of [s, e): every stored event has
      parseable times and none of them overlaps. */
  ghost predicate SlotFree(s: int, e: int, existing: seq<StoredEvent>) {
    && (forall i :: 0 <= i < |existing| ==> WellTimed(existing[i]))
    && (forall i :: 0 <= i < |existing| ==> !ConflictsWith(s, e, existing[i]))
  }

  /** The candidate can be placed: both times parse, start is before end, the duration is at
      least an hour, and the slot is free. */
  ghost predicate Placeable(d: EventDraft, existing: seq<StoredEvent>) {
    && ParseTimeToMinutes(d.startTime).Success?
    && ParseTimeToMinutes(d.endTime).Success?
    && var s, e := ParseTimeToMinutes(d.startTime).value, ParseTimeToMinutes(d.endTime).value;
    && s < e
    && e - s >= MinDuration
    && SlotFree(s, e, existing)
  }

  /** Steps 1 and 2 of `validate_event_scheduling`: both times parse (start first), start is
      before end, and the event lasts at least an hour. Yields the slot in minutes. */
  function CheckTimes(d: EventDraft): (r: Result<(int, int), SchedError>)
    ensures ParseTimeToMinutes(d.startTime).Failure? ==> r == Failure(InvalidTimeFormat(d.startTime))
    ensures ParseTimeToMinutes(d.startTime).Success? && ParseTimeToMinutes(d.endTime).Failure?
            ==> r == Failure(InvalidTimeFormat(d.endTime))
    ensures ParseTimeToMinutes(d.startTime).Success? && ParseTimeToMinutes(d.endTime).Success?
            ==> var s, e := ParseTimeToMinutes(d.startTime).value, ParseTimeToMinutes(d.endTime).value;
                && (s >= e ==> r == Failure(StartNotBeforeEnd(d.startTime, d.endTime)))
                && (s < e && e - s < MinDuration ==> r == Failure(TooShort(e - s)))
                && (s < e && e - s >= MinDuration ==> r == Success((s, e)))
    ensures r.Success? ==> 0 <= r.value.0 && r.value.0 + MinDuration <= r.value.1 < 24 * 60
  {
    match ParseTimeToMinutes(d.startTime)
    case Failure(err) => Failure(err)
    case Success(s) =>
      match ParseTimeToMinutes(d.endTime)
      case Failure(err) => Failure(err)
      case Success(e) =>
        if s >= e then Failure(StartNotBeforeEnd(d.startTime, d.endTime))
        else if e - s < MinDuration then Failure(TooShort(e - s))
        else Success((s, e))
  }

  /** `validate_event_scheduling`, with the stored events of the candidate's date and location
      given as `existing`. The time checks come first and never look at `existing`; then the
      stored events are scanned, and every overlapping one is reported. */
  function ValidateScheduling(d: EventDraft, existing: seq<StoredEvent>): (r: Outcome<SchedError>)
    ensures CheckTimes(d).Failure? ==> r == Fail(CheckTimes(d).error)
    ensures r.Fail? && r.error.TimeConflict? ==>
              && CheckTimes(d).Success?
              && r.error.conflicts == Conflicts(CheckTimes(d).value.0, CheckTimes(d).value.1, existing)
              && r.error.conflicts != []
  {
    var times := CheckTimes(d);
    if times.Failure? then Fail(times.error)
    else
      var s, e := times.value.0, times.value.1;
      var scan := CollectConflicts(s, e, existing);
      if scan.Failure? then Fail(scan.error)
      else if |scan.value| > 0 then Fail(TimeConflict(scan.value))
      else Pass
  }

  /** The validator accepts exactly the placeable candidates. */
  lemma ValidateSchedulingPassIff(d: EventDraft, existing: seq<StoredEvent>)
    ensures ValidateScheduling(d, existing).Pass? <==> Placeable(d, existing)
  {
    var times := CheckTimes(d);
    if times.Success? {
      var s, e := times.value.0, times.value.1;
      assert s == ParseTimeToMinutes(d.startTime).value && e == ParseTimeToMinutes(d.endTime).value;
      assert Placeable(d, existing) <==> SlotFree(s, e, existing);
      Seqs.FilterEmptyIff(existing, ev => ConflictsWith(s, e, ev));
    }
  }

  /** Once the time checks pass, the outcome is decided by the scan of the stored events:
      the first event whose stored time is malformed raises the format error for that time;
      otherwise the check fails exactly when some stored event overlaps, listing them all. */
  lemma ValidateSchedulingScan(d: EventDraft, existing: seq<StoredEvent>, s: int, e: int)
    requires CheckTimes(d) == Success((s, e))
    ensures FirstMalformed(existing) < |existing| ==>
              ValidateScheduling(d, existing) == Fail(InvalidTimeFormat(MalformedTime(existing[FirstMalformed(existing)])))
    ensures FirstMalformed(existing) == |existing| ==>
              ValidateScheduling(d, existing) == if Conflicts(s, e, existing) == [] then Pass
                                                 else Fail(TimeConflict(Conflicts(s, e, existing)))
  {
    if FirstMalformed(existing) == |existing| {
      assert forall i :: 0 <= i < |existing| ==> WellTimed(existing[i]);
    }
  }

  /** The reported conflict list is exact: each overlapping stored event appears once per
      occurrence in `existing`, no other event appears, and the order is the input order. */
  lemma ConflictListExact(start: int, end: int, existing: seq<StoredEvent>, ev: StoredEvent)
    ensures multiset(Conflicts(start, end, existing))[ev]
            == if ConflictsWith(start, end, ev) then multiset(existing)[ev] else 0
    ensures Seqs.IsSubsequence(Conflicts(start, end, existing), existing)
  {
    Seqs.FilterMultiplicity(existing, ev' => ConflictsWith(start, end, ev'), ev);
    Seqs.FilterIsSubsequence(existing, ev' => ConflictsWith(start, end, ev'));
  }

  /** When every stored event at the slot overlaps the candidate (say three bookings of the
      same room), the failure lists all of them, not just the first. */
  lemma AllOverlappingReported(d: EventDraft, existing: seq<StoredEvent>, s: int, e: int)
    requires ParseTimeToMinutes(d.startTime) == Success(s)
    requires ParseTimeToMinutes(d.endTime) == Success(e)
    requires e - s >= MinDuration
    requires |existing| > 0
    requires forall i :: 0 <= i < |existing| ==> WellTimed(existing[i]) && ConflictsWith(s, e, existing[i])
    ensures ValidateScheduling(d, existing) == Fail(TimeConflict(existing))
  {
    assert CheckTimes(d) == Success((s, e));
    Seqs.FilterKeepsAll(existing, ev => ConflictsWith(s, e, ev));
    assert Conflicts(s, e, existing) == existing;
  }

  /** An event of exactly one hour passes every check when nothing is booked. */
  lemma OneHourPasses(d: EventDraft, t: int)
    requires ParseTimeToMinutes(d.startTime) == Success(t)
    requires ParseTimeToMinutes(d.endTime) == Success(t + 60)
    ensures ValidateScheduling(d, []) == Pass
  {
    assert CheckTimes(d) == Success((t, t + 60));
  }

  /** One minute shorter than an hour fails, reporting the actual duration, 59,
      whatever is booked. */
  lemma FiftyNineMinutesFails(d: EventDraft, t: int, existing: seq<StoredEvent>)
    requires ParseTimeToMinutes(d.startTime) == Success(t)
    requires ParseTimeToMinutes(d.endTime) == Success(t + 59)
    ensures ValidateScheduling(d, existing) == Fail(TooShort(59))
  {
    var times := CheckTimes(d);
    assert times.Failure? && times.error == TooShort(59);
  }

  /** Back-to-back bookings: a candidate that starts exactly when the only stored event ends
      is placed, and so is one that ends exactly when it starts. */
  lemma BackToBackAllowed(d: EventDraft, ev: StoredEvent, a: int, b: int, c: int)
    requires ParseTimeToMinutes(d.startTime) == Success(a) && ParseTimeToMinutes(d.endTime) == Success(b)
    requires a + MinDuration <= b
    requires || (ParseTimeToMinutes(ev.startTime) == Success(b) && ParseTimeToMinutes(ev.endTime) == Success(c))
             || (ParseTimeToMinutes(ev.startTime) == Success(c) && ParseTimeToMinutes(ev.endTime) == Success(a))
    ensures ValidateScheduling(d, [ev]) == Pass
  {
    assert CheckTimes(d) == Success((a, b));
    assert !ConflictsWith(a, b, ev);
  }

  /** The canonical spellings are accepted by the parser: "09:00" reads as 540 minutes, and a
      booking spelled with them behaves as its minutes say (here: one hour from 09:00 passes). */
  lemma CanonicalTimesAccepted(d: EventDraft, t: int)
    requires 0 <= t && t + 60 < 24 * 60
    requires d.startTime == FormatTime(t) && d.endTime == FormatTime(t + 60)
    ensures ParseTimeToMinutes(FormatTime(9 * 60)) == Success(540)
    ensures ValidateScheduling(d, []) == Pass
  {
    ParseFormatRoundTrip(9 * 60);
    ParseFormatRoundTrip(t);
    ParseFormatRoundTrip(t + 60);
    OneHourPasses(d, t);
  }

  /** Two stored events collide: same date and location, both with parseable times, and
      overlapping slots. */
  predicate Collide(a: StoredEvent, b: StoredEvent) {
    && a.date == b.date && a.location == b.location
    && WellTimed(a)
    && ConflictsWith(ParseTimeToMinutes(a.startTime).value, ParseTimeToMinutes(a.endTime).value, b)
  }

  /** Conflict-freedom of a store: no two distinct stored events collide. */
  ghost predicate NoDoubleBooking(events: seq<StoredEvent>) {
    forall i, j :: 0 <= i < |events| && 0 <= j < |events| && i != j ==> !Collide(events[i], events[j])
  }

  /** Collision does not depend on which event is named first. */
  lemma CollideSymmetric(a: StoredEvent, b: StoredEvent)
    ensures Collide(a, b) <==> Collide(b, a)
  {
    if WellTimed(a) && WellTimed(b) {
      var sa, ea := ParseTimeToMinutes(a.startTime).value, ParseTimeToMinutes(a.endTime).value;
      var sb, eb := ParseTimeToMinutes(b.startTime).value, ParseTimeToMinutes(b.endTime).value;
      assert Overlaps(sa, ea, sb, eb) == Overlaps(sb, eb, sa, ea);
    }
  }

  /** One colliding pair is enough to break conflict-freedom. */
  lemma CollisionBreaksNoDoubleBooking(events: seq<StoredEvent>, i: nat, j: nat)
    requires i < |events| && j < |events| && i != j
    requires Collide(events[i], events[j])
    ensures !NoDoubleBooking(events)
  {
  }
}
