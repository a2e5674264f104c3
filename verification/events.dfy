/** Batch ingestion of an events document (`parse_and_save_events`), from the parsed list of
    `event` blocks on.

    Two passes: first every event is checked by the scheduling validator against the store
    as it was before the call; if any is rejected, the error names that event and nothing is
    written. Only then are all events saved, in document order, without a requester unit.
    Because the first pass never sees the other events of the same batch, two events of one
    batch are not checked against each other.
 */
module Events {
  import opened Wrappers
  import opened Store
  import opened Scheduling
  import Seqs

  /** The error re-raised for a rejected event: its name, date, slot, requester type and
      location, with the scheduling error as the cause. */
  datatype BatchError = BatchError(
    name: string,
    date: string,
    startTime: string,
    endTime: string,
    requesterType: string,
    location: string,
    cause: SchedError)

  function WrapError(d: EventDraft, cause: SchedError): BatchError {
    BatchError(d.name, d.date, d.startTime, d.endTime, d.requesterType, d.location, cause)
  }

  /** The scheduling check of one event against a store: the validator reads the events at
      the draft's date and location. */
  function CheckDraft(d: EventDraft, store: EventStore): Outcome<SchedError> {
    ValidateScheduling(d, EventsAt(store, d.date, d.location))
  }

  /** Index of the first event the check rejects (`|drafts|` if none is rejected). */
  function FirstRejected(drafts: seq<EventDraft>, store: EventStore): (k: nat)
    ensures k <= |drafts|
    ensures forall i :: 0 <= i < k ==> CheckDraft(drafts[i], store).Pass?
    ensures k < |drafts| ==> CheckDraft(drafts[k], store).Fail?
  {
    Seqs.FirstFailing(drafts, d => CheckDraft(d, store).Pass?)
  }

  /** The first pass: check every event, in order, against the same store; stop at the
      first rejection and report it. */
  function ValidateAll(drafts: seq<EventDraft>, store: EventStore): (r: Outcome<BatchError>)
    ensures r.Pass? <==> forall i :: 0 <= i < |drafts| ==> CheckDraft(drafts[i], store).Pass?
    ensures r.Fail? ==> var k := FirstRejected(drafts, store);
                        k < |drafts| && r.error == WrapError(drafts[k], CheckDraft(drafts[k], store).error)
  {
    var k := FirstRejected(drafts, store);
    if k < |drafts| then Fail(WrapError(drafts[k], CheckDraft(drafts[k], store).error)) else Pass
  }

  /** The second pass: save every event in order, with no requester unit. Each event gets
      the next id, the stored events are kept as they were, and ids keep increasing. */
  function SaveAll(store: EventStore, drafts: seq<EventDraft>): (r: EventStore)
    ensures |r.events| == |store.events| + |drafts|
    ensures r.events[..|store.events|] == store.events
    ensures forall k :: 0 <= k < |drafts| ==>
              r.events[|store.events| + k] == ToStored(drafts[k], store.nextId + k, None)
    ensures r.nextId == store.nextId + |drafts|
    decreases |drafts|
  {
    if |drafts| == 0 then store
    else
      var next := SaveEvent(store, drafts[0], None);
      var r := SaveAll(next, drafts[1..]);
      assert forall k :: 1 <= k < |drafts| ==> drafts[k] == drafts[1..][k - 1];
      assert r.events[..|store.events|] == next.events[..|next.events|][..|store.events|];
      r
  }

  /** Saving a batch keeps ids increasing. */
  lemma {:induction false} SaveAllKeepsIdsIncreasing(store: EventStore, drafts: seq<EventDraft>)
    requires IdsIncreasing(store)
    ensures IdsIncreasing(SaveAll(store, drafts))
    decreases |drafts|
  {
    if |drafts| > 0 {
      SaveAllKeepsIdsIncreasing(SaveEvent(store, drafts[0], None), drafts[1..]);
    }
  }

  /** `parse_and_save_events` after parsing: all-or-nothing. */
  function ParseAndSaveEvents(drafts: seq<EventDraft>, store: EventStore): (r: Result<EventStore, BatchError>)
    ensures r.Success? <==> forall i :: 0 <= i < |drafts| ==> CheckDraft(drafts[i], store).Pass?
    ensures r.Failure? ==> var k := FirstRejected(drafts, store);
                           k < |drafts| && r.error == WrapError(drafts[k], CheckDraft(drafts[k], store).error)
    ensures r.Success? ==> && |r.value.events| == |store.events| + |drafts|
                           && r.value.events[..|store.events|] == store.events
                           && r.value.nextId == store.nextId + |drafts|
    ensures r.Success? ==> forall k :: 0 <= k < |drafts| ==>
              r.value.events[|store.events| + k] == ToStored(drafts[k], store.nextId + k, None)
  {
    match ValidateAll(drafts, store)
    case Fail(e) => Failure(e)
    case Pass => Success(SaveAll(store, drafts))
  }

  /** Acceptance of a batch is decided per event: a batch is accepted exactly when each of
      its parts is, however the events of the parts relate to each other. */
  lemma BatchAcceptanceIsPerEvent(a: seq<EventDraft>, b: seq<EventDraft>, store: EventStore)
    ensures ParseAndSaveEvents(a + b, store).Success? <==>
              ParseAndSaveEvents(a, store).Success? && ParseAndSaveEvents(b, store).Success?
  {
    var ab := a + b;
    assert forall i :: 0 <= i < |a| ==> ab[i] == a[i];
    assert forall i :: 0 <= i < |b| ==> ab[|a| + i] == b[i];
    if ParseAndSaveEvents(a, store).Success? && ParseAndSaveEvents(b, store).Success? {
      forall i | 0 <= i < |ab| ensures CheckDraft(ab[i], store).Pass? {
        if i >= |a| { assert ab[i] == b[i - |a|]; }
      }
    }
  }

  /** The validator accepts a one-hour event in an empty slot. */
  lemma EmptySlotAcceptsHour(d: EventDraft, store: EventStore, t: int)
    requires EventsAt(store, d.date, d.location) == []
    requires ParseTimeToMinutes(d.startTime) == Success(t) && ParseTimeToMinutes(d.endTime) == Success(t + 60)
    ensures CheckDraft(d, store) == Pass
  {
    OneHourPasses(d, t);
  }

  /** The first of two overlapping events in one room on one day. */
  function NineToTen(): EventDraft {
    EventDraft("Seminar", "Academics", "2025-03-10", "09:00", "10:00", "Aula 1")
  }

  /** The second, overlapping the first by half an hour. */
  function HalfPastNineToHalfPastTen(): EventDraft {
    EventDraft("Club meeting", "Students", "2025-03-10", "09:30", "10:30", "Aula 1")
  }

  /** The four clock times of the pair, in minutes. */
  lemma PairTimes()
    ensures ParseTimeToMinutes("09:00") == Success(540) && ParseTimeToMinutes("10:00") == Success(600)
    ensures ParseTimeToMinutes("09:30") == Success(570) && ParseTimeToMinutes("10:30") == Success(630)
  {
    assert FormatTime(540) == "09:00" && FormatTime(600) == "10:00";
    assert FormatTime(570) == "09:30" && FormatTime(630) == "10:30";
    ParseFormatRoundTrip(540);
    ParseFormatRoundTrip(600);
    ParseFormatRoundTrip(570);
    ParseFormatRoundTrip(630);
  }

  /** Checked against the store before the batch, each event of the pair is accepted. */
  lemma PairEachAccepted(nextId: nat)
    ensures CheckDraft(NineToTen(), EventStore([], nextId)) == Pass
    ensures CheckDraft(HalfPastNineToHalfPastTen(), EventStore([], nextId)) == Pass
  {
    PairTimes();
    EmptySlotAcceptsHour(NineToTen(), EventStore([], nextId), 540);
    EmptySlotAcceptsHour(HalfPastNineToHalfPastTen(), EventStore([], nextId), 570);
  }

  /** The stored pair collides. */
  lemma PairCollides(nextId: nat)
    ensures Collide(ToStored(NineToTen(), nextId, None), ToStored(HalfPastNineToHalfPastTen(), nextId + 1, None))
  {
    PairTimes();
  }

  /** Where a batch of two lands in the store. */
  lemma SaveAllPair(store: EventStore, d1: EventDraft, d2: EventDraft)
    ensures SaveAll(store, [d1, d2]).events[|store.events|] == ToStored(d1, store.nextId, None)
    ensures SaveAll(store, [d1, d2]).events[|store.events| + 1] == ToStored(d2, store.nextId + 1, None)
  {
    var drafts := [d1, d2];
    assert SaveAll(store, drafts).events[|store.events| + 0] == ToStored(drafts[0], store.nextId + 0, None);
    assert SaveAll(store, drafts).events[|store.events| + 1] == ToStored(drafts[1], store.nextId + 1, None);
  }

  /** A batch of two passes the first pass when each of its events does. */
  lemma PairPasses(d1: EventDraft, d2: EventDraft, store: EventStore)
    requires CheckDraft(d1, store).Pass? && CheckDraft(d2, store).Pass?
    ensures ValidateAll([d1, d2], store).Pass?
  {
    assert [d1, d2][1] == d2;
  }

  /** When each of two colliding events is accepted against the store before the batch,
      the batch stores both and the resulting store is double-booked: the first pass only
      compares each event with what was stored before. */
  lemma BatchStoresCollidingPair(d1: EventDraft, d2: EventDraft, store: EventStore)
    requires CheckDraft(d1, store).Pass? && CheckDraft(d2, store).Pass?
    requires Collide(ToStored(d1, store.nextId, None), ToStored(d2, store.nextId + 1, None))
    ensures var r := ParseAndSaveEvents([d1, d2], store);
            && r.Success?
            && r.value.events[|store.events|] == ToStored(d1, store.nextId, None)
            && r.value.events[|store.events| + 1] == ToStored(d2, store.nextId + 1, None)
            && !NoDoubleBooking(r.value.events)
  {
    var drafts := [d1, d2];
    PairPasses(d1, d2, store);
    SaveAllPair(store, d1, d2);
    var n := |store.events|;
    CollisionBreaksNoDoubleBooking(SaveAll(store, drafts).events, n, n + 1);
  }

  /** The concrete pair: nine to ten and half past nine to half past ten in the same room on
      the same day, submitted together to an empty store, are both stored. */
  lemma BatchStoresOverlappingPair(nextId: nat)
    ensures var r := ParseAndSaveEvents([NineToTen(), HalfPastNineToHalfPastTen()], EventStore([], nextId));
            r.Success? && |r.value.events| == 2 && !NoDoubleBooking(r.value.events)
  {
    PairEachAccepted(nextId);
    PairCollides(nextId);
    BatchStoresCollidingPair(NineToTen(), HalfPastNineToHalfPastTen(), EventStore([], nextId));
  }
}
