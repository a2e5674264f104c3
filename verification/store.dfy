/** The storage collaborator, as an in-memory value.

    The SQLite tables become sequences in insertion (`id`) order:
    - the `events` table is an `EventStore`; `save_event` appends with the next
      AUTOINCREMENT id, and the date/location conflict query is an order-preserving filter;
    - the `form_fields` table is a `seq<FieldRule>`; `clear_form_rules` empties it,
      `save_form_field_rule` appends, and the per-requester query (`ORDER BY id`) filters it.
    The `json.dumps`/`json.loads` encoding of a rule's options is treated as the identity.
 */
module Store {
  import opened Wrappers
  import Seqs

  /** An event as it comes out of the `events` table, in the order the scheduling
      validator unpacks a row: id, name, requester type, date, start, end, location, unit. */
  datatype StoredEvent = StoredEvent(
    id: nat,
    name: string,
    requesterType: string,
    date: string,
    startTime: string,
    endTime: string,
    location: string,
    requesterUnit: Option<string>)

  /** A candidate event before it is stored: one `event` block of the events DSL,
      or the scheduling-relevant fields of an API payload. */
  datatype EventDraft = EventDraft(
    name: string,
    requesterType: string,
    date: string,
    startTime: string,
    endTime: string,
    location: string)

  /** The `events` table: rows in insertion order and the next AUTOINCREMENT id. */
  datatype EventStore = EventStore(events: seq<StoredEvent>, nextId: nat)

  /** Ids grow strictly in insertion order and are all below the next id to hand out. */
  ghost predicate IdsIncreasing(store: EventStore) {
    && (forall i :: 0 <= i < |store.events| ==> store.events[i].id < store.nextId)
    && (forall i, j :: 0 <= i < j < |store.events| ==> store.events[i].id < store.events[j].id)
  }

  /** The row `save_event` writes for a draft under a given id. */
  function ToStored(d: EventDraft, id: nat, unit: Option<string>): StoredEvent {
    StoredEvent(id, d.name, d.requesterType, d.date, d.startTime, d.endTime, d.location, unit)
  }

  /** `save_event`: append one row carrying the draft's fields under a fresh id;
      the rows already stored are untouched and the id invariant is kept. */
  function SaveEvent(store: EventStore, d: EventDraft, unit: Option<string>): (r: EventStore)
    ensures |r.events| == |store.events| + 1
    ensures r.events[..|store.events|] == store.events
    ensures r.events[|store.events|] == ToStored(d, store.nextId, unit)
    ensures r.nextId > store.nextId
    ensures IdsIncreasing(store) ==> IdsIncreasing(r)
    ensures IdsIncreasing(store) ==> forall i :: 0 <= i < |store.events| ==> store.events[i].id != r.events[|store.events|].id
  {
    EventStore(store.events + [ToStored(d, store.nextId, unit)], store.nextId + 1)
  }

  predicate AtDateLocation(ev: StoredEvent, date: string, location: string) {
    ev.date == date && ev.location == location
  }

  /** The conflict query: the stored events on one date at one location, in store order. */
  function EventsAt(store: EventStore, date: string, location: string): (r: seq<StoredEvent>)
    ensures forall i :: 0 <= i < |r| ==> r[i] in store.events && r[i].date == date && r[i].location == location
    ensures forall i :: 0 <= i < |store.events| && store.events[i].date == date && store.events[i].location == location
                        ==> store.events[i] in r
  {
    Seqs.Filter(store.events, ev => AtDateLocation(ev, date, location))
  }

  /** Saving an event extends the conflict query of its own date and location by exactly that
      event, and leaves every other date/location query as it was. */
  lemma EventsAtAfterSave(store: EventStore, d: EventDraft, unit: Option<string>, date: string, location: string)
    ensures EventsAt(SaveEvent(store, d, unit), date, location)
         == EventsAt(store, date, location)
            + (if d.date == date && d.location == location then [ToStored(d, store.nextId, unit)] else [])
  {
    Seqs.FilterConcat(store.events, [ToStored(d, store.nextId, unit)], ev => AtDateLocation(ev, date, location));
  }

  /** A row of the `form_fields` table. `options` is `None` for a NULL `options_json`. */
  datatype FieldRule = FieldRule(
    requesterType: string,
    fieldName: string,
    visible: bool,
    required: bool,
    fieldLabel: Option<string>,
    options: Option<seq<string>>)

  predicate ForRequester(row: FieldRule, requesterType: string) {
    row.requesterType == requesterType
  }

  /** `get_form_rules_for_requester`: the rows of one requester type in insertion order. */
  function RulesFor(rules: seq<FieldRule>, requesterType: string): (r: seq<FieldRule>)
    ensures forall i :: 0 <= i < |r| ==> r[i] in rules && r[i].requesterType == requesterType
    ensures forall i :: 0 <= i < |rules| && rules[i].requesterType == requesterType ==> rules[i] in r
  {
    Seqs.Filter(rules, row => ForRequester(row, requesterType))
  }
}
