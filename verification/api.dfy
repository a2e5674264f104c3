/** The two HTTP endpoints that carry domain logic: the form configuration served to the
    front end (`GET /form-config`) and the creation of a single event (`POST /events`).
    An HTTP error is its status code and a structured reason instead of a message text.
 */
module Api {
  import opened Wrappers
  import opened Store
  import opened Scheduling
  import Rules

  /** The requester types both endpoints accept. */
  const ApiRequesterTypes: set<string> := {"Academics", "Students"}

  /** One entry of the form configuration sent to the front end. */
  datatype FormField = FormField(
    fieldName: string,
    fieldLabel: string,
    visible: bool,
    required: bool,
    options: Option<seq<string>>)

  datatype ApiError =
    | InvalidRequester
    | NoFormRules(requesterType: string)
    | PayloadRejected
    | SchedulingRejected(cause: SchedError)

  datatype HttpError = HttpError(status: int, reason: ApiError)

  /** The label shown for a row: its label, or the field name when the label is absent or empty. */
  function LabelOrName(row: FieldRule): (r: string)
    ensures r == row.fieldName || row.fieldLabel == Some(r)
    ensures r == "" ==> row.fieldName == ""
    ensures r != row.fieldName ==> r != ""
  {
    if row.fieldLabel.None? || row.fieldLabel.value == "" then row.fieldName else row.fieldLabel.value
  }

  function ToFormField(row: FieldRule): FormField {
    FormField(row.fieldName, LabelOrName(row), row.visible, row.required, row.options)
  }

  /** The loop over the rows of one requester type: invisible rows are skipped, the others
      become form entries in row order. */
  function VisibleFields(rows: seq<FieldRule>): (r: seq<FormField>)
    ensures |r| <= |rows|
    ensures forall k :: 0 <= k < |r| ==> r[k].visible
    ensures forall i :: 0 <= i < |rows| && rows[i].visible ==> ToFormField(rows[i]) in r
    decreases |rows|
  {
    if |rows| == 0 then []
    else if rows[0].visible then [ToFormField(rows[0])] + VisibleFields(rows[1..])
    else VisibleFields(rows[1..])
  }

  /** Every entry comes from a visible row. */
  lemma {:induction false} VisibleFieldsExact(rows: seq<FieldRule>, k: nat)
    requires k < |VisibleFields(rows)|
    ensures exists i :: 0 <= i < |rows| && rows[i].visible && VisibleFields(rows)[k] == ToFormField(rows[i])
    decreases |rows|
  {
    var rest := rows[1..];
    if rows[0].visible && k == 0 {
      assert VisibleFields(rows)[0] == ToFormField(rows[0]);
    } else {
      var k' := if rows[0].visible then k - 1 else k;
      assert VisibleFields(rows)[k] == VisibleFields(rest)[k'];
      VisibleFieldsExact(rest, k');
      var i :| 0 <= i < |rest| && rest[i].visible && VisibleFields(rest)[k'] == ToFormField(rest[i]);
      assert rows[i + 1] == rest[i];
    }
  }

  /** The projection keeps row order: projecting two runs of rows one after the other gives
      the two projections one after the other. */
  lemma {:induction false} VisibleFieldsConcat(a: seq<FieldRule>, b: seq<FieldRule>)
    ensures VisibleFields(a + b) == VisibleFields(a) + VisibleFields(b)
    decreases |a|
  {
    if |a| > 0 {
      assert (a + b)[0] == a[0];
      assert (a + b)[1..] == a[1..] + b;
      VisibleFieldsConcat(a[1..], b);
    } else {
      assert a + b == b;
    }
  }

  /** `GET /form-config`: an unknown requester type is a 400, a requester type without rows
      is a 404, otherwise the visible fields in rule order. */
  function GetFormConfig(requesterType: string, rules: seq<FieldRule>): (r: Result<seq<FormField>, HttpError>)
    ensures requesterType !in ApiRequesterTypes ==> r == Failure(HttpError(400, InvalidRequester))
    ensures requesterType in ApiRequesterTypes && RulesFor(rules, requesterType) == []
            ==> r == Failure(HttpError(404, NoFormRules(requesterType)))
    ensures r.Success? <==> requesterType in ApiRequesterTypes && RulesFor(rules, requesterType) != []
    ensures r.Success? ==> |r.value| <= |RulesFor(rules, requesterType)|
    ensures r.Success? ==> forall k :: 0 <= k < |r.value| ==> r.value[k].visible
    ensures r.Success? ==> r.value == VisibleFields(RulesFor(rules, requesterType))
  {
    if requesterType !in ApiRequesterTypes then Failure(HttpError(400, InvalidRequester))
    else
      var rows := RulesFor(rules, requesterType);
      if |rows| == 0 then Failure(HttpError(404, NoFormRules(requesterType)))
      else Success(VisibleFields(rows))
  }

  /** When every row of a requester type is hidden, the configuration is an empty list, not a 404. */
  lemma {:induction false} AllHiddenGivesEmptyList(rows: seq<FieldRule>)
    requires forall k :: 0 <= k < |rows| ==> !rows[k].visible
    ensures VisibleFields(rows) == []
    decreases |rows|
  {
    if |rows| > 0 {
      AllHiddenGivesEmptyList(rows[1..]);
    }
  }

  /** What the front end should see for one declared field, read directly off the rules
      document: the field's name, its label or else its name, shown, required when declared
      `required = yes`, and its options when it has any. */
  function FieldView(f: Rules.Field): FormField {
    FormField(
      f.name,
      if f.fieldLabel.None? || f.fieldLabel.value == "" then f.name else f.fieldLabel.value,
      true,
      f.required == "yes",
      if |f.options| > 0 then Some(f.options) else None)
  }

  /** The fields of a form declared `visible = yes`, in declaration order, as the front end
      should see them. */
  function FormView(fields: seq<Rules.Field>): seq<FormField> {
    if |fields| == 0 then []
    else if fields[0].visible == "yes" then [FieldView(fields[0])] + FormView(fields[1..])
    else FormView(fields[1..])
  }

  /** The stored rows of a form, filtered and projected by the endpoint, give the view read
      off the document. */
  lemma {:induction false} VisibleFieldsOfForm(requester: string, fields: seq<Rules.Field>)
    ensures VisibleFields(Rules.FormRules(Rules.Form(requester, fields))) == FormView(fields)
    decreases |fields|
  {
    var rows := Rules.FormRules(Rules.Form(requester, fields));
    if |fields| > 0 {
      VisibleFieldsOfForm(requester, fields[1..]);
      assert rows[1..] == Rules.FormRules(Rules.Form(requester, fields[1..]));
    }
  }

  /** End to end: after a rules document is ingested, the configuration served for each of
      Academics and Students is exactly the visible fields of that requester type's form,
      in declaration order; it is never a 404. */
  lemma FormConfigAfterIngest(doc: Rules.Document, oldRules: seq<FieldRule>, requesterType: string)
    requires Rules.ParseRulesFromText(doc, oldRules).outcome.Success?
    requires requesterType in ApiRequesterTypes
    ensures GetFormConfig(requesterType, Rules.ParseRulesFromText(doc, oldRules).rules).Success?
    ensures forall i :: 0 <= i < |doc.forms| && doc.forms[i].requester == requesterType ==>
              GetFormConfig(requesterType, Rules.ParseRulesFromText(doc, oldRules).rules) == Success(FormView(doc.forms[i].fields))
  {
    var rules := Rules.ParseRulesFromText(doc, oldRules).rules;
    assert Rules.DocumentOk(doc);
    assert requesterType in Rules.Requesters(doc.forms);
    Rules.RequestersExact(doc.forms, requesterType);
    var i :| 0 <= i < |doc.forms| && doc.forms[i].requester == requesterType;
    Rules.IngestedRulesPerRequester(doc, oldRules, requesterType);
    var form := doc.forms[i];
    assert Rules.FormOk(form);
    assert "event_name" in Rules.Names(form.fields);
    assert |Rules.FormRules(form)| > 0;
    forall j | 0 <= j < |doc.forms| && doc.forms[j].requester == requesterType
      ensures GetFormConfig(requesterType, rules) == Success(FormView(doc.forms[j].fields))
    {
      VisibleFieldsOfForm(requesterType, doc.forms[j].fields);
      assert doc.forms[j] == Rules.Form(requesterType, doc.forms[j].fields);
    }
  }

  /** The body of `POST /events`. */
  datatype EventCreate = EventCreate(
    requesterType: string,
    name: string,
    date: string,
    startTime: string,
    endTime: string,
    location: string,
    requesterUnit: Option<string>)

  function Draft(p: EventCreate): EventDraft {
    EventDraft(p.name, p.requesterType, p.date, p.startTime, p.endTime, p.location)
  }

  /** `POST /events`: a requester type outside Academics/Students is refused by payload
      validation (422); a scheduling rejection is a 400 carrying the validator's error;
      otherwise the event is saved with its requester unit. */
  function CreateEvent(p: EventCreate, store: EventStore): (r: Result<EventStore, HttpError>)
    ensures p.requesterType !in ApiRequesterTypes ==> r == Failure(HttpError(422, PayloadRejected))
    ensures r.Success? <==> p.requesterType in ApiRequesterTypes
                            && Placeable(Draft(p), EventsAt(store, p.date, p.location))
    ensures r.Failure? && p.requesterType in ApiRequesterTypes ==>
              r.error == HttpError(400, SchedulingRejected(ValidateScheduling(Draft(p), EventsAt(store, p.date, p.location)).error))
    ensures r.Success? ==> && |r.value.events| == |store.events| + 1
                           && r.value.events[..|store.events|] == store.events
                           && r.value.events[|store.events|] == ToStored(Draft(p), store.nextId, p.requesterUnit)
  {
    if p.requesterType !in ApiRequesterTypes then Failure(HttpError(422, PayloadRejected))
    else
      var slot := EventsAt(store, p.date, p.location);
      ValidateSchedulingPassIff(Draft(p), slot);
      match ValidateScheduling(Draft(p), slot)
      case Fail(e) => Failure(HttpError(400, SchedulingRejected(e)))
      case Pass => Success(SaveEvent(store, Draft(p), p.requesterUnit))
  }

  /** An event placeable in its slot collides with no stored event. */
  lemma PlacedCollidesWithNothing(d: EventDraft, store: EventStore, id: nat, unit: Option<string>, k: nat)
    requires Placeable(d, EventsAt(store, d.date, d.location))
    requires k < |store.events|
    ensures !Collide(ToStored(d, id, unit), store.events[k])
    ensures !Collide(store.events[k], ToStored(d, id, unit))
  {
    var ev := store.events[k];
    var placed := ToStored(d, id, unit);
    if ev.date == d.date && ev.location == d.location {
      var slot := EventsAt(store, d.date, d.location);
      assert ev in slot;
      var m :| 0 <= m < |slot| && slot[m] == ev;
      assert !ConflictsWith(ParseTimeToMinutes(d.startTime).value, ParseTimeToMinutes(d.endTime).value, slot[m]);
    }
    CollideSymmetric(placed, ev);
  }

  /** Appending an event that is placeable in its slot keeps a conflict-free store conflict-free. */
  lemma SavePlacedKeepsNoDoubleBooking(store: EventStore, d: EventDraft, unit: Option<string>)
    requires NoDoubleBooking(store.events)
    requires Placeable(d, EventsAt(store, d.date, d.location))
    ensures NoDoubleBooking(SaveEvent(store, d, unit).events)
  {
    var evs := SaveEvent(store, d, unit).events;
    var n := |store.events|;
    forall i, j | 0 <= i < |evs| && 0 <= j < |evs| && i != j
      ensures !Collide(evs[i], evs[j])
    {
      if i < n && j < n {
        assert evs[i] == store.events[i] && evs[j] == store.events[j];
      } else if i == n {
        assert evs[j] == store.events[j];
        PlacedCollidesWithNothing(d, store, store.nextId, unit, j);
      } else {
        assert evs[i] == store.events[i];
        PlacedCollidesWithNothing(d, store, store.nextId, unit, i);
      }
    }
  }

  /** Creating events one at a time keeps the store conflict-free: every accepted event is
      checked against everything stored before it. */
  lemma CreateEventKeepsNoDoubleBooking(p: EventCreate, store: EventStore)
    requires NoDoubleBooking(store.events)
    ensures CreateEvent(p, store).Success? ==> NoDoubleBooking(CreateEvent(p, store).value.events)
  {
    if CreateEvent(p, store).Success? {
      SavePlacedKeepsNoDoubleBooking(store, Draft(p), p.requesterUnit);
      assert CreateEvent(p, store).value == SaveEvent(store, Draft(p), p.requesterUnit);
    }
  }

  /** Of two overlapping requests for the same room and day, submitted one after the other,
      the second is refused with a 400, unlike the same pair in one batch. */
  lemma SecondOverlappingCreateRejected(p1: EventCreate, p2: EventCreate, store: EventStore, s: int, e: int)
    requires CreateEvent(p1, store).Success?
    requires p2.requesterType in ApiRequesterTypes
    requires p2.date == p1.date && p2.location == p1.location
    requires ParseTimeToMinutes(p2.startTime) == Success(s) && ParseTimeToMinutes(p2.endTime) == Success(e)
    requires Overlaps(s, e, ParseTimeToMinutes(p1.startTime).value, ParseTimeToMinutes(p1.endTime).value)
    ensures var r := CreateEvent(p2, CreateEvent(p1, store).value);
            r.Failure? && r.error.status == 400
  {
    var store1 := CreateEvent(p1, store).value;
    var first := store1.events[|store.events|];
    var slot := EventsAt(store1, p2.date, p2.location);
    assert first == ToStored(Draft(p1), store.nextId, p1.requesterUnit);
    assert first in slot;
    var m :| 0 <= m < |slot| && slot[m] == first;
    assert ConflictsWith(s, e, slot[m]);
  }
}
