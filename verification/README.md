# eventDSL validation core, modelled in Dafny

eventDSL lets an administrator describe event-request forms in a rules DSL and submit events, either in batches written in an events DSL or one at a time through an HTTP API. Every event is checked against the room bookings already stored. This project models the logic behind that:

- **Scheduling validator** (`scheduling.dfy`, on top of `pytext.dfy`). It parses `HH:MM` times the way Python's `strip`, `split(":")` and `int()` do, including `int()`'s default limit of 4300 digits, and demands `start < end` and at least 60 minutes. It then scans the events already stored for the same date and location, and reports every one that overlaps as a half-open interval.
- **Rules validator and ingestion** (`rules.dfy`). `validate_model` and `parse_rules_from_text` run over the parsed rules document. The document is valid only if:
  - the runtime is enabled;
  - requester types are unique;
  - field names are unique per form;
  - options are limited to an allow-list;
  - the five mandatory fields are present and required;
  - both Academics and Students have a form.

  The rule store is cleared and rewritten only after validation succeeds.
- **Older rules ingestion** (`legacy_rules.dfy`). It checks only the runtime flag and then rewrites the store.
- **Batch event ingestion** (`events.dfy`). It is all-or-nothing, in two passes. Every event of the batch is checked against the store as it was before the batch, never against the other events of the same batch.
- **HTTP endpoints** (`api.dfy`). `GET /form-config` projects the stored rule rows of one requester type. `POST /events` validates a single event before saving it.
- **AST-to-JSON converter** (`ast_json.dfy`). `model_to_dict` walks an object graph with a shared `visited` set, a depth limit and attribute filtering.

The supporting modules are:

- `wrappers.dfy`: `Option`, `Result`, `Outcome`.
- `seqs.dfy`: an order-preserving filter and a first-failure index.
- `store.dfy`: the SQLite tables as in-memory sequences in insertion order.

Errors are structured datatypes that carry what the program's messages report. They are not formatted strings.

Two overlapping events sent in one batch are both stored, because the first pass compares each event only with the events stored before the batch (`Events.BatchStoresCollidingPair`, `Events.BatchStoresOverlappingPair`). Sent one after the other through the API, the second is refused (`Api.SecondOverlappingCreateRejected`).

## Model

| member | source | states |
|---|---|---|
| PyText.Strip | eventdsl/validators/scheduling.py:15 | `str.strip()` yields a string with no whitespace at either end, never longer than the input; the whitespace set is a parameter, because `str.strip()` and `int()` trim different sets |
| PyText.StripIsTrimmedSlice | eventdsl/validators/scheduling.py:15 | the stripped string is a contiguous slice of the input, and every character cut away on either side is whitespace |
| PyText.StripUnchanged | eventdsl/validators/scheduling.py:15 | stripping a string that has no whitespace at either end returns it unchanged |
| PyText.StripLeftDropsSpaces | eventdsl/validators/scheduling.py:15 | `lstrip` keeps a suffix of the input and drops only whitespace |
| PyText.StripRightDropsSpaces | eventdsl/validators/scheduling.py:15 | `rstrip` keeps a prefix of the input and drops only whitespace |
| PyText.StripLeftPast | eventdsl/validators/scheduling.py:15 | `lstrip` removes exactly a whitespace prefix that ends at a non-whitespace character |
| PyText.StripRightPast | eventdsl/validators/scheduling.py:15 | `rstrip` removes exactly a whitespace suffix that starts after a non-whitespace character |
| PyText.StripAround | eventdsl/validators/scheduling.py:15 | `strip` recovers a string with non-whitespace ends from any whitespace placed around it |
| PyText.Split | eventdsl/validators/scheduling.py:15 | `split(sep)` always yields at least one piece, and no piece contains the separator |
| PyText.JoinSplit | eventdsl/validators/scheduling.py:15 | joining the pieces of a split with the separator gives back the original string |
| PyText.SplitJoin | eventdsl/validators/scheduling.py:15 | splitting the join of separator-free pieces gives back exactly those pieces |
| PyText.SplitNoSeparator | eventdsl/validators/scheduling.py:15 | a string without the separator splits into itself alone |
| PyText.SplitAfterPiece | eventdsl/validators/scheduling.py:15 | a separator-free prefix followed by the separator becomes the first piece, followed by the pieces of the rest |
| PyText.PyInt | eventdsl/validators/scheduling.py:18-19 | `int()` succeeds only on a string that is non-empty after trimming its own whitespace set, and a negative result requires a leading minus sign |
| PyText.PyIntStr | eventdsl/validators/scheduling.py:18-19 | `int(str(i)) == i` for every integer `i` of at most 4300 digits, and `int()` refuses the digits of a longer one: the value `int()` reads is the number the digits spell |
| PyText.PyIntTooManyDigits | eventdsl/validators/scheduling.py:18-19 | a string of more than 4300 digits is refused whatever its value, leading zeros included, so such an hour or minute is a format error |
| PyText.DigitCountOfDigits | eventdsl/validators/scheduling.py:18-19 | every character of a string of digits counts toward `int()`'s digit limit |
| PyText.DecimalValue | eventdsl/validators/scheduling.py:18-19 | the decimal digits of a natural number form a digit run that reads back as that number |
| PyText.RunValueSnoc | eventdsl/validators/scheduling.py:18-19 | reading one more digit multiplies the value read so far by ten and adds the digit |
| PyText.PyIntTwoDigits | eventdsl/validators/scheduling.py:18-19 | `int()` reads a zero-padded two-digit number back as that number |
| PyText.PyIntLenientSpellings | eventdsl/validators/scheduling.py:18-19 | `int()` accepts surrounding whitespace, a sign, leading zeros and single underscores between digits (" 07" is 7, "+0_5" is 5) |
| PyText.PyIntRejectedSpellings | eventdsl/validators/scheduling.py:18-19 | `int()` rejects a doubled underscore, a leading underscore and the empty string |
| PyText.IntKeepsSeparators | eventdsl/validators/scheduling.py:15-19 | `str.strip()` trims the separator character 0x1C but `int()` does not, so `int()` rejects 0x1C followed by a digit |
| Scheduling.ParseTimeToMinutes | eventdsl/validators/scheduling.py:9-26 | a parsed time lies in [0, 1440), and its two parts read back as the quotient and remainder by 60; any failure is the format error naming the input |
| Scheduling.ClockArithmetic | eventdsl/validators/scheduling.py:20-22 | an hour in [0, 24) and a minute in [0, 60) give `hour * 60 + minute` in [0, 1440), from which both are recovered |
| Scheduling.ParseTimeFailsIff | eventdsl/validators/scheduling.py:14-26 | a time is rejected exactly when it does not split into two parts, either part is not an integer, the hour is outside [0, 24) or the minute is outside [0, 60) |
| Scheduling.TimePartsOfFormat | eventdsl/validators/scheduling.py:15 | the canonical `HH:MM` spelling splits into its two-digit hour and minute |
| Scheduling.ParseFormatRoundTrip | eventdsl/validators/scheduling.py:9-22 | parsing the canonical spelling of any minute of the day gives back that minute |
| Scheduling.LenientTimeAccepted | eventdsl/validators/scheduling.py:14-22 | any two colon-separated parts that `int()` reads as an hour in [0, 24) and a minute in [0, 60) are accepted as `hour * 60 + minute`, with any whitespace around the whole string, not only the canonical `HH:MM` spelling |
| Scheduling.TimePartsAround | eventdsl/validators/scheduling.py:15-16 | whitespace around `hours:minutes` is stripped and the one colon splits it into exactly the hour and minute parts |
| Scheduling.HalfOpenOverlap | eventdsl/validators/scheduling.py:81-82 | for non-empty intervals, overlap means sharing a minute (both directions); the relation is symmetric; back-to-back intervals never overlap |
| Scheduling.FirstMalformed | eventdsl/validators/scheduling.py:66-79 | the index of the first stored event whose times do not parse: every earlier event parses and that one does not |
| Scheduling.CollectConflicts | eventdsl/validators/scheduling.py:65-88 | the scan succeeds exactly when every stored event's times parse, and then returns exactly the overlapping events in order; otherwise it fails with the format error of the first malformed event |
| Scheduling.CheckTimes | eventdsl/validators/scheduling.py:45-60 | the start's format error comes first, then the end's, then start-not-before-end, then too-short carrying the actual duration; a success is a slot of at least an hour within the day |
| Scheduling.ValidateScheduling | eventdsl/validators/scheduling.py:29-95 | a time error is reported before any stored event is looked at; a conflict error lists exactly the overlapping stored events and is never empty |
| Scheduling.ValidateSchedulingPassIff | eventdsl/validators/scheduling.py:29-95 | the validator accepts exactly the placeable candidates: both times parse, start before end, at least an hour, every stored time parses and nothing overlaps |
| Scheduling.ValidateSchedulingScan | eventdsl/validators/scheduling.py:63-95 | once the times pass, the first malformed stored event decides the error; otherwise the check fails exactly when the conflict list is non-empty, and the error carries that list |
| Scheduling.ConflictListExact | eventdsl/validators/scheduling.py:65-88 | each overlapping stored event appears in the report as often as it is stored, no other event appears, and the report keeps the stored order |
| Scheduling.AllOverlappingReported | eventdsl/validators/scheduling.py:65-95 | when every stored event at the slot overlaps, the error lists all of them, not only the first |
| Scheduling.OneHourPasses | eventdsl/validators/scheduling.py:55-60 | a one-hour event in an empty slot is accepted |
| Scheduling.FiftyNineMinutesFails | eventdsl/validators/scheduling.py:55-60 | a 59-minute event is rejected as too short, reporting 59, whatever is stored |
| Scheduling.BackToBackAllowed | eventdsl/validators/scheduling.py:81-83 | an event that starts exactly when the stored one ends, or ends exactly when it starts, is accepted |
| Scheduling.CanonicalTimesAccepted | eventdsl/validators/scheduling.py:9-22 | "09:00" reads as 540 minutes, and a one-hour booking spelled canonically is accepted in an empty slot |
| Scheduling.CollideSymmetric | eventdsl/validators/scheduling.py:81-82 | whether two stored events collide does not depend on which is named first |
| Store.SaveEvent | eventdsl/db.py:52-63 | saving appends one row carrying the draft's fields under a fresh id, leaves the earlier rows untouched and keeps ids increasing |
| Store.EventsAt | eventdsl/db.py:156-175 | the conflict query returns stored events of that date and location, and every such stored event is returned |
| Store.EventsAtAfterSave | eventdsl/db.py:52-63 | after a save, the query for the saved event's date and location gains exactly that event at the end, and every other query is unchanged |
| Store.RulesFor | eventdsl/db.py:136-154 | the per-requester rule query returns only that requester's rows, and all of them |
| Seqs.Filter | eventdsl/validators/scheduling.py:83-88 | the kept elements come from the input and satisfy the test, and every input element that satisfies it is kept |
| Seqs.FilterIsSubsequence | eventdsl/validators/scheduling.py:65-88 | filtering keeps input order |
| Seqs.FilterMultiplicity | eventdsl/validators/scheduling.py:65-88 | filtering keeps every occurrence of a kept element and none of a dropped one |
| Seqs.FilterConcat | eventdsl/db.py:156-175 | filtering distributes over concatenation |
| Seqs.FilterEmptyIff | eventdsl/validators/scheduling.py:90 | the filter is empty exactly when no element passes |
| Seqs.FilterKeepsAll | eventdsl/validators/scheduling.py:65-88 | when every element passes, the filter is the whole input |
| Seqs.FirstFailing | eventdsl/parsers/events.py:50-71 | the index of the first element failing a test: all before it pass and the one there fails |
| Rules.Names | eventdsl/parsers/rules.py:92-103 | every field's name is among the names collected for a form |
| Rules.NamesExact | eventdsl/parsers/rules.py:92-103 | every collected name belongs to some field of the form |
| Rules.Requesters | eventdsl/parsers/rules.py:78-89 | every form's requester type is among the requester types collected |
| Rules.RequestersExact | eventdsl/parsers/rules.py:78-89 | every collected requester type belongs to some form |
| Rules.CheckField | eventdsl/parsers/rules.py:94-122 | one field passes exactly when its name is new, it has options only if allowed, and it is required if mandatory; an error names the form's requester type and the field; the checks run in order, so a repeated name is always the duplicate error, the options error means the name was new, and the mandatory error means the name was new and the options were allowed |
| Rules.CheckFields | eventdsl/parsers/rules.py:94-122 | the field loop succeeds exactly when names are distinct and unseen, options appear only on allowed fields and mandatory fields are required; it returns the names seen, and an error names the form's requester type |
| Rules.CheckFieldsReportsFirstBadField | eventdsl/parsers/rules.py:94-122 | a failing field loop reports the first offending field: all fields before it are fine, and the error is that field's own error given the names declared before it |
| Rules.CheckForm | eventdsl/parsers/rules.py:91-131 | a form passes exactly when its fields are fine and all five mandatory fields are present; for otherwise fine fields, the error lists exactly the missing mandatory fields |
| Rules.CheckForms | eventdsl/parsers/rules.py:78-131 | the form loop succeeds exactly when requester types are distinct and unseen and every form passes, returning the requester types seen |
| Rules.ValidateModel | eventdsl/parsers/rules.py:59-140 | a disabled runtime fails first; the document passes exactly when it obeys every rule; for otherwise valid forms, the error lists exactly the missing requester types |
| Rules.CheckFormsSkipsGoodPrefix | eventdsl/parsers/rules.py:80-131 | after a valid prefix of forms, the loop continues exactly as if started after that prefix |
| Rules.ValidateReportsFirstBadForm | eventdsl/parsers/rules.py:80-131 | errors are reported for the first offending form in document order: a duplicate requester type, or that form's own error |
| Rules.FormRulesAllForRequester | eventdsl/parsers/rules.py:161-181 | every row written for a form carries its requester type, so the query for that type returns the form's rows whole and in order |
| Rules.ParseRulesFromText | eventdsl/parsers/rules.py:143-183 | ingestion fails exactly when the document is invalid, and then the store is unchanged and the error is the validator's; on success the count is the number of forms and the store holds exactly the rows of the document's fields, one per field, in order |
| Rules.DocumentRulesLength | eventdsl/parsers/rules.py:161-181 | the ingested store has one row per field of every form |
| Rules.DocumentRulesAt | eventdsl/parsers/rules.py:161-181 | field `j` of form `i` is written at the row after all fields of the earlier forms, with `visible`/`required` as `== "yes"` and options only when non-empty |
| Rules.RulesForAbsentRequester | eventdsl/parsers/rules.py:161-181 | a requester type without a form has no rows after ingestion |
| Rules.RulesForOneForm | eventdsl/parsers/rules.py:161-181 | with distinct requester types, a requester's rows are exactly its own form's rows, in field order |
| Rules.IngestedRulesPerRequester | eventdsl/parsers/rules.py:143-183 | after a successful ingestion, each requester type's rows are exactly its form's rows, or none when it has no form |
| Rules.IngestIdempotent | eventdsl/parsers/rules.py:158-183 | ingesting the same document again gives the same store and count: the old store plays no part |
| LegacyRules.ParseRulesFromText | parsers/rules.py:22-53 | the older ingestion fails exactly when the runtime is disabled, leaving the store unchanged; otherwise the store holds exactly the rows of the document's fields, one per field, and the count is the number of forms |
| LegacyRules.AgreesWhereCurrentAccepts | parsers/rules.py:22-53 | where the current ingestion succeeds, the older one gives the same store and count; both reject a disabled runtime identically |
| LegacyRules.LegacyStoresDuplicateField | parsers/rules.py:29-51 | the older ingestion stores a form with a duplicated field as two contradicting rows |
| LegacyRules.CurrentRejectsDuplicateField | eventdsl/parsers/rules.py:97-103 | the current ingestion rejects that document, naming the form and the field, and leaves the store unchanged |
| Events.FirstRejected | eventdsl/parsers/events.py:50-71 | the first event the scheduling check rejects: every earlier one passes |
| Events.ValidateAll | eventdsl/parsers/events.py:49-71 | the first pass succeeds exactly when every event passes against the same store; a failure names the first rejected event's fields and carries its scheduling error |
| Events.SaveAll | eventdsl/parsers/events.py:73-82 | the second pass appends every event exactly once, in order, with consecutive fresh ids and no requester unit, keeping the stored events |
| Events.SaveAllKeepsIdsIncreasing | eventdsl/parsers/events.py:73-82 | saving a batch keeps ids increasing |
| Events.ParseAndSaveEvents | eventdsl/parsers/events.py:38-84 | all-or-nothing: the batch is stored exactly when every event passes, and a failure reports the first rejected event and yields no new store |
| Events.BatchAcceptanceIsPerEvent | eventdsl/parsers/events.py:49-71 | a batch is accepted exactly when each of its parts is, however their events relate to each other |
| Events.EmptySlotAcceptsHour | eventdsl/parsers/events.py:58-66 | an event of one hour at an empty date and location passes the first pass |
| Events.PairEachAccepted | eventdsl/parsers/events.py:49-71 | 09:00-10:00 and 09:30-10:30 in the same room each pass against an empty store |
| Events.PairCollides | eventdsl/validators/scheduling.py:81-82 | once stored, those two events collide |
| Events.BatchStoresCollidingPair | eventdsl/parsers/events.py:49-82 | two colliding events that each pass against the store are both stored by one batch, leaving the store double-booked |
| Events.BatchStoresOverlappingPair | eventdsl/parsers/events.py:49-82 | the concrete overlapping pair, sent in one batch to an empty store, is stored in full and double-books the room |
| Api.LabelOrName | api_server.py:273 | the label shown is either the field name or the row's own label, and never an empty label in place of the name: it is empty only when the field name is |
| Api.VisibleFields | api_server.py:265-288 | the projection is no longer than its input, every entry is visible, and every visible row appears in it as its form entry |
| Api.VisibleFieldsExact | api_server.py:265-288 | every entry of the projection is the form entry of some visible row |
| Api.VisibleFieldsConcat | api_server.py:265-288 | the projection keeps row order: projecting two runs of rows in sequence gives the two projections in sequence |
| Api.GetFormConfig | api_server.py:244-288 | an unknown requester type is a 400, a requester type without rows is a 404, and otherwise the result is the projection of exactly that type's rows |
| Api.AllHiddenGivesEmptyList | api_server.py:268-271 | when every row is hidden, the configuration is an empty list, not a 404 |
| Api.VisibleFieldsOfForm | api_server.py:268-286 | the endpoint's projection of a form's stored rows equals the view read directly off the form: visible fields in order, the label falling back to the name, options only when non-empty |
| Api.FormConfigAfterIngest | api_server.py:244-288 | after a successful rules ingestion, the configuration for Academics and for Students is exactly the visible fields of that type's form, and never a 404 |
| Api.CreateEvent | api_server.py:320-354 | a requester type outside Academics/Students is a 422; an event is saved exactly when it is placeable, appended with the next id and its requester unit; otherwise the result is a 400 carrying exactly the validator's error for the stored events of that date and location |
| Api.PlacedCollidesWithNothing | api_server.py:327-337 | an event accepted by the validator collides with no stored event, in either order |
| Api.SavePlacedKeepsNoDoubleBooking | api_server.py:327-354 | saving an accepted event keeps a conflict-free store conflict-free |
| Api.CreateEventKeepsNoDoubleBooking | api_server.py:320-354 | creating events one at a time never double-books a room |
| Api.SecondOverlappingCreateRejected | api_server.py:327-337 | a request overlapping an event created just before, in the same room on the same day, is refused with a 400 |
| AstJson.ToDict | api_server.py:126-207 | `None` is null at any depth; past the limit every other value is the depth marker; primitives are unchanged; lists keep their length; a visited object is the circular marker; a new object is marked visited and lists its class name, then exactly its kept attribute names in order; the output depth is bounded |
| AstJson.ObjectToDict | api_server.py:176-204 | a visited object becomes the circular marker; otherwise it is marked visited and becomes its class name followed by exactly its kept attributes |
| AstJson.ListToDict | api_server.py:164-173 | a list converts to one item per element, never unmarks a visited object, and its nesting is bounded by the remaining depth |
| AstJson.AttrsToDict | api_server.py:190-202 | the members are the attributes in order with names starting with `_` and `parent`, `parent_obj`, `parent_ref` dropped |
| AstJson.ModelToDict | api_server.py:126-131 | with the default limit of 20 the output tree is at most 22 levels deep, whatever the object graph |
| AstJson.RepeatedObjectIsCircular | api_server.py:180-186 | an object listed twice, with no cycle, is converted in full the first time and becomes the circular marker the second time |
| AstJson.SelfReferenceStops | api_server.py:176-204 | an object whose only attribute points to itself converts to its class name plus that attribute as the circular marker |
| AstJson.ListToDictItems | api_server.py:164-173 | item `i` of a converted list is item `i` converted at the same depth, seeing exactly the objects visited by converting the items before it |
| AstJson.ToDictListItems | api_server.py:160-173 | a list within the depth limit converts to an array of the same length whose item `i` is item `i` converted one level deeper, after the items before it |
| AstJson.AttrsAsList | api_server.py:190-202 | converting the attributes gives the same values, and visits the same objects, as converting the list of kept values |
| AstJson.AttrsToDictMembers | api_server.py:190-202 | member `k` carries the `k`-th kept attribute's name and its value converted at the same depth, after the kept attributes before it |
| AstJson.ObjectToDictMembers | api_server.py:176-204 | a new object within the limit lists its class name and then, for each kept attribute in order, its value converted one level deeper with the object itself already marked visited |
| AstJson.PrimitiveListKept | api_server.py:160-173 | a list of primitives within the depth limit comes back item for item, and marks nothing visited |

## Left out

- Parsing: the textX grammars and `model_from_str` / `model_from_file` are foreign code. The model starts from the parsed document (`Rules.Document`, a sequence of `EventDraft`s, an object heap). Syntax errors and their 400 responses are not modelled.
- SQLite: the database is an in-memory value.
  - The `json.dumps`/`json.loads` encoding of options is taken as the identity.
  - The 500 responses for database errors are not modelled.
  - Each call is atomic; concurrent requests, and the race between validating and saving, are not modelled.
- Store.EventsAt: the storage query's `ORDER BY start_time` is not modelled. It returns the events in insertion order instead. That order decides the order of the reported conflict list and, when two or more stored events of the slot have malformed times, which of them the format error names.
- Store.EventsAt: the storage query's `campus_id` argument is not modelled. The validator calls the query with date and location only. The storage layer also expects a `campus_id` and has no requester-unit column. That schema mismatch is not part of this model.
- Store.SaveEvent: `save_event` has a `campus_id` parameter and no `requester_unit` parameter. The model follows its callers: a requester unit is stored, and no campus.
- PyText.PyInt: only ASCII digits are accepted. Python's `int()` also takes other Unicode decimal digits.
- PyText.PyInt: the digit limit is fixed at Python's default of 4300. A process that changes it (`sys.set_int_max_str_digits`, `PYTHONINTMAXSTRDIGITS`) is not modelled.
- PyText.Str: `str()` of an integer with more than 4300 digits raises in Python; `Str` yields the digits regardless, so `PyIntStr` states what `int()` does with them.
- Scheduling.ValidateScheduling: messages are structured errors rather than text. The conflict lines' formatting (id, date, times, name, requester, unit, location) is left out.
- Api.CreateEvent: the record it returns is not modelled. The endpoint returns the last row of the event list ordered by date and start time, which need not be the event just inserted.
- Api.CreateEvent: the pydantic pattern `^(Academics|Students)$` is modelled as membership in that two-element set.
- Api.GetFormConfig: HTTP routing, response-model serialisation and CORS are not modelled.
- AstJson.ToDict: Python object identity (`id()`) is a node number, and the heap must be closed (every reference resolves), as it always is for live Python objects.
  - A float is kept as its text.
  - Tuples are treated as lists.
  - Any value that is not None, a primitive, a list or an object with a `__dict__` is its `str()` text, given as part of the input.
- Rules.ValidateModel: the sorted, comma-joined lists of missing fields and missing requester types in the messages are modelled as sets.
- The `debug_print_rules` helpers, the GUI, the command-line entry points and the older `parsers/events.py` loader are not part of this model. They are printing, widgets and path setup.
