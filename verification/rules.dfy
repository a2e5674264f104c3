/** The rules DSL after parsing: its semantic validator (`validate_model`) and rule-set
    ingestion (`parse_rules_from_text`), which validates first and only then replaces the
    stored rule set.

    The AST keeps the DSL's `yes`/`no` words as strings, because the validator and the
    ingestion compare them with `"yes"`. An absent `options` list and an empty one are the
    same value here (an empty sequence), which is how the code treats them.
 */
module Rules {
  import opened Wrappers
  import opened Store
  import Seqs

  /** One field block of an `event_form`. */
  datatype Field = Field(
    name: string,
    visible: string,
    required: string,
    fieldLabel: Option<string>,
    options: seq<string>)

  /** `event_form <requester type> { ... }`. */
  datatype Form = Form(requester: string, fields: seq<Field>)

  /** The whole document: the `initialize_runtime` word and the forms in order. */
  datatype Document = Document(status: string, forms: seq<Form>)

  /** Fields that every form must define, each with `required = yes`. */
  const MandatoryFields: set<string> := {"event_name", "event_date", "start_time", "end_time", "location"}

  /** The only fields allowed to carry a non-empty `options` list. */
  const AllowedOptionFields: set<string> := {"location", "requester_unit"}

  /** Requester types that must each have a form. */
  const RequiredRequesterTypes: set<string> := {"Academics", "Students"}

  /** The semantic errors, in the order the validator looks for them. Every error about one
      form carries that form's requester type. */
  datatype RuleError =
    | RuntimeDisabled
    | DuplicateRequester(requester: string)
    | DuplicateField(requester: string, fieldName: string)
    | OptionsNotAllowed(requester: string, fieldName: string)
    | MandatoryNotRequired(requester: string, fieldName: string)
    | MissingMandatory(requester: string, missing: set<string>)
    | MissingForms(missingTypes: set<string>)

  // ---------------------------------------------------------------------------
  // The declarative rules a valid document obeys
  // ---------------------------------------------------------------------------

  /** The names of a list of fields. */
  function Names(fields: seq<Field>): (r: set<string>)
    ensures forall i :: 0 <= i < |fields| ==> fields[i].name in r
  {
    if |fields| == 0 then {} else {fields[0].name} + Names(fields[1..])
  }

  /** The requester types of a list of forms. */
  function Requesters(forms: seq<Form>): (r: set<string>)
    ensures forall i :: 0 <= i < |forms| ==> forms[i].requester in r
  {
    if |forms| == 0 then {} else {forms[0].requester} + Requesters(forms[1..])
  }

  /** `Requesters` holds nothing but the forms' requester types. */
  lemma {:induction false} RequestersExact(forms: seq<Form>, x: string)
    requires x in Requesters(forms)
    ensures exists i :: 0 <= i < |forms| && forms[i].requester == x
    decreases |forms|
  {
    if x != forms[0].requester {
      RequestersExact(forms[1..], x);
      var i :| 0 <= i < |forms[1..]| && forms[1..][i].requester == x;
      assert forms[i + 1].requester == x;
    }
  }

  /** `Names` holds nothing but the fields' names. */
  lemma {:induction false} NamesExact(fields: seq<Field>, x: string)
    requires x in Names(fields)
    ensures exists i :: 0 <= i < |fields| && fields[i].name == x
    decreases |fields|
  {
    if x != fields[0].name {
      NamesExact(fields[1..], x);
      var i :| 0 <= i < |fields[1..]| && fields[1..][i].name == x;
      assert fields[i + 1].name == x;
    }
  }

  /** One field on its own: options only where allowed, mandatory fields required. */
  predicate FieldOk(f: Field) {
    && (|f.options| > 0 ==> f.name in AllowedOptionFields)
    && (f.name in MandatoryFields ==> f.required == "yes")
  }

  /** Fields with pairwise distinct names, none already in `seen`, each fine on its own. */
  ghost predicate FieldsOk(fields: seq<Field>, seen: set<string>) {
    && (forall i :: 0 <= i < |fields| ==> fields[i].name !in seen && FieldOk(fields[i]))
    && (forall i, j :: 0 <= i < j < |fields| ==> fields[i].name != fields[j].name)
  }

  /** A form obeys the per-form rules: its fields are fine and every mandatory field is present. */
  ghost predicate FormOk(form: Form) {
    FieldsOk(form.fields, {}) && MandatoryFields <= Names(form.fields)
  }

  /** Forms with pairwise distinct requester types, none already in `seen`, each fine. */
  ghost predicate FormsOk(forms: seq<Form>, seen: set<string>) {
    && (forall i :: 0 <= i < |forms| ==> forms[i].requester !in seen && FormOk(forms[i]))
    && (forall i, j :: 0 <= i < j < |forms| ==> forms[i].requester != forms[j].requester)
  }

  /** A document the validator must accept. */
  ghost predicate DocumentOk(doc: Document) {
    && doc.status == "yes"
    && FormsOk(doc.forms, {})
    && RequiredRequesterTypes <= Requesters(doc.forms)
  }

  // ---------------------------------------------------------------------------
  // validate_model
  // ---------------------------------------------------------------------------

  /** `FieldsOk` read one field at a time. */
  lemma FieldsOkCons(fields: seq<Field>, seen: set<string>)
    requires |fields| > 0
    ensures FieldsOk(fields, seen) <==>
              && fields[0].name !in seen && FieldOk(fields[0])
              && FieldsOk(fields[1..], seen + {fields[0].name})
  {
    var tail := fields[1..];
    assert forall i :: 0 <= i < |tail| ==> tail[i] == fields[i + 1];
    if fields[0].name !in seen && FieldOk(fields[0]) && FieldsOk(tail, seen + {fields[0].name}) {
      forall i, j | 0 <= i < j < |fields| ensures fields[i].name != fields[j].name {
        if i > 0 { assert tail[i - 1].name != tail[j - 1].name; }
      }
    }
    if FieldsOk(fields, seen) {
      forall i | 0 <= i < |tail| ensures tail[i].name != fields[0].name {
        assert fields[0].name != fields[i + 1].name;
      }
    }
  }

  /** `FormsOk` read one form at a time. */
  lemma FormsOkCons(forms: seq<Form>, seen: set<string>)
    requires |forms| > 0
    ensures FormsOk(forms, seen) <==>
              && forms[0].requester !in seen && FormOk(forms[0])
              && FormsOk(forms[1..], seen + {forms[0].requester})
  {
    var tail := forms[1..];
    assert forall i :: 0 <= i < |tail| ==> tail[i] == forms[i + 1];
    if forms[0].requester !in seen && FormOk(forms[0]) && FormsOk(tail, seen + {forms[0].requester}) {
      forall i, j | 0 <= i < j < |forms| ensures forms[i].requester != forms[j].requester {
        if i > 0 { assert tail[i - 1].requester != tail[j - 1].requester; }
      }
    }
    if FormsOk(forms, seen) {
      forall i | 0 <= i < |tail| ensures tail[i].requester != forms[0].requester {
        assert forms[0].requester != forms[i + 1].requester;
      }
    }
  }

  /** The checks on one field, given the names of the fields before it: the duplicate check,
      then the options check, then the mandatory-required check. */
  function CheckField(requester: string, f: Field, seen: set<string>): (r: Outcome<RuleError>)
    ensures r.Pass? <==> f.name !in seen && FieldOk(f)
    ensures r.Fail? ==> && (r.error.DuplicateField? || r.error.OptionsNotAllowed? || r.error.MandatoryNotRequired?)
                        && r.error.requester == requester && r.error.fieldName == f.name
    ensures f.name in seen ==> r == Fail(DuplicateField(requester, f.name))
    ensures r.Fail? && r.error.OptionsNotAllowed? ==> f.name !in seen && |f.options| > 0 && f.name !in AllowedOptionFields
    ensures r.Fail? && r.error.MandatoryNotRequired? ==>
              && f.name !in seen && (|f.options| == 0 || f.name in AllowedOptionFields)
              && f.name in MandatoryFields && f.required != "yes"
  {
    if f.name in seen then Fail(DuplicateField(requester, f.name))
    else if |f.options| > 0 && f.name !in AllowedOptionFields then Fail(OptionsNotAllowed(requester, f.name))
    else if f.name in MandatoryFields && f.required != "yes" then Fail(MandatoryNotRequired(requester, f.name))
    else Pass
  }

  /** The loop over one form's fields, in order. Yields the names seen. */
  function CheckFields(requester: string, fields: seq<Field>, seen: set<string>): (r: Result<set<string>, RuleError>)
    ensures r.Success? <==> FieldsOk(fields, seen)
    ensures r.Success? ==> r.value == seen + Names(fields)
    ensures r.Failure? ==> (r.error.DuplicateField? || r.error.OptionsNotAllowed? || r.error.MandatoryNotRequired?)
                           && r.error.requester == requester
    decreases |fields|
  {
    if |fields| == 0 then Success(seen)
    else
      var f := fields[0];
      FieldsOkCons(fields, seen);
      match CheckField(requester, f, seen)
      case Fail(e) => Failure(e)
      case Pass => CheckFields(requester, fields[1..], seen + {f.name})
  }

  /** A failing field loop reports the first field that fails its checks: the fields before it
      are all fine, and the error is that field's own error given the names before it. */
  lemma {:induction false} CheckFieldsReportsFirstBadField(requester: string, fields: seq<Field>, seen: set<string>)
    requires CheckFields(requester, fields, seen).Failure?
    ensures exists k :: 0 <= k < |fields| && FieldsOk(fields[..k], seen)
                        && CheckField(requester, fields[k], seen + Names(fields[..k]))
                           == Fail(CheckFields(requester, fields, seen).error)
    decreases |fields|
  {
    var r := CheckFields(requester, fields, seen);
    var f := fields[0];
    if CheckField(requester, f, seen).Fail? {
      assert fields[..0] == [];
      assert seen + Names(fields[..0]) == seen;
    } else {
      var rest := fields[1..];
      var seen' := seen + {f.name};
      CheckFieldsReportsFirstBadField(requester, rest, seen');
      var k :| 0 <= k < |rest| && FieldsOk(rest[..k], seen')
               && CheckField(requester, rest[k], seen' + Names(rest[..k])) == Fail(r.error);
      var prefix := fields[..k + 1];
      assert prefix[0] == f;
      assert prefix[1..] == rest[..k];
      FieldsOkCons(prefix, seen);
      assert seen' + Names(rest[..k]) == seen + Names(prefix);
      assert fields[k + 1] == rest[k];
    }
  }

  /** The per-form checks: the field loop, then the presence of every mandatory field. */
  function CheckForm(form: Form): (r: Outcome<RuleError>)
    ensures r.Pass? <==> FormOk(form)
    ensures r.Fail? ==> !r.error.RuntimeDisabled? && !r.error.DuplicateRequester? && !r.error.MissingForms?
                        && r.error.requester == form.requester
    ensures FieldsOk(form.fields, {}) && !(MandatoryFields <= Names(form.fields))
            ==> r == Fail(MissingMandatory(form.requester, MandatoryFields - Names(form.fields)))
    ensures CheckFields(form.requester, form.fields, {}).Failure?
            ==> r == Fail(CheckFields(form.requester, form.fields, {}).error)
  {
    match CheckFields(form.requester, form.fields, {})
    case Failure(e) => Fail(e)
    case Success(names) =>
      assert names == Names(form.fields);
      var missing := MandatoryFields - names;
      if missing != {} then Fail(MissingMandatory(form.requester, missing)) else Pass
  }

  /** The loop over the forms: for each form in order, the duplicate-requester check and then
      the per-form checks. Yields the requester types seen. */
  function CheckForms(forms: seq<Form>, seen: set<string>): (r: Result<set<string>, RuleError>)
    ensures r.Success? <==> FormsOk(forms, seen)
    ensures r.Success? ==> r.value == seen + Requesters(forms)
    ensures r.Failure? ==> !r.error.RuntimeDisabled? && !r.error.MissingForms?
    decreases |forms|
  {
    if |forms| == 0 then Success(seen)
    else
      var form := forms[0];
      FormsOkCons(forms, seen);
      if form.requester in seen then Failure(DuplicateRequester(form.requester))
      else
        match CheckForm(form)
        case Fail(e) => Failure(e)
        case Pass => CheckForms(forms[1..], seen + {form.requester})
  }

  /** `validate_model`: the runtime flag first, then the forms in document order, then the
      presence of a form for every required requester type. */
  function ValidateModel(doc: Document): (r: Outcome<RuleError>)
    ensures doc.status != "yes" ==> r == Fail(RuntimeDisabled)
    ensures r.Pass? <==> DocumentOk(doc)
    ensures doc.status == "yes" && FormsOk(doc.forms, {}) && !(RequiredRequesterTypes <= Requesters(doc.forms))
            ==> r == Fail(MissingForms(RequiredRequesterTypes - Requesters(doc.forms)))
  {
    if doc.status != "yes" then Fail(RuntimeDisabled)
    else
      match CheckForms(doc.forms, {})
      case Failure(e) => Fail(e)
      case Success(seen) =>
        assert seen == Requesters(doc.forms);
        var missing := RequiredRequesterTypes - seen;
        if missing != {} then Fail(MissingForms(missing)) else Pass
  }

  /** One turn of the form loop over a form that passes. */
  lemma CheckFormsStep(forms: seq<Form>, seen: set<string>)
    requires |forms| > 0
    requires forms[0].requester !in seen && FormOk(forms[0])
    ensures CheckForms(forms, seen) == CheckForms(forms[1..], seen + {forms[0].requester})
  {
  }

  lemma {:induction false} CheckFormsSkipsGoodPrefix(forms: seq<Form>, seen: set<string>, i: nat)
    requires i <= |forms|
    requires FormsOk(forms[..i], seen)
    ensures CheckForms(forms, seen) == CheckForms(forms[i..], seen + Requesters(forms[..i]))
    decreases i
  {
    if i > 0 {
      var form := forms[0];
      var prefix := forms[..i];
      var rest := forms[1..];
      var seen' := seen + {form.requester};
      FormsOkCons(prefix, seen);
      assert prefix[0] == form;
      assert prefix[1..] == rest[..i - 1];
      CheckFormsStep(forms, seen);
      CheckFormsSkipsGoodPrefix(rest, seen', i - 1);
      assert rest[i - 1..] == forms[i..];
      assert seen' + Requesters(rest[..i - 1]) == seen + Requesters(prefix);
    } else {
      assert forms[..0] == [];
      assert seen + Requesters(forms[..0]) == seen;
      assert forms[0..] == forms;
    }
  }

  /** Violations are reported per form in document order: when the forms before `i` are all
      fine and form `i` is not, the validator reports form `i`, as a duplicate requester type
      or with the first violation of its own checks. */
  lemma ValidateReportsFirstBadForm(doc: Document, i: nat)
    requires doc.status == "yes"
    requires i < |doc.forms|
    requires FormsOk(doc.forms[..i], {})
    requires !FormOk(doc.forms[i]) || doc.forms[i].requester in Requesters(doc.forms[..i])
    ensures ValidateModel(doc) == if doc.forms[i].requester in Requesters(doc.forms[..i])
                                  then Fail(DuplicateRequester(doc.forms[i].requester))
                                  else CheckForm(doc.forms[i])
    ensures ValidateModel(doc).Fail? && ValidateModel(doc).error.requester == doc.forms[i].requester
  {
    CheckFormsSkipsGoodPrefix(doc.forms, {}, i);
    assert {} + Requesters(doc.forms[..i]) == Requesters(doc.forms[..i]);
    assert doc.forms[i..][0] == doc.forms[i];
  }

  // ---------------------------------------------------------------------------
  // parse_rules_from_text
  // ---------------------------------------------------------------------------

  /** The stored row for one field: the yes/no words become booleans, the label is kept
      as is, and options are stored only when the list is non-empty. */
  function FieldToRule(requester: string, f: Field): FieldRule {
    FieldRule(requester, f.name, f.visible == "yes", f.required == "yes", f.fieldLabel,
              if |f.options| > 0 then Some(f.options) else None)
  }

  /** The rows of one form, one per field, in field order. */
  function FormRules(form: Form): seq<FieldRule> {
    seq(|form.fields|, j requires 0 <= j < |form.fields| => FieldToRule(form.requester, form.fields[j]))
  }

  /** Every row of a form carries its requester type, so the query for that requester type
      returns the form's rows whole and in order. */
  lemma FormRulesAllForRequester(form: Form)
    ensures RulesFor(FormRules(form), form.requester) == FormRules(form)
  {
    Seqs.FilterKeepsAll(FormRules(form), row => ForRequester(row, form.requester));
  }

  /** The rows written for a list of forms: forms in order, and within a form its fields in order. */
  function DocumentRules(forms: seq<Form>): seq<FieldRule> {
    if |forms| == 0 then [] else FormRules(forms[0]) + DocumentRules(forms[1..])
  }

  /** Number of fields in a list of forms. */
  function FieldCount(forms: seq<Form>): nat {
    if |forms| == 0 then 0 else |forms[0].fields| + FieldCount(forms[1..])
  }

  /** The rule store after ingesting a rules document, and what the call returned. */
  datatype RulesIngest = RulesIngest(rules: seq<FieldRule>, outcome: Result<nat, RuleError>)

  /** `parse_rules_from_text` from the parsed document on: validate, and only if that passes,
      clear the store and write one row per field; the result is the number of forms.
      A rejected document leaves the store exactly as it was. */
  function ParseRulesFromText(doc: Document, rules: seq<FieldRule>): (r: RulesIngest)
    ensures r.outcome.Failure? <==> !DocumentOk(doc)
    ensures r.outcome.Failure? ==> r.rules == rules && Fail(r.outcome.error) == ValidateModel(doc)
    ensures r.outcome.Success? ==> r.outcome.value == |doc.forms|
    ensures r.outcome.Success? ==> |r.rules| == FieldCount(doc.forms)
    ensures r.outcome.Success? ==> r.rules == DocumentRules(doc.forms)
  {
    match ValidateModel(doc)
    case Fail(e) => RulesIngest(rules, Failure(e))
    case Pass =>
      // The store is cleared, so the new rows are all it holds.
      DocumentRulesLength(doc.forms);
      RulesIngest(DocumentRules(doc.forms), Success(|doc.forms|))
  }

  /** One row per field. */
  lemma {:induction false} DocumentRulesLength(forms: seq<Form>)
    ensures |DocumentRules(forms)| == FieldCount(forms)
    decreases |forms|
  {
    if |forms| > 0 {
      DocumentRulesLength(forms[1..]);
    }
  }

  /** Where each field's row lands: the rows of form `i` start after the fields of the forms
      before it, and row `j` of that block is the row of field `j`. */
  lemma {:induction false} DocumentRulesAt(forms: seq<Form>, i: nat, j: nat)
    requires i < |forms| && j < |forms[i].fields|
    ensures FieldCount(forms[..i]) + j < |DocumentRules(forms)|
    ensures DocumentRules(forms)[FieldCount(forms[..i]) + j] == FieldToRule(forms[i].requester, forms[i].fields[j])
    decreases i
  {
    var head := FormRules(forms[0]);
    DocumentRulesLength(forms);
    DocumentRulesLength(forms[1..]);
    if i > 0 {
      var prefix := forms[..i];
      assert prefix[0] == forms[0];
      assert prefix[1..] == forms[1..][..i - 1];
      assert forms[1..][i - 1] == forms[i];
      DocumentRulesAt(forms[1..], i - 1, j);
    } else {
      assert forms[..0] == [];
    }
  }

  /** Rows of a list of forms in which `requester` has no form contain no row for it. */
  lemma {:induction false} RulesForAbsentRequester(forms: seq<Form>, requester: string)
    requires requester !in Requesters(forms)
    ensures RulesFor(DocumentRules(forms), requester) == []
    decreases |forms|
  {
    if |forms| > 0 {
      RulesForAbsentRequester(forms[1..], requester);
      var keep := row => ForRequester(row, requester);
      Seqs.FilterConcat(FormRules(forms[0]), DocumentRules(forms[1..]), keep);
      Seqs.FilterEmptyIff(FormRules(forms[0]), keep);
    }
  }

  /** With distinct requester types, the rows of one requester type are exactly the rows of
      its form, in field order. */
  lemma {:induction false} RulesForOneForm(forms: seq<Form>, i: nat)
    requires i < |forms|
    requires forall k, l :: 0 <= k < l < |forms| ==> forms[k].requester != forms[l].requester
    ensures RulesFor(DocumentRules(forms), forms[i].requester) == FormRules(forms[i])
    decreases |forms|
  {
    var requester := forms[i].requester;
    var keep := row => ForRequester(row, requester);
    Seqs.FilterConcat(FormRules(forms[0]), DocumentRules(forms[1..]), keep);
    if i == 0 {
      assert requester !in Requesters(forms[1..]) by {
        if requester in Requesters(forms[1..]) {
          RequestersExact(forms[1..], requester);
        }
      }
      RulesForAbsentRequester(forms[1..], requester);
      Seqs.FilterKeepsAll(FormRules(forms[0]), keep);
    } else {
      assert forms[i] == forms[1..][i - 1];
      RulesForOneForm(forms[1..], i - 1);
      assert forms[0].requester != requester;
      Seqs.FilterEmptyIff(FormRules(forms[0]), keep);
    }
  }

  /** After a successful ingestion, the rule rows of each requester type (in insertion order)
      are exactly the rows of that type's form in declared field order, and a requester type
      without a form has no rows; the previous store leaves no residue. */
  lemma IngestedRulesPerRequester(doc: Document, oldRules: seq<FieldRule>, requester: string)
    requires ParseRulesFromText(doc, oldRules).outcome.Success?
    ensures forall i :: 0 <= i < |doc.forms| && doc.forms[i].requester == requester ==>
              RulesFor(ParseRulesFromText(doc, oldRules).rules, requester) == FormRules(doc.forms[i])
    ensures requester !in Requesters(doc.forms) ==>
              RulesFor(ParseRulesFromText(doc, oldRules).rules, requester) == []
  {
    var rules := ParseRulesFromText(doc, oldRules).rules;
    assert rules == DocumentRules(doc.forms);
    forall i | 0 <= i < |doc.forms| && doc.forms[i].requester == requester
      ensures RulesFor(rules, requester) == FormRules(doc.forms[i])
    {
      RulesForOneForm(doc.forms, i);
    }
    if requester !in Requesters(doc.forms) {
      RulesForAbsentRequester(doc.forms, requester);
    }
  }

  /** Re-ingesting the same document gives the same store and result: no duplication and no
      residue from the first ingestion. */
  lemma IngestIdempotent(doc: Document, rules: seq<FieldRule>)
    ensures var first := ParseRulesFromText(doc, rules);
            ParseRulesFromText(doc, first.rules) == first
  {
  }
}
