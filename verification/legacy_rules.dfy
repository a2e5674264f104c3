/** The older rules ingestion, kept in the repository next to the current one. It checks
    only the runtime flag and then replaces the rule set; none of the structural rules of
    `validate_model` are enforced. It writes the same rows as the current ingestion.
 */
module LegacyRules {
  import opened Wrappers
  import opened Store
  import Rules

  /** The older `parse_rules_from_text`: reject a disabled runtime, otherwise clear the
      store, write one row per field and return the number of forms. */
  function ParseRulesFromText(doc: Rules.Document, rules: seq<FieldRule>): (r: Rules.RulesIngest)
    ensures r.outcome.Failure? <==> doc.status != "yes"
    ensures r.outcome.Failure? ==> r.rules == rules && r.outcome.error == Rules.RuntimeDisabled
    ensures r.outcome.Success? ==> r.outcome.value == |doc.forms|
    ensures r.outcome.Success? ==> |r.rules| == Rules.FieldCount(doc.forms)
    ensures r.outcome.Success? ==> r.rules == Rules.DocumentRules(doc.forms)
  {
    if doc.status != "yes" then Rules.RulesIngest(rules, Failure(Rules.RuntimeDisabled))
    else
      Rules.DocumentRulesLength(doc.forms);
      Rules.RulesIngest(Rules.DocumentRules(doc.forms), Success(|doc.forms|))
  }

  /** Every document the current ingestion accepts, the older one accepts too, and both
      leave the same store and return the same count; and both reject a disabled runtime
      identically. They differ only on documents the current validator rejects. */
  lemma AgreesWhereCurrentAccepts(doc: Rules.Document, rules: seq<FieldRule>)
    ensures Rules.ParseRulesFromText(doc, rules).outcome.Success? ==>
              ParseRulesFromText(doc, rules) == Rules.ParseRulesFromText(doc, rules)
    ensures doc.status != "yes" ==> ParseRulesFromText(doc, rules) == Rules.ParseRulesFromText(doc, rules)
  {
  }

  /** A document whose only form declares `event_name` twice. */
  function DuplicateFieldDocument(): Rules.Document {
    Rules.Document("yes", [
      Rules.Form("Students", [
        Rules.Field("event_name", "yes", "yes", None, []),
        Rules.Field("event_name", "no", "no", Some("Title"), [])
      ])
    ])
  }

  /** The older ingestion stores a form with a duplicated field, writing two rows named
      `event_name` for one requester type with contradicting settings. */
  lemma LegacyStoresDuplicateField(rules: seq<FieldRule>)
    ensures var legacy := ParseRulesFromText(DuplicateFieldDocument(), rules);
            && legacy.outcome == Success(1)
            && legacy.rules == [ FieldRule("Students", "event_name", true, true, None, None),
                                 FieldRule("Students", "event_name", false, false, Some("Title"), None) ]
  {
    var doc := DuplicateFieldDocument();
    assert Rules.DocumentRules(doc.forms[1..]) == [];
  }

  /** The current ingestion rejects the same document, naming the form and the field, and
      leaves the store untouched. */
  lemma CurrentRejectsDuplicateField(rules: seq<FieldRule>)
    ensures var current := Rules.ParseRulesFromText(DuplicateFieldDocument(), rules);
            && current.outcome == Failure(Rules.DuplicateField("Students", "event_name"))
            && current.rules == rules
  {
    var doc := DuplicateFieldDocument();
    var fields := doc.forms[0].fields;
    assert Rules.CheckFields("Students", fields[1..], {"event_name"})
        == Failure(Rules.DuplicateField("Students", "event_name"));
  }
}
