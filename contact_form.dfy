/**
 * The contact form's validation rules (script.js, `validateContactForm` and
 * the rule logic of `validateField`). Both functions work from a rule table
 * with an optional minimum length, an optional e-mail pattern and an error
 * message; the source writes that table out twice, once as an ordered array
 * (form validation) and once as a lookup object (field validation).
 */
module ContactForm {
  import opened Wrappers
  import opened Text
  import opened EmailPattern

  /** One rule: `min == 0` stands for an absent `min` (both are falsy in
      `rule.min && ...`), `emailPattern` for the presence of the e-mail
      regular expression. */
  datatype Rule = Rule(min: nat, emailPattern: bool, message: string)

  /** An entry of the ordered table: the field it reads and its rule. */
  datatype FieldRule = FieldRule(field: string, rule: Rule)

  /** `{isValid, message}` as returned by `validateContactForm`. */
  datatype Validation = Validation(isValid: bool, message: string)

  /** The outcome of one rule on one value. */
  datatype Outcome = Pass | Fail(message: string)

  /** The form data object: a field name maps to its trimmed value; a name
      that is not a key reads as `undefined`. */
  type FormData = map<string, string>

  const NameMessage := "Name must be at least 2 characters long."
  const EmailMessage := "Please enter a valid email address."
  const SubjectMessage := "Subject must be at least 5 characters long."
  const MessageMessage := "Message must be at least 10 characters long."

  /** The ordered table of `validateContactForm`. */
  const FormRules: seq<FieldRule> := [
    FieldRule("name", Rule(2, false, NameMessage)),
    FieldRule("email", Rule(0, true, EmailMessage)),
    FieldRule("subject", Rule(5, false, SubjectMessage)),
    FieldRule("message", Rule(10, false, MessageMessage))
  ]

  /** The four fields of the form. */
  const FieldNames: set<string> := {"name", "email", "subject", "message"}

  /** The lookup table of `validateField`, written separately in the source. */
  const FieldRules: map<string, Rule> := map[
    "name" := Rule(2, false, "Name must be at least 2 characters long."),
    "email" := Rule(0, true, "Please enter a valid email address."),
    "subject" := Rule(5, false, "Subject must be at least 5 characters long."),
    "message" := Rule(10, false, "Message must be at least 10 characters long.")
  ]

  function Get(data: FormData, field: string): (r: Option<string>)
    ensures r.Some? <==> field in data
  {
    if field in data then Some(data[field]) else None
  }

  /** The message for a missing or empty field, `Please enter your ${field}.` */
  function MissingMessage(field: string): (r: string)
    ensures r != "Valid" && r != ""
  {
    "Please enter your " + field + "."
  }

  /** The body of the loop of `validateContactForm` for one rule: presence
      first, then the minimum length, then the pattern. A rule passes
      exactly when the value is present, non-empty, long enough and, where
      the rule has the pattern, matched by it; a missing or empty value
      fails with the missing-field message before anything else. */
  function CheckRule(field: string, rule: Rule, value: Option<string>): (r: Outcome)
    ensures r.Pass? <==>
      value.Some? && value.value != [] && Utf16Length(value.value) >= rule.min
      && (rule.emailPattern ==> MatchesEmailRegex(value.value))
    ensures r.Fail? ==>
      r.message == if value.None? || value.value == [] then MissingMessage(field) else rule.message
  {
    if value.None? || value.value == [] then Fail(MissingMessage(field))
    else if rule.min > 0 && Utf16Length(value.value) < rule.min then Fail(rule.message)
    else if rule.emailPattern && !IsValidEmail(value.value) then Fail(rule.message)
    else Pass
  }

  function RuleOutcome(fr: FieldRule, data: FormData): (r: Outcome) {
    CheckRule(fr.field, fr.rule, Get(data, fr.field))
  }

  /** The loop of `validateContactForm` over `rules`: the form is valid
      exactly when every rule passes, and otherwise the message is that of
      the first rule that fails. */
  function CheckRules(rules: seq<FieldRule>, data: FormData): (r: Validation)
    ensures r.isValid <==> forall i :: 0 <= i < |rules| ==> RuleOutcome(rules[i], data).Pass?
    ensures r.isValid ==> r.message == "Valid"
    ensures !r.isValid ==>
      exists i :: 0 <= i < |rules| && RuleOutcome(rules[i], data) == Fail(r.message)
        && forall j :: 0 <= j < i ==> RuleOutcome(rules[j], data).Pass?
  {
    if rules == [] then Validation(true, "Valid")
    else match RuleOutcome(rules[0], data)
      case Fail(m) => Validation(false, m)
      case Pass =>
        var r := CheckRules(rules[1..], data);
        assert forall i :: 1 <= i < |rules| ==> rules[i] == rules[1..][i - 1];
        r
  }

  /** `validateContactForm(data)`: `isValid` holds exactly when the message
      is `Valid`, and every failure message is one of the table's. */
  function ValidateContactForm(data: FormData): (r: Validation)
    ensures r.isValid <==> r.message == "Valid"
    ensures !r.isValid ==>
      exists i :: 0 <= i < |FormRules|
        && (r.message == MissingMessage(FormRules[i].field) || r.message == FormRules[i].rule.message)
  {
    CheckRules(FormRules, data)
  }

  /** `validateField(field)` without its decoration: the value is trimmed,
      an unknown field name is valid, and otherwise the minimum length is
      checked before the pattern (`else if`). The message is the one handed
      to `showFieldError`, and `''` when the field is valid. */
  function ValidateField(fieldName: string, rawValue: string): (r: Validation)
    ensures r.isValid <==> r.message == ""
    ensures !r.isValid ==> fieldName in FieldRules && r.message == FieldRules[fieldName].message
    ensures fieldName in FieldRules ==>
      (r.isValid <==>
        Utf16Length(Trim(rawValue)) >= FieldRules[fieldName].min
        && (FieldRules[fieldName].emailPattern ==> MatchesEmailRegex(Trim(rawValue))))
  {
    var value := Trim(rawValue);
    if fieldName !in FieldRules then Validation(true, "")
    else
      var rule := FieldRules[fieldName];
      if rule.min > 0 && Utf16Length(value) < rule.min then Validation(false, rule.message)
      else if rule.emailPattern && !IsValidEmail(value) then Validation(false, rule.message)
      else Validation(true, "")
  }

  /** The data object the submit handler builds: each of the four fields
      the form holds, and nothing else, each trimmed
      (`formData.get(f)?.trim()`). */
  function PrepareData(form: map<string, string>): (r: FormData)
    ensures r.Keys == form.Keys * FieldNames
    ensures forall f :: f in r ==> r[f] == Trim(form[f])
  {
    map f | f in form && f in FieldNames :: Trim(form[f])
  }

  /** The verdict of a rule as the `{isValid, message}` pair `validateField`
      would set. */
  function AsValidation(o: Outcome): (r: Validation) {
    match o
    case Pass => Validation(true, "")
    case Fail(m) => Validation(false, m)
  }

  /** A complete form, stated field by field without the rule table: a name
      of at least 2, a subject of at least 5 and a message of at least 10
      UTF-16 code units, and an e-mail the pattern matches. */
  ghost predicate IsCompleteForm(data: FormData) {
    "name" in data && Utf16Length(data["name"]) >= 2
    && "email" in data && MatchesEmailRegex(data["email"])
    && "subject" in data && Utf16Length(data["subject"]) >= 5
    && "message" in data && Utf16Length(data["message"]) >= 10
  }

  /** The form table checks name, email, subject and message, in that order. */
  lemma FieldOrder()
    ensures |FormRules| == 4
    ensures FormRules[0].field == "name" && FormRules[1].field == "email"
    ensures FormRules[2].field == "subject" && FormRules[3].field == "message"
  {
  }

  /** The two copies of the rule table hold the same rules for the same
      four field names. */
  lemma RuleTablesAgree()
    ensures FieldRules.Keys == set i | 0 <= i < |FormRules| :: FormRules[i].field
    ensures forall i :: 0 <= i < |FormRules| ==>
      FormRules[i].field in FieldRules && FieldRules[FormRules[i].field] == FormRules[i].rule
  {
    var names := set i | 0 <= i < |FormRules| :: FormRules[i].field;
    assert FormRules[0].field in names && FormRules[1].field in names;
    assert FormRules[2].field in names && FormRules[3].field in names;
  }

  /** What rule `i` of the form table demands of its field, stated without
      the table; a failing rule never carries the message `Valid`. */
  lemma FieldOutcome(data: FormData, i: nat)
    requires i < |FormRules|
    ensures var f := FormRules[i].field;
      RuleOutcome(FormRules[i], data).Pass? <==>
        f in data && (if i == 1 then MatchesEmailRegex(data[f]) else Utf16Length(data[f]) >= FormRules[i].rule.min)
    ensures RuleOutcome(FormRules[i], data).Fail? ==> RuleOutcome(FormRules[i], data).message != "Valid"
  {
    var f := FormRules[i].field;
    assert |MissingMessage(f)| > 5;
    if i == 1 && f in data {
      assert data[f] != [] ==> CheckRule(f, FormRules[1].rule, Some(data[f])).Pass? == IsValidEmail(data[f]);
      assert data[f] == [] ==> !MatchesEmailRegex(data[f]);
    }
  }

  /** `{isValid: true, message: 'Valid'}` comes back exactly when every field
      is present and passes its rule. */
  lemma ValidExactlyWhenComplete(data: FormData)
    ensures ValidateContactForm(data).isValid <==> IsCompleteForm(data)
  {
    FieldOutcome(data, 0);
    FieldOutcome(data, 1);
    FieldOutcome(data, 2);
    FieldOutcome(data, 3);
    var r := ValidateContactForm(data);
    assert r.isValid <==> forall i :: 0 <= i < 4 ==> RuleOutcome(FormRules[i], data).Pass?;
    if !r.isValid {
      var k :| 0 <= k < |FormRules| && RuleOutcome(FormRules[k], data) == Fail(r.message);
      assert k == 0 || k == 1 || k == 2 || k == 3;
    }
  }

  /** Fail-fast: when rule `i` is the first that fails, its message is the
      result, whatever the later fields hold. */
  lemma FirstFailureWins(data: FormData, i: nat)
    requires i < |FormRules|
    requires RuleOutcome(FormRules[i], data).Fail?
    requires forall j :: 0 <= j < i ==> RuleOutcome(FormRules[j], data).Pass?
    ensures ValidateContactForm(data) == Validation(false, RuleOutcome(FormRules[i], data).message)
  {
    var r := ValidateContactForm(data);
    var k :| 0 <= k < |FormRules| && RuleOutcome(FormRules[k], data) == Fail(r.message)
      && forall j :: 0 <= j < k ==> RuleOutcome(FormRules[j], data).Pass?;
    assert k == i;
  }

  /** An invalid name is reported even when the e-mail is invalid too. */
  lemma NameErrorReportedFirst()
    ensures ValidateContactForm(map["name" := "A", "email" := "a@b"]) == Validation(false, NameMessage)
  {
    var data := map["name" := "A", "email" := "a@b"];
    assert Utf16Length("A") == 1;
    FirstFailureWins(data, 0);
  }

  /** A missing or empty field, all earlier fields being fine, yields
      `Please enter your ${field}.` before any length or pattern check. */
  lemma MissingFieldMessage(data: FormData, i: nat)
    requires i < |FormRules|
    requires FormRules[i].field !in data || data[FormRules[i].field] == []
    requires forall j :: 0 <= j < i ==> RuleOutcome(FormRules[j], data).Pass?
    ensures ValidateContactForm(data) == Validation(false, "Please enter your " + FormRules[i].field + ".")
  {
    FirstFailureWins(data, i);
  }

  /** For a rule with a minimum length and a non-empty value, the rule fails
      with its own message exactly when the value is shorter than the
      minimum, and passes otherwise. */
  lemma MinLengthBoundary(i: nat, v: string)
    requires i < |FormRules| && FormRules[i].rule.min > 0 && v != []
    ensures CheckRule(FormRules[i].field, FormRules[i].rule, Some(v))
      == if Utf16Length(v) < FormRules[i].rule.min then Fail(FormRules[i].rule.message) else Pass
  {
    assert !FormRules[i].rule.emailPattern;
  }

  /** The boundary inputs of the three length rules, for characters of the
      Basic Multilingual Plane: name "A" fails and "Al" passes, a subject
      of 4 fails and of 5 passes, a message of 9 fails and of 10 passes. */
  lemma LengthBoundaryExamples(subject: string, message: string)
    requires IsBmp(subject) && IsBmp(message)
    ensures CheckRule("name", FormRules[0].rule, Some("A")) == Fail(NameMessage)
    ensures CheckRule("name", FormRules[0].rule, Some("Al")) == Pass
    ensures |subject| == 4 ==> CheckRule("subject", FormRules[2].rule, Some(subject)) == Fail(SubjectMessage)
    ensures |subject| == 5 ==> CheckRule("subject", FormRules[2].rule, Some(subject)) == Pass
    ensures |message| == 9 ==> CheckRule("message", FormRules[3].rule, Some(message)) == Fail(MessageMessage)
    ensures |message| == 10 ==> CheckRule("message", FormRules[3].rule, Some(message)) == Pass
  {
    assert IsBmp("A") && IsBmp("Al");
    assert Utf16Length("A") == 1 && Utf16Length("Al") == 2;
  }

  /** A non-empty e-mail passes exactly when it matches the pattern, and
      otherwise fails with the rule's message. */
  lemma EmailRuleIffRegex(v: string)
    requires v != []
    ensures CheckRule("email", FormRules[1].rule, Some(v)) == Pass <==> MatchesEmailRegex(v)
    ensures !MatchesEmailRegex(v) ==> CheckRule("email", FormRules[1].rule, Some(v)) == Fail(EmailMessage)
  {
  }

  /** The e-mail examples through the rule: "a@b.co" passes, "a@b" and
      "a b@c.com" fail with the rule's message. */
  lemma EmailRuleExamples()
    ensures CheckRule("email", FormRules[1].rule, Some("a@b.co")) == Pass
    ensures CheckRule("email", FormRules[1].rule, Some("a@b")) == Fail(EmailMessage)
    ensures CheckRule("email", FormRules[1].rule, Some("a b@c.com")) == Fail(EmailMessage)
  {
    EmailExampleAccepted();
    EmailExampleNoDot();
    EmailExampleSpace();
    EmailRuleIffRegex("a@b.co");
    EmailRuleIffRegex("a@b");
    EmailRuleIffRegex("a b@c.com");
  }

  /** `validateField` accepts any value of a field that has no rule. */
  lemma ValidateFieldUnknown(fieldName: string, rawValue: string)
    requires fieldName !in FieldNames
    ensures ValidateField(fieldName, rawValue).isValid
  {
  }

  /** In `validateField` a too-short value fails with the rule's message
      and the pattern is not consulted (`else if`). No rule of either table
      has both a minimum and the pattern, so with the tables as written the
      precedence is never observable. */
  lemma ValidateFieldMinFirst(fieldName: string, rawValue: string)
    requires fieldName in FieldRules
    requires Utf16Length(Trim(rawValue)) < FieldRules[fieldName].min
    ensures ValidateField(fieldName, rawValue) == Validation(false, FieldRules[fieldName].message)
  {
  }

  /** For a value that is not all white space (so its trim is not empty,
      as the callers at the `input` and `blur` listeners ensure), `validateField` reaches the same
      verdict and message as the per-field step of `validateContactForm`
      on the trimmed value. */
  lemma ValidateFieldAgreesWithForm(i: nat, rawValue: string)
    requires i < |FormRules| && !IsBlank(rawValue)
    ensures ValidateField(FormRules[i].field, rawValue)
      == AsValidation(CheckRule(FormRules[i].field, FormRules[i].rule, Some(Trim(rawValue))))
  {
    TrimEmptyIffBlank(rawValue);
    RuleTablesAgree();
  }

  /** In the submit handler a field that holds only white space is trimmed
      to empty and, when the fields before it are fine, reported as
      missing. */
  lemma BlankFieldIsMissing(form: map<string, string>, i: nat)
    requires i < |FormRules| && FormRules[i].field in form && IsBlank(form[FormRules[i].field])
    requires forall j :: 0 <= j < i ==> RuleOutcome(FormRules[j], PrepareData(form)).Pass?
    ensures ValidateContactForm(PrepareData(form))
      == Validation(false, "Please enter your " + FormRules[i].field + ".")
  {
    var f := FormRules[i].field;
    TrimEmptyIffBlank(form[f]);
    assert f in FieldNames;
    assert PrepareData(form)[f] == [];
    MissingFieldMessage(PrepareData(form), i);
  }
}
