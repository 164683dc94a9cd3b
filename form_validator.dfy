/** Form validation: the per-field rule chain, the whole-form pass, and the
    password strength meter. A form field is a record; the `validator` and
    named custom validators are callbacks given as Dafny functions; showing
    and clearing error messages in the page is not modelled. */
module FormValidator {
  import opened JsStrings

  // ---------------------------------------------------------------------------
  // Fields, rules, messages

  /** A form control: `name`, `value`, `type`, `checked`, `disabled`. */
  datatype Field = Field(name: string, value: string, kind: string, checked: bool, disabled: bool)

  /** What a callback validator returns: `true`, or anything else, which fails
      the field; `Fail("")` stands for the falsy results (false, "", undefined). */
  datatype CustomResult = Pass | Fail(message: string)

  type Check = (string, Field, map<string, Field>) -> CustomResult

  /** The rules for one field. An empty string, 0 or None is a rule that is not
      set (all of them are falsy in the source). */
  datatype Rules = Rules(
    required: bool, requiredMessage: string,
    email: bool, emailMessage: string,
    minLength: int, minLengthMessage: string,
    maxLength: int, maxLengthMessage: string,
    matchField: string, matchMessage: string,
    validator: Option<Check>, validatorMessage: string,
    customValidator: string)

  /** `{}`: no rule set. */
  const NoRules := Rules(false, "", false, "", 0, "", 0, "", "", "", None, "", "")

  datatype Messages = Messages(
    required: string, email: string,
    minLength: int -> string, maxLength: int -> string,
    passwordMatch: string, terms: string, fallback: string)

  const DefaultMessages := Messages(
    "This field is required",
    "Please enter a valid email address",
    n => "Must be at least " + IntToString(n) + " characters",
    n => "Must not exceed " + IntToString(n) + " characters",
    "Passwords do not match",
    "You must accept the terms and conditions",
    "Invalid value")

  /** `config.messages`: each entry replaces the default of the same name. */
  datatype MessageOverrides = MessageOverrides(
    required: Option<string>, email: Option<string>,
    minLength: Option<int -> string>, maxLength: Option<int -> string>,
    passwordMatch: Option<string>, terms: Option<string>, fallback: Option<string>)

  datatype Validator = Validator(messages: Messages, customValidators: map<string, Check>)

  function Pick<T>(o: Option<T>, d: T): T {
    if o.Some? then o.value else d
  }

  /** `{}`: no message given. */
  const NoOverrides := MessageOverrides(None, None, None, None, None, None, None)

  /** `new FormValidator({messages, validators})`: the default messages with the
      given ones spread over them. */
  function NewValidator(overrides: MessageOverrides, validators: map<string, Check>): (v: Validator)
    ensures v.customValidators == validators
    ensures overrides == NoOverrides ==> v.messages == DefaultMessages
    ensures overrides.required.Some? ==> v.messages.required == overrides.required.value
    ensures overrides.email.Some? ==> v.messages.email == overrides.email.value
    ensures overrides.minLength.Some? ==> v.messages.minLength == overrides.minLength.value
    ensures overrides.maxLength.Some? ==> v.messages.maxLength == overrides.maxLength.value
    ensures overrides.passwordMatch.Some? ==> v.messages.passwordMatch == overrides.passwordMatch.value
    ensures overrides.terms.Some? ==> v.messages.terms == overrides.terms.value
    ensures overrides.fallback.Some? ==> v.messages.fallback == overrides.fallback.value
    ensures overrides.required.None? ==> v.messages.required == DefaultMessages.required
    ensures overrides.email.None? ==> v.messages.email == DefaultMessages.email
    ensures overrides.minLength.None? ==> v.messages.minLength == DefaultMessages.minLength
    ensures overrides.maxLength.None? ==> v.messages.maxLength == DefaultMessages.maxLength
    ensures overrides.passwordMatch.None? ==> v.messages.passwordMatch == DefaultMessages.passwordMatch
    ensures overrides.terms.None? ==> v.messages.terms == DefaultMessages.terms
    ensures overrides.fallback.None? ==> v.messages.fallback == DefaultMessages.fallback
  {
    var d := DefaultMessages;
    Validator(Messages(
      Pick(overrides.required, d.required), Pick(overrides.email, d.email),
      Pick(overrides.minLength, d.minLength), Pick(overrides.maxLength, d.maxLength),
      Pick(overrides.passwordMatch, d.passwordMatch), Pick(overrides.terms, d.terms),
      Pick(overrides.fallback, d.fallback)), validators)
  }

  // ---------------------------------------------------------------------------
  // The email pattern ^[^\s@]+@[^\s@]+\.[^\s@]+$

  predicate PlainChar(c: char) {
    !IsWhitespace(c) && c != '@'
  }

  predicate AllPlain(s: string) {
    forall i :: 0 <= i < |s| ==> PlainChar(s[i])
  }

  /** `s` is a non-empty run of plain characters, '@', a non-empty run, '.', and
      a non-empty run, where "plain" excludes whitespace and '@'. */
  predicate MatchesEmail(s: string) {
    exists a, b | 0 < a < |s| && 0 < b < |s| && a + 1 < b && b + 1 < |s| ::
      s[a] == '@' && s[b] == '.' && AllPlain(s[..a]) && AllPlain(s[a + 1..b]) && AllPlain(s[b + 1..])
  }

  lemma {:induction false} CountPlain(s: string)
    requires AllPlain(s)
    ensures Count(s, '@') == 0
  {
    if s != [] {
      CountPlain(s[1..]);
    }
  }

  lemma {:induction false} CountAppend(s: string, t: string, c: char)
    ensures Count(s + t, c) == Count(s, c) + Count(t, c)
  {
    if s == [] {
      assert s + t == t;
    } else {
      assert (s + t)[1..] == s[1..] + t;
      CountAppend(s[1..], t, c);
    }
  }

  /** An address the pattern accepts has exactly one '@' and no whitespace. */
  lemma EmailShape(s: string)
    requires MatchesEmail(s)
    ensures Count(s, '@') == 1
    ensures forall i :: 0 <= i < |s| ==> !IsWhitespace(s[i])
  {
    var a, b :| 0 < a < |s| && 0 < b < |s| && a + 1 < b && b + 1 < |s| &&
      s[a] == '@' && s[b] == '.' && AllPlain(s[..a]) && AllPlain(s[a + 1..b]) && AllPlain(s[b + 1..]);
    PlainAfterAt(s, a, b);
    SingleAt(s, a);
  }

  lemma PlainAfterAt(s: string, a: nat, b: nat)
    requires a < b < |s| && s[b] == '.'
    requires AllPlain(s[a + 1..b]) && AllPlain(s[b + 1..])
    ensures AllPlain(s[a + 1..])
  {
    var rest := s[a + 1..];
    forall i | 0 <= i < |rest| ensures PlainChar(rest[i]) {
      if a + 1 + i < b { assert rest[i] == s[a + 1..b][i]; }
      else if a + 1 + i > b { assert rest[i] == s[b + 1..][a + i - b]; }
    }
  }

  lemma SingleAt(s: string, a: nat)
    requires a < |s| && s[a] == '@' && AllPlain(s[..a]) && AllPlain(s[a + 1..])
    ensures Count(s, '@') == 1
    ensures forall i :: 0 <= i < |s| ==> !IsWhitespace(s[i])
  {
    var rest := s[a + 1..];
    assert s == s[..a] + [s[a]] + rest;
    CountPlain(s[..a]);
    CountPlain(rest);
    CountAppend(s[..a], [s[a]], '@');
    CountAppend(s[..a] + [s[a]], rest, '@');
    forall i | 0 <= i < |s| ensures !IsWhitespace(s[i]) {
      if i < a { assert s[i] == s[..a][i]; }
      else if i > a { assert s[i] == rest[i - a - 1]; }
    }
  }

  lemma EmailExamples()
    ensures MatchesEmail("ada@example.org")
    ensures !MatchesEmail("ada@example")
  {
    var s := "ada@example.org";
    assert s[3] == '@' && s[11] == '.';
    assert AllPlain(s[..3]) && AllPlain(s[4..11]) && AllPlain(s[12..]);
    var t := "ada@example";
    assert forall b :: 0 <= b < |t| ==> t[b] != '.';
  }

  // ---------------------------------------------------------------------------
  // validateField

  /** The result of validating one field: `{valid: true}` or
      `{valid: false, message}`. */
  datatype Outcome = Valid | Invalid(message: string)

  /** The checks applied to a non-empty value, in the order they are tried. */
  datatype RuleKind = EmailRule | MinLengthRule | MaxLengthRule | MatchRule | CheckboxRule | ValidatorRule | CustomRule

  const RuleOrder := [EmailRule, MinLengthRule, MaxLengthRule, MatchRule, CheckboxRule, ValidatorRule, CustomRule]

  /** What one check says about the trimmed value `v`, on its own. */
  function Verdict(kind: RuleKind, fv: Validator, field: Field, rules: Rules, compare: map<string, Field>, v: string): (r: Outcome)
    ensures rules == NoRules ==> r == Valid
    ensures kind == EmailRule ==> (r.Invalid? <==> rules.email && v != "" && !MatchesEmail(v))
    ensures kind == EmailRule && r.Invalid? ==> r.message == OrElse(rules.emailMessage, fv.messages.email)
    ensures kind == MinLengthRule ==> (r.Invalid? <==> rules.minLength != 0 && Length(v) < rules.minLength)
    ensures kind == MinLengthRule && r.Invalid? ==>
              r.message == OrElse(rules.minLengthMessage, fv.messages.minLength(rules.minLength))
    ensures kind == MaxLengthRule ==> (r.Invalid? <==> rules.maxLength != 0 && Length(v) > rules.maxLength)
    ensures kind == MaxLengthRule && r.Invalid? ==>
              r.message == OrElse(rules.maxLengthMessage, fv.messages.maxLength(rules.maxLength))
    ensures kind == MatchRule ==>
              (r.Invalid? <==> rules.matchField != "" && rules.matchField in compare && v != compare[rules.matchField].value)
    ensures kind == MatchRule && r.Invalid? ==> r.message == OrElse(rules.matchMessage, fv.messages.passwordMatch)
    ensures kind == CheckboxRule ==> (r.Invalid? <==> field.kind == "checkbox" && rules.required && !field.checked)
    ensures kind == CheckboxRule && r.Invalid? ==> r.message == OrElse(rules.requiredMessage, fv.messages.terms)
    ensures kind == ValidatorRule ==>
              (r.Invalid? <==> rules.validator.Some? && rules.validator.value(v, field, compare).Fail?)
    ensures kind == ValidatorRule && r.Invalid? ==>
              r.message == OrElse(OrElse(rules.validator.value(v, field, compare).message, rules.validatorMessage), fv.messages.fallback)
    ensures kind == CustomRule ==>
              (r.Invalid? <==> rules.customValidator != "" && rules.customValidator in fv.customValidators
                               && fv.customValidators[rules.customValidator](v, field, compare).Fail?)
    ensures kind == CustomRule && r.Invalid? ==>
              r.message == OrElse(OrElse(fv.customValidators[rules.customValidator](v, field, compare).message, rules.validatorMessage),
                                  fv.messages.fallback)
  {
    match kind
      case EmailRule =>
        if rules.email && v != "" && !MatchesEmail(v) then Invalid(OrElse(rules.emailMessage, fv.messages.email)) else Valid
      case MinLengthRule =>
        if rules.minLength != 0 && Length(v) < rules.minLength
        then Invalid(OrElse(rules.minLengthMessage, fv.messages.minLength(rules.minLength))) else Valid
      case MaxLengthRule =>
        if rules.maxLength != 0 && Length(v) > rules.maxLength
        then Invalid(OrElse(rules.maxLengthMessage, fv.messages.maxLength(rules.maxLength))) else Valid
      case MatchRule =>
        if rules.matchField != "" && rules.matchField in compare && v != compare[rules.matchField].value
        then Invalid(OrElse(rules.matchMessage, fv.messages.passwordMatch)) else Valid
      case CheckboxRule =>
        if field.kind == "checkbox" && rules.required && !field.checked
        then Invalid(OrElse(rules.requiredMessage, fv.messages.terms)) else Valid
      case ValidatorRule =>
        if rules.validator.Some? && rules.validator.value(v, field, compare).Fail?
        then Invalid(OrElse(OrElse(rules.validator.value(v, field, compare).message, rules.validatorMessage), fv.messages.fallback))
        else Valid
      case CustomRule =>
        if rules.customValidator != "" && rules.customValidator in fv.customValidators
           && fv.customValidators[rules.customValidator](v, field, compare).Fail?
        then Invalid(OrElse(OrElse(fv.customValidators[rules.customValidator](v, field, compare).message, rules.validatorMessage), fv.messages.fallback))
        else Valid
  }

  /** The first check of `kinds` that fails, or Valid when none does. */
  function FirstFailure(kinds: seq<RuleKind>, fv: Validator, field: Field, rules: Rules, compare: map<string, Field>, v: string): (r: Outcome)
  {
    if kinds == [] then Valid
    else
      var o := Verdict(kinds[0], fv, field, rules, compare, v);
      if o.Invalid? then o else FirstFailure(kinds[1..], fv, field, rules, compare, v)
  }

  /** FirstFailure is Valid exactly when every check passes, and otherwise the
      verdict of a failing check all of whose predecessors pass. */
  lemma {:induction false} FirstFailureIsFirst(kinds: seq<RuleKind>, fv: Validator, field: Field, rules: Rules, compare: map<string, Field>, v: string)
    ensures FirstFailure(kinds, fv, field, rules, compare, v) == Valid <==>
              forall i :: 0 <= i < |kinds| ==> Verdict(kinds[i], fv, field, rules, compare, v) == Valid
    ensures FirstFailure(kinds, fv, field, rules, compare, v).Invalid? ==>
              exists i :: 0 <= i < |kinds| && FirstFailure(kinds, fv, field, rules, compare, v) == Verdict(kinds[i], fv, field, rules, compare, v)
                && forall j :: 0 <= j < i ==> Verdict(kinds[j], fv, field, rules, compare, v) == Valid
  {
    if kinds != [] {
      FirstFailureIsFirst(kinds[1..], fv, field, rules, compare, v);
      var r := FirstFailure(kinds, fv, field, rules, compare, v);
      if Verdict(kinds[0], fv, field, rules, compare, v).Valid? {
        assert r == FirstFailure(kinds[1..], fv, field, rules, compare, v);
        if r.Invalid? {
          var i :| 0 <= i < |kinds[1..]| && r == Verdict(kinds[1..][i], fv, field, rules, compare, v)
                   && forall j :: 0 <= j < i ==> Verdict(kinds[1..][j], fv, field, rules, compare, v) == Valid;
          assert kinds[i + 1] == kinds[1..][i];
          forall j | 0 <= j < i + 1 ensures Verdict(kinds[j], fv, field, rules, compare, v) == Valid {
            if j > 0 { assert kinds[j] == kinds[1..][j - 1]; }
          }
        } else {
          forall i | 0 <= i < |kinds| ensures Verdict(kinds[i], fv, field, rules, compare, v) == Valid {
            if i > 0 { assert kinds[i] == kinds[1..][i - 1]; }
          }
        }
      }
    }
  }

  /** `validateField(field, rules, compareFields)`. On the trimmed value: a
      required empty field fails with its required message; any other empty
      field is valid whatever else its rules say; a non-empty value gets the
      verdict of the first failing check in RuleOrder. */
  function ValidateField(fv: Validator, field: Field, rules: Rules, compare: map<string, Field>): (r: Outcome)
    ensures var v := Trim(field.value);
            (rules.required && v == "" ==> r == Invalid(OrElse(rules.requiredMessage, fv.messages.required)))
            && (!rules.required && v == "" ==> r == Valid)
  {
    var value := Trim(field.value);
    if rules.required && value == "" then Invalid(OrElse(rules.requiredMessage, fv.messages.required))
    else if value == "" && !rules.required then Valid
    else if Verdict(EmailRule, fv, field, rules, compare, value).Invalid? then Verdict(EmailRule, fv, field, rules, compare, value)
    else if Verdict(MinLengthRule, fv, field, rules, compare, value).Invalid? then Verdict(MinLengthRule, fv, field, rules, compare, value)
    else if Verdict(MaxLengthRule, fv, field, rules, compare, value).Invalid? then Verdict(MaxLengthRule, fv, field, rules, compare, value)
    else if Verdict(MatchRule, fv, field, rules, compare, value).Invalid? then Verdict(MatchRule, fv, field, rules, compare, value)
    else if Verdict(CheckboxRule, fv, field, rules, compare, value).Invalid? then Verdict(CheckboxRule, fv, field, rules, compare, value)
    else if Verdict(ValidatorRule, fv, field, rules, compare, value).Invalid? then Verdict(ValidatorRule, fv, field, rules, compare, value)
    else if Verdict(CustomRule, fv, field, rules, compare, value).Invalid? then Verdict(CustomRule, fv, field, rules, compare, value)
    else Valid
  }

  /** A required message given to the constructor is the one an empty required
      field without its own message reports. */
  lemma GivenRequiredMessageShown(overrides: MessageOverrides, validators: map<string, Check>,
                                  field: Field, compare: map<string, Field>)
    requires overrides.required.Some? && Trim(field.value) == ""
    ensures ValidateField(NewValidator(overrides, validators), field, NoRules.(required := true), compare)
            == Invalid(overrides.required.value)
  {
  }

  lemma FirstFailureCons(k: RuleKind, rest: seq<RuleKind>, fv: Validator, field: Field, rules: Rules, compare: map<string, Field>, v: string)
    ensures FirstFailure([k] + rest, fv, field, rules, compare, v) ==
            if Verdict(k, fv, field, rules, compare, v).Invalid? then Verdict(k, fv, field, rules, compare, v)
            else FirstFailure(rest, fv, field, rules, compare, v)
  {
    assert ([k] + rest)[1..] == rest;
  }

  /** For a non-empty value, validateField's chain of early returns is the
      first failing check in the order email, minLength, maxLength, matchField,
      checkbox, validator, customValidator. */
  lemma ValidateFieldFirstFailure(fv: Validator, field: Field, rules: Rules, compare: map<string, Field>)
    requires Trim(field.value) != ""
    ensures ValidateField(fv, field, rules, compare) == FirstFailure(RuleOrder, fv, field, rules, compare, Trim(field.value))
  {
    FirstFailureChain(fv, field, rules, compare, Trim(field.value));
  }

  /** FirstFailure over RuleOrder, unfolded one check at a time. */
  lemma FirstFailureChain(fv: Validator, field: Field, rules: Rules, compare: map<string, Field>, v: string)
    ensures FirstFailure(RuleOrder, fv, field, rules, compare, v) ==
              if Verdict(EmailRule, fv, field, rules, compare, v).Invalid? then Verdict(EmailRule, fv, field, rules, compare, v)
              else if Verdict(MinLengthRule, fv, field, rules, compare, v).Invalid? then Verdict(MinLengthRule, fv, field, rules, compare, v)
              else if Verdict(MaxLengthRule, fv, field, rules, compare, v).Invalid? then Verdict(MaxLengthRule, fv, field, rules, compare, v)
              else if Verdict(MatchRule, fv, field, rules, compare, v).Invalid? then Verdict(MatchRule, fv, field, rules, compare, v)
              else if Verdict(CheckboxRule, fv, field, rules, compare, v).Invalid? then Verdict(CheckboxRule, fv, field, rules, compare, v)
              else if Verdict(ValidatorRule, fv, field, rules, compare, v).Invalid? then Verdict(ValidatorRule, fv, field, rules, compare, v)
              else if Verdict(CustomRule, fv, field, rules, compare, v).Invalid? then Verdict(CustomRule, fv, field, rules, compare, v)
              else Valid
  {
    assert RuleOrder == [EmailRule] + [MinLengthRule, MaxLengthRule, MatchRule, CheckboxRule, ValidatorRule, CustomRule];
    assert [CustomRule] == [CustomRule] + [];
    FirstFailureCons(CustomRule, [], fv, field, rules, compare, v);
    FirstFailureCons(ValidatorRule, [CustomRule], fv, field, rules, compare, v);
    FirstFailureCons(CheckboxRule, [ValidatorRule, CustomRule], fv, field, rules, compare, v);
    FirstFailureCons(MatchRule, [CheckboxRule, ValidatorRule, CustomRule], fv, field, rules, compare, v);
    FirstFailureCons(MaxLengthRule, [MatchRule, CheckboxRule, ValidatorRule, CustomRule], fv, field, rules, compare, v);
    FirstFailureCons(MinLengthRule, [MaxLengthRule, MatchRule, CheckboxRule, ValidatorRule, CustomRule], fv, field, rules, compare, v);
    FirstFailureCons(EmailRule, [MinLengthRule, MaxLengthRule, MatchRule, CheckboxRule, ValidatorRule, CustomRule], fv, field, rules, compare, v);
  }

  /** The match rule compares the trimmed value with the other field's value as
      typed: a value with surrounding whitespace never matches an identical
      confirmation field. */
  lemma MatchComparesUntrimmed(fv: Validator, field: Field, rules: Rules, compare: map<string, Field>)
    requires rules.matchField in compare && compare[rules.matchField].value == field.value
    requires rules.matchField != "" && !rules.email && rules.minLength == 0 && rules.maxLength == 0
    requires Trim(field.value) != "" && Trim(field.value) != field.value
    ensures ValidateField(fv, field, rules, compare) == Invalid(OrElse(rules.matchMessage, fv.messages.passwordMatch))
  {
    var v := Trim(field.value);
    assert v != compare[rules.matchField].value;
    MatchVerdict(fv, field, rules, compare, v);
    assert Verdict(EmailRule, fv, field, rules, compare, v) == Valid
        && Verdict(MinLengthRule, fv, field, rules, compare, v) == Valid
        && Verdict(MaxLengthRule, fv, field, rules, compare, v) == Valid;
  }

  lemma MatchVerdict(fv: Validator, field: Field, rules: Rules, compare: map<string, Field>, v: string)
    requires rules.matchField != "" && rules.matchField in compare && v != compare[rules.matchField].value
    ensures Verdict(MatchRule, fv, field, rules, compare, v) == Invalid(OrElse(rules.matchMessage, fv.messages.passwordMatch))
  {
  }

  /** "secret " trims to "secret", so it meets the conditions above. */
  lemma TrailingSpaceExample()
    ensures Trim("secret ") == "secret"
  {
    var s := "secret ";
    assert s[..0] == [] && s[6..] == [' '];
    TrimOf(s, 0, 6);
  }

  /** Trim removes exactly a whitespace prefix and suffix around a core that
      starts and ends with non-whitespace. */
  lemma TrimOf(s: string, k: nat, n: nat)
    requires 0 < n && k + n <= |s|
    requires AllWhitespace(s[..k]) && AllWhitespace(s[k + n..])
    requires !IsWhitespace(s[k]) && !IsWhitespace(s[k + n - 1])
    ensures Trim(s) == s[k..k + n]
  {
    var lead := LeadingWhitespace(s);
    var trail := TrailingWhitespace(s);
    PrefixWhitespace(s, lead);
    PrefixWhitespace(s, k);
    SuffixWhitespace(s, |s| - trail);
    SuffixWhitespace(s, k + n);
    assert lead == k;
    assert trail == |s| - (k + n);
  }

  lemma PrefixWhitespace(s: string, j: nat)
    requires j <= |s| && AllWhitespace(s[..j])
    ensures forall i :: 0 <= i < j ==> IsWhitespace(s[i])
  {
    forall i | 0 <= i < j ensures IsWhitespace(s[i]) {
      assert s[..j][i] == s[i];
    }
  }

  lemma SuffixWhitespace(s: string, j: nat)
    requires j <= |s| && AllWhitespace(s[j..])
    ensures forall i :: j <= i < |s| ==> IsWhitespace(s[i])
  {
    forall i | j <= i < |s| ensures IsWhitespace(s[i]) {
      assert s[j..][i - j] == s[i];
    }
  }

  // ---------------------------------------------------------------------------
  // validateForm

  /** The controls validateForm validates: named, enabled, and not a button,
      submit, reset or fieldset. */
  predicate Validated(f: Field) {
    f.name != "" && !f.disabled && f.kind !in {"button", "submit", "reset", "fieldset"}
  }

  /** `fieldValues` after the first loop: the named, enabled controls by name,
      a later control replacing an earlier one of the same name. */
  function FieldValues(fields: seq<Field>): map<string, Field> {
    if fields == [] then map[]
    else
      var m := FieldValues(fields[..|fields| - 1]);
      var f := fields[|fields| - 1];
      if f.name != "" && !f.disabled then m[f.name := f] else m
  }

  /** `ruleSets[field.name] || {}` */
  function RulesFor(ruleSets: map<string, Rules>, name: string): Rules {
    if name in ruleSets then ruleSets[name] else NoRules
  }

  /** The result validateForm takes for a control, given the form's values. */
  function FormCheck(fv: Validator, ruleSets: map<string, Rules>, compare: map<string, Field>): Field -> Outcome {
    (f: Field) => ValidateField(fv, f, RulesFor(ruleSets, f.name), compare)
  }

  /** `errors` after the second loop has visited `fields`: the message of each
      failing control under its name, a later failure replacing an earlier one. */
  function Errors(check: Field -> Outcome, fields: seq<Field>): map<string, string> {
    if fields == [] then map[]
    else
      var m := Errors(check, fields[..|fields| - 1]);
      var f := fields[|fields| - 1];
      if Validated(f) && check(f).Invalid? then m[f.name := check(f).message] else m
  }

  /** The calls made to `callback`: each validated control's name and result,
      in form order. */
  function Reports(check: Field -> Outcome, fields: seq<Field>): seq<(string, Outcome)> {
    if fields == [] then []
    else
      var m := Reports(check, fields[..|fields| - 1]);
      var f := fields[|fields| - 1];
      if Validated(f) then m + [(f.name, check(f))] else m
  }

  /** `validateForm(form, ruleSets, callback)`: the form is valid exactly when
      every validated control passes; `errors` and the callback calls are
      those of the two loops, each control checked against the values of the
      whole form. */
  method ValidateForm(fv: Validator, fields: seq<Field>, ruleSets: map<string, Rules>)
    returns (valid: bool, errors: map<string, string>, reports: seq<(string, Outcome)>)
    ensures valid <==> forall i :: 0 <= i < |fields| && Validated(fields[i]) ==>
                         FormCheck(fv, ruleSets, FieldValues(fields))(fields[i]).Valid?
    ensures errors == Errors(FormCheck(fv, ruleSets, FieldValues(fields)), fields)
    ensures reports == Reports(FormCheck(fv, ruleSets, FieldValues(fields)), fields)
  {
    var values: map<string, Field> := map[];
    var i := 0;
    while i < |fields|
      invariant 0 <= i <= |fields|
      invariant values == FieldValues(fields[..i])
    {
      var f := fields[i];
      assert fields[..i + 1][..i] == fields[..i];
      if f.name != "" && !f.disabled {
        values := values[f.name := f];
      }
      i := i + 1;
    }
    assert fields[..|fields|] == fields;
    valid, errors, reports := CheckFields(FormCheck(fv, ruleSets, values), fields);
  }

  /** The second loop of validateForm, with the check of one control given. */
  method CheckFields(check: Field -> Outcome, fields: seq<Field>)
    returns (valid: bool, errors: map<string, string>, reports: seq<(string, Outcome)>)
    ensures valid <==> forall i :: 0 <= i < |fields| && Validated(fields[i]) ==> check(fields[i]).Valid?
    ensures errors == Errors(check, fields)
    ensures reports == Reports(check, fields)
  {
    valid, errors, reports := true, map[], [];
    var i := 0;
    while i < |fields|
      invariant 0 <= i <= |fields|
      invariant errors == Errors(check, fields[..i])
      invariant reports == Reports(check, fields[..i])
      invariant valid <==> errors == map[]
    {
      var f := fields[i];
      assert fields[..i + 1][..i] == fields[..i];
      if Validated(f) {
        var result := check(f);
        if result.Invalid? {
          valid := false;
          errors := errors[f.name := result.message];
          assert f.name in errors;
        }
        reports := reports + [(f.name, result)];
      }
      i := i + 1;
    }
    assert fields[..|fields|] == fields;
    ValidIffNoErrors(check, fields);
  }

  /** `errors` holds exactly the names of the validated controls that fail. */
  lemma {:induction false} ErrorsNames(check: Field -> Outcome, fields: seq<Field>, name: string)
    ensures name in Errors(check, fields) <==>
              exists i :: 0 <= i < |fields| && Validated(fields[i]) && fields[i].name == name && check(fields[i]).Invalid?
  {
    if fields != [] {
      var init := fields[..|fields| - 1];
      ErrorsNames(check, init, name);
      if name in Errors(check, init) {
        var i :| 0 <= i < |init| && Validated(init[i]) && init[i].name == name && check(init[i]).Invalid?;
        assert fields[i] == init[i];
      }
      if exists i :: 0 <= i < |fields| && Validated(fields[i]) && fields[i].name == name && check(fields[i]).Invalid? {
        var i :| 0 <= i < |fields| && Validated(fields[i]) && fields[i].name == name && check(fields[i]).Invalid?;
        if i < |init| { assert init[i] == fields[i]; }
      }
    }
  }

  /** The form is valid exactly when `errors` is empty. */
  lemma ValidIffNoErrors(check: Field -> Outcome, fields: seq<Field>)
    ensures (forall i :: 0 <= i < |fields| && Validated(fields[i]) ==> check(fields[i]).Valid?)
            <==> Errors(check, fields) == map[]
  {
    var errors := Errors(check, fields);
    if forall i :: 0 <= i < |fields| && Validated(fields[i]) ==> check(fields[i]).Valid? {
      forall name | name in errors ensures false {
        ErrorsNames(check, fields, name);
      }
    } else {
      var i :| 0 <= i < |fields| && Validated(fields[i]) && !check(fields[i]).Valid?;
      ErrorsNames(check, fields, fields[i].name);
    }
  }

  // ---------------------------------------------------------------------------
  // The password strength meter

  datatype StrengthConfig = StrengthConfig(
    minLength: int, requireUppercase: bool, requireLowercase: bool,
    requireNumbers: bool, requireSpecial: bool)

  /** The meter's defaults; `createPasswordStrengthMeter(options)` spreads the
      options over them. */
  const DefaultStrengthConfig := StrengthConfig(8, true, true, true, false)

  datatype StrengthChecks = StrengthChecks(length: bool, uppercase: bool, lowercase: bool, numbers: bool, special: bool)

  datatype Strength = Strength(
    score: nat, max: nat, percentage: nat, level: string, color: string,
    feedback: seq<string>, checks: StrengthChecks)

  /** `/[A-Z]/.test(s)` */
  predicate HasUpper(s: string) { exists i :: 0 <= i < |s| && 'A' <= s[i] <= 'Z' }
  /** `/[a-z]/.test(s)` */
  predicate HasLower(s: string) { exists i :: 0 <= i < |s| && 'a' <= s[i] <= 'z' }
  /** `/[0-9]/.test(s)` */
  predicate HasDigit(s: string) { exists i :: 0 <= i < |s| && '0' <= s[i] <= '9' }
  /** `/[^A-Za-z0-9]/.test(s)` */
  predicate HasSpecial(s: string) {
    exists i :: 0 <= i < |s| && !('A' <= s[i] <= 'Z' || 'a' <= s[i] <= 'z' || '0' <= s[i] <= '9')
  }

  function Point(b: bool): nat { if b then 1 else 0 }

  function LengthMessage(minLength: int): string {
    "Password should be at least " + IntToString(minLength) + " characters long"
  }

  /** Each check the meter can report, in order: whether its flag asks for
      it, whether the password meets it, and the feedback line for it. */
  function Requirements(config: StrengthConfig, checks: StrengthChecks): seq<(bool, bool, string)> {
    [(true, checks.length, LengthMessage(config.minLength)),
     (config.requireUppercase, checks.uppercase, "Include at least one uppercase letter"),
     (config.requireLowercase, checks.lowercase, "Include at least one lowercase letter"),
     (config.requireNumbers, checks.numbers, "Include at least one number"),
     (config.requireSpecial, checks.special, "Include at least one special character")]
  }

  /** The feedback line of one requirement if it is asked for and not met. */
  function Item(req: (bool, bool, string)): seq<string> {
    if req.0 && !req.1 then [req.2] else []
  }

  /** The feedback lines of the requirements asked for and not met, in order. */
  function Unmet(reqs: seq<(bool, bool, string)>): seq<string> {
    if reqs == [] then [] else Item(reqs[0]) + Unmet(reqs[1..])
  }

  /** `checkStrength(password)`: one point each for the length and for an upper
      case letter, a lower case letter, a digit and any other character, so the
      score is between 0 and 5; the percentage is the score out of 5; the level
      is weak up to 1, fair at 2, good at 3 and strong from 4; the feedback lists
      the required checks that fail, in order. A check whose flag is off holds. */
  function CheckStrength(config: StrengthConfig, password: string): (s: Strength)
    ensures s.max == 5 && 0 <= s.score <= s.max
    ensures s.score == Point(Length(password) >= config.minLength) + Point(HasUpper(password))
                       + Point(HasLower(password)) + Point(HasDigit(password)) + Point(HasSpecial(password))
    ensures s.percentage == 20 * s.score
    ensures LevelNames(s.score, s.level, s.color)
    ensures ChecksMet(config, password, s.checks)
    ensures s.feedback == Unmet(Requirements(config, s.checks))
  {
    var checks := ChecksOf(config, password);
    var score := Score(config, password);
    var (level, color) := Level(score);
    Strength(score, 5, score * 20, level, color, Feedback(config, checks), checks)
  }

  /** The checks `checkStrength` reports: the length check, and each of the
      other four holds when its flag is off or the password meets it. */
  predicate ChecksMet(config: StrengthConfig, password: string, c: StrengthChecks) {
    && (c.length <==> Length(password) >= config.minLength)
    && (c.uppercase <==> !config.requireUppercase || HasUpper(password))
    && (c.lowercase <==> !config.requireLowercase || HasLower(password))
    && (c.numbers <==> !config.requireNumbers || HasDigit(password))
    && (c.special <==> !config.requireSpecial || HasSpecial(password))
  }

  function ChecksOf(config: StrengthConfig, password: string): (c: StrengthChecks)
    ensures ChecksMet(config, password, c)
  {
    StrengthChecks(
      Length(password) >= config.minLength,
      !config.requireUppercase || HasUpper(password),
      !config.requireLowercase || HasLower(password),
      !config.requireNumbers || HasDigit(password),
      !config.requireSpecial || HasSpecial(password))
  }

  /** The score counts every check, whether or not its flag asks for it. */
  function Score(config: StrengthConfig, password: string): (score: nat)
    ensures score == Point(Length(password) >= config.minLength) + Point(HasUpper(password))
                     + Point(HasLower(password)) + Point(HasDigit(password)) + Point(HasSpecial(password))
  {
    var score := 0;
    var score := if Length(password) >= config.minLength then score + 1 else score;
    var score := if HasUpper(password) then score + 1 else score;
    var score := if HasLower(password) then score + 1 else score;
    var score := if HasDigit(password) then score + 1 else score;
    if HasSpecial(password) then score + 1 else score
  }

  /** The level names and colours: weak and red up to 1, fair and orange at 2,
      good and blue at 3, strong and green from 4. */
  predicate LevelNames(score: nat, level: string, color: string) {
    && (level == "weak" <==> score <= 1)
    && (level == "fair" <==> score == 2)
    && (level == "good" <==> score == 3)
    && (level == "strong" <==> score >= 4)
    && (color == "red" <==> level == "weak")
    && (color == "orange" <==> level == "fair")
    && (color == "blue" <==> level == "good")
    && (color == "green" <==> level == "strong")
  }

  /** The level and its colour. */
  function Level(score: nat): (r: (string, string))
    ensures LevelNames(score, r.0, r.1)
  {
    if score <= 1 then ("weak", "red")
    else if score <= 2 then ("fair", "orange")
    else if score <= 3 then ("good", "blue")
    else ("strong", "green")
  }

  /** The feedback lines, appended one check at a time. */
  function Feedback(config: StrengthConfig, checks: StrengthChecks): (feedback: seq<string>)
    ensures feedback == Unmet(Requirements(config, checks))
  {
    var reqs := Requirements(config, checks);
    var feedback := [];
    var feedback := feedback + Item(reqs[0]);
    var feedback := feedback + Item(reqs[1]);
    var feedback := feedback + Item(reqs[2]);
    var feedback := feedback + Item(reqs[3]);
    var feedback := feedback + Item(reqs[4]);
    UnmetFive(reqs);
    feedback
  }

  lemma UnmetFive(reqs: seq<(bool, bool, string)>)
    requires |reqs| == 5
    ensures Unmet(reqs) == Item(reqs[0]) + Item(reqs[1]) + Item(reqs[2]) + Item(reqs[3]) + Item(reqs[4])
  {
    var t1 := reqs[1..];
    var t2 := t1[1..];
    var t3 := t2[1..];
    var t4 := t3[1..];
    assert t4[1..] == [];
    assert Unmet(t4) == Item(reqs[4]);
    assert Unmet(t3) == Item(reqs[3]) + Item(reqs[4]);
    assert Unmet(t2) == Item(reqs[2]) + (Item(reqs[3]) + Item(reqs[4]));
    assert Unmet(t1) == Item(reqs[1]) + (Item(reqs[2]) + (Item(reqs[3]) + Item(reqs[4])));
  }

  /** Every feedback line stands for a point the password did not earn, so the
      score and the number of feedback lines add up to at most 5. */
  lemma FeedbackCostsPoints(config: StrengthConfig, password: string)
    ensures CheckStrength(config, password).score + |CheckStrength(config, password).feedback| <= 5
  {
    var s := CheckStrength(config, password);
    UnmetFive(Requirements(config, s.checks));
  }

  /** With the defaults, "Ab1!" scores 4, one point for each kind of
      character though it is too short for the length point: strong. */
  lemma StrongExample()
    ensures CheckStrength(DefaultStrengthConfig, "Ab1!").score == 4
    ensures CheckStrength(DefaultStrengthConfig, "Ab1!").level == "strong"
  {
    var p := "Ab1!";
    Utf16OfBmp(p);
    assert Length(p) == 4;
    assert 'A' <= p[0] <= 'Z' && 'a' <= p[1] <= 'z' && '0' <= p[2] <= '9';
    assert p[3] == '!';
    assert HasUpper(p) && HasLower(p) && HasDigit(p) && HasSpecial(p);
    assert Score(DefaultStrengthConfig, p) == 4;
  }

  /** With the defaults, "Abcdefg1" scores 4: the length, an upper case
      letter, lower case letters and a digit, but no other character. */
  lemma AlphanumericExample()
    ensures CheckStrength(DefaultStrengthConfig, "Abcdefg1").score == 4
    ensures CheckStrength(DefaultStrengthConfig, "Abcdefg1").level == "strong"
  {
    var p := "Abcdefg1";
    Utf16OfBmp(p);
    assert Length(p) == 8;
    assert 'A' <= p[0] <= 'Z' && 'a' <= p[1] <= 'z' && '0' <= p[7] <= '9';
    forall i | 0 <= i < |p| ensures 'A' <= p[i] <= 'Z' || 'a' <= p[i] <= 'z' || '0' <= p[i] <= '9' {
    }
    assert Score(DefaultStrengthConfig, p) == 4;
  }

  /** With the defaults, "abc" scores 1: weak. */
  lemma WeakExample()
    ensures CheckStrength(DefaultStrengthConfig, "abc").score == 1
    ensures CheckStrength(DefaultStrengthConfig, "abc").level == "weak"
  {
    var q := "abc";
    Utf16OfBmp(q);
    assert Length(q) == 3;
    assert 'a' <= q[0] <= 'z';
    assert !HasUpper(q) && !HasDigit(q) && !HasSpecial(q);
    assert Score(DefaultStrengthConfig, q) == 1;
  }
}
