/** The part of Joi object validation that the services' schemas use:
    required keys, string / number / boolean / date types, non-empty
    strings, a minimum length, the email format, and the refusal of keys the
    schema does not name. Joi stops at the first failing key (`abortEarly`),
    checking the schema's keys in order and the unknown keys last. */
module Schema {
  import opened Js

  /** The value of a key must be of this kind. */
  datatype Kind =
    | Text(minLength: nat, email: bool)   // Joi.string(), optionally .min(n) (in UTF-16 code units) and .email()
    | Number                              // Joi.number()
    | Boolean                             // Joi.boolean()
    | Moment                              // Joi.date()

  datatype Rule = Rule(key: Key, kind: Kind, required: bool)

  type Schema = seq<Rule>

  /** Why a key fails. */
  datatype Issue =
    | Required
    | NotAString
    | EmptyString
    | NotAnEmail
    | TooShort
    | NotANumber
    | NotABoolean
    | NotADate

  datatype Failure =
    | KeyFailure(key: Key, issue: Issue)
    | NotAllowed(keys: set<Key>)

  /** The text formats Joi recognises by its own rules (the email grammar,
      numeric text converted to a number, date text converted to a date);
      their definitions are not part of this model. */
  datatype Formats = Formats(isEmail: string -> bool, isNumeric: string -> bool, isDate: string -> bool)

  /** Checks one present (non-`undefined`) value against its kind. */
  function CheckKind(kind: Kind, v: Value, f: Formats): Option<Issue>
  {
    match kind
    case Text(minLength, email) =>
      if !v.Str? then Some(NotAString)
      else if v.s == "" then Some(EmptyString)
      else if email && !f.isEmail(v.s) then Some(NotAnEmail)
      else if Length(v.s) < minLength then Some(TooShort)
      else None
    case Number =>
      if v.Num? || (v.Str? && f.isNumeric(v.s)) then None else Some(NotANumber)
    case Boolean =>
      if v.Bool? || v == Str("true") || v == Str("false") then None else Some(NotABoolean)
    case Moment =>
      if v.Date? || v.Num? || (v.Str? && f.isDate(v.s)) then None else Some(NotADate)
  }

  /** Checks the key a rule names; an `undefined` value counts as absent. */
  function CheckRule(rule: Rule, o: Object, f: Formats): Option<Issue>
  {
    var v := Get(o, rule.key);
    if v == Undefined then (if rule.required then Some(Required) else None)
    else CheckKind(rule.kind, v, f)
  }

  /** The first rule, from index `i` on, whose key fails. */
  function FirstFailing(schema: Schema, o: Object, f: Formats, i: nat): (r: Option<nat>)
    requires i <= |schema|
    ensures r.Some? ==> i <= r.value < |schema| && CheckRule(schema[r.value], o, f).Some?
    decreases |schema| - i
  {
    if i == |schema| then None
    else if CheckRule(schema[i], o, f).Some? then Some(i)
    else FirstFailing(schema, o, f, i + 1)
  }

  function Keys(schema: Schema): set<Key>
  {
    set i | 0 <= i < |schema| :: schema[i].key
  }

  /** The keys the object holds that the schema does not name. */
  function Unknown(schema: Schema, o: Object): set<Key>
  {
    set k | k in o && o[k] != Undefined && k !in Keys(schema)
  }

  /** `schema.validate(o).error`. */
  function Validate(schema: Schema, o: Object, f: Formats): Option<Failure>
  {
    match FirstFailing(schema, o, f, 0)
    case Some(i) => Some(KeyFailure(schema[i].key, CheckRule(schema[i], o, f).value))
    case None => if Unknown(schema, o) == {} then None else Some(NotAllowed(Unknown(schema, o)))
  }

  /** Every rule passes. */
  predicate AllPass(schema: Schema, o: Object, f: Formats)
  {
    forall i :: 0 <= i < |schema| ==> CheckRule(schema[i], o, f).None?
  }

  lemma {:induction false} FirstFailingNone(schema: Schema, o: Object, f: Formats, i: nat)
    requires i <= |schema|
    ensures FirstFailing(schema, o, f, i).None? <==>
            forall j :: i <= j < |schema| ==> CheckRule(schema[j], o, f).None?
    ensures FirstFailing(schema, o, f, i).Some? ==>
            forall j :: i <= j < FirstFailing(schema, o, f, i).value ==> CheckRule(schema[j], o, f).None?
    decreases |schema| - i
  {
    if i < |schema| {
      FirstFailingNone(schema, o, f, i + 1);
    }
  }

  /** Validation succeeds exactly when every rule passes and no unknown key is present. */
  lemma ValidateAccepts(schema: Schema, o: Object, f: Formats)
    ensures Validate(schema, o, f).None? <==> AllPass(schema, o, f) && Unknown(schema, o) == {}
  {
    FirstFailingNone(schema, o, f, 0);
  }

  /** A failure on a key names the first rule that fails, with its issue. */
  lemma ValidateReportsFirst(schema: Schema, o: Object, f: Formats)
    requires Validate(schema, o, f).Some? && Validate(schema, o, f).value.KeyFailure?
    ensures exists i :: 0 <= i < |schema| &&
              schema[i].key == Validate(schema, o, f).value.key &&
              CheckRule(schema[i], o, f) == Some(Validate(schema, o, f).value.issue) &&
              forall j :: 0 <= j < i ==> CheckRule(schema[j], o, f).None?
  {
    FirstFailingNone(schema, o, f, 0);
    var i := FirstFailing(schema, o, f, 0).value;
    assert CheckRule(schema[i], o, f) == Some(Validate(schema, o, f).value.issue);
  }

  /** A required key that is missing fails validation. */
  lemma MissingRequired(schema: Schema, o: Object, f: Formats, i: nat)
    requires i < |schema| && schema[i].required && Get(o, schema[i].key) == Undefined
    ensures Validate(schema, o, f).Some?
  {
    ValidateAccepts(schema, o, f);
    assert CheckRule(schema[i], o, f) == Some(Required);
  }

  /** A rule that passes for a required key means the key holds a value of its kind. */
  lemma RequiredPass(rule: Rule, o: Object, f: Formats)
    requires rule.required && CheckRule(rule, o, f).None?
    ensures rule.key in o && o[rule.key] != Undefined
    ensures rule.kind.Text? ==> o[rule.key].Str? && o[rule.key].s != "" && Length(o[rule.key].s) >= rule.kind.minLength
    ensures rule.kind.Text? && rule.kind.email ==> f.isEmail(o[rule.key].s)
    ensures rule.kind == Boolean ==> o[rule.key].Bool? || o[rule.key] == Str("true") || o[rule.key] == Str("false")
    ensures rule.kind == Number ==> o[rule.key].Num? || (o[rule.key].Str? && f.isNumeric(o[rule.key].s))
  {
  }
}
