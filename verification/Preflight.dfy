/** Request validation against a declared schema, and the generator of invalid variants. */
module Preflight {
  import opened Wrappers
  import opened Numerals
  import opened Ordering

  // ----- Requests -----

  /** A JSON value; a number keeps its text. */
  datatype Json =
    | Null
    | Boolean(value: bool)
    | Numeric(text: string)
    | Text(chars: string)
    | List(items: seq<Json>)
    | Object(fields: map<string, Json>)

  /** The text of a string or number field; None if absent or not scalar. */
  function Scalar(value: Json, field: string): Option<string> {
    if !value.Object? || field !in value.fields then None
    else
      match value.fields[field]
      case Text(chars) => Some(chars)
      case Numeric(text) => Some(text)
      case _ => None
  }

  /** An empty text counts as absent. */
  predicate Present(value: Json, field: string) {
    Scalar(value, field).Some? && Scalar(value, field).value != ""
  }

  // ----- Schemas -----

  datatype FieldType = StringType | IntegerType | NumberType

  datatype EnumRule = EnumRule(applicable: bool, values: seq<string>, confirmed: bool)

  datatype RangeRule = RangeRule(applicable: bool, min: Option<int64>, max: Option<int64>, confirmed: bool)

  datatype FormatKind = Symbol | Date

  datatype FormatRule = FormatRule(applicable: bool, kind: Option<FormatKind>, confirmed: bool)

  /** What only the probe reads. */
  datatype ProbeFacets = ProbeFacets(
    gatewayTolerant: seq<string>, placedNothingCodes: map<string, seq<string>>, bookingDetermining: seq<string>)

  datatype FieldConstraint = FieldConstraint(
    name: string, fieldType: FieldType, required: bool,
    enumRule: EnumRule, range: RangeRule, format: FormatRule, facets: ProbeFacets)

  datatype CrossFieldRule = DateOrder(start: string, end: string, confirmed: bool, gatewayTolerant: bool)

  datatype ConstraintSchema = ConstraintSchema(fields: seq<FieldConstraint>, crossField: seq<CrossFieldRule>)

  /** Floating-point rounding and the Unicode class used by the symbol format. */
  datatype Platform = Platform(round: real -> F64, alphanumeric: char -> bool)

  // ----- Validation -----

  datatype Reason =
    | Missing | NotAnInteger | NotANumber | NotInSet | BelowMin | AboveMax | WrongFormat | StartAfterEnd

  datatype PreflightError = PreflightError(field: string, reason: Reason)

  predicate TypeOk(platform: Platform, fieldType: FieldType, s: string) {
    match fieldType
    case StringType => true
    case IntegerType => ParseI64(s).Some?
    case NumberType => ParseF64(platform.round, s).Some?
  }

  predicate TooSmall(platform: Platform, range: RangeRule, s: string) {
    var n := ParseF64(platform.round, s);
    n.Some? && range.min.Some? && Less(n.value, platform.round(range.min.value as real))
  }

  predicate TooLarge(platform: Platform, range: RangeRule, s: string) {
    var n := ParseF64(platform.round, s);
    n.Some? && range.max.Some? && Less(platform.round(range.max.value as real), n.value)
  }

  predicate Shaped(platform: Platform, kind: FormatKind, s: string) {
    match kind
    case Symbol => s != "" && forall i :: 0 <= i < |s| ==> platform.alphanumeric(s[i])
    case Date => |s| == 8 && Digits(s)
  }

  /** The first check a filled-in value fails. */
  function ScalarError(platform: Platform, field: FieldConstraint, s: string): Option<Reason> {
    if field.fieldType.IntegerType? && ParseI64(s).None? then Some(NotAnInteger)
    else if field.fieldType.NumberType? && ParseF64(platform.round, s).None? then Some(NotANumber)
    else if field.enumRule.applicable && field.enumRule.confirmed && s !in field.enumRule.values then Some(NotInSet)
    else if field.range.applicable && field.range.confirmed && TooSmall(platform, field.range, s) then Some(BelowMin)
    else if field.range.applicable && field.range.confirmed && TooLarge(platform, field.range, s) then Some(AboveMax)
    else if field.format.applicable && field.format.confirmed && field.format.kind.Some?
         && !Shaped(platform, field.format.kind.value, s) then Some(WrongFormat)
    else None
  }

  function ValidateField(platform: Platform, field: FieldConstraint, value: Json): Option<Reason> {
    if field.required && !Present(value, field.name) then Some(Missing)
    else
      match Scalar(value, field.name)
      case None => None
      case Some(s) => if s == "" then None else ScalarError(platform, field, s)
  }

  function ValidateCrossField(rule: CrossFieldRule, value: Json): Option<Reason> {
    if !rule.confirmed then None
    else
      match (Scalar(value, rule.start), Scalar(value, rule.end))
      case (Some(s), Some(e)) => if s != "" && e != "" && !StringLe(s, e) then Some(StartAfterEnd) else None
      case _ => None
  }

  function PairName(rule: CrossFieldRule): string {
    rule.start + "/" + rule.end
  }

  function FirstFieldError(platform: Platform, fields: seq<FieldConstraint>, value: Json): Option<PreflightError> {
    if fields == [] then None
    else
      match ValidateField(platform, fields[0], value)
      case Some(reason) => Some(PreflightError(fields[0].name, reason))
      case None => FirstFieldError(platform, fields[1..], value)
  }

  function FirstCrossError(rules: seq<CrossFieldRule>, value: Json): Option<PreflightError> {
    if rules == [] then None
    else
      match ValidateCrossField(rules[0], value)
      case Some(reason) => Some(PreflightError(PairName(rules[0]), reason))
      case None => FirstCrossError(rules[1..], value)
  }

  /** None if the request passes, otherwise the first error. */
  function ValidateRequest(platform: Platform, schema: ConstraintSchema, value: Json): Option<PreflightError> {
    match FirstFieldError(platform, schema.fields, value)
    case Some(error) => Some(error)
    case None => FirstCrossError(schema.crossField, value)
  }

  // ----- What is accepted -----

  /** Every declared and confirmed rule on a filled-in value. */
  predicate Satisfies(platform: Platform, field: FieldConstraint, s: string) {
    && TypeOk(platform, field.fieldType, s)
    && (field.enumRule.applicable && field.enumRule.confirmed ==> s in field.enumRule.values)
    && (field.range.applicable && field.range.confirmed ==>
          !TooSmall(platform, field.range, s) && !TooLarge(platform, field.range, s))
    && (field.format.applicable && field.format.confirmed && field.format.kind.Some? ==>
          Shaped(platform, field.format.kind.value, s))
  }

  predicate FieldOk(platform: Platform, field: FieldConstraint, value: Json) {
    if Present(value, field.name) then Satisfies(platform, field, Scalar(value, field.name).value) else !field.required
  }

  predicate Ordered(rule: CrossFieldRule, value: Json) {
    Present(value, rule.start) && Present(value, rule.end) ==>
      StringLe(Scalar(value, rule.start).value, Scalar(value, rule.end).value)
  }

  predicate CrossOk(rule: CrossFieldRule, value: Json) {
    rule.confirmed ==> Ordered(rule, value)
  }

  ghost predicate Accepts(platform: Platform, schema: ConstraintSchema, value: Json) {
    && (forall i :: 0 <= i < |schema.fields| ==> FieldOk(platform, schema.fields[i], value))
    && (forall j :: 0 <= j < |schema.crossField| ==> CrossOk(schema.crossField[j], value))
  }

  /** The rule a reason names is broken by the request. */
  predicate Broken(platform: Platform, field: FieldConstraint, value: Json, reason: Reason) {
    var s := if Present(value, field.name) then Scalar(value, field.name).value else "";
    match reason
    case Missing => field.required && !Present(value, field.name)
    case NotAnInteger => Present(value, field.name) && field.fieldType.IntegerType? && ParseI64(s).None?
    case NotANumber => Present(value, field.name) && field.fieldType.NumberType? && ParseF64(platform.round, s).None?
    case NotInSet => Present(value, field.name) && field.enumRule.applicable && field.enumRule.confirmed &&
      s !in field.enumRule.values
    case BelowMin => Present(value, field.name) && field.range.applicable && field.range.confirmed &&
      TooSmall(platform, field.range, s)
    case AboveMax => Present(value, field.name) && field.range.applicable && field.range.confirmed &&
      TooLarge(platform, field.range, s)
    case WrongFormat => Present(value, field.name) && field.format.applicable && field.format.confirmed
                        && field.format.kind.Some? && !Shaped(platform, field.format.kind.value, s)
    case StartAfterEnd => false
  }

  lemma FieldVerdict(platform: Platform, field: FieldConstraint, value: Json)
    ensures ValidateField(platform, field, value).None? <==> FieldOk(platform, field, value)
    ensures ValidateField(platform, field, value).Some? ==>
              Broken(platform, field, value, ValidateField(platform, field, value).value)
  {
  }

  /** The error is that of the first field the request breaks. */
  ghost predicate BlamesField(platform: Platform, fields: seq<FieldConstraint>, value: Json, error: PreflightError,
        i: int)
  {
    && 0 <= i < |fields| && error.field == fields[i].name
    && Broken(platform, fields[i], value, error.reason)
    && !FieldOk(platform, fields[i], value)
    && forall k :: 0 <= k < i ==> FieldOk(platform, fields[k], value)
  }

  lemma {:induction false} FirstFieldErrorExact(platform: Platform, fields: seq<FieldConstraint>, value: Json)
    ensures FirstFieldError(platform, fields, value).None? <==>
              forall i :: 0 <= i < |fields| ==> FieldOk(platform, fields[i], value)
    ensures FirstFieldError(platform, fields, value).Some? ==>
              exists i :: BlamesField(platform, fields, value, FirstFieldError(platform, fields, value).value, i)
  {
    if fields != [] {
      FieldVerdict(platform, fields[0], value);
      FirstFieldErrorExact(platform, fields[1..], value);
      assert forall i :: 0 <= i < |fields[1..]| ==> fields[1..][i] == fields[i + 1];
      var error := FirstFieldError(platform, fields, value);
      if error.Some? {
        if !FieldOk(platform, fields[0], value) {
          assert BlamesField(platform, fields, value, error.value, 0);
        } else {
          var i :| BlamesField(platform, fields[1..], value, error.value, i);
          assert forall k :: 0 < k <= i ==> fields[k] == fields[1..][k - 1];
          assert BlamesField(platform, fields, value, error.value, i + 1);
        }
      } else {
        assert forall i :: 0 < i < |fields| ==> fields[i] == fields[1..][i - 1];
      }
    }
  }

  ghost predicate BlamesRule(rules: seq<CrossFieldRule>, value: Json, error: PreflightError, j: int) {
    && 0 <= j < |rules| && error == PreflightError(PairName(rules[j]), StartAfterEnd)
    && !CrossOk(rules[j], value) && forall k :: 0 <= k < j ==> CrossOk(rules[k], value)
  }

  lemma {:induction false} FirstCrossErrorExact(rules: seq<CrossFieldRule>, value: Json)
    ensures FirstCrossError(rules, value).None? <==> forall j :: 0 <= j < |rules| ==> CrossOk(rules[j], value)
    ensures FirstCrossError(rules, value).Some? ==>
              exists j :: BlamesRule(rules, value, FirstCrossError(rules, value).value, j)
  {
    if rules != [] {
      FirstCrossErrorExact(rules[1..], value);
      assert forall j :: 0 <= j < |rules[1..]| ==> rules[1..][j] == rules[j + 1];
      var error := FirstCrossError(rules, value);
      if error.Some? {
        if !CrossOk(rules[0], value) {
          assert BlamesRule(rules, value, error.value, 0);
        } else {
          var j :| BlamesRule(rules[1..], value, error.value, j);
          assert forall k :: 0 < k <= j ==> rules[k] == rules[1..][k - 1];
          assert BlamesRule(rules, value, error.value, j + 1);
        }
      } else {
        assert forall j :: 0 < j < |rules| ==> rules[j] == rules[1..][j - 1];
      }
    }
  }

  /** Validation passes exactly the requests satisfying every declared rule, and otherwise
      blames the first broken one: fields in order, then cross-field rules in order. */
  lemma ValidationExact(platform: Platform, schema: ConstraintSchema, value: Json)
    ensures ValidateRequest(platform, schema, value).None? <==> Accepts(platform, schema, value)
    ensures ValidateRequest(platform, schema, value).Some? ==>
      var error := ValidateRequest(platform, schema, value).value;
      || (exists i :: BlamesField(platform, schema.fields, value, error, i))
      || ((forall i :: 0 <= i < |schema.fields| ==> FieldOk(platform, schema.fields[i], value))
          && exists j :: BlamesRule(schema.crossField, value, error, j))
  {
    FirstFieldErrorExact(platform, schema.fields, value);
    FirstCrossErrorExact(schema.crossField, value);
  }

  // ----- How a request is read -----

  /** The field holds the text as a string, or as a number written that way. */
  predicate Holds(value: Json, field: string, s: string) {
    value.Object? && field in value.fields && (value.fields[field] == Text(s) || value.fields[field] == Numeric(s))
  }

  lemma ScalarIff(value: Json, field: string, s: string)
    ensures Scalar(value, field) == Some(s) <==> Holds(value, field, s)
    ensures Present(value, field) <==> exists t :: t != "" && Holds(value, field, t)
  {
    if Scalar(value, field).Some? {
      assert Holds(value, field, Scalar(value, field).value);
    }
  }

  /** Requests that read alike are judged alike. */
  lemma {:induction false} SameReading(platform: Platform, schema: ConstraintSchema, a: Json, b: Json)
    requires forall field :: Scalar(a, field) == Scalar(b, field)
    ensures ValidateRequest(platform, schema, a) == ValidateRequest(platform, schema, b)
    decreases |schema.fields| + |schema.crossField|
  {
    if schema.fields != [] {
      SameReading(platform, ConstraintSchema(schema.fields[1..], schema.crossField), a, b);
      assert ValidateField(platform, schema.fields[0], a) == ValidateField(platform, schema.fields[0], b);
    } else if schema.crossField != [] {
      SameReading(platform, ConstraintSchema([], schema.crossField[1..]), a, b);
      assert ValidateCrossField(schema.crossField[0], a) == ValidateCrossField(schema.crossField[0], b);
    }
  }

  /** A number is judged as the string it is written as, by every schema. */
  lemma NumbersReadAsText(platform: Platform, schema: ConstraintSchema, fields: map<string, Json>, key: string,
        t: string)
    ensures ValidateRequest(platform, schema, Object(fields[key := Numeric(t)]))
         == ValidateRequest(platform, schema, Object(fields[key := Text(t)]))
  {
    SameReading(platform, schema, Object(fields[key := Numeric(t)]), Object(fields[key := Text(t)]));
  }

  /** A required field is missing exactly when it is absent, neither text nor number, or empty. */
  lemma MissingIff(platform: Platform, field: FieldConstraint, value: Json)
    ensures ValidateField(platform, field, value) == Some(Missing) <==>
              && field.required
              && (|| !value.Object? || field.name !in value.fields
                  || !(value.fields[field.name].Text? || value.fields[field.name].Numeric?)
                  || value.fields[field.name] == Text("") || value.fields[field.name] == Numeric(""))
  {
  }

  /** A date is eight digits; a symbol is some alphanumeric characters. */
  lemma Shapes(platform: Platform, s: string)
    ensures Shaped(platform, Date, s) <==> |s| == 8 && forall c :: c in s ==> '0' <= c <= '9'
    ensures Shaped(platform, Symbol, s) <==> |s| > 0 && forall c :: c in s ==> platform.alphanumeric(c)
  {
    assert forall i :: 0 <= i < |s| ==> s[i] in s;
  }

  // ----- Confirmation and facets -----

  /** `b` is `a` with some confirmations cleared. */
  predicate RelaxedField(a: FieldConstraint, b: FieldConstraint) {
    && b == a.(enumRule := a.enumRule.(confirmed := b.enumRule.confirmed),
               range := a.range.(confirmed := b.range.confirmed),
               format := a.format.(confirmed := b.format.confirmed))
    && (b.enumRule.confirmed ==> a.enumRule.confirmed)
    && (b.range.confirmed ==> a.range.confirmed)
    && (b.format.confirmed ==> a.format.confirmed)
  }

  predicate Relaxed(a: ConstraintSchema, b: ConstraintSchema) {
    && |a.fields| == |b.fields| && |a.crossField| == |b.crossField|
    && (forall i :: 0 <= i < |a.fields| ==> RelaxedField(a.fields[i], b.fields[i]))
    && (forall j :: 0 <= j < |a.crossField| ==>
          && b.crossField[j] == a.crossField[j].(confirmed := b.crossField[j].confirmed)
          && (b.crossField[j].confirmed ==> a.crossField[j].confirmed))
  }

  /** Clearing confirmations never rejects a request that passed. */
  lemma RelaxingOnlyAdmits(platform: Platform, a: ConstraintSchema, b: ConstraintSchema, value: Json)
    requires Relaxed(a, b) && ValidateRequest(platform, a, value).None?
    ensures ValidateRequest(platform, b, value).None?
  {
    ValidationExact(platform, a, value);
    forall i | 0 <= i < |b.fields| ensures FieldOk(platform, b.fields[i], value) {
      assert RelaxedField(a.fields[i], b.fields[i]) && FieldOk(platform, a.fields[i], value);
    }
    forall j | 0 <= j < |b.crossField| ensures CrossOk(b.crossField[j], value) {
      assert CrossOk(a.crossField[j], value);
    }
    ValidationExact(platform, b, value);
  }

  /** The schemas differ at most in what only the probe reads. */
  predicate SameButFacets(a: ConstraintSchema, b: ConstraintSchema) {
    && |a.fields| == |b.fields| && |a.crossField| == |b.crossField|
    && (forall i :: 0 <= i < |a.fields| ==> b.fields[i] == a.fields[i].(facets := b.fields[i].facets))
    && (forall j :: 0 <= j < |a.crossField| ==>
          b.crossField[j] == a.crossField[j].(gatewayTolerant := b.crossField[j].gatewayTolerant))
  }

  /** Probe facets never change the verdict, nor which error is reported. */
  lemma {:induction false} FacetsIrrelevant(platform: Platform, a: ConstraintSchema, b: ConstraintSchema, value: Json)
    requires SameButFacets(a, b)
    ensures ValidateRequest(platform, a, value) == ValidateRequest(platform, b, value)
    decreases |a.fields| + |a.crossField|
  {
    if a.fields != [] {
      var restA := ConstraintSchema(a.fields[1..], a.crossField);
      var restB := ConstraintSchema(b.fields[1..], b.crossField);
      assert forall i :: 0 <= i < |restA.fields| ==>
          restA.fields[i] == a.fields[i + 1] && restB.fields[i] == b.fields[i + 1];
      FacetsIrrelevant(platform, restA, restB, value);
      assert ValidateField(platform, a.fields[0], value) == ValidateField(platform, b.fields[0], value);
    } else if a.crossField != [] {
      var restA := ConstraintSchema([], a.crossField[1..]);
      var restB := ConstraintSchema([], b.crossField[1..]);
      assert forall j :: 0 <= j < |restA.crossField| ==>
        restA.crossField[j] == a.crossField[j + 1] && restB.crossField[j] == b.crossField[j + 1];
      FacetsIrrelevant(platform, restA, restB, value);
      assert ValidateCrossField(a.crossField[0], value) == ValidateCrossField(b.crossField[0], value);
    }
  }
}
