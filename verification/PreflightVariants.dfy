/** The generator of invalid request variants, against the validator. */
module PreflightVariants {
  import opened Wrappers
  import opened Numerals
  import opened Ordering
  import opened Preflight

  // ----- Variants -----

  datatype InputClass = TypeClass | RequiredClass | EnumClass | RangeClass | FormatClass | CrossClass

  datatype InvalidVariant = InvalidVariant(field: string, inputClass: InputClass, request: Json)

  function SetKey(base: Json, key: string, value: Json): Json {
    if base.Object? then Object(base.fields[key := value]) else base
  }

  function JoinWith(values: seq<string>, separator: string): string {
    if values == [] then ""
    else if |values| == 1 then values[0]
    else values[0] + separator + JoinWith(values[1..], separator)
  }

  /** One past the nearer declared bound; release-mode arithmetic wraps. */
  function BadBound(range: RangeRule): int {
    match (range.min, range.max)
    case (Some(min), _) => Wrap64(min as int - 1)
    case (None, Some(max)) => Wrap64(max as int + 1)
    case (None, None) => -1
  }

  function BadFormat(kind: Option<FormatKind>): string {
    match kind
    case Some(Symbol) => "!!bad!!"
    case Some(Date) => "notadate"
    case None => "??"
  }

  /** The value injected to violate one class of a field. */
  function BadText(field: FieldConstraint, inputClass: InputClass): string {
    match inputClass
    case TypeClass => "not-a-number"
    case RequiredClass => ""
    case EnumClass => JoinWith(field.enumRule.values, "_") + "__invalid"
    case RangeClass => IntText(BadBound(field.range))
    case FormatClass => BadFormat(field.format.kind)
    case CrossClass => ""
  }

  /** A declared constraint: a class of the field at an index, or the rule at an index. */
  datatype Origin =
    | OfField(index: nat, field: FieldConstraint, inputClass: InputClass)
    | OfRule(index: nat, rule: CrossFieldRule)

  function Violation(seed: Json, origin: Origin): InvalidVariant {
    match origin
    case OfField(_, field, inputClass) =>
      InvalidVariant(field.name, inputClass, SetKey(seed, field.name, Text(BadText(field, inputClass))))
    case OfRule(_, rule) =>
      InvalidVariant(PairName(rule), CrossClass,
                     SetKey(SetKey(seed, rule.start, Text("99991231")), rule.end, Text("00010101")))
  }

  // ----- Which constraints a schema declares -----

  predicate DeclaresClass(field: FieldConstraint, inputClass: InputClass) {
    match inputClass
    case TypeClass => !field.fieldType.StringType?
    case RequiredClass => field.required
    case EnumClass => field.enumRule.applicable
    case RangeClass => field.range.applicable
    case FormatClass => field.format.applicable
    case CrossClass => false
  }

  predicate Declared(schema: ConstraintSchema, origin: Origin) {
    match origin
    case OfField(i, field, inputClass) => i < |schema.fields| && schema.fields[i] == field &&
      DeclaresClass(field, inputClass)
    case OfRule(j, rule) => j < |schema.crossField| && schema.crossField[j] == rule
  }

  function Rank(inputClass: InputClass): nat {
    match inputClass
    case TypeClass => 0
    case RequiredClass => 1
    case EnumClass => 2
    case RangeClass => 3
    case FormatClass => 4
    case CrossClass => 5
  }

  /** Fields in order, each field's classes in order, then the cross-field rules. */
  predicate Earlier(a: Origin, b: Origin) {
    if a.OfField? && b.OfField? then
      a.index < b.index || (a.index == b.index && Rank(a.inputClass) < Rank(b.inputClass))
    else if a.OfRule? && b.OfRule? then a.index < b.index
    else a.OfField?
  }

  /** The declared constraints among the first `fields` fields and `rules` rules, each once,
      in order. */
  ghost predicate Enumerates(schema: ConstraintSchema, origins: seq<Origin>, fields: nat, rules: nat) {
    && (forall i, j :: 0 <= i < j < |origins| ==> Earlier(origins[i], origins[j]))
    && (forall origin :: origin in origins <==>
          Declared(schema, origin) && origin.index < if origin.OfField? then fields else rules)
  }

  /** The variants are the violations of the declared constraints, each once, in order. */
  ghost predicate OnePerConstraint(schema: ConstraintSchema, seed: Json, variants: seq<InvalidVariant>) {
    exists origins: seq<Origin> ::
      Enumerates(schema, origins, |schema.fields|, |schema.crossField|) && Realizes(seed, origins, variants)
  }

  ghost predicate Realizes(seed: Json, origins: seq<Origin>, variants: seq<InvalidVariant>) {
    |variants| == |origins| && forall i :: 0 <= i < |origins| ==> variants[i] == Violation(seed, origins[i])
  }

  // ----- The generator -----

  /** The origins of the classes of one field up to a rank. */
  ghost predicate EnumeratesClasses(schema: ConstraintSchema, before: seq<Origin>, origins: seq<Origin>, field: nat,
        rank: nat)
  {
    && |before| <= |origins| && origins[..|before|] == before
    && (forall i, j :: 0 <= i < j < |origins| ==> Earlier(origins[i], origins[j]))
    && (forall origin :: origin in origins <==>
          origin in before || (origin.OfField? && origin.index == field && Declared(schema, origin) &&
            Rank(origin.inputClass) < rank))
  }

  lemma NextClass(schema: ConstraintSchema, before: seq<Origin>, origins: seq<Origin>, field: nat,
        inputClass: InputClass)
    requires Enumerates(schema, before, field, 0) && field < |schema.fields|
    requires EnumeratesClasses(schema, before, origins, field, Rank(inputClass))
    ensures var origin := OfField(field, schema.fields[field], inputClass);
      var now := if Declared(schema, origin) then origins + [origin] else origins;
      EnumeratesClasses(schema, before, now, field, Rank(inputClass) + 1)
  {
    var origin := OfField(field, schema.fields[field], inputClass);
    forall o: Origin | o.OfField? && o.index == field && Declared(schema, o) && Rank(o.inputClass) == Rank(inputClass)
      ensures o == origin
    {
    }
    if Declared(schema, origin) {
      var now := origins + [origin];
      forall i | 0 <= i < |origins| ensures Earlier(origins[i], origin) {
        assert origins[i] in origins;
      }
      assert now[..|before|] == before;
    }
  }

  lemma AllClasses(schema: ConstraintSchema, before: seq<Origin>, origins: seq<Origin>, field: nat)
    requires Enumerates(schema, before, field, 0) && field < |schema.fields|
    requires EnumeratesClasses(schema, before, origins, field, Rank(CrossClass))
    ensures Enumerates(schema, origins, field + 1, 0)
  {
  }

  /** Pushes one class of a field, if it is declared. */
  method PushClass(schema: ConstraintSchema, field: nat, seed: Json, inputClass: InputClass,
        variants: seq<InvalidVariant>, ghost before: seq<Origin>, ghost origins: seq<Origin>)
    returns (now: seq<InvalidVariant>, ghost nowOrigins: seq<Origin>)
    requires Enumerates(schema, before, field, 0) && field < |schema.fields|
    requires EnumeratesClasses(schema, before, origins, field, Rank(inputClass)) && Realizes(seed, origins, variants)
    ensures EnumeratesClasses(schema, before, nowOrigins, field, Rank(inputClass) + 1) &&
        Realizes(seed, nowOrigins, now)
    ensures now == variants + if DeclaresClass(schema.fields[field], inputClass)
                              then [Violation(seed, OfField(field, schema.fields[field], inputClass))] else []
  {
    NextClass(schema, before, origins, field, inputClass);
    var constraint := schema.fields[field];
    if DeclaresClass(constraint, inputClass) {
      now := variants + [InvalidVariant(constraint.name, inputClass,
        SetKey(seed, constraint.name, Text(BadText(constraint, inputClass))))];
      nowOrigins := origins + [OfField(field, constraint, inputClass)];
    } else {
      now, nowOrigins := variants, origins;
    }
  }

  method PushField(schema: ConstraintSchema, field: nat, seed: Json, variants: seq<InvalidVariant>,
        ghost origins: seq<Origin>)
    returns (now: seq<InvalidVariant>, ghost nowOrigins: seq<Origin>)
    requires Enumerates(schema, origins, field, 0) && field < |schema.fields| && Realizes(seed, origins, variants)
    ensures Enumerates(schema, nowOrigins, field + 1, 0) && Realizes(seed, nowOrigins, now)
  {
    now, nowOrigins := PushClass(schema, field, seed, TypeClass, variants, origins, origins);
    now, nowOrigins := PushClass(schema, field, seed, RequiredClass, now, origins, nowOrigins);
    now, nowOrigins := PushClass(schema, field, seed, EnumClass, now, origins, nowOrigins);
    now, nowOrigins := PushClass(schema, field, seed, RangeClass, now, origins, nowOrigins);
    now, nowOrigins := PushClass(schema, field, seed, FormatClass, now, origins, nowOrigins);
    AllClasses(schema, origins, nowOrigins, field);
  }

  lemma NextRule(schema: ConstraintSchema, origins: seq<Origin>, j: nat)
    requires Enumerates(schema, origins, |schema.fields|, j) && j < |schema.crossField|
    ensures Enumerates(schema, origins + [OfRule(j, schema.crossField[j])], |schema.fields|, j + 1)
  {
    forall i | 0 <= i < |origins| ensures Earlier(origins[i], OfRule(j, schema.crossField[j])) {
      assert origins[i] in origins;
    }
  }

  /** One variant for each declared constraint, in order. */
  method GenerateInvalidVariants(schema: ConstraintSchema, seed: Json) returns (variants: seq<InvalidVariant>)
    ensures OnePerConstraint(schema, seed, variants)
  {
    variants := [];
    ghost var origins: seq<Origin> := [];
    for i := 0 to |schema.fields|
      invariant Enumerates(schema, origins, i, 0) && Realizes(seed, origins, variants)
    {
      variants, origins := PushField(schema, i, seed, variants, origins);
    }
    for j := 0 to |schema.crossField|
      invariant Enumerates(schema, origins, |schema.fields|, j) && Realizes(seed, origins, variants)
    {
      var rule := schema.crossField[j];
      NextRule(schema, origins, j);
      var request := SetKey(seed, rule.start, Text("99991231"));
      request := SetKey(request, rule.end, Text("00010101"));
      variants := variants + [InvalidVariant(PairName(rule), CrossClass, request)];
      origins := origins + [OfRule(j, rule)];
    }
  }

  predicate EarlierOrSame(a: Origin, b: Origin) {
    a == b || Earlier(a, b)
  }

  lemma EnumerationUnique(schema: ConstraintSchema, x: seq<Origin>, y: seq<Origin>, fields: nat, rules: nat)
    requires Enumerates(schema, x, fields, rules) && Enumerates(schema, y, fields, rules)
    ensures x == y
  {
    assert NoDuplicates(x) && NoDuplicates(y);
    forall origin ensures origin in x <==> origin in y {
      assert origin in x <==> Declared(schema, origin) && origin.index < if origin.OfField? then fields else rules;
    }
    SameMembers(x, y);
    StrictlySorted(x);
    StrictlySorted(y);
    SortedUnique(EarlierOrSame, x, y);
  }

  lemma StrictlySorted(s: seq<Origin>)
    requires forall i, j :: 0 <= i < j < |s| ==> Earlier(s[i], s[j])
    ensures SortedBy(EarlierOrSame, s) && Antisymmetric(EarlierOrSame, s)
  {
  }

  /** A schema and a seed have one list of variants: generation is deterministic. */
  lemma VariantsDetermined(schema: ConstraintSchema, seed: Json, a: seq<InvalidVariant>, b: seq<InvalidVariant>)
    requires OnePerConstraint(schema, seed, a) && OnePerConstraint(schema, seed, b)
    ensures a == b
  {
    var x: seq<Origin> :| Enumerates(schema, x, |schema.fields|, |schema.crossField|) && Realizes(seed, x, a);
    var y: seq<Origin> :| Enumerates(schema, y, |schema.fields|, |schema.crossField|) && Realizes(seed, y, b);
    EnumerationUnique(schema, x, y, |schema.fields|, |schema.crossField|);
  }

  // ----- Every variant violates the constraint it came from -----

  /** The keys a violation writes. */
  function Names(origin: Origin): set<string> {
    if origin.OfField? then {origin.field.name} else {origin.rule.start, origin.rule.end}
  }

  /** The variant differs from an object seed at the named keys only: those hold text, and
      every other field is there with its whole value. */
  lemma DiffersOnlyThere(seed: Json, origin: Origin)
    requires seed.Object?
    ensures var request := Violation(seed, origin).request;
      && request.Object? && request.fields - Names(origin) == seed.fields - Names(origin)
      && (forall key :: key in Names(origin) ==> key in request.fields && request.fields[key].Text?)
      && forall key :: key !in Names(origin) ==> Scalar(request, key) == Scalar(seed, key)
  {
    var request := Violation(seed, origin).request;
    forall key | key !in Names(origin)
      ensures key in request.fields <==> key in seed.fields
      ensures key in request.fields ==> request.fields[key] == seed.fields[key]
    {
    }
  }

  /** The constraint a variant came from, taken as confirmed, is broken by its request. */
  predicate OwnConstraintBroken(platform: Platform, origin: Origin, request: Json) {
    match origin
    case OfRule(_, rule) => !Ordered(rule, request)
    case OfField(_, field, inputClass) =>
      if inputClass.RequiredClass? then !Present(request, field.name)
      else
        Present(request, field.name) &&
        var s := Scalar(request, field.name).value;
        match inputClass
        case TypeClass => !TypeOk(platform, field.fieldType, s)
        case EnumClass => s !in field.enumRule.values
        case RangeClass => TooSmall(platform, field.range, s) || TooLarge(platform, field.range, s)
        case FormatClass => field.format.kind.Some? && !Shaped(platform, field.format.kind.value, s)
        case _ => false
  }

  /** What the schema must declare for a violation to be one: rounding keeps the value past
      the bound apart from it, the format names a kind, and the rule names two fields. */
  predicate Bites(platform: Platform, origin: Origin) {
    match origin
    case OfRule(_, rule) => rule.start != rule.end
    case OfField(_, field, inputClass) =>
      match inputClass
      case RangeClass => BoundSeparates(platform, field.range)
      case FormatClass => field.format.kind.Some?
      case _ => true
  }

  predicate BoundSeparates(platform: Platform, range: RangeRule) {
    var bad := platform.round(BadBound(range) as real);
    || (range.min.Some? && Less(bad, platform.round(range.min.value as real)))
    || (range.max.Some? && Less(platform.round(range.max.value as real), bad))
  }

  predicate OfFormat(origin: Origin) {
    origin.OfField? && origin.inputClass.FormatClass?
  }

  /** '!' is in no alphanumeric class. */
  ghost predicate Lawful(platform: Platform) {
    !platform.alphanumeric('!')
  }

  lemma {:induction false} JoinLonger(values: seq<string>, separator: string, value: string)
    requires value in values
    ensures |value| <= |JoinWith(values, separator)|
  {
    if |values| > 1 && value != values[0] {
      assert values == [values[0]] + values[1..];
      JoinLonger(values[1..], separator, value);
    }
  }

  lemma EnumTextOutside(values: seq<string>)
    ensures JoinWith(values, "_") + "__invalid" !in values
  {
    var bad := JoinWith(values, "_") + "__invalid";
    if bad in values {
      JoinLonger(values, "_", bad);
    }
  }

  lemma NotANumberText(platform: Platform)
    ensures ParseI64("not-a-number").None? && ParseF64(platform.round, "not-a-number").None?
  {
    var s := "not-a-number";
    assert s[0] == 'n';
    assert |Lower(s)| == 12;
    OddStart(platform.round, s);
  }

  lemma FieldViolationBites(platform: Platform, seed: Json, origin: Origin)
    requires OfFormat(origin) ==> Lawful(platform)
    requires seed.Object? && origin.OfField? && DeclaresClass(origin.field, origin.inputClass)
    ensures OwnConstraintBroken(platform, origin, Violation(seed, origin).request) <==> Bites(platform, origin)
  {
    var request := Violation(seed, origin).request;
    var field := origin.field;
    assert Scalar(request, field.name) == Some(BadText(field, origin.inputClass));
    match origin.inputClass
    case TypeClass => NotANumberText(platform);
    case EnumClass => EnumTextOutside(field.enumRule.values);
    case RangeClass =>
      IntTextFloat(platform.round, BadBound(field.range));
      assert Present(request, field.name) by {
        IntTextParses(BadBound(field.range));
      }
    case FormatClass =>
      if field.format.kind == Some(Symbol) {
        assert "!!bad!!"[0] == '!';
      } else if field.format.kind == Some(Date) {
        assert "notadate"[0] == 'n';
      }
    case _ =>
  }

  lemma RuleViolationBites(platform: Platform, seed: Json, origin: Origin)
    requires seed.Object? && origin.OfRule?
    ensures OwnConstraintBroken(platform, origin, Violation(seed, origin).request) <==> Bites(platform, origin)
  {
    assert "99991231"[0] == '9' && "00010101"[0] == '0';
    StringOrder();
  }

  /** A variant of an object seed breaks the constraint it came from exactly when that
      constraint bites. */
  lemma ViolationIff(platform: Platform, seed: Json, origin: Origin)
    requires (OfFormat(origin) ==> Lawful(platform)) && seed.Object?
    requires origin.OfField? ==> DeclaresClass(origin.field, origin.inputClass)
    ensures OwnConstraintBroken(platform, origin, Violation(seed, origin).request) <==> Bites(platform, origin)
  {
    if origin.OfField? {
      FieldViolationBites(platform, seed, origin);
    } else {
      RuleViolationBites(platform, seed, origin);
    }
  }

  // ----- The validator rejects them -----

  /** The validator skips a value constraint that is not confirmed. */
  predicate Enforced(origin: Origin) {
    match origin
    case OfRule(_, rule) => rule.confirmed
    case OfField(_, field, inputClass) =>
      match inputClass
      case EnumClass => field.enumRule.confirmed
      case RangeClass => field.range.confirmed
      case FormatClass => field.format.confirmed
      case _ => true
  }

  function WithoutClass(field: FieldConstraint, inputClass: InputClass): FieldConstraint {
    match inputClass
    case TypeClass => field.(fieldType := StringType)
    case RequiredClass => field.(required := false)
    case EnumClass => field.(enumRule := field.enumRule.(applicable := false))
    case RangeClass => field.(range := field.range.(applicable := false))
    case FormatClass => field.(format := field.format.(applicable := false))
    case CrossClass => field
  }

  /** The schema with one declared constraint taken out, the others as they were. */
  function Without(schema: ConstraintSchema, origin: Origin): ConstraintSchema
    requires Declared(schema, origin)
  {
    match origin
    case OfField(i, field, inputClass) =>
      schema.(fields := schema.fields[i := WithoutClass(field, inputClass)])
    case OfRule(j, rule) => schema.(crossField := schema.crossField[j := rule.(confirmed := false)])
  }

  lemma FieldApart(platform: Platform, origin: Origin, request: Json)
    requires origin.OfField? && DeclaresClass(origin.field, origin.inputClass)
    ensures FieldOk(platform, origin.field, request) <==>
              && !(Enforced(origin) && OwnConstraintBroken(platform, origin, request))
              && FieldOk(platform, WithoutClass(origin.field, origin.inputClass), request)
  {
  }

  /** A request passes exactly when it keeps one declared constraint and passes the others. */
  lemma AcceptsApart(platform: Platform, schema: ConstraintSchema, origin: Origin, request: Json)
    requires Declared(schema, origin)
    ensures Accepts(platform, schema, request) <==>
              && !(Enforced(origin) && OwnConstraintBroken(platform, origin, request))
              && Accepts(platform, Without(schema, origin), request)
  {
    var rest := Without(schema, origin);
    if origin.OfField? {
      FieldApart(platform, origin, request);
      assert rest.fields[origin.index] == WithoutClass(origin.field, origin.inputClass);
      assert forall i :: 0 <= i < |schema.fields| && i != origin.index ==> rest.fields[i] == schema.fields[i];
    } else {
      assert CrossOk(rest.crossField[origin.index], request);
      assert forall j :: 0 <= j < |schema.crossField| && j != origin.index ==>
        rest.crossField[j] == schema.crossField[j];
    }
  }

  /** A variant of an object seed passes exactly when its own constraint does not bite, or is
      not confirmed, and the rest of the schema accepts the request. */
  lemma VariantRejectedIff(platform: Platform, schema: ConstraintSchema, seed: Json, origin: Origin)
    requires (OfFormat(origin) ==> Lawful(platform)) && seed.Object? && Declared(schema, origin)
    ensures var request := Violation(seed, origin).request;
      ValidateRequest(platform, schema, request).None? <==>
        && !(Enforced(origin) && Bites(platform, origin))
        && ValidateRequest(platform, Without(schema, origin), request).None?
  {
    var request := Violation(seed, origin).request;
    ViolationIff(platform, seed, origin);
    AcceptsApart(platform, schema, origin, request);
    ValidationExact(platform, schema, request);
    ValidationExact(platform, Without(schema, origin), request);
  }

  predicate Reads(rule: CrossFieldRule, names: set<string>) {
    rule.start in names || rule.end in names
  }

  /** Where the seed itself passes, only the fields and rules the variant writes matter. */
  lemma VariantOfAcceptedSeedIff(platform: Platform, schema: ConstraintSchema, seed: Json, origin: Origin)
    requires Lawful(platform) && seed.Object? && Declared(schema, origin)
    requires ValidateRequest(platform, schema, seed).None?
    ensures var request, rest := Violation(seed, origin).request, Without(schema, origin);
      ValidateRequest(platform, schema, request).None? <==>
        && !(Enforced(origin) && Bites(platform, origin))
        && (forall i :: 0 <= i < |rest.fields| && rest.fields[i].name in Names(origin) ==>
              FieldOk(platform, rest.fields[i], request))
        && (forall j :: 0 <= j < |rest.crossField| && Reads(rest.crossField[j], Names(origin)) ==>
              CrossOk(rest.crossField[j], request))
  {
    var request, rest := Violation(seed, origin).request, Without(schema, origin);
    VariantRejectedIff(platform, schema, seed, origin);
    ValidationExact(platform, rest, request);
    ValidationExact(platform, schema, seed);
    AcceptsApart(platform, schema, origin, seed);
    DiffersOnlyThere(seed, origin);
    forall i | 0 <= i < |rest.fields| && rest.fields[i].name !in Names(origin)
      ensures FieldOk(platform, rest.fields[i], request)
    {
      assert FieldOk(platform, rest.fields[i], seed);
    }
    forall j | 0 <= j < |rest.crossField| && !Reads(rest.crossField[j], Names(origin))
      ensures CrossOk(rest.crossField[j], request)
    {
      assert CrossOk(rest.crossField[j], seed);
    }
  }

  lemma OwnConstraintRejects(platform: Platform, schema: ConstraintSchema, seed: Json, origin: Origin)
    requires Lawful(platform) && seed.Object? && Declared(schema, origin)
    requires Enforced(origin) && Bites(platform, origin)
    ensures ValidateRequest(platform, schema, Violation(seed, origin).request).Some?
    ensures origin.OfField? ==> !FieldOk(platform, origin.field, Violation(seed, origin).request)
  {
    VariantRejectedIff(platform, schema, seed, origin);
    ViolationIff(platform, seed, origin);
    if origin.OfField? {
      FieldApart(platform, origin, Violation(seed, origin).request);
    }
  }

  /** The validator rejects every generated variant that violates some confirmed constraint
      that bites, whatever the other constraints are. */
  lemma EveryVariantRejected(platform: Platform, schema: ConstraintSchema, seed: Json, variants: seq<InvalidVariant>,
        i: nat)
    requires Lawful(platform) && seed.Object?
    requires OnePerConstraint(schema, seed, variants) && i < |variants|
    requires exists origin :: Declared(schema, origin) && Violation(seed, origin) == variants[i]
               && Enforced(origin) && Bites(platform, origin)
    ensures ValidateRequest(platform, schema, variants[i].request).Some?
  {
    var origin :| Declared(schema, origin) && Violation(seed, origin) == variants[i]
      && Enforced(origin) && Bites(platform, origin);
    OwnConstraintRejects(platform, schema, seed, origin);
  }

  /** Where the seed itself passes, the error of a field's variant names exactly that field. */
  lemma ErrorNamesTheField(platform: Platform, schema: ConstraintSchema, seed: Json, origin: Origin)
    requires Lawful(platform) && seed.Object? && ValidateRequest(platform, schema, seed).None?
    requires origin.OfField? && Declared(schema, origin) && Enforced(origin) && Bites(platform, origin)
    ensures var error := ValidateRequest(platform, schema, Violation(seed, origin).request);
      error.Some? && error.value.field == Violation(seed, origin).field == origin.field.name
  {
    var request := Violation(seed, origin).request;
    ValidationExact(platform, schema, seed);
    ValidationExact(platform, schema, request);
    OwnConstraintRejects(platform, schema, seed, origin);
    var error := ValidateRequest(platform, schema, request).value;
    assert !FieldOk(platform, schema.fields[origin.index], request);
    var i :| BlamesField(platform, schema.fields, request, error, i);
    if schema.fields[i].name != origin.field.name {
      DiffersOnlyThere(seed, origin);
      assert FieldOk(platform, schema.fields[i], seed);
    }
  }

  /** Where the seed itself passes, the error of a rule's variant blames a field it writes, or the
      first broken rule, which reads a key it writes and is no later than its own. */
  lemma ErrorNamesThePair(platform: Platform, schema: ConstraintSchema, seed: Json, origin: Origin)
    requires Lawful(platform) && seed.Object? && ValidateRequest(platform, schema, seed).None?
    requires origin.OfRule? && Declared(schema, origin) && Enforced(origin) && Bites(platform, origin)
    ensures var request := Violation(seed, origin).request;
      var error := ValidateRequest(platform, schema, request);
      && error.Some?
      && (|| (exists i :: BlamesField(platform, schema.fields, request, error.value, i)
                && schema.fields[i].name in Names(origin))
          || (exists j :: BlamesRule(schema.crossField, request, error.value, j)
                && Reads(schema.crossField[j], Names(origin)) && j <= origin.index))
  {
    var request := Violation(seed, origin).request;
    ValidationExact(platform, schema, seed);
    ValidationExact(platform, schema, request);
    OwnConstraintRejects(platform, schema, seed, origin);
    ViolationIff(platform, seed, origin);
    DiffersOnlyThere(seed, origin);
    var error := ValidateRequest(platform, schema, request).value;
    if i :| BlamesField(platform, schema.fields, request, error, i) {
      assert FieldOk(platform, schema.fields[i], seed);
    } else {
      var j :| BlamesRule(schema.crossField, request, error, j);
      assert CrossOk(schema.crossField[j], seed);
      assert !CrossOk(schema.crossField[origin.index], request);
    }
  }

  ghost predicate FieldsKept(platform: Platform, schema: ConstraintSchema, origin: Origin, request: Json) {
    forall i :: 0 <= i < |schema.fields| && schema.fields[i].name in Names(origin) ==>
      FieldOk(platform, schema.fields[i], request)
  }

  /** Before any broken rule of another name that comes earlier, one of the same name is broken. */
  ghost predicate SameNameFirst(rules: seq<CrossFieldRule>, request: Json, name: string, n: nat)
    requires n < |rules|
  {
    forall j :: 0 <= j < n && !CrossOk(rules[j], request) && PairName(rules[j]) != name ==>
      exists k :: 0 <= k < j && !CrossOk(rules[k], request) && PairName(rules[k]) == name
  }

  /** The error of a rule's variant names that rule's own pair exactly when no field it writes
      is broken, and neither is an earlier rule of another name before one of the same name. */
  lemma ErrorNamesOwnPairIff(platform: Platform, schema: ConstraintSchema, seed: Json, origin: Origin)
    requires Lawful(platform) && seed.Object? && ValidateRequest(platform, schema, seed).None?
    requires origin.OfRule? && Declared(schema, origin) && Enforced(origin) && Bites(platform, origin)
    ensures var request := Violation(seed, origin).request;
      ValidateRequest(platform, schema, request) == Some(PreflightError(PairName(origin.rule), StartAfterEnd))
      <==> && FieldsKept(platform, schema, origin, request)
           && SameNameFirst(schema.crossField, request, PairName(origin.rule), origin.index)
  {
    var request := Violation(seed, origin).request;
    ErrorNamesThePair(platform, schema, seed, origin);
    OwnRuleBroken(platform, seed, origin);
    var error := ValidateRequest(platform, schema, request).value;
    if i :| BlamesField(platform, schema.fields, request, error, i) && schema.fields[i].name in Names(origin) {
      assert error.reason != StartAfterEnd && !FieldsKept(platform, schema, origin, request);
    } else {
      var j :| BlamesRule(schema.crossField, request, error, j) && j <= origin.index;
      FirstBrokenIsNamed(schema.crossField, request, error, j, PairName(origin.rule), origin.index);
      NoFieldBlamed(platform, schema, request);
    }
  }

  lemma OwnRuleBroken(platform: Platform, seed: Json, origin: Origin)
    requires seed.Object? && origin.OfRule? && Enforced(origin) && Bites(platform, origin)
    ensures !CrossOk(origin.rule, Violation(seed, origin).request)
  {
    RuleViolationBites(platform, seed, origin);
  }

  lemma FirstBrokenIsNamed(rules: seq<CrossFieldRule>, request: Json, error: PreflightError, j: int,
        name: string, n: nat)
    requires BlamesRule(rules, request, error, j) && j <= n < |rules|
    requires PairName(rules[n]) == name
    ensures error == PreflightError(name, StartAfterEnd) <==> SameNameFirst(rules, request, name, n)
  {
    if PairName(rules[j]) == name {
      forall m | 0 <= m < n && !CrossOk(rules[m], request) && PairName(rules[m]) != name
        ensures j < m
      {
      }
    }
  }

  /** An error that blames a rule blames no field. */
  lemma NoFieldBlamed(platform: Platform, schema: ConstraintSchema, request: Json)
    requires var error := ValidateRequest(platform, schema, request);
      error.Some? && error.value.reason == StartAfterEnd
    ensures forall i :: 0 <= i < |schema.fields| ==> FieldOk(platform, schema.fields[i], request)
  {
    ValidationExact(platform, schema, request);
  }

  /** Two rules that share a field: the variant of the second is blamed on the first. */
  lemma AnotherPairNamed(platform: Platform, a: string, b: string, c: string)
    requires a != b && b != c && a != c
    ensures var rules := [DateOrder(a, c, true, false), DateOrder(a, b, true, false)];
      var seed := Object(map[a := Text("1"), b := Text("5"), c := Text("5")]);
      var schema := ConstraintSchema([], rules);
      && ValidateRequest(platform, schema, seed).None?
      && ValidateRequest(platform, schema, Violation(seed, OfRule(1, rules[1])).request)
         == Some(PreflightError(a + "/" + c, StartAfterEnd))
  {
    var rules := [DateOrder(a, c, true, false), DateOrder(a, b, true, false)];
    var seed := Object(map[a := Text("1"), b := Text("5"), c := Text("5")]);
    var request := Violation(seed, OfRule(1, rules[1])).request;
    DigitOrder();
    assert Scalar(seed, a) == Some("1") && Scalar(seed, b) == Scalar(seed, c) == Some("5");
    assert Scalar(request, a) == Some("99991231") && Scalar(request, c) == Some("5");
    assert rules[1..] == [rules[1]];
    assert FirstCrossError(rules[1..], seed).None?;
  }

  lemma DigitOrder()
    ensures StringLe("1", "5") && !StringLe("99991231", "5")
  {
    assert "1"[0] == '1' && "5"[0] == '5' && "99991231"[0] == '9';
  }

  // ----- Which bounds separate -----

  const EXACT: int := 0x20_0000_0000_0000

  /** Integers up to 2^53 are floating-point numbers. */
  ghost predicate ExactIntegers(round: real -> F64) {
    forall n: int {:trigger round(n as real)} :: -EXACT <= n <= EXACT ==> round(n as real) == Finite(n as real)
  }

  lemma SmallBoundsSeparate(platform: Platform, range: RangeRule)
    requires ExactIntegers(platform.round)
    requires range.min.Some? || range.max.Some?
    requires range.min.Some? ==> -EXACT < range.min.value <= EXACT
    requires range.min.None? ==> -EXACT <= range.max.value < EXACT
    ensures BoundSeparates(platform, range)
  {
    var bad := BadBound(range);
    assert platform.round(bad as real) == Finite(bad as real);
    if range.min.Some? {
      assert platform.round((range.min.value as int) as real) == Finite(range.min.value as real);
    } else {
      assert platform.round((range.max.value as int) as real) == Finite(range.max.value as real);
    }
  }

  ghost predicate Exact(n: int) {
    -EXACT <= n <= EXACT
  }

  /** Bounds are inclusive: an integer is out of range exactly when it is below the minimum or
      above the maximum, where all are exact. */
  lemma BoundsInclusive(platform: Platform, range: RangeRule, n: int)
    requires ExactIntegers(platform.round) && Exact(n)
    requires range.min.Some? ==> Exact(range.min.value)
    requires range.max.Some? ==> Exact(range.max.value)
    ensures TooSmall(platform, range, IntText(n)) <==> range.min.Some? && n < range.min.value
    ensures TooLarge(platform, range, IntText(n)) <==> range.max.Some? && range.max.value < n
  {
    IntTextFloat(platform.round, n);
    assert platform.round(n as real) == Finite(n as real);
    if range.min.Some? {
      assert platform.round((range.min.value as int) as real) == Finite(range.min.value as real);
    }
    if range.max.Some? {
      assert platform.round((range.max.value as int) as real) == Finite(range.max.value as real);
    }
  }

  /** The words for no number and for infinity parse: the first is in every range, the others
      beyond every finite bound. */
  lemma WordsInRange(platform: Platform, range: RangeRule, s: string)
    requires s != "" && s[0] !in {'+', '-'}
    ensures EitherCase(s, "nan") ==> !TooSmall(platform, range, s) && !TooLarge(platform, range, s)
    ensures EitherCase(s, "inf") && range.max.Some? && platform.round(range.max.value as real).Finite? ==>
              TooLarge(platform, range, s)
    ensures EitherCase(s, "inf") && range.min.Some? && platform.round(range.min.value as real).Finite? ==>
              TooSmall(platform, range, ['-'] + s)
  {
    Words(platform.round, s, s);
    Words(platform.round, s, ['-'] + s);
  }

  /** Without a declared bound no value is out of range. */
  lemma NoBoundNeverSeparates(platform: Platform, range: RangeRule)
    requires range.min.None? && range.max.None?
    ensures !BoundSeparates(platform, range)
  {
  }

  /** The range variant of a field, of any type and with any other constraints, passes exactly
      when the bound does not separate, or is not confirmed, and the decimal text written is an
      allowed value of the field and of its format. */
  lemma RangeVariantRejectedIff(platform: Platform, seed: Json, field: FieldConstraint)
    requires seed.Object? && field.range.applicable
    ensures var text := IntText(BadBound(field.range));
      ValidateRequest(platform, ConstraintSchema([field], []),
        Violation(seed, OfField(0, field, RangeClass)).request).None?
      <==> && !(field.range.confirmed && BoundSeparates(platform, field.range))
           && (field.enumRule.applicable && field.enumRule.confirmed ==> text in field.enumRule.values)
           && (field.format.applicable && field.format.confirmed && field.format.kind.Some? ==>
                 Shaped(platform, field.format.kind.value, text))
  {
    var schema, origin := ConstraintSchema([field], []), OfField(0, field, RangeClass);
    var request := Violation(seed, origin).request;
    var text := IntText(BadBound(field.range));
    assert Without(schema, origin) == ConstraintSchema([WithoutClass(field, RangeClass)], []);
    assert Scalar(request, field.name) == Some(text);
    VariantRejectedIff(platform, schema, seed, origin);
    LoneField(platform, WithoutClass(field, RangeClass), request);
    WithoutRange(platform, field, request, text);
  }

  lemma LoneField(platform: Platform, field: FieldConstraint, request: Json)
    ensures ValidateRequest(platform, ConstraintSchema([field], []), request).None? <==>
              FieldOk(platform, field, request)
  {
    ValidationExact(platform, ConstraintSchema([field], []), request);
    assert ConstraintSchema([field], []).fields[0] == field;
  }

  /** Without its range rule a field takes an integer's text by its enum and format alone. */
  lemma WithoutRange(platform: Platform, field: FieldConstraint, request: Json, text: string)
    requires text == IntText(BadBound(field.range)) && Scalar(request, field.name) == Some(text)
    ensures FieldOk(platform, WithoutClass(field, RangeClass), request) <==>
              && (field.enumRule.applicable && field.enumRule.confirmed ==> text in field.enumRule.values)
              && (field.format.applicable && field.format.confirmed && field.format.kind.Some? ==>
                    Shaped(platform, field.format.kind.value, text))
  {
    IntTextParses(BadBound(field.range));
    IntTextFloat(platform.round, BadBound(field.range));
  }

  /** Beyond 2^53 a confirmed bound can let its own violation through: where 2^53 + 1 rounds
      to 2^53, the range variant of `min = 2^53 + 1` passes validation. */
  lemma LargeBoundPasses(platform: Platform, seed: Json, field: FieldConstraint)
    requires seed.Object? && !field.enumRule.applicable && !field.format.applicable
    requires platform.round((EXACT + 1) as real) == platform.round(EXACT as real) == Finite(EXACT as real)
    requires field.range == RangeRule(true, Some(EXACT + 1), None, true)
    ensures ValidateRequest(platform, ConstraintSchema([field], []),
        Violation(seed, OfField(0, field, RangeClass)).request).None?
  {
    RangeVariantRejectedIff(platform, seed, field);
    assert BadBound(field.range) == EXACT;
  }

  // ----- Constraints that never bite -----

  /** A range rule without bounds lets its own variant through. */
  lemma UnboundedRangePasses(platform: Platform, seed: Json, field: FieldConstraint)
    requires seed.Object? && !field.enumRule.applicable && !field.format.applicable
    requires field.range.applicable && field.range.min.None? && field.range.max.None?
    ensures ValidateRequest(platform, ConstraintSchema([field], []),
        Violation(seed, OfField(0, field, RangeClass)).request).None?
  {
    NoBoundNeverSeparates(platform, field.range);
    RangeVariantRejectedIff(platform, seed, field);
  }

  /** A format rule that names no kind lets its own variant through. */
  lemma KindlessFormatPasses(platform: Platform, seed: Json, field: FieldConstraint)
    requires seed.Object? && field.fieldType.StringType? && !field.enumRule.applicable && !field.range.applicable
    requires field.format.applicable && field.format.kind.None?
    ensures ValidateRequest(platform, ConstraintSchema([field], []),
        Violation(seed, OfField(0, field, FormatClass)).request).None?
  {
    var schema, request := ConstraintSchema([field], []), Violation(seed, OfField(0, field, FormatClass)).request;
    assert Scalar(request, field.name) == Some("??");
    assert FieldOk(platform, field, request);
    ValidationExact(platform, schema, request);
  }

  /** A date order that names one field twice lets its own variant through. */
  lemma SelfOrderPasses(platform: Platform, seed: Json, rule: CrossFieldRule)
    requires seed.Object? && rule.start == rule.end
    ensures ValidateRequest(platform, ConstraintSchema([], [rule]), Violation(seed, OfRule(0, rule)).request).None?
  {
    var schema, request := ConstraintSchema([], [rule]), Violation(seed, OfRule(0, rule)).request;
    RuleViolationBites(platform, seed, OfRule(0, rule));
    ValidationExact(platform, schema, request);
  }
}
