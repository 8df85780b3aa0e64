/** What the generator of invalid variants writes, and what taking a constraint out leaves, stated
    on their own terms. */
module VariantsOutcome {
  import opened Wrappers
  import opened Numerals
  import opened Preflight
  import opened PreflightVariants

  // ----- Injected texts -----

  /** One below the least value, or one above the greatest where none is least; at the ends of the
      64-bit range the other end. */
  predicate PastBound(range: RangeRule, n: int) {
    if range.min.Some? then
      n == if range.min.value == -9_223_372_036_854_775_808 then 9_223_372_036_854_775_807 else range.min.value - 1
    else if range.max.Some? then
      n == if range.max.value == 9_223_372_036_854_775_807 then -9_223_372_036_854_775_808 else range.max.value + 1
    else n == -1
  }

  lemma PastBoundIff(range: RangeRule, n: int)
    ensures n == BadBound(range) <==> PastBound(range, n)
  {
  }

  /** Joining puts the separator between any two neighbours. */
  lemma {:induction false} JoinAppend(values: seq<string>, separator: string, value: string)
    ensures JoinWith([], separator) == "" && JoinWith([value], separator) == value
    ensures values != [] ==>
              JoinWith(values + [value], separator) == JoinWith(values, separator) + separator + value
  {
    if |values| > 1 {
      JoinAppend(values[1..], separator, value);
      assert (values + [value])[1..] == values[1..] + [value];
    } else if |values| == 1 {
      assert (values + [value])[1..] == [value];
    }
  }

  /** The field declares a constraint of this class, and the text is injected against it. */
  ghost predicate Injects(field: FieldConstraint, inputClass: InputClass, text: string) {
    || (inputClass == TypeClass && field.fieldType in [IntegerType, NumberType] && text == "not-a-number")
    || (inputClass == RequiredClass && field.required && text == "")
    || (inputClass == EnumClass && field.enumRule.applicable &&
        text == JoinWith(field.enumRule.values, "_") + "__invalid")
    || (inputClass == RangeClass && field.range.applicable &&
        exists n :: PastBound(field.range, n) && text == IntText(n))
    || (inputClass == FormatClass && field.format.applicable &&
        ((field.format.kind == Some(Symbol) && text == "!!bad!!") ||
         (field.format.kind == Some(Date) && text == "notadate") ||
         (field.format.kind == None && text == "??")))
  }

  lemma InjectsIff(field: FieldConstraint, inputClass: InputClass, text: string)
    ensures Injects(field, inputClass, text) <==>
            DeclaresClass(field, inputClass) && text == BadText(field, inputClass)
  {
    forall n ensures n == BadBound(field.range) <==> PastBound(field.range, n) {
      PastBoundIff(field.range, n);
    }
  }

  // ----- The variants -----

  /** The seed with the text at the key; a seed that is not an object stays as it is. */
  predicate Written(seed: Json, key: string, text: string, request: Json) {
    if seed.Object? then request.Object? && request.fields == seed.fields[key := Text(text)] else request == seed
  }

  ghost predicate FieldVariant(seed: Json, field: FieldConstraint, variant: InvalidVariant) {
    && variant.field == field.name
    && exists text :: Injects(field, variant.inputClass, text) && Written(seed, field.name, text, variant.request)
  }

  ghost predicate RuleVariant(seed: Json, rule: CrossFieldRule, variant: InvalidVariant) {
    && variant.field == rule.start + "/" + rule.end && variant.inputClass == CrossClass
    && exists request ::
         Written(seed, rule.start, "99991231", request) && Written(request, rule.end, "00010101", variant.request)
  }

  lemma FieldVariantIff(seed: Json, field: FieldConstraint, i: nat, variant: InvalidVariant)
    ensures FieldVariant(seed, field, variant) <==>
            && DeclaresClass(field, variant.inputClass)
            && variant == Violation(seed, OfField(i, field, variant.inputClass))
  {
    var text := BadText(field, variant.inputClass);
    InjectsIff(field, variant.inputClass, text);
    forall t | Injects(field, variant.inputClass, t) ensures t == text {
      InjectsIff(field, variant.inputClass, t);
    }
    assert Written(seed, field.name, text, SetKey(seed, field.name, Text(text)));
  }

  lemma RuleVariantIff(seed: Json, rule: CrossFieldRule, j: nat, variant: InvalidVariant)
    ensures RuleVariant(seed, rule, variant) <==> variant == Violation(seed, OfRule(j, rule))
  {
    var request := SetKey(seed, rule.start, Text("99991231"));
    assert Written(seed, rule.start, "99991231", request);
    assert forall other | Written(seed, rule.start, "99991231", other) :: other == request;
    assert Written(request, rule.end, "00010101", SetKey(request, rule.end, Text("00010101")));
  }

  ghost predicate Comes(seed: Json, origins: seq<Origin>, o: Origin, variant: InvalidVariant) {
    o in origins && variant == Violation(seed, o)
  }

  lemma FromField(schema: ConstraintSchema, seed: Json, origins: seq<Origin>, variant: InvalidVariant)
    requires Enumerates(schema, origins, |schema.fields|, |schema.crossField|)
    ensures (exists i :: 0 <= i < |schema.fields| && FieldVariant(seed, schema.fields[i], variant)) <==>
            exists o: Origin :: o.OfField? && Comes(seed, origins, o, variant)
  {
    if i :| 0 <= i < |schema.fields| && FieldVariant(seed, schema.fields[i], variant) {
      FieldVariantIff(seed, schema.fields[i], i, variant);
      var origin := OfField(i, schema.fields[i], variant.inputClass);
      assert Declared(schema, origin);
      assert Comes(seed, origins, origin, variant);
    }
    if o: Origin :| o.OfField? && Comes(seed, origins, o, variant) {
      assert Declared(schema, o);
      FieldVariantIff(seed, schema.fields[o.index], o.index, variant);
    }
  }

  lemma FromRule(schema: ConstraintSchema, seed: Json, origins: seq<Origin>, variant: InvalidVariant)
    requires Enumerates(schema, origins, |schema.fields|, |schema.crossField|)
    ensures (exists j :: 0 <= j < |schema.crossField| && RuleVariant(seed, schema.crossField[j], variant)) <==>
            exists o: Origin :: o.OfRule? && Comes(seed, origins, o, variant)
  {
    if j :| 0 <= j < |schema.crossField| && RuleVariant(seed, schema.crossField[j], variant) {
      RuleVariantIff(seed, schema.crossField[j], j, variant);
      var origin := OfRule(j, schema.crossField[j]);
      assert Declared(schema, origin);
      assert Comes(seed, origins, origin, variant);
    }
    if o: Origin :| o.OfRule? && Comes(seed, origins, o, variant) {
      assert Declared(schema, o);
      RuleVariantIff(seed, schema.crossField[o.index], o.index, variant);
    }
  }

  /** The variants of a schema are exactly these: for each class a field declares, the seed with
      that class's text at the field, and for each rule, the seed with the last date at its start
      and the first at its end. */
  lemma VariantIff(schema: ConstraintSchema, seed: Json, variants: seq<InvalidVariant>, variant: InvalidVariant)
    requires OnePerConstraint(schema, seed, variants)
    ensures variant in variants <==>
      || (exists i :: 0 <= i < |schema.fields| && FieldVariant(seed, schema.fields[i], variant))
      || (exists j :: 0 <= j < |schema.crossField| && RuleVariant(seed, schema.crossField[j], variant))
  {
    var origins: seq<Origin> :| Enumerates(schema, origins, |schema.fields|, |schema.crossField|)
      && Realizes(seed, origins, variants);
    FromField(schema, seed, origins, variant);
    FromRule(schema, seed, origins, variant);
    VariantOfOrigin(seed, origins, variants, variant);
  }

  lemma VariantOfOrigin(seed: Json, origins: seq<Origin>, variants: seq<InvalidVariant>, variant: InvalidVariant)
    requires Realizes(seed, origins, variants)
    ensures variant in variants <==> exists o :: Comes(seed, origins, o, variant)
  {
    if variant in variants {
      var k :| 0 <= k < |variants| && variants[k] == variant;
      assert Comes(seed, origins, origins[k], variant);
    }
    if o :| Comes(seed, origins, o, variant) {
      var k :| 0 <= k < |origins| && origins[k] == o;
      assert variants[k] == variant;
    }
  }

  // ----- Taking a constraint out -----

  /** The field without its constraint of one class: every other facet stays. */
  predicate Lacks(field: FieldConstraint, inputClass: InputClass, rest: FieldConstraint) {
    && rest.name == field.name && rest.facets == field.facets
    && rest.fieldType == (if inputClass == TypeClass then StringType else field.fieldType)
    && (rest.required <==> field.required && inputClass != RequiredClass)
    && (rest.enumRule.applicable <==> field.enumRule.applicable && inputClass != EnumClass)
    && (rest.range.applicable <==> field.range.applicable && inputClass != RangeClass)
    && (rest.format.applicable <==> field.format.applicable && inputClass != FormatClass)
    && (rest.enumRule.values, rest.enumRule.confirmed) == (field.enumRule.values, field.enumRule.confirmed)
    && (rest.range.min, rest.range.max) == (field.range.min, field.range.max)
    && rest.range.confirmed == field.range.confirmed
    && (rest.format.kind, rest.format.confirmed) == (field.format.kind, field.format.confirmed)
  }

  /** Taking out a field's constraint clears one facet of that field; taking out a rule leaves it
      unconfirmed; nothing else changes. */
  lemma WithoutIs(schema: ConstraintSchema, origin: Origin)
    requires Declared(schema, origin)
    ensures var rest := Without(schema, origin);
      && |rest.fields| == |schema.fields| && |rest.crossField| == |schema.crossField|
      && (forall i :: 0 <= i < |schema.fields| ==>
            if origin.OfField? && i == origin.index then Lacks(schema.fields[i], origin.inputClass, rest.fields[i])
            else rest.fields[i] == schema.fields[i])
      && (forall j :: 0 <= j < |schema.crossField| ==>
            if origin.OfRule? && j == origin.index
            then !rest.crossField[j].confirmed && rest.crossField[j].(confirmed := origin.rule.confirmed) == origin.rule
            else rest.crossField[j] == schema.crossField[j])
  {
  }
}
