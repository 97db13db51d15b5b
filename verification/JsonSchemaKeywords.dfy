/**
 What each keyword of the subset says, one at a time and in plain terms, and
 that a schema reports what its keywords report, each as if it stood alone.
 */
module JsonSchemaKeywords {
  import opened Results
  import opened Json
  import opened JsonSchema
  import Pattern
  import PatternParser

  /** The one keyword `name`. */
  function Alone(name: string, value: Value): seq<Field> {
    [Field(name, value)]
  }

  function Here(at: string, rule: Rule): Violation {
    Violation(if at == "" then "/" else at, rule)
  }

  function Unless(condition: bool, at: string, rule: Rule): seq<Violation> {
    if condition then [] else [Here(at, rule)]
  }

  /** What is reported for a schema that is the object of `keywords`. */
  ghost function Said(checks: Checks, keywords: seq<Field>, instance: Value, root: Value, at: string, depth: nat,
                      limit: nat): seq<Violation>
    requires depth <= limit + 1
  {
    Walk(checks, Object(keywords), instance, root, at, depth, limit)
  }

  // ------------------------------------------------------------------
  // Reading a single keyword
  // ------------------------------------------------------------------

  lemma GetAlone(name: string, value: Value)
    ensures forall other :: Get(Alone(name, value), other) == if other == name then Some(value) else None
  {
    assert Alone(name, value)[1..] == [];
  }

  /** Without a reference, a schema of known keywords is walked as it stands. */
  lemma WalkKnown(checks: Checks, keywords: seq<Field>, instance: Value, root: Value, at: string, depth: nat,
                  limit: nat)
    requires depth <= limit && Get(keywords, "$ref") == None
    requires forall k :: 0 <= k < |keywords| ==> KnownKeyword(keywords[k].name)
    ensures Said(checks, keywords, instance, root, at, depth, limit)
         == WalkMap(checks, keywords, instance, root, at, depth, limit)
  {
    hide WalkMap, KnownKeyword;
    NoUnknownKeywords(keywords, at);
    assert Resolve(Object(keywords), root) == Ok(Object(keywords));
  }

  ghost predicate Silent(keywords: seq<Field>, names: set<string>) {
    forall name :: name in names ==> Get(keywords, name) == None
  }

  lemma {:induction false} SilentMembers(checks: Checks, keywords: seq<Field>, fields: seq<Field>, root: Value,
                                         at: string, depth: nat, limit: nat)
    requires depth <= limit && Silent(keywords, {"properties", "additionalProperties"})
    ensures WalkMembers(checks, keywords, fields, root, at, depth, limit) == []
  {
    if |fields| > 0 {
      SilentMembers(checks, keywords, fields[1..], root, at, depth, limit);
      assert "properties" in {"properties", "additionalProperties"};
      assert "additionalProperties" in {"properties", "additionalProperties"};
      assert MemberRuleFor(keywords, fields[0].name) == Free;
    }
  }

  const CHILD_KEYWORDS: set<string> := {"items", "properties", "additionalProperties"}

  lemma SilentChildren(checks: Checks, keywords: seq<Field>, instance: Value, root: Value, at: string, depth: nat,
                       limit: nat)
    requires depth <= limit && Silent(keywords, CHILD_KEYWORDS)
    ensures WalkChildren(checks, keywords, instance, root, at, depth, limit) == []
  {
    assert "items" in CHILD_KEYWORDS;
    if instance.Object? {
      SilentMembers(checks, keywords, instance.fields, root, at, depth, limit);
    }
  }

  const KIND_KEYWORDS: set<string> :=
    {"minLength", "maxLength", "pattern", "format", "minimum", "maximum", "minItems", "maxItems", "required"}

  lemma SilentKind(checks: Checks, keywords: seq<Field>, instance: Value, at: string)
    requires Silent(keywords, KIND_KEYWORDS)
    ensures KindViolations(checks, keywords, instance, at) == []
  {
    assert forall name :: name in KIND_KEYWORDS ==> Get(keywords, name) == None;
    assert GetCount(keywords, "minLength") == None && GetCount(keywords, "maxLength") == None;
    assert GetText(keywords, "pattern") == None && GetText(keywords, "format") == None;
    assert GetNumber(keywords, "minimum") == None && GetNumber(keywords, "maximum") == None;
    assert GetCount(keywords, "minItems") == None && GetCount(keywords, "maxItems") == None;
    assert GetItems(keywords, "required") == None;
  }

  lemma SilentValue(keywords: seq<Field>, instance: Value, at: string)
    requires Silent(keywords, {"const", "enum"})
    ensures ValueViolations(keywords, instance, at) == []
  {
    assert "const" in {"const", "enum"} && "enum" in {"const", "enum"};
    assert GetItems(keywords, "enum") == None;
  }

  /** A schema that only has keywords which do not descend. */
  lemma WalkLocal(checks: Checks, name: string, value: Value, instance: Value, root: Value, at: string, depth: nat,
                  limit: nat)
    requires depth <= limit && KnownKeyword(name)
    requires name != "$ref" && name != "type" && name != "oneOf" && name !in CHILD_KEYWORDS
    ensures Said(checks, Alone(name, value), instance, root, at, depth, limit)
         == LocalViolations(checks, Alone(name, value), instance, at)
  {
    hide LocalViolations, KnownKeyword, WalkChildren, MatchedBranches, KindOf;
    var keywords := Alone(name, value);
    GetAlone(name, value);
    WalkKnown(checks, keywords, instance, root, at, depth, limit);
    assert Silent(keywords, CHILD_KEYWORDS);
    SilentChildren(checks, keywords, instance, root, at, depth, limit);
    assert GetItems(keywords, "oneOf") == None;
    assert TypeProblem(keywords, KindOf(instance)) == None;
    assert LocalViolations(checks, keywords, instance, at) + [] + [] == LocalViolations(checks, keywords, instance, at);
  }

  // ------------------------------------------------------------------
  // Types
  // ------------------------------------------------------------------

  /** The number is the same as some integer. */
  ghost predicate IsWhole(f: real) {
    exists i: int :: AsReal(Integer(i)) == f
  }

  /** What the seven type names name; any other names nothing. */
  ghost predicate IsOfType(name: string, instance: Value) {
    || (name == "null" && instance.Null?)
    || (name == "boolean" && instance.Bool?)
    || (name == "integer" && instance.Num? && (instance.n.Integer? || IsWhole(instance.n.f)))
    || (name == "number" && instance.Num?)
    || (name == "string" && instance.String?)
    || (name == "array" && instance.Array?)
    || (name == "object" && instance.Object?)
  }

  lemma WholeIsFloor(f: real)
    ensures IsWhole(f) <==> f.Floor as real == f
  {
    if i: int :| AsReal(Integer(i)) == f {
      assert f.Floor == i;
    }
    if f.Floor as real == f {
      assert AsReal(Integer(f.Floor)) == f;
    }
  }

  lemma KindIsType(name: string, instance: Value)
    ensures TypeMatches(name, KindOf(instance)) <==> IsOfType(name, instance)
  {
    if instance.Num? && instance.n.Float? {
      WholeIsFloor(instance.n.f);
    }
  }

  lemma WalkType(checks: Checks, value: Value, instance: Value, root: Value, at: string, depth: nat, limit: nat)
    requires depth <= limit
    ensures Said(checks, Alone("type", value), instance, root, at, depth, limit)
         == match TypeProblem(Alone("type", value), KindOf(instance))
            case Some(rule) => [Here(at, rule)]
            case None => []
  {
    hide WalkChildren, MatchedBranches, KindOf, ValueViolations, KindViolations, TypeProblem;
    var keywords := Alone("type", value);
    GetAlone("type", value);
    WalkKnown(checks, keywords, instance, root, at, depth, limit);
    SilentChildren(checks, keywords, instance, root, at, depth, limit);
    SilentKind(checks, keywords, instance, at);
    SilentValue(keywords, instance, at);
    assert GetItems(keywords, "oneOf") == None;
  }

  /** A type name admits exactly the instances it names, a list of names those that one of them names. */
  lemma TypeSays(checks: Checks, value: Value, instance: Value, root: Value, at: string, depth: nat, limit: nat)
    requires depth <= limit
    ensures Said(checks, Alone("type", value), instance, root, at, depth, limit) ==
            match value
            case String(name) => Unless(IsOfType(name, instance), at, TypeRule)
            case Array(list) => Unless(exists name :: String(name) in list && IsOfType(name, instance), at, TypeRule)
            case _ => [Here(at, MalformedSchema)]
  {
    hide KindOf, TypeMatches, IsOfType, Said;
    WalkType(checks, value, instance, root, at, depth, limit);
    GetAlone("type", value);
    match value
    case String(name) => KindIsType(name, instance);
    case Array(list) =>
      forall k | 0 <= k < |list| && list[k].String?
        ensures TypeMatches(list[k].text, KindOf(instance)) <==> IsOfType(list[k].text, instance)
      {
        KindIsType(list[k].text, instance);
      }
      if k :| 0 <= k < |list| && list[k].String? && TypeMatches(list[k].text, KindOf(instance)) {
        assert String(list[k].text) in list && IsOfType(list[k].text, instance);
      }
      if name :| String(name) in list && IsOfType(name, instance) {
        var k :| 0 <= k < |list| && list[k] == String(name);
        assert TypeMatches(list[k].text, KindOf(instance));
      }
    case _ =>
  }

  /** So an instance is valid against a type name exactly when the name names it. */
  lemma TypeMeans(checks: Checks, name: string, instance: Value, root: Value, fuel: nat)
    ensures Valid(checks, Object(Alone("type", String(name))), instance, root, fuel) <==>
            fuel > 0 && IsOfType(name, instance)
  {
    hide IsOfType, Walk;
    if fuel > 0 {
      TypeSays(checks, String(name), instance, root, "", 0, fuel - 1);
      WalkIsValid(checks, Object(Alone("type", String(name))), instance, root, "", 0, fuel - 1);
    }
  }

  // ------------------------------------------------------------------
  // Keywords that do not descend
  // ------------------------------------------------------------------

  lemma ConstSays(checks: Checks, value: Value, instance: Value, root: Value, at: string, depth: nat, limit: nat)
    requires depth <= limit
    ensures Said(checks, Alone("const", value), instance, root, at, depth, limit)
         == Unless(instance == value, at, ConstRule)
  {
    hide KindViolations, Said;
    WalkLocal(checks, "const", value, instance, root, at, depth, limit);
    GetAlone("const", value);
    SilentKind(checks, Alone("const", value), instance, at);
    assert GetItems(Alone("const", value), "enum") == None;
  }

  lemma EnumSays(checks: Checks, value: Value, instance: Value, root: Value, at: string, depth: nat, limit: nat)
    requires depth <= limit
    ensures Said(checks, Alone("enum", value), instance, root, at, depth, limit)
         == Unless(value.Array? ==> exists k :: 0 <= k < |value.items| && value.items[k] == instance, at, EnumRule)
  {
    hide KindViolations, Said;
    WalkLocal(checks, "enum", value, instance, root, at, depth, limit);
    GetAlone("enum", value);
    SilentKind(checks, Alone("enum", value), instance, at);
  }

  /** A bound is a whole number that is not negative and written as one; any other value says nothing. */
  ghost predicate IsCount(value: Value, n: nat) {
    value == Num(Integer(n))
  }

  lemma OthersAreAbsent(name: string, value: Value)
    ensures forall other :: other != name ==> GetCount(Alone(name, value), other) == None
    ensures forall other :: other != name ==> GetNumber(Alone(name, value), other) == None
    ensures forall other :: other != name ==> GetText(Alone(name, value), other) == None
    ensures forall other :: other != name ==> GetItems(Alone(name, value), other) == None
  {
    GetAlone(name, value);
  }

  lemma CountAlone(name: string, value: Value)
    ensures forall n: nat :: GetCount(Alone(name, value), name) == Some(n) <==> IsCount(value, n)
  {
    GetAlone(name, value);
  }

  lemma LengthsSay(checks: Checks, value: Value, instance: Value, root: Value, at: string, depth: nat, limit: nat)
    requires depth <= limit
    ensures Said(checks, Alone("minLength", value), instance, root, at, depth, limit)
         == Unless(instance.String? ==> forall n: nat :: IsCount(value, n) ==> n <= |instance.text|, at, MinLength)
    ensures Said(checks, Alone("maxLength", value), instance, root, at, depth, limit)
         == Unless(instance.String? ==> forall n: nat :: IsCount(value, n) ==> |instance.text| <= n, at, MaxLength)
  {
    LeastLengthSays(checks, value, instance, root, at, depth, limit);
    MostLengthSays(checks, value, instance, root, at, depth, limit);
  }

  lemma LeastLengthSays(checks: Checks, value: Value, instance: Value, root: Value, at: string, depth: nat, limit: nat)
    requires depth <= limit
    ensures Said(checks, Alone("minLength", value), instance, root, at, depth, limit)
         == Unless(instance.String? ==> forall n: nat :: IsCount(value, n) ==> n <= |instance.text|, at, MinLength)
  {
    hide Said, GetCount, GetText, GetNumber, GetItems, PatternViolations, FormatViolations;
    WalkLocal(checks, "minLength", value, instance, root, at, depth, limit);
    GetAlone("minLength", value);
    CountAlone("minLength", value);
    OthersAreAbsent("minLength", value);
    SilentValue(Alone("minLength", value), instance, at);
  }

  lemma MostLengthSays(checks: Checks, value: Value, instance: Value, root: Value, at: string, depth: nat, limit: nat)
    requires depth <= limit
    ensures Said(checks, Alone("maxLength", value), instance, root, at, depth, limit)
         == Unless(instance.String? ==> forall n: nat :: IsCount(value, n) ==> |instance.text| <= n, at, MaxLength)
  {
    hide Said, GetCount, GetText, GetNumber, GetItems, PatternViolations, FormatViolations;
    WalkLocal(checks, "maxLength", value, instance, root, at, depth, limit);
    GetAlone("maxLength", value);
    CountAlone("maxLength", value);
    OthersAreAbsent("maxLength", value);
    SilentValue(Alone("maxLength", value), instance, at);
  }

  lemma SizesSay(checks: Checks, value: Value, instance: Value, root: Value, at: string, depth: nat, limit: nat)
    requires depth <= limit
    ensures Said(checks, Alone("minItems", value), instance, root, at, depth, limit)
         == Unless(instance.Array? ==> forall n: nat :: IsCount(value, n) ==> n <= |instance.items|, at, MinItems)
    ensures Said(checks, Alone("maxItems", value), instance, root, at, depth, limit)
         == Unless(instance.Array? ==> forall n: nat :: IsCount(value, n) ==> |instance.items| <= n, at, MaxItems)
  {
    hide Said, GetCount, GetText, GetNumber, GetItems, StringViolations;
    WalkLocal(checks, "minItems", value, instance, root, at, depth, limit);
    WalkLocal(checks, "maxItems", value, instance, root, at, depth, limit);
    GetAlone("minItems", value);
    GetAlone("maxItems", value);
    CountAlone("minItems", value);
    CountAlone("maxItems", value);
    OthersAreAbsent("minItems", value);
    OthersAreAbsent("maxItems", value);
    SilentValue(Alone("minItems", value), instance, at);
    SilentValue(Alone("maxItems", value), instance, at);
    SilentStrings(checks, Alone("minItems", value), if instance.String? then instance.text else "", at);
    SilentStrings(checks, Alone("maxItems", value), if instance.String? then instance.text else "", at);
  }

  lemma SilentStrings(checks: Checks, keywords: seq<Field>, text: string, at: string)
    requires GetCount(keywords, "minLength") == None && GetCount(keywords, "maxLength") == None
    requires GetText(keywords, "pattern") == None && GetText(keywords, "format") == None
    ensures StringViolations(checks, keywords, text, at) == []
  {
  }

  lemma NumberAlone(name: string, value: Value)
    ensures GetNumber(Alone(name, value), name) == if value.Num? then Some(AsReal(value.n)) else None
  {
    GetAlone(name, value);
  }

  lemma BoundsSay(checks: Checks, value: Value, instance: Value, root: Value, at: string, depth: nat, limit: nat)
    requires depth <= limit
    ensures Said(checks, Alone("minimum", value), instance, root, at, depth, limit)
         == Unless(instance.Num? && value.Num? ==> AsReal(value.n) <= AsReal(instance.n), at, Minimum)
    ensures Said(checks, Alone("maximum", value), instance, root, at, depth, limit)
         == Unless(instance.Num? && value.Num? ==> AsReal(instance.n) <= AsReal(value.n), at, Maximum)
  {
    hide Said, GetCount, GetText, GetNumber, GetItems, StringViolations, AsReal;
    WalkLocal(checks, "minimum", value, instance, root, at, depth, limit);
    WalkLocal(checks, "maximum", value, instance, root, at, depth, limit);
    GetAlone("minimum", value);
    GetAlone("maximum", value);
    NumberAlone("minimum", value);
    NumberAlone("maximum", value);
    OthersAreAbsent("minimum", value);
    OthersAreAbsent("maximum", value);
    SilentValue(Alone("minimum", value), instance, at);
    SilentValue(Alone("maximum", value), instance, at);
    SilentStrings(checks, Alone("minimum", value), if instance.String? then instance.text else "", at);
    SilentStrings(checks, Alone("maximum", value), if instance.String? then instance.text else "", at);
  }

  /** An integer counts as the number it is, so bounds compare whatever form the numbers are written in. */
  lemma NumbersAreComparable(i: int, f: real)
    ensures AsReal(Integer(i)) == i as real && AsReal(Float(f)) == f
  {
  }

  lemma TextAlone(name: string, value: Value)
    ensures GetText(Alone(name, value), name) == if value.String? then Some(value.text) else None
  {
    GetAlone(name, value);
  }

  lemma PatternSays(checks: Checks, value: Value, instance: Value, root: Value, at: string, depth: nat, limit: nat)
    requires depth <= limit
    ensures Said(checks, Alone("pattern", value), instance, root, at, depth, limit) ==
            if !instance.String? || !value.String? then []
            else match PatternParser.Parse(value.text)
              case Ok(compiled) => Unless(Pattern.Matches(checks.unicode, compiled, instance.text), at, PatternRule)
              case Err(_) => [Here(at, UnsupportedPattern)]
  {
    hide Said, GetCount, GetText, GetNumber, GetItems, PatternParser.Parse, Pattern.Matches, FormatViolations;
    WalkLocal(checks, "pattern", value, instance, root, at, depth, limit);
    GetAlone("pattern", value);
    TextAlone("pattern", value);
    OthersAreAbsent("pattern", value);
    SilentValue(Alone("pattern", value), instance, at);
  }

  /** The four formats; any other is a violation of its own. */
  lemma FormatSays(checks: Checks, value: Value, instance: Value, root: Value, at: string, depth: nat, limit: nat)
    requires depth <= limit
    ensures Said(checks, Alone("format", value), instance, root, at, depth, limit) ==
            if !instance.String? || !value.String? then []
            else if value.text == "uuid" then Unless(checks.isUuid(instance.text), at, FormatRule)
            else if value.text == "date-time" then Unless(checks.isDateTime(instance.text), at, FormatRule)
            else if value.text == "date" then Unless(checks.isDate(instance.text), at, FormatRule)
            else if value.text == "byte" then Unless(checks.isBase64(instance.text), at, FormatRule)
            else [Here(at, UnsupportedFormat)]
  {
    hide Said, GetCount, GetText, GetNumber, GetItems, PatternViolations;
    WalkLocal(checks, "format", value, instance, root, at, depth, limit);
    GetAlone("format", value);
    TextAlone("format", value);
    OthersAreAbsent("format", value);
    SilentValue(Alone("format", value), instance, at);
  }

  /** The texts of `list` that name no member, each under the pointer of the missing member, in order. */
  function MissingMembers(list: seq<Value>, fields: seq<Field>, at: string): seq<Violation> {
    if |list| == 0 then []
    else
      var before, last := MissingMembers(list[..|list| - 1], fields, at), list[|list| - 1];
      if last.String? && forall k :: 0 <= k < |fields| ==> fields[k].name != last.text then
        before + [Violation(at + "/" + Escape(last.text), Required)]
      else before
  }

  lemma {:induction false} RequiredSplit(list: seq<Value>, more: seq<Value>, fields: seq<Field>, at: string)
    ensures RequiredViolations(list + more, fields, at)
         == RequiredViolations(list, fields, at) + RequiredViolations(more, fields, at)
  {
    if |list| == 0 {
      assert list + more == more;
    } else {
      assert (list + more)[1..] == list[1..] + more;
      RequiredSplit(list[1..], more, fields, at);
    }
  }

  lemma {:induction false} MissingAreReported(list: seq<Value>, fields: seq<Field>, at: string)
    ensures RequiredViolations(list, fields, at) == MissingMembers(list, fields, at)
  {
    if |list| > 0 {
      var before, last := list[..|list| - 1], list[|list| - 1];
      MissingAreReported(before, fields, at);
      RequiredSplit(before, [last], fields, at);
      assert list == before + [last] && [last][1..] == [];
      LastRequired(last, fields, at);
    }
  }

  lemma LastRequired(last: Value, fields: seq<Field>, at: string)
    ensures RequiredViolations([last], fields, at) ==
            if last.String? && forall k :: 0 <= k < |fields| ==> fields[k].name != last.text then
              [Violation(at + "/" + Escape(last.text), Required)]
            else []
  {
    assert [last][1..] == [];
    if last.String? {
      assert at + "/" + Escape(last.text) != "";
    }
  }

  lemma RequiredSays(checks: Checks, value: Value, instance: Value, root: Value, at: string, depth: nat, limit: nat)
    requires depth <= limit
    ensures Said(checks, Alone("required", value), instance, root, at, depth, limit) ==
            if instance.Object? && value.Array? then MissingMembers(value.items, instance.fields, at) else []
  {
    hide Said, GetCount, GetText, GetNumber, StringViolations, RequiredViolations, MissingMembers;
    WalkLocal(checks, "required", value, instance, root, at, depth, limit);
    GetAlone("required", value);
    OthersAreAbsent("required", value);
    SilentValue(Alone("required", value), instance, at);
    SilentStrings(checks, Alone("required", value), if instance.String? then instance.text else "", at);
    if instance.Object? && value.Array? {
      MissingAreReported(value.items, instance.fields, at);
    }
  }

  // ------------------------------------------------------------------
  // Keywords that descend
  // ------------------------------------------------------------------

  lemma SilentLocal(checks: Checks, keywords: seq<Field>, instance: Value, at: string)
    requires Silent(keywords, KIND_KEYWORDS + {"const", "enum"})
    ensures LocalViolations(checks, keywords, instance, at) == []
  {
    hide KindViolations, ValueViolations;
    SilentKind(checks, keywords, instance, at);
    SilentValue(keywords, instance, at);
  }

  lemma OnlyDescends(keywords: seq<Field>)
    requires forall k :: 0 <= k < |keywords| ==> keywords[k].name in CHILD_KEYWORDS
    ensures forall name :: name !in CHILD_KEYWORDS ==> Get(keywords, name) == None
    ensures forall k :: 0 <= k < |keywords| ==> KnownKeyword(keywords[k].name)
  {
  }

  lemma OnlyDescendsSilently(keywords: seq<Field>)
    requires forall name :: name !in CHILD_KEYWORDS ==> Get(keywords, name) == None
    ensures Silent(keywords, KIND_KEYWORDS + {"const", "enum"})
  {
    hide Get;
  }

  /** A schema that only has keywords which descend into arrays and objects. */
  lemma WalkDown(checks: Checks, keywords: seq<Field>, instance: Value, root: Value, at: string, depth: nat, limit: nat)
    requires depth <= limit && forall k :: 0 <= k < |keywords| ==> keywords[k].name in CHILD_KEYWORDS
    ensures Said(checks, keywords, instance, root, at, depth, limit)
         == WalkChildren(checks, keywords, instance, root, at, depth, limit)
  {
    hide LocalViolations, WalkChildren, MatchedBranches, KindOf, Get, Said, KnownKeyword, TypeListMatches;
    OnlyDescends(keywords);
    hide Silent;
    assert Silent(keywords, KIND_KEYWORDS + {"const", "enum"}) by { OnlyDescendsSilently(keywords); }
    assert Get(keywords, "type") == None && Get(keywords, "oneOf") == None;
    WalkKnown(checks, keywords, instance, root, at, depth, limit);
    SilentLocal(checks, keywords, instance, at);
    assert GetItems(keywords, "oneOf") == None;
    assert TypeProblem(keywords, KindOf(instance)) == None;
  }

  /** Everything an array holds is held to the schema of `items`; nothing else is. */
  lemma ItemsSay(checks: Checks, schema: Value, instance: Value, root: Value, at: string, depth: nat, limit: nat)
    requires depth <= limit
    ensures Said(checks, Alone("items", schema), instance, root, at, depth, limit) == [] <==>
            (instance.Array? ==>
               forall k :: 0 <= k < |instance.items| ==>
                 Valid(checks, schema, instance.items[k], root, limit - depth))
  {
    hide Said, Valid, WalkItems;
    var keywords := Alone("items", schema);
    GetAlone("items", schema);
    WalkDown(checks, keywords, instance, root, at, depth, limit);
    if instance.Array? {
      NoItemViolations(checks, schema, instance.items, 0, root, at, depth, limit);
    } else if instance.Object? {
      SilentMembers(checks, keywords, instance.fields, root, at, depth, limit);
    }
  }

  predicate Names(fields: seq<Field>, name: string) {
    exists k :: 0 <= k < |fields| && fields[k].name == name
  }

  ghost predicate DistinctNames(fields: seq<Field>) {
    forall i, j :: 0 <= i < j < |fields| ==> fields[i].name != fields[j].name
  }

  lemma GetDistinct(fields: seq<Field>, k: nat)
    requires DistinctNames(fields) && k < |fields|
    ensures Get(fields, fields[k].name) == Some(fields[k].value)
  {
  }

  /** What a member must satisfy: the schema listed under its name, and only failing that the additional one. */
  ghost predicate MemberAdmitted(checks: Checks, listed: seq<Field>, extra: Option<Value>, member: Field, root: Value,
                                 fuel: nat)
  {
    && (forall j :: 0 <= j < |listed| && listed[j].name == member.name ==>
          Valid(checks, listed[j].value, member.value, root, fuel))
    && (!Names(listed, member.name) && extra.Some? ==> Valid(checks, extra.value, member.value, root, fuel))
  }

  lemma MemberIsAdmitted(checks: Checks, keywords: seq<Field>, listed: seq<Field>, extra: Option<Value>, member: Field,
                         root: Value, fuel: nat)
    requires DistinctNames(listed)
    requires if GetFields(keywords, "properties").Some? then GetFields(keywords, "properties").value == listed
             else listed == []
    requires Get(keywords, "additionalProperties") == extra
    ensures MemberMet(checks, keywords, member, root, fuel) <==>
            MemberAdmitted(checks, listed, extra, member, root, fuel)
  {
    hide Valid, Get, GetFields;
    if Names(listed, member.name) {
      var j :| 0 <= j < |listed| && listed[j].name == member.name;
      GetDistinct(listed, j);
      assert MemberRuleFor(keywords, member.name) == Governed(listed[j].value);
    } else {
      assert Get(listed, member.name) == None;
      NeverValid(checks, member.value, root, fuel);
    }
  }

  lemma NeverValid(checks: Checks, instance: Value, root: Value, fuel: nat)
    ensures !Valid(checks, Bool(false), instance, root, fuel)
  {
  }

  function Members(listed: Option<Value>, extra: Option<Value>): seq<Field> {
    (match listed case Some(value) => Alone("properties", value) case None => [])
    + (match extra case Some(value) => Alone("additionalProperties", value) case None => [])
  }

  lemma GetMembers(listed: Option<Value>, extra: Option<Value>)
    ensures
      var keywords := Members(listed, extra);
      forall name :: Get(keywords, name) ==
        if name == "properties" then listed else if name == "additionalProperties" then extra else None
  {
    if listed.Some? {
      assert Members(listed, extra)[1..] == Members(None, extra);
    }
    if extra.Some? {
      assert Members(None, extra)[1..] == [];
    }
  }

  /**
   Members of an object are held to the schemas listed for them, the others to
   the additional one if there is one; a `properties` that is not an object lists
   nothing.
   */
  lemma MembersSay(checks: Checks, listed: Option<Value>, extra: Option<Value>, instance: Value, root: Value,
                   at: string, depth: nat, limit: nat)
    requires depth <= limit
    requires listed.Some? && listed.value.Object? ==> DistinctNames(listed.value.fields)
    ensures Said(checks, Members(listed, extra), instance, root, at, depth, limit) == [] <==>
            (instance.Object? ==>
               var schemas := if listed.Some? && listed.value.Object? then listed.value.fields else [];
               forall k :: 0 <= k < |instance.fields| ==>
                 MemberAdmitted(checks, schemas, extra, instance.fields[k], root, limit - depth))
  {
    hide Said, Valid, WalkMembers, MemberMet, MemberAdmitted, Members;
    var keywords := Members(listed, extra);
    var schemas := if listed.Some? && listed.value.Object? then listed.value.fields else [];
    GetMembers(listed, extra);
    MembersAreChildren(listed, extra);
    WalkDown(checks, keywords, instance, root, at, depth, limit);
    if instance.Object? {
      NoMembersViolations(checks, keywords, instance.fields, root, at, depth, limit);
      forall k | 0 <= k < |instance.fields|
        ensures MemberMet(checks, keywords, instance.fields[k], root, limit - depth) <==>
                MemberAdmitted(checks, schemas, extra, instance.fields[k], root, limit - depth)
      {
        MemberIsAdmitted(checks, keywords, schemas, extra, instance.fields[k], root, limit - depth);
      }
    }
  }

  lemma MembersAreChildren(listed: Option<Value>, extra: Option<Value>)
    ensures
      var keywords := Members(listed, extra);
      forall k :: 0 <= k < |keywords| ==> keywords[k].name in CHILD_KEYWORDS
  {
  }

  /** So with no additional members an object has only listed names. */
  lemma NothingAdditional(checks: Checks, schemas: seq<Field>, instance: Value, root: Value, at: string, depth: nat,
                          limit: nat)
    requires depth <= limit && DistinctNames(schemas) && instance.Object?
    requires forall j :: 0 <= j < |schemas| ==> schemas[j].value == Bool(true)
    requires depth < limit
    ensures Said(checks, Members(Some(Object(schemas)), Some(Bool(false))), instance, root, at, depth, limit) == [] <==>
            forall k :: 0 <= k < |instance.fields| ==> Names(schemas, instance.fields[k].name)
  {
    hide Said, Members, Names;
    MembersSay(checks, Some(Object(schemas)), Some(Bool(false)), instance, root, at, depth, limit);
    forall k | 0 <= k < |instance.fields|
      ensures MemberAdmitted(checks, schemas, Some(Bool(false)), instance.fields[k], root, limit - depth) <==>
              Names(schemas, instance.fields[k].name)
    {
    }
  }

  lemma WalkBranches(checks: Checks, value: Value, instance: Value, root: Value, at: string, depth: nat, limit: nat)
    requires depth <= limit
    ensures Said(checks, Alone("oneOf", value), instance, root, at, depth, limit)
         == WalkOneOf(checks, Alone("oneOf", value), instance, root, at, depth, limit)
  {
    hide LocalViolations, WalkChildren, WalkOneOf, KindOf, Said;
    var keywords := Alone("oneOf", value);
    GetAlone("oneOf", value);
    WalkKnown(checks, keywords, instance, root, at, depth, limit);
    SilentLocal(checks, keywords, instance, at);
    SilentChildren(checks, keywords, instance, root, at, depth, limit);
    assert TypeProblem(keywords, KindOf(instance)) == None;
  }

  /** Exactly one of the branches holds. */
  lemma OneOfSays(checks: Checks, value: Value, instance: Value, root: Value, at: string, depth: nat, limit: nat)
    requires depth <= limit
    ensures Said(checks, Alone("oneOf", value), instance, root, at, depth, limit)
         == Unless(value.Array? ==>
                     exists b :: 0 <= b < |value.items| && Valid(checks, value.items[b], instance, root, limit - depth)
                       && forall c :: 0 <= c < |value.items| && c != b ==>
                            !Valid(checks, value.items[c], instance, root, limit - depth),
                   at, OneOf)
  {
    hide Said, Valid, MatchedBranches, CountTrue;
    GetAlone("oneOf", value);
    WalkBranches(checks, value, instance, root, at, depth, limit);
    if value.Array? {
      BranchCount(checks, value.items, 0, instance, root, at, depth, limit);
      ExactlyOneIsCount(checks, value.items, instance, root, limit - depth);
      OnlyBranch(checks, value.items, instance, root, limit - depth);
    }
  }

  lemma OnlyBranch(checks: Checks, branches: seq<Value>, instance: Value, root: Value, fuel: nat)
    ensures ExactlyOne(checks, branches, instance, root, fuel) <==>
            exists b :: 0 <= b < |branches| && Valid(checks, branches[b], instance, root, fuel)
              && forall c :: 0 <= c < |branches| && c != b ==> !Valid(checks, branches[c], instance, root, fuel)
  {
    hide Valid;
    if b: nat :| IsOnlyBranch(checks, branches, instance, root, fuel, b) {
      assert Valid(checks, branches[b], instance, root, fuel);
    }
    forall b | 0 <= b < |branches| && Valid(checks, branches[b], instance, root, fuel)
      ensures IsOnlyBranch(checks, branches, instance, root, fuel, b) <==>
              forall c :: 0 <= c < |branches| && c != b ==> !Valid(checks, branches[c], instance, root, fuel)
    {
    }
  }

  // ------------------------------------------------------------------
  // References
  // ------------------------------------------------------------------

  /** `root` has a definition of that name, and no second one. */
  ghost predicate Defines(root: Value, name: string, target: Value) {
    && root.Object? && DistinctNames(root.fields)
    && exists i: nat, j: nat :: DefinedAt(root, name, target, i, j)
  }

  ghost predicate DefinedAt(root: Value, name: string, target: Value, i: nat, j: nat)
    requires root.Object?
  {
    && i < |root.fields| && root.fields[i].name == "$defs" && root.fields[i].value.Object?
    && DistinctNames(root.fields[i].value.fields)
    && j < |root.fields[i].value.fields| && root.fields[i].value.fields[j] == Field(name, target)
  }

  /** No object under `$defs` has that name. */
  ghost predicate DefinesNot(root: Value, name: string) {
    root.Object? ==>
      forall i :: 0 <= i < |root.fields| && root.fields[i].name == "$defs" && root.fields[i].value.Object? ==>
        !Names(root.fields[i].value.fields, name)
  }

  lemma DefinitionIs(root: Value, name: string, target: Value)
    requires Defines(root, name, target)
    ensures Definition(root, name) == Some(target)
  {
    var i: nat, j: nat :| DefinedAt(root, name, target, i, j);
    GetDistinct(root.fields, i);
    GetDistinct(root.fields[i].value.fields, j);
  }

  lemma NoDefinition(root: Value, name: string)
    requires DefinesNot(root, name)
    ensures Definition(root, name) == None
  {
    if root.Object? && Get(root.fields, "$defs").Some? {
      var k :| 0 <= k < |root.fields| && root.fields[k] == Field("$defs", Get(root.fields, "$defs").value);
    }
  }

  function WithoutReference(keywords: seq<Field>): seq<Field> {
    if |keywords| == 0 then []
    else (if keywords[0].name == "$ref" then [] else [keywords[0]]) + WithoutReference(keywords[1..])
  }

  lemma OneFieldLess(keywords: seq<Field>)
    requires |keywords| > 0
    ensures
      var all, rest := WithoutReference(keywords), WithoutReference(keywords[1..]);
      if keywords[0].name == "$ref" then all == rest
      else |all| > 0 && all[0] == keywords[0] && all[1..] == rest
  {
  }

  lemma {:induction false} GetWithout(keywords: seq<Field>)
    ensures forall name ::
              Get(WithoutReference(keywords), name) == if name == "$ref" then None else Get(keywords, name)
  {
    if |keywords| > 0 {
      GetWithout(keywords[1..]);
      OneFieldLess(keywords);
    }
  }

  lemma {:induction false} UnknownWithout(keywords: seq<Field>, at: string)
    ensures UnknownKeywords(WithoutReference(keywords), at) == UnknownKeywords(keywords, at)
  {
    hide KnownKeyword;
    if |keywords| > 0 {
      UnknownWithout(keywords[1..], at);
      ReferenceIsKnown();
      OneFieldLess(keywords);
      assert [] + UnknownKeywords(keywords[1..], at) == UnknownKeywords(keywords[1..], at);
    }
  }

  lemma ReferenceIsKnown()
    ensures KnownKeyword("$ref")
  {
  }

  ghost predicate SameGets(a: seq<Field>, b: seq<Field>) {
    forall name :: name != "$ref" ==> Get(a, name) == Get(b, name)
  }

  lemma SameReads(a: seq<Field>, b: seq<Field>, name: string)
    requires SameGets(a, b) && name != "$ref"
    ensures GetCount(a, name) == GetCount(b, name) && GetNumber(a, name) == GetNumber(b, name)
    ensures GetText(a, name) == GetText(b, name) && GetItems(a, name) == GetItems(b, name)
    ensures GetFields(a, name) == GetFields(b, name)
  {
  }

  lemma SameStrings(checks: Checks, a: seq<Field>, b: seq<Field>, text: string, at: string)
    requires SameGets(a, b)
    ensures StringViolations(checks, a, text, at) == StringViolations(checks, b, text, at)
  {
    hide Get, GetCount, GetText, PatternViolations, FormatViolations;
    SameReads(a, b, "minLength");
    SameReads(a, b, "maxLength");
    SameReads(a, b, "pattern");
    SameReads(a, b, "format");
  }

  lemma SameKind(checks: Checks, a: seq<Field>, b: seq<Field>, instance: Value, at: string)
    requires SameGets(a, b)
    ensures KindViolations(checks, a, instance, at) == KindViolations(checks, b, instance, at)
  {
    hide Get, GetCount, GetNumber, GetItems, StringViolations, RequiredViolations;
    match instance
    case String(text) => SameStrings(checks, a, b, text, at);
    case Num(_) =>
      SameReads(a, b, "minimum");
      SameReads(a, b, "maximum");
    case Array(_) =>
      SameReads(a, b, "minItems");
      SameReads(a, b, "maxItems");
    case Object(_) => SameReads(a, b, "required");
    case _ =>
  }

  lemma SameLocal(checks: Checks, a: seq<Field>, b: seq<Field>, instance: Value, at: string)
    requires SameGets(a, b)
    ensures LocalViolations(checks, a, instance, at) == LocalViolations(checks, b, instance, at)
  {
    hide Get, GetItems, KindViolations;
    SameReads(a, b, "enum");
    SameKind(checks, a, b, instance, at);
  }

  lemma {:induction false} SameMembers(checks: Checks, a: seq<Field>, b: seq<Field>, fields: seq<Field>, root: Value,
                                       at: string, depth: nat, limit: nat)
    requires depth <= limit
    requires GetFields(a, "properties") == GetFields(b, "properties")
    requires Get(a, "additionalProperties") == Get(b, "additionalProperties")
    ensures WalkMembers(checks, a, fields, root, at, depth, limit)
         == WalkMembers(checks, b, fields, root, at, depth, limit)
  {
    hide Walk;
    if |fields| > 0 {
      SameMembers(checks, a, b, fields[1..], root, at, depth, limit);
    }
  }

  lemma SameChildren(checks: Checks, a: seq<Field>, b: seq<Field>, instance: Value, root: Value, at: string,
                     depth: nat, limit: nat)
    requires depth <= limit
    requires Get(a, "items") == Get(b, "items")
    requires GetFields(a, "properties") == GetFields(b, "properties")
    requires Get(a, "additionalProperties") == Get(b, "additionalProperties")
    ensures WalkChildren(checks, a, instance, root, at, depth, limit)
         == WalkChildren(checks, b, instance, root, at, depth, limit)
  {
    hide Get, GetFields, WalkItems, WalkMembers;
    if instance.Object? {
      SameMembers(checks, a, b, instance.fields, root, at, depth, limit);
    }
  }

  lemma SameOneOf(checks: Checks, a: seq<Field>, b: seq<Field>, instance: Value, root: Value, at: string, depth: nat,
                  limit: nat)
    requires depth <= limit && GetItems(a, "oneOf") == GetItems(b, "oneOf")
    ensures WalkOneOf(checks, a, instance, root, at, depth, limit)
         == WalkOneOf(checks, b, instance, root, at, depth, limit)
  {
    hide GetItems, MatchedBranches;
  }

  lemma SameType(a: seq<Field>, b: seq<Field>, kind: string)
    requires SameGets(a, b)
    ensures TypeProblem(a, kind) == TypeProblem(b, kind)
  {
    hide Get, TypeMatches, TypeListMatches;
  }

  lemma SameWalk(checks: Checks, a: seq<Field>, b: seq<Field>, instance: Value, root: Value, at: string, depth: nat,
                 limit: nat)
    requires depth <= limit && SameGets(a, b)
    ensures WalkMap(checks, a, instance, root, at, depth, limit)
         == WalkMap(checks, b, instance, root, at, depth, limit)
  {
    hide Get, GetItems, GetFields, LocalViolations, WalkChildren, WalkOneOf, KindOf, TypeProblem;
    SameLocal(checks, a, b, instance, at);
    SameType(a, b, KindOf(instance));
    SameReads(a, b, "oneOf");
    SameReads(a, b, "properties");
    SameChildren(checks, a, b, instance, root, at, depth, limit);
    SameOneOf(checks, a, b, instance, root, at, depth, limit);
  }

  /**
   A reference stands for the definition it names, taken without a reference of
   its own: only one is followed. Where there is no such definition, the
   reference is not into the definitions, or the definition is not an object,
   nothing is accepted.
   */
  lemma ReferenceSays(checks: Checks, reference: string, instance: Value, root: Value, at: string, depth: nat,
                      limit: nat, name: string, target: Value)
    requires depth <= limit
    ensures
      var said := Said(checks, Alone("$ref", String(reference)), instance, root, at, depth, limit);
      && (!("#/$defs/" <= reference) ==> said == [Here(at, UnsupportedRef)])
      && (reference == "#/$defs/" + name && DefinesNot(root, name) ==> said == [Here(at, UnknownDefinition)])
      && (reference == "#/$defs/" + name && Defines(root, name, target) ==>
            said == if target.Object? then
                      Said(checks, WithoutReference(target.fields), instance, root, at, depth, limit)
                    else [Here(at, MalformedSchema)])
  {
    hide WalkMap, UnknownKeywords, WithoutReference, Definition;
    GetAlone("$ref", String(reference));
    TextAlone("$ref", String(reference));
    if reference == "#/$defs/" + name {
      assert reference[|DEFINITION_PREFIX|..] == name;
      if DefinesNot(root, name) {
        NoDefinition(root, name);
      }
      if Defines(root, name, target) {
        DefinitionIs(root, name, target);
        if target.Object? {
          var rest := WithoutReference(target.fields);
          GetWithout(target.fields);
          UnknownWithout(target.fields, at);
          SameWalk(checks, target.fields, rest, instance, root, at, depth, limit);
          assert Resolve(Object(rest), root) == Ok(Object(rest));
        }
      }
    }
  }

  // ------------------------------------------------------------------
  // Which keywords there are
  // ------------------------------------------------------------------

  /** Schemas that are not objects, and the nesting limit. */
  lemma PlainSchemas(checks: Checks, schema: Value, instance: Value, root: Value, at: string, depth: nat, limit: nat)
    requires depth <= limit + 1
    ensures depth > limit ==> Walk(checks, schema, instance, root, at, depth, limit) == [Here(at, DepthRule)]
    ensures depth <= limit ==>
      var said := Walk(checks, schema, instance, root, at, depth, limit);
      match schema
      case Bool(b) => said == Unless(b, at, FalseSchema)
      case Object(_) => true
      case _ => said == [Here(at, MalformedSchema)]
    ensures MAX_DEPTH == 64
  {
  }

  lemma NullSays(checks: Checks, name: string, root: Value, at: string, depth: nat, limit: nat)
    requires depth <= limit
    ensures WalkMap(checks, Alone(name, Null), Bool(true), root, at, depth, limit) ==
            if name == "type" then [Here(at, MalformedSchema)]
            else if name == "const" then [Here(at, ConstRule)]
            else []
  {
    hide MatchedBranches;
    GetAlone(name, Null);
    OthersAreAbsent(name, Null);
    assert GetItems(Alone(name, Null), name) == None;
  }

  ghost predicate Listed(name: string) {
    || name in {"title", "description", "$comment", "default", "examples", "deprecated", "$schema", "$id", "$defs"}
    || name in {"$ref", "type", "required", "properties", "additionalProperties", "enum", "const", "items"}
    || name in {"minItems", "maxItems", "minLength", "maxLength", "minimum", "maximum", "pattern", "oneOf", "format"}
    || "x-ores-" <= name
  }

  lemma ListedAreKnown(name: string)
    ensures KnownKeyword(name) <==> Listed(name)
  {
  }

  /** What a keyword says to `true` when its value is null, which most of them take for saying nothing. */
  lemma KeywordsAre(checks: Checks, name: string, root: Value, at: string, depth: nat, limit: nat)
    requires depth <= limit
    ensures Said(checks, Alone(name, Null), Bool(true), root, at, depth, limit) ==
            if name == "type" then [Here(at, MalformedSchema)]
            else if name == "const" then [Here(at, ConstRule)]
            else Unless(Listed(name), at, UnsupportedKeyword)
  {
    hide WalkMap, KnownKeyword, Listed;
    var keywords := Alone(name, Null);
    TextAlone("$ref", Null);
    OthersAreAbsent(name, Null);
    NullSays(checks, name, root, at, depth, limit);
    ListedAreKnown(name);
    ListedAreKnown("type");
    ListedAreKnown("const");
    assert Listed("type") && Listed("const") by { TypeAndConst(); }
    assert Resolve(Object(keywords), root) == Ok(Object(keywords));
    assert keywords[1..] == [] && UnknownKeywords([], at) == [];
  }

  lemma TypeAndConst()
    ensures Listed("type") && Listed("const")
  {
  }

  // ------------------------------------------------------------------
  // A schema says what its keywords say
  // ------------------------------------------------------------------

  /** The keyword `name` of `keywords` alone, if it is there. */
  function Single(keywords: seq<Field>, name: string): seq<Field> {
    match Get(keywords, name)
    case Some(value) => Alone(name, value)
    case None => []
  }

  ghost function SaidBy(checks: Checks, keywords: seq<Field>, name: string, instance: Value, root: Value, at: string,
                        depth: nat, limit: nat): seq<Violation>
    requires depth <= limit
  {
    Said(checks, Single(keywords, name), instance, root, at, depth, limit)
  }

  lemma EmptySays(checks: Checks, instance: Value, root: Value, at: string, depth: nat, limit: nat)
    requires depth <= limit
    ensures Said(checks, [], instance, root, at, depth, limit) == []
  {
    hide LocalViolations, WalkChildren;
    WalkKnown(checks, [], instance, root, at, depth, limit);
    SilentLocal(checks, [], instance, at);
    SilentChildren(checks, [], instance, root, at, depth, limit);
  }

  lemma TypeAlone(checks: Checks, keywords: seq<Field>, instance: Value, root: Value, at: string, depth: nat,
                  limit: nat)
    requires depth <= limit
    ensures SaidBy(checks, keywords, "type", instance, root, at, depth, limit) ==
            match TypeProblem(keywords, KindOf(instance)) case Some(rule) => [Here(at, rule)] case None => []
  {
    hide KindOf, TypeMatches, TypeListMatches, Said;
    match Get(keywords, "type")
    case None => EmptySays(checks, instance, root, at, depth, limit);
    case Some(value) =>
      GetAlone("type", value);
      WalkType(checks, value, instance, root, at, depth, limit);
  }

  lemma ValueAlone(checks: Checks, keywords: seq<Field>, instance: Value, root: Value, at: string, depth: nat,
                   limit: nat)
    requires depth <= limit
    ensures SaidBy(checks, keywords, "const", instance, root, at, depth, limit)
              + SaidBy(checks, keywords, "enum", instance, root, at, depth, limit)
         == ValueViolations(keywords, instance, at)
  {
    hide Said, Get;
    EmptySays(checks, instance, root, at, depth, limit);
    if Get(keywords, "const").Some? {
      ConstSays(checks, Get(keywords, "const").value, instance, root, at, depth, limit);
    }
    if Get(keywords, "enum").Some? {
      EnumSays(checks, Get(keywords, "enum").value, instance, root, at, depth, limit);
    }
  }

  lemma CountReads(keywords: seq<Field>, name: string, value: Value)
    requires Get(keywords, name) == Some(value)
    ensures forall n: nat :: GetCount(keywords, name) == Some(n) <==> IsCount(value, n)
  {
  }

  lemma LengthsAlone(checks: Checks, keywords: seq<Field>, text: string, root: Value, at: string, depth: nat,
                     limit: nat)
    requires depth <= limit
    ensures SaidBy(checks, keywords, "minLength", String(text), root, at, depth, limit) ==
            match GetCount(keywords, "minLength")
            case Some(min) => ReportIf(|text| < min, at, MinLength)
            case None => []
    ensures SaidBy(checks, keywords, "maxLength", String(text), root, at, depth, limit) ==
            match GetCount(keywords, "maxLength")
            case Some(max) => ReportIf(|text| > max, at, MaxLength)
            case None => []
  {
    hide Said, Get, GetCount;
    EmptySays(checks, String(text), root, at, depth, limit);
    match Get(keywords, "minLength") {
      case Some(value) =>
        CountReads(keywords, "minLength", value);
        LengthsSay(checks, value, String(text), root, at, depth, limit);
      case None => NoCount(keywords, "minLength");
    }
    match Get(keywords, "maxLength") {
      case Some(value) =>
        CountReads(keywords, "maxLength", value);
        LengthsSay(checks, value, String(text), root, at, depth, limit);
      case None => NoCount(keywords, "maxLength");
    }
  }

  lemma PatternAlone(checks: Checks, keywords: seq<Field>, text: string, root: Value, at: string, depth: nat,
                     limit: nat)
    requires depth <= limit
    ensures SaidBy(checks, keywords, "pattern", String(text), root, at, depth, limit) ==
            match GetText(keywords, "pattern") case Some(p) => PatternViolations(checks, p, text, at) case None => []
  {
    hide Said, Get, PatternParser.Parse, Pattern.Matches;
    EmptySays(checks, String(text), root, at, depth, limit);
    if Get(keywords, "pattern").Some? {
      PatternSays(checks, Get(keywords, "pattern").value, String(text), root, at, depth, limit);
    }
  }

  lemma FormatAlone(checks: Checks, keywords: seq<Field>, text: string, root: Value, at: string, depth: nat,
                    limit: nat)
    requires depth <= limit
    ensures SaidBy(checks, keywords, "format", String(text), root, at, depth, limit) ==
            match GetText(keywords, "format") case Some(f) => FormatViolations(checks, f, text, at) case None => []
  {
    hide Said, Get;
    EmptySays(checks, String(text), root, at, depth, limit);
    if Get(keywords, "format").Some? {
      FormatSays(checks, Get(keywords, "format").value, String(text), root, at, depth, limit);
    }
  }

  /** The string keywords say nothing about anything else. */
  lemma StringsOnly(checks: Checks, keywords: seq<Field>, instance: Value, root: Value, at: string, depth: nat,
                    limit: nat)
    requires depth <= limit && !instance.String?
    ensures SaidBy(checks, keywords, "minLength", instance, root, at, depth, limit) == []
    ensures SaidBy(checks, keywords, "maxLength", instance, root, at, depth, limit) == []
    ensures SaidBy(checks, keywords, "pattern", instance, root, at, depth, limit) == []
    ensures SaidBy(checks, keywords, "format", instance, root, at, depth, limit) == []
  {
    hide Said, Get;
    EmptySays(checks, instance, root, at, depth, limit);
    if Get(keywords, "minLength").Some? {
      LengthsSay(checks, Get(keywords, "minLength").value, instance, root, at, depth, limit);
    }
    if Get(keywords, "maxLength").Some? {
      LengthsSay(checks, Get(keywords, "maxLength").value, instance, root, at, depth, limit);
    }
    if Get(keywords, "pattern").Some? {
      PatternSays(checks, Get(keywords, "pattern").value, instance, root, at, depth, limit);
    }
    if Get(keywords, "format").Some? {
      FormatSays(checks, Get(keywords, "format").value, instance, root, at, depth, limit);
    }
  }

  lemma StringsAlone(checks: Checks, keywords: seq<Field>, instance: Value, root: Value, at: string, depth: nat,
                     limit: nat)
    requires depth <= limit
    ensures SaidBy(checks, keywords, "minLength", instance, root, at, depth, limit)
              + SaidBy(checks, keywords, "maxLength", instance, root, at, depth, limit)
              + SaidBy(checks, keywords, "pattern", instance, root, at, depth, limit)
              + SaidBy(checks, keywords, "format", instance, root, at, depth, limit)
         == if instance.String? then StringViolations(checks, keywords, instance.text, at) else []
  {
    hide SaidBy, GetCount, GetText, PatternViolations, FormatViolations;
    if instance.String? {
      LengthsAlone(checks, keywords, instance.text, root, at, depth, limit);
      PatternAlone(checks, keywords, instance.text, root, at, depth, limit);
      FormatAlone(checks, keywords, instance.text, root, at, depth, limit);
    } else {
      StringsOnly(checks, keywords, instance, root, at, depth, limit);
    }
  }

  lemma NoCount(keywords: seq<Field>, name: string)
    requires Get(keywords, name) == None
    ensures GetCount(keywords, name) == None
  {
  }

  lemma NumbersAlone(checks: Checks, keywords: seq<Field>, instance: Value, root: Value, at: string, depth: nat,
                     limit: nat)
    requires depth <= limit
    ensures SaidBy(checks, keywords, "minimum", instance, root, at, depth, limit)
              + SaidBy(checks, keywords, "maximum", instance, root, at, depth, limit)
         == if instance.Num? then NumberViolations(keywords, instance.n, at) else []
  {
    hide Said, Get, AsReal;
    EmptySays(checks, instance, root, at, depth, limit);
    if Get(keywords, "minimum").Some? {
      BoundsSay(checks, Get(keywords, "minimum").value, instance, root, at, depth, limit);
    }
    if Get(keywords, "maximum").Some? {
      BoundsSay(checks, Get(keywords, "maximum").value, instance, root, at, depth, limit);
    }
  }

  lemma SizeAlone(checks: Checks, keywords: seq<Field>, items: seq<Value>, root: Value, at: string, depth: nat,
                  limit: nat)
    requires depth <= limit
    ensures SaidBy(checks, keywords, "minItems", Array(items), root, at, depth, limit) ==
            match GetCount(keywords, "minItems")
            case Some(min) => ReportIf(|items| < min, at, MinItems)
            case None => []
    ensures SaidBy(checks, keywords, "maxItems", Array(items), root, at, depth, limit) ==
            match GetCount(keywords, "maxItems")
            case Some(max) => ReportIf(|items| > max, at, MaxItems)
            case None => []
  {
    hide Said, Get, GetCount;
    EmptySays(checks, Array(items), root, at, depth, limit);
    match Get(keywords, "minItems") {
      case Some(value) =>
        CountReads(keywords, "minItems", value);
        SizesSay(checks, value, Array(items), root, at, depth, limit);
      case None => NoCount(keywords, "minItems");
    }
    match Get(keywords, "maxItems") {
      case Some(value) =>
        CountReads(keywords, "maxItems", value);
        SizesSay(checks, value, Array(items), root, at, depth, limit);
      case None => NoCount(keywords, "maxItems");
    }
  }

  lemma SizesOnly(checks: Checks, keywords: seq<Field>, instance: Value, root: Value, at: string, depth: nat,
                  limit: nat)
    requires depth <= limit && !instance.Array?
    ensures SaidBy(checks, keywords, "minItems", instance, root, at, depth, limit) == []
    ensures SaidBy(checks, keywords, "maxItems", instance, root, at, depth, limit) == []
  {
    hide Said, Get;
    EmptySays(checks, instance, root, at, depth, limit);
    if Get(keywords, "minItems").Some? {
      SizesSay(checks, Get(keywords, "minItems").value, instance, root, at, depth, limit);
    }
    if Get(keywords, "maxItems").Some? {
      SizesSay(checks, Get(keywords, "maxItems").value, instance, root, at, depth, limit);
    }
  }

  lemma SizesAlone(checks: Checks, keywords: seq<Field>, instance: Value, root: Value, at: string, depth: nat,
                   limit: nat)
    requires depth <= limit
    ensures SaidBy(checks, keywords, "minItems", instance, root, at, depth, limit)
              + SaidBy(checks, keywords, "maxItems", instance, root, at, depth, limit)
         == if instance.Array? then SizeViolations(keywords, |instance.items|, at) else []
  {
    hide SaidBy, GetCount;
    if instance.Array? {
      SizeAlone(checks, keywords, instance.items, root, at, depth, limit);
    } else {
      SizesOnly(checks, keywords, instance, root, at, depth, limit);
    }
  }

  lemma RequiredAlone(checks: Checks, keywords: seq<Field>, instance: Value, root: Value, at: string, depth: nat,
                      limit: nat)
    requires depth <= limit
    ensures SaidBy(checks, keywords, "required", instance, root, at, depth, limit)
         == if instance.Object? then KindViolations(checks, keywords, instance, at) else []
  {
    hide Said, Get, RequiredViolations, MissingMembers;
    EmptySays(checks, instance, root, at, depth, limit);
    match Get(keywords, "required")
    case Some(value) =>
      RequiredSays(checks, value, instance, root, at, depth, limit);
      if instance.Object? && value.Array? {
        MissingAreReported(value.items, instance.fields, at);
      }
    case None =>
  }

  /** The schemas for members, which only together say what they say. */
  function MemberKeywords(keywords: seq<Field>): seq<Field> {
    Members(Get(keywords, "properties"), Get(keywords, "additionalProperties"))
  }

  lemma ChildrenAlone(checks: Checks, keywords: seq<Field>, instance: Value, root: Value, at: string, depth: nat,
                      limit: nat)
    requires depth <= limit
    ensures SaidBy(checks, keywords, "items", instance, root, at, depth, limit)
              + Said(checks, MemberKeywords(keywords), instance, root, at, depth, limit)
         == WalkChildren(checks, keywords, instance, root, at, depth, limit)
  {
    hide Said, Get, Members, WalkItems, WalkMembers;
    var items, members := Single(keywords, "items"), MemberKeywords(keywords);
    EmptySays(checks, instance, root, at, depth, limit);
    if Get(keywords, "items").Some? {
      GetAlone("items", Get(keywords, "items").value);
      WalkDown(checks, items, instance, root, at, depth, limit);
    }
    MembersAreChildren(Get(keywords, "properties"), Get(keywords, "additionalProperties"));
    GetMembers(Get(keywords, "properties"), Get(keywords, "additionalProperties"));
    WalkDown(checks, members, instance, root, at, depth, limit);
    if instance.Object? {
      SameMembers(checks, keywords, members, instance.fields, root, at, depth, limit);
      if Get(keywords, "items").Some? {
        SilentMembers(checks, items, instance.fields, root, at, depth, limit);
      }
    }
  }

  lemma OneOfAlone(checks: Checks, keywords: seq<Field>, instance: Value, root: Value, at: string, depth: nat,
                   limit: nat)
    requires depth <= limit
    ensures SaidBy(checks, keywords, "oneOf", instance, root, at, depth, limit)
         == WalkOneOf(checks, keywords, instance, root, at, depth, limit)
  {
    hide Said, Get, MatchedBranches;
    EmptySays(checks, instance, root, at, depth, limit);
    match Get(keywords, "oneOf")
    case Some(value) =>
      GetAlone("oneOf", value);
      WalkBranches(checks, value, instance, root, at, depth, limit);
    case None =>
  }

  /** What the keywords for one kind of instance say, in the order they are looked at. */
  ghost function SaidOfKind(checks: Checks, keywords: seq<Field>, instance: Value, root: Value, at: string,
                            depth: nat, limit: nat): seq<Violation>
    requires depth <= limit
  {
    (SaidBy(checks, keywords, "minLength", instance, root, at, depth, limit)
     + SaidBy(checks, keywords, "maxLength", instance, root, at, depth, limit)
     + SaidBy(checks, keywords, "pattern", instance, root, at, depth, limit)
     + SaidBy(checks, keywords, "format", instance, root, at, depth, limit))
    + (SaidBy(checks, keywords, "minimum", instance, root, at, depth, limit)
       + SaidBy(checks, keywords, "maximum", instance, root, at, depth, limit))
    + (SaidBy(checks, keywords, "minItems", instance, root, at, depth, limit)
       + SaidBy(checks, keywords, "maxItems", instance, root, at, depth, limit))
    + SaidBy(checks, keywords, "required", instance, root, at, depth, limit)
  }

  lemma OnlyOne(a: seq<Violation>, b: seq<Violation>, c: seq<Violation>, d: seq<Violation>)
    ensures b == [] && c == [] && d == [] ==> a + b + c + d == a
    ensures a == [] && c == [] && d == [] ==> a + b + c + d == b
    ensures a == [] && b == [] && d == [] ==> a + b + c + d == c
    ensures a == [] && b == [] && c == [] ==> a + b + c + d == d
  {
  }

  lemma KindAlone(checks: Checks, keywords: seq<Field>, instance: Value, root: Value, at: string, depth: nat,
                  limit: nat)
    requires depth <= limit
    ensures SaidOfKind(checks, keywords, instance, root, at, depth, limit)
         == KindViolations(checks, keywords, instance, at)
  {
    hide SaidBy, StringViolations, NumberViolations, SizeViolations;
    StringsAlone(checks, keywords, instance, root, at, depth, limit);
    NumbersAlone(checks, keywords, instance, root, at, depth, limit);
    SizesAlone(checks, keywords, instance, root, at, depth, limit);
    RequiredAlone(checks, keywords, instance, root, at, depth, limit);
    OnlyOne(if instance.String? then StringViolations(checks, keywords, instance.text, at) else [],
            if instance.Num? then NumberViolations(keywords, instance.n, at) else [],
            if instance.Array? then SizeViolations(keywords, |instance.items|, at) else [],
            if instance.Object? then KindViolations(checks, keywords, instance, at) else []);
  }

  /** What the keywords that do not descend say, `type` left out. */
  ghost function SaidLocally(checks: Checks, keywords: seq<Field>, instance: Value, root: Value, at: string,
                             depth: nat, limit: nat): seq<Violation>
    requires depth <= limit
  {
    (SaidBy(checks, keywords, "const", instance, root, at, depth, limit)
     + SaidBy(checks, keywords, "enum", instance, root, at, depth, limit))
    + SaidOfKind(checks, keywords, instance, root, at, depth, limit)
  }

  lemma LocalAlone(checks: Checks, keywords: seq<Field>, instance: Value, root: Value, at: string, depth: nat,
                   limit: nat)
    requires depth <= limit
    ensures SaidLocally(checks, keywords, instance, root, at, depth, limit)
         == LocalViolations(checks, keywords, instance, at)
  {
    hide SaidBy, SaidOfKind, ValueViolations, KindViolations;
    ValueAlone(checks, keywords, instance, root, at, depth, limit);
    KindAlone(checks, keywords, instance, root, at, depth, limit);
  }

  /** The keywords outside the subset. */
  function Unknown(keywords: seq<Field>): seq<Field> {
    if |keywords| == 0 then []
    else (if KnownKeyword(keywords[0].name) then [] else [keywords[0]]) + Unknown(keywords[1..])
  }

  /**
   A schema without a reference reports one violation for each keyword outside the
   subset, then what `type` says; if that is nothing, what each other keyword
   says as if it stood alone, the two about members together.
   */
  lemma SchemaSaysWhatItsKeywordsSay(checks: Checks, keywords: seq<Field>, instance: Value, root: Value, at: string,
                                     depth: nat, limit: nat)
    requires depth <= limit && Get(keywords, "$ref") == None
    ensures
      var unknown := seq(|Unknown(keywords)|, _ => Here(at, UnsupportedKeyword));
      var typed := SaidBy(checks, keywords, "type", instance, root, at, depth, limit);
      Said(checks, keywords, instance, root, at, depth, limit) ==
        if typed != [] then unknown + typed
        else
          unknown
          + (SaidLocally(checks, keywords, instance, root, at, depth, limit)
             + (SaidBy(checks, keywords, "items", instance, root, at, depth, limit)
                + Said(checks, MemberKeywords(keywords), instance, root, at, depth, limit))
             + SaidBy(checks, keywords, "oneOf", instance, root, at, depth, limit))
  {
    hide SaidBy, SaidLocally, Said, Get, KindOf, LocalViolations, WalkChildren, WalkOneOf, TypeProblem,
      UnknownKeywords, Unknown;
    UnknownAreListed(keywords, at);
    SaidWhole(checks, keywords, instance, root, at, depth, limit);
    TypeAlone(checks, keywords, instance, root, at, depth, limit);
    LocalAlone(checks, keywords, instance, root, at, depth, limit);
    ChildrenAlone(checks, keywords, instance, root, at, depth, limit);
    OneOfAlone(checks, keywords, instance, root, at, depth, limit);
  }

  lemma SaidWhole(checks: Checks, keywords: seq<Field>, instance: Value, root: Value, at: string, depth: nat,
                  limit: nat)
    requires depth <= limit && Get(keywords, "$ref") == None
    ensures Said(checks, keywords, instance, root, at, depth, limit)
         == UnknownKeywords(keywords, at) +
            match TypeProblem(keywords, KindOf(instance))
            case Some(rule) => [Here(at, rule)]
            case None =>
              LocalViolations(checks, keywords, instance, at)
              + WalkChildren(checks, keywords, instance, root, at, depth, limit)
              + WalkOneOf(checks, keywords, instance, root, at, depth, limit)
  {
    hide KindOf, LocalViolations, WalkChildren, WalkOneOf, UnknownKeywords, TypeProblem;
    assert Resolve(Object(keywords), root) == Ok(Object(keywords));
    assert Said(checks, keywords, instance, root, at, depth, limit)
        == UnknownKeywords(keywords, at) + WalkMap(checks, keywords, instance, root, at, depth, limit);
  }

  lemma {:induction false} UnknownAreListed(keywords: seq<Field>, at: string)
    ensures UnknownKeywords(keywords, at) == seq(|Unknown(keywords)|, _ => Here(at, UnsupportedKeyword))
  {
    hide KnownKeyword;
    if |keywords| > 0 {
      UnknownAreListed(keywords[1..], at);
    }
  }
}
