/**
 The schema subset: the violation list the walk reports, the declarative
 meaning of each keyword, and the proof that the list is empty exactly when the
 instance has that meaning. The walk is cut off at a nesting limit; below it
 the limit is shown not to matter.
 */
module JsonSchema {
  import opened Results
  import opened Json
  import Pattern
  import PatternParser

  /** The format recognisers and Unicode tables the keywords consult. */
  datatype Checks = Checks(
    unicode: Pattern.Unicode,
    isUuid: string -> bool,
    isDateTime: string -> bool,
    isDate: string -> bool,
    isBase64: string -> bool)

  datatype Rule =
    | DepthRule | FalseSchema | MalformedSchema | UnsupportedRef | UnknownDefinition | UnsupportedKeyword
    | TypeRule | ConstRule | EnumRule
    | MinLength | MaxLength | PatternRule | UnsupportedPattern | FormatRule | UnsupportedFormat
    | Minimum | Maximum | MinItems | MaxItems | Required | AdditionalProperties | OneOf

  datatype Violation = Violation(pointer: string, rule: Rule)

  const MAX_DEPTH: nat := 64

  function Report(at: string, rule: Rule): Violation {
    Violation(Shown(at), rule)
  }

  function ReportIf(condition: bool, at: string, rule: Rule): seq<Violation> {
    if condition then [Report(at, rule)] else []
  }

  // ------------------------------------------------------------------
  // Reading keywords
  // ------------------------------------------------------------------

  const ANNOTATIONS: set<string> :=
    {"title", "description", "$comment", "default", "examples", "deprecated", "$schema", "$id", "$defs"}

  const KEYWORDS: set<string> :=
    {"$ref", "type", "required", "properties", "additionalProperties", "enum", "const", "items", "minItems",
     "maxItems", "minLength", "maxLength", "minimum", "maximum", "pattern", "oneOf", "format"}

  predicate KnownKeyword(name: string) {
    name in KEYWORDS || name in ANNOTATIONS || "x-ores-" <= name
  }

  /** A keyword read as an unsigned integer; any other value counts as absent. */
  function GetCount(keywords: seq<Field>, name: string): Option<nat> {
    match Get(keywords, name)
    case Some(Num(Integer(i))) => if i >= 0 then Some(i) else None
    case _ => None
  }

  function AsReal(n: Number): real {
    match n
    case Integer(i) => i as real
    case Float(f) => f
  }

  function GetNumber(keywords: seq<Field>, name: string): Option<real> {
    match Get(keywords, name)
    case Some(Num(n)) => Some(AsReal(n))
    case _ => None
  }

  function GetText(keywords: seq<Field>, name: string): Option<string> {
    match Get(keywords, name)
    case Some(String(text)) => Some(text)
    case _ => None
  }

  function GetItems(keywords: seq<Field>, name: string): Option<seq<Value>> {
    match Get(keywords, name)
    case Some(Array(items)) => Some(items)
    case _ => None
  }

  function GetFields(keywords: seq<Field>, name: string): Option<seq<Field>> {
    match Get(keywords, name)
    case Some(Object(fields)) => Some(fields)
    case _ => None
  }

  function Definition(root: Value, name: string): Option<Value> {
    match root
    case Object(fields) =>
      (match GetFields(fields, "$defs")
       case Some(defs) => Get(defs, name)
       case None => None)
    case _ => None
  }

  const DEFINITION_PREFIX: string := "#/$defs/"

  /** One hop: a reference inside the target is not followed. */
  function Resolve(schema: Value, root: Value): Result<Value, Rule>
    requires schema.Object?
  {
    match GetText(schema.fields, "$ref")
    case None => Ok(schema)
    case Some(reference) =>
      if !(DEFINITION_PREFIX <= reference) then Err(UnsupportedRef)
      else match Definition(root, reference[|DEFINITION_PREFIX|..])
        case Some(target) => Ok(target)
        case None => Err(UnknownDefinition)
  }

  function KindOf(value: Value): string {
    match value
    case Null => "null"
    case Bool(_) => "boolean"
    case Num(n) => if n.Float? && n.f.Floor as real != n.f then "number" else "integer"
    case String(_) => "string"
    case Array(_) => "array"
    case Object(_) => "object"
  }

  predicate TypeMatches(expected: string, actual: string) {
    expected == actual || (expected == "number" && actual == "integer")
  }

  predicate TypeListMatches(list: seq<Value>, actual: string) {
    exists k :: 0 <= k < |list| && list[k].String? && TypeMatches(list[k].text, actual)
  }

  /** What the `type` keyword objects to, if anything. */
  function TypeProblem(keywords: seq<Field>, actual: string): Option<Rule> {
    match Get(keywords, "type")
    case None => None
    case Some(String(t)) => if TypeMatches(t, actual) then None else Some(TypeRule)
    case Some(Array(list)) => if TypeListMatches(list, actual) then None else Some(TypeRule)
    case Some(_) => Some(MalformedSchema)
  }

  // ------------------------------------------------------------------
  // Violations that do not descend
  // ------------------------------------------------------------------

  function UnknownKeywords(keywords: seq<Field>, at: string): seq<Violation> {
    if |keywords| == 0 then []
    else ReportIf(!KnownKeyword(keywords[0].name), at, UnsupportedKeyword) + UnknownKeywords(keywords[1..], at)
  }

  function ValueViolations(keywords: seq<Field>, instance: Value, at: string): seq<Violation> {
    (match Get(keywords, "const")
     case Some(expected) => ReportIf(expected != instance, at, ConstRule)
     case None => [])
    +
    (match GetItems(keywords, "enum")
     case Some(options) => ReportIf(instance !in options, at, EnumRule)
     case None => [])
  }

  ghost function PatternViolations(checks: Checks, source: string, text: string, at: string): seq<Violation> {
    match PatternParser.Parse(source)
    case Ok(compiled) => ReportIf(!Pattern.Matches(checks.unicode, compiled, text), at, PatternRule)
    case Err(_) => [Report(at, UnsupportedPattern)]
  }

  function FormatViolations(checks: Checks, format: string, text: string, at: string): seq<Violation> {
    if format == "uuid" then ReportIf(!checks.isUuid(text), at, FormatRule)
    else if format == "date-time" then ReportIf(!checks.isDateTime(text), at, FormatRule)
    else if format == "date" then ReportIf(!checks.isDate(text), at, FormatRule)
    else if format == "byte" then ReportIf(!checks.isBase64(text), at, FormatRule)
    else [Report(at, UnsupportedFormat)]
  }

  ghost function StringViolations(checks: Checks, keywords: seq<Field>, text: string, at: string): seq<Violation> {
    (match GetCount(keywords, "minLength") case Some(min) => ReportIf(|text| < min, at, MinLength) case None => [])
    + (match GetCount(keywords, "maxLength") case Some(max) => ReportIf(|text| > max, at, MaxLength) case None => [])
    + (match GetText(keywords, "pattern") case Some(p) => PatternViolations(checks, p, text, at) case None => [])
    + (match GetText(keywords, "format") case Some(f) => FormatViolations(checks, f, text, at) case None => [])
  }

  function NumberViolations(keywords: seq<Field>, n: Number, at: string): seq<Violation> {
    (match GetNumber(keywords, "minimum") case Some(min) => ReportIf(AsReal(n) < min, at, Minimum) case None => [])
    + (match GetNumber(keywords, "maximum") case Some(max) => ReportIf(AsReal(n) > max, at, Maximum) case None => [])
  }

  function SizeViolations(keywords: seq<Field>, size: nat, at: string): seq<Violation> {
    (match GetCount(keywords, "minItems") case Some(min) => ReportIf(size < min, at, MinItems) case None => [])
    + (match GetCount(keywords, "maxItems") case Some(max) => ReportIf(size > max, at, MaxItems) case None => [])
  }

  function RequiredViolations(required: seq<Value>, fields: seq<Field>, at: string): seq<Violation> {
    if |required| == 0 then []
    else
      (match required[0]
       case String(name) => ReportIf(Get(fields, name).None?, at + "/" + Escape(name), Required)
       case _ => [])
      + RequiredViolations(required[1..], fields, at)
  }

  /** Violations of the keywords that apply to one kind of instance. */
  ghost function KindViolations(checks: Checks, keywords: seq<Field>, instance: Value, at: string): seq<Violation> {
    match instance
    case String(text) => StringViolations(checks, keywords, text, at)
    case Num(n) => NumberViolations(keywords, n, at)
    case Array(items) => SizeViolations(keywords, |items|, at)
    case Object(fields) =>
      (match GetItems(keywords, "required") case Some(names) => RequiredViolations(names, fields, at) case None => [])
    case _ => []
  }

  ghost function LocalViolations(checks: Checks, keywords: seq<Field>, instance: Value, at: string): seq<Violation> {
    ValueViolations(keywords, instance, at) + KindViolations(checks, keywords, instance, at)
  }

  // ------------------------------------------------------------------
  // The walk
  // ------------------------------------------------------------------

  /** Which schema, if any, applies to the member `name`. */
  datatype MemberRule = Governed(schema: Value) | Forbidden | Free

  function MemberRuleFor(keywords: seq<Field>, name: string): MemberRule {
    match (match GetFields(keywords, "properties") case Some(p) => Get(p, name) case None => None)
    case Some(schema) => Governed(schema)
    case None =>
      (match Get(keywords, "additionalProperties")
       case Some(Bool(false)) => Forbidden
       case Some(other) => Governed(other)
       case None => Free)
  }

  ghost function Walk(checks: Checks, schema: Value, instance: Value, root: Value, at: string, depth: nat, limit: nat)
    : seq<Violation>
    requires depth <= limit + 1
    decreases limit + 1 - depth, 3, 0
  {
    if depth > limit then [Report(at, DepthRule)]
    else match schema
      case Bool(b) => ReportIf(!b, at, FalseSchema)
      case Object(_) =>
        (match Resolve(schema, root)
         case Err(rule) => [Report(at, rule)]
         case Ok(Object(keywords)) =>
           UnknownKeywords(keywords, at) + WalkMap(checks, keywords, instance, root, at, depth, limit)
         case Ok(_) => [Report(at, MalformedSchema)])
      case _ => [Report(at, MalformedSchema)]
  }

  ghost function WalkMap(checks: Checks, keywords: seq<Field>, instance: Value, root: Value, at: string,
                         depth: nat, limit: nat)
    : seq<Violation>
    requires depth <= limit
    decreases limit + 1 - depth, 2, 0
  {
    match TypeProblem(keywords, KindOf(instance))
    case Some(rule) => [Report(at, rule)]
    case None =>
      LocalViolations(checks, keywords, instance, at)
      + WalkChildren(checks, keywords, instance, root, at, depth, limit)
      + WalkOneOf(checks, keywords, instance, root, at, depth, limit)
  }

  ghost function WalkChildren(checks: Checks, keywords: seq<Field>, instance: Value, root: Value, at: string,
                              depth: nat, limit: nat)
    : seq<Violation>
    requires depth <= limit
    decreases limit + 1 - depth, 1, 0
  {
    match instance
    case Array(items) =>
      (match Get(keywords, "items")
       case Some(schema) => WalkItems(checks, schema, items, 0, root, at, depth, limit)
       case None => [])
    case Object(fields) => WalkMembers(checks, keywords, fields, root, at, depth, limit)
    case _ => []
  }

  ghost function WalkItems(checks: Checks, schema: Value, items: seq<Value>, from: nat, root: Value, at: string,
                           depth: nat, limit: nat)
    : seq<Violation>
    requires depth <= limit && from <= |items|
    decreases limit + 1 - depth, 0, |items| - from
  {
    if from == |items| then []
    else Walk(checks, schema, items[from], root, at + "/" + Decimal(from), depth + 1, limit)
         + WalkItems(checks, schema, items, from + 1, root, at, depth, limit)
  }

  ghost function WalkMember(checks: Checks, keywords: seq<Field>, field: Field, root: Value, at: string,
                            depth: nat, limit: nat)
    : seq<Violation>
    requires depth <= limit
    decreases limit + 1 - depth, 0, 0
  {
    var pointer := at + "/" + Escape(field.name);
    match MemberRuleFor(keywords, field.name)
    case Governed(schema) => Walk(checks, schema, field.value, root, pointer, depth + 1, limit)
    case Forbidden => [Report(pointer, AdditionalProperties)]
    case Free => []
  }

  ghost function WalkMembers(checks: Checks, keywords: seq<Field>, fields: seq<Field>, root: Value, at: string,
                             depth: nat, limit: nat)
    : seq<Violation>
    requires depth <= limit
    decreases limit + 1 - depth, 0, |fields| + 1
  {
    if |fields| == 0 then []
    else WalkMember(checks, keywords, fields[0], root, at, depth, limit)
         + WalkMembers(checks, keywords, fields[1..], root, at, depth, limit)
  }

  ghost function MatchedBranches(checks: Checks, branches: seq<Value>, from: nat, instance: Value, root: Value,
                                 at: string, depth: nat, limit: nat)
    : nat
    requires depth <= limit && from <= |branches|
    decreases limit + 1 - depth, 0, |branches| - from
  {
    if from == |branches| then 0
    else (if Walk(checks, branches[from], instance, root, at, depth + 1, limit) == [] then 1 else 0)
         + MatchedBranches(checks, branches, from + 1, instance, root, at, depth, limit)
  }

  ghost function WalkOneOf(checks: Checks, keywords: seq<Field>, instance: Value, root: Value, at: string,
                           depth: nat, limit: nat)
    : seq<Violation>
    requires depth <= limit
    decreases limit + 1 - depth, 1, 0
  {
    match GetItems(keywords, "oneOf")
    case Some(branches) =>
      ReportIf(MatchedBranches(checks, branches, 0, instance, root, at, depth, limit) != 1, at, OneOf)
    case None => []
  }

  // ------------------------------------------------------------------
  // What the keywords mean
  // ------------------------------------------------------------------

  ghost predicate TypeMet(keywords: seq<Field>, instance: Value) {
    match Get(keywords, "type")
    case None => true
    case Some(String(t)) => TypeMatches(t, KindOf(instance))
    case Some(Array(list)) =>
      exists t: string :: String(t) in list && TypeMatches(t, KindOf(instance))
    case Some(_) => false
  }

  ghost predicate ValueMet(keywords: seq<Field>, instance: Value) {
    && (Get(keywords, "const").Some? ==> instance == Get(keywords, "const").value)
    && (GetItems(keywords, "enum").Some? ==> instance in GetItems(keywords, "enum").value)
  }

  ghost predicate FormatMet(checks: Checks, format: string, text: string) {
    || (format == "uuid" && checks.isUuid(text))
    || (format == "date-time" && checks.isDateTime(text))
    || (format == "date" && checks.isDate(text))
    || (format == "byte" && checks.isBase64(text))
  }

  ghost predicate StringMet(checks: Checks, keywords: seq<Field>, text: string) {
    && (GetCount(keywords, "minLength").Some? ==> GetCount(keywords, "minLength").value <= |text|)
    && (GetCount(keywords, "maxLength").Some? ==> |text| <= GetCount(keywords, "maxLength").value)
    && (GetText(keywords, "pattern").Some? ==>
          exists p :: PatternParser.Parse(GetText(keywords, "pattern").value) == Ok(p)
                      && Pattern.Matches(checks.unicode, p, text))
    && (GetText(keywords, "format").Some? ==> FormatMet(checks, GetText(keywords, "format").value, text))
  }

  ghost predicate NumberMet(keywords: seq<Field>, n: Number) {
    && (GetNumber(keywords, "minimum").Some? ==> GetNumber(keywords, "minimum").value <= AsReal(n))
    && (GetNumber(keywords, "maximum").Some? ==> AsReal(n) <= GetNumber(keywords, "maximum").value)
  }

  ghost predicate SizeMet(keywords: seq<Field>, size: nat) {
    && (GetCount(keywords, "minItems").Some? ==> GetCount(keywords, "minItems").value <= size)
    && (GetCount(keywords, "maxItems").Some? ==> size <= GetCount(keywords, "maxItems").value)
  }

  ghost predicate HasMember(fields: seq<Field>, name: string) {
    exists k :: 0 <= k < |fields| && fields[k].name == name
  }

  ghost predicate RequiredMet(keywords: seq<Field>, fields: seq<Field>) {
    GetItems(keywords, "required").Some? ==>
      forall name: string :: String(name) in GetItems(keywords, "required").value ==> HasMember(fields, name)
  }

  ghost predicate LocalMet(checks: Checks, keywords: seq<Field>, instance: Value) {
    && ValueMet(keywords, instance)
    && match instance
       case String(text) => StringMet(checks, keywords, text)
       case Num(n) => NumberMet(keywords, n)
       case Array(items) => SizeMet(keywords, |items|)
       case Object(fields) => RequiredMet(keywords, fields)
       case _ => true
  }

  /**
   `instance` is valid against `schema`, using at most `fuel` nested schemas.
   Every clause is a plain statement about the instance; nothing is listed.
   */
  ghost predicate Valid(checks: Checks, schema: Value, instance: Value, root: Value, fuel: nat)
    decreases fuel, 0
  {
    && fuel > 0
    && match schema
       case Bool(b) => b
       case Object(_) =>
         (match Resolve(schema, root)
          case Ok(Object(keywords)) => Meets(checks, keywords, instance, root, fuel - 1)
          case _ => false)
       case _ => false
  }

  ghost predicate Meets(checks: Checks, keywords: seq<Field>, instance: Value, root: Value, fuel: nat)
    decreases fuel, 3
  {
    && (forall k :: 0 <= k < |keywords| ==> KnownKeyword(keywords[k].name))
    && TypeMet(keywords, instance)
    && LocalMet(checks, keywords, instance)
    && ChildrenMet(checks, keywords, instance, root, fuel)
    && (GetItems(keywords, "oneOf").Some? ==>
          ExactlyOne(checks, GetItems(keywords, "oneOf").value, instance, root, fuel))
  }

  ghost predicate ChildrenMet(checks: Checks, keywords: seq<Field>, instance: Value, root: Value, fuel: nat)
    decreases fuel, 2
  {
    && (instance.Array? && Get(keywords, "items").Some? ==>
          forall k :: 0 <= k < |instance.items| ==>
            Valid(checks, Get(keywords, "items").value, instance.items[k], root, fuel))
    && (instance.Object? ==>
          forall k :: 0 <= k < |instance.fields| ==> MemberMet(checks, keywords, instance.fields[k], root, fuel))
  }

  ghost predicate MemberMet(checks: Checks, keywords: seq<Field>, field: Field, root: Value, fuel: nat)
    decreases fuel, 1
  {
    match MemberRuleFor(keywords, field.name)
    case Governed(schema) => Valid(checks, schema, field.value, root, fuel)
    case Forbidden => false
    case Free => true
  }

  ghost predicate ExactlyOne(checks: Checks, branches: seq<Value>, instance: Value, root: Value, fuel: nat)
    decreases fuel, 2
  {
    exists b: nat :: IsOnlyBranch(checks, branches, instance, root, fuel, b)
  }

  ghost predicate IsOnlyBranch(checks: Checks, branches: seq<Value>, instance: Value, root: Value, fuel: nat, b: nat)
    decreases fuel, 1
  {
    b < |branches| && forall c :: 0 <= c < |branches| ==> (Valid(checks, branches[c], instance, root, fuel) <==> c == b)
  }

  // ------------------------------------------------------------------
  // No violations exactly when valid
  // ------------------------------------------------------------------

  lemma {:induction false} NoUnknownKeywords(keywords: seq<Field>, at: string)
    ensures UnknownKeywords(keywords, at) == [] <==> forall k :: 0 <= k < |keywords| ==> KnownKeyword(keywords[k].name)
  {
    hide KnownKeyword;
    if |keywords| > 0 {
      NoUnknownKeywords(keywords[1..], at);
      assert forall k :: 1 <= k < |keywords| ==> keywords[k] == keywords[1..][k - 1];
      assert forall k :: 0 <= k < |keywords| - 1 ==> keywords[1..][k] == keywords[k + 1];
    }
  }

  lemma NoTypeProblem(keywords: seq<Field>, instance: Value)
    ensures TypeProblem(keywords, KindOf(instance)).None? <==> TypeMet(keywords, instance)
  {
    match Get(keywords, "type")
    case Some(Array(list)) =>
      if k :| 0 <= k < |list| && list[k].String? && TypeMatches(list[k].text, KindOf(instance)) {
        assert String(list[k].text) in list;
      }
    case _ =>
  }

  lemma {:induction false} NoRequiredViolations(required: seq<Value>, fields: seq<Field>, at: string)
    ensures RequiredViolations(required, fields, at) == [] <==>
            forall name: string :: String(name) in required ==> HasMember(fields, name)
  {
    if |required| > 0 {
      NoRequiredViolations(required[1..], fields, at);
      assert required == [required[0]] + required[1..];
    }
  }

  lemma NoStringViolations(checks: Checks, keywords: seq<Field>, text: string, at: string)
    ensures StringViolations(checks, keywords, text, at) == [] <==> StringMet(checks, keywords, text)
  {
    hide PatternParser.Parse, Pattern.Matches;
  }

  lemma NoLocalViolations(checks: Checks, keywords: seq<Field>, instance: Value, at: string)
    ensures LocalViolations(checks, keywords, instance, at) == [] <==> LocalMet(checks, keywords, instance)
  {
    hide StringViolations, StringMet;
    match instance
    case String(text) => NoStringViolations(checks, keywords, text, at);
    case Object(fields) =>
      if GetItems(keywords, "required").Some? {
        NoRequiredViolations(GetItems(keywords, "required").value, fields, at);
      }
    case _ =>
  }

  lemma {:induction false} NoItemViolations(checks: Checks, schema: Value, items: seq<Value>, from: nat,
                                            root: Value, at: string, depth: nat, limit: nat)
    requires depth <= limit && from <= |items|
    ensures WalkItems(checks, schema, items, from, root, at, depth, limit) == [] <==>
            forall k :: from <= k < |items| ==> Valid(checks, schema, items[k], root, limit - depth)
    decreases limit + 1 - depth, 0, |items| - from
  {
    hide Walk, Valid;
    if from < |items| {
      WalkIsValid(checks, schema, items[from], root, at + "/" + Decimal(from), depth + 1, limit);
      NoItemViolations(checks, schema, items, from + 1, root, at, depth, limit);
    }
  }

  lemma NoMemberViolations(checks: Checks, keywords: seq<Field>, field: Field, root: Value, at: string, depth: nat,
                           limit: nat)
    requires depth <= limit
    ensures WalkMember(checks, keywords, field, root, at, depth, limit) == [] <==>
            MemberMet(checks, keywords, field, root, limit - depth)
    decreases limit + 1 - depth, 0, 0
  {
    match MemberRuleFor(keywords, field.name)
    case Governed(schema) =>
      WalkIsValid(checks, schema, field.value, root, at + "/" + Escape(field.name), depth + 1, limit);
    case _ =>
  }

  lemma {:induction false} NoMembersViolations(checks: Checks, keywords: seq<Field>, fields: seq<Field>,
                                               root: Value, at: string, depth: nat, limit: nat)
    requires depth <= limit
    ensures WalkMembers(checks, keywords, fields, root, at, depth, limit) == [] <==>
            forall k :: 0 <= k < |fields| ==> MemberMet(checks, keywords, fields[k], root, limit - depth)
    decreases limit + 1 - depth, 0, |fields| + 1
  {
    hide WalkMember, MemberMet;
    if |fields| > 0 {
      NoMemberViolations(checks, keywords, fields[0], root, at, depth, limit);
      NoMembersViolations(checks, keywords, fields[1..], root, at, depth, limit);
      assert forall k :: 1 <= k < |fields| ==> fields[k] == fields[1..][k - 1];
      assert forall k :: 0 <= k < |fields| - 1 ==> fields[1..][k] == fields[k + 1];
    }
  }

  /** Whether each branch holds. */
  ghost function Verdicts(checks: Checks, branches: seq<Value>, instance: Value, root: Value, fuel: nat): (v: seq<bool>)
    ensures |v| == |branches|
    ensures forall b :: 0 <= b < |branches| ==> v[b] == Valid(checks, branches[b], instance, root, fuel)
  {
    seq(|branches|, b requires 0 <= b < |branches| => Valid(checks, branches[b], instance, root, fuel))
  }

  function CountTrue(v: seq<bool>, from: nat): nat
    requires from <= |v|
    decreases |v| - from
  {
    if from == |v| then 0 else (if v[from] then 1 else 0) + CountTrue(v, from + 1)
  }

  lemma {:induction false} CountTrueIsOne(v: seq<bool>, from: nat)
    requires from <= |v|
    ensures CountTrue(v, from) == 0 <==> forall b :: from <= b < |v| ==> !v[b]
    ensures CountTrue(v, from) == 1 <==>
            exists b: nat :: IsOnlyTrue(v, from, b)
    decreases |v| - from
  {
    if from < |v| {
      CountTrueIsOne(v, from + 1);
      if CountTrue(v, from) == 1 {
        if v[from] {
          assert IsOnlyTrue(v, from, from);
        } else {
          var b: nat :| IsOnlyTrue(v, from + 1, b);
          assert IsOnlyTrue(v, from, b);
        }
      }
      if b: nat :| IsOnlyTrue(v, from, b) {
        if b > from {
          assert IsOnlyTrue(v, from + 1, b);
        }
      }
    }
  }

  ghost predicate IsOnlyTrue(v: seq<bool>, from: nat, b: nat) {
    from <= b < |v| && forall c :: from <= c < |v| ==> (v[c] <==> c == b)
  }

  lemma {:induction false} BranchCount(checks: Checks, branches: seq<Value>, from: nat, instance: Value,
                                       root: Value, at: string, depth: nat, limit: nat)
    requires depth <= limit && from <= |branches|
    ensures MatchedBranches(checks, branches, from, instance, root, at, depth, limit)
         == CountTrue(Verdicts(checks, branches, instance, root, limit - depth), from)
    decreases limit + 1 - depth, 0, |branches| - from
  {
    hide Valid, Walk;
    if from < |branches| {
      WalkIsValid(checks, branches[from], instance, root, at, depth + 1, limit);
      BranchCount(checks, branches, from + 1, instance, root, at, depth, limit);
    }
  }

  lemma ExactlyOneIsCount(checks: Checks, branches: seq<Value>, instance: Value, root: Value, fuel: nat)
    ensures ExactlyOne(checks, branches, instance, root, fuel) <==>
            CountTrue(Verdicts(checks, branches, instance, root, fuel), 0) == 1
  {
    hide Valid, CountTrue;
    var v := Verdicts(checks, branches, instance, root, fuel);
    CountTrueIsOne(v, 0);
    forall b: nat
      ensures IsOnlyBranch(checks, branches, instance, root, fuel, b) <==> IsOnlyTrue(v, 0, b)
    {
    }
  }

  lemma NoChildViolations(checks: Checks, keywords: seq<Field>, instance: Value, root: Value, at: string,
                          depth: nat, limit: nat)
    requires depth <= limit
    ensures WalkChildren(checks, keywords, instance, root, at, depth, limit) == [] <==>
            ChildrenMet(checks, keywords, instance, root, limit - depth)
    decreases limit + 1 - depth, 1, 0
  {
    hide MemberMet, Valid, WalkItems, WalkMembers;
    if instance.Array? && Get(keywords, "items").Some? {
      NoItemViolations(checks, Get(keywords, "items").value, instance.items, 0, root, at, depth, limit);
    }
    if instance.Object? {
      NoMembersViolations(checks, keywords, instance.fields, root, at, depth, limit);
    }
  }

  lemma NoMapViolations(checks: Checks, keywords: seq<Field>, instance: Value, root: Value, at: string, depth: nat,
                        limit: nat)
    requires depth <= limit
    ensures UnknownKeywords(keywords, at) + WalkMap(checks, keywords, instance, root, at, depth, limit) == [] <==>
            Meets(checks, keywords, instance, root, limit - depth)
    decreases limit + 1 - depth, 2, 0
  {
    hide UnknownKeywords, TypeProblem, TypeMet, LocalViolations, LocalMet, KnownKeyword, WalkChildren, ChildrenMet,
      ExactlyOne, Verdicts, CountTrue, MatchedBranches;
    NoUnknownKeywords(keywords, at);
    NoTypeProblem(keywords, instance);
    NoLocalViolations(checks, keywords, instance, at);
    NoChildViolations(checks, keywords, instance, root, at, depth, limit);
    if GetItems(keywords, "oneOf").Some? {
      BranchCount(checks, GetItems(keywords, "oneOf").value, 0, instance, root, at, depth, limit);
      ExactlyOneIsCount(checks, GetItems(keywords, "oneOf").value, instance, root, limit - depth);
    }
  }

  /** The walk reports nothing exactly when the instance is valid within the remaining depth. */
  lemma WalkIsValid(checks: Checks, schema: Value, instance: Value, root: Value, at: string, depth: nat, limit: nat)
    requires depth <= limit + 1
    ensures Walk(checks, schema, instance, root, at, depth, limit) == [] <==>
            Valid(checks, schema, instance, root, limit + 1 - depth)
    decreases limit + 1 - depth, 3, 0
  {
    hide Resolve, UnknownKeywords, WalkMap, Meets;
    if depth <= limit && schema.Object? {
      match Resolve(schema, root)
      case Ok(Object(keywords)) => NoMapViolations(checks, keywords, instance, root, at, depth, limit);
      case _ =>
    }
  }
}
