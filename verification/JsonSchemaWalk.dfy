/**
 The validator itself: recursive procedures that push onto one shared list of
 violations, proved to append exactly the list the specification gives.
 */
module JsonSchemaWalk {
  import opened Results
  import opened Json
  import opened JsonSchema
  import Pattern
  import PatternParser

  class Findings {
    var items: seq<Violation>

    constructor ()
      ensures items == []
    {
      items := [];
    }

    method Push(at: string, rule: Rule)
      modifies this
      ensures items == old(items) + [Report(at, rule)]
    {
      items := items + [Report(at, rule)];
    }
  }

  lemma Assoc(a: seq<Violation>, b: seq<Violation>, c: seq<Violation>)
    ensures a + b + c == a + (b + c)
  {
  }

  method ResolveSchema(schema: Value, root: Value, at: string, out: Findings) returns (target: Option<Value>)
    requires schema.Object?
    modifies out
    ensures match Resolve(schema, root)
            case Ok(value) => target == Some(value) && out.items == old(out.items)
            case Err(rule) => target == None && out.items == old(out.items) + [Report(at, rule)]
  {
    var reference := GetText(schema.fields, "$ref");
    if reference.None? {
      return Some(schema);
    }
    if !(DEFINITION_PREFIX <= reference.value) {
      out.Push(at, UnsupportedRef);
      return None;
    }
    target := Definition(root, reference.value[|DEFINITION_PREFIX|..]);
    if target.None? {
      out.Push(at, UnknownDefinition);
    }
  }

  method CheckKeywords(keywords: seq<Field>, at: string, out: Findings)
    modifies out
    ensures out.items == old(out.items) + UnknownKeywords(keywords, at)
  {
    assert keywords[0..] == keywords;
    for k := 0 to |keywords|
      invariant out.items + UnknownKeywords(keywords[k..], at) == old(out.items) + UnknownKeywords(keywords, at)
    {
      assert keywords[k..][1..] == keywords[k + 1..];
      Assoc(out.items, ReportIf(!KnownKeyword(keywords[k].name), at, UnsupportedKeyword),
            UnknownKeywords(keywords[k + 1..], at));
      if !KnownKeyword(keywords[k].name) {
        out.Push(at, UnsupportedKeyword);
      }
    }
  }

  method StringRules(checks: Checks, keywords: seq<Field>, text: string, at: string, out: Findings)
    modifies out
    ensures out.items == old(out.items) + StringViolations(checks, keywords, text, at)
  {
    hide PatternViolations, FormatViolations;
    ghost var start := out.items;
    ghost var a := match GetCount(keywords, "minLength")
      case Some(min) => ReportIf(|text| < min, at, MinLength)
      case None => [];
    ghost var b := match GetCount(keywords, "maxLength")
      case Some(max) => ReportIf(|text| > max, at, MaxLength)
      case None => [];
    ghost var c := match GetText(keywords, "pattern")
      case Some(p) => PatternViolations(checks, p, text, at)
      case None => [];
    ghost var d := match GetText(keywords, "format")
      case Some(f) => FormatViolations(checks, f, text, at)
      case None => [];
    Assoc(start, a, b);
    Assoc(start, a + b, c);
    Assoc(start, a + b + c, d);
    var min := GetCount(keywords, "minLength");
    if min.Some? && |text| < min.value {
      out.Push(at, MinLength);
    }
    assert out.items == start + a;
    var max := GetCount(keywords, "maxLength");
    if max.Some? && |text| > max.value {
      out.Push(at, MaxLength);
    }
    assert out.items == start + a + b;
    var source := GetText(keywords, "pattern");
    if source.Some? {
      CheckPattern(checks, source.value, text, at, out);
    }
    assert out.items == start + a + b + c;
    var format := GetText(keywords, "format");
    if format.Some? {
      CheckFormat(checks, format.value, text, at, out);
    }
    assert out.items == start + a + b + c + d;
  }

  method CheckPattern(checks: Checks, source: string, text: string, at: string, out: Findings)
    modifies out
    ensures out.items == old(out.items) + PatternViolations(checks, source, text, at)
  {
    hide PatternParser.Parse, Pattern.Matches;
    var compiled := PatternParser.ScanPattern(source);
    if compiled.Err? {
      out.Push(at, UnsupportedPattern);
      return;
    }
    PatternParser.ParsedIsWellFormed(source);
    var matched := Pattern.IsMatch(checks.unicode, compiled.value, text);
    if !matched {
      out.Push(at, PatternRule);
    }
  }

  method CheckFormat(checks: Checks, format: string, text: string, at: string, out: Findings)
    modifies out
    ensures out.items == old(out.items) + FormatViolations(checks, format, text, at)
  {
    var ok := false;
    if format == "uuid" {
      ok := checks.isUuid(text);
    } else if format == "date-time" {
      ok := checks.isDateTime(text);
    } else if format == "date" {
      ok := checks.isDate(text);
    } else if format == "byte" {
      ok := checks.isBase64(text);
    } else {
      out.Push(at, UnsupportedFormat);
      return;
    }
    if !ok {
      out.Push(at, FormatRule);
    }
  }

  method NumberRules(keywords: seq<Field>, n: Number, at: string, out: Findings)
    modifies out
    ensures out.items == old(out.items) + NumberViolations(keywords, n, at)
  {
    var min := GetNumber(keywords, "minimum");
    if min.Some? && AsReal(n) < min.value {
      out.Push(at, Minimum);
    }
    var max := GetNumber(keywords, "maximum");
    if max.Some? && AsReal(n) > max.value {
      out.Push(at, Maximum);
    }
  }

  method SizeRules(keywords: seq<Field>, size: nat, at: string, out: Findings)
    modifies out
    ensures out.items == old(out.items) + SizeViolations(keywords, size, at)
  {
    var min := GetCount(keywords, "minItems");
    if min.Some? && size < min.value {
      out.Push(at, MinItems);
    }
    var max := GetCount(keywords, "maxItems");
    if max.Some? && size > max.value {
      out.Push(at, MaxItems);
    }
  }

  method ArrayRules(checks: Checks, keywords: seq<Field>, items: seq<Value>, root: Value, at: string,
                    out: Findings, depth: nat)
    requires depth <= MAX_DEPTH
    modifies out
    ensures out.items == old(out.items)
      + (SizeViolations(keywords, |items|, at)
         + WalkChildren(checks, keywords, Array(items), root, at, depth, MAX_DEPTH))
    decreases MAX_DEPTH + 1 - depth, 1
  {
    hide Walk, SizeViolations;
    Assoc(out.items, SizeViolations(keywords, |items|, at),
          WalkChildren(checks, keywords, Array(items), root, at, depth, MAX_DEPTH));
    SizeRules(keywords, |items|, at, out);
    ghost var sized := out.items;
    var schema := Get(keywords, "items");
    if schema.Some? {
      for i := 0 to |items|
        invariant out.items + WalkItems(checks, schema.value, items, i, root, at, depth, MAX_DEPTH)
               == sized + WalkItems(checks, schema.value, items, 0, root, at, depth, MAX_DEPTH)
      {
        var pointer := at + "/" + Decimal(i);
        Assoc(out.items, Walk(checks, schema.value, items[i], root, pointer, depth + 1, MAX_DEPTH),
              WalkItems(checks, schema.value, items, i + 1, root, at, depth, MAX_DEPTH));
        Node(checks, schema.value, items[i], root, pointer, out, depth + 1);
      }
    }
  }

  method ObjectRules(checks: Checks, keywords: seq<Field>, fields: seq<Field>, root: Value, at: string,
                     out: Findings, depth: nat)
    requires depth <= MAX_DEPTH
    modifies out
    ensures
      var missing := match GetItems(keywords, "required")
        case Some(names) => RequiredViolations(names, fields, at)
        case None => [];
      out.items == old(out.items) + (missing + WalkMembers(checks, keywords, fields, root, at, depth, MAX_DEPTH))
    decreases MAX_DEPTH + 1 - depth, 1
  {
    hide WalkMember, RequiredViolations;
    ghost var missing :=
      match GetItems(keywords, "required") case Some(names) => RequiredViolations(names, fields, at) case None => [];
    Assoc(out.items, missing, WalkMembers(checks, keywords, fields, root, at, depth, MAX_DEPTH));
    var required := GetItems(keywords, "required");
    if required.Some? {
      CheckRequired(required.value, fields, at, out);
    }
    ghost var checked := out.items;
    assert checked == old(out.items) + missing;
    assert fields[0..] == fields;
    for k := 0 to |fields|
      invariant out.items + WalkMembers(checks, keywords, fields[k..], root, at, depth, MAX_DEPTH)
             == checked + WalkMembers(checks, keywords, fields, root, at, depth, MAX_DEPTH)
    {
      assert fields[k..][1..] == fields[k + 1..];
      Assoc(out.items, WalkMember(checks, keywords, fields[k], root, at, depth, MAX_DEPTH),
            WalkMembers(checks, keywords, fields[k + 1..], root, at, depth, MAX_DEPTH));
      CheckMember(checks, keywords, fields[k], root, at, out, depth);
    }
    assert out.items + [] == out.items;
  }

  method CheckRequired(required: seq<Value>, fields: seq<Field>, at: string, out: Findings)
    modifies out
    ensures out.items == old(out.items) + RequiredViolations(required, fields, at)
  {
    assert required[0..] == required;
    for k := 0 to |required|
      invariant out.items + RequiredViolations(required[k..], fields, at)
             == old(out.items) + RequiredViolations(required, fields, at)
    {
      assert required[k..][1..] == required[k + 1..];
      ghost var here := match required[k]
        case String(name) => ReportIf(Get(fields, name).None?, at + "/" + Escape(name), Required)
        case _ => [];
      Assoc(out.items, here, RequiredViolations(required[k + 1..], fields, at));
      if required[k].String? && Get(fields, required[k].text).None? {
        out.Push(at + "/" + Escape(required[k].text), Required);
      }
    }
  }

  method CheckMember(checks: Checks, keywords: seq<Field>, field: Field, root: Value, at: string, out: Findings,
                     depth: nat)
    requires depth <= MAX_DEPTH
    modifies out
    ensures out.items == old(out.items) + WalkMember(checks, keywords, field, root, at, depth, MAX_DEPTH)
    decreases MAX_DEPTH + 1 - depth, 0
  {
    hide Walk;
    var pointer := at + "/" + Escape(field.name);
    var properties := GetFields(keywords, "properties");
    var child := if properties.Some? then Get(properties.value, field.name) else None;
    if child.Some? {
      Node(checks, child.value, field.value, root, pointer, out, depth + 1);
      return;
    }
    match Get(keywords, "additionalProperties")
    case Some(Bool(false)) => out.Push(pointer, AdditionalProperties);
    case Some(other) => Node(checks, other, field.value, root, pointer, out, depth + 1);
    case None =>
  }

  method OneOfRule(checks: Checks, branches: seq<Value>, instance: Value, root: Value, at: string, out: Findings,
                   depth: nat)
    requires depth <= MAX_DEPTH
    modifies out
    ensures out.items == old(out.items)
      + ReportIf(MatchedBranches(checks, branches, 0, instance, root, at, depth, MAX_DEPTH) != 1, at, OneOf)
    decreases MAX_DEPTH + 1 - depth, 1
  {
    hide Walk;
    var matched := 0;
    for b := 0 to |branches|
      invariant out.items == old(out.items)
      invariant matched + MatchedBranches(checks, branches, b, instance, root, at, depth, MAX_DEPTH)
             == MatchedBranches(checks, branches, 0, instance, root, at, depth, MAX_DEPTH)
    {
      var scratch := new Findings();
      Node(checks, branches[b], instance, root, at, scratch, depth + 1);
      if scratch.items == [] {
        matched := matched + 1;
      }
    }
    if matched != 1 {
      out.Push(at, OneOf);
    }
  }

  method Node(checks: Checks, schema: Value, instance: Value, root: Value, at: string, out: Findings, depth: nat)
    requires depth <= MAX_DEPTH + 1
    modifies out
    ensures out.items == old(out.items) + Walk(checks, schema, instance, root, at, depth, MAX_DEPTH)
    decreases MAX_DEPTH + 1 - depth, 4
  {
    hide WalkMap, UnknownKeywords, Resolve;
    if depth > MAX_DEPTH {
      out.Push(at, DepthRule);
      return;
    }
    match schema
    case Bool(b) =>
      if !b {
        out.Push(at, FalseSchema);
      }
    case Object(_) =>
      var target := ResolveSchema(schema, root, at, out);
      if target.None? {
        return;
      }
      if !target.value.Object? {
        out.Push(at, MalformedSchema);
        return;
      }
      CheckKeywords(target.value.fields, at, out);
      NodeMap(checks, target.value.fields, instance, root, at, out, depth);
    case _ => out.Push(at, MalformedSchema);
  }

  method NodeMap(checks: Checks, keywords: seq<Field>, instance: Value, root: Value, at: string, out: Findings,
                 depth: nat)
    requires depth <= MAX_DEPTH
    modifies out
    ensures out.items == old(out.items) + WalkMap(checks, keywords, instance, root, at, depth, MAX_DEPTH)
    decreases MAX_DEPTH + 1 - depth, 3
  {
    hide ValueViolations, KindViolations, WalkChildren, MatchedBranches, KindOf;
    var problem := TypeProblem(keywords, KindOf(instance));
    if problem.Some? {
      out.Push(at, problem.value);
      return;
    }
    ghost var start := out.items;
    ghost var value, kind := ValueViolations(keywords, instance, at), KindViolations(checks, keywords, instance, at);
    ghost var children := WalkChildren(checks, keywords, instance, root, at, depth, MAX_DEPTH);
    Assoc(start, value, kind + children);
    Assoc(value, kind, children);
    Assoc(start, value + kind + children, WalkOneOf(checks, keywords, instance, root, at, depth, MAX_DEPTH));
    ValueRules(keywords, instance, at, out);
    KindRules(checks, keywords, instance, root, at, out, depth);
    assert out.items == start + (value + kind + children);
    var branches := GetItems(keywords, "oneOf");
    if branches.Some? {
      OneOfRule(checks, branches.value, instance, root, at, out, depth);
    }
  }

  method ValueRules(keywords: seq<Field>, instance: Value, at: string, out: Findings)
    modifies out
    ensures out.items == old(out.items) + ValueViolations(keywords, instance, at)
  {
    var expected := Get(keywords, "const");
    if expected.Some? && expected.value != instance {
      out.Push(at, ConstRule);
    }
    var options := GetItems(keywords, "enum");
    if options.Some? && instance !in options.value {
      out.Push(at, EnumRule);
    }
  }

  /** The keywords that apply to one kind of instance, after those that apply to all. */
  method KindRules(checks: Checks, keywords: seq<Field>, instance: Value, root: Value, at: string, out: Findings,
                   depth: nat)
    requires depth <= MAX_DEPTH
    modifies out
    ensures out.items == old(out.items)
      + (KindViolations(checks, keywords, instance, at)
         + WalkChildren(checks, keywords, instance, root, at, depth, MAX_DEPTH))
    decreases MAX_DEPTH + 1 - depth, 2
  {
    hide StringViolations, NumberViolations, SizeViolations, RequiredViolations, WalkItems, WalkMembers;
    match instance
    case String(text) => StringRules(checks, keywords, text, at, out);
    case Num(n) => NumberRules(keywords, n, at, out);
    case Array(items) => ArrayRules(checks, keywords, items, root, at, out, depth);
    case Object(fields) => ObjectRules(checks, keywords, fields, root, at, out, depth);
    case _ =>
  }

  /** Validate against the whole document: accepted exactly when valid within the nesting limit. */
  method Validate(checks: Checks, schema: Value, instance: Value) returns (violations: seq<Violation>)
    ensures violations == Walk(checks, schema, instance, schema, "", 0, MAX_DEPTH)
    ensures violations == [] <==> Valid(checks, schema, instance, schema, MAX_DEPTH + 1)
  {
    hide Walk, Valid;
    var out := new Findings();
    Node(checks, schema, instance, schema, "", out, 0);
    WalkIsValid(checks, schema, instance, schema, "", 0, MAX_DEPTH);
    return out.items;
  }

  /** Validate against one named definition of a document. */
  method ValidateDefinition(checks: Checks, document: Value, name: string, instance: Value)
    returns (violations: seq<Violation>)
    ensures match Definition(document, name)
            case None => violations == [Report("", UnknownDefinition)]
            case Some(schema) =>
              && violations == Walk(checks, schema, instance, document, "", 0, MAX_DEPTH)
              && (violations == [] <==> Valid(checks, schema, instance, document, MAX_DEPTH + 1))
  {
    hide Walk, Valid;
    var definition := Definition(document, name);
    if definition.None? {
      return [Report("", UnknownDefinition)];
    }
    var out := new Findings();
    Node(checks, definition.value, instance, document, "", out, 0);
    WalkIsValid(checks, definition.value, instance, document, "", 0, MAX_DEPTH);
    return out.items;
  }
}
