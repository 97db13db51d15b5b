/**
 Two properties of whole walks: below the nesting limit the limit does not
 matter, and every reported pointer leads to the place it is about.
 */
module JsonSchemaRuns {
  import opened Results
  import opened Json
  import opened JsonSchema

  // ------------------------------------------------------------------
  // The nesting limit
  // ------------------------------------------------------------------

  /** The walk, `oneOf` branches included, never goes past the limit. */
  ghost predicate WithinDepth(schema: Value, instance: Value, root: Value, depth: nat, limit: nat)
    requires depth <= limit + 1
    decreases limit + 1 - depth, 3
  {
    && depth <= limit
    && (schema.Object? ==>
          match Resolve(schema, root)
          case Ok(Object(keywords)) => WithinDepthMap(keywords, instance, root, depth, limit)
          case _ => true)
  }

  ghost predicate WithinDepthMap(keywords: seq<Field>, instance: Value, root: Value, depth: nat, limit: nat)
    requires depth <= limit
    decreases limit + 1 - depth, 2
  {
    TypeProblem(keywords, KindOf(instance)).None? ==>
      && WithinDepthChildren(keywords, instance, root, depth, limit)
      && (GetItems(keywords, "oneOf").Some? ==>
            WithinDepthBranches(GetItems(keywords, "oneOf").value, instance, root, depth, limit))
  }

  ghost predicate WithinDepthBranches(branches: seq<Value>, instance: Value, root: Value, depth: nat, limit: nat)
    requires depth <= limit
    decreases limit + 1 - depth, 1
  {
    forall b :: 0 <= b < |branches| ==> WithinDepth(branches[b], instance, root, depth + 1, limit)
  }

  ghost predicate WithinDepthMember(keywords: seq<Field>, field: Field, root: Value, depth: nat, limit: nat)
    requires depth <= limit
    decreases limit + 1 - depth, 0
  {
    match MemberRuleFor(keywords, field.name)
    case Governed(schema) => WithinDepth(schema, field.value, root, depth + 1, limit)
    case _ => true
  }

  ghost predicate WithinDepthChildren(keywords: seq<Field>, instance: Value, root: Value, depth: nat, limit: nat)
    requires depth <= limit
    decreases limit + 1 - depth, 1
  {
    match instance
    case Array(items) =>
      Get(keywords, "items").Some? ==>
        forall k :: 0 <= k < |items| ==> WithinDepth(Get(keywords, "items").value, items[k], root, depth + 1, limit)
    case Object(fields) =>
      forall k :: 0 <= k < |fields| ==> WithinDepthMember(keywords, fields[k], root, depth, limit)
    case _ => true
  }

  lemma {:induction false} SameItems(checks: Checks, schema: Value, items: seq<Value>, from: nat, root: Value,
                                     at: string,
                                     depth: nat, limit: nat, larger: nat)
    requires depth <= limit <= larger && from <= |items|
    requires forall k :: 0 <= k < |items| ==> WithinDepth(schema, items[k], root, depth + 1, limit)
    ensures WalkItems(checks, schema, items, from, root, at, depth, limit)
         == WalkItems(checks, schema, items, from, root, at, depth, larger)
    decreases limit + 1 - depth, 0, |items| - from
  {
    hide Walk, WithinDepth;
    if from < |items| {
      LimitIrrelevant(checks, schema, items[from], root, at + "/" + Decimal(from), depth + 1, limit, larger);
      SameItems(checks, schema, items, from + 1, root, at, depth, limit, larger);
    }
  }

  lemma SameMember(checks: Checks, keywords: seq<Field>, field: Field, root: Value, at: string, depth: nat,
                   limit: nat, larger: nat)
    requires depth <= limit <= larger
    requires WithinDepthMember(keywords, field, root, depth, limit)
    ensures WalkMember(checks, keywords, field, root, at, depth, limit)
         == WalkMember(checks, keywords, field, root, at, depth, larger)
    decreases limit + 1 - depth, 0, 0
  {
    hide Walk, WithinDepth;
    match MemberRuleFor(keywords, field.name)
    case Governed(schema) =>
      LimitIrrelevant(checks, schema, field.value, root, at + "/" + Escape(field.name), depth + 1, limit, larger);
    case _ =>
  }

  lemma {:induction false} SameMembers(checks: Checks, keywords: seq<Field>, fields: seq<Field>, root: Value,
                                       at: string,
                                       depth: nat, limit: nat, larger: nat)
    requires depth <= limit <= larger
    requires forall k :: 0 <= k < |fields| ==> WithinDepthMember(keywords, fields[k], root, depth, limit)
    ensures WalkMembers(checks, keywords, fields, root, at, depth, limit)
         == WalkMembers(checks, keywords, fields, root, at, depth, larger)
    decreases limit + 1 - depth, 0, |fields| + 1
  {
    hide WalkMember, WithinDepthMember;
    if |fields| > 0 {
      SameMember(checks, keywords, fields[0], root, at, depth, limit, larger);
      SameMembers(checks, keywords, fields[1..], root, at, depth, limit, larger);
    }
  }

  lemma {:induction false} SameBranches(checks: Checks, branches: seq<Value>, from: nat, instance: Value,
                                        root: Value, at: string,
                                        depth: nat, limit: nat, larger: nat)
    requires depth <= limit <= larger && from <= |branches|
    requires WithinDepthBranches(branches, instance, root, depth, limit)
    ensures MatchedBranches(checks, branches, from, instance, root, at, depth, limit)
         == MatchedBranches(checks, branches, from, instance, root, at, depth, larger)
    decreases limit + 1 - depth, 0, |branches| - from
  {
    hide Walk, WithinDepth;
    if from < |branches| {
      LimitIrrelevant(checks, branches[from], instance, root, at, depth + 1, limit, larger);
      SameBranches(checks, branches, from + 1, instance, root, at, depth, limit, larger);
    }
  }

  lemma SameMap(checks: Checks, keywords: seq<Field>, instance: Value, root: Value, at: string, depth: nat,
                limit: nat, larger: nat)
    requires depth <= limit <= larger
    requires WithinDepthMap(keywords, instance, root, depth, limit)
    ensures WalkMap(checks, keywords, instance, root, at, depth, limit)
         == WalkMap(checks, keywords, instance, root, at, depth, larger)
    decreases limit + 1 - depth, 2, 0
  {
    hide LocalViolations, WalkMembers, WalkItems, MatchedBranches, WithinDepth, WithinDepthMember, WithinDepthBranches;
    if TypeProblem(keywords, KindOf(instance)).None? {
      match instance {
        case Array(items) =>
          if Get(keywords, "items").Some? {
            SameItems(checks, Get(keywords, "items").value, items, 0, root, at, depth, limit, larger);
          }
        case Object(fields) =>
          SameMembers(checks, keywords, fields, root, at, depth, limit, larger);
        case _ =>
      }
      if GetItems(keywords, "oneOf").Some? {
        SameBranches(checks, GetItems(keywords, "oneOf").value, 0, instance, root, at, depth, limit, larger);
      }
    }
  }

  /** A walk that stays within one limit reports the same list under every larger limit. */
  lemma LimitIrrelevant(checks: Checks, schema: Value, instance: Value, root: Value, at: string, depth: nat,
                        limit: nat, larger: nat)
    requires depth <= limit + 1 && limit <= larger
    requires WithinDepth(schema, instance, root, depth, limit)
    ensures Walk(checks, schema, instance, root, at, depth, limit)
         == Walk(checks, schema, instance, root, at, depth, larger)
    decreases limit + 1 - depth, 3, 0
  {
    hide Resolve, WalkMap, WithinDepthMap, UnknownKeywords;
    if schema.Object? {
      match Resolve(schema, root)
      case Ok(Object(keywords)) => SameMap(checks, keywords, instance, root, at, depth, limit, larger);
      case _ =>
    }
  }

  /** So validity, which needs some nesting allowance to be stated, does not depend on it there. */
  lemma ValidityStable(checks: Checks, schema: Value, instance: Value, root: Value, limit: nat, larger: nat)
    requires limit <= larger && WithinDepth(schema, instance, root, 0, limit)
    ensures Valid(checks, schema, instance, root, limit + 1) <==> Valid(checks, schema, instance, root, larger + 1)
  {
    hide Walk, Valid, WithinDepth;
    LimitIrrelevant(checks, schema, instance, root, "", 0, limit, larger);
    WalkIsValid(checks, schema, instance, root, "", 0, limit);
    WalkIsValid(checks, schema, instance, root, "", 0, larger);
  }

  /**
   Past the limit it can matter in either direction: a `oneOf` whose only
   branch holds but is nested too deep turns from refused to accepted.
   */
  lemma LimitCanMatter(checks: Checks)
    ensures
      var schema := Object([Field("oneOf", Array([Bool(true)]))]);
      && Walk(checks, schema, Null, schema, "", 0, 0) != []
      && Walk(checks, schema, Null, schema, "", 0, 1) == []
  {
    var schema := Object([Field("oneOf", Array([Bool(true)]))]);
    assert schema.fields[1..] == [];
    assert GetItems(schema.fields, "oneOf") == Some([Bool(true)]);
    assert Resolve(schema, schema) == Ok(schema);
    WalkIsValid(checks, schema, Null, schema, "", 0, 0);
    WalkIsValid(checks, schema, Null, schema, "", 0, 1);
    assert !Valid(checks, Bool(true), Null, schema, 0);
    assert Valid(checks, Bool(true), Null, schema, 1);
    assert IsOnlyBranch(checks, [Bool(true)], Null, schema, 1, 0);
    assert !ExactlyOne(checks, [Bool(true)], Null, schema, 0);
  }

  // ------------------------------------------------------------------
  // Pointers
  // ------------------------------------------------------------------

  /** `path` leads from `instance` to a place inside it. */
  ghost predicate Locates(instance: Value, path: seq<string>)
    decreases |path|
  {
    |path| == 0 || exists child :: IsChild(instance, path[0], child) && Locates(child, path[1..])
  }

  ghost predicate IsChild(instance: Value, token: string, child: Value) {
    match instance
    case Array(items) => exists k: nat :: k < |items| && token == Decimal(k) && child == items[k]
    case Object(fields) => Field(token, child) in fields
    case _ => false
  }

  /** `path` names a member that its parent, an object inside `instance`, lacks. */
  ghost predicate NamesMissing(instance: Value, path: seq<string>)
    decreases |path|
  {
    || (|path| == 1 && instance.Object? && !HasMember(instance.fields, path[0]))
    || (|path| > 1 && exists child :: IsChild(instance, path[0], child) && NamesMissing(child, path[1..]))
  }

  ghost predicate PointsInto(instance: Value, path: seq<string>, rule: Rule) {
    Locates(instance, path) || (rule == Required && NamesMissing(instance, path))
  }

  /** Every violation in `list` points into `instance`, which stands at `base`. */
  ghost predicate AllPointInto(list: seq<Violation>, instance: Value, base: seq<string>) {
    forall v :: v in list ==>
      exists path :: v.pointer == Shown(Render(base + path)) && PointsInto(instance, path, v.rule)
  }

  lemma AtRoot(instance: Value, base: seq<string>, rule: Rule)
    ensures AllPointInto([Report(Render(base), rule)], instance, base)
  {
    assert base + [] == base;
    assert Locates(instance, []);
  }

  ghost predicate AllAt(list: seq<Violation>, at: string) {
    forall v :: v in list ==> v.pointer == Shown(at)
  }

  lemma BothAt(a: seq<Violation>, b: seq<Violation>, at: string)
    requires AllAt(a, at) && AllAt(b, at)
    ensures AllAt(a + b, at)
  {
  }

  lemma HereOnly(list: seq<Violation>, instance: Value, base: seq<string>)
    requires AllAt(list, Render(base))
    ensures AllPointInto(list, instance, base)
  {
    assert base + [] == base;
    assert Locates(instance, []);
    forall v | v in list
      ensures exists path :: v.pointer == Shown(Render(base + path)) && PointsInto(instance, path, v.rule)
    {
      assert PointsInto(instance, [], v.rule);
    }
  }

  /** Pointing into a child is pointing into the parent. */
  lemma ThroughChild(list: seq<Violation>, instance: Value, base: seq<string>, token: string, child: Value)
    requires IsChild(instance, token, child)
    requires AllPointInto(list, child, base + [token])
    ensures AllPointInto(list, instance, base)
  {
    hide IsChild, Render;
    forall v | v in list
      ensures exists path :: v.pointer == Shown(Render(base + path)) && PointsInto(instance, path, v.rule)
    {
      var path :| v.pointer == Shown(Render(base + [token] + path)) && PointsInto(child, path, v.rule);
      assert base + [token] + path == base + ([token] + path);
      assert ([token] + path)[1..] == path && ([token] + path)[0] == token;
      assert PointsInto(instance, [token] + path, v.rule);
    }
  }

  lemma BothPointInto(a: seq<Violation>, b: seq<Violation>, instance: Value, base: seq<string>)
    requires AllPointInto(a, instance, base) && AllPointInto(b, instance, base)
    ensures AllPointInto(a + b, instance, base)
  {
  }

  lemma {:induction false} UnknownKeywordsHere(keywords: seq<Field>, at: string)
    ensures AllAt(UnknownKeywords(keywords, at), at)
  {
    hide KnownKeyword;
    if |keywords| > 0 {
      UnknownKeywordsHere(keywords[1..], at);
    }
  }

  lemma {:induction false} RequiredPointInto(required: seq<Value>, fields: seq<Field>, base: seq<string>)
    ensures AllPointInto(RequiredViolations(required, fields, Render(base)), Object(fields), base)
  {
    hide Render, Locates, NamesMissing;
    if |required| > 0 {
      var first := match required[0]
        case String(name) => ReportIf(Get(fields, name).None?, Render(base) + "/" + Escape(name), Required)
        case _ => [];
      if first != [] {
        MissingMember(fields, base, required[0].text);
      }
      RequiredPointInto(required[1..], fields, base);
      BothPointInto(first, RequiredViolations(required[1..], fields, Render(base)), Object(fields), base);
    }
  }

  lemma MissingMember(fields: seq<Field>, base: seq<string>, name: string)
    requires Get(fields, name).None?
    ensures AllPointInto([Report(Render(base) + "/" + Escape(name), Required)], Object(fields), base)
  {
    hide Render;
    RenderAppend(base, name);
    assert NamesMissing(Object(fields), [name]);
    assert PointsInto(Object(fields), [name], Required);
  }

  lemma LocalPointInto(checks: Checks, keywords: seq<Field>, instance: Value, base: seq<string>)
    ensures AllPointInto(LocalViolations(checks, keywords, instance, Render(base)), instance, base)
  {
    hide StringViolations, ValueViolations, NumberViolations, SizeViolations, Render, AllPointInto, AllAt;
    var at := Render(base);
    var here := ValueViolations(keywords, instance, at);
    SimpleViolationsHere(keywords, instance, at);
    HereOnly(here, instance, base);
    NothingAt(at);
    HereOnly([], instance, base);
    match instance {
      case String(text) =>
        StringViolationsHere(checks, keywords, text, at);
        HereOnly(StringViolations(checks, keywords, text, at), instance, base);
        BothPointInto(here, StringViolations(checks, keywords, text, at), instance, base);
      case Num(n) =>
        HereOnly(NumberViolations(keywords, n, at), instance, base);
        BothPointInto(here, NumberViolations(keywords, n, at), instance, base);
      case Array(items) =>
        HereOnly(SizeViolations(keywords, |items|, at), instance, base);
        BothPointInto(here, SizeViolations(keywords, |items|, at), instance, base);
      case Object(fields) =>
        if GetItems(keywords, "required").Some? {
          var names := GetItems(keywords, "required").value;
          RequiredPointInto(names, fields, base);
          BothPointInto(here, RequiredViolations(names, fields, at), instance, base);
        } else {
          BothPointInto(here, [], instance, base);
        }
      case _ =>
        BothPointInto(here, [], instance, base);
    }
  }

  lemma NothingAt(at: string)
    ensures AllAt([], at)
  {
  }

  lemma SimpleViolationsHere(keywords: seq<Field>, instance: Value, at: string)
    ensures AllAt(ValueViolations(keywords, instance, at), at)
    ensures instance.Num? ==> AllAt(NumberViolations(keywords, instance.n, at), at)
    ensures instance.Array? ==> AllAt(SizeViolations(keywords, |instance.items|, at), at)
  {
  }

  lemma StringViolationsHere(checks: Checks, keywords: seq<Field>, text: string, at: string)
    ensures AllAt(StringViolations(checks, keywords, text, at), at)
  {
    hide PatternViolations, FormatViolations, AllAt;
    var a := match GetCount(keywords, "minLength")
      case Some(min) => ReportIf(|text| < min, at, MinLength)
      case None => [];
    var b := match GetCount(keywords, "maxLength")
      case Some(max) => ReportIf(|text| > max, at, MaxLength)
      case None => [];
    var c := match GetText(keywords, "pattern") case Some(p) => PatternViolations(checks, p, text, at) case None => [];
    var d := match GetText(keywords, "format") case Some(f) => FormatViolations(checks, f, text, at) case None => [];
    NothingAt(at);
    ReportAt(at, MinLength);
    ReportAt(at, MaxLength);
    if GetText(keywords, "pattern").Some? {
      PatternViolationsHere(checks, GetText(keywords, "pattern").value, text, at);
    }
    if GetText(keywords, "format").Some? {
      FormatViolationsHere(checks, GetText(keywords, "format").value, text, at);
    }
    BothAt(a, b, at);
    BothAt(a + b, c, at);
    BothAt(a + b + c, d, at);
  }

  lemma ReportAt(at: string, rule: Rule)
    ensures AllAt([Report(at, rule)], at)
  {
  }

  lemma PatternViolationsHere(checks: Checks, source: string, text: string, at: string)
    ensures AllAt(PatternViolations(checks, source, text, at), at)
  {
  }

  lemma FormatViolationsHere(checks: Checks, format: string, text: string, at: string)
    ensures AllAt(FormatViolations(checks, format, text, at), at)
  {
  }

  lemma {:induction false} ItemsPointInto(checks: Checks, schema: Value, items: seq<Value>, from: nat, root: Value,
                                          base: seq<string>, depth: nat, limit: nat)
    requires depth <= limit && from <= |items|
    ensures AllPointInto(WalkItems(checks, schema, items, from, root, Render(base), depth, limit), Array(items), base)
    decreases limit + 1 - depth, 0, |items| - from
  {
    hide Walk, Render, AllPointInto;
    if from == |items| {
      HereOnly([], Array(items), base);
    } else {
      var token := Decimal(from);
      RenderAppend(base, token);
      WalkPointsInto(checks, schema, items[from], root, base + [token], depth + 1, limit);
      var first := Walk(checks, schema, items[from], root, Render(base) + "/" + token, depth + 1, limit);
      DecimalIsPlain(from);
      assert IsChild(Array(items), token, items[from]);
      ThroughChild(first, Array(items), base, token, items[from]);
      ItemsPointInto(checks, schema, items, from + 1, root, base, depth, limit);
      var others := WalkItems(checks, schema, items, from + 1, root, Render(base), depth, limit);
      BothPointInto(first, others, Array(items), base);
    }
  }

  /** An index needs no escaping. */
  lemma {:induction false} DecimalIsPlain(n: nat)
    ensures Escape(Decimal(n)) == Decimal(n)
  {
    if n < 10 {
      PlainDigit(n);
    } else {
      DecimalIsPlain(n / 10);
      PlainDigit(n % 10);
      ReplaceCharConcat(Decimal(n / 10), [Digit(n % 10)], '~', "~0");
      ReplaceCharConcat(ReplaceChar(Decimal(n / 10), '~', "~0"), ReplaceChar([Digit(n % 10)], '~', "~0"), '/', "~1");
    }
  }

  lemma PlainDigit(d: nat)
    requires d < 10
    ensures Escape([Digit(d)]) == [Digit(d)]
  {
    EscapeStep([Digit(d)]);
    assert [Digit(d)][1..] == "";
  }

  lemma MemberPointsInto(checks: Checks, keywords: seq<Field>, fields: seq<Field>, field: Field, root: Value,
                         base: seq<string>, depth: nat, limit: nat)
    requires depth <= limit && field in fields
    ensures AllPointInto(WalkMember(checks, keywords, field, root, Render(base), depth, limit), Object(fields), base)
    decreases limit + 1 - depth, 0, 0
  {
    hide Walk, Render, AllPointInto;
    RenderAppend(base, field.name);
    assert IsChild(Object(fields), field.name, field.value);
    match MemberRuleFor(keywords, field.name)
    case Governed(schema) =>
      WalkPointsInto(checks, schema, field.value, root, base + [field.name], depth + 1, limit);
      var list := WalkMember(checks, keywords, field, root, Render(base), depth, limit);
      ThroughChild(list, Object(fields), base, field.name, field.value);
    case Forbidden =>
      AtRoot(field.value, base + [field.name], AdditionalProperties);
      var list := WalkMember(checks, keywords, field, root, Render(base), depth, limit);
      ThroughChild(list, Object(fields), base, field.name, field.value);
    case Free =>
      HereOnly([], Object(fields), base);
  }

  lemma {:induction false} MembersPointInto(checks: Checks, keywords: seq<Field>, fields: seq<Field>,
                                            rest: seq<Field>, root: Value,
                                            base: seq<string>, depth: nat, limit: nat)
    requires depth <= limit && forall f :: f in rest ==> f in fields
    ensures AllPointInto(WalkMembers(checks, keywords, rest, root, Render(base), depth, limit), Object(fields), base)
    decreases limit + 1 - depth, 0, |rest| + 1
  {
    hide WalkMember, Render, AllPointInto;
    if |rest| == 0 {
      HereOnly([], Object(fields), base);
    } else {
      MemberPointsInto(checks, keywords, fields, rest[0], root, base, depth, limit);
      MembersPointInto(checks, keywords, fields, rest[1..], root, base, depth, limit);
      BothPointInto(WalkMember(checks, keywords, rest[0], root, Render(base), depth, limit),
                    WalkMembers(checks, keywords, rest[1..], root, Render(base), depth, limit), Object(fields), base);
    }
  }

  lemma MapPointsInto(checks: Checks, keywords: seq<Field>, instance: Value, root: Value, base: seq<string>,
                      depth: nat, limit: nat)
    requires depth <= limit
    ensures AllPointInto(WalkMap(checks, keywords, instance, root, Render(base), depth, limit), instance, base)
    decreases limit + 1 - depth, 2, 0
  {
    hide LocalViolations, WalkItems, WalkMembers, MatchedBranches, Render, AllPointInto;
    var at := Render(base);
    match TypeProblem(keywords, KindOf(instance))
    case Some(rule) => AtRoot(instance, base, rule);
    case None =>
      var local := LocalViolations(checks, keywords, instance, at);
      var children := WalkChildren(checks, keywords, instance, root, at, depth, limit);
      var oneOf := WalkOneOf(checks, keywords, instance, root, at, depth, limit);
      LocalPointInto(checks, keywords, instance, base);
      ChildrenPointInto(checks, keywords, instance, root, base, depth, limit);
      HereOnly(oneOf, instance, base);
      BothPointInto(local, children, instance, base);
      BothPointInto(local + children, oneOf, instance, base);
  }

  lemma ChildrenPointInto(checks: Checks, keywords: seq<Field>, instance: Value, root: Value, base: seq<string>,
                          depth: nat, limit: nat)
    requires depth <= limit
    ensures AllPointInto(WalkChildren(checks, keywords, instance, root, Render(base), depth, limit), instance, base)
    decreases limit + 1 - depth, 1, 0
  {
    hide WalkItems, WalkMembers, Render, AllPointInto;
    HereOnly([], instance, base);
    match instance
    case Array(items) =>
      if Get(keywords, "items").Some? {
        ItemsPointInto(checks, Get(keywords, "items").value, items, 0, root, base, depth, limit);
      }
    case Object(fields) =>
      MembersPointInto(checks, keywords, fields, fields, root, base, depth, limit);
    case _ =>
  }

  /** Every reported pointer leads into the instance, or names a required member that is missing. */
  lemma WalkPointsInto(checks: Checks, schema: Value, instance: Value, root: Value, base: seq<string>, depth: nat,
                       limit: nat)
    requires depth <= limit + 1
    ensures AllPointInto(Walk(checks, schema, instance, root, Render(base), depth, limit), instance, base)
    decreases limit + 1 - depth, 3, 0
  {
    hide Resolve, UnknownKeywords, WalkMap, Render, AllPointInto;
    var at := Render(base);
    HereOnly([], instance, base);
    AtRoot(instance, base, DepthRule);
    AtRoot(instance, base, FalseSchema);
    AtRoot(instance, base, MalformedSchema);
    if depth <= limit && schema.Object? {
      match Resolve(schema, root)
      case Ok(Object(keywords)) =>
        UnknownKeywordsHere(keywords, at);
        HereOnly(UnknownKeywords(keywords, at), instance, base);
        MapPointsInto(checks, keywords, instance, root, base, depth, limit);
        var found := WalkMap(checks, keywords, instance, root, at, depth, limit);
        BothPointInto(UnknownKeywords(keywords, at), found, instance, base);
      case Ok(_) =>
      case Err(rule) => AtRoot(instance, base, rule);
    }
  }
}
