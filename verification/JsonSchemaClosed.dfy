/**
 When the validator fails closed: which keywords outside the subset a walk
 reports, what a `oneOf` branch with one amounts to, and which instances a
 pattern outside the subset is reported for.
 */
module JsonSchemaClosed {
  import opened Results
  import opened Json
  import opened JsonSchema
  import Pattern
  import PatternParser

  ghost predicate Reports(list: seq<Violation>, rule: Rule) {
    exists v :: v in list && v.rule == rule
  }

  lemma ReportsBoth(a: seq<Violation>, b: seq<Violation>, rule: Rule)
    ensures Reports(a + b, rule) <==> Reports(a, rule) || Reports(b, rule)
  {
    if v :| v in a + b && v.rule == rule {
      assert v in a || v in b;
    }
    if v :| v in a && v.rule == rule {
      assert v in a + b;
    }
    if v :| v in b && v.rule == rule {
      assert v in a + b;
    }
  }

  lemma ReportsOne(at: string, found: Rule, rule: Rule)
    ensures Reports([Report(at, found)], rule) <==> found == rule
    ensures !Reports([], rule)
  {
    assert Report(at, found) in [Report(at, found)];
  }

  // ------------------------------------------------------------------
  // Which unknown keywords are reported
  // ------------------------------------------------------------------

  ghost predicate HasUnknown(keywords: seq<Field>) {
    exists k :: 0 <= k < |keywords| && !KnownKeyword(keywords[k].name)
  }

  /** The walk, `oneOf` branches left out, comes to a resolved schema with a keyword outside the subset. */
  ghost predicate ComesToUnknown(schema: Value, instance: Value, root: Value, depth: nat, limit: nat)
    requires depth <= limit + 1
    decreases limit + 1 - depth, 2
  {
    && depth <= limit
    && schema.Object?
    && match Resolve(schema, root)
       case Ok(Object(keywords)) =>
         || HasUnknown(keywords)
         || (TypeProblem(keywords, KindOf(instance)).None?
             && ChildComesToUnknown(keywords, instance, root, depth, limit))
       case _ => false
  }

  ghost predicate ChildComesToUnknown(keywords: seq<Field>, instance: Value, root: Value, depth: nat, limit: nat)
    requires depth <= limit
    decreases limit + 1 - depth, 1
  {
    match instance
    case Array(items) =>
      && Get(keywords, "items").Some?
      && exists k :: 0 <= k < |items| && ComesToUnknown(Get(keywords, "items").value, items[k], root, depth + 1, limit)
    case Object(fields) =>
      exists k :: 0 <= k < |fields| && MemberComesToUnknown(keywords, fields[k], root, depth, limit)
    case _ => false
  }

  ghost predicate MemberComesToUnknown(keywords: seq<Field>, field: Field, root: Value, depth: nat, limit: nat)
    requires depth <= limit
    decreases limit + 1 - depth, 0
  {
    match MemberRuleFor(keywords, field.name)
    case Governed(schema) => ComesToUnknown(schema, field.value, root, depth + 1, limit)
    case _ => false
  }

  lemma {:induction false} UnknownAreReported(keywords: seq<Field>, at: string)
    ensures Reports(UnknownKeywords(keywords, at), UnsupportedKeyword) <==> HasUnknown(keywords)
  {
    hide KnownKeyword, Reports;
    if |keywords| == 0 {
      ReportsOne(at, UnsupportedKeyword, UnsupportedKeyword);
    } else {
      var rest := keywords[1..];
      UnknownAreReported(rest, at);
      ReportsOne(at, UnsupportedKeyword, UnsupportedKeyword);
      ReportsBoth(ReportIf(!KnownKeyword(keywords[0].name), at, UnsupportedKeyword), UnknownKeywords(rest, at),
                  UnsupportedKeyword);
      assert forall k :: 1 <= k < |keywords| ==> keywords[k] == rest[k - 1];
      assert forall k :: 0 <= k < |rest| ==> rest[k] == keywords[k + 1];
    }
  }

  /** None of the keywords that do not descend reports an unknown one. */
  ghost predicate NoneUnknown(list: seq<Violation>) {
    forall v :: v in list ==> v.rule != UnsupportedKeyword
  }

  lemma {:induction false} RequiredNoneUnknown(required: seq<Value>, fields: seq<Field>, at: string)
    ensures NoneUnknown(RequiredViolations(required, fields, at))
  {
    if |required| > 0 {
      RequiredNoneUnknown(required[1..], fields, at);
    }
  }

  lemma NoneInBoth(a: seq<Violation>, b: seq<Violation>)
    requires NoneUnknown(a) && NoneUnknown(b)
    ensures NoneUnknown(a + b)
  {
  }

  lemma PatternNoneUnknown(checks: Checks, source: string, text: string, at: string)
    ensures NoneUnknown(PatternViolations(checks, source, text, at))
  {
    hide PatternParser.Parse, Pattern.Matches;
  }

  lemma FormatNoneUnknown(checks: Checks, format: string, text: string, at: string)
    ensures NoneUnknown(FormatViolations(checks, format, text, at))
  {
  }

  lemma OneNoneUnknown(condition: bool, at: string, rule: Rule)
    requires rule != UnsupportedKeyword
    ensures NoneUnknown(ReportIf(condition, at, rule)) && NoneUnknown([])
  {
  }

  lemma StringNoneUnknown(checks: Checks, keywords: seq<Field>, text: string, at: string)
    ensures NoneUnknown(StringViolations(checks, keywords, text, at))
  {
    hide PatternViolations, FormatViolations, NoneUnknown, GetCount, GetText;
    var least, most := GetCount(keywords, "minLength"), GetCount(keywords, "maxLength");
    var source, format := GetText(keywords, "pattern"), GetText(keywords, "format");
    var a := match least case Some(min) => ReportIf(|text| < min, at, MinLength) case None => [];
    var b := match most case Some(max) => ReportIf(|text| > max, at, MaxLength) case None => [];
    var c := match source case Some(p) => PatternViolations(checks, p, text, at) case None => [];
    var d := match format case Some(f) => FormatViolations(checks, f, text, at) case None => [];
    OneNoneUnknown(least.Some? && |text| < least.value, at, MinLength);
    OneNoneUnknown(most.Some? && |text| > most.value, at, MaxLength);
    PatternNoneUnknown(checks, if source.Some? then source.value else "", text, at);
    FormatNoneUnknown(checks, if format.Some? then format.value else "", text, at);
    NoneInBoth(a, b);
    NoneInBoth(a + b, c);
    NoneInBoth(a + b + c, d);
  }

  lemma KindNoneUnknown(checks: Checks, keywords: seq<Field>, instance: Value, at: string)
    ensures NoneUnknown(KindViolations(checks, keywords, instance, at))
  {
    hide StringViolations, RequiredViolations;
    match instance
    case String(text) => StringNoneUnknown(checks, keywords, text, at);
    case Object(fields) =>
      if GetItems(keywords, "required").Some? {
        RequiredNoneUnknown(GetItems(keywords, "required").value, fields, at);
      }
    case _ =>
  }

  lemma ValueNoneUnknown(keywords: seq<Field>, instance: Value, at: string)
    ensures NoneUnknown(ValueViolations(keywords, instance, at))
  {
  }

  lemma {:induction false} ItemsReport(checks: Checks, schema: Value, items: seq<Value>, from: nat, root: Value,
                                       at: string, depth: nat, limit: nat)
    requires depth <= limit && from <= |items|
    ensures Reports(WalkItems(checks, schema, items, from, root, at, depth, limit), UnsupportedKeyword) <==>
            exists k :: from <= k < |items| && ComesToUnknown(schema, items[k], root, depth + 1, limit)
    decreases limit + 1 - depth, 0, |items| - from
  {
    hide Walk, ComesToUnknown, Reports;
    if from == |items| {
      ReportsOne(at, UnsupportedKeyword, UnsupportedKeyword);
    } else {
      var pointer := at + "/" + Decimal(from);
      ReportedExactly(checks, schema, items[from], root, pointer, depth + 1, limit);
      ItemsReport(checks, schema, items, from + 1, root, at, depth, limit);
      ReportsBoth(Walk(checks, schema, items[from], root, pointer, depth + 1, limit),
                  WalkItems(checks, schema, items, from + 1, root, at, depth, limit), UnsupportedKeyword);
    }
  }

  lemma MemberReports(checks: Checks, keywords: seq<Field>, field: Field, root: Value, at: string, depth: nat,
                      limit: nat)
    requires depth <= limit
    ensures Reports(WalkMember(checks, keywords, field, root, at, depth, limit), UnsupportedKeyword) <==>
            MemberComesToUnknown(keywords, field, root, depth, limit)
    decreases limit + 1 - depth, 0, 0
  {
    hide Reports;
    var pointer := at + "/" + Escape(field.name);
    ReportsOne(pointer, AdditionalProperties, UnsupportedKeyword);
    match MemberRuleFor(keywords, field.name)
    case Governed(schema) => ReportedExactly(checks, schema, field.value, root, pointer, depth + 1, limit);
    case _ =>
  }

  lemma {:induction false} MembersReport(checks: Checks, keywords: seq<Field>, fields: seq<Field>, root: Value,
                                         at: string, depth: nat, limit: nat)
    requires depth <= limit
    ensures Reports(WalkMembers(checks, keywords, fields, root, at, depth, limit), UnsupportedKeyword) <==>
            exists k :: 0 <= k < |fields| && MemberComesToUnknown(keywords, fields[k], root, depth, limit)
    decreases limit + 1 - depth, 0, |fields| + 1
  {
    hide WalkMember, MemberComesToUnknown, Reports;
    if |fields| == 0 {
      ReportsOne(at, UnsupportedKeyword, UnsupportedKeyword);
    } else {
      var rest := fields[1..];
      MemberReports(checks, keywords, fields[0], root, at, depth, limit);
      MembersReport(checks, keywords, rest, root, at, depth, limit);
      ReportsBoth(WalkMember(checks, keywords, fields[0], root, at, depth, limit),
                  WalkMembers(checks, keywords, rest, root, at, depth, limit), UnsupportedKeyword);
      assert forall k :: 1 <= k < |fields| ==> fields[k] == rest[k - 1];
      assert forall k :: 0 <= k < |rest| ==> rest[k] == fields[k + 1];
    }
  }

  lemma ChildrenReport(checks: Checks, keywords: seq<Field>, instance: Value, root: Value, at: string, depth: nat,
                       limit: nat)
    requires depth <= limit
    ensures Reports(WalkChildren(checks, keywords, instance, root, at, depth, limit), UnsupportedKeyword) <==>
            ChildComesToUnknown(keywords, instance, root, depth, limit)
    decreases limit + 1 - depth, 1, 0
  {
    hide WalkItems, WalkMembers, Reports, ComesToUnknown, MemberComesToUnknown;
    ReportsOne(at, UnsupportedKeyword, UnsupportedKeyword);
    match instance
    case Array(items) =>
      if Get(keywords, "items").Some? {
        ItemsReport(checks, Get(keywords, "items").value, items, 0, root, at, depth, limit);
      }
    case Object(fields) => MembersReport(checks, keywords, fields, root, at, depth, limit);
    case _ =>
  }

  lemma MapReports(checks: Checks, keywords: seq<Field>, instance: Value, root: Value, at: string, depth: nat,
                   limit: nat)
    requires depth <= limit
    ensures Reports(WalkMap(checks, keywords, instance, root, at, depth, limit), UnsupportedKeyword) <==>
            && TypeProblem(keywords, KindOf(instance)).None?
            && ChildComesToUnknown(keywords, instance, root, depth, limit)
    decreases limit + 1 - depth, 2, 0
  {
    hide LocalViolations, WalkChildren, ChildComesToUnknown, Reports, MatchedBranches, KindOf;
    match TypeProblem(keywords, KindOf(instance))
    case Some(rule) => ReportsOne(at, rule, UnsupportedKeyword);
    case None =>
      var here := LocalViolations(checks, keywords, instance, at);
      var children := WalkChildren(checks, keywords, instance, root, at, depth, limit);
      LocalReportsNone(checks, keywords, instance, at);
      ChildrenReport(checks, keywords, instance, root, at, depth, limit);
      ReportsOne(at, OneOf, UnsupportedKeyword);
      ReportsBoth(here, children, UnsupportedKeyword);
      ReportsBoth(here + children, WalkOneOf(checks, keywords, instance, root, at, depth, limit), UnsupportedKeyword);
  }

  lemma LocalReportsNone(checks: Checks, keywords: seq<Field>, instance: Value, at: string)
    ensures !Reports(LocalViolations(checks, keywords, instance, at), UnsupportedKeyword)
  {
    hide ValueViolations, KindViolations;
    ValueNoneUnknown(keywords, instance, at);
    KindNoneUnknown(checks, keywords, instance, at);
    ReportsBoth(ValueViolations(keywords, instance, at), KindViolations(checks, keywords, instance, at),
                UnsupportedKeyword);
  }

  /**
   A walk reports a keyword outside the subset if and only if, `oneOf` branches
   left out, it comes to a resolved schema that has one.
   */
  lemma ReportedExactly(checks: Checks, schema: Value, instance: Value, root: Value, at: string, depth: nat,
                        limit: nat)
    requires depth <= limit + 1
    ensures Reports(Walk(checks, schema, instance, root, at, depth, limit), UnsupportedKeyword) <==>
            ComesToUnknown(schema, instance, root, depth, limit)
    decreases limit + 1 - depth, 3, 0
  {
    hide WalkMap, UnknownKeywords, HasUnknown, Reports, ChildComesToUnknown, KindOf, TypeProblem;
    ReportsOne(at, DepthRule, UnsupportedKeyword);
    ReportsOne(at, FalseSchema, UnsupportedKeyword);
    ReportsOne(at, MalformedSchema, UnsupportedKeyword);
    if depth <= limit && schema.Object? {
      match Resolve(schema, root) {
        case Ok(Object(keywords)) =>
          UnknownAreReported(keywords, at);
          MapReports(checks, keywords, instance, root, at, depth, limit);
          ReportsBoth(UnknownKeywords(keywords, at), WalkMap(checks, keywords, instance, root, at, depth, limit),
                      UnsupportedKeyword);
        case Err(rule) => ReportsOne(at, rule, UnsupportedKeyword);
        case _ =>
      }
    }
  }

  // ------------------------------------------------------------------
  // Branches of oneOf
  // ------------------------------------------------------------------

  lemma OnlyTrueWithout(v: seq<bool>, b: nat, c: nat)
    requires b < |v| && !v[b] && IsOnlyTrue(v, 0, c)
    ensures IsOnlyTrue(v[..b] + v[b + 1..], 0, if c < b then c else c - 1)
  {
  }

  lemma OnlyTrueWith(v: seq<bool>, b: nat, c: nat)
    requires b < |v| && !v[b] && IsOnlyTrue(v[..b] + v[b + 1..], 0, c)
    ensures IsOnlyTrue(v, 0, if c < b then c else c + 1)
  {
    var rest := v[..b] + v[b + 1..];
    assert forall d :: 0 <= d < b ==> rest[d] == v[d];
    assert forall d :: b < d < |v| ==> rest[d - 1] == v[d];
  }

  lemma OnlyBranchIsOnlyTrue(checks: Checks, branches: seq<Value>, instance: Value, root: Value, fuel: nat)
    ensures ExactlyOne(checks, branches, instance, root, fuel) <==>
            exists b: nat :: IsOnlyTrue(Verdicts(checks, branches, instance, root, fuel), 0, b)
  {
    hide Valid, ExactlyOne, CountTrue, Verdicts;
    ExactlyOneIsCount(checks, branches, instance, root, fuel);
    CountTrueIsOne(Verdicts(checks, branches, instance, root, fuel), 0);
  }

  /** A branch that is not valid for the instance might as well not be there. */
  lemma InvalidBranchIsDropped(checks: Checks, branches: seq<Value>, b: nat, instance: Value, root: Value, fuel: nat)
    requires b < |branches| && !Valid(checks, branches[b], instance, root, fuel)
    ensures ExactlyOne(checks, branches, instance, root, fuel) <==>
            ExactlyOne(checks, branches[..b] + branches[b + 1..], instance, root, fuel)
  {
    hide Valid, ExactlyOne, IsOnlyTrue;
    var rest := branches[..b] + branches[b + 1..];
    var v := Verdicts(checks, branches, instance, root, fuel);
    OnlyBranchIsOnlyTrue(checks, branches, instance, root, fuel);
    OnlyBranchIsOnlyTrue(checks, rest, instance, root, fuel);
    var w := Verdicts(checks, rest, instance, root, fuel);
    assert w == v[..b] + v[b + 1..];
    if c: nat :| IsOnlyTrue(v, 0, c) {
      OnlyTrueBound(v, b, c);
      OnlyTrueWithout(v, b, c);
    }
    if c: nat :| IsOnlyTrue(w, 0, c) {
      OnlyTrueWith(v, b, c);
    }
  }

  lemma OnlyTrueBound(v: seq<bool>, b: nat, c: nat)
    requires b < |v| && !v[b] && IsOnlyTrue(v, 0, c)
    ensures c < b || c > b
  {
  }

  /** So a branch whose walk comes to a keyword outside the subset is dropped without a word. */
  lemma UnknownInBranchIsDropped(checks: Checks, branches: seq<Value>, b: nat, instance: Value, root: Value,
                                 depth: nat, limit: nat)
    requires depth <= limit && b < |branches|
    requires ComesToUnknown(branches[b], instance, root, depth + 1, limit)
    ensures ExactlyOne(checks, branches, instance, root, limit - depth) <==>
            ExactlyOne(checks, branches[..b] + branches[b + 1..], instance, root, limit - depth)
  {
    hide Valid, Walk, ComesToUnknown, ExactlyOne;
    ReportedExactly(checks, branches[b], instance, root, "", depth + 1, limit);
    WalkIsValid(checks, branches[b], instance, root, "", depth + 1, limit);
    InvalidBranchIsDropped(checks, branches, b, instance, root, limit - depth);
  }

  lemma PatternPropertiesIsUnknown()
    ensures !KnownKeyword("patternProperties")
  {
    var name := "patternProperties";
    assert forall known :: known in KEYWORDS + ANNOTATIONS ==> |known| != |name|;
    assert "x-ores-"[0] != name[0];
  }

  /** A schema without any reference that accepts although a branch has a keyword outside the subset. */
  lemma BranchKeywordIsAccepted(checks: Checks)
    ensures
      var strange := Object([Field("patternProperties", Object([]))]);
      var schema := Object([Field("oneOf", Array([strange, Bool(true)]))]);
      && ComesToUnknown(strange, Null, schema, 1, MAX_DEPTH)
      && Walk(checks, schema, Null, schema, "", 0, MAX_DEPTH) == []
  {
    hide KnownKeyword, Valid, Walk, ComesToUnknown, ExactlyOne;
    var strange := Object([Field("patternProperties", Object([]))]);
    var branches := [strange, Bool(true)];
    var schema := Object([Field("oneOf", Array(branches))]);
    StrangeIsUnknown(schema);
    UnknownInBranchIsDropped(checks, branches, 0, Null, schema, 0, MAX_DEPTH);
    assert branches[..0] + branches[1..] == [Bool(true)];
    TrueAlone(checks, Null, schema, MAX_DEPTH);
    OneOfAlone(checks, branches, Null, schema, MAX_DEPTH);
    WalkIsValid(checks, schema, Null, schema, "", 0, MAX_DEPTH);
  }

  lemma StrangeIsUnknown(root: Value)
    ensures ComesToUnknown(Object([Field("patternProperties", Object([]))]), Null, root, 1, MAX_DEPTH)
  {
    hide KnownKeyword;
    var keywords := [Field("patternProperties", Object([]))];
    PatternPropertiesIsUnknown();
    assert !KnownKeyword(keywords[0].name) && HasUnknown(keywords);
    assert Resolve(Object(keywords), root) == Ok(Object(keywords));
  }

  lemma TrueAlone(checks: Checks, instance: Value, root: Value, fuel: nat)
    requires fuel > 0
    ensures ExactlyOne(checks, [Bool(true)], instance, root, fuel)
  {
    assert IsOnlyBranch(checks, [Bool(true)], instance, root, fuel, 0);
  }

  lemma OneOfAlone(checks: Checks, branches: seq<Value>, instance: Value, root: Value, fuel: nat)
    requires instance == Null && ExactlyOne(checks, branches, instance, root, fuel)
    ensures Valid(checks, Object([Field("oneOf", Array(branches))]), instance, root, fuel + 1)
  {
    hide ExactlyOne;
    var fields := [Field("oneOf", Array(branches))];
    assert fields[1..] == [];
    assert Resolve(Object(fields), root) == Ok(Object(fields));
    assert KnownKeyword("oneOf");
    assert GetItems(fields, "oneOf") == Some(branches);
    assert Get(fields, "type") == None;
    assert Get(fields, "const") == None;
    assert Get(fields, "enum") == None;
    assert Meets(checks, fields, instance, root, fuel);
  }

  // ------------------------------------------------------------------
  // References
  // ------------------------------------------------------------------

  /** What stands beside a reference is never looked at. */
  lemma ReferenceHidesSiblings(checks: Checks, a: seq<Field>, b: seq<Field>, instance: Value, root: Value,
                               at: string, depth: nat, limit: nat)
    requires depth <= limit + 1
    requires GetText(a, "$ref").Some? && GetText(a, "$ref") == GetText(b, "$ref")
    ensures Walk(checks, Object(a), instance, root, at, depth, limit)
         == Walk(checks, Object(b), instance, root, at, depth, limit)
  {
    hide WalkMap, UnknownKeywords;
    assert Resolve(Object(a), root) == Resolve(Object(b), root);
  }

  lemma UnknownKeywordIsReported(checks: Checks, keywords: seq<Field>, k: nat, instance: Value, root: Value,
                                 at: string, depth: nat, limit: nat)
    requires depth <= limit + 1 && k < |keywords| && !KnownKeyword(keywords[k].name)
    requires GetText(keywords, "$ref").None?
    ensures Walk(checks, Object(keywords), instance, root, at, depth, limit) != []
  {
    hide WalkMap, KnownKeyword, UnknownKeywords;
    NoUnknownKeywords(keywords, at);
    assert Resolve(Object(keywords), root) == Ok(Object(keywords));
  }

  /** A document in which `name` is the empty definition. */
  function EmptyDefinition(name: string): Value {
    Object([Field("$defs", Object([Field(name, Object([]))]))])
  }

  /** A reference to the empty definition accepts anything, whatever stands beside it. */
  lemma EmptyDefinitionAccepts(checks: Checks, keywords: seq<Field>, name: string, at: string, depth: nat, limit: nat)
    requires depth <= limit && GetText(keywords, "$ref") == Some(DEFINITION_PREFIX + name)
    ensures Walk(checks, Object(keywords), Null, EmptyDefinition(name), at, depth, limit) == []
  {
    hide GetText, WalkMap;
    var root := EmptyDefinition(name);
    var reference := DEFINITION_PREFIX + name;
    assert reference[|DEFINITION_PREFIX|..] == name;
    EmptyIsFound(name);
    assert Resolve(Object(keywords), root) == Ok(Object([]));
    NothingAsked(checks, root, at, depth, limit);
  }

  lemma EmptyIsFound(name: string)
    ensures Definition(EmptyDefinition(name), name) == Some(Object([]))
  {
  }

  lemma NothingAsked(checks: Checks, root: Value, at: string, depth: nat, limit: nat)
    requires depth <= limit
    ensures UnknownKeywords([], at) == [] && WalkMap(checks, [], Null, root, at, depth, limit) == []
  {
  }

  /**
   A schema with a keyword outside the subset fails every instance of every
   document if and only if it has no reference into the definitions.
   */
  lemma FailsClosedExactly(checks: Checks, keywords: seq<Field>, k: nat, at: string, depth: nat, limit: nat)
    requires depth <= limit && k < |keywords| && !KnownKeyword(keywords[k].name)
    ensures
      (forall instance, root :: Walk(checks, Object(keywords), instance, root, at, depth, limit) != [])
      <==> !(GetText(keywords, "$ref").Some? && DEFINITION_PREFIX <= GetText(keywords, "$ref").value)
  {
    hide Walk, KnownKeyword;
    match GetText(keywords, "$ref")
    case None =>
      forall instance, root
        ensures Walk(checks, Object(keywords), instance, root, at, depth, limit) != []
      {
        UnknownKeywordIsReported(checks, keywords, k, instance, root, at, depth, limit);
      }
    case Some(reference) =>
      if DEFINITION_PREFIX <= reference {
        var name := reference[|DEFINITION_PREFIX|..];
        assert reference == DEFINITION_PREFIX + name;
        EmptyDefinitionAccepts(checks, keywords, name, at, depth, limit);
      } else {
        forall instance, root
          ensures Walk(checks, Object(keywords), instance, root, at, depth, limit) != []
        {
          ForeignReferenceFails(checks, keywords, instance, root, at, depth, limit);
        }
      }
  }

  lemma ForeignReferenceFails(checks: Checks, keywords: seq<Field>, instance: Value, root: Value, at: string,
                              depth: nat, limit: nat)
    requires depth <= limit
    requires GetText(keywords, "$ref").Some? && !(DEFINITION_PREFIX <= GetText(keywords, "$ref").value)
    ensures Walk(checks, Object(keywords), instance, root, at, depth, limit) == [Report(at, UnsupportedRef)]
  {
    hide WalkMap, UnknownKeywords;
  }

  /** The schema of one reference and a keyword outside the subset, over a document with an empty definition. */
  lemma HiddenKeywordIsAccepted(checks: Checks)
    ensures
      var schema := Object([Field("$ref", String("#/$defs/Any")), Field("patternProperties", Object([]))]);
      !KnownKeyword("patternProperties") && Walk(checks, schema, Null, EmptyDefinition("Any"), "", 0, MAX_DEPTH) == []
  {
    hide Walk;
    PatternPropertiesIsUnknown();
    var keywords := [Field("$ref", String("#/$defs/Any")), Field("patternProperties", Object([]))];
    assert "#/$defs/Any" == DEFINITION_PREFIX + "Any";
    EmptyDefinitionAccepts(checks, keywords, "Any", "", 0, MAX_DEPTH);
  }

  // ------------------------------------------------------------------
  // Patterns outside the subset
  // ------------------------------------------------------------------

  ghost predicate BadPattern(keywords: seq<Field>) {
    GetText(keywords, "pattern").Some? && PatternParser.Parse(GetText(keywords, "pattern").value).Err?
  }

  lemma {:induction false} RequiredIsNoPattern(required: seq<Value>, fields: seq<Field>, at: string)
    ensures !Reports(RequiredViolations(required, fields, at), UnsupportedPattern)
  {
    if |required| > 0 {
      RequiredIsNoPattern(required[1..], fields, at);
    }
  }

  lemma BadPatternInText(checks: Checks, keywords: seq<Field>, text: string, at: string)
    requires BadPattern(keywords)
    ensures Reports(StringViolations(checks, keywords, text, at), UnsupportedPattern)
  {
    hide PatternParser.Parse, Pattern.Matches;
    assert Report(at, UnsupportedPattern) in StringViolations(checks, keywords, text, at);
  }

  lemma KindReportsPattern(checks: Checks, keywords: seq<Field>, instance: Value, at: string)
    requires BadPattern(keywords)
    ensures Reports(KindViolations(checks, keywords, instance, at), UnsupportedPattern) <==> instance.String?
  {
    hide StringViolations, RequiredViolations, BadPattern;
    match instance
    case String(text) => BadPatternInText(checks, keywords, text, at);
    case Object(fields) =>
      if GetItems(keywords, "required").Some? {
        RequiredIsNoPattern(GetItems(keywords, "required").value, fields, at);
      }
    case _ =>
  }

  lemma ValueReportsNoPattern(keywords: seq<Field>, instance: Value, at: string)
    ensures !Reports(ValueViolations(keywords, instance, at), UnsupportedPattern)
  {
  }

  /** Among the keywords that do not descend, a pattern outside the subset is reported exactly for strings. */
  lemma BadPatternExactly(checks: Checks, keywords: seq<Field>, instance: Value, at: string)
    requires BadPattern(keywords)
    ensures Reports(LocalViolations(checks, keywords, instance, at), UnsupportedPattern) <==> instance.String?
  {
    hide ValueViolations, KindViolations, BadPattern, Reports;
    ValueReportsNoPattern(keywords, instance, at);
    KindReportsPattern(checks, keywords, instance, at);
    ReportsBoth(ValueViolations(keywords, instance, at), KindViolations(checks, keywords, instance, at),
                UnsupportedPattern);
  }

  /** And for instances with nothing inside, by the whole node exactly for strings of the right type. */
  lemma BadPatternOfNode(checks: Checks, keywords: seq<Field>, instance: Value, root: Value, at: string,
                         depth: nat, limit: nat)
    requires depth <= limit && BadPattern(keywords) && !instance.Array? && !instance.Object?
    ensures Reports(WalkMap(checks, keywords, instance, root, at, depth, limit), UnsupportedPattern) <==>
            instance.String? && TypeProblem(keywords, "string").None?
  {
    hide LocalViolations, MatchedBranches, BadPattern, Reports;
    BadPatternExactly(checks, keywords, instance, at);
    ReportsOne(at, OneOf, UnsupportedPattern);
    match TypeProblem(keywords, KindOf(instance))
    case Some(rule) => ReportsOne(at, rule, UnsupportedPattern);
    case None =>
      var here := LocalViolations(checks, keywords, instance, at);
      assert here + [] == here;
      ReportsBoth(here, WalkOneOf(checks, keywords, instance, root, at, depth, limit), UnsupportedPattern);
  }

  /** The schema of one unclosed group accepts null. */
  lemma BadPatternIsAccepted(checks: Checks)
    ensures
      var schema := Object([Field("pattern", String("("))]);
      BadPattern(schema.fields) && Walk(checks, schema, Null, schema, "", 0, MAX_DEPTH) == []
  {
    var fields := [Field("pattern", String("("))];
    assert fields[1..] == [];
    assert PatternParser.ParseItem("(") == Err(PatternParser.OutsideSubset('('));
    assert PatternParser.ParseAtoms("(").Err?;
    assert "("[0] == '(';
    assert Resolve(Object(fields), Object(fields)) == Ok(Object(fields));
    assert KnownKeyword("pattern");
  }
}
