/**
 The hand-written pattern parser. Its two scanning loops are proved against a
 recursive reading of the rest of the source; a canonical printer is shown to
 be undone by that reading.
 */
module PatternParser {
  import opened Results
  import opened Pattern

  datatype PatternError =
    | OutsideSubset(c: char)
    | OnlyAnAnchor(c: char)
    | TrailingBackslash
    | UnsupportedEscape(c: char)
    | TrailingBackslashInClass
    | InvertedRange(lo: char, hi: char)
    | UnterminatedClass

  predicate AsciiPunctuation(c: char) {
    '!' <= c <= '/' || ':' <= c <= '@' || '[' <= c <= '`' || '{' <= c <= '~'
  }

  function EscapePart(c: char): Result<ClassPart, PatternError> {
    match c
    case 'd' => Ok(Digit(true))
    case 'D' => Ok(Digit(false))
    case 'w' => Ok(Word(true))
    case 'W' => Ok(Word(false))
    case 's' => Ok(Space(true))
    case 'S' => Ok(Space(false))
    case 'n' => Ok(Char('\n'))
    case 'r' => Ok(Char('\r'))
    case 't' => Ok(Char('\t'))
    case _ => if AsciiPunctuation(c) then Ok(Char(c)) else Err(UnsupportedEscape(c))
  }

  // ------------------------------------------------------------------
  // Reading the rest of the source
  // ------------------------------------------------------------------

  predicate IsSuffix(rest: string, whole: string) {
    && |rest| <= |whole|
    && rest == whole[|whole| - |rest|..]
  }

  lemma SuffixOfTail(rest: string, whole: string, k: nat)
    requires k <= |whole| && IsSuffix(rest, whole[k..])
    ensures IsSuffix(rest, whole)
  {
    var n := |whole| - k - |rest|;
    assert whole[k..][n..] == whole[k + n..];
  }

  lemma DropIsSuffix(whole: string)
    ensures |whole| > 0 ==> IsSuffix(whole[1..], whole)
    ensures |whole| > 1 ==> IsSuffix(whole[2..], whole)
  {
  }

  /** A `-` makes a range only between two literals. */
  predicate StartsRange(rest: string) {
    |rest| > 2 && rest[1] == '-' && rest[2] != ']' && rest[2] != '\\'
  }

  function ParseClassParts(rest: string, first: bool): (r: Result<(seq<ClassPart>, string), PatternError>)
    ensures r.Ok? ==> IsSuffix(r.value.1, rest) && |r.value.1| < |rest|
    ensures r.Ok? && first ==> |r.value.0| > 0
  {
    if |rest| == 0 then Err(UnterminatedClass)
    else if rest[0] == ']' && !first then Ok(([], rest[1..]))
    else if rest[0] == '\\' then
      if |rest| == 1 then Err(TrailingBackslashInClass) else
      var part :- EscapePart(rest[1]);
      var (parts, rest') :- ParseClassParts(rest[2..], false);
      SuffixOfTail(rest', rest, 2);
      Ok(([part] + parts, rest'))
    else if StartsRange(rest) then
      if rest[2] < rest[0] then Err(InvertedRange(rest[0], rest[2])) else
      var (parts, rest') :- ParseClassParts(rest[3..], false);
      SuffixOfTail(rest', rest, 3);
      Ok(([Range(rest[0], rest[2])] + parts, rest'))
    else
      var (parts, rest') :- ParseClassParts(rest[1..], false);
      SuffixOfTail(rest', rest, 1);
      Ok(([Char(rest[0])] + parts, rest'))
  }

  /** Reads a class whose opening bracket has been consumed. */
  function ParseClass(rest: string): (r: Result<(Item, string), PatternError>)
    ensures r.Ok? ==> IsSuffix(r.value.1, rest)
  {
    var negated := |rest| > 0 && rest[0] == '^';
    var skipped := if negated then 1 else 0;
    var (parts, rest') :- ParseClassParts(rest[skipped..], true);
    SuffixOfTail(rest', rest, skipped);
    Ok((Class(negated, parts), rest'))
  }

  function ParseItem(rest: string): (r: Result<(Item, string), PatternError>)
    requires |rest| > 0
    ensures r.Ok? ==> IsSuffix(r.value.1, rest) && |r.value.1| < |rest|
  {
    hide IsSuffix;
    DropIsSuffix(rest);
    match rest[0]
    case '(' => Err(OutsideSubset(rest[0]))
    case ')' => Err(OutsideSubset(rest[0]))
    case '|' => Err(OutsideSubset(rest[0]))
    case '{' => Err(OutsideSubset(rest[0]))
    case '}' => Err(OutsideSubset(rest[0]))
    case '^' => Err(OnlyAnAnchor(rest[0]))
    case '$' => Err(OnlyAnAnchor(rest[0]))
    case '.' => Ok((Any, rest[1..]))
    case '\\' =>
      if |rest| == 1 then Err(TrailingBackslash) else
      var part :- EscapePart(rest[1]);
      Ok((EscapedItem(part), rest[2..]))
    case '[' =>
      var (item, rest') :- ParseClass(rest[1..]);
      SuffixOfTail(rest', rest, 1);
      Ok((item, rest'))
    case _ => Ok((Literal(rest[0]), rest[1..]))
  }

  function EscapedItem(part: ClassPart): Item {
    match part
    case Char(c) => Literal(c)
    case _ => Class(false, [part])
  }

  function Quantified(item: Item, rest: string): (Atom, string) {
    if |rest| == 0 then (Atom(item, 1, 1), rest)
    else match rest[0]
      case '*' => (Atom(item, 0, UNBOUNDED), rest[1..])
      case '+' => (Atom(item, 1, UNBOUNDED), rest[1..])
      case '?' => (Atom(item, 0, 1), rest[1..])
      case _ => (Atom(item, 1, 1), rest)
  }

  /** The atoms of `rest`, and whether it ends with the end anchor. */
  function ParseAtoms(rest: string): Result<(seq<Atom>, bool), PatternError> {
    if |rest| == 0 then Ok(([], false))
    else if rest == "$" then Ok(([], true))
    else
      var (item, afterItem) :- ParseItem(rest);
      var (atom, afterAtom) := Quantified(item, afterItem);
      var (atoms, anchored) :- ParseAtoms(afterAtom);
      Ok(([atom] + atoms, anchored))
  }

  /** What follows the start anchor. */
  function Body(source: string): string {
    if |source| > 0 && source[0] == '^' then source[1..] else source
  }

  function Parse(source: string): Result<Pattern, PatternError> {
    var anchored := |source| > 0 && source[0] == '^';
    var (atoms, anchoredEnd) :- ParseAtoms(Body(source));
    Ok(Pattern(anchored, anchoredEnd, atoms))
  }

  // ------------------------------------------------------------------
  // The loops
  // ------------------------------------------------------------------

  /** A class reading with its remainder given as an index into `n` characters. */
  function AtIndex<T>(r: Result<(T, string), PatternError>, n: nat): Result<(T, nat), PatternError>
    requires r.Ok? ==> |r.value.1| <= n
  {
    match r
    case Ok((value, rest)) => Ok((value, n - |rest|))
    case Err(error) => Err(error)
  }

  function PrependParts(parts: seq<ClassPart>, r: Result<(seq<ClassPart>, string), PatternError>)
    : Result<(seq<ClassPart>, string), PatternError>
  {
    match r
    case Ok((more, rest)) => Ok((parts + more, rest))
    case Err(error) => Err(error)
  }

  lemma PrependNothing(r: Result<(seq<ClassPart>, string), PatternError>)
    ensures PrependParts([], r) == r
  {
    if r.Ok? {
      assert [] + r.value.0 == r.value.0;
    }
  }

  method ScanClass(chars: string, open: nat) returns (r: Result<(Item, nat), PatternError>)
    requires open < |chars|
    ensures r == AtIndex(ParseClass(chars[open + 1..]), |chars|)
  {
    hide ParseClassParts, EscapePart, IsSuffix;
    var i := open + 1;
    var negated := i < |chars| && chars[i] == '^';
    if negated {
      i := i + 1;
    }
    ghost var start := i;
    assert chars[open + 1..][if negated then 1 else 0..] == chars[start..];
    var parts: seq<ClassPart> := [];
    var first := true;
    PrependNothing(ParseClassParts(chars[start..], true));
    while i < |chars|
      invariant start <= i <= |chars|
      invariant ParseClassParts(chars[start..], true) == PrependParts(parts, ParseClassParts(chars[i..], first))
    {
      var c := chars[i];
      ghost var rest := chars[i..];
      ClassStop(rest, first);
      if c == ']' && !first {
        assert parts + [] == parts;
        return Ok((Class(negated, parts), i + 1));
      }
      assert |rest| > 1 ==> rest[1] == chars[i + 1];
      assert |rest| > 2 ==> rest[2] == chars[i + 2];
      ghost var first0, parts0 := first, parts;
      first := false;
      if c == '\\' {
        if i + 1 >= |chars| {
          return Err(TrailingBackslashInClass);
        }
        var part := EscapePart(chars[i + 1]);
        if part.Err? {
          return Err(part.error);
        }
        parts := parts + [part.value];
        i := i + 2;
        ClassStep(rest, first0, parts0, part.value, 2);
        continue;
      }
      var isRange := i + 2 < |chars| && chars[i + 1] == '-' && chars[i + 2] != ']' && chars[i + 2] != '\\';
      if isRange {
        var hi := chars[i + 2];
        if hi < c {
          return Err(InvertedRange(c, hi));
        }
        parts := parts + [Range(c, hi)];
        i := i + 3;
        ClassStep(rest, first0, parts0, Range(c, hi), 3);
      } else {
        parts := parts + [Char(c)];
        i := i + 1;
        ClassStep(rest, first0, parts0, Char(c), 1);
      }
    }
    ClassStop(chars[i..], first);
    return Err(UnterminatedClass);
  }

  /** The places where reading a class stops. */
  lemma ClassStop(rest: string, first: bool)
    ensures |rest| == 0 ==> ParseClassParts(rest, first) == Err(UnterminatedClass)
    ensures |rest| > 0 && rest[0] == ']' && !first ==> ParseClassParts(rest, first) == Ok(([], rest[1..]))
    ensures |rest| == 1 && rest[0] == '\\' ==> ParseClassParts(rest, first) == Err(TrailingBackslashInClass)
    ensures |rest| > 1 && rest[0] == '\\' && EscapePart(rest[1]).Err? ==>
      ParseClassParts(rest, first) == Err(EscapePart(rest[1]).error)
    ensures |rest| > 2 && rest[0] != '\\' && (rest[0] != ']' || first) && StartsRange(rest) && rest[2] < rest[0] ==>
      ParseClassParts(rest, first) == Err(InvertedRange(rest[0], rest[2]))
  {
    hide EscapePart;
  }

  /** One part read from the front of `rest` moves over to the parts already read. */
  lemma ClassStep(rest: string, first: bool, parts: seq<ClassPart>, part: ClassPart, width: nat)
    requires 0 < width <= |rest| && !(rest[0] == ']' && !first)
    requires
      if rest[0] == '\\' then width == 2 && EscapePart(rest[1]) == Ok(part)
      else if StartsRange(rest) then width == 3 && rest[0] <= rest[2] && part == Range(rest[0], rest[2])
      else width == 1 && part == Char(rest[0])
    ensures PrependParts(parts, ParseClassParts(rest, first))
         == PrependParts(parts + [part], ParseClassParts(rest[width..], false))
  {
    var tail := ParseClassParts(rest[width..], false);
    if tail.Ok? {
      assert parts + ([part] + tail.value.0) == parts + [part] + tail.value.0;
    }
  }

  method ScanItem(chars: string, i: nat) returns (r: Result<(Item, nat), PatternError>)
    requires i < |chars|
    ensures r == AtIndex(ParseItem(chars[i..]), |chars|)
  {
    var c := chars[i];
    assert chars[i..][1..] == chars[i + 1..];
    if c in {'(', ')', '|', '{', '}'} {
      return Err(OutsideSubset(c));
    } else if c == '^' || c == '$' {
      return Err(OnlyAnAnchor(c));
    } else if c == '.' {
      return Ok((Any, i + 1));
    } else if c == '\\' {
      if i + 1 >= |chars| {
        return Err(TrailingBackslash);
      }
      var part := EscapePart(chars[i + 1]);
      if part.Err? {
        return Err(part.error);
      }
      return Ok((EscapedItem(part.value), i + 2));
    } else if c == '[' {
      r := ScanClass(chars, i);
    } else {
      return Ok((Literal(c), i + 1));
    }
  }

  function PrependAtoms(atoms: seq<Atom>, r: Result<(seq<Atom>, bool), PatternError>)
    : Result<(seq<Atom>, bool), PatternError>
  {
    match r
    case Ok((more, anchored)) => Ok((atoms + more, anchored))
    case Err(error) => Err(error)
  }

  method ScanPattern(source: string) returns (r: Result<Pattern, PatternError>)
    ensures r == Parse(source)
  {
    hide ParseItem, ParseAtoms, IsSuffix;
    var i := 0;
    var anchoredStart := |source| > 0 && source[0] == '^';
    if anchoredStart {
      i := 1;
    }
    ghost var start := i;
    var anchoredEnd := false;
    var atoms: seq<Atom> := [];
    assert source[0..] == source;
    PrependNoAtoms(ParseAtoms(source[start..]));
    while i < |source|
      invariant start <= i <= |source|
      invariant ParseAtoms(source[start..]) == PrependAtoms(atoms, ParseAtoms(source[i..]))
      invariant !anchoredEnd
    {
      var c := source[i];
      ghost var rest, atoms0 := source[i..], atoms;
      AtomsStop(rest);
      if c == '$' && i + 1 == |source| {
        assert rest == "$";
        anchoredEnd := true;
        break;
      }
      assert rest != "$";
      var scanned := ScanItem(source, i);
      if scanned.Err? {
        return Err(scanned.error);
      }
      var (item, next) := scanned.value;
      ghost var afterItem := ParseItem(rest).value.1;
      RestOfSource(source, i, next, afterItem);
      i := next;
      var min, max := 1, 1;
      if i < |source| && source[i] == '*' {
        i := i + 1;
        min, max := 0, UNBOUNDED;
      } else if i < |source| && source[i] == '+' {
        i := i + 1;
        min, max := 1, UNBOUNDED;
      } else if i < |source| && source[i] == '?' {
        i := i + 1;
        min, max := 0, 1;
      }
      atoms := atoms + [Atom(item, min, max)];
      assert Quantified(item, afterItem) == (Atom(item, min, max), source[i..]);
      AtomStep(rest, atoms0, item, afterItem);
    }
    AtomsStop(source[i..]);
    assert atoms + [] == atoms;
    return Ok(Pattern(anchoredStart, anchoredEnd, atoms));
  }

  /** The places where reading atoms stops. */
  lemma AtomsStop(rest: string)
    ensures |rest| == 0 ==> ParseAtoms(rest) == Ok(([], false))
    ensures rest == "$" ==> ParseAtoms(rest) == Ok(([], true))
    ensures |rest| > 0 && rest != "$" && ParseItem(rest).Err? ==> ParseAtoms(rest) == Err(ParseItem(rest).error)
  {
    hide ParseItem;
  }

  lemma RestOfSource(source: string, i: nat, next: nat, after: string)
    requires i <= |source| && IsSuffix(after, source[i..]) && next == |source| - |after|
    ensures next <= |source| && after == source[next..]
  {
  }

  lemma PrependNoAtoms(r: Result<(seq<Atom>, bool), PatternError>)
    ensures PrependAtoms([], r) == r
  {
    if r.Ok? {
      assert [] + r.value.0 == r.value.0;
    }
  }

  lemma AtomStep(rest: string, atoms: seq<Atom>, item: Item, afterItem: string)
    requires |rest| > 0 && rest != "$" && ParseItem(rest) == Ok((item, afterItem))
    ensures
      var (atom, afterAtom) := Quantified(item, afterItem);
      PrependAtoms(atoms, ParseAtoms(rest)) == PrependAtoms(atoms + [atom], ParseAtoms(afterAtom))
  {
    hide ParseItem, ParseAtoms, Quantified;
    var (atom, afterAtom) := Quantified(item, afterItem);
    OneMoreAtom(rest, item, afterItem);
    PrependTwice(atoms, [atom], ParseAtoms(afterAtom));
  }

  lemma OneMoreAtom(rest: string, item: Item, afterItem: string)
    requires |rest| > 0 && rest != "$" && ParseItem(rest) == Ok((item, afterItem))
    ensures
      var (atom, afterAtom) := Quantified(item, afterItem);
      ParseAtoms(rest) == PrependAtoms([atom], ParseAtoms(afterAtom))
  {
    hide ParseItem, Quantified;
  }

  lemma PrependTwice(atoms: seq<Atom>, next: seq<Atom>, r: Result<(seq<Atom>, bool), PatternError>)
    ensures PrependAtoms(atoms, PrependAtoms(next, r)) == PrependAtoms(atoms + next, r)
  {
    if r.Ok? {
      assert atoms + (next + r.value.0) == atoms + next + r.value.0;
    }
  }

  // ------------------------------------------------------------------
  // What the parser can produce
  // ------------------------------------------------------------------

  predicate KnownQuantifier(min: nat, max: nat) {
    (min, max) in {(1, 1), (0, UNBOUNDED), (1, UNBOUNDED), (0, 1)}
  }

  predicate WellFormedPart(part: ClassPart) {
    part.Range? ==> part.lo <= part.hi
  }

  predicate WellFormedAtom(atom: Atom) {
    && KnownQuantifier(atom.min, atom.max)
    && WellFormedItem(atom.item)
  }

  predicate WellFormed(p: Pattern) {
    forall k :: 0 <= k < |p.atoms| ==> WellFormedAtom(p.atoms[k])
  }

  predicate WellFormedParts(parts: seq<ClassPart>) {
    forall k :: 0 <= k < |parts| ==> WellFormedPart(parts[k])
  }

  lemma PrependPart(part: ClassPart, parts: seq<ClassPart>)
    requires WellFormedPart(part) && WellFormedParts(parts)
    ensures WellFormedParts([part] + parts)
  {
  }

  lemma {:induction false} ParsedPartsWellFormed(rest: string, first: bool)
    ensures ParseClassParts(rest, first).Ok? ==> WellFormedParts(ParseClassParts(rest, first).value.0)
    decreases |rest|
  {
    hide WellFormedParts, IsSuffix;
    if |rest| == 0 || (rest[0] == ']' && !first) {
      NoParts();
    } else {
      var width := if rest[0] == '\\' then 2 else if StartsRange(rest) then 3 else 1;
      if width <= |rest| {
        ParsedPartsWellFormed(rest[width..], false);
        var r, tail := ParseClassParts(rest, first), ParseClassParts(rest[width..], false);
        if r.Ok? {
          PrependPart(r.value.0[0], tail.value.0);
        }
      }
    }
  }

  lemma NoParts()
    ensures WellFormedParts([])
  {
  }

  predicate WellFormedItem(item: Item) {
    item.Class? ==>
      && |item.parts| > 0
      && WellFormedParts(item.parts)
  }

  lemma ParsedItemWellFormed(rest: string)
    requires |rest| > 0 && ParseItem(rest).Ok?
    ensures WellFormedItem(ParseItem(rest).value.0)
  {
    if rest[0] == '[' {
      var body := rest[1..];
      ParsedPartsWellFormed(if |body| > 0 && body[0] == '^' then body[1..] else body, true);
    }
  }

  lemma {:induction false} ParsedAtomsWellFormed(rest: string)
    ensures
      var r := ParseAtoms(rest);
      r.Ok? ==> forall k :: 0 <= k < |r.value.0| ==> WellFormedAtom(r.value.0[k])
    decreases |rest|
  {
    hide ParseItem;
    if |rest| > 0 && rest != "$" && ParseItem(rest).Ok? {
      var (item, afterItem) := ParseItem(rest).value;
      ParsedItemWellFormed(rest);
      ParsedAtomsWellFormed(Quantified(item, afterItem).1);
    }
  }

  /** Every pattern the parser yields is well formed, so the matcher may be called on it. */
  lemma ParsedIsWellFormed(source: string)
    ensures Parse(source).Ok? ==> WellFormed(Parse(source).value)
    ensures Parse(source).Ok? ==>
      forall k :: 0 <= k < |Parse(source).value.atoms| ==>
        Parse(source).value.atoms[k].min <= Parse(source).value.atoms[k].max
  {
    hide ParseAtoms;
    var rest := Body(source);
    ParsedAtomsWellFormed(rest);
    if ParseAtoms(rest).Ok? {
      assert Parse(source).value.atoms == ParseAtoms(rest).value.0;
    }
  }

  // ------------------------------------------------------------------
  // The printer
  // ------------------------------------------------------------------

  function PrintChar(c: char): string {
    if AsciiPunctuation(c) then ['\\', c] else [c]
  }

  function PrintPart(part: ClassPart): string {
    match part
    case Char(c) => PrintChar(c)
    case Range(lo, hi) => [lo, '-', hi]
    case Digit(positive) => if positive then "\\d" else "\\D"
    case Word(positive) => if positive then "\\w" else "\\W"
    case Space(positive) => if positive then "\\s" else "\\S"
  }

  function PrintParts(parts: seq<ClassPart>): string {
    if |parts| == 0 then "" else PrintPart(parts[0]) + PrintParts(parts[1..])
  }

  function PrintItem(item: Item): string {
    match item
    case Any => "."
    case Literal(c) => PrintChar(c)
    case Class(negated, parts) => (if negated then "[^" else "[") + PrintParts(parts) + "]"
  }

  function PrintQuantifier(min: nat, max: nat): string {
    if (min, max) == (0, UNBOUNDED) then "*"
    else if (min, max) == (1, UNBOUNDED) then "+"
    else if (min, max) == (0, 1) then "?"
    else ""
  }

  function PrintAtoms(atoms: seq<Atom>): string {
    if |atoms| == 0 then ""
    else PrintItem(atoms[0].item) + PrintQuantifier(atoms[0].min, atoms[0].max) + PrintAtoms(atoms[1..])
  }

  function Print(p: Pattern): string {
    (if p.anchoredStart then "^" else "") + PrintAtoms(p.atoms) + (if p.anchoredEnd then "$" else "")
  }

  /** Range endpoints that mean something else inside a class cannot be printed. */
  predicate PrintablePart(part: ClassPart) {
    part.Range? ==>
      part.lo <= part.hi && part.lo !in {'-', ']', '\\', '^'} && part.hi !in {']', '\\'}
  }

  predicate PrintableItem(item: Item) {
    item.Class? ==>
      && |item.parts| > 0
      && forall k :: 0 <= k < |item.parts| ==> PrintablePart(item.parts[k])
  }

  predicate PrintableAtom(atom: Atom) {
    KnownQuantifier(atom.min, atom.max) && PrintableItem(atom.item)
  }

  predicate Printable(p: Pattern) {
    forall k :: 0 <= k < |p.atoms| ==> PrintableAtom(p.atoms[k])
  }

  /** What may follow a printed part inside a class: another part or the closing bracket. */
  predicate ClassTail(tail: string) {
    |tail| > 0 && tail[0] != '-'
  }

  lemma PrintedPartStart(part: ClassPart)
    requires PrintablePart(part)
    ensures |PrintPart(part)| > 0 && PrintPart(part)[0] !in {'-', ']', '^'}
  {
  }

  lemma {:induction false} PrintedPartsStart(parts: seq<ClassPart>, tail: string)
    requires forall k :: 0 <= k < |parts| ==> PrintablePart(parts[k])
    ensures ClassTail(PrintParts(parts) + "]" + tail)
  {
    if |parts| > 0 {
      PrintedPartStart(parts[0]);
    }
  }

  /** Reading back one printed part. */
  lemma ReadPart(part: ClassPart, tail: string, first: bool)
    requires PrintablePart(part) && ClassTail(tail)
    ensures ParseClassParts(PrintPart(part) + tail, first) == PrependParts([part], ParseClassParts(tail, false))
  {
    hide ParseClassParts;
    var text := PrintPart(part) + tail;
    var width := |PrintPart(part)|;
    PrintedPartStart(part);
    assert text[width..] == tail;
    if part.Range? {
      assert StartsRange(text);
    } else if text[0] == '\\' {
      assert EscapePart(text[1]) == Ok(part);
    } else {
      assert !StartsRange(text);
    }
    ClassStep(text, first, [], part, width);
    PrependNothing(ParseClassParts(text, first));
    assert [] + [part] == [part];
  }

  lemma {:induction false} ReadParts(parts: seq<ClassPart>, tail: string, first: bool)
    requires forall k :: 0 <= k < |parts| ==> PrintablePart(parts[k])
    requires first ==> |parts| > 0
    ensures ParseClassParts(PrintParts(parts) + "]" + tail, first) == Ok((parts, tail))
    decreases |parts|
  {
    var text := PrintParts(parts) + "]" + tail;
    if |parts| == 0 {
      assert text == "]" + tail && text[1..] == tail;
    } else {
      var rest := PrintParts(parts[1..]) + "]" + tail;
      ReadParts(parts[1..], tail, false);
      PrintedPartsStart(parts[1..], tail);
      ReadPart(parts[0], rest, first);
      assert text == PrintPart(parts[0]) + rest;
      assert parts == [parts[0]] + parts[1..];
    }
  }

  lemma ReadLiteral(c: char, tail: string)
    ensures ParseItem(PrintChar(c) + tail) == Ok((Literal(c), tail))
  {
    var text := PrintChar(c) + tail;
    assert text[|PrintChar(c)|..] == tail;
    if AsciiPunctuation(c) {
      assert text[1] == c;
      assert EscapePart(c) == Ok(Char(c));
    }
  }

  lemma ReadClass(negated: bool, parts: seq<ClassPart>, tail: string)
    requires PrintableItem(Class(negated, parts))
    ensures ParseClass((if negated then "^" else "") + (PrintParts(parts) + "]" + tail))
         == Ok((Class(negated, parts), tail))
  {
    hide ParseClassParts;
    var body := PrintParts(parts) + "]" + tail;
    ReadParts(parts, tail, true);
    PrintedPartStart(parts[0]);
    assert body[0] == PrintPart(parts[0])[0];
    if negated {
      assert ("^" + body)[1..] == body;
    } else {
      assert "" + body == body;
    }
  }

  lemma ReadItem(item: Item, tail: string)
    requires PrintableItem(item)
    ensures ParseItem(PrintItem(item) + tail) == Ok((item, tail))
  {
    hide ParseClass, PrintParts, PrintChar, EscapePart;
    match item
    case Any =>
      assert ("." + tail)[1..] == tail;
    case Literal(c) =>
      ReadLiteral(c, tail);
    case Class(negated, parts) =>
      ReadClass(negated, parts, tail);
      var body := (if negated then "^" else "") + (PrintParts(parts) + "]" + tail);
      assert PrintItem(item) + tail == "[" + body;
      assert ("[" + body)[1..] == body;
  }

  /** What may follow a printed atom: another atom, the end anchor, or nothing. */
  predicate AtomTail(tail: string) {
    |tail| == 0 || tail[0] !in {'*', '+', '?'}
  }

  lemma PrintedItemStart(item: Item)
    ensures |PrintItem(item)| > 0 && PrintItem(item)[0] !in {'*', '+', '?', '$', '^'}
  {
  }

  lemma {:induction false} PrintedAtomsStart(atoms: seq<Atom>, anchored: bool)
    ensures AtomTail(PrintAtoms(atoms) + if anchored then "$" else "")
    ensures |atoms| > 0 ==> |PrintAtoms(atoms)| > 0 && PrintAtoms(atoms)[0] !in {'$', '^'}
  {
    if |atoms| > 0 {
      PrintedItemStart(atoms[0].item);
    }
  }

  lemma {:induction false} ReadAtoms(atoms: seq<Atom>, anchored: bool)
    requires forall k :: 0 <= k < |atoms| ==> PrintableAtom(atoms[k])
    ensures ParseAtoms(PrintAtoms(atoms) + if anchored then "$" else "") == Ok((atoms, anchored))
    decreases |atoms|
  {
    hide ParseItem, PrintItem, Quantified, PrintQuantifier;
    var end := if anchored then "$" else "";
    var text := PrintAtoms(atoms) + end;
    if |atoms| == 0 {
      assert text == end;
    } else {
      var atom := atoms[0];
      var rest := PrintAtoms(atoms[1..]) + end;
      var afterItem := PrintQuantifier(atom.min, atom.max) + rest;
      ReadAtoms(atoms[1..], anchored);
      PrintedAtomsStart(atoms[1..], anchored);
      ReadItem(atom.item, afterItem);
      PrintOneAtom(atoms, end);
      QuantifierReadsBack(atom, rest);
      ParseOneAtom(text, atom, afterItem, rest);
      assert atoms == [atom] + atoms[1..];
    }
  }

  lemma PrintOneAtom(atoms: seq<Atom>, end: string)
    requires |atoms| > 0
    ensures
      var atom, text := atoms[0], PrintAtoms(atoms) + end;
      && text == PrintItem(atom.item) + (PrintQuantifier(atom.min, atom.max) + (PrintAtoms(atoms[1..]) + end))
      && |text| > 0 && text[0] != '$'
  {
    hide PrintItem, PrintQuantifier;
    PrintedItemStart(atoms[0].item);
  }

  lemma ParseOneAtom(text: string, atom: Atom, afterItem: string, rest: string)
    requires |text| > 0 && text[0] != '$'
    requires ParseItem(text) == Ok((atom.item, afterItem)) && Quantified(atom.item, afterItem) == (atom, rest)
    requires ParseAtoms(rest).Ok?
    ensures ParseAtoms(text) == Ok(([atom] + ParseAtoms(rest).value.0, ParseAtoms(rest).value.1))
  {
    hide ParseItem, Quantified;
  }

  lemma QuantifierReadsBack(atom: Atom, rest: string)
    requires KnownQuantifier(atom.min, atom.max) && AtomTail(rest)
    ensures Quantified(atom.item, PrintQuantifier(atom.min, atom.max) + rest) == (atom, rest)
  {
    var text := PrintQuantifier(atom.min, atom.max) + rest;
    if (atom.min, atom.max) == (1, 1) {
      assert text == rest;
    } else {
      assert text[1..] == rest;
    }
  }

  /** Printing is undone by parsing. */
  lemma ParsePrint(p: Pattern)
    requires Printable(p)
    ensures Parse(Print(p)) == Ok(p)
  {
    hide PrintAtoms, ParseAtoms;
    var end := if p.anchoredEnd then "$" else "";
    var body := PrintAtoms(p.atoms) + end;
    ReadAtoms(p.atoms, p.anchoredEnd);
    PrintedAtomsStart(p.atoms, p.anchoredEnd);
    if p.anchoredStart {
      assert Print(p) == "^" + body && Print(p)[1..] == body;
    } else {
      assert Print(p) == body;
      assert |body| > 0 ==> body[0] != '^' by { PrintedBodyStart(p.atoms, p.anchoredEnd); }
    }
  }

  lemma PrintedBodyStart(atoms: seq<Atom>, anchored: bool)
    ensures var body := PrintAtoms(atoms) + if anchored then "$" else ""; |body| > 0 ==> body[0] != '^'
  {
    PrintedAtomsStart(atoms, anchored);
  }
}
