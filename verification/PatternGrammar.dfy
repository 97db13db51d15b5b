/**
 What texts are patterns, as a grammar: how each item is spelled, where a class
 ends, which quantifier an atom carries. The parser reads exactly the texts of
 this grammar, and gives exactly the errors it has for other texts.
 */
module PatternGrammar {
  import opened Results
  import opened Pattern
  import opened PatternParser

  const PUNCTUATION: set<char> :=
    {'!', '"', '#', '$', '%', '&', '\'', '(', ')', '*', '+', ',', '-', '.', '/', ':', ';', '<', '=', '>', '?', '@',
     '[', '\\', ']', '^', '_', '`', '{', '|', '}', '~'}

  predicate IsPunctuation(c: char) {
    c in PUNCTUATION
  }

  /** What a backslash and `c` stand for; `documented` leaves out what the documentation does not list. */
  ghost predicate EscapeMeans(c: char, part: ClassPart, documented: bool) {
    || (c == 'd' && part == Digit(true)) || (c == 'D' && part == Digit(false))
    || (c == 'w' && part == Word(true)) || (c == 'W' && part == Word(false))
    || (c == 's' && part == Space(true)) || (c == 'S' && part == Space(false))
    || (IsPunctuation(c) && part == Char(c))
    || (!documented && c == 'n' && part == Char('\n'))
    || (!documented && c == 'r' && part == Char('\r'))
    || (!documented && c == 't' && part == Char('\t'))
  }

  ghost predicate IsEscape(c: char, documented: bool) {
    exists part :: EscapeMeans(c, part, documented)
  }

  /** A character that stands for itself at this place of a class: a closing bracket only in first place. */
  predicate StandsInClass(text: string, first: bool) {
    |text| > 0 && text[0] != '\\' && (text[0] == ']' ==> first)
  }

  /** A hyphen between two characters makes a range of them, unless a bracket or a backslash is the second. */
  predicate IsRange(text: string) {
    |text| >= 3 && text[1] == '-' && text[2] !in {']', '\\'}
  }

  /** The first `width` characters of what is left of a class spell `part`. */
  ghost predicate PartText(text: string, width: nat, part: ClassPart, first: bool, documented: bool) {
    && width <= |text|
    && (|| (width == 2 && text[0] == '\\' && EscapeMeans(text[1], part, documented))
        || (width == 3 && StandsInClass(text, first) && IsRange(text) && text[0] <= text[2]
            && part == Range(text[0], text[2]))
        || (width == 1 && StandsInClass(text, first) && !IsRange(text) && part == Char(text[0])))
  }

  /** The parts and the closing bracket. */
  ghost predicate ClassText(text: string, parts: seq<ClassPart>, first: bool, documented: bool)
    decreases |parts|
  {
    if |parts| == 0 then text == "]" && !first
    else exists width: nat :: ClassTextFrom(text, width, parts, first, documented)
  }

  ghost predicate ClassTextFrom(text: string, width: nat, parts: seq<ClassPart>, first: bool, documented: bool)
    requires |parts| > 0
    decreases |parts|, 0
  {
    PartText(text, width, parts[0], first, documented) && ClassText(text[width..], parts[1..], false, documented)
  }

  lemma LettersAreNoPunctuation(c: char)
    requires c in {'d', 'D', 'w', 'W', 's', 'S', 'n', 'r', 't'}
    ensures !IsPunctuation(c)
  {
    hide IsPunctuation;
    PunctuationIsListed(c);
  }

  lemma EscapesAgree(c: char, part: ClassPart)
    ensures EscapePart(c) == Ok(part) <==> EscapeMeans(c, part, false)
    ensures EscapePart(c).Err? ==> EscapePart(c) == Err(UnsupportedEscape(c))
  {
    hide IsPunctuation, AsciiPunctuation;
    PunctuationIsListed(c);
    if c in {'d', 'D', 'w', 'W', 's', 'S', 'n', 'r', 't'} {
      LettersAreNoPunctuation(c);
    }
  }

  lemma PunctuationIsListed(c: char)
    ensures AsciiPunctuation(c) <==> IsPunctuation(c)
  {
  }

  // ------------------------------------------------------------------
  // Classes
  // ------------------------------------------------------------------

  lemma {:induction false} ClassEnds(text: string, parts: seq<ClassPart>, first: bool)
    requires ClassText(text, parts, first, false)
    ensures |text| > 0 && text[|text| - 1] == ']'
    decreases |parts|
  {
    if |parts| > 0 {
      var width: nat :| ClassTextFrom(text, width, parts, first, false);
      ClassEnds(text[width..], parts[1..], false);
    }
  }

  /** What a part is does not depend on what follows the class. */
  lemma PartBefore(text: string, tail: string, width: nat, part: ClassPart, first: bool, documented: bool)
    requires |text| > 0 && text[|text| - 1] == ']' && 0 < width < |text|
    ensures PartText(text + tail, width, part, first, documented) <==> PartText(text, width, part, first, documented)
  {
    hide EscapeMeans;
    assert forall i :: 0 <= i < |text| ==> (text + tail)[i] == text[i];
    if width == 1 && |text| == 2 {
      assert (text + tail)[1] == ']';
    }
  }

  lemma ParsePart(text: string, width: nat, part: ClassPart, first: bool)
    requires PartText(text, width, part, first, false)
    ensures
      ParseClassParts(text, first) ==
        match ParseClassParts(text[width..], false)
        case Ok((parts, rest)) => Ok(([part] + parts, rest))
        case Err(error) => Err(error)
  {
    hide EscapePart, EscapeMeans;
    if text[0] == '\\' {
      EscapesAgree(text[1], part);
    }
  }

  lemma {:induction false} ClassParses(text: string, parts: seq<ClassPart>, first: bool, tail: string)
    requires ClassText(text, parts, first, false)
    ensures ParseClassParts(text + tail, first) == Ok((parts, tail))
    decreases |parts|
  {
    hide ParseClassParts, PartText, ClassText;
    if |parts| == 0 {
      EmptyClassParses(text, first, tail);
    } else {
      var width := FirstPart(text, parts, first);
      var rest := text[width..];
      ClassEnds(text, parts, first);
      ClassEnds(rest, parts[1..], false);
      PartIsSomething(text, width, parts[0], first);
      PartBefore(text, tail, width, parts[0], first, false);
      ParsePart(text + tail, width, parts[0], first);
      assert (text + tail)[width..] == rest + tail;
      ClassParses(rest, parts[1..], false, tail);
      assert [parts[0]] + parts[1..] == parts;
    }
  }

  lemma PartIsSomething(text: string, width: nat, part: ClassPart, first: bool)
    requires PartText(text, width, part, first, false)
    ensures 0 < width <= |text|
  {
    hide EscapeMeans;
  }

  lemma FirstPart(text: string, parts: seq<ClassPart>, first: bool) returns (width: nat)
    requires |parts| > 0 && ClassText(text, parts, first, false)
    ensures PartText(text, width, parts[0], first, false) && width <= |text|
    ensures ClassText(text[width..], parts[1..], false, false)
  {
    width :| ClassTextFrom(text, width, parts, first, false);
  }

  lemma EmptyClassParses(text: string, first: bool, tail: string)
    requires ClassText(text, [], first, false)
    ensures ParseClassParts(text + tail, first) == Ok(([], tail))
  {
    assert (text + tail)[0] == ']' && (text + tail)[1..] == tail;
  }

  /** How many characters the first part takes. */
  function Width(text: string): nat {
    if |text| > 0 && text[0] == '\\' then 2 else if IsRange(text) then 3 else 1
  }

  /** The part a class goes on with, unless it ends. */
  lemma NextPart(text: string, first: bool) returns (part: ClassPart)
    requires ParseClassParts(text, first).Ok? && (text[0] == ']' ==> first)
    ensures PartText(text, Width(text), part, first, false) && Width(text) <= |text|
    ensures ParseClassParts(text[Width(text)..], false).Ok?
    ensures
      var (more, rest) := ParseClassParts(text[Width(text)..], false).value;
      ParseClassParts(text, first) == Ok(([part] + more, rest))
  {
    hide EscapePart, EscapeMeans;
    part := ParseClassParts(text, first).value.0[0];
    if text[0] == '\\' {
      EscapesAgree(text[1], part);
    }
  }

  lemma ClassEnd(text: string)
    requires |text| > 0 && text[0] == ']'
    ensures ParseClassParts(text, false) == Ok(([], text[1..]))
    ensures ClassText("]", [], false, true) && ClassText("]", [], false, false)
  {
  }

  lemma ClassTextIntro(text: string, width: nat, parts: seq<ClassPart>, first: bool, documented: bool)
    requires |parts| > 0 && ClassTextFrom(text, width, parts, first, documented)
    ensures ClassText(text, parts, first, documented)
  {
  }

  lemma {:induction false} ClassIsSpelled(text: string, first: bool)
    requires ParseClassParts(text, first).Ok?
    ensures
      var (parts, rest) := ParseClassParts(text, first).value;
      ClassText(text[..|text| - |rest|], parts, first, false)
    decreases |text|
  {
    hide ParseClassParts, PartText, ClassText;
    if text[0] == ']' && !first {
      ClassEnd(text);
      assert text[..1] == "]";
    } else {
      var width := Width(text);
      var part := NextPart(text, first);
      var (more, rest) := ParseClassParts(text[width..], false).value;
      ClassIsSpelled(text[width..], false);
      OwnText(text, first, width, more, rest);
      var own := text[..|text| - |rest|];
      assert ([part] + more)[1..] == more;
      PartBefore(own, rest, width, part, first, false);
      assert own + rest == text;
      ClassTextIntro(own, width, [part] + more, first, false);
    }
  }

  lemma OwnText(text: string, first: bool, width: nat, more: seq<ClassPart>, rest: string)
    requires 0 < width <= |text| && |rest| < |text| - width && rest == text[|text| - |rest|..]
    requires ClassText(text[width..][..|text| - width - |rest|], more, false, false)
    ensures
      var own := text[..|text| - |rest|];
      && own[width..] == text[width..][..|text| - width - |rest|]
      && own[|own| - 1] == ']' && width < |own| && own + rest == text
  {
    hide ClassText;
    ClassEnds(text[width..][..|text| - width - |rest|], more, false);
  }

  // ------------------------------------------------------------------
  // Items
  // ------------------------------------------------------------------

  predicate IsQuantifier(c: char) {
    c in {'*', '+', '?'}
  }

  /** The characters that never stand for themselves outside a class. */
  const RESERVED: set<char> := {'(', ')', '|', '{', '}', '^', '$', '.', '[', '\\'}

  predicate IsPlain(c: char, documented: bool) {
    c !in RESERVED && (documented ==> !IsQuantifier(c))
  }

  ghost predicate EscapedText(text: string, item: Item, documented: bool) {
    && |text| == 2 && text[0] == '\\'
    && exists part ::
         EscapeMeans(text[1], part, documented) && item == if part.Char? then Literal(part.c) else Class(false, [part])
  }

  /** An opening bracket, for a negated class a caret, and the parts; a class that is not negated has no caret there. */
  ghost predicate BracketText(text: string, item: Item, documented: bool) {
    && item.Class? && |text| > 1 && text[0] == '['
    && if text[1] == '^' then item.negated && ClassText(text[2..], item.parts, true, documented)
       else !item.negated && ClassText(text[1..], item.parts, true, documented)
  }

  ghost predicate ItemText(text: string, item: Item, documented: bool) {
    || (text == "." && item == Any)
    || (|text| == 1 && IsPlain(text[0], documented) && item == Literal(text[0]))
    || EscapedText(text, item, documented)
    || BracketText(text, item, documented)
  }

  lemma BracketParses(text: string, item: Item, tail: string)
    requires BracketText(text, item, false)
    ensures ParseItem(text + tail) == Ok((item, tail))
  {
    hide ClassText, ParseClassParts;
    var skipped := if text[1] == '^' then 2 else 1;
    ClassParses(text[skipped..], item.parts, true, tail);
    assert (text + tail)[1..][skipped - 1..] == text[skipped..] + tail;
    assert (text + tail)[1..][0] == text[1];
    assert (text + tail)[1..][..] == (text + tail)[1..];
  }

  lemma EscapeParses(text: string, item: Item, tail: string)
    requires EscapedText(text, item, false)
    ensures ParseItem(text + tail) == Ok((item, tail))
  {
    hide EscapePart, EscapeMeans;
    var part :|
      EscapeMeans(text[1], part, false) && item == if part.Char? then Literal(part.c) else Class(false, [part]);
    EscapesAgree(text[1], part);
    assert (text + tail)[2..] == tail;
  }

  lemma ItemParses(text: string, item: Item, tail: string)
    requires ItemText(text, item, false)
    ensures ParseItem(text + tail) == Ok((item, tail))
    ensures |text| > 0 && text[0] != '$'
  {
    hide EscapedText, BracketText, ParseClass, EscapePart;
    if EscapedText(text, item, false) {
      EscapeParses(text, item, tail);
      EscapedStart(text, item);
    } else if BracketText(text, item, false) {
      BracketParses(text, item, tail);
      BracketStart(text, item);
    } else {
      assert (text + tail)[1..] == tail;
    }
  }

  lemma EscapedStart(text: string, item: Item)
    requires EscapedText(text, item, false)
    ensures |text| == 2 && text[0] == '\\'
  {
  }

  lemma BracketStart(text: string, item: Item)
    requires BracketText(text, item, false)
    ensures |text| > 1 && text[0] == '['
  {
  }

  lemma ItemIsSpelled(text: string)
    requires |text| > 0 && ParseItem(text).Ok?
    ensures
      var (item, rest) := ParseItem(text).value;
      ItemText(text[..|text| - |rest|], item, false)
  {
    hide EscapePart, EscapeMeans, ClassText, ParseClassParts;
    var (item, rest) := ParseItem(text).value;
    var own := text[..|text| - |rest|];
    if text[0] == '\\' {
      var part := EscapePart(text[1]).value;
      EscapesAgree(text[1], part);
      assert EscapedText(own, item, false);
    } else if text[0] == '[' {
      var body := text[1..];
      var skipped := if |body| > 0 && body[0] == '^' then 1 else 0;
      ClassIsSpelled(body[skipped..], true);
      assert own[skipped + 1..] == body[skipped..][..|body| - skipped - |rest|];
      ClassTextIsNotEmpty(own[skipped + 1..], item.parts);
      assert BracketText(own, item, false);
    }
  }

  lemma ClassTextIsNotEmpty(text: string, parts: seq<ClassPart>)
    requires ClassText(text, parts, true, false)
    ensures |text| > 0
  {
    ClassEnds(text, parts, true);
  }

  // ------------------------------------------------------------------
  // Whole patterns
  // ------------------------------------------------------------------

  ghost predicate QuantifierText(text: string, atom: Atom) {
    || (text == "" && (atom.min, atom.max) == (1, 1))
    || (text == "*" && (atom.min, atom.max) == (0, UNBOUNDED))
    || (text == "+" && (atom.min, atom.max) == (1, UNBOUNDED))
    || (text == "?" && (atom.min, atom.max) == (0, 1))
  }

  /** Items with their quantifiers, one after the other, and at the end a dollar sign for the end anchor. */
  ghost predicate AtomsText(text: string, atoms: seq<Atom>, anchored: bool, documented: bool)
    decreases |atoms|
  {
    if |atoms| == 0 then text == (if anchored then "$" else "")
    else exists cut: nat, mark: nat :: AtomsTextFrom(text, cut, mark, atoms, anchored, documented)
  }

  /** The first item ends at `cut` and its quantifier at `mark`; an item without one is not followed by one. */
  ghost predicate AtomsTextFrom(text: string, cut: nat, mark: nat, atoms: seq<Atom>, anchored: bool, documented: bool)
    requires |atoms| > 0
    decreases |atoms|, 0
  {
    && cut <= mark <= |text|
    && ItemText(text[..cut], atoms[0].item, documented)
    && QuantifierText(text[cut..mark], atoms[0])
    && (cut == mark < |text| ==> !IsQuantifier(text[mark]))
    && AtomsText(text[mark..], atoms[1..], anchored, documented)
  }

  ghost predicate PatternText(source: string, p: Pattern, documented: bool) {
    if p.anchoredStart then
      |source| > 0 && source[0] == '^' && AtomsText(source[1..], p.atoms, p.anchoredEnd, documented)
    else AtomsText(source, p.atoms, p.anchoredEnd, documented)
  }

  lemma QuantifierParses(text: string, atom: Atom, rest: string)
    requires QuantifierText(text, atom)
    requires text == "" && |rest| > 0 ==> !IsQuantifier(rest[0])
    ensures Quantified(atom.item, text + rest) == (atom, rest)
  {
    if text == "" {
      assert text + rest == rest;
    } else {
      assert (text + rest)[1..] == rest;
    }
  }

  lemma QuantifierIsSpelled(item: Item, text: string)
    ensures
      var (atom, rest) := Quantified(item, text);
      && |rest| <= |text| && text[|text| - |rest|..] == rest && atom.item == item
      && QuantifierText(text[..|text| - |rest|], atom)
      && (|rest| == |text| > 0 ==> !IsQuantifier(rest[0]))
  {
  }

  lemma FirstAtom(text: string, atoms: seq<Atom>, anchored: bool, documented: bool) returns (cut: nat, mark: nat)
    requires |atoms| > 0 && AtomsText(text, atoms, anchored, documented)
    ensures AtomsTextFrom(text, cut, mark, atoms, anchored, documented)
  {
    cut, mark :| AtomsTextFrom(text, cut, mark, atoms, anchored, documented);
  }

  lemma {:induction false} AtomsParse(text: string, atoms: seq<Atom>, anchored: bool)
    requires AtomsText(text, atoms, anchored, false)
    ensures ParseAtoms(text) == Ok((atoms, anchored))
    decreases |atoms|
  {
    hide ParseItem, Quantified, ItemText, QuantifierText, AtomsText;
    if |atoms| == 0 {
      NoAtomsParse(text, anchored);
    } else {
      var cut, mark := FirstAtom(text, atoms, anchored, false);
      FirstAtomParses(text, cut, mark, atoms, anchored);
      AtomsParse(text[mark..], atoms[1..], anchored);
      assert [atoms[0]] + atoms[1..] == atoms;
    }
  }

  lemma NoAtomsParse(text: string, anchored: bool)
    requires AtomsText(text, [], anchored, false)
    ensures ParseAtoms(text) == Ok(([], anchored))
  {
  }

  lemma FirstAtomParses(text: string, cut: nat, mark: nat, atoms: seq<Atom>, anchored: bool)
    requires |atoms| > 0 && AtomsTextFrom(text, cut, mark, atoms, anchored, false)
    ensures |text| > 0 && text != "$" && ParseItem(text) == Ok((atoms[0].item, text[cut..]))
    ensures Quantified(atoms[0].item, text[cut..]) == (atoms[0], text[mark..])
  {
    hide ParseItem, Quantified, ItemText, QuantifierText, AtomsText;
    ItemParses(text[..cut], atoms[0].item, text[cut..]);
    assert text == text[..cut] + text[cut..];
    assert text[0] == text[..cut][0];
    QuantifierParses(text[cut..mark], atoms[0], text[mark..]);
    assert text[cut..] == text[cut..mark] + text[mark..];
  }

  lemma {:induction false} AtomsAreSpelled(text: string)
    requires ParseAtoms(text).Ok?
    ensures var (atoms, anchored) := ParseAtoms(text).value; AtomsText(text, atoms, anchored, false)
    decreases |text|
  {
    hide ParseItem, Quantified, ItemText, QuantifierText;
    if |text| > 0 && text != "$" {
      hide AtomsText;
      var (item, afterItem) := ParseItem(text).value;
      var (atom, rest) := Quantified(item, afterItem);
      AtomIsSpelled(text);
      ItemIsShorter(text);
      AtomsAreSpelled(rest);
      var (atoms, anchored) := ParseAtoms(text).value;
      assert atoms[1..] == ParseAtoms(rest).value.0;
      AtomsTextIntro(text, |text| - |afterItem|, |text| - |rest|, atoms, anchored, false);
    }
  }

  lemma ItemIsShorter(text: string)
    requires |text| > 0 && ParseItem(text).Ok?
    ensures
      var (item, afterItem) := ParseItem(text).value;
      |Quantified(item, afterItem).1| < |text|
  {
    hide ParseItem;
  }

  lemma AtomIsSpelled(text: string)
    requires |text| > 0 && ParseItem(text).Ok?
    ensures
      var (item, afterItem) := ParseItem(text).value;
      var (atom, rest) := Quantified(item, afterItem);
      var cut, mark := |text| - |afterItem|, |text| - |rest|;
      && 0 <= cut <= mark <= |text| && atom.item == item && text[mark..] == rest
      && ItemText(text[..cut], item, false) && QuantifierText(text[cut..mark], atom)
      && (cut == mark < |text| ==> !IsQuantifier(text[mark]))
  {
    hide ParseItem, Quantified, ItemText, QuantifierText;
    var (item, afterItem) := ParseItem(text).value;
    var (atom, rest) := Quantified(item, afterItem);
    ItemIsSpelled(text);
    QuantifierIsSpelled(item, afterItem);
    assert text[|text| - |afterItem|..] == afterItem;
    assert text[|text| - |afterItem|..|text| - |rest|] == afterItem[..|afterItem| - |rest|];
  }

  lemma StartIsNoCaret(text: string, atoms: seq<Atom>, anchored: bool)
    requires AtomsText(text, atoms, anchored, false)
    ensures |text| > 0 ==> text[0] != '^'
  {
    hide ParseItem, Quantified, ItemText;
    if |atoms| > 0 {
      var cut, mark := FirstAtom(text, atoms, anchored, false);
      FirstAtomParses(text, cut, mark, atoms, anchored);
      CaretIsNoItem(text);
    }
  }

  lemma CaretIsNoItem(text: string)
    requires |text| > 0 && ParseItem(text).Ok?
    ensures text[0] != '^'
  {
  }

  /** The parser reads exactly the texts of the grammar, each as the one pattern it spells. */
  lemma ParsesExactly(source: string, p: Pattern)
    ensures Parse(source) == Ok(p) <==> PatternText(source, p, false)
  {
    hide ParseAtoms, AtomsText;
    if PatternText(source, p, false) {
      if !p.anchoredStart {
        StartIsNoCaret(source, p.atoms, p.anchoredEnd);
      }
      AtomsParse(Body(source), p.atoms, p.anchoredEnd);
    }
    if Parse(source).Ok? {
      AtomsAreSpelled(Body(source));
    }
  }

  // ------------------------------------------------------------------
  // The documented subset
  // ------------------------------------------------------------------

  predicate IsControlEscape(text: string) {
    |text| > 1 && text[0] == '\\' && text[1] in {'n', 'r', 't'}
  }

  /** A class comes to an escape that is not documented before it ends. */
  predicate SlipsInClass(text: string, first: bool)
    decreases |text|
  {
    && |text| > 0 && (text[0] == ']' ==> first)
    && (|| IsControlEscape(text)
        || (Width(text) <= |text| && SlipsInClass(text[Width(text)..], false)))
  }

  /** An item is a quantifier with nothing to quantify, or spelled with an escape that is not documented. */
  predicate ItemSlips(text: string)
    requires |text| > 0
  {
    || IsQuantifier(text[0])
    || IsControlEscape(text)
    || (text[0] == '[' && SlipsInClass(if |text| > 1 && text[1] == '^' then text[2..] else text[1..], true))
  }

  /** Somewhere the parser reads what the documentation does not list. */
  predicate Slips(text: string)
    decreases |text|
  {
    && |text| > 0 && text != "$"
    && (|| ItemSlips(text)
        || (ParseItem(text).Ok? && Slips(Quantified(ParseItem(text).value.0, ParseItem(text).value.1).1)))
  }

  lemma DocumentedEscapes(c: char, part: ClassPart)
    ensures EscapeMeans(c, part, true) <==> EscapeMeans(c, part, false) && c !in {'n', 'r', 't'}
  {
    hide IsPunctuation;
    if c in {'n', 'r', 't'} {
      LettersAreNoPunctuation(c);
    }
  }

  lemma PartDocumented(text: string, part: ClassPart, first: bool)
    requires PartText(text, Width(text), part, first, false)
    ensures PartText(text, Width(text), part, first, true) <==> !IsControlEscape(text)
    ensures forall width: nat :: PartText(text, width, part, first, true) ==> width == Width(text)
  {
    hide EscapeMeans;
    if |text| > 1 {
      DocumentedEscapes(text[1], part);
    }
  }

  lemma {:induction false} ClassDocumented(text: string, first: bool)
    requires ParseClassParts(text, first).Ok?
    ensures
      var (parts, rest) := ParseClassParts(text, first).value;
      ClassText(text[..|text| - |rest|], parts, first, true) <==> !SlipsInClass(text, first)
    decreases |text|
  {
    hide ParseClassParts, PartText, ClassText, IsControlEscape;
    if text[0] == ']' && !first {
      ClassEnd(text);
      assert text[..1] == "]";
    } else {
      var width := Width(text);
      var part := NextPart(text, first);
      var (more, rest) := ParseClassParts(text[width..], false).value;
      ClassDocumented(text[width..], false);
      ClassIsSpelled(text[width..], false);
      OwnText(text, first, width, more, rest);
      FirstDocumented(text[..|text| - |rest|], rest, part, more, first);
    }
  }

  lemma FirstDocumented(own: string, rest: string, part: ClassPart, more: seq<ClassPart>, first: bool)
    requires PartText(own + rest, Width(own + rest), part, first, false)
    requires |own| > 0 && own[|own| - 1] == ']' && Width(own + rest) < |own|
    ensures ClassText(own, [part] + more, first, true) <==>
            !IsControlEscape(own + rest) && ClassText(own[Width(own + rest)..], more, false, true)
  {
    hide PartText, ClassText, IsControlEscape;
    var width := Width(own + rest);
    PartDocumented(own + rest, part, first);
    PartBefore(own, rest, width, part, first, true);
    assert ([part] + more)[1..] == more;
    if ClassText(own, [part] + more, first, true) {
      var w := FirstPartDocumented(own, [part] + more, first);
      PartBefore(own, rest, w, part, first, true);
    } else if ClassTextFrom(own, width, [part] + more, first, true) {
      ClassTextIntro(own, width, [part] + more, first, true);
    }
  }

  lemma FirstPartDocumented(text: string, parts: seq<ClassPart>, first: bool) returns (width: nat)
    requires |parts| > 0 && ClassText(text, parts, first, true)
    ensures PartText(text, width, parts[0], first, true) && 0 < width < |text|
    ensures ClassText(text[width..], parts[1..], false, true)
  {
    hide EscapeMeans;
    width :| ClassTextFrom(text, width, parts, first, true);
    DocumentedClassIsRead(text[width..], parts[1..], false);
    ClassEnds(text[width..], parts[1..], false);
  }

  lemma ItemDocumented(text: string)
    requires |text| > 0 && ParseItem(text).Ok?
    ensures
      var (item, rest) := ParseItem(text).value;
      ItemText(text[..|text| - |rest|], item, true) <==> !ItemSlips(text)
  {
    hide EscapePart, EscapeMeans, ClassText, ParseClassParts, SlipsInClass;
    var (item, rest) := ParseItem(text).value;
    var own := text[..|text| - |rest|];
    if text[0] == '\\' {
      EscapeDocumented(own, item);
    } else if text[0] == '[' {
      BracketDocumented(text);
    }
  }

  lemma EscapeDocumented(own: string, item: Item)
    requires |own| == 2 && own[0] == '\\' && EscapePart(own[1]).Ok? && item == EscapedItem(EscapePart(own[1]).value)
    ensures EscapedText(own, item, true) <==> own[1] !in {'n', 'r', 't'}
  {
    hide EscapePart;
    var part := EscapePart(own[1]).value;
    EscapesAgree(own[1], part);
    DocumentedEscapes(own[1], part);
  }

  lemma BracketDocumented(text: string)
    requires |text| > 0 && text[0] == '[' && ParseItem(text).Ok?
    ensures
      var (item, rest) := ParseItem(text).value;
      BracketText(text[..|text| - |rest|], item, true) <==>
        !SlipsInClass(if |text| > 1 && text[1] == '^' then text[2..] else text[1..], true)
  {
    hide ClassText, ParseClassParts, SlipsInClass;
    var (item, rest) := ParseItem(text).value;
    var own := text[..|text| - |rest|];
    var body := text[1..];
    var skipped := if |body| > 0 && body[0] == '^' then 1 else 0;
    ClassDocumented(body[skipped..], true);
    ClassIsSpelled(body[skipped..], true);
    assert own[skipped + 1..] == body[skipped..][..|body| - skipped - |rest|];
    ClassTextIsNotEmpty(own[skipped + 1..], item.parts);
    assert body[skipped..] == if |text| > 1 && text[1] == '^' then text[2..] else text[1..];
  }

  lemma {:induction false} AtomsDocumented(text: string)
    requires ParseAtoms(text).Ok?
    ensures
      var (atoms, anchored) := ParseAtoms(text).value;
      AtomsText(text, atoms, anchored, true) <==> !Slips(text)
    decreases |text|
  {
    hide ParseItem, Quantified, ItemText, QuantifierText, ItemSlips;
    if |text| > 0 && text != "$" {
      var (item, afterItem) := ParseItem(text).value;
      var (atom, rest) := Quantified(item, afterItem);
      QuantifierIsSpelled(item, afterItem);
      AtomsDocumented(rest);
      AtomIsSpelled(text);
      ItemDocumented(text);
      var (atoms, anchored) := ParseAtoms(text).value;
      assert atoms[0] == atom && atoms[1..] == ParseAtoms(rest).value.0;
      var cut: nat, mark: nat := |text| - |afterItem|, |text| - |rest|;
      CutIsFixed(text, cut, mark, atoms, anchored);
    }
  }

  /** Only one way of cutting off the first atom fits. */
  lemma CutIsFixed(text: string, cut: nat, mark: nat, atoms: seq<Atom>, anchored: bool)
    requires |atoms| > 0 && cut <= mark <= |text| && 0 < |text|
    requires ParseItem(text) == Ok((atoms[0].item, text[cut..]))
    requires Quantified(atoms[0].item, text[cut..]) == (atoms[0], text[mark..])
    ensures AtomsText(text, atoms, anchored, true) <==> AtomsTextFrom(text, cut, mark, atoms, anchored, true)
  {
    hide ParseItem, Quantified, ItemText, QuantifierText, AtomsText;
    if AtomsText(text, atoms, anchored, true) {
      var c, m := FirstAtom(text, atoms, anchored, true);
      DocumentedIsRead(text[..c], atoms[0].item);
      ItemParses(text[..c], atoms[0].item, text[c..]);
      assert text == text[..c] + text[c..];
      assert |text[c..]| == |text[cut..]|;
      QuantifierParses(text[c..m], atoms[0], text[m..]);
      assert text[c..] == text[c..m] + text[m..];
      assert |text[m..]| == |text[mark..]|;
    } else if AtomsTextFrom(text, cut, mark, atoms, anchored, true) {
      AtomsTextIntro(text, cut, mark, atoms, anchored, true);
    }
  }

  lemma AtomsTextIntro(text: string, cut: nat, mark: nat, atoms: seq<Atom>, anchored: bool, documented: bool)
    requires |atoms| > 0 && AtomsTextFrom(text, cut, mark, atoms, anchored, documented)
    ensures AtomsText(text, atoms, anchored, documented)
  {
  }

  lemma DocumentedIsRead(text: string, item: Item)
    requires ItemText(text, item, true)
    ensures ItemText(text, item, false)
  {
    hide EscapeMeans, ClassText;
    if EscapedText(text, item, true) {
      var part :|
        EscapeMeans(text[1], part, true) && item == if part.Char? then Literal(part.c) else Class(false, [part]);
      DocumentedEscapes(text[1], part);
    } else if BracketText(text, item, true) {
      DocumentedClassIsRead(text[if text[1] == '^' then 2 else 1..], item.parts, true);
    }
  }

  lemma {:induction false} DocumentedClassIsRead(text: string, parts: seq<ClassPart>, first: bool)
    requires ClassText(text, parts, first, true)
    ensures ClassText(text, parts, first, false)
    decreases |parts|
  {
    hide EscapeMeans;
    if |parts| > 0 {
      var width: nat :| ClassTextFrom(text, width, parts, first, true);
      DocumentedClassIsRead(text[width..], parts[1..], false);
      if text[0] == '\\' {
        DocumentedEscapes(text[1], parts[0]);
      }
      assert ClassTextFrom(text, width, parts, first, false);
    }
  }

  lemma {:induction false} DocumentedAtomsAreRead(text: string, atoms: seq<Atom>, anchored: bool)
    requires AtomsText(text, atoms, anchored, true)
    ensures AtomsText(text, atoms, anchored, false)
    decreases |atoms|
  {
    hide ItemText, QuantifierText;
    if |atoms| > 0 {
      var cut, mark := FirstAtom(text, atoms, anchored, true);
      DocumentedIsRead(text[..cut], atoms[0].item);
      DocumentedAtomsAreRead(text[mark..], atoms[1..], anchored);
      assert AtomsTextFrom(text, cut, mark, atoms, anchored, false);
    }
  }

  /**
   The documented subset is what the parser accepts without a quantifier standing
   where an item is expected and without the escapes for the three control
   characters.
   */
  lemma RejectsExactly(source: string, p: Pattern)
    ensures PatternText(source, p, true) <==> Parse(source) == Ok(p) && !Slips(Body(source))
  {
    hide ParseAtoms, AtomsText, Slips;
    ParsesExactly(source, p);
    if PatternText(source, p, true) {
      DocumentedAtomsAreRead(if p.anchoredStart then source[1..] else source, p.atoms, p.anchoredEnd);
    }
    if Parse(source) == Ok(p) {
      AtomsDocumented(Body(source));
    }
  }

  /** A quantifier that follows an item dangles exactly when the item has one already. */
  lemma SecondQuantifierDangles(item: Item, rest: string)
    ensures
      var (atom, after) := Quantified(item, rest);
      (|after| > 0 && IsQuantifier(after[0])) <==> (|rest| > 1 && IsQuantifier(rest[0]) && IsQuantifier(rest[1]))
    ensures
      var (atom, after) := Quantified(item, rest);
      |after| > 0 && IsQuantifier(after[0]) ==> (atom.min, atom.max) != (1, 1)
  {
  }

  /** The `?` after `a+` is read as a literal. */
  lemma LazyIsLiteral()
    ensures
      Parse("a+?") ==
        Ok(Pattern(false, false, [Atom(Literal('a'), 1, UNBOUNDED), Atom(Literal('?'), 1, 1)]))
    ensures Slips(Body("a+?"))
  {
    var source := "a+?";
    assert source[1..] == "+?" && source[1..][1..] == "?" && "?"[1..] == "";
    assert ParseItem("?") == Ok((Literal('?'), ""));
    assert Quantified(Literal('?'), "") == (Atom(Literal('?'), 1, 1), "");
    var a, b := Atom(Literal('a'), 1, UNBOUNDED), Atom(Literal('?'), 1, 1);
    assert ParseAtoms("") == Ok(([], false)) && [b] + [] == [b] && [a] + [b] == [a, b];
    assert ParseAtoms("?") == Ok(([b], false));
    assert ParseItem(source) == Ok((Literal('a'), "+?"));
    assert Quantified(Literal('a'), "+?") == (Atom(Literal('a'), 1, UNBOUNDED), "?");
  }

  /** The escapes the documentation does not list stand for the characters they usually do. */
  lemma ControlEscapes()
    ensures Parse("\\n") == Ok(Pattern(false, false, [Atom(Literal('\n'), 1, 1)]))
    ensures Parse("\\r") == Ok(Pattern(false, false, [Atom(Literal('\r'), 1, 1)]))
    ensures Parse("\\t") == Ok(Pattern(false, false, [Atom(Literal('\t'), 1, 1)]))
    ensures Slips("\\n") && Slips("\\r") && Slips("\\t")
  {
    ControlEscape('n', '\n');
    ControlEscape('r', '\r');
    ControlEscape('t', '\t');
  }

  lemma ControlEscape(c: char, means: char)
    requires (c, means) in {('n', '\n'), ('r', '\r'), ('t', '\t')}
    ensures Parse(['\\', c]) == Ok(Pattern(false, false, [Atom(Literal(means), 1, 1)]))
  {
    var source := ['\\', c];
    var atom := Atom(Literal(means), 1, 1);
    assert source[2..] == "" && ParseAtoms("") == Ok(([], false)) && [atom] + [] == [atom];
    assert ParseItem(source) == Ok((Literal(means), ""));
    assert Quantified(Literal(means), "") == (atom, "");
    assert ParseAtoms(source) == Ok(([atom], false));
  }

  // ------------------------------------------------------------------
  // What is wrong with other texts
  // ------------------------------------------------------------------

  /** What is left of a class cannot go on. */
  ghost predicate ClassMistake(text: string, first: bool, error: PatternError) {
    || (text == "" && error == UnterminatedClass)
    || (text == "\\" && error == TrailingBackslashInClass)
    || (|text| > 1 && text[0] == '\\' && !IsEscape(text[1], false) && error == UnsupportedEscape(text[1]))
    || (StandsInClass(text, first) && IsRange(text) && text[2] < text[0] && error == InvertedRange(text[0], text[2]))
  }

  /** Some parts are spelled, and then a class cannot go on. */
  ghost predicate ClassFails(text: string, parts: seq<ClassPart>, first: bool, error: PatternError)
    decreases |parts|
  {
    if |parts| == 0 then ClassMistake(text, first, error)
    else exists width: nat :: ClassFailsFrom(text, width, parts, first, error)
  }

  ghost predicate ClassFailsFrom(text: string, width: nat, parts: seq<ClassPart>, first: bool, error: PatternError)
    requires |parts| > 0
    decreases |parts|, 0
  {
    PartText(text, width, parts[0], first, false) && ClassFails(text[width..], parts[1..], false, error)
  }

  ghost predicate ClassIsMistaken(text: string, error: PatternError) {
    exists parts :: ClassFails(text, parts, true, error)
  }

  /** No item stands at the front of what is left of a pattern. */
  ghost predicate Mistake(text: string, error: PatternError) {
    && |text| > 0
    && (|| (text[0] in {'(', ')', '|', '{', '}'} && error == OutsideSubset(text[0]))
        || (text[0] in {'^', '$'} && text != "$" && error == OnlyAnAnchor(text[0]))
        || (text == "\\" && error == TrailingBackslash)
        || (|text| > 1 && text[0] == '\\' && !IsEscape(text[1], false) && error == UnsupportedEscape(text[1]))
        || (text[0] == '[' &&
            ClassIsMistaken(if |text| > 1 && text[1] == '^' then text[2..] else text[1..], error)))
  }

  /** Some atoms are spelled, and then no item follows where one must. */
  ghost predicate Fails(text: string, atoms: seq<Atom>, error: PatternError)
    decreases |atoms|
  {
    if |atoms| == 0 then Mistake(text, error)
    else exists cut: nat, mark: nat :: FailsFrom(text, cut, mark, atoms, error)
  }

  ghost predicate FailsFrom(text: string, cut: nat, mark: nat, atoms: seq<Atom>, error: PatternError)
    requires |atoms| > 0
    decreases |atoms|, 0
  {
    && cut <= mark <= |text|
    && ItemText(text[..cut], atoms[0].item, false)
    && QuantifierText(text[cut..mark], atoms[0])
    && (cut == mark < |text| ==> !IsQuantifier(text[mark]))
    && Fails(text[mark..], atoms[1..], error)
  }

  lemma NoEscape(c: char)
    ensures IsEscape(c, false) <==> EscapePart(c).Ok?
    ensures !IsEscape(c, false) ==> EscapePart(c) == Err(UnsupportedEscape(c))
  {
    hide EscapePart, EscapeMeans;
    if part :| EscapeMeans(c, part, false) {
      EscapesAgree(c, part);
    }
    if EscapePart(c).Ok? {
      EscapesAgree(c, EscapePart(c).value);
    } else {
      EscapesAgree(c, Char(c));
    }
  }

  lemma MistakeInClass(text: string, first: bool, error: PatternError)
    requires ClassMistake(text, first, error)
    ensures ParseClassParts(text, first) == Err(error)
  {
    hide EscapePart, IsEscape;
    if |text| > 1 {
      NoEscape(text[1]);
    }
  }

  lemma {:induction false} ClassFailsToParse(text: string, parts: seq<ClassPart>, first: bool, error: PatternError)
    requires ClassFails(text, parts, first, error)
    ensures ParseClassParts(text, first) == Err(error)
    decreases |parts|
  {
    hide ParseClassParts, EscapeMeans, ClassMistake;
    if |parts| == 0 {
      MistakeInClass(text, first, error);
    } else {
      var width: nat :| ClassFailsFrom(text, width, parts, first, error);
      ParsePart(text, width, parts[0], first);
      ClassFailsToParse(text[width..], parts[1..], false, error);
    }
  }

  lemma {:induction false} FailedClass(text: string, first: bool) returns (parts: seq<ClassPart>)
    requires ParseClassParts(text, first).Err?
    ensures ClassFails(text, parts, first, ParseClassParts(text, first).error)
    decreases |text|
  {
    hide EscapePart, EscapeMeans, IsEscape;
    if |text| > 1 {
      NoEscape(text[1]);
    }
    var error := ParseClassParts(text, first).error;
    var width: nat := if |text| > 0 && text[0] == '\\' then 2 else if IsRange(text) then 3 else 1;
    if ClassMistake(text, first, error) {
      parts := [];
    } else {
      var rest := FailedClass(text[width..], false);
      var part := if text[0] == '\\' then EscapePart(text[1]).value
                  else if IsRange(text) then Range(text[0], text[2]) else Char(text[0]);
      if text[0] == '\\' {
        EscapesAgree(text[1], part);
      }
      parts := [part] + rest;
      assert parts[1..] == rest;
      assert ClassFailsFrom(text, width, parts, first, error);
    }
  }

  lemma MistakeIsReported(text: string, error: PatternError)
    requires Mistake(text, error)
    ensures text != "$" && ParseItem(text) == Err(error)
  {
    hide EscapePart, IsEscape, ParseClassParts, ClassFails;
    if |text| > 1 {
      NoEscape(text[1]);
    }
    if text[0] == '[' {
      var body := if |text| > 1 && text[1] == '^' then text[2..] else text[1..];
      var parts :| ClassFails(body, parts, true, error);
      ClassFailsToParse(body, parts, true, error);
      assert text[1..][if |text| > 1 && text[1] == '^' then 1 else 0..] == body;
    }
  }

  lemma FailedItem(text: string)
    requires |text| > 0 && text != "$" && ParseItem(text).Err?
    ensures Mistake(text, ParseItem(text).error)
  {
    hide EscapePart, IsEscape, ParseClassParts, ClassFails;
    if |text| > 1 {
      NoEscape(text[1]);
    }
    if text[0] == '[' {
      var body := if |text| > 1 && text[1] == '^' then text[2..] else text[1..];
      assert text[1..][if |text| > 1 && text[1] == '^' then 1 else 0..] == body;
      var parts := FailedClass(body, true);
    }
  }

  lemma {:induction false} FailsToParse(text: string, atoms: seq<Atom>, error: PatternError)
    requires Fails(text, atoms, error)
    ensures ParseAtoms(text) == Err(error)
    decreases |atoms|
  {
    hide ParseItem, Quantified, ItemText, QuantifierText, Mistake;
    if |atoms| == 0 {
      MistakeIsReported(text, error);
      MistakeIsSomewhere(text, error);
    } else {
      var cut: nat, mark: nat :| FailsFrom(text, cut, mark, atoms, error);
      ItemParses(text[..cut], atoms[0].item, text[cut..]);
      assert text == text[..cut] + text[cut..];
      assert text[0] == text[..cut][0];
      QuantifierParses(text[cut..mark], atoms[0], text[mark..]);
      assert text[cut..] == text[cut..mark] + text[mark..];
      FailsToParse(text[mark..], atoms[1..], error);
    }
  }

  lemma MistakeIsSomewhere(text: string, error: PatternError)
    requires Mistake(text, error)
    ensures |text| > 0
  {
  }

  lemma {:induction false} FailedAtoms(text: string) returns (atoms: seq<Atom>)
    requires ParseAtoms(text).Err?
    ensures Fails(text, atoms, ParseAtoms(text).error)
    decreases |text|
  {
    hide ParseItem, Quantified, ItemText, QuantifierText, Mistake;
    if ParseItem(text).Err? {
      FailedItem(text);
      atoms := [];
    } else {
      var (item, afterItem) := ParseItem(text).value;
      var (atom, rest) := Quantified(item, afterItem);
      QuantifierIsSpelled(item, afterItem);
      AtomIsSpelled(text);
      var more := FailedAtoms(rest);
      atoms := [atom] + more;
      assert atoms[1..] == more;
      var cut: nat, mark: nat := |text| - |afterItem|, |text| - |rest|;
      assert FailsFrom(text, cut, mark, atoms, ParseAtoms(text).error);
    }
  }

  /** The parser reports an error exactly when some atoms are spelled and what follows is that mistake. */
  lemma FailsExactly(source: string, error: PatternError)
    ensures Parse(source) == Err(error) <==> exists atoms :: Fails(Body(source), atoms, error)
  {
    hide ParseAtoms, Fails;
    if atoms :| Fails(Body(source), atoms, error) {
      FailsToParse(Body(source), atoms, error);
    }
    if Parse(source) == Err(error) {
      var atoms := FailedAtoms(Body(source));
    }
  }

  /** An alternation is refused, not read as a plain text. */
  lemma AlternationIsRefused()
    ensures Parse("a|b") == Err(OutsideSubset('|'))
  {
    hide ParseAtoms;
    var atom := Atom(Literal('a'), 1, 1);
    assert "a|b"[..1] == "a" && "a|b"[1..1] == "" && "a|b"[1..] == "|b";
    assert [atom][1..] == [];
    assert FailsFrom("a|b", 1, 1, [atom], OutsideSubset('|'));
    assert Fails(Body("a|b"), [atom], OutsideSubset('|'));
    FailsExactly("a|b", OutsideSubset('|'));
  }
}
