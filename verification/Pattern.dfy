/**
 The compiled form of the `pattern` subset and the backtracking matcher. The
 matcher is proved to accept exactly the texts that can be cut into slices, one
 for each atom.
 */
module Pattern {
  /** The two Unicode tables the classes consult. */
  datatype Unicode = Unicode(isAlphanumeric: char -> bool, isWhitespace: char -> bool)

  datatype ClassPart =
    | Char(c: char)
    | Range(lo: char, hi: char)
    | Digit(positive: bool)
    | Word(positive: bool)
    | Space(positive: bool)
  {
    predicate Matches(u: Unicode, x: char) {
      match this
      case Char(c) => c == x
      case Range(lo, hi) => lo <= x && x <= hi
      case Digit(positive) => ('0' <= x <= '9') == positive
      case Word(positive) => (u.isAlphanumeric(x) || x == '_') == positive
      case Space(positive) => u.isWhitespace(x) == positive
    }
  }

  datatype Item =
    | Any
    | Literal(c: char)
    | Class(negated: bool, parts: seq<ClassPart>)
  {
    predicate Matches(u: Unicode, x: char) {
      match this
      case Any => x != '\n'
      case Literal(c) => c == x
      case Class(negated, parts) => (exists k :: 0 <= k < |parts| && parts[k].Matches(u, x)) != negated
    }
  }

  /** `usize::MAX`, the bound the unbounded quantifiers carry. */
  const UNBOUNDED: nat := 0xFFFF_FFFF_FFFF_FFFF

  datatype Atom = Atom(item: Item, min: nat, max: nat)

  datatype Pattern = Pattern(anchoredStart: bool, anchoredEnd: bool, atoms: seq<Atom>)

  // ------------------------------------------------------------------
  // What a match is
  // ------------------------------------------------------------------

  /** `text[from..to]` is a slice `atom` accepts. */
  ghost predicate Fits(u: Unicode, atom: Atom, text: string, from: nat, to: nat) {
    && from <= to <= |text|
    && atom.min <= to - from <= atom.max
    && forall i :: from <= i < to ==> atom.item.Matches(u, text[i])
  }

  /** `cuts` divides `text` between `cuts[0]` and its last element among `atoms`. */
  ghost predicate IsDivision(u: Unicode, atoms: seq<Atom>, text: string, cuts: seq<nat>) {
    && |cuts| == |atoms| + 1
    && cuts[|atoms|] <= |text|
    && forall k :: 0 <= k < |atoms| ==> Fits(u, atoms[k], text, cuts[k], cuts[k + 1])
  }

  ghost predicate MatchesFrom(u: Unicode, atoms: seq<Atom>, anchoredEnd: bool, text: string, pos: nat) {
    exists cuts: seq<nat> ::
      && IsDivision(u, atoms, text, cuts)
      && cuts[0] == pos
      && (anchoredEnd ==> cuts[|atoms|] == |text|)
  }

  ghost predicate Matches(u: Unicode, p: Pattern, text: string) {
    exists start: nat ::
      (p.anchoredStart ==> start == 0) && MatchesFrom(u, p.atoms, p.anchoredEnd, text, start)
  }

  // ------------------------------------------------------------------
  // The matcher
  // ------------------------------------------------------------------

  lemma MatchNothingLeft(u: Unicode, anchoredEnd: bool, text: string, pos: nat)
    ensures MatchesFrom(u, [], anchoredEnd, text, pos) <==> pos <= |text| && (anchoredEnd ==> pos == |text|)
  {
    if pos <= |text| && (anchoredEnd ==> pos == |text|) {
      assert IsDivision(u, [], text, [pos]);
    }
  }

  /** A match is a slice for the first atom and a match of the others from its end. */
  lemma MatchOneAtom(u: Unicode, atoms: seq<Atom>, anchoredEnd: bool, text: string, pos: nat)
    requires |atoms| > 0
    ensures MatchesFrom(u, atoms, anchoredEnd, text, pos) <==>
            exists to: nat :: Fits(u, atoms[0], text, pos, to) && MatchesFrom(u, atoms[1..], anchoredEnd, text, to)
  {
    if MatchesFrom(u, atoms, anchoredEnd, text, pos) {
      var cuts: seq<nat> :|
        IsDivision(u, atoms, text, cuts) && cuts[0] == pos && (anchoredEnd ==> cuts[|atoms|] == |text|);
      assert IsDivision(u, atoms[1..], text, cuts[1..]);
      assert Fits(u, atoms[0], text, pos, cuts[1]) && MatchesFrom(u, atoms[1..], anchoredEnd, text, cuts[1]);
    }
    if to: nat :| Fits(u, atoms[0], text, pos, to) && MatchesFrom(u, atoms[1..], anchoredEnd, text, to) {
      var rest: seq<nat> :|
        && IsDivision(u, atoms[1..], text, rest) && rest[0] == to
        && (anchoredEnd ==> rest[|atoms| - 1] == |text|);
      var cuts := [pos] + rest;
      forall k | 0 <= k < |atoms|
        ensures Fits(u, atoms[k], text, cuts[k], cuts[k + 1])
      {
        assert k > 0 ==> Fits(u, atoms[1..][k - 1], text, rest[k - 1], rest[k]);
      }
      assert IsDivision(u, atoms, text, cuts);
    }
  }

  function Product(a: nat, b: nat): nat {
    a * b
  }

  lemma ProductSteps(a: nat, b: nat)
    ensures Product(0, b) == 0 && Product(a + 1, b) == Product(a, b) + b
  {
  }

  /** `1 + b + b^2 + ... + b^depth`. */
  function Budget(b: nat, depth: nat): (n: nat)
    ensures n >= 1
  {
    if depth == 0 then 1 else 1 + Product(b, Budget(b, depth - 1))
  }

  lemma {:induction false} BudgetMonotone(a: nat, b: nat, depth: nat)
    requires a <= b
    ensures Budget(a, depth) <= Budget(b, depth)
  {
    if depth > 0 {
      BudgetMonotone(a, b, depth - 1);
      ProductMonotone(a, b, Budget(a, depth - 1), Budget(b, depth - 1));
    }
  }

  lemma ProductMonotone(a: nat, b: nat, c: nat, d: nat)
    requires a <= b && c <= d
    ensures Product(a, c) <= Product(b, d)
  {
    assert a * c <= b * c <= b * d;
  }

  /** The ends greedy matching reaches are exactly the ends the atom can have. */
  lemma EndsAreFits(u: Unicode, atom: Atom, text: string, pos: nat, ends: seq<nat>)
    requires pos <= |text| && |ends| > 0
    requires forall k :: 0 <= k < |ends| ==> ends[k] == pos + atom.min + k
    requires ends[|ends| - 1] <= |text|
    requires forall i :: pos <= i < ends[|ends| - 1] ==> atom.item.Matches(u, text[i])
    requires |ends| == 1 || atom.min + |ends| - 1 <= atom.max
    requires atom.min <= atom.max
    requires
      var last := ends[|ends| - 1];
      last - pos >= atom.max || last == |text| || !atom.item.Matches(u, text[last])
    ensures forall to: nat :: Fits(u, atom, text, pos, to) <==> to in ends
  {
    forall to: nat
      ensures Fits(u, atom, text, pos, to) <==> to in ends
    {
      if Fits(u, atom, text, pos, to) {
        assert ends[to - pos - atom.min] == to;
      }
    }
  }

  /** Stopped before its minimum, an atom has no slice at all. */
  lemma NothingFits(u: Unicode, atom: Atom, text: string, pos: nat, stop: nat)
    requires pos <= stop <= |text| && stop - pos < atom.min
    requires stop == |text| || !atom.item.Matches(u, text[stop])
    ensures forall to: nat :: !Fits(u, atom, text, pos, to)
  {
  }

  method MatchFrom(u: Unicode, p: Pattern, text: string, atom: nat, pos: nat) returns (r: bool, ghost calls: nat)
    requires atom <= |p.atoms| && pos <= |text|
    requires forall k :: 0 <= k < |p.atoms| ==> p.atoms[k].min <= p.atoms[k].max
    ensures r <==> MatchesFrom(u, p.atoms[atom..], p.anchoredEnd, text, pos)
    ensures calls <= Budget(|text| - pos + 1, |p.atoms| - atom)
    decreases |p.atoms| - atom
  {
    hide MatchesFrom, Budget, Product, Fits;
    calls := 1;
    if atom == |p.atoms| {
      MatchNothingLeft(u, p.anchoredEnd, text, pos);
      assert p.atoms[atom..] == [];
      return !p.anchoredEnd || pos == |text|, calls;
    }
    var current := p.atoms[atom];
    MatchOneAtom(u, p.atoms[atom..], p.anchoredEnd, text, pos);
    assert p.atoms[atom..][1..] == p.atoms[atom + 1..];
    var count, cursor := 0, pos;
    while count < current.min
      invariant count <= current.min && cursor == pos + count <= |text|
      invariant forall i :: pos <= i < cursor ==> current.item.Matches(u, text[i])
    {
      if cursor < |text| && current.item.Matches(u, text[cursor]) {
        cursor := cursor + 1;
        count := count + 1;
      } else {
        NothingFits(u, current, text, pos, cursor);
        return false, calls;
      }
    }
    var ends := [cursor];
    while count < current.max && cursor < |text| && current.item.Matches(u, text[cursor])
      invariant current.min <= count <= current.max && cursor == pos + count <= |text|
      invariant |ends| == count - current.min + 1
      invariant forall k :: 0 <= k < |ends| ==> ends[k] == pos + current.min + k
      invariant forall i :: pos <= i < cursor ==> current.item.Matches(u, text[i])
    {
      cursor := cursor + 1;
      count := count + 1;
      ends := ends + [cursor];
    }
    EndsAreFits(u, current, text, pos, ends);
    ghost var width, below := |text| - pos + 1, Budget(|text| - pos + 1, |p.atoms| - atom - 1);
    BudgetStep(width, |p.atoms| - atom);
    ProductSteps(0, below);
    for k := |ends| downto 0
      invariant calls <= 1 + Product(|ends| - k, below)
      invariant forall e :: e in ends[k..] ==> !MatchesFrom(u, p.atoms[atom + 1..], p.anchoredEnd, text, e)
    {
      ghost var more;
      r, more := MatchFrom(u, p, text, atom + 1, ends[k]);
      BudgetMonotone(|text| - ends[k] + 1, width, |p.atoms| - atom - 1);
      calls := calls + more;
      ProductSteps(|ends| - k - 1, below);
      ProductMonotone(|ends| - k, width, below, below);
      if r {
        return true, calls;
      }
      assert ends[k..] == [ends[k]] + ends[k + 1..];
    }
    assert ends[0..] == ends;
    ProductMonotone(|ends|, width, below, below);
    return false, calls;
  }

  lemma BudgetStep(b: nat, depth: nat)
    requires depth > 0
    ensures Budget(b, depth) == 1 + Product(b, Budget(b, depth - 1))
  {
  }

  /** Unanchored patterns are searched from every start, in order. */
  method IsMatch(u: Unicode, p: Pattern, text: string) returns (r: bool)
    requires forall k :: 0 <= k < |p.atoms| ==> p.atoms[k].min <= p.atoms[k].max
    ensures r <==> Matches(u, p, text)
  {
    hide MatchesFrom;
    ghost var calls;
    assert p.atoms[0..] == p.atoms;
    if p.anchoredStart {
      r, calls := MatchFrom(u, p, text, 0, 0);
      return;
    }
    for start := 0 to |text| + 1
      invariant forall s: nat :: s < start ==> !MatchesFrom(u, p.atoms, p.anchoredEnd, text, s)
    {
      r, calls := MatchFrom(u, p, text, 0, start);
      if r {
        return true;
      }
    }
    forall s: nat | s > |text|
      ensures !MatchesFrom(u, p.atoms, p.anchoredEnd, text, s)
    {
      StartInside(u, p.atoms, p.anchoredEnd, text, s);
    }
    return false;
  }

  lemma {:induction false} StartInside(u: Unicode, atoms: seq<Atom>, anchoredEnd: bool, text: string, pos: nat)
    ensures MatchesFrom(u, atoms, anchoredEnd, text, pos) ==> pos <= |text|
  {
    if MatchesFrom(u, atoms, anchoredEnd, text, pos) {
      var cuts: seq<nat> :|
        IsDivision(u, atoms, text, cuts) && cuts[0] == pos && (anchoredEnd ==> cuts[|atoms|] == |text|);
      assert |atoms| > 0 ==> Fits(u, atoms[0], text, cuts[0], cuts[1]);
    }
  }

  // ------------------------------------------------------------------
  // What simple patterns match
  // ------------------------------------------------------------------

  /** What a class part stands for, in plain terms. */
  ghost predicate PartAdmits(u: Unicode, part: ClassPart, x: char) {
    match part
    case Char(c) => x == c
    case Range(lo, hi) => !(x < lo) && !(hi < x)
    case Digit(positive) => (x in {'0', '1', '2', '3', '4', '5', '6', '7', '8', '9'}) <==> positive
    case Word(positive) => (x == '_' || u.isAlphanumeric(x)) <==> positive
    case Space(positive) => u.isWhitespace(x) <==> positive
  }

  ghost predicate Admits(u: Unicode, item: Item, x: char) {
    match item
    case Any => x != '\n'
    case Literal(c) => x == c
    case Class(negated, parts) =>
      if negated then forall part :: part in parts ==> !PartAdmits(u, part, x)
      else exists part :: part in parts && PartAdmits(u, part, x)
  }

  lemma ItemAdmits(u: Unicode, item: Item, x: char)
    ensures item.Matches(u, x) <==> Admits(u, item, x)
  {
    if item.Class? {
      forall part: ClassPart
        ensures part.Matches(u, x) <==> PartAdmits(u, part, x)
      {
      }
      if part :| part in item.parts && PartAdmits(u, part, x) {
        var k :| 0 <= k < |item.parts| && item.parts[k] == part;
        assert item.parts[k].Matches(u, x);
      }
      if k :| 0 <= k < |item.parts| && item.parts[k].Matches(u, x) {
        assert item.parts[k] in item.parts;
      }
    }
  }

  /** One atom, anchored at both ends, matches the texts of the right length whose characters its item admits. */
  lemma RunMatches(u: Unicode, atom: Atom, text: string)
    ensures Matches(u, Pattern(true, true, [atom]), text) <==>
            atom.min <= |text| <= atom.max && forall i :: 0 <= i < |text| ==> Admits(u, atom.item, text[i])
  {
    hide Admits;
    assert [atom][1..] == [];
    MatchOneAtom(u, [atom], true, text, 0);
    MatchNothingLeft(u, true, text, |text|);
    forall to: nat
      ensures MatchesFrom(u, [], true, text, to) <==> to == |text|
    {
      MatchNothingLeft(u, true, text, to);
    }
    forall i | 0 <= i < |text|
      ensures atom.item.Matches(u, text[i]) <==> Admits(u, atom.item, text[i])
    {
      ItemAdmits(u, atom.item, text[i]);
    }
  }

  /** The unbounded quantifiers set no bound on any text there is room for. */
  lemma RepeatMatches(u: Unicode, item: Item, text: string)
    requires |text| <= 0xFFFF_FFFF_FFFF_FFFF
    ensures Matches(u, Pattern(true, true, [Atom(item, 0, UNBOUNDED)]), text) <==>
            forall i :: 0 <= i < |text| ==> Admits(u, item, text[i])
  {
    RunMatches(u, Atom(item, 0, UNBOUNDED), text);
  }

  /** The atoms of a word. */
  function Letters(word: string): seq<Atom> {
    if |word| == 0 then [] else [Atom(Literal(word[0]), 1, 1)] + Letters(word[1..])
  }

  ghost predicate StandsAt(word: string, text: string, at: nat) {
    at + |word| <= |text| && text[at..at + |word|] == word
  }

  lemma {:induction false} LettersMatch(u: Unicode, word: string, anchoredEnd: bool, text: string, pos: nat)
    ensures MatchesFrom(u, Letters(word), anchoredEnd, text, pos) <==>
            StandsAt(word, text, pos) && (anchoredEnd ==> pos + |word| == |text|)
    decreases |word|
  {
    hide MatchesFrom;
    if |word| == 0 {
      MatchNothingLeft(u, anchoredEnd, text, pos);
    } else {
      var atoms := Letters(word);
      assert atoms[1..] == Letters(word[1..]);
      MatchOneAtom(u, atoms, anchoredEnd, text, pos);
      LettersMatch(u, word[1..], anchoredEnd, text, pos + 1);
      if pos < |text| {
        assert Fits(u, atoms[0], text, pos, pos + 1) <==> text[pos] == word[0];
      }
      if pos + |word| <= |text| {
        assert text[pos..pos + |word|] == [text[pos]] + text[pos + 1..pos + |word|];
        assert word == [word[0]] + word[1..];
      }
    }
  }

  /** A word without anchors is found anywhere; each anchor ties it to its end of the text. */
  lemma WordMatches(u: Unicode, word: string, anchoredStart: bool, anchoredEnd: bool, text: string)
    ensures Matches(u, Pattern(anchoredStart, anchoredEnd, Letters(word)), text) <==>
            exists at: nat :: StandsAt(word, text, at) && (anchoredStart ==> at == 0)
                              && (anchoredEnd ==> at + |word| == |text|)
  {
    hide MatchesFrom, StandsAt;
    var p := Pattern(anchoredStart, anchoredEnd, Letters(word));
    forall at: nat
      ensures MatchesFrom(u, p.atoms, anchoredEnd, text, at) <==>
              StandsAt(word, text, at) && (anchoredEnd ==> at + |word| == |text|)
    {
      LettersMatch(u, word, anchoredEnd, text, at);
    }
  }
}
