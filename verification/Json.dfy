/** JSON values, and the pointers that name places inside them. */
module Json {
  import opened Results

  /** `Integer` covers the two integral forms of a parsed number, `Float` the third. */
  datatype Number = Integer(i: int) | Float(f: real)

  /** The fields of an object are listed in the order its map iterates them. */
  datatype Value =
    | Null
    | Bool(b: bool)
    | Num(n: Number)
    | String(text: string)
    | Array(items: seq<Value>)
    | Object(fields: seq<Field>)

  datatype Field = Field(name: string, value: Value)

  function Get(fields: seq<Field>, name: string): (r: Option<Value>)
    ensures r.Some? <==> exists k :: 0 <= k < |fields| && fields[k].name == name
    ensures r.Some? ==> exists k :: 0 <= k < |fields| && fields[k] == Field(name, r.value)
  {
    if |fields| == 0 then None
    else if fields[0].name == name then Some(fields[0].value)
    else
      var r := Get(fields[1..], name);
      assert forall k :: 1 <= k < |fields| ==> fields[k] == fields[1..][k - 1];
      r
  }

  // ------------------------------------------------------------------
  // Pointers
  // ------------------------------------------------------------------

  function ReplaceChar(s: string, c: char, with: string): string {
    if |s| == 0 then "" else (if s[0] == c then with else [s[0]]) + ReplaceChar(s[1..], c, with)
  }

  function Escape(token: string): string {
    ReplaceChar(ReplaceChar(token, '~', "~0"), '/', "~1")
  }

  /** The reverse, as section 4 of RFC 6901 prescribes. */
  function Unescape(s: string): string {
    if |s| == 0 then ""
    else if |s| > 1 && s[0] == '~' && s[1] == '1' then "/" + Unescape(s[2..])
    else if |s| > 1 && s[0] == '~' && s[1] == '0' then "~" + Unescape(s[2..])
    else [s[0]] + Unescape(s[1..])
  }

  function EscapeChar(c: char): string {
    if c == '~' then "~0" else if c == '/' then "~1" else [c]
  }

  lemma {:induction false} ReplaceCharConcat(s: string, t: string, c: char, with: string)
    ensures ReplaceChar(s + t, c, with) == ReplaceChar(s, c, with) + ReplaceChar(t, c, with)
  {
    if |s| == 0 {
      assert s + t == t;
    } else {
      assert (s + t)[1..] == s[1..] + t;
      ReplaceCharConcat(s[1..], t, c, with);
    }
  }

  lemma EscapeStep(token: string)
    requires |token| > 0
    ensures Escape(token) == EscapeChar(token[0]) + Escape(token[1..])
  {
    var head := if token[0] == '~' then "~0" else [token[0]];
    ReplaceCharConcat(head, ReplaceChar(token[1..], '~', "~0"), '/', "~1");
    if token[0] == '~' {
      ReplaceCharConcat("~", "0", '/', "~1");
      assert "~" + "0" == "~0";
      SingleChar('~');
      SingleChar('0');
    } else {
      SingleChar(token[0]);
    }
  }

  lemma SingleChar(c: char)
    ensures ReplaceChar([c], '/', "~1") == if c == '/' then "~1" else [c]
  {
    assert [c][1..] == "";
  }

  lemma {:induction false} EscapeHasNoSlash(token: string)
    ensures '/' !in Escape(token)
  {
    if |token| > 0 {
      EscapeStep(token);
      EscapeHasNoSlash(token[1..]);
    }
  }

  lemma {:induction false} UnescapeEscape(token: string)
    ensures Unescape(Escape(token)) == token
  {
    if |token| > 0 {
      EscapeStep(token);
      UnescapeEscape(token[1..]);
      var head, rest := EscapeChar(token[0]), Escape(token[1..]);
      assert (head + rest)[|head|..] == rest;
      assert token == [token[0]] + token[1..];
    }
  }

  /** The pointer text of a path of reference tokens. */
  function Render(path: seq<string>): string {
    if |path| == 0 then "" else "/" + Escape(path[0]) + Render(path[1..])
  }

  lemma {:induction false} RenderAppend(path: seq<string>, token: string)
    ensures Render(path + [token]) == Render(path) + "/" + Escape(token)
  {
    if |path| == 0 {
      assert path + [token] == [token];
      assert [token][1..] == [];
      assert "/" + Escape(token) + "" == "" + "/" + Escape(token);
    } else {
      assert (path + [token])[1..] == path[1..] + [token];
      RenderAppend(path[1..], token);
      assert "/" + Escape(path[0]) + (Render(path[1..]) + "/" + Escape(token))
          == "/" + Escape(path[0]) + Render(path[1..]) + "/" + Escape(token);
    }
  }

  lemma SlashInside(a: string, x: string, b: string, y: string)
    requires a + x == b + y
    requires |x| > 0 ==> x[0] == '/'
    ensures |a| < |b| ==> '/' in b
  {
    if |a| < |b| {
      assert (a + x)[|a|] == x[0] && (b + y)[|a|] == b[|a|];
    }
  }

  /** A slash-free prefix is determined by where the first slash stands. */
  lemma PrefixBeforeSlash(a: string, x: string, b: string, y: string)
    requires a + x == b + y
    requires '/' !in a && '/' !in b
    requires |x| > 0 ==> x[0] == '/'
    requires |y| > 0 ==> y[0] == '/'
    ensures a == b && x == y
  {
    var whole := a + x;
    SlashInside(a, x, b, y);
    SlashInside(b, y, a, x);
    assert a == whole[..|a|] && b == whole[..|b|];
    assert x == whole[|a|..] && y == whole[|b|..];
  }

  /** Distinct paths have distinct pointers. */
  lemma {:induction false} RenderInjective(p: seq<string>, q: seq<string>)
    requires Render(p) == Render(q)
    ensures p == q
  {
    hide Escape;
    if |p| > 0 && |q| > 0 {
      var a, b := Escape(p[0]), Escape(q[0]);
      EscapeHasNoSlash(p[0]);
      EscapeHasNoSlash(q[0]);
      assert Render(p)[1..] == a + Render(p[1..]);
      assert Render(q)[1..] == b + Render(q[1..]);
      PrefixBeforeSlash(a, Render(p[1..]), b, Render(q[1..]));
      UnescapeEscape(p[0]);
      UnescapeEscape(q[0]);
      RenderInjective(p[1..], q[1..]);
      assert p == [p[0]] + p[1..] && q == [q[0]] + q[1..];
    }
  }

  /** How a violation shows its pointer: the root is written as a lone slash. */
  function Shown(pointer: string): string {
    if pointer == "" then "/" else pointer
  }

  /**
   Shown pointers tell two places apart except the root from its empty-named
   member, which are both shown as a lone slash.
   */
  lemma ShownPointersCollide(p: seq<string>, q: seq<string>)
    ensures Shown(Render(p)) == Shown(Render(q)) <==>
            p == q || (p in {[], [""]} && q in {[], [""]})
  {
    assert Render([""]) == "/" by {
      assert Escape("") == "" && [""][1..] == [];
    }
    if Shown(Render(p)) == Shown(Render(q)) {
      if Render(p) == "" {
        if Render(q) != "" {
          RenderInjective(q, [""]);
        }
      } else if Render(q) == "" {
        RenderInjective(p, [""]);
      } else {
        RenderInjective(p, q);
      }
    }
  }

  function Decimal(n: nat): string {
    if n < 10 then [Digit(n)] else Decimal(n / 10) + [Digit(n % 10)]
  }

  function Digit(d: nat): char
    requires d < 10
  {
    ('0' as int + d) as char
  }

  /** The two escapes of section 3 of RFC 6901. */
  lemma EscapeExamples()
    ensures Escape("/") == "~1" && Escape("~") == "~0" && Escape("a") == "a"
    ensures Unescape("~01") == "~1"
  {
    EscapeStep("/");
    EscapeStep("~");
    EscapeStep("a");
    assert "/"[1..] == "" && "~"[1..] == "" && "a"[1..] == "" && Escape("") == "";
    assert "~01"[2..] == "1" && "1"[1..] == "" && Unescape("1") == "1";
  }

  /** The number a text of decimal digits denotes. */
  function Denotes(text: string): nat
    requires forall i :: 0 <= i < |text| ==> '0' <= text[i] <= '9'
  {
    if |text| == 0 then 0
    else 10 * Denotes(text[..|text| - 1]) + (text[|text| - 1] as int - '0' as int)
  }

  /** Indices are written in decimal, without leading zeros. */
  lemma {:induction false} DecimalDenotes(n: nat)
    ensures forall i :: 0 <= i < |Decimal(n)| ==> '0' <= Decimal(n)[i] <= '9'
    ensures Denotes(Decimal(n)) == n
    ensures |Decimal(n)| > 0 && (Decimal(n)[0] == '0' ==> n == 0)
  {
    if n >= 10 {
      var front := Decimal(n / 10);
      DecimalDenotes(n / 10);
      assert Decimal(n)[..|Decimal(n)| - 1] == front;
      assert Decimal(n)[0] == front[0];
    } else {
      assert Decimal(n)[..0] == "";
    }
  }
}
