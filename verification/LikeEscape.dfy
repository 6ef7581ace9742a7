/** Literal prefixes in SQL LIKE patterns: the escaped pattern matches exactly the strings that start
    with the search term. */
module LikeEscape {

  const ESCAPE := '!'

  predicate Special(c: char) {
    c == '!' || c == '%' || c == '_'
  }

  // Every occurrence of one character replaced by a string.
  function Replace(s: string, c: char, with: string): string {
    if s == [] then [] else (if s[0] == c then with else [s[0]]) + Replace(s[1..], c, with)
  }

  function LiteralPrefixPattern(v: string): string {
    var escaped := Replace(Replace(Replace(v, '!', "!!"), '%', "!%"), '_', "!_");
    escaped + "%"
  }

  // LIKE with escape character `!`: `%` matches any string, `_` any one character, and an escaped
  // character only itself. A pattern that ends in the escape character matches nothing.
  predicate Like(s: string, p: string)
    decreases |s| + |p|
  {
    if p == [] then s == []
    else if p[0] == ESCAPE then |p| >= 2 && s != [] && s[0] == p[1] && Like(s[1..], p[2..])
    else if p[0] == '%' then Like(s, p[1..]) || (s != [] && Like(s[1..], p))
    else if p[0] == '_' then s != [] && Like(s[1..], p[1..])
    else s != [] && s[0] == p[0] && Like(s[1..], p[1..])
  }

  function EscapedChar(x: char): string {
    if Special(x) then [ESCAPE, x] else [x]
  }

  // One character at a time.
  function Escaped(v: string): string {
    if v == [] then [] else EscapedChar(v[0]) + Escaped(v[1..])
  }

  lemma {:induction false} ReplaceConcat(a: string, b: string, c: char, with: string)
    ensures Replace(a + b, c, with) == Replace(a, c, with) + Replace(b, c, with)
  {
    if a == [] {
      assert a + b == b;
    } else {
      assert (a + b)[0] == a[0] && (a + b)[1..] == a[1..] + b;
      ReplaceConcat(a[1..], b, c, with);
    }
  }

  lemma ReplaceOne(x: char, c: char, with: string)
    ensures Replace([x], c, with) == if x == c then with else [x]
  {
    assert [x][1..] == [];
  }

  // The three chained replacements do not interfere: together they escape each character once.
  lemma {:induction false} ChainedReplacementsEscape(v: string)
    ensures Replace(Replace(Replace(v, '!', "!!"), '%', "!%"), '_', "!_") == Escaped(v)
  {
    if v != [] {
      var x, rest := v[0], v[1..];
      ChainedReplacementsEscape(rest);
      assert v == [x] + rest;
      ReplaceConcat([x], rest, '!', "!!");
      ReplaceOne(x, '!', "!!");
      var x1, r1 := Replace([x], '!', "!!"), Replace(rest, '!', "!!");
      ReplaceConcat(x1, r1, '%', "!%");
      TwoStep(x1, x, '!', '%');
      var x2, r2 := Replace(x1, '%', "!%"), Replace(r1, '%', "!%");
      ReplaceConcat(x2, r2, '_', "!_");
      EscapeOne(x, x2);
    }
  }

  // What the second and third replacements do to what the earlier ones made of one character.
  lemma TwoStep(x1: string, x: char, a: char, b: char)
    requires a != b && x1 == if x == a then [a, a] else [x]
    ensures Replace(x1, b, [a, b]) == if x == a then [a, a] else if x == b then [a, b] else [x]
  {
    if x == a {
      assert x1 == [a] + [a];
      ReplaceConcat([a], [a], b, [a, b]);
      ReplaceOne(a, b, [a, b]);
    } else {
      ReplaceOne(x, b, [a, b]);
    }
  }

  lemma EscapeOne(x: char, x2: string)
    requires x2 == if x == '!' then "!!" else if x == '%' then "!%" else [x]
    ensures Replace(x2, '_', "!_") == if Special(x) then [ESCAPE, x] else [x]
  {
    if x == '!' || x == '%' {
      assert x2 == ['!'] + [x];
      ReplaceConcat(['!'], [x], '_', "!_");
      ReplaceOne('!', '_', "!_");
    }
    ReplaceOne(x, '_', "!_");
  }

  // Without the escape character a wildcard stands for more than itself, and with it only for itself.
  lemma WildcardsNeedEscaping(s: string)
    ensures Like(s, "_") <==> |s| == 1
    ensures Like(s, "%")
    ensures Like(s, "!_") <==> s == "_"
    ensures Like(s, "!%") <==> s == "%"
    ensures Like(s, "!!") <==> s == "!"
    ensures !Like(s, "!")
  {
    PercentMatchesAll(s);
    assert "_"[1..] == [] && "!_"[2..] == [] && "!%"[2..] == [] && "!!"[2..] == [];
    assert s != [] ==> s == [s[0]] + s[1..];
  }

  lemma {:induction false} PercentMatchesAll(s: string)
    ensures Like(s, "%")
  {
    if s == [] {
      assert "%"[1..] == [];
      assert Like([], []);
    } else {
      PercentMatchesAll(s[1..]);
    }
  }

  lemma {:induction false} EscapedPrefix(s: string, v: string)
    ensures Like(s, Escaped(v) + "%") <==> v <= s
  {
    var p := Escaped(v) + "%";
    if v == [] {
      PercentMatchesAll(s);
      assert p == "%";
    } else {
      var rest := Escaped(v[1..]) + "%";
      if Special(v[0]) {
        assert p[0] == ESCAPE && p[1] == v[0] && p[2..] == rest;
      } else {
        assert p[0] == v[0] && p[1..] == rest;
      }
      if s != [] {
        EscapedPrefix(s[1..], v[1..]);
        assert v <= s <==> v[0] == s[0] && v[1..] <= s[1..] by {
          assert v == [v[0]] + v[1..] && s == [s[0]] + s[1..];
        }
      }
    }
  }

  // A row matches the search pattern if and only if it starts with the search term, whatever
  // characters the term contains.
  lemma PatternIsExactPrefix(s: string, v: string)
    ensures Like(s, LiteralPrefixPattern(v)) <==> v <= s
  {
    ChainedReplacementsEscape(v);
    EscapedPrefix(s, v);
  }

  // ---------------------------------------------------------------- case folding

  // Lower-casing, character by character; a character may become several.
  function Folded(f: char -> string, s: string): string {
    if s == [] then [] else f(s[0]) + Folded(f, s[1..])
  }

  predicate Plain(s: string) {
    forall i :: 0 <= i < |s| ==> !Special(s[i])
  }

  // It leaves the special characters alone and makes no new ones.
  ghost predicate Folds(f: char -> string) {
    forall c :: if Special(c) then f(c) == [c] else Plain(f(c))
  }

  lemma {:induction false} EscapedConcat(a: string, b: string)
    ensures Escaped(a + b) == Escaped(a) + Escaped(b)
  {
    if a == [] {
      assert a + b == b;
    } else {
      assert (a + b)[0] == a[0] && (a + b)[1..] == a[1..] + b;
      EscapedConcat(a[1..], b);
    }
  }

  lemma {:induction false} PlainIsKept(s: string)
    requires Plain(s)
    ensures Escaped(s) == s
  {
    if s != [] {
      PlainIsKept(s[1..]);
      assert s == [s[0]] + s[1..];
    }
  }

  lemma {:induction false} FoldedConcat(f: char -> string, a: string, b: string)
    ensures Folded(f, a + b) == Folded(f, a) + Folded(f, b)
  {
    if a == [] {
      assert a + b == b;
    } else {
      assert (a + b)[0] == a[0] && (a + b)[1..] == a[1..] + b;
      FoldedConcat(f, a[1..], b);
    }
  }

  lemma {:induction false} EscapeCommutesWithFolding(f: char -> string, v: string)
    requires Folds(f)
    ensures Folded(f, Escaped(v)) == Escaped(Folded(f, v))
  {
    if v != [] {
      EscapeCommutesWithFolding(f, v[1..]);
      FoldedConcat(f, EscapedChar(v[0]), Escaped(v[1..]));
      EscapedConcat(f(v[0]), Folded(f, v[1..]));
      FoldsFirst(f, v[0]);
    }
  }

  lemma FoldsFirst(f: char -> string, x: char)
    requires Folds(f)
    ensures Folded(f, EscapedChar(x)) == Escaped(f(x))
  {
    assert Special('!') && f('!') == ['!'];
    FoldedOne(f, x);
    if Special(x) {
      assert [ESCAPE, x][1..] == [x] && [x][1..] == [];
    } else {
      PlainIsKept(f(x));
    }
  }

  lemma FoldedOne(f: char -> string, x: char)
    ensures Folded(f, [x]) == f(x)
  {
    assert [x][1..] == [] && f(x) + [] == f(x);
  }

  // The search lower-cases the finished pattern as well as the row: it matches exactly when the
  // lower-cased row starts with the lower-cased term.
  lemma FoldedPatternIsExactPrefix(f: char -> string, s: string, v: string)
    requires Folds(f)
    ensures Like(Folded(f, s), Folded(f, LiteralPrefixPattern(v))) <==> Folded(f, v) <= Folded(f, s)
  {
    ChainedReplacementsEscape(v);
    EscapeCommutesWithFolding(f, v);
    FoldedConcat(f, Escaped(v), "%");
    assert Special('%') && f('%') == ['%'];
    FoldedOne(f, '%');
    EscapedPrefix(Folded(f, s), Folded(f, v));
  }
}
