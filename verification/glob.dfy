/** The wildcard patterns of BuildCache::invalidate (cache.rs:203-211).
    `glob_to_regex` rewrites a pattern into regex source text by three
    textual replacements and anchors it; the cache then asks the regex engine
    whether a key matches. This module models that source text
    (`RegexSource`), the part of the regex language it produces (`Compile`,
    `MatchAtoms`), and the glob semantics stated directly on characters
    (`GlobMatches`), and proves the two agree. */
module Glob {
  import opened Common
  import opened Text

  /** Characters with a meaning in regex syntax that glob_to_regex passes
      through unescaped. */
  predicate IsRegexMeta(c: char) {
    c in "\\+()|[]{}^$"
  }

  /** Patterns whose regex translation means what the glob reading says:
      no regex metacharacter besides '.', '*' and '?'. */
  predicate Plain(p: string) {
    forall i :: 0 <= i < |p| ==> !IsRegexMeta(p[i])
  }

  /** The source text built by glob_to_regex: '.' becomes `\.`, then '*'
      becomes `.*`, then '?' becomes `.`, and the result is anchored. */
  function RegexSource(p: string): string {
    "^" + ReplaceAll(ReplaceAll(ReplaceAll(p, ".", "\\."), "*", ".*"), "?", ".") + "$"
  }

  /** One element of the regular expressions glob_to_regex produces. */
  datatype Atom =
    | Lit(c: char)  // a literal character, or `\.`
    | AnyChar       // `.`: one character other than '\n'
    | AnyRun        // `.*`: any run of characters other than '\n'

  function Prepend(a: Atom, rest: Option<seq<Atom>>): Option<seq<Atom>> {
    if rest.Some? then Some([a] + rest.value) else None
  }

  /** Reads unanchored regex text made only of literals, `\.`, `.` and `.*`;
      None for anything else. */
  function ParseBody(r: string): Option<seq<Atom>>
    decreases |r|
  {
    if r == [] then Some([])
    else if r[0] == '\\' then
      if |r| >= 2 && r[1] == '.' then Prepend(Lit('.'), ParseBody(r[2..])) else None
    else if r[0] == '.' then
      if |r| >= 2 && r[1] == '*' then Prepend(AnyRun, ParseBody(r[2..]))
      else Prepend(AnyChar, ParseBody(r[1..]))
    else if r[0] == '*' || r[0] == '?' || IsRegexMeta(r[0]) then None
    else Prepend(Lit(r[0]), ParseBody(r[1..]))
  }

  /** Reads `^body$` with a body ParseBody accepts. */
  function Compile(src: string): Option<seq<Atom>> {
    if |src| >= 2 && src[0] == '^' && src[|src| - 1] == '$' then ParseBody(src[1..|src| - 1])
    else None
  }

  /** Full-match semantics of an anchored atom sequence. */
  predicate MatchAtoms(atoms: seq<Atom>, s: string)
    decreases |atoms| + |s|
  {
    if atoms == [] then s == []
    else match atoms[0]
      case AnyRun =>
        MatchAtoms(atoms[1..], s) || (s != [] && s[0] != '\n' && MatchAtoms(atoms, s[1..]))
      case AnyChar => s != [] && s[0] != '\n' && MatchAtoms(atoms[1..], s[1..])
      case Lit(c) => s != [] && s[0] == c && MatchAtoms(atoms[1..], s[1..])
  }

  /** `regex.is_match(key)` for a source text the model can read. */
  predicate IsMatch(src: string, key: string)
    requires Compile(src).Some?
  {
    MatchAtoms(Compile(src).value, key)
  }

  /** The glob reading of a pattern, stated on characters: '*' matches any
      run and '?' exactly one character (neither matches '\n', as the regex
      '.' does not), every other character matches itself, and the whole key
      must be consumed. */
  predicate GlobMatches(p: string, s: string)
    decreases |p| + |s|
  {
    if p == [] then s == []
    else if p[0] == '*' then GlobMatches(p[1..], s) || (s != [] && s[0] != '\n' && GlobMatches(p, s[1..]))
    else if p[0] == '?' then s != [] && s[0] != '\n' && GlobMatches(p[1..], s[1..])
    else s != [] && s[0] == p[0] && GlobMatches(p[1..], s[1..])
  }

  // ----- from the three replacements to a per-character translation -----

  function EscapeChar(c: char): string {
    if c == '.' then "\\." else if c == '*' then ".*" else if c == '?' then "." else [c]
  }

  function Translate(p: string): string
    decreases |p|
  {
    if p == [] then [] else EscapeChar(p[0]) + Translate(p[1..])
  }

  /** Replacing a one-character pattern distributes over concatenation. */
  lemma {:induction false} ReplaceCharConcat(a: string, b: string, c: char, r: string)
    ensures ReplaceAll(a + b, [c], r) == ReplaceAll(a, [c], r) + ReplaceAll(b, [c], r)
    decreases |a|
  {
    if a == [] {
      assert a + b == b;
    } else {
      assert (a + b)[1..] == a[1..] + b;
      assert ([c] <= a + b) == ([c] <= a);
      ReplaceCharConcat(a[1..], b, c, r);
    }
  }

  lemma ReplaceCharSingle(x: char, c: char, r: string)
    ensures ReplaceAll([x], [c], r) == if x == c then r else [x]
  {
    assert [x][1..] == [];
    if x == c {
      assert [x][|[c]|..] == [];
    }
  }

  /** The three replacements, applied in glob_to_regex's order. */
  function Stages(p: string): string {
    ReplaceAll(ReplaceAll(ReplaceAll(p, ".", "\\."), "*", ".*"), "?", ".")
  }

  lemma StagesChar(c: char)
    ensures Stages([c]) == EscapeChar(c)
  {
    ReplaceCharSingle(c, '.', "\\.");
    if c == '.' {
      ReplaceCharConcat("\\", ".", '*', ".*");
      ReplaceCharSingle('\\', '*', ".*");
      ReplaceCharSingle('.', '*', ".*");
      assert "\\" + "." == "\\.";
      ReplaceCharConcat("\\", ".", '?', ".");
      ReplaceCharSingle('\\', '?', ".");
      ReplaceCharSingle('.', '?', ".");
    } else {
      ReplaceCharSingle(c, '*', ".*");
      if c == '*' {
        ReplaceCharConcat(".", "*", '?', ".");
        ReplaceCharSingle('.', '?', ".");
        ReplaceCharSingle('*', '?', ".");
        assert "." + "*" == ".*";
      } else {
        ReplaceCharSingle(c, '?', ".");
      }
    }
  }

  lemma {:induction false} StagesTranslate(p: string)
    ensures Stages(p) == Translate(p)
    decreases |p|
  {
    if p == [] {
    } else {
      var c, rest := p[0], p[1..];
      assert p == [c] + rest;
      var s1, t1 := ReplaceAll([c], ".", "\\."), ReplaceAll(rest, ".", "\\.");
      ReplaceCharConcat([c], rest, '.', "\\.");
      var s2, t2 := ReplaceAll(s1, "*", ".*"), ReplaceAll(t1, "*", ".*");
      ReplaceCharConcat(s1, t1, '*', ".*");
      ReplaceCharConcat(s2, t2, '?', ".");
      StagesChar(c);
      StagesTranslate(rest);
    }
  }

  /** The regex source is the anchored per-character translation. */
  lemma RegexSourceIsTranslate(p: string)
    ensures RegexSource(p) == "^" + Translate(p) + "$"
  {
    StagesTranslate(p);
  }

  // ----- the translation compiles to the atoms the glob reading expects -----

  function AtomOf(c: char): Atom {
    if c == '*' then AnyRun else if c == '?' then AnyChar else Lit(c)
  }

  function Atoms(p: string): (a: seq<Atom>)
    ensures |a| == |p|
    decreases |p|
  {
    if p == [] then [] else [AtomOf(p[0])] + Atoms(p[1..])
  }

  lemma {:induction false} TranslateHead(p: string)
    requires Plain(p)
    ensures Translate(p) == [] || Translate(p)[0] != '*'
  {
  }

  lemma {:induction false} ParseTranslate(p: string)
    requires Plain(p)
    ensures ParseBody(Translate(p)) == Some(Atoms(p))
    decreases |p|
  {
    if p != [] {
      var c, rest := p[0], p[1..];
      var t := Translate(rest);
      assert Plain(rest);
      ParseTranslate(rest);
      var r := EscapeChar(c) + t;
      assert Translate(p) == r;
      if c == '.' {
        assert r[2..] == t;
      } else if c == '*' {
        assert r[2..] == t;
      } else if c == '?' {
        TranslateHead(rest);
        assert r[1..] == t;
      } else {
        assert !IsRegexMeta(p[0]);
        assert r[1..] == t;
      }
    }
  }

  /** Every plain pattern yields a regex the model can read: the match-all
      fallback of glob_to_regex is never taken for such patterns. */
  lemma CompileRegexSource(p: string)
    requires Plain(p)
    ensures Compile(RegexSource(p)) == Some(Atoms(p))
  {
    RegexSourceIsTranslate(p);
    var src := RegexSource(p);
    assert src[1..|src| - 1] == Translate(p);
    ParseTranslate(p);
  }

  lemma {:induction false} AtomsMatchGlob(p: string, s: string)
    ensures MatchAtoms(Atoms(p), s) == GlobMatches(p, s)
    decreases |p| + |s|
  {
    if p != [] {
      var a := Atoms(p);
      assert a[1..] == Atoms(p[1..]);
      if p[0] == '*' {
        AtomsMatchGlob(p[1..], s);
        if s != [] {
          AtomsMatchGlob(p, s[1..]);
        }
      } else if s != [] {
        AtomsMatchGlob(p[1..], s[1..]);
      }
    }
  }

  /** Correctness of glob_to_regex: for a plain pattern, the regex it builds
      matches a key exactly when the glob reading does. */
  lemma RegexSourceMatchesGlob(p: string, s: string)
    requires Plain(p)
    ensures Compile(RegexSource(p)).Some?
    ensures IsMatch(RegexSource(p), s) <==> GlobMatches(p, s)
  {
    CompileRegexSource(p);
    AtomsMatchGlob(p, s);
  }

  // ----- what the glob reading promises -----

  predicate Literal(p: string) {
    '*' !in p && '?' !in p
  }

  /** A pattern without wildcards matches only itself ('.' is literal). */
  lemma {:induction false} LiteralMatchesItself(p: string, s: string)
    requires Literal(p)
    ensures GlobMatches(p, s) <==> s == p
    decreases |p|
  {
    if p != [] {
      assert p[0] in p;
      assert forall c :: c in p[1..] ==> c in p;
      if s != [] {
        LiteralMatchesItself(p[1..], s[1..]);
        if s[0] == p[0] {
          assert s == [s[0]] + s[1..] && p == [p[0]] + p[1..];
        }
      }
    }
  }

  /** `*` alone matches every key without a line break. */
  lemma {:induction false} StarMatchesAll(s: string)
    ensures GlobMatches("*", s) <==> '\n' !in s
    decreases |s|
  {
    assert "*"[1..] == [];
    if s != [] {
      StarMatchesAll(s[1..]);
      assert s == [s[0]] + s[1..];
    }
  }

  /** `?` matches exactly the one-character keys other than "\n". */
  lemma QuestionMatchesOne(s: string)
    ensures GlobMatches("?", s) <==> |s| == 1 && s[0] != '\n'
  {
    assert "?"[1..] == [];
  }

  /** `lit*` matches exactly the keys that start with `lit` and continue
      without a line break: the `build_*` invalidation of the tests. */
  lemma {:induction false} PrefixStar(lit: string, s: string)
    requires Literal(lit)
    ensures GlobMatches(lit + "*", s) <==> lit <= s && '\n' !in s[|lit|..]
    decreases |lit|
  {
    if lit == [] {
      assert lit + "*" == "*";
      StarMatchesAll(s);
    } else {
      assert lit[0] in lit;
      assert forall c :: c in lit[1..] ==> c in lit;
      assert (lit + "*")[1..] == lit[1..] + "*";
      if s != [] {
        PrefixStar(lit[1..], s[1..]);
        if |s| >= |lit| {
          assert s[1..][|lit| - 1..] == s[|lit|..];
        }
        assert lit <= s <==> s[0] == lit[0] && lit[1..] <= s[1..];
      }
    }
  }
}
