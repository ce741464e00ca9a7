/** Environment variables loaded from `.env` files
    (crates/forgekit-core/src/env_manager.rs).

    A line is `KEY=VALUE`; blank lines, comments and lines without `=` are
    skipped, and later assignments override earlier ones. A value that is a
    single quote character makes the quote stripping slice out of bounds,
    which aborts the program: that outcome is `Panic` here. */
module Env {
  import opened Common
  import opened Text

  // ----- parsing -----

  datatype LineEffect = Skip | Assign(key: string, value: string) | Panic

  /** Starts and ends with `"`, or starts and ends with `'`. */
  predicate Quoted(v: string) {
    |v| >= 1 && ((v[0] == '"' && v[|v| - 1] == '"') || (v[0] == '\'' && v[|v| - 1] == '\''))
  }

  /** One layer of quotes removed; `None` where the slice would panic. */
  function Unquote(v: string): (r: Option<string>)
    ensures r.None? <==> Quoted(v) && |v| == 1
  {
    if Quoted(v) then
      if |v| == 1 then None else Some(v[1..|v| - 1])
    else Some(v)
  }

  /** What one line of an env file does. */
  function ParseLine(line: string): LineEffect {
    var t := Trim(line);
    if t == [] || t[0] == '#' then Skip
    else match SplitOnce(t, '=')
      case None => Skip
      case Some((k, v)) =>
        match Unquote(Trim(v))
        case None => Panic
        case Some(value) => Assign(Trim(k), value)
  }

  /** Trimming only removes characters. */
  lemma TrimKeepsOut(s: string, c: char)
    requires c !in s
    ensures c !in Trim(s)
  {
    var a := TrimStart(s);
    assert forall x :: x in a ==> x in s;
    assert forall x :: x in TrimEnd(a) ==> x in a;
  }

  /** Blank lines, comments and lines without `=` are skipped. */
  lemma ParseLineSkips(line: string)
    requires var t := Trim(line); t == [] || t[0] == '#' || '=' !in t
    ensures ParseLine(line) == Skip
  {
  }

  /** The key never contains `=` and neither starts nor ends with
      whitespace. */
  lemma ParseLineKey(line: string)
    requires ParseLine(line).Assign?
    ensures var k := ParseLine(line).key;
      '=' !in k && (k == [] || (!IsWhitespace(k[0]) && !IsWhitespace(k[|k| - 1])))
  {
    var t := Trim(line);
    assert t != [] && t[0] != '#';
    var split := SplitOnce(t, '=');
    assert split.Some?;
    var k := split.value.0;
    assert '=' !in k;
    assert Unquote(Trim(split.value.1)).Some?;
    assert ParseLine(line).key == Trim(k);
    TrimKeepsOut(k, '=');
  }

  /** Exactly one layer of matching quotes is removed. */
  lemma UnquoteOneLayer(q: char, inner: string)
    requires q == '"' || q == '\''
    ensures Unquote([q] + inner + [q]) == Some(inner)
  {
    var v := [q] + inner + [q];
    assert v[1..|v| - 1] == inner;
  }

  /** A value that is one quote character aborts. */
  lemma LoneQuotePanics(k: string, q: char)
    requires PlainKey(k) && (q == '"' || q == '\'')
    ensures ParseLine(k + "=" + [q]) == Panic
  {
    var line := k + "=" + [q];
    assert line[0] == k[0] && line[|line| - 1] == q;
    TrimIdentity(line);
    SplitOnceAt(k, [q], '=');
    TrimIdentity([q]);
  }

  /** The assignments of a sequence of lines, applied in order over `vars`;
      `None` when a line aborts. */
  function ParseInto(vars: map<string, string>, lines: seq<string>): Option<map<string, string>>
    decreases |lines|
  {
    if lines == [] then Some(vars)
    else match ParseLine(lines[0])
      case Skip => ParseInto(vars, lines[1..])
      case Panic => None
      case Assign(k, v) => ParseInto(vars[k := v], lines[1..])
  }

  lemma ParseIntoStep(vars: map<string, string>, lines: seq<string>)
    requires lines != []
    ensures ParseInto(vars, lines)
            == match ParseLine(lines[0])
               case Skip => ParseInto(vars, lines[1..])
               case Panic => None
               case Assign(k, v) => ParseInto(vars[k := v], lines[1..])
  {
  }

  /** Parsing over existing variables overrides them with what the lines
      assign on their own: later files win. */
  lemma {:induction false} ParseIntoOverrides(vars: map<string, string>, lines: seq<string>)
    ensures ParseInto(vars, lines).Some? <==> ParseInto(map[], lines).Some?
    ensures ParseInto(vars, lines).Some? ==>
      ParseInto(vars, lines).value == vars + ParseInto(map[], lines).value
    decreases |lines|
  {
    if lines != [] {
      match ParseLine(lines[0])
      case Skip =>
        ParseIntoOverrides(vars, lines[1..]);
      case Panic =>
      case Assign(k, v) =>
        ParseIntoOverrides(vars[k := v], lines[1..]);
        ParseIntoOverrides(map[k := v], lines[1..]);
        if ParseInto(map[], lines[1..]).Some? {
          MergeUpdate(vars, k, v, ParseInto(map[], lines[1..]).value);
        }
    }
  }

  lemma MergeUpdate(a: map<string, string>, k: string, v: string, b: map<string, string>)
    ensures a[k := v] + b == a + (map[k := v] + b)
  {
  }

  /** The state of an env file. */
  datatype EnvFile = Absent | Unreadable | Text(content: string)

  datatype Loaded = Loaded(vars: map<string, string>) | Failed(error: Error) | Panicked

  /** Reading one file over `vars`: an absent file adds nothing. */
  function Layer(vars: map<string, string>, f: EnvFile): Loaded {
    match f
    case Absent => Loaded(vars)
    case Unreadable => Failed(Io)
    case Text(c) =>
      match ParseInto(vars, Lines(c))
      case None => Panicked
      case Some(m) => Loaded(m)
  }

  /** `.env` first, then the environment's own file. */
  function Layered(base: EnvFile, specific: EnvFile): Loaded {
    match Layer(map[], base)
    case Loaded(b) => Layer(b, specific)
    case other => other
  }

  /** A directory of env files by name. */
  function FileAt(dir: map<string, EnvFile>, name: string): EnvFile {
    if name in dir then dir[name] else Absent
  }

  /** The environment's own file wins: every variable it assigns has its
      value, and the others keep the value from `.env`. */
  lemma EnvironmentFileWins(base: string, specific: string)
    requires ParseInto(map[], Lines(base)).Some? && ParseInto(map[], Lines(specific)).Some?
    ensures Layered(Text(base), Text(specific))
            == Loaded(ParseInto(map[], Lines(base)).value + ParseInto(map[], Lines(specific)).value)
  {
    ParseIntoOverrides(ParseInto(map[], Lines(base)).value, Lines(specific));
  }

  // ----- interpolation -----

  function BracePattern(key: string): (p: string)
    ensures p != [] && p[0] == '$'
  {
    "${" + key + "}"
  }

  /** Every key's `${KEY}` replaced, key by key in `order`. */
  function BracePass(s: string, vars: map<string, string>, order: seq<string>): string
    requires forall k :: k in order ==> k in vars
    decreases |order|
  {
    if order == [] then s
    else
      var last := order[|order| - 1];
      ReplaceAll(BracePass(s, vars, order[..|order| - 1]), BracePattern(last), vars[last])
  }

  predicate IsIdentChar(c: char) {
    IsAlphanumeric(c) || c == '_'
  }

  /** Length of the identifier run that starts `s`. */
  function IdentRun(s: string): (n: nat)
    ensures n <= |s|
    ensures forall j :: 0 <= j < n ==> IsIdentChar(s[j])
    ensures n < |s| ==> !IsIdentChar(s[n])
    decreases |s|
  {
    if s != [] && IsIdentChar(s[0]) then 1 + IdentRun(s[1..]) else 0
  }

  /** One `$KEY` pass: each `$` takes the whole identifier run after it,
      which is replaced when it is the key and kept otherwise. */
  function DollarPass(s: string, key: string, val: string): string
    decreases |s|
  {
    if s == [] then []
    else if s[0] != '$' then [s[0]] + DollarPass(s[1..], key, val)
    else
      var n := IdentRun(s[1..]);
      var name := s[1..1 + n];
      (if name == key then val else if name != [] then "$" + name else "$")
      + DollarPass(s[1 + n..], key, val)
  }

  function DollarPasses(s: string, vars: map<string, string>, order: seq<string>): string
    requires forall k :: k in order ==> k in vars
    decreases |order|
  {
    if order == [] then s
    else
      var last := order[|order| - 1];
      DollarPass(DollarPasses(s, vars, order[..|order| - 1]), last, vars[last])
  }

  /** `interpolate`: all brace patterns first, then all dollar patterns. */
  function Interpolated(s: string, vars: map<string, string>, order: seq<string>): string
    requires forall k :: k in order ==> k in vars
  {
    DollarPasses(BracePass(s, vars, order), vars, order)
  }

  /** `order` is an iteration order of the map: each key exactly once. */
  ghost predicate IsKeyOrder(vars: map<string, string>, order: seq<string>) {
    && (forall k :: k in order <==> k in vars)
    && (forall i, j :: 0 <= i < j < |order| ==> order[i] != order[j])
  }

  /** A `$` followed by an identifier run is replaced exactly when the whole
      run is the key. */
  lemma DollarRun(w: string, rest: string, key: string, val: string)
    requires forall j :: 0 <= j < |w| ==> IsIdentChar(w[j])
    requires rest == [] || !IsIdentChar(rest[0])
    ensures DollarPass("$" + w + rest, key, val)
            == (if w == key then val else "$" + w) + DollarPass(rest, key, val)
  {
    var s := "$" + w + rest;
    assert s[1..] == w + rest;
    assert forall j :: 0 <= j < |w| ==> s[1..][j] == w[j];
    assert |w| < |s[1..]| ==> s[1..][|w|] == rest[0];
    var n := IdentRun(s[1..]);
    assert n == |w|;
    assert s[1..1 + n] == w;
    assert s[1 + n..] == rest;
    if w == [] {
      assert "$" + w == "$";
    }
  }

  lemma {:induction false} DollarPassNoDollar(s: string, key: string, val: string)
    requires '$' !in s
    ensures DollarPass(s, key, val) == s
    decreases |s|
  {
    if s != [] {
      assert s[0] in s;
      assert forall c :: c in s[1..] ==> c in s;
      DollarPassNoDollar(s[1..], key, val);
      assert [s[0]] + s[1..] == s;
    }
  }

  lemma {:induction false} BracePassNoDollar(s: string, vars: map<string, string>, order: seq<string>)
    requires forall k :: k in order ==> k in vars
    requires '$' !in s
    ensures BracePass(s, vars, order) == s
    decreases |order|
  {
    if order != [] {
      var last := order[|order| - 1];
      BracePassNoDollar(s, vars, order[..|order| - 1]);
      ReplaceAllAbsent(s, BracePattern(last), vars[last]);
    }
  }

  lemma {:induction false} DollarPassesNoDollar(s: string, vars: map<string, string>, order: seq<string>)
    requires forall k :: k in order ==> k in vars
    requires '$' !in s
    ensures DollarPasses(s, vars, order) == s
    decreases |order|
  {
    if order != [] {
      var last := order[|order| - 1];
      DollarPassesNoDollar(s, vars, order[..|order| - 1]);
      DollarPassNoDollar(s, last, vars[last]);
    }
  }

  /** Text without `$` is returned unchanged. */
  lemma InterpolateNoDollar(s: string, vars: map<string, string>, order: seq<string>)
    requires forall k :: k in order ==> k in vars
    requires '$' !in s
    ensures Interpolated(s, vars, order) == s
  {
    BracePassNoDollar(s, vars, order);
    DollarPassesNoDollar(s, vars, order);
  }

  /** `${KEY}` after text without `$` becomes the key's value. */
  lemma BraceReplaced(a: string, key: string, val: string, b: string)
    requires '$' !in a
    ensures ReplaceAll(a + BracePattern(key) + b, BracePattern(key), val)
            == a + val + ReplaceAll(b, BracePattern(key), val)
  {
    var p := BracePattern(key);
    ReplaceAllSkipPrefix(a, p + b, p, val);
    assert a + p + b == a + (p + b);
    assert p <= p + b;
    assert (p + b)[|p|..] == b;
  }

  /** `${KEY}` after text without `$` becomes the key's value
      ("Hello ${NAME}" reads "Hello World" when NAME is World). */
  lemma InterpolateBraces(a: string, key: string, val: string)
    requires '$' !in a && '$' !in val
    ensures Interpolated(a + BracePattern(key), map[key := val], [key]) == a + val
  {
    var vars := map[key := val];
    var order := [key];
    assert order[..0] == [];
    BraceReplaced(a, key, val, "");
    assert a + BracePattern(key) + "" == a + BracePattern(key);
    assert BracePass(a + BracePattern(key), vars, order) == a + val;
    assert '$' !in a + val;
    DollarPassNoDollar(a + val, key, val);
    assert DollarPasses(a + val, vars, order) == DollarPass(a + val, key, val);
  }

  /** `$KEY` at the end of text without `$` becomes the key's value
      ("Hello $NAME" reads "Hello World" when NAME is World). */
  lemma InterpolateDollar(a: string, key: string, val: string)
    requires '$' !in a && '$' !in val
    requires key != [] && forall j :: 0 <= j < |key| ==> IsIdentChar(key[j])
    ensures Interpolated(a + "$" + key, map[key := val], [key]) == a + val
  {
    var vars := map[key := val];
    var order := [key];
    var pat := BracePattern(key);
    assert order[..0] == [];
    assert '$' !in key;
    ReplaceAllSkipPrefix(a, "$" + key, pat, val);
    assert a + "$" + key == a + ("$" + key);
    assert pat[1] == '{' && ("$" + key)[1] == key[0];
    assert !(pat <= "$" + key);
    assert ("$" + key)[1..] == key;
    ReplaceAllAbsent(key, pat, val);
    assert ReplaceAll("$" + key, pat, val) == "$" + key;
    assert BracePass(a + "$" + key, vars, order) == a + "$" + key;
    DollarSkipPrefix(a, "$" + key, key, val);
    DollarRun(key, "", key, val);
    assert "$" + key + "" == "$" + key;
    assert DollarPass(a + "$" + key, key, val) == a + val;
    assert DollarPasses(a + "$" + key, vars, order) == DollarPass(a + "$" + key, key, val);
  }

  /** Text without `$` before a `$` passes through a dollar pass unchanged. */
  lemma {:induction false} DollarSkipPrefix(a: string, t: string, key: string, val: string)
    requires '$' !in a
    ensures DollarPass(a + t, key, val) == a + DollarPass(t, key, val)
    decreases |a|
  {
    if a != [] {
      assert a[0] in a;
      assert (a + t)[1..] == a[1..] + t;
      assert forall c :: c in a[1..] ==> c in a;
      DollarSkipPrefix(a[1..], t, key, val);
      assert [a[0]] + a[1..] == a;
    } else {
      assert a + t == t;
    }
  }

  /** The dollar pass from a `$` at `i` whose identifier run ends at `j`. */
  lemma DollarStep(s: string, i: nat, j: nat, key: string, val: string)
    requires i < j <= |s| && s[i] == '$'
    requires forall m :: i + 1 <= m < j ==> IsIdentChar(s[m])
    requires j == |s| || !IsIdentChar(s[j])
    ensures DollarPass(s[i..], key, val)
            == (if s[i + 1..j] == key then val else if s[i + 1..j] != [] then "$" + s[i + 1..j] else "$")
               + DollarPass(s[j..], key, val)
  {
    var t := s[i..];
    var u := s[i + 1..];
    assert t[1..] == u;
    assert forall m :: 0 <= m < j - i - 1 ==> u[m] == s[i + 1 + m];
    IdentRunUnique(u, j - i - 1);
    assert t[1..j - i] == s[i + 1..j];
    assert t[j - i..] == s[j..];
  }

  /** The identifier run is the one the characters determine. */
  lemma IdentRunUnique(u: string, k: nat)
    requires k <= |u| && forall m :: 0 <= m < k ==> IsIdentChar(u[m])
    requires k == |u| || !IsIdentChar(u[k])
    ensures IdentRun(u) == k
  {
  }

  /** A character other than `$` is copied by the dollar pass. */
  lemma DollarPlainStep(s: string, i: nat, key: string, val: string)
    requires i < |s| && s[i] != '$'
    ensures DollarPass(s[i..], key, val) == [s[i]] + DollarPass(s[i + 1..], key, val)
  {
    assert s[i..][1..] == s[i + 1..];
  }

  /** The inner loop of the `$KEY` scan: the identifier run from `start`,
      and where it ends. */
  method ReadIdent(s: string, start: nat) returns (j: nat, name: string)
    requires start <= |s|
    ensures start <= j <= |s| && name == s[start..j]
    ensures forall m :: start <= m < j ==> IsIdentChar(s[m])
    ensures j == |s| || !IsIdentChar(s[j])
  {
    j := start;
    name := [];
    while j < |s| && IsIdentChar(s[j])
      invariant start <= j <= |s|
      invariant name == s[start..j]
      invariant forall m :: start <= m < j ==> IsIdentChar(s[m])
      decreases |s| - j
    {
      name := name + [s[j]];
      j := j + 1;
    }
  }

  /** The character scan of one `$KEY` pass. */
  method ReplaceDollarVar(s: string, key: string, val: string) returns (out: string)
    ensures out == DollarPass(s, key, val)
  {
    out := [];
    var i := 0;
    while i < |s|
      invariant 0 <= i <= |s|
      invariant out + DollarPass(s[i..], key, val) == DollarPass(s, key, val)
    {
      var ch := s[i];
      if ch == '$' {
        var j, name := ReadIdent(s, i + 1);
        DollarStep(s, i, j, key, val);
        var piece: string;
        if name == key {
          piece := val;
        } else if name != [] {
          piece := "$" + name;
        } else {
          piece := "$";
        }
        AppendAssoc(out, piece, DollarPass(s[j..], key, val));
        out := out + piece;
        i := j;
      } else {
        DollarPlainStep(s, i, key, val);
        AppendAssoc(out, [ch], DollarPass(s[i + 1..], key, val));
        out := out + [ch];
        i := i + 1;
      }
    }
    assert s[i..] == [];
  }

  // ----- saving -----

  function Entry(vars: map<string, string>, k: string): string
    requires k in vars
  {
    k + "=" + vars[k] + "\n"
  }

  /** The file `save_to_file` writes: one `key=value` line per key. */
  function Serialize(vars: map<string, string>, order: seq<string>): string
    requires forall k :: k in order ==> k in vars
    decreases |order|
  {
    if order == [] then "" else Entry(vars, order[0]) + Serialize(vars, order[1..])
  }

  lemma {:induction false} SerializeSnoc(vars: map<string, string>, order: seq<string>, k: string)
    requires forall x :: x in order ==> x in vars
    requires k in vars
    ensures Serialize(vars, order + [k]) == Serialize(vars, order) + Entry(vars, k)
    decreases |order|
  {
    if order == [] {
      assert [k][1..] == [];
    } else {
      assert (order + [k])[1..] == order[1..] + [k];
      SerializeSnoc(vars, order[1..], k);
    }
  }

  /** A key that reads back as itself from a `key=value` line. */
  predicate PlainKey(k: string) {
    k != [] && '=' !in k && '\n' !in k && k[0] != '#'
    && !IsWhitespace(k[0]) && !IsWhitespace(k[|k| - 1])
  }

  /** A value that reads back as itself from a `key=value` line. */
  predicate PlainValue(v: string) {
    '\n' !in v && !Quoted(v)
    && (v == [] || (!IsWhitespace(v[0]) && !IsWhitespace(v[|v| - 1])))
  }

  lemma SplitOnceAt(k: string, v: string, c: char)
    requires c !in k
    ensures SplitOnce(k + [c] + v, c) == Some((k, v))
  {
    var s := k + [c] + v;
    assert forall j :: 0 <= j < |k| ==> s[j] == k[j];
    assert s[|k|] == c;
    assert IndexOf(s, c) == |k|;
    assert s[..|k|] == k && s[|k| + 1..] == v;
  }

  /** A plain line is read as the assignment it spells. */
  lemma ParsePlainLine(k: string, v: string)
    requires PlainKey(k) && PlainValue(v)
    ensures ParseLine(k + "=" + v) == Assign(k, v)
  {
    var line := k + "=" + v;
    assert line[0] == k[0];
    assert line[|line| - 1] == if v == [] then '=' else v[|v| - 1];
    TrimIdentity(line);
    SplitOnceAt(k, v, '=');
    TrimIdentity(k);
    TrimIdentity(v);
  }

  function Restrict(vars: map<string, string>, order: seq<string>): map<string, string> {
    map k | k in order && k in vars :: vars[k]
  }

  lemma RestrictCons(m: map<string, string>, vars: map<string, string>, order: seq<string>)
    requires order != [] && order[0] in vars
    ensures m[order[0] := vars[order[0]]] + Restrict(vars, order[1..]) == m + Restrict(vars, order)
  {
    var k := order[0];
    assert forall x :: x in order <==> x == k || x in order[1..];
  }

  lemma {:induction false} ParseSerialized(m: map<string, string>, vars: map<string, string>, order: seq<string>)
    requires forall k :: k in order ==> k in vars && PlainKey(k) && PlainValue(vars[k])
    ensures ParseInto(m, Lines(Serialize(vars, order))) == Some(m + Restrict(vars, order))
    decreases |order|
  {
    if order == [] {
      assert Restrict(vars, order) == map[];
      assert m + map[] == m;
    } else {
      var k := order[0];
      var line := k + "=" + vars[k];
      assert Serialize(vars, order) == line + "\n" + Serialize(vars, order[1..]);
      LinesCons(line, Serialize(vars, order[1..]));
      ParsePlainLine(k, vars[k]);
      ParseSerialized(m[k := vars[k]], vars, order[1..]);
      RestrictCons(m, vars, order);
    }
  }

  lemma RestrictAll(vars: map<string, string>, order: seq<string>)
    requires forall k :: k in vars ==> k in order
    ensures map[] + Restrict(vars, order) == vars
  {
  }

  /** Saving and loading again gives back the same variables, when keys and
      values are plain. */
  lemma SaveLoadRoundTrip(vars: map<string, string>, order: seq<string>)
    requires IsKeyOrder(vars, order)
    requires forall k :: k in vars ==> PlainKey(k) && PlainValue(vars[k])
    ensures Layer(map[], Text(Serialize(vars, order))) == Loaded(vars)
  {
    ParseSerialized(map[], vars, order);
    RestrictAll(vars, order);
  }

  /** The names of `required` that are not set, in order. */
  function Missing(vars: map<string, string>, required: seq<string>): (r: seq<string>)
    ensures forall x :: x in r <==> x in required && x !in vars
    decreases |required|
  {
    if required == [] then []
    else
      (if required[0] in vars then [] else [required[0]]) + Missing(vars, required[1..])
  }

  lemma MissingEmpty(vars: map<string, string>, required: seq<string>)
    ensures Missing(vars, required) == [] <==> forall i :: 0 <= i < |required| ==> required[i] in vars
  {
    var r := Missing(vars, required);
    if r != [] {
      assert r[0] in r;
    }
    if exists i :: 0 <= i < |required| && required[i] !in vars {
      var i :| 0 <= i < |required| && required[i] !in vars;
      assert required[i] in r;
    }
  }

  /** `EnvManager` */
  class EnvManager {
    var vars: map<string, string>

    constructor ()
      ensures vars == map[]
    {
      vars := map[];
    }

    /** `parse_env_content`; `false` where the program would abort. */
    method ParseEnvContent(content: string) returns (completed: bool)
      modifies this
      ensures completed <==> ParseInto(old(vars), Lines(content)).Some?
      ensures completed ==> vars == ParseInto(old(vars), Lines(content)).value
    {
      var lines := Lines(content);
      var i := 0;
      assert lines[i..] == lines;
      while i < |lines|
        invariant 0 <= i <= |lines|
        invariant ParseInto(vars, lines[i..]) == ParseInto(old(vars), lines)
        decreases |lines| - i
      {
        var e := ParseLine(lines[i]);
        ParseIntoStep(vars, lines[i..]);
        assert lines[i..][1..] == lines[i + 1..];
        if e.Panic? {
          return false;
        } else if e.Assign? {
          vars := vars[e.key := e.value];
        }
        i := i + 1;
      }
      return true;
    }

    /** `load_from_file` */
    static method LoadFromFile(f: EnvFile) returns (r: Loaded, m: EnvManager)
      ensures fresh(m)
      ensures r == Layer(map[], f)
      ensures r.Loaded? ==> m.vars == r.vars
    {
      m := new EnvManager();
      r := m.LoadLayer(f);
    }

    /** `load_for_environment`: `.env`, then `.env.{env}`. */
    static method LoadForEnvironment(dir: map<string, EnvFile>, env: string) returns (r: Loaded, m: EnvManager)
      ensures fresh(m)
      ensures r == Layered(FileAt(dir, ".env"), FileAt(dir, ".env." + env))
      ensures r.Loaded? ==> m.vars == r.vars
    {
      m := new EnvManager();
      r := m.LoadLayer(FileAt(dir, ".env"));
      if !r.Loaded? {
        return;
      }
      r := m.LoadLayer(FileAt(dir, ".env." + env));
    }

    /** Reads one file over the current variables when it exists. */
    method LoadLayer(f: EnvFile) returns (r: Loaded)
      modifies this
      ensures r == Layer(old(vars), f)
      ensures r.Loaded? ==> vars == r.vars
    {
      match f
      case Absent =>
        return Loaded(vars);
      case Unreadable =>
        return Failed(Io);
      case Text(c) =>
        var completed := ParseEnvContent(c);
        if !completed {
          return Panicked;
        }
        return Loaded(vars);
    }

    /** `get` */
    function Get(key: string): (r: Option<string>)
      reads this
      ensures r.Some? <==> key in vars
      ensures r.Some? ==> r.value == vars[key]
    {
      if key in vars then Some(vars[key]) else None
    }

    /** `get_or`: the default when the key is not set. */
    function GetOr(key: string, default: string): (r: string)
      reads this
      ensures key !in vars ==> r == default
      ensures key in vars ==> r == vars[key]
    {
      match Get(key)
      case Some(v) => v
      case None => default
    }

    /** `contains`: exactly the keys `get` finds. */
    function Contains(key: string): (b: bool)
      reads this
      ensures b <==> Get(key).Some?
    {
      key in vars
    }

    /** `set`: afterwards the key reads as the value and nothing else
        changes. */
    method Set(key: string, value: string)
      modifies this
      ensures vars == old(vars)[key := value]
      ensures Get(key) == Some(value) && Contains(key)
      ensures forall k :: k != key ==> Get(k) == old(Get(k))
    {
      vars := vars[key := value];
    }

    /** `interpolate`, iterating the variables in `order`. */
    method Interpolate(value: string, order: seq<string>) returns (r: Result<string>)
      requires IsKeyOrder(vars, order)
      ensures r == Ok(Interpolated(value, vars, order))
    {
      var braced := ReplaceBraces(value, order);
      var result := ReplaceDollars(braced, order);
      return Ok(result);
    }

    /** The first loop of `interpolate`: every `${KEY}`, key by key. */
    method ReplaceBraces(value: string, order: seq<string>) returns (result: string)
      requires forall k :: k in order ==> k in vars
      ensures result == BracePass(value, vars, order)
    {
      result := value;
      var i := 0;
      while i < |order|
        invariant 0 <= i <= |order|
        invariant result == BracePass(value, vars, order[..i])
      {
        var key := order[i];
        assert order[..i + 1][..i] == order[..i];
        result := ReplaceAll(result, BracePattern(key), vars[key]);
        i := i + 1;
      }
      assert order[..|order|] == order;
    }

    /** The second loop of `interpolate`: every `$KEY`, key by key. */
    method ReplaceDollars(braced: string, order: seq<string>) returns (result: string)
      requires forall k :: k in order ==> k in vars
      ensures result == DollarPasses(braced, vars, order)
    {
      result := braced;
      var i := 0;
      while i < |order|
        invariant 0 <= i <= |order|
        invariant result == DollarPasses(braced, vars, order[..i])
      {
        var key := order[i];
        assert order[..i + 1][..i] == order[..i];
        result := ReplaceDollarVar(result, key, vars[key]);
        i := i + 1;
      }
      assert order[..|order|] == order;
    }

    /** `validate_required`: an error naming every unset variable, in
        order, exactly when one is unset. */
    function ValidateRequired(required: seq<string>): (r: Result<()>)
      reads this
      ensures r.Err? <==> exists i :: 0 <= i < |required| && required[i] !in vars
      ensures r.Err? ==> r.error == InvalidConfig("Missing required environment variables: " + Join(Missing(vars, required), ", "))
    {
      var missing := Missing(vars, required);
      MissingEmpty(vars, required);
      if missing != [] then
        Err(InvalidConfig("Missing required environment variables: " + Join(missing, ", ")))
      else
        Ok(())
    }

    /** `save_to_file`, writing the variables in `order`; a read-only
        target refuses the write. */
    method SaveToFile(order: seq<string>, readOnly: bool) returns (r: Result<EnvFile>)
      requires IsKeyOrder(vars, order)
      ensures readOnly ==> r == Err(Io)
      ensures !readOnly ==> r == Ok(Text(Serialize(vars, order)))
    {
      var content := "";
      var i := 0;
      while i < |order|
        invariant 0 <= i <= |order|
        invariant content == Serialize(vars, order[..i])
      {
        var key := order[i];
        SerializeSnoc(vars, order[..i], key);
        assert order[..i + 1] == order[..i] + [key];
        content := content + key + "=" + vars[key] + "\n";
        i := i + 1;
      }
      assert order[..|order|] == order;
      if readOnly {
        return Err(Io);
      }
      return Ok(Text(content));
    }
  }
}
