/** The parts of Rust's `str` API that the core relies on, written over
    `seq<char>`: prefix tests, `contains`, `replace`, `trim`, `lines`,
    `split_whitespace`, `split_once`, `matches(..).count()` and
    `parse::<usize>()`. */
module Text {
  import opened Common

  /** `s.ends_with(p)` */
  predicate IsSuffix(p: string, s: string) {
    |p| <= |s| && s[|s| - |p|..] == p
  }

  /** `s.contains(q)`: `q` occurs in `s` at some position. */
  predicate Contains(s: string, q: string)
    decreases |s|
  {
    q <= s || (s != [] && Contains(s[1..], q))
  }

  /** A character absent from `s` starts no occurrence of anything in `s`. */
  lemma {:induction false} NotContainsFirst(s: string, q: string)
    requires q != [] && q[0] !in s
    ensures !Contains(s, q)
    decreases |s|
  {
    if s != [] {
      assert s[0] in s;
      assert forall c :: c in s[1..] ==> c in s;
      NotContainsFirst(s[1..], q);
    }
  }

  /** An occurrence inside the tail is an occurrence inside the whole. */
  lemma {:induction false} ContainsAppend(a: string, s: string, q: string)
    requires Contains(s, q)
    ensures Contains(a + s, q)
    decreases |a|
  {
    if a != [] {
      assert (a + s)[1..] == a[1..] + s;
      ContainsAppend(a[1..], s, q);
      assert Contains((a + s)[1..], q);
    } else {
      assert a + s == s;
    }
  }

  /** `s.replace(pat, rep)`: occurrences are replaced left to right and do
      not overlap. */
  function ReplaceAll(s: string, pat: string, rep: string): string
    requires pat != []
    decreases |s|
  {
    if s == [] then []
    else if pat <= s then rep + ReplaceAll(s[|pat|..], pat, rep)
    else [s[0]] + ReplaceAll(s[1..], pat, rep)
  }

  /** Replacing a pattern whose first character does not occur changes nothing. */
  lemma {:induction false} ReplaceAllAbsent(s: string, pat: string, rep: string)
    requires pat != [] && pat[0] !in s
    ensures ReplaceAll(s, pat, rep) == s
    decreases |s|
  {
    if s != [] {
      assert s[0] in s;
      assert forall c :: c in s[1..] ==> c in s;
      ReplaceAllAbsent(s[1..], pat, rep);
    }
  }

  /** A prefix free of the pattern's first character passes through unchanged. */
  lemma {:induction false} ReplaceAllSkipPrefix(a: string, t: string, pat: string, rep: string)
    requires pat != [] && pat[0] !in a
    ensures ReplaceAll(a + t, pat, rep) == a + ReplaceAll(t, pat, rep)
    decreases |a|
  {
    if a != [] {
      assert a[0] in a;
      assert !(pat <= a + t);
      assert (a + t)[1..] == a[1..] + t;
      assert forall c :: c in a[1..] ==> c in a;
      ReplaceAllSkipPrefix(a[1..], t, pat, rep);
      calc {
        ReplaceAll(a + t, pat, rep);
        [a[0]] + ReplaceAll(a[1..] + t, pat, rep);
        [a[0]] + (a[1..] + ReplaceAll(t, pat, rep));
        { assert [a[0]] + a[1..] == a; }
        a + ReplaceAll(t, pat, rep);
      }
    } else {
      assert a + t == t;
    }
  }

  /** `char::is_whitespace`: the Unicode White_Space property. */
  predicate IsWhitespace(c: char) {
    || ('\t' <= c <= '\r')
    || c == ' '
    || c == '\U{0085}'
    || c == '\U{00A0}'
    || c == '\U{1680}'
    || ('\U{2000}' <= c <= '\U{200A}')
    || c == '\U{2028}'
    || c == '\U{2029}'
    || c == '\U{202F}'
    || c == '\U{205F}'
    || c == '\U{3000}'
  }

  /** `char::is_alphanumeric`, restricted to ASCII letters and digits. */
  predicate IsAlphanumeric(c: char) {
    ('a' <= c <= 'z') || ('A' <= c <= 'Z') || ('0' <= c <= '9')
  }

  predicate IsAsciiDigit(c: char) {
    '0' <= c <= '9'
  }

  /** `s.trim_start()` */
  function TrimStart(s: string): (r: string)
    ensures |r| <= |s| && r == s[|s| - |r|..]
    ensures r == [] || !IsWhitespace(r[0])
    ensures forall i :: 0 <= i < |s| - |r| ==> IsWhitespace(s[i])
    decreases |s|
  {
    if s != [] && IsWhitespace(s[0]) then TrimStart(s[1..]) else s
  }

  /** `s.trim_end()` */
  function TrimEnd(s: string): (r: string)
    ensures |r| <= |s| && r == s[..|r|]
    ensures r == [] || !IsWhitespace(r[|r| - 1])
    ensures forall i :: |r| <= i < |s| ==> IsWhitespace(s[i])
    decreases |s|
  {
    if s != [] && IsWhitespace(s[|s| - 1]) then TrimEnd(s[..|s| - 1]) else s
  }

  /** `s.trim()` */
  function Trim(s: string): (r: string)
    ensures r == [] || (!IsWhitespace(r[0]) && !IsWhitespace(r[|r| - 1]))
  {
    TrimEnd(TrimStart(s))
  }

  /** A string that neither starts nor ends with whitespace is its own trim. */
  lemma TrimIdentity(s: string)
    requires s == [] || (!IsWhitespace(s[0]) && !IsWhitespace(s[|s| - 1]))
    ensures Trim(s) == s
  {
  }

  /** Position of the first `c` in `s`, or `|s|` if there is none. */
  function IndexOf(s: string, c: char): (i: nat)
    ensures i <= |s|
    ensures i < |s| ==> s[i] == c
    ensures forall j :: 0 <= j < i ==> s[j] != c
    decreases |s|
  {
    if s == [] then 0 else if s[0] == c then 0 else 1 + IndexOf(s[1..], c)
  }

  /** `s.lines()`, splitting at '\n'. A final '\n' does not start another
      line; the empty string has no lines. */
  function Lines(s: string): (ls: seq<string>)
    ensures forall k :: 0 <= k < |ls| ==> '\n' !in ls[k]
    decreases |s|
  {
    if s == [] then []
    else
      var i := IndexOf(s, '\n');
      if i == |s| then [s] else [s[..i]] + Lines(s[i + 1..])
  }

  /** A line followed by '\n' contributes exactly that line. */
  lemma LinesCons(line: string, rest: string)
    requires '\n' !in line
    ensures Lines(line + "\n" + rest) == [line] + Lines(rest)
  {
    var s := line + "\n" + rest;
    assert forall j :: 0 <= j < |line| ==> s[j] == line[j];
    assert s[|line|] == '\n';
    assert IndexOf(s, '\n') == |line|;
    assert s[..|line|] == line;
    assert s[|line| + 1..] == rest;
  }

  /** Length of the longest prefix of `s` made of non-whitespace characters. */
  function WordLength(s: string): (n: nat)
    ensures n <= |s|
    ensures forall j :: 0 <= j < n ==> !IsWhitespace(s[j])
    ensures n < |s| ==> IsWhitespace(s[n])
    decreases |s|
  {
    if s == [] || IsWhitespace(s[0]) then 0 else 1 + WordLength(s[1..])
  }

  /** `s.split_whitespace()`: the maximal non-whitespace runs, in order. */
  function SplitWhitespace(s: string): (ws: seq<string>)
    ensures forall k :: 0 <= k < |ws| ==> ws[k] != []
    decreases |s|
  {
    var t := TrimStart(s);
    if t == [] then []
    else
      var n := WordLength(t);
      [t[..n]] + SplitWhitespace(t[n..])
  }

  /** `s.split_once(c)`: the text before and after the first `c`. */
  function SplitOnce(s: string, c: char): (r: Option<(string, string)>)
    ensures r.None? <==> c !in s
    ensures r.Some? ==> c !in r.value.0 && s == r.value.0 + [c] + r.value.1
  {
    var i := IndexOf(s, c);
    if i == |s| then None
    else
      assert s == s[..i] + [c] + s[i + 1..];
      Some((s[..i], s[i + 1..]))
  }

  /** `s.split(c).next().unwrap_or("")`: the text before the first `c`. */
  function FirstField(s: string, c: char): (r: string)
    ensures r <= s && c !in r
    ensures r == s || s[|r|] == c
  {
    s[..IndexOf(s, c)]
  }

  /** `s.matches(pat).count()`: non-overlapping occurrences, leftmost first. */
  function CountMatches(s: string, pat: string): nat
    requires pat != []
    decreases |s|
  {
    if s == [] then 0
    else if pat <= s then 1 + CountMatches(s[|pat|..], pat)
    else CountMatches(s[1..], pat)
  }

  /** `parts.join(sep)` */
  function Join(parts: seq<string>, sep: string): string
    decreases |parts|
  {
    if parts == [] then []
    else if |parts| == 1 then parts[0]
    else parts[0] + sep + Join(parts[1..], sep)
  }

  const USIZE_MAX: nat := 0xFFFF_FFFF_FFFF_FFFF

  /** Value of a string of ASCII digits, most significant first. */
  function DecimalValue(ds: string): nat
    requires forall i :: 0 <= i < |ds| ==> IsAsciiDigit(ds[i])
    decreases |ds|
  {
    if ds == [] then 0
    else
      assert IsAsciiDigit(ds[|ds| - 1]);
      DecimalValue(ds[..|ds| - 1]) * 10 + (ds[|ds| - 1] as int - '0' as int)
  }

  /** `s.parse::<usize>()` on a 64-bit target: an optional '+', then one or
      more ASCII digits, with a value that fits in 64 bits. */
  function ParseUsize(s: string): (r: Option<nat>)
    ensures r.Some? ==> r.value <= USIZE_MAX
    ensures s == [] ==> r.None?
  {
    var ds := if s != [] && s[0] == '+' then s[1..] else s;
    if ds == [] || exists i :: 0 <= i < |ds| && !IsAsciiDigit(ds[i]) then None
    else
      var v := DecimalValue(ds);
      if v <= USIZE_MAX then Some(v) else None
  }

  /** Decimal rendering of a natural number (Rust's `Display` for integers). */
  function NatToString(n: nat): (s: string)
    ensures s != [] && forall i :: 0 <= i < |s| ==> IsAsciiDigit(s[i])
    ensures DecimalValue(s) == n
    decreases n
  {
    var d := [('0' as int + n % 10) as char];
    if n < 10 then d
    else
      var s := NatToString(n / 10) + d;
      assert s[..|s| - 1] == NatToString(n / 10);
      s
  }

  /** Any number a report could print is parsed back by `parse::<usize>()`. */
  lemma ParseUsizeNatToString(n: nat)
    requires n <= USIZE_MAX
    ensures ParseUsize(NatToString(n)) == Some(n)
  {
    var s := NatToString(n);
    assert s[0] != '+';
  }
}
