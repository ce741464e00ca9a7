/** Test reports and the reading of `cargo test` output
    (crates/forgekit-core/src/testing.rs).

    Counters are `usize`: the model keeps them as naturals and treats an
    addition that would pass 2^64 - 1 as the overflow panic it is in a
    debug build. */
module Testing {
  import opened Common
  import opened Text

  /** `TestReport`; the duration is not modelled. */
  class TestReport {
    var total: nat
    var passed: nat
    var failed: nat
    var output: string

    /** The passed and failed counts add up to the total. */
    predicate Tallied()
      reads this
    {
      passed + failed == total
    }

    /** `TestReport::new` */
    constructor ()
      ensures total == 0 && passed == 0 && failed == 0 && output == []
      ensures Tallied() && AllPassed()
    {
      total := 0;
      passed := 0;
      failed := 0;
      output := [];
    }

    /** `all_passed`: on a tallied report, every test counted passed. */
    function AllPassed(): (b: bool)
      reads this
      ensures Tallied() ==> (b <==> passed == total)
    {
      failed == 0
    }
  }

  datatype Counts = Counts(passed: nat, failed: nat)

  /** A line that carries cargo's summary. */
  predicate IsSummary(line: string) {
    Contains(line, "test result:") && Contains(line, "ok.")
  }

  /** What the token at `i` does to the counts: a `passed` or `failed` word
      takes the number just before it, when that is a `usize`. */
  function TokenStep(parts: seq<string>, i: nat, c: Counts): Counts
    requires i < |parts|
  {
    if i > 0 && (parts[i] == "passed" || parts[i] == "passed;") then
      match ParseUsize(parts[i - 1])
      case Some(v) => c.(passed := v)
      case None => c
    else if i > 0 && (parts[i] == "failed" || parts[i] == "failed;") then
      match ParseUsize(parts[i - 1])
      case Some(v) => c.(failed := v)
      case None => c
    else c
  }

  /** The counts after the first `n` tokens. */
  function ScanTokens(parts: seq<string>, n: nat, c: Counts): Counts
    requires n <= |parts|
    decreases n
  {
    if n == 0 then c else TokenStep(parts, n - 1, ScanTokens(parts, n - 1, c))
  }

  /** One line: the summary's numbers, then one more failure if the line
      says `FAILED`; `None` when that increment overflows. */
  function ScanLine(line: string, c: Counts): Option<Counts> {
    var parts := SplitWhitespace(line);
    var c1 := if IsSummary(line) then ScanTokens(parts, |parts|, c) else c;
    if Contains(line, "FAILED") then
      if c1.failed == USIZE_MAX then None else Some(c1.(failed := c1.failed + 1))
    else Some(c1)
  }

  function ScanLines(lines: seq<string>, c: Counts): Option<Counts>
    decreases |lines|
  {
    if lines == [] then Some(c)
    else match ScanLine(lines[0], c)
      case None => None
      case Some(c1) => ScanLines(lines[1..], c1)
  }

  datatype Totals = Totals(total: nat, passed: nat, failed: nat)

  /** What `parse_test_output` writes into the report, or `None` where it
      overflows. Without counts, the total is the number of `"test "`
      occurrences and all of them count as passed. */
  function Summarize(output: string): Option<Totals> {
    match ScanLines(Lines(output), Counts(0, 0))
    case None => None
    case Some(c) =>
      if c.passed + c.failed > USIZE_MAX then None
      else if c.passed + c.failed > 0 then Some(Totals(c.passed + c.failed, c.passed, c.failed))
      else
        var t := CountMatches(output, "test ");
        Some(Totals(t, t, 0))
  }

  /** The token loop of `parse_test_output` over one summary line. */
  method ScanSummaryTokens(parts: seq<string>, passed0: nat, failed0: nat) returns (passed: nat, failed: nat)
    ensures Counts(passed, failed) == ScanTokens(parts, |parts|, Counts(passed0, failed0))
  {
    passed, failed := passed0, failed0;
    var j := 0;
    while j < |parts|
      invariant 0 <= j <= |parts|
      invariant Counts(passed, failed) == ScanTokens(parts, j, Counts(passed0, failed0))
    {
      assert ScanTokens(parts, j + 1, Counts(passed0, failed0)) == TokenStep(parts, j, Counts(passed, failed));
      if j > 0 && (parts[j] == "passed" || parts[j] == "passed;") {
        var count := ParseUsize(parts[j - 1]);
        if count.Some? {
          passed := count.value;
        }
      } else if j > 0 && (parts[j] == "failed" || parts[j] == "failed;") {
        var count := ParseUsize(parts[j - 1]);
        if count.Some? {
          failed := count.value;
        }
      }
      j := j + 1;
    }
  }

  /** The body of the line loop of `parse_test_output`: the summary's
      numbers, then the `FAILED` increment; `false` where it overflows. */
  method ScanOutputLine(line: string, passed0: nat, failed0: nat) returns (ok: bool, passed: nat, failed: nat)
    ensures ok <==> ScanLine(line, Counts(passed0, failed0)).Some?
    ensures ok ==> ScanLine(line, Counts(passed0, failed0)) == Some(Counts(passed, failed))
  {
    passed, failed := passed0, failed0;
    if Contains(line, "test result:") && Contains(line, "ok.") {
      passed, failed := ScanSummaryTokens(SplitWhitespace(line), passed, failed);
    }
    if Contains(line, "FAILED") {
      if failed == USIZE_MAX {
        return false, passed, failed;
      }
      failed := failed + 1;
    }
    ok := true;
  }

  /** `parse_test_output`; `false` where the program would panic on
      overflow. */
  method ParseTestOutput(output: string, report: TestReport) returns (completed: bool)
    modifies report
    ensures completed <==> Summarize(output).Some?
    ensures completed ==>
      var t := Summarize(output).value;
      report.total == t.total && report.passed == t.passed && report.failed == t.failed
    ensures completed ==> report.Tallied()
    ensures report.output == old(report.output)
  {
    var passed: nat := 0;
    var failed: nat := 0;
    var lines := Lines(output);
    var i := 0;
    assert lines[i..] == lines;
    while i < |lines|
      invariant 0 <= i <= |lines|
      invariant report.output == old(report.output)
      invariant ScanLines(lines[i..], Counts(passed, failed)) == ScanLines(lines, Counts(0, 0))
      decreases |lines| - i
    {
      ghost var c := Counts(passed, failed);
      assert ScanLines(lines[i..], c) == match ScanLine(lines[i], c)
        case None => None
        case Some(c1) => ScanLines(lines[i + 1..], c1);
      var ok;
      ok, passed, failed := ScanOutputLine(lines[i], passed, failed);
      if !ok {
        return false;
      }
      i := i + 1;
    }
    if passed + failed > USIZE_MAX {
      return false;
    }
    report.passed := passed;
    report.failed := failed;
    report.total := passed + failed;
    if report.total == 0 {
      report.total := CountMatches(output, "test ");
      report.passed := report.total - failed;
    }
    return true;
  }

  // ----- properties -----

  predicate NoWhitespace(w: string) {
    forall i :: 0 <= i < |w| ==> !IsWhitespace(w[i])
  }

  lemma WordLengthOf(w: string, rest: string)
    requires NoWhitespace(w)
    requires rest == [] || IsWhitespace(rest[0])
    ensures WordLength(w + rest) == |w|
  {
    var s := w + rest;
    assert forall i :: 0 <= i < |w| ==> s[i] == w[i];
    assert rest != [] ==> s[|w|] == rest[0];
  }

  /** A word followed by a space is split off as one token. */
  lemma SplitWord(w: string, rest: string)
    requires w != [] && NoWhitespace(w)
    ensures SplitWhitespace(w + " " + rest) == [w] + SplitWhitespace(rest)
  {
    var s := w + " " + rest;
    assert s[0] == w[0];
    assert TrimStart(s) == s;
    WordLengthOf(w, " " + rest);
    assert w + " " + rest == w + (" " + rest);
    assert s[..|w|] == w;
    assert s[|w|..] == " " + rest;
    var t := " " + rest;
    assert t[1..] == rest;
    assert TrimStart(t) == TrimStart(rest);
  }

  lemma SplitLastWord(w: string)
    requires w != [] && NoWhitespace(w)
    ensures SplitWhitespace(w) == [w]
  {
    assert TrimStart(w) == w;
    WordLengthOf(w, []);
    assert w + [] == w;
    assert w[|w|..] == [];
  }

  /** Words separated by single spaces. */
  function Spaced(ws: seq<string>): string
    decreases |ws|
  {
    if ws == [] then []
    else if |ws| == 1 then ws[0]
    else ws[0] + " " + Spaced(ws[1..])
  }

  /** Splitting words joined by spaces gives the words back. */
  lemma {:induction false} SplitSpaced(ws: seq<string>)
    requires forall i :: 0 <= i < |ws| ==> ws[i] != [] && NoWhitespace(ws[i])
    ensures SplitWhitespace(Spaced(ws)) == ws
    decreases |ws|
  {
    if |ws| == 1 {
      SplitLastWord(ws[0]);
    } else if |ws| > 1 {
      var tail := ws[1..];
      assert forall i :: 0 <= i < |tail| ==> tail[i] == ws[i + 1];
      SplitSpaced(tail);
      SplitWord(ws[0], Spaced(tail));
      SpacedCons(ws);
    }
  }

  lemma SpacedCons(ws: seq<string>)
    requires |ws| > 1
    ensures Spaced(ws) == ws[0] + " " + Spaced(ws[1..])
    ensures ws == [ws[0]] + ws[1..]
  {
  }

  lemma {:induction false} SpacedAvoids(ws: seq<string>, c: char)
    requires c != ' ' && forall i :: 0 <= i < |ws| ==> c !in ws[i]
    ensures c !in Spaced(ws)
    decreases |ws|
  {
    if |ws| > 1 {
      SpacedAvoids(ws[1..], c);
    }
  }

  /** The words of the summary line cargo prints for `p` passed and `f`
      failed tests. */
  function SummaryWords(p: nat, f: nat): seq<string> {
    ["test", "result:", "ok.", NatToString(p), "passed;", NatToString(f), "failed"]
  }

  function SummaryLine(p: nat, f: nat): string {
    Spaced(SummaryWords(p, f))
  }

  lemma SummaryWordsPlain(p: nat, f: nat)
    ensures forall i :: 0 <= i < 7 ==> SummaryWords(p, f)[i] != [] && NoWhitespace(SummaryWords(p, f)[i])
    ensures forall i :: 0 <= i < 7 ==> 'F' !in SummaryWords(p, f)[i] && '\n' !in SummaryWords(p, f)[i]
  {
    DigitsNoWhitespace(p);
    DigitsNoWhitespace(f);
  }

  lemma SummaryIsSummary(p: nat, f: nat)
    ensures IsSummary(SummaryLine(p, f))
  {
    var ws := SummaryWords(p, f);
    var x2 := Spaced(ws[2..]);
    assert ws[1..][1..] == ws[2..];
    assert Spaced(ws[1..]) == "result:" + " " + x2;
    assert SummaryLine(p, f) == "test" + " " + ("result:" + " " + x2);
    assert SummaryLine(p, f) == "test result:" + (" " + x2);
    assert ws[2..][1..] == ws[3..];
    assert x2 == "ok." + " " + Spaced(ws[3..]);
    assert Contains(x2, "ok.");
    assert SummaryLine(p, f) == "test result: " + x2;
    ContainsAppend("test result: ", x2, "ok.");
  }

  lemma DigitsNoWhitespace(n: nat)
    ensures NoWhitespace(NatToString(n)) && 'F' !in NatToString(n) && '\n' !in NatToString(n)
    ensures NatToString(n)[0] != 'p' && NatToString(n)[0] != 'f'
  {
    var d := NatToString(n);
    forall i | 0 <= i < |d|
      ensures !IsWhitespace(d[i]) && d[i] != 'F' && d[i] != '\n'
    {
      assert IsAsciiDigit(d[i]);
    }
    assert IsAsciiDigit(d[0]);
  }

  /** The counts the summary's tokens set. */
  lemma SummaryTokensSet(p: nat, f: nat, c: Counts)
    requires p <= USIZE_MAX && f <= USIZE_MAX
    ensures ScanTokens(SummaryWords(p, f), 7, c) == Counts(p, f)
  {
    var ws := SummaryWords(p, f);
    ParseUsizeNatToString(p);
    ParseUsizeNatToString(f);
    DigitsNoWhitespace(p);
    DigitsNoWhitespace(f);
    ScanKeeps(ws, 0, c);
    ScanKeeps(ws, 1, c);
    ScanKeeps(ws, 2, c);
    ScanKeeps(ws, 3, c);
    ScanTakes(ws, 4, c);
    ScanKeeps(ws, 5, c);
    ScanTakes(ws, 6, c);
  }

  /** A token that is not a count word leaves the counts alone. */
  lemma ScanKeeps(parts: seq<string>, n: nat, c: Counts)
    requires n < |parts|
    requires n == 0 || (parts[n] != "passed" && parts[n] != "passed;" && parts[n] != "failed" && parts[n] != "failed;")
    ensures ScanTokens(parts, n + 1, c) == ScanTokens(parts, n, c)
  {
  }

  /** A count word takes the number before it. */
  lemma ScanTakes(parts: seq<string>, n: nat, c: Counts)
    requires 0 < n < |parts| && ParseUsize(parts[n - 1]).Some?
    ensures parts[n] == "passed;" ==>
      ScanTokens(parts, n + 1, c) == ScanTokens(parts, n, c).(passed := ParseUsize(parts[n - 1]).value)
    ensures parts[n] == "failed" ==>
      ScanTokens(parts, n + 1, c) == ScanTokens(parts, n, c).(failed := ParseUsize(parts[n - 1]).value)
  {
  }

  /** The summary line sets both counts, whatever was counted before. */
  lemma SummaryLineSets(p: nat, f: nat, c: Counts)
    requires p <= USIZE_MAX && f <= USIZE_MAX
    ensures ScanLine(SummaryLine(p, f), c) == Some(Counts(p, f))
  {
    var line := SummaryLine(p, f);
    SummaryWordsPlain(p, f);
    SplitSpaced(SummaryWords(p, f));
    SummaryTokensSet(p, f, c);
    SummaryIsSummary(p, f);
    SpacedAvoids(SummaryWords(p, f), 'F');
    NotContainsFirst(line, "FAILED");
  }

  /** Reading back the summary cargo prints gives its counts, as long as
      some test ran. */
  lemma SummaryRoundTrip(p: nat, f: nat)
    requires 0 < p + f <= USIZE_MAX
    ensures Summarize(SummaryLine(p, f)) == Some(Totals(p + f, p, f))
  {
    var line := SummaryLine(p, f);
    SummaryWordsPlain(p, f);
    SpacedAvoids(SummaryWords(p, f), '\n');
    SpacedCons(SummaryWords(p, f));
    OneLine(line, Counts(0, 0));
    SummaryLineSets(p, f, Counts(0, 0));
  }

  /** Text without a newline is a single line, scanned once. */
  lemma OneLine(line: string, c: Counts)
    requires line != [] && '\n' !in line
    ensures Lines(line) == [line]
    ensures ScanLines([line], c) == ScanLine(line, c)
  {
    assert IndexOf(line, '\n') == |line|;
    assert [line][1..] == [];
  }

  /** The lines that say `FAILED`. */
  function FailedLines(lines: seq<string>): nat
    decreases |lines|
  {
    if lines == [] then 0 else (if Contains(lines[0], "FAILED") then 1 else 0) + FailedLines(lines[1..])
  }

  /** Without a summary line, each line saying `FAILED` is one failure and
      nothing is counted as passed. */
  lemma {:induction false} FailedLinesCounted(lines: seq<string>, c: Counts)
    requires forall i :: 0 <= i < |lines| ==> !IsSummary(lines[i])
    requires c.failed + FailedLines(lines) <= USIZE_MAX
    ensures ScanLines(lines, c) == Some(Counts(c.passed, c.failed + FailedLines(lines)))
    decreases |lines|
  {
    if lines != [] {
      assert !IsSummary(lines[0]);
      assert forall i :: 0 <= i < |lines| - 1 ==> lines[1..][i] == lines[i + 1];
      var c1 := ScanLine(lines[0], c).value;
      FailedLinesCounted(lines[1..], c1);
    }
  }
}
