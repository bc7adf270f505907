/** The `LeetCodeTester` object's bookkeeping: the cases and expected outputs
    it reads from the two files (given here as their lines), and the run over
    all cases. */
module Testing {
  import opened Values
  import opened Text
  import opened Literal
  import opened Invocation

  /** The state of the grouping loop of `parse_input_file`: the cases
      finished so far and the case being collected. */
  datatype Grouping = Grouping(cases: seq<seq<Value>>, current: seq<Value>)

  /** Each line as `line.strip()` leaves it. */
  function Stripped(lines: seq<string>): (r: seq<string>)
    ensures |r| == |lines|
  {
    if lines == [] then [] else Stripped(lines[..|lines| - 1]) + [Strip(lines[|lines| - 1])]
  }

  /** Stripping the lines of two pieces of a file one after the other. */
  lemma {:induction false} StrippedAppend(a: seq<string>, b: seq<string>)
    ensures Stripped(a + b) == Stripped(a) + Stripped(b)
  {
    if b == [] {
      assert a + b == a;
      assert Stripped(a) + [] == Stripped(a);
    } else {
      var front, last := b[..|b| - 1], b[|b| - 1];
      assert b == front + [last];
      assert (a + b)[..|a + b| - 1] == a + front;
      assert (a + b)[|a + b| - 1] == last;
      StrippedAppend(a, front);
      var sa, sf := Stripped(a), Stripped(front);
      assert sa + (sf + [Strip(last)]) == (sa + sf) + [Strip(last)];
    }
  }

  /** The grouping loop run over lines already stripped: a blank line closes
      a non-empty current case, any other line adds its value to it. */
  function Group(stripped: seq<string>, parse: string -> Value): Grouping {
    if stripped == [] then Grouping([], [])
    else Read(Group(stripped[..|stripped| - 1], parse), stripped[|stripped| - 1], parse)
  }

  /** One pass of the grouping loop's body, on the stripped line. */
  function Read(g: Grouping, line: string, parse: string -> Value): Grouping {
    if line == "" then
      if g.current != [] then Grouping(g.cases + [g.current], []) else g
    else Grouping(g.cases, g.current + [parse(line)])
  }

  /** The grouping state after the given lines of the file. */
  function Scan(lines: seq<string>, parse: string -> Value): Grouping {
    Group(Stripped(lines), parse)
  }

  /** The cases `parse_input_file` stores: the groups, the last one closed at
      the end of the file. */
  function Cases(lines: seq<string>, parse: string -> Value): seq<seq<Value>> {
    Close(Scan(lines, parse))
  }

  /** The end of the file: a case still open is stored. */
  function Close(g: Grouping): seq<seq<Value>> {
    if g.current != [] then g.cases + [g.current] else g.cases
  }

  /** The values of the non-blank lines, in file order. */
  function ParsedNonBlank(lines: seq<string>, parse: string -> Value): (r: seq<Value>)
    ensures |r| <= |lines|
  {
    if lines == [] then []
    else
      var rest := ParsedNonBlank(lines[..|lines| - 1], parse);
      var line := Strip(lines[|lines| - 1]);
      if line == "" then rest else rest + [parse(line)]
  }

  /** The cases laid end to end. */
  function Flatten(cases: seq<seq<Value>>): seq<Value> {
    if cases == [] then [] else Flatten(cases[..|cases| - 1]) + cases[|cases| - 1]
  }

  lemma FlattenSnoc(cases: seq<seq<Value>>, c: seq<Value>)
    ensures Flatten(cases + [c]) == Flatten(cases) + c
  {
    assert (cases + [c])[..|cases|] == cases;
  }

  lemma GroupSnoc(stripped: seq<string>, line: string, parse: string -> Value)
    ensures Group(stripped + [line], parse) == Read(Group(stripped, parse), line, parse)
  {
    assert (stripped + [line])[..|stripped|] == stripped;
  }

  /** One more line read: `Scan` of the lines so far and one line more. */
  lemma ScanSnoc(lines: seq<string>, raw: string, parse: string -> Value)
    ensures Scan(lines + [raw], parse) == Read(Scan(lines, parse), Strip(raw), parse)
  {
    assert (lines + [raw])[..|lines|] == lines;
    GroupSnoc(Stripped(lines), Strip(raw), parse);
  }

  /** The same step, on the prefixes of a sequence of lines. */
  lemma ScanStep(lines: seq<string>, k: nat, parse: string -> Value)
    requires k < |lines|
    ensures Scan(lines[..k + 1], parse) == Read(Scan(lines[..k], parse), Strip(lines[k]), parse)
  {
    assert lines[..k + 1] == lines[..k] + [lines[k]];
    ScanSnoc(lines[..k], lines[k], parse);
  }

  /** While scanning, the current case is non-empty exactly after a
      non-blank line. */
  lemma ScanCurrent(lines: seq<string>, parse: string -> Value)
    ensures Scan(lines, parse).current != [] <==> lines != [] && Strip(lines[|lines| - 1]) != ""
  {
    if lines == [] {
      assert Stripped(lines) == [];
    } else {
      var front := lines[..|lines| - 1];
      assert lines == front + [lines[|lines| - 1]];
      ScanSnoc(front, lines[|lines| - 1], parse);
    }
  }

  /** While scanning, no finished case is empty. */
  lemma {:induction false} ScanCasesNonEmpty(lines: seq<string>, parse: string -> Value)
    ensures forall k | 0 <= k < |Scan(lines, parse).cases| :: Scan(lines, parse).cases[k] != []
  {
    if lines == [] {
      assert Stripped(lines) == [];
    } else {
      var pre := lines[..|lines| - 1];
      assert pre + [lines[|lines| - 1]] == lines;
      ScanCasesNonEmpty(pre, parse);
      ScanSnoc(pre, lines[|lines| - 1], parse);
      ReadCasesNonEmpty(Scan(pre, parse), Strip(lines[|lines| - 1]), parse);
    }
  }

  /** One line read never stores an empty case. */
  lemma ReadCasesNonEmpty(g: Grouping, line: string, parse: string -> Value)
    requires forall k | 0 <= k < |g.cases| :: g.cases[k] != []
    ensures forall k | 0 <= k < |Read(g, line, parse).cases| :: Read(g, line, parse).cases[k] != []
  {
    if line == "" && g.current != [] {
      var cs := g.cases + [g.current];
      forall k | 0 <= k < |cs| ensures cs[k] != [] {
        if k < |g.cases| {
          assert cs[k] == g.cases[k];
        }
      }
    }
  }

  /** While scanning, the finished cases and the current one hold the values
      of the non-blank lines read so far, in order. */
  lemma {:induction false} ScanKeepsValues(lines: seq<string>, parse: string -> Value)
    ensures var g := Scan(lines, parse);
      Flatten(g.cases) + g.current == ParsedNonBlank(lines, parse)
  {
    if lines == [] {
      assert Stripped(lines) == [];
    } else {
      var pre := lines[..|lines| - 1];
      ScanKeepsValues(pre, parse);
      assert pre + [lines[|lines| - 1]] == lines;
      KeepsValuesStep(pre, lines[|lines| - 1], parse);
    }
  }

  lemma KeepsValuesStep(pre: seq<string>, last: string, parse: string -> Value)
    requires var g := Scan(pre, parse);
      Flatten(g.cases) + g.current == ParsedNonBlank(pre, parse)
    ensures var g := Scan(pre + [last], parse);
      Flatten(g.cases) + g.current == ParsedNonBlank(pre + [last], parse)
  {
    assert (pre + [last])[..|pre|] == pre;
    ScanSnoc(pre, last, parse);
    ReadKeepsValues(Scan(pre, parse), Strip(last), parse);
  }

  /** One line read adds its value, if it has one, after the values held. */
  lemma ReadKeepsValues(g: Grouping, line: string, parse: string -> Value)
    ensures var h := Read(g, line, parse);
      Flatten(h.cases) + h.current
        == Flatten(g.cases) + g.current + (if line == "" then [] else [parse(line)])
  {
    var flat := Flatten(g.cases);
    if line == "" {
      if g.current != [] {
        FlattenSnoc(g.cases, g.current);
      }
      assert flat + g.current + [] == flat + g.current;
    } else {
      assert flat + (g.current + [parse(line)]) == flat + g.current + [parse(line)];
    }
  }

  /** `parse_input_file` never stores an empty case, and its cases laid end
      to end are the values of the non-blank lines in file order. */
  lemma CasesPartitionLines(lines: seq<string>, parse: string -> Value)
    ensures forall k | 0 <= k < |Cases(lines, parse)| :: Cases(lines, parse)[k] != []
    ensures Flatten(Cases(lines, parse)) == ParsedNonBlank(lines, parse)
  {
    var g := Scan(lines, parse);
    ScanCasesNonEmpty(lines, parse);
    ScanKeepsValues(lines, parse);
    if g.current != [] {
      var all := g.cases + [g.current];
      assert Cases(lines, parse) == all;
      FlattenSnoc(g.cases, g.current);
      forall k | 0 <= k < |all| ensures all[k] != [] {
        if k < |g.cases| {
          assert all[k] == g.cases[k];
        }
      }
    } else {
      assert Cases(lines, parse) == g.cases;
      assert Flatten(g.cases) + [] == Flatten(g.cases);
    }
  }

  /** Closing at the end of the file leaves earlier cases in front,
      untouched. */
  lemma CloseAfterCases(cs: seq<seq<Value>>, g: Grouping)
    ensures Close(Grouping(cs + g.cases, g.current)) == cs + Close(g)
  {
    if g.current != [] {
      assert cs + g.cases + [g.current] == cs + (g.cases + [g.current]);
    }
  }

  /** One line read after cases that came before: those cases stay in
      front, untouched. */
  lemma ReadAfterCases(cs: seq<seq<Value>>, g: Grouping, line: string, parse: string -> Value)
    ensures Read(Grouping(cs + g.cases, g.current), line, parse)
         == Grouping(cs + Read(g, line, parse).cases, Read(g, line, parse).current)
  {
    if line == "" && g.current != [] {
      assert cs + g.cases + [g.current] == cs + (g.cases + [g.current]);
    }
  }

  /** Grouping on after lines that left no case open: their cases, then the
      cases and the open case of the rest grouped on its own. */
  lemma {:induction false} GroupFromClosed(pre: seq<string>, b: seq<string>, parse: string -> Value)
    requires Group(pre, parse).current == []
    ensures Group(pre + b, parse)
         == Grouping(Group(pre, parse).cases + Group(b, parse).cases, Group(b, parse).current)
  {
    var cs := Group(pre, parse).cases;
    if b == [] {
      assert pre + b == pre;
      assert cs + [] == cs;
    } else {
      var front, line := b[..|b| - 1], b[|b| - 1];
      assert b == front + [line];
      assert pre + b == (pre + front) + [line];
      GroupFromClosed(pre, front, parse);
      GroupSnoc(pre + front, line, parse);
      GroupSnoc(front, line, parse);
      ReadAfterCases(cs, Group(front, parse), line, parse);
    }
  }

  /** A blank line separates cases and does nothing else: the cases of a
      file are those before the blank line followed by those after it. */
  lemma BlankSplitsCases(a: seq<string>, l: string, b: seq<string>, parse: string -> Value)
    requires Strip(l) == ""
    ensures Cases(a + [l] + b, parse) == Cases(a, parse) + Cases(b, parse)
  {
    var sa, sb := Stripped(a + [l]), Stripped(b);
    StrippedAppend(a + [l], b);
    assert Group(sa, parse) == Grouping(Cases(a, parse), []) by {
      ScanSnoc(a, l, parse);
    }
    GroupFromClosed(sa, sb, parse);
    CloseAfterCases(Cases(a, parse), Group(sb, parse));
  }

  /** Without blank lines, scanning keeps one open case of every value. */
  lemma {:induction false} ScanWithoutBlank(lines: seq<string>, parse: string -> Value)
    requires forall k | 0 <= k < |lines| :: Strip(lines[k]) != ""
    ensures Scan(lines, parse) == Grouping([], ParsedNonBlank(lines, parse))
  {
    if lines == [] {
      assert Stripped(lines) == [];
    } else {
      var front, last := lines[..|lines| - 1], lines[|lines| - 1];
      assert forall k | 0 <= k < |front| :: front[k] == lines[k];
      assert lines == front + [last];
      ScanWithoutBlank(front, parse);
      ScanSnoc(front, last, parse);
    }
  }

  /** A file with no blank line is one case holding every line's value. */
  lemma NoBlankOneCase(lines: seq<string>, parse: string -> Value)
    requires lines != [] && forall k | 0 <= k < |lines| :: Strip(lines[k]) != ""
    ensures Cases(lines, parse) == [ParsedNonBlank(lines, parse)]
  {
    ScanWithoutBlank(lines, parse);
    assert Strip(lines[|lines| - 1]) != "";
    assert |ParsedNonBlank(lines, parse)| > 0;
  }

  /** How many of the outcomes passed. */
  function PassCount(outcomes: seq<Outcome>): (n: nat)
    ensures n <= |outcomes|
    ensures n == |outcomes| <==> forall i | 0 <= i < |outcomes| :: outcomes[i].success
  {
    if outcomes == [] then 0
    else PassCount(outcomes[..|outcomes| - 1]) + (if outcomes[|outcomes| - 1].success then 1 else 0)
  }

  /** One more outcome adds one to the count when it passed. */
  lemma PassCountSnoc(outcomes: seq<Outcome>, o: Outcome)
    ensures PassCount(outcomes + [o]) == PassCount(outcomes) + (if o.success then 1 else 0)
  {
    assert (outcomes + [o])[..|outcomes|] == outcomes;
  }

  /** One more case run: its outcome joins the outcomes of the earlier cases. */
  lemma OutcomesSnoc<S>(sol: Option<Solution<S>>, cases: seq<seq<Value>>, expected: seq<Value>, outcomes: seq<Outcome>, o: Outcome)
    requires |outcomes| < |cases| == |expected|
    requires forall j | 0 <= j < |outcomes| :: outcomes[j] == CaseOutcome(sol, cases[j], expected[j])
    requires o == CaseOutcome(sol, cases[|outcomes|], expected[|outcomes|])
    ensures forall j | 0 <= j < |outcomes| + 1 :: (outcomes + [o])[j] == CaseOutcome(sol, cases[j], expected[j])
  {
  }

  /** The loop of `run_all_tests`: every case against its expected output,
      counting the passes. */
  method RunCases<S>(sol: Option<Solution<S>>, cases: seq<seq<Value>>, expected: seq<Value>)
    returns (passed: nat, outcomes: seq<Outcome>)
    requires |cases| == |expected|
    ensures |outcomes| == |cases|
    ensures forall j | 0 <= j < |outcomes| :: outcomes[j] == CaseOutcome(sol, cases[j], expected[j])
    ensures passed == PassCount(outcomes)
  {
    passed := 0;
    outcomes := [];
    var i := 0;
    while i < |cases|
      invariant 0 <= i <= |cases| && |outcomes| == i
      invariant forall j | 0 <= j < i :: outcomes[j] == CaseOutcome(sol, cases[j], expected[j])
      invariant passed == PassCount(outcomes)
    {
      var o := RunTestCase(sol, cases[i], expected[i]);
      PassCountSnoc(outcomes, o);
      OutcomesSnoc(sol, cases, expected, outcomes, o);
      outcomes := outcomes + [o];
      if o.success {
        passed := passed + 1;
      }
      i := i + 1;
    }
  }

  /** The tester: the solution class, if one was found, and the cases and
      expected outputs read from the files. */
  class Tester<S> {
    var solution: Option<Solution<S>>
    var testCases: seq<seq<Value>>
    var expectedOutputs: seq<Value>

    constructor (solution: Option<Solution<S>>)
      ensures this.solution == solution && testCases == [] && expectedOutputs == []
    {
      this.solution := solution;
      testCases := [];
      expectedOutputs := [];
    }

    /** `parse_input_file`, given the file's lines. */
    method ParseInputFile(lines: seq<string>, literalEval: string -> Option<Value>)
      modifies this
      ensures testCases == Cases(lines, LineParser(literalEval))
      ensures solution == old(solution) && expectedOutputs == old(expectedOutputs)
    {
      testCases := [];
      var current: seq<Value> := [];
      var k := 0;
      while k < |lines|
        invariant 0 <= k <= |lines|
        invariant Scan(lines[..k], LineParser(literalEval)) == Grouping(testCases, current)
        invariant solution == old(solution) && expectedOutputs == old(expectedOutputs)
      {
        var line := Strip(lines[k]);
        ScanStep(lines, k, LineParser(literalEval));
        if line == "" {
          if current != [] {
            testCases := testCases + [current];
            current := [];
          }
        } else {
          current := current + [ParseInputLine(line, literalEval)];
        }
        k := k + 1;
      }
      assert lines[..k] == lines;
      if current != [] {
        testCases := testCases + [current];
      }
    }

    /** `parse_output_file`, given the file's lines. */
    method ParseOutputFile(lines: seq<string>, literalEval: string -> Option<Value>)
      modifies this
      ensures expectedOutputs == ParsedNonBlank(lines, LineParser(literalEval))
      ensures solution == old(solution) && testCases == old(testCases)
    {
      expectedOutputs := [];
      var k := 0;
      while k < |lines|
        invariant 0 <= k <= |lines|
        invariant expectedOutputs == ParsedNonBlank(lines[..k], LineParser(literalEval))
        invariant solution == old(solution) && testCases == old(testCases)
      {
        var line := Strip(lines[k]);
        assert lines[..k + 1][..k] == lines[..k];
        if line != "" {
          expectedOutputs := expectedOutputs + [ParseInputLine(line, literalEval)];
        }
        k := k + 1;
      }
      assert lines[..k] == lines;
    }

    /** `run_all_tests`: nothing runs when the counts differ; otherwise every
      case runs against its expected output and the run succeeds when all
      pass. `outcomes` and `passed` are what the printing helpers show. */
    method RunAllTests() returns (ok: bool, passed: nat, outcomes: seq<Outcome>)
      ensures |testCases| != |expectedOutputs| ==> !ok && passed == 0 && outcomes == []
      ensures |testCases| == |expectedOutputs| ==>
        && |outcomes| == |testCases|
        && (forall i | 0 <= i < |outcomes| :: outcomes[i] == CaseOutcome(solution, testCases[i], expectedOutputs[i]))
        && passed == PassCount(outcomes) && passed <= |testCases|
        && (ok <==> forall i | 0 <= i < |outcomes| :: outcomes[i].success)
    {
      if |testCases| != |expectedOutputs| {
        return false, 0, [];
      }
      var total := |testCases|;
      passed, outcomes := RunCases(solution, testCases, expectedOutputs);
      ok := passed == total;
    }
  }
}
