/** `parse_input_line`: one line of a case or expected-output file becomes a
    value. The literal parser itself (`ast.literal_eval`) is a parameter: a
    partial function that yields `None` where the real one raises. */
module Literal {
  import opened Values
  import opened Text

  /** The three textual replacements applied before parsing: every occurrence
      of `null`, `true` and `false`, wherever it stands (also inside quoted
      strings and inside longer words). */
  function Normalize(line: string): string {
    ReplaceAll(ReplaceAll(ReplaceAll(line, "null", "None"), "true", "True"), "false", "False")
  }

  /** The fallback when parsing fails: one pair of matching double or single
      quotes around the text is dropped; otherwise the text is kept. */
  function Unquote(line: string): string {
    if |line| >= 1 && line[0] == '"' && line[|line| - 1] == '"' then Inner(line)
    else if |line| >= 1 && line[0] == '\'' && line[|line| - 1] == '\'' then Inner(line)
    else line
  }

  /** `parse_input_line(line)` with `ast.literal_eval` given as `literalEval`. */
  function ParseInputLine(line: string, literalEval: string -> Option<Value>): Value {
    var text := Normalize(Strip(line));
    match literalEval(text)
    case Some(v) => v
    case None => Str(Unquote(text))
  }

  /** `parse_input_line` with the literal parser fixed: the parser the two
      file readers apply to each non-blank line. */
  function LineParser(literalEval: string -> Option<Value>): string -> Value {
    line => ParseInputLine(line, literalEval)
  }

  /** The replacements keep the length of the line. */
  lemma NormalizeKeepsLength(line: string)
    ensures |Normalize(line)| == |line|
  {
    var a := ReplaceAll(line, "null", "None");
    var b := ReplaceAll(a, "true", "True");
    ReplaceKeepsLength(line, "null", "None");
    ReplaceKeepsLength(a, "true", "True");
    ReplaceKeepsLength(b, "false", "False");
  }

  /** None of the three replacement texts can overlap an occurrence of any
      of the three reserved words. */
  lemma ReplacementsDoNotOverlapTokens()
    ensures NoneStartsInside("None", "null") && NoneRunsInto("None", "null")
    ensures NoneStartsInside("True", "null") && NoneRunsInto("True", "null")
    ensures NoneStartsInside("False", "null") && NoneRunsInto("False", "null")
    ensures NoneStartsInside("True", "true") && NoneRunsInto("True", "true")
    ensures NoneStartsInside("False", "true") && NoneRunsInto("False", "true")
    ensures NoneStartsInside("False", "false") && NoneRunsInto("False", "false")
  {
    NoneRunsIntoByFirstChar("None", "null");
    NoneRunsIntoByFirstChar("True", "null");
    NoneRunsIntoByFirstChar("False", "null");
    NoneRunsIntoByFirstChar("True", "true");
    NoneRunsIntoByFirstChar("False", "true");
    NoneRunsIntoByFirstChar("False", "false");
    NoneStartsInsideByFirstChar("True", "null");
    NoneStartsInsideByFirstChar("False", "null");
    NoneStartsInsideByFirstChar("True", "true");
    NoneStartsInsideByFirstChar("False", "true");
    NoneStartsInsideByFirstChar("False", "false");
    // "None" holds the 'n' of "null", but followed by 'e', not 'u'
    forall j | 0 <= j < 4 ensures !PrefixCompatible("None"[j..], "null") {
      if j == 2 {
        assert "None"[2..][..2] == "ne" && "null"[..2] == "nu";
      } else {
        FirstCharsDiffer("None"[j..], "null");
      }
    }
  }

  /** After the replacements the line contains none of the reserved words
      `null`, `true`, `false`: each is replaced, and no replacement creates one. */
  lemma NormalizedHasNoReservedWord(line: string)
    ensures !Contains(Normalize(line), "null")
    ensures !Contains(Normalize(line), "true")
    ensures !Contains(Normalize(line), "false")
  {
    ReplacementsDoNotOverlapTokens();
    var a := ReplaceAll(line, "null", "None");
    var b := ReplaceAll(a, "true", "True");
    ReplaceCreatesNoOccurrence(line, "null", "None", "null");
    ReplaceCreatesNoOccurrence(a, "true", "True", "null");
    ReplaceCreatesNoOccurrence(b, "false", "False", "null");
    ReplaceCreatesNoOccurrence(a, "true", "True", "true");
    ReplaceCreatesNoOccurrence(b, "false", "False", "true");
    ReplaceCreatesNoOccurrence(b, "false", "False", "false");
  }

  /** A quote character is never part of a reserved word, so the replacements
      go through quotes: `Normalize(q + w + q) == q + Normalize(w) + q`. */
  lemma NormalizeQuoted(q: char, w: string)
    requires q == '"' || q == '\''
    ensures Normalize([q] + w + [q]) == [q] + Normalize(w) + [q]
  {
    var a := ReplaceAll(w, "null", "None");
    var b := ReplaceAll(a, "true", "True");
    var c := ReplaceAll(b, "false", "False");
    ReplaceSnoc([q] + w, q, "null", "None");
    ReplaceCons(q, w, "null", "None");
    assert ReplaceAll([q] + w + [q], "null", "None") == [q] + a + [q];
    ReplaceSnoc([q] + a, q, "true", "True");
    ReplaceCons(q, a, "true", "True");
    assert ReplaceAll([q] + a + [q], "true", "True") == [q] + b + [q];
    ReplaceSnoc([q] + b, q, "false", "False");
    ReplaceCons(q, b, "false", "False");
    assert ReplaceAll([q] + b + [q], "false", "False") == [q] + c + [q];
  }

  /** When the literal parser rejects a quoted line, the result is the text
      between the quotes, with the replacements applied inside it too. */
  lemma QuotedFallback(q: char, w: string, literalEval: string -> Option<Value>)
    requires q == '"' || q == '\''
    requires literalEval(Normalize([q] + w + [q])).None?
    ensures ParseInputLine([q] + w + [q], literalEval) == Str(Normalize(w))
  {
    var line := [q] + w + [q];
    StripKeepsQuoted(line);
    NormalizeQuoted(q, w);
    var inner := Normalize(w);
    var text := [q] + inner + [q];
    assert Normalize(Strip(line)) == text;
    InnerOfQuoted(q, inner);
  }

  /** A line that starts and ends with a quote has nothing to strip. */
  lemma StripKeepsQuoted(line: string)
    requires |line| >= 1 && (line[0] == '"' || line[0] == '\'') && (line[|line| - 1] == '"' || line[|line| - 1] == '\'')
    ensures Strip(line) == line
  {
    assert !IsSpace('"') && !IsSpace('\'');
    StripNoSpaceEnds(line);
  }

  /** Unquoting a quoted text gives back what is between the quotes. */
  lemma InnerOfQuoted(q: char, w: string)
    requires q == '"' || q == '\''
    ensures Unquote([q] + w + [q]) == w
  {
    var text := [q] + w + [q];
    assert text[0] == q && text[|text| - 1] == q;
    assert text[1..|text| - 1] == w;
  }

  /** When the literal parser rejects the line, the result is a string no
      longer than the line: the inside of the normalised line when that is
      wrapped in one pair of matching quotes, the normalised line itself
      otherwise. */
  lemma FallbackIsText(line: string, literalEval: string -> Option<Value>)
    requires literalEval(Normalize(Strip(line))).None?
    ensures var r, text := ParseInputLine(line, literalEval), Normalize(Strip(line));
      && r.Str? && |r.s| <= |line|
      && if |text| >= 1 && text[0] == text[|text| - 1] && (text[0] == '"' || text[0] == '\'') then
           if |text| == 1 then r.s == "" else text == [text[0]] + r.s + [text[0]]
         else r.s == text
  {
    NormalizeKeepsLength(Strip(line));
  }

  /** `"nullable".replace("null", "None")` is `"Noneable"`, and the other two
      replacements find nothing to do. */
  lemma NormalizeNullable()
    ensures Normalize("nullable") == "Noneable"
  {
    var w := "nullable";
    assert w[..4] == "null" && w[4..] == "able";
    assert "able"[..4] != "null" && "able"[1..] == "ble";
    assert ReplaceAll("able", "null", "None") == "able";
    var a := ReplaceAll(w, "null", "None");
    assert a == "Noneable";
    AbsentByFirstChar(a, "true");
    AbsentByFirstChar(a, "false");
    ReplaceAbsent(a, "true", "True");
    ReplaceAbsent(a, "false", "False");
  }

  /** The replacement also rewrites quoted text: the line `"nullable"`
      reaches the literal parser as `"Noneable"`, which it reads as the
      string `Noneable`. */
  lemma NullInsideQuotesIsRewritten(literalEval: string -> Option<Value>)
    requires literalEval(['"'] + "Noneable" + ['"']) == Some(Str("Noneable"))
    ensures ParseInputLine(['"'] + "nullable" + ['"'], literalEval) == Str("Noneable")
  {
    StripKeepsQuoted(['"'] + "nullable" + ['"']);
    NormalizedQuotedNullable();
  }

  lemma NormalizedQuotedNullable()
    ensures Normalize(['"'] + "nullable" + ['"']) == ['"'] + "Noneable" + ['"']
  {
    NormalizeNullable();
    NormalizeQuoted('"', "nullable");
  }
}
