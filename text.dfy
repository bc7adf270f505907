/** The string operations the harness relies on: `str.strip`, `str.lower`,
    `str.replace`, the `in` substring test and the `[1:-1]` slice. */
module Text {

  /** `c.isspace()`: the characters Python's `str.strip()` removes. */
  predicate IsSpace(c: char) {
    var n := c as int;
    (9 <= n <= 13) || (28 <= n <= 32) || n == 0x85 || n == 0xA0 || n == 0x1680
    || (0x2000 <= n <= 0x200A) || n == 0x2028 || n == 0x2029 || n == 0x202F
    || n == 0x205F || n == 0x3000
  }

  /** `s.lstrip()`. */
  function StripLeft(s: string): (r: string)
    ensures |r| <= |s| && r == s[|s| - |r|..]
    ensures r == [] || !IsSpace(r[0])
    ensures forall k | 0 <= k < |s| - |r| :: IsSpace(s[k])
  {
    if s != [] && IsSpace(s[0]) then StripLeft(s[1..]) else s
  }

  /** `s.rstrip()`. */
  function StripRight(s: string): (r: string)
    ensures |r| <= |s| && r == s[..|r|]
    ensures r == [] || !IsSpace(r[|r| - 1])
    ensures forall k | |r| <= k < |s| :: IsSpace(s[k])
  {
    if s != [] && IsSpace(s[|s| - 1]) then StripRight(s[..|s| - 1]) else s
  }

  /** `s.strip()`. */
  function Strip(s: string): string {
    StripRight(StripLeft(s))
  }

  /** `s.strip()` returns the part of `s` between its leading and trailing
      white space: a slice of `s`, with no white space at either end, and
      with only white space cut off. */
  lemma StripIsTrimmedSlice(s: string)
    ensures var i, r := |s| - |StripLeft(s)|, Strip(s);
      i + |r| <= |s| && r == s[i..i + |r|]
    ensures var i := |s| - |StripLeft(s)|;
      forall k | 0 <= k < i :: IsSpace(s[k])
    ensures var i, r := |s| - |StripLeft(s)|, Strip(s);
      forall k | i + |r| <= k < |s| :: IsSpace(s[k])
    ensures Strip(s) == [] || (!IsSpace(Strip(s)[0]) && !IsSpace(Strip(s)[|Strip(s)| - 1]))
  {
    StripIsSlice(s);
    StripRightCutsSpace(s);
    StripEndsNotSpace(s);
  }

  lemma StripIsSlice(s: string)
    ensures var i, r := |s| - |StripLeft(s)|, Strip(s);
      i + |r| <= |s| && r == s[i..i + |r|]
  {
    var l := StripLeft(s);
    var r := StripRight(l);
    var i := |s| - |l|;
    assert l == s[i..] && r == l[..|r|];
    SliceOfSuffix(s, i, |r|);
  }

  lemma SliceOfSuffix(s: string, i: nat, n: nat)
    requires i + n <= |s|
    ensures s[i..][..n] == s[i..i + n]
  {
  }

  lemma StripEndsNotSpace(s: string)
    ensures Strip(s) == [] || (!IsSpace(Strip(s)[0]) && !IsSpace(Strip(s)[|Strip(s)| - 1]))
  {
    var l := StripLeft(s);
    var r := StripRight(l);
    assert Strip(s) == r;
    if r != [] {
      assert r[0] == l[0];
      assert !IsSpace(l[0]);
    }
  }

  lemma StripRightCutsSpace(s: string)
    ensures var i, r := |s| - |StripLeft(s)|, Strip(s);
      forall k | i + |r| <= k < |s| :: IsSpace(s[k])
  {
    var l := StripLeft(s);
    var r := StripRight(l);
    var i := |s| - |l|;
    assert l == s[i..];
    forall k | i + |r| <= k < |s| ensures IsSpace(s[k]) {
      assert s[k] == l[k - i];
    }
  }

  /** A string with no white space at either end has nothing to strip. */
  lemma StripNoSpaceEnds(s: string)
    requires s == [] || (!IsSpace(s[0]) && !IsSpace(s[|s| - 1]))
    ensures Strip(s) == s
  {
    assert StripLeft(s) == s;
    assert StripRight(s) == s;
  }

  /** Stripping twice is stripping once (`parse_input_line` strips a line that
      `parse_input_file` has stripped already). */
  lemma StripIdempotent(s: string)
    ensures Strip(Strip(s)) == Strip(s)
  {
    var r := Strip(s);
    StripIsTrimmedSlice(s);
    assert StripLeft(r) == r;
    assert StripRight(r) == r;
  }

  /** An ASCII upper-case letter. */
  predicate IsUpper(c: char) {
    'A' <= c <= 'Z'
  }

  /** `c.lower()` for the ASCII letters. */
  function LowerChar(c: char): char {
    if IsUpper(c) then (c as int + 32) as char else c
  }

  /** `s.lower()` (ASCII letters only): the result has no upper-case
      letter, and a string without one is left as it is. */
  function Lower(s: string): (r: string)
    ensures |r| == |s|
    ensures forall k | 0 <= k < |r| :: !IsUpper(r[k])
    ensures (forall k | 0 <= k < |s| :: !IsUpper(s[k])) ==> r == s
  {
    seq(|s|, k requires 0 <= k < |s| => LowerChar(s[k]))
  }

  /** Lowering works one character at a time. */
  lemma LowerPointwise(s: string, k: nat)
    requires k < |s|
    ensures Lower(s)[k] == LowerChar(s[k])
  {
  }

  /** Lowering twice is lowering once. */
  lemma LowerIdempotent(s: string)
    ensures Lower(Lower(s)) == Lower(s)
  {
  }

  /** `w` occurs in `s` at index `i`. */
  predicate OccursAt(s: string, w: string, i: int) {
    0 <= i && i + |w| <= |s| && s[i..i + |w|] == w
  }

  /** `w in s`. */
  predicate Contains(s: string, w: string) {
    exists i | 0 <= i <= |s| - |w| :: OccursAt(s, w, i)
  }

  /** `s.replace(pat, rep)`: scans left to right and replaces every
      non-overlapping occurrence of `pat` by `rep`, wherever it stands. */
  function ReplaceAll(s: string, pat: string, rep: string): string
    requires |pat| > 0
    decreases |s|
  {
    if |s| < |pat| then s
    else if s[..|pat|] == pat then rep + ReplaceAll(s[|pat|..], pat, rep)
    else [s[0]] + ReplaceAll(s[1..], pat, rep)
  }

  /** A replacement by a string of the same length keeps the length. */
  lemma {:induction false} ReplaceKeepsLength(s: string, pat: string, rep: string)
    requires |pat| > 0 && |rep| == |pat|
    ensures |ReplaceAll(s, pat, rep)| == |s|
    decreases |s|
  {
    if |s| < |pat| {
    } else if s[..|pat|] == pat {
      ReplaceKeepsLength(s[|pat|..], pat, rep);
    } else {
      ReplaceKeepsLength(s[1..], pat, rep);
    }
  }

  /** Replacing a pattern that does not occur changes nothing. */
  lemma {:induction false} ReplaceAbsent(s: string, pat: string, rep: string)
    requires |pat| > 0 && !Contains(s, pat)
    ensures ReplaceAll(s, pat, rep) == s
    decreases |s|
  {
    if |s| < |pat| {
    } else {
      assert !OccursAt(s, pat, 0);
      assert !Contains(s[1..], pat) by {
        forall i | 0 <= i <= |s[1..]| - |pat| ensures !OccursAt(s[1..], pat, i) {
          assert s[1..][i..i + |pat|] == s[i + 1..i + 1 + |pat|];
          assert !OccursAt(s, pat, i + 1);
        }
      }
      ReplaceAbsent(s[1..], pat, rep);
    }
  }

  /** A character that cannot start the pattern passes through unchanged. */
  lemma ReplaceCons(c: char, s: string, pat: string, rep: string)
    requires |pat| > 0 && c != pat[0]
    ensures ReplaceAll([c] + s, pat, rep) == [c] + ReplaceAll(s, pat, rep)
  {
    var t := [c] + s;
    assert t[1..] == s;
    if |t| >= |pat| {
      assert t[..|pat|][0] == c;
    }
  }

  /** A character that the pattern does not contain, put at the end, passes
      through unchanged. */
  lemma {:induction false} ReplaceSnoc(s: string, c: char, pat: string, rep: string)
    requires |pat| > 0 && forall k | 0 <= k < |pat| :: pat[k] != c
    ensures ReplaceAll(s + [c], pat, rep) == ReplaceAll(s, pat, rep) + [c]
    decreases |s|
  {
    var t := s + [c];
    if |t| < |pat| {
    } else if t[..|pat|] == pat {
      assert t[|pat| - 1] == pat[|pat| - 1];
      assert |pat| <= |s|;
      ReplaceSnoc(s[|pat|..], c, pat, rep);
      SnocAfterMatch(s, c, pat, rep);
    } else if s == [] {
      assert t == [c];
    } else {
      ReplaceSnoc(s[1..], c, pat, rep);
      SnocAfterSkip(s, c, pat, rep);
    }
  }

  lemma SnocAfterMatch(s: string, c: char, pat: string, rep: string)
    requires 0 < |pat| <= |s| && (s + [c])[..|pat|] == pat
    requires ReplaceAll(s[|pat|..] + [c], pat, rep) == ReplaceAll(s[|pat|..], pat, rep) + [c]
    ensures ReplaceAll(s + [c], pat, rep) == ReplaceAll(s, pat, rep) + [c]
  {
    TakeOfSnoc(s, c, |pat|);
    DropOfSnoc(s, c, |pat|);
  }

  lemma SnocAfterSkip(s: string, c: char, pat: string, rep: string)
    requires 0 < |pat| <= |s| + 1 && s != [] && (s + [c])[..|pat|] != pat
    requires ReplaceAll(s[1..] + [c], pat, rep) == ReplaceAll(s[1..], pat, rep) + [c]
    ensures ReplaceAll(s + [c], pat, rep) == ReplaceAll(s, pat, rep) + [c]
  {
    DropOfSnoc(s, c, 1);
    if |s| >= |pat| {
      TakeOfSnoc(s, c, |pat|);
    }
  }

  lemma DropOfSnoc(s: string, c: char, d: nat)
    requires d <= |s|
    ensures (s + [c])[d..] == s[d..] + [c]
  {
    var t := s + [c];
    forall k | 0 <= k < |t| - d ensures t[d..][k] == (s[d..] + [c])[k] {
      if d + k < |s| {
        assert t[d + k] == s[d + k];
      }
    }
  }

  lemma TakeOfSnoc(s: string, c: char, n: nat)
    requires n <= |s|
    ensures (s + [c])[..n] == s[..n]
  {
    forall k | 0 <= k < n ensures (s + [c])[..n][k] == s[..n][k] {
      assert (s + [c])[k] == s[k];
    }
  }

  /** `a` and `b` agree on their common length. */
  predicate PrefixCompatible(a: string, b: string) {
    var n := if |a| < |b| then |a| else |b|;
    a[..n] == b[..n]
  }

  /** No occurrence of `q` can begin inside `rep`. */
  predicate NoneStartsInside(rep: string, q: string) {
    forall j | 0 <= j < |rep| :: !PrefixCompatible(rep[j..], q)
  }

  /** No occurrence of `q` can begin before `rep` and run into it. */
  predicate NoneRunsInto(rep: string, q: string) {
    forall m | 1 <= m < |q| :: !PrefixCompatible(q[m..], rep)
  }

  /** Strings whose first characters differ do not agree on their common length. */
  lemma FirstCharsDiffer(a: string, b: string)
    requires |a| > 0 && |b| > 0 && a[0] != b[0]
    ensures !PrefixCompatible(a, b)
  {
    var n := if |a| < |b| then |a| else |b|;
    assert a[..n][0] == a[0] && b[..n][0] == b[0];
  }

  /** `rep` cannot hold the beginning of an occurrence of `q` when it does not
      contain the first character of `q`. */
  lemma NoneStartsInsideByFirstChar(rep: string, q: string)
    requires |q| > 0 && forall j | 0 <= j < |rep| :: rep[j] != q[0]
    ensures NoneStartsInside(rep, q)
  {
    forall j | 0 <= j < |rep| ensures !PrefixCompatible(rep[j..], q) {
      FirstCharsDiffer(rep[j..], q);
    }
  }

  /** No occurrence of `q` can run into `rep` when the first character of
      `rep` does not occur in `q` after its first position. */
  lemma NoneRunsIntoByFirstChar(rep: string, q: string)
    requires |rep| > 0 && forall m | 1 <= m < |q| :: q[m] != rep[0]
    ensures NoneRunsInto(rep, q)
  {
    forall m | 1 <= m < |q| ensures !PrefixCompatible(q[m..], rep) {
      FirstCharsDiffer(q[m..], rep);
    }
  }

  /** A string without the first character of `q` does not contain `q`. */
  lemma AbsentByFirstChar(s: string, q: string)
    requires |q| > 0 && forall k | 0 <= k < |s| :: s[k] != q[0]
    ensures !Contains(s, q)
  {
    forall i | 0 <= i <= |s| - |q| ensures !OccursAt(s, q, i) {
      assert s[i..i + |q|][0] == s[i];
    }
  }

  /** If `s.replace(pat, rep)` begins with a proper suffix of `q`, so does `s`
      (the replacement text never begins such a suffix). */
  lemma {:induction false} ReplacedSuffixStart(s: string, pat: string, rep: string, q: string, m: nat)
    requires |pat| > 0 && |rep| == |pat|
    requires NoneRunsInto(rep, q)
    requires 1 <= m < |q|
    requires var out := ReplaceAll(s, pat, rep); |q| - m <= |out| && out[..|q| - m] == q[m..]
    ensures |q| - m <= |s| && s[..|q| - m] == q[m..]
    decreases |s|
  {
    var k := |q| - m;
    ReplaceKeepsLength(s, pat, rep);
    if |s| < |pat| {
    } else if s[..|pat|] == pat {
      RunsIntoReplacement(s, pat, rep, q[m..]);
      assert false;
    } else {
      var t := ReplaceAll(s[1..], pat, rep);
      ReplaceStepsOne(s, pat, rep);
      FirstOfPrefix(s, [s[0]] + t, q[m..]);
      if m + 1 < |q| {
        DropFirstOfPrefix([s[0]] + t, q[m..]);
        assert q[m..][1..] == q[m + 1..];
        ReplacedSuffixStart(s[1..], pat, rep, q, m + 1);
        ConsPrefix(s, q[m..]);
      } else {
        assert s[..1] == [s[0]];
      }
    }
  }

  /** Where `pat` stands at the front, the output begins with `rep`, so
      any prefix of the output agrees with `rep` on their common length. */
  lemma RunsIntoReplacement(s: string, pat: string, rep: string, w: string)
    requires |pat| > 0 && |pat| <= |s| && s[..|pat|] == pat
    requires var out := ReplaceAll(s, pat, rep); |w| <= |out| && out[..|w|] == w
    ensures PrefixCompatible(w, rep)
  {
    var out := ReplaceAll(s, pat, rep);
    assert out == rep + ReplaceAll(s[|pat|..], pat, rep);
    var n := if |w| < |rep| then |w| else |rep|;
    forall j | 0 <= j < n ensures w[j] == rep[j] {
      assert w[j] == out[..|w|][j] == out[j];
    }
  }

  /** Where `pat` does not stand at the front, the first character is kept. */
  lemma ReplaceStepsOne(s: string, pat: string, rep: string)
    requires |pat| > 0 && |pat| <= |s| && s[..|pat|] != pat
    ensures ReplaceAll(s, pat, rep) == [s[0]] + ReplaceAll(s[1..], pat, rep)
  {
  }

  lemma FirstOfPrefix(s: string, out: string, w: string)
    requires 0 < |w| <= |out| && out[..|w|] == w && |s| > 0 && out[0] == s[0]
    ensures s[0] == w[0]
  {
    assert w[0] == out[..|w|][0];
  }

  lemma DropFirstOfPrefix(out: string, w: string)
    requires 0 < |w| <= |out| && out[..|w|] == w
    ensures out[1..][..|w| - 1] == w[1..]
  {
  }

  lemma ConsPrefix(s: string, w: string)
    requires 0 < |w| && |w| - 1 <= |s| - 1 && s[0] == w[0] && s[1..][..|w| - 1] == w[1..]
    ensures s[..|w|] == w
  {
    forall j | 0 <= j < |w| ensures s[j] == w[j] {
      if j > 0 {
        assert s[j] == s[1..][..|w| - 1][j - 1];
      }
    }
  }

  /** An occurrence in a suffix is an occurrence. */
  lemma ContainsSuffix(s: string, d: nat, q: string)
    requires d <= |s| && Contains(s[d..], q)
    ensures Contains(s, q)
  {
    var k :| 0 <= k <= |s[d..]| - |q| && OccursAt(s[d..], q, k);
    assert s[k + d..k + d + |q|] == s[d..][k..k + |q|];
    assert OccursAt(s, q, k + d);
  }

  /** An occurrence of `q` in `rep + t` lies in `t`, when none can begin
      inside `rep`. */
  lemma OccurrenceAfterReplacement(rep: string, t: string, q: string)
    requires NoneStartsInside(rep, q) && Contains(rep + t, q)
    ensures Contains(t, q)
  {
    var out := rep + t;
    var i :| 0 <= i <= |out| - |q| && OccursAt(out, q, i);
    OccurrenceInsideIsCompatible(rep, t, q, i);
    assert t[i - |rep|..i - |rep| + |q|] == out[i..i + |q|];
    assert OccursAt(t, q, i - |rep|);
  }

  /** An occurrence of `q` in `rep + t` that begins inside `rep` agrees with
      `rep` from there on. */
  lemma OccurrenceInsideIsCompatible(rep: string, t: string, q: string, i: int)
    requires OccursAt(rep + t, q, i)
    ensures i < |rep| ==> PrefixCompatible(rep[i..], q)
  {
    if i < |rep| {
      var n := if |rep[i..]| < |q| then |rep[i..]| else |q|;
      assert rep[i..][..n] == (rep + t)[i..i + n] == q[..n];
    }
  }

  /** An occurrence of `q` in `[c] + t` that does not begin at `c` lies in `t`. */
  lemma OccurrenceAfterChar(c: char, t: string, q: string)
    requires Contains([c] + t, q) && !OccursAt([c] + t, q, 0)
    ensures Contains(t, q)
  {
    var out := [c] + t;
    var i :| 0 <= i <= |out| - |q| && OccursAt(out, q, i);
    assert t[i - 1..i - 1 + |q|] == out[i..i + |q|];
    assert OccursAt(t, q, i - 1);
  }

  /** Replacing `pat` by `rep` creates no occurrence of `q` that was not there
      before, and removes every occurrence of `pat` itself, as long as `rep`
      cannot overlap an occurrence of `q`. */
  lemma {:induction false} ReplaceCreatesNoOccurrence(s: string, pat: string, rep: string, q: string)
    requires |pat| > 0 && |rep| == |pat| && |q| > 0
    requires NoneStartsInside(rep, q) && NoneRunsInto(rep, q)
    ensures Contains(ReplaceAll(s, pat, rep), q) ==> q != pat && Contains(s, q)
    decreases |s|
  {
    var out := ReplaceAll(s, pat, rep);
    if |s| < |pat| || !Contains(out, q) {
    } else if s[..|pat|] == pat {
      var rest := s[|pat|..];
      assert out == rep + ReplaceAll(rest, pat, rep);
      OccurrenceAfterReplacement(rep, ReplaceAll(rest, pat, rep), q);
      ReplaceCreatesNoOccurrence(rest, pat, rep, q);
      ContainsSuffix(s, |pat|, q);
    } else {
      var t := ReplaceAll(s[1..], pat, rep);
      assert out == [s[0]] + t;
      if OccursAt(out, q, 0) {
        assert out[0] == q[0] == s[0];
        if 1 < |q| {
          assert t[..|q| - 1] == q[1..];
          ReplacedSuffixStart(s[1..], pat, rep, q, 1);
          assert s[..|q|] == [s[0]] + s[1..][..|q| - 1];
        } else {
          assert s[..|q|] == [s[0]];
        }
        assert OccursAt(s, q, 0);
      } else {
        OccurrenceAfterChar(s[0], t, q);
        ReplaceCreatesNoOccurrence(s[1..], pat, rep, q);
        ContainsSuffix(s, 1, q);
      }
    }
  }

  /** `s[1:-1]`: the slice without the first and the last character (empty
      when `s` has fewer than two). */
  function Inner(s: string): (r: string)
    ensures |s| >= 2 ==> |r| == |s| - 2 && s == [s[0]] + r + [s[|s| - 1]]
    ensures |s| < 2 ==> r == ""
  {
    if |s| < 2 then "" else s[1..|s| - 1]
  }
}
