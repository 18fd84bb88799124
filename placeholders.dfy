/**
 * The placeholder scan shared by the two validator tools. For every forbidden
 * pattern, in list order, the scan first asks whether the lower-cased file
 * contains the lower-cased pattern; only then does it split the file on '\n'
 * and record, in line order, every line that contains the pattern
 * (case-insensitively), as the 1-based line number together with the line,
 * stripped and cut to 100 characters. The tools differ only in their pattern
 * lists and in how many violations the failure report shows.
 */
module Placeholders {
  import opened Text

  /** One entry of the violations list: "Line {line}: {snippet}". */
  datatype Violation = Violation(line: nat, snippet: string)

  /** The outcome of one validation run. */
  datatype Verdict =
    | FileMissing                              // "does not exist": nothing is read or scanned
    | ReadError                                // "VALIDATION ERROR": the path exists but cannot be read
    | Passed
    | Failed(total: nat, shown: seq<Violation>)  // the count of all violations, and the ones listed

  const SnippetWidth: nat := 100

  /** A forbidden pattern: every pattern of both lists is a single line of text. */
  type Pattern = p: string | '\n' !in p

  /** `line.strip()[:100]` */
  function Snippet(line: string): (r: string)
    ensures |r| == (if |Strip(line)| <= SnippetWidth then |Strip(line)| else SnippetWidth)
    ensures r == Strip(line)[..|r|]
  {
    Take(Strip(line), SnippetWidth)
  }

  /** `pattern.lower() in line.lower()` */
  predicate LineHit(line: string, pattern: string) {
    Contains(Lower(line), Lower(pattern))
  }

  /** The test the inner loop applies to each line, for one pattern. */
  function Matcher(pattern: string): string -> bool {
    line => LineHit(line, pattern)
  }

  /**
   * A line scan: the lines `hit` accepts, in line order, each named by its
   * 1-based number and quoted by `quote`.
   */
  function Marked(hit: string -> bool, quote: string -> string, lines: seq<string>): seq<Violation>
    decreases |lines|
  {
    if |lines| == 0 then []
    else
      var last := |lines| - 1;
      Marked(hit, quote, lines[..last]) + (if hit(lines[last]) then [Violation(|lines|, quote(lines[last]))] else [])
  }

  /** The inner loop for one pattern: every line that contains it, quoted by its snippet. */
  function Hits(pattern: string, lines: seq<string>): seq<Violation> {
    Marked(Matcher(pattern), Snippet, lines)
  }

  /** One pass of the outer loop: the whole-text test, then the line scan. */
  function PatternPass(pattern: string, content: string): (r: seq<Violation>)
    ensures forall v <- r :: 1 <= v.line <= |SplitLines(content)|
              && LineHit(SplitLines(content)[v.line - 1], pattern)
              && v.snippet == Snippet(SplitLines(content)[v.line - 1])
  {
    var lines := SplitLines(content);
    HitsSound(pattern, lines);
    if Contains(Lower(content), Lower(pattern)) then Hits(pattern, lines) else []
  }

  /** The passes of the outer loop over one text. */
  function PassOf(content: string): string -> seq<Violation> {
    pattern => PatternPass(pattern, content)
  }

  /** The outer loop: what each pattern's pass records, pattern by pattern in list order. */
  function Gather(pass: string -> seq<Violation>, patterns: seq<string>): seq<Violation>
    decreases |patterns|
  {
    if |patterns| == 0 then []
    else Gather(pass, patterns[..|patterns| - 1]) + pass(patterns[|patterns| - 1])
  }

  /** All violations of a text. */
  function Violations(patterns: seq<string>, content: string): (r: seq<Violation>)
    ensures forall v <- r :: 1 <= v.line <= |SplitLines(content)|
              && v.snippet == Snippet(SplitLines(content)[v.line - 1])
              && exists p <- patterns :: LineHit(SplitLines(content)[v.line - 1], p)
  {
    var r := Gather(PassOf(content), patterns);
    assert forall v <- r :: 1 <= v.line <= |SplitLines(content)|
             && v.snippet == Snippet(SplitLines(content)[v.line - 1])
             && exists p <- patterns :: LineHit(SplitLines(content)[v.line - 1], p) by {
      forall v <- r
        ensures 1 <= v.line <= |SplitLines(content)|
        ensures v.snippet == Snippet(SplitLines(content)[v.line - 1])
        ensures exists p <- patterns :: LineHit(SplitLines(content)[v.line - 1], p)
      {
        GatherSound(PassOf(content), patterns, v);
        var p :| p in patterns && v in PatternPass(p, content);
      }
    }
    r
  }

  /** How many of the patterns a line contains. */
  function MatchCount(patterns: seq<string>, line: string): nat {
    if |patterns| == 0 then 0
    else MatchCount(patterns[..|patterns| - 1], line) + (if LineHit(line, patterns[|patterns| - 1]) then 1 else 0)
  }

  /** The nested loops of the validator, filling the violations list. */
  method ScanPatterns(patterns: seq<string>, content: string) returns (violations: seq<Violation>)
    ensures violations == Violations(patterns, content)
  {
    violations := [];
    var lowered := Lower(content);
    var j := 0;
    while j < |patterns|
      invariant 0 <= j <= |patterns|
      invariant violations == Violations(patterns[..j], content)
    {
      var pattern := patterns[j];
      var q := Lower(pattern);
      assert patterns[..j + 1][..j] == patterns[..j];
      if Contains(lowered, q) {
        var hits := ScanLines(pattern, q, SplitLines(content));
        violations := violations + hits;
      }
      j := j + 1;
    }
    assert patterns[..|patterns|] == patterns;
  }

  /** The inner loop: the lines holding the lower-cased pattern `q`, in line order. */
  method ScanLines(pattern: string, q: string, lines: seq<string>) returns (hits: seq<Violation>)
    requires q == Lower(pattern)
    ensures hits == Hits(pattern, lines)
  {
    hits := [];
    var i := 0;
    while i < |lines|
      invariant 0 <= i <= |lines|
      invariant hits == Hits(pattern, lines[..i])
    {
      assert lines[..i + 1][..i] == lines[..i];
      if Contains(Lower(lines[i]), q) {
        hits := hits + [Violation(i + 1, Snippet(lines[i]))];
      }
      i := i + 1;
    }
    assert lines[..|lines|] == lines;
  }

  /**
   * A validation run: a missing file fails without a scan; a path that
   * exists but cannot be read (`content` is `None`) is an error; otherwise
   * the run passes when the scan found nothing, and fails with the number of
   * violations and the first `shownMax` of them.
   */
  method Validate(patterns: seq<string>, shownMax: nat, fileExists: bool, content: Option<string>)
    returns (verdict: Verdict)
    ensures verdict == FileMissing <==> !fileExists
    ensures verdict == ReadError <==> fileExists && content.None?
    ensures verdict == Passed <==> fileExists && content.Some? && Violations(patterns, content.value) == []
    ensures verdict.Failed? ==> content.Some? && verdict.total == |Violations(patterns, content.value)| > 0
    ensures verdict.Failed? ==> verdict.shown == Take(Violations(patterns, content.value), shownMax)
  {
    if !fileExists {
      return FileMissing;
    }
    if content.None? {
      return ReadError;
    }
    var violations := ScanPatterns(patterns, content.value);
    if |violations| > 0 {
      return Failed(|violations|, Take(violations, shownMax));
    }
    return Passed;
  }

  // ---------------------------------------------------------------------
  // Lemmas

  /** Every accepted line is marked. */
  lemma {:induction false} MarkedComplete(hit: string -> bool, quote: string -> string, lines: seq<string>, i: nat)
    requires i < |lines| && hit(lines[i])
    ensures Violation(i + 1, quote(lines[i])) in Marked(hit, quote, lines)
    decreases |lines|
  {
    var last := |lines| - 1;
    if i < last {
      assert lines[..last][i] == lines[i];
      MarkedComplete(hit, quote, lines[..last], i);
    }
  }

  /** Every mark names an existing line that was accepted, and quotes it. */
  lemma {:induction false} MarkedSound(hit: string -> bool, quote: string -> string, lines: seq<string>)
    ensures forall v <- Marked(hit, quote, lines) ::
              1 <= v.line <= |lines| && hit(lines[v.line - 1]) && v.snippet == quote(lines[v.line - 1])
    decreases |lines|
  {
    if |lines| > 0 {
      var last := |lines| - 1;
      var init := lines[..last];
      MarkedSound(hit, quote, init);
      var tail := if hit(lines[last]) then [Violation(|lines|, quote(lines[last]))] else [];
      assert Marked(hit, quote, lines) == Marked(hit, quote, init) + tail;
      forall v | v in Marked(hit, quote, lines)
        ensures 1 <= v.line <= |lines| && hit(lines[v.line - 1]) && v.snippet == quote(lines[v.line - 1])
      {
        if v in Marked(hit, quote, init) {
          assert init[v.line - 1] == lines[v.line - 1];
        } else {
          assert v in tail;
        }
      }
    }
  }

  /** Every mark names an existing line. */
  lemma {:induction false} MarkedLines(hit: string -> bool, quote: string -> string, lines: seq<string>)
    ensures forall v <- Marked(hit, quote, lines) :: 1 <= v.line <= |lines|
    decreases |lines|
  {
    if |lines| > 0 {
      MarkedLines(hit, quote, lines[..|lines| - 1]);
    }
  }

  /** Marks come in strictly increasing line order. */
  lemma {:induction false} MarkedOrdered(hit: string -> bool, quote: string -> string, lines: seq<string>)
    ensures forall v <- Marked(hit, quote, lines) :: 1 <= v.line <= |lines|
    ensures forall a, b :: 0 <= a < b < |Marked(hit, quote, lines)| ==>
              Marked(hit, quote, lines)[a].line < Marked(hit, quote, lines)[b].line
    decreases |lines|
  {
    if |lines| > 0 {
      MarkedOrdered(hit, quote, lines[..|lines| - 1]);
    }
  }

  lemma AbsentLine(r: seq<Violation>, v: Violation)
    requires forall w <- r :: w.line != v.line
    ensures multiset(r)[v] == 0
  {
  }

  lemma CountSplit(init: seq<Violation>, tail: seq<Violation>, v: Violation)
    ensures multiset(init + tail)[v] == multiset(init)[v] + multiset(tail)[v]
  {
    assert multiset(init + tail) == multiset(init) + multiset(tail);
  }

  /** The last step of the scan: what the last line adds to the marks of the lines before it. */
  lemma MarkedStep(hit: string -> bool, quote: string -> string, lines: seq<string>, v: Violation)
    requires |lines| > 0
    ensures multiset(Marked(hit, quote, lines))[v] ==
            multiset(Marked(hit, quote, lines[..|lines| - 1]))[v]
            + (if hit(lines[|lines| - 1]) && v == Violation(|lines|, quote(lines[|lines| - 1])) then 1 else 0)
  {
    var last := |lines| - 1;
    var init := Marked(hit, quote, lines[..last]);
    var tail := if hit(lines[last]) then [Violation(|lines|, quote(lines[last]))] else [];
    assert Marked(hit, quote, lines) == init + tail;
    CountSplit(init, tail, v);
  }

  /** A line is marked once if it is accepted, and otherwise not at all. */
  lemma {:induction false} MarkedOnce(hit: string -> bool, quote: string -> string, lines: seq<string>, i: nat)
    requires i < |lines|
    ensures multiset(Marked(hit, quote, lines))[Violation(i + 1, quote(lines[i]))] == if hit(lines[i]) then 1 else 0
    decreases |lines|
  {
    var v := Violation(i + 1, quote(lines[i]));
    var last := |lines| - 1;
    var front := lines[..last];
    var added := if hit(lines[last]) && v == Violation(|lines|, quote(lines[last])) then 1 else 0;
    MarkedStep(hit, quote, lines, v);
    assert multiset(Marked(hit, quote, lines))[v] == multiset(Marked(hit, quote, front))[v] + added;
    if i < last {
      assert added == 0 by { assert v.line != |lines|; }
      assert multiset(Marked(hit, quote, front))[v] == if hit(lines[i]) then 1 else 0 by {
        assert front[i] == lines[i];
        MarkedOnce(hit, quote, front, i);
      }
    } else {
      assert added == if hit(lines[i]) then 1 else 0;
      assert multiset(Marked(hit, quote, front))[v] == 0 by {
        MarkedLines(hit, quote, front);
        AbsentLine(Marked(hit, quote, front), v);
      }
    }
  }

  /** Every line that contains the pattern is reported. */
  lemma HitsComplete(pattern: string, lines: seq<string>, i: nat)
    requires i < |lines| && LineHit(lines[i], pattern)
    ensures Violation(i + 1, Snippet(lines[i])) in Hits(pattern, lines)
  {
    MarkedComplete(Matcher(pattern), Snippet, lines, i);
  }

  /** Every reported line exists, contains the pattern, and is quoted by its snippet. */
  lemma HitsSound(pattern: string, lines: seq<string>)
    ensures forall v <- Hits(pattern, lines) ::
              1 <= v.line <= |lines| && LineHit(lines[v.line - 1], pattern) && v.snippet == Snippet(lines[v.line - 1])
  {
    MarkedSound(Matcher(pattern), Snippet, lines);
  }

  /** Lines are reported in strictly increasing order. */
  lemma HitsOrdered(pattern: string, lines: seq<string>)
    ensures forall a, b :: 0 <= a < b < |Hits(pattern, lines)| ==> Hits(pattern, lines)[a].line < Hits(pattern, lines)[b].line
  {
    MarkedOrdered(Matcher(pattern), Snippet, lines);
  }

  /** A line is reported once for the pattern if it contains it, and otherwise not at all. */
  lemma HitsOnce(pattern: string, lines: seq<string>, i: nat)
    requires i < |lines|
    ensures multiset(Hits(pattern, lines))[Violation(i + 1, Snippet(lines[i]))]
            == if LineHit(lines[i], pattern) then 1 else 0
  {
    MarkedOnce(Matcher(pattern), Snippet, lines, i);
  }

  /**
   * The whole-text test in front of the line scan never changes the result:
   * a line that contains the pattern makes the text contain it.
   */
  lemma PatternPassIsHits(pattern: string, content: string)
    ensures PatternPass(pattern, content) == Hits(pattern, SplitLines(content))
  {
    var lines := SplitLines(content);
    var q := Lower(pattern);
    if !Contains(Lower(content), q) {
      var r := Hits(pattern, lines);
      if r != [] {
        HitsSound(pattern, lines);
        assert r[0] in r;
        var i := r[0].line - 1;
        SplitLower(content);
        LineContainsInText(Lower(content), i, q);
        assert false;
      }
    }
  }

  /** Gathering over a concatenated pattern list gives the records of each part, in order. */
  lemma {:induction false} GatherAppend(pass: string -> seq<Violation>, a: seq<string>, b: seq<string>)
    ensures Gather(pass, a + b) == Gather(pass, a) + Gather(pass, b)
    decreases |b|
  {
    if |b| == 0 {
      assert a + b == a;
    } else {
      var last := |b| - 1;
      assert (a + b)[..|a + b| - 1] == a + b[..last];
      GatherAppend(pass, a, b[..last]);
    }
  }

  /** Everything gathered was recorded by the pass of one of the patterns. */
  lemma {:induction false} GatherSound(pass: string -> seq<Violation>, patterns: seq<string>, v: Violation)
    requires v in Gather(pass, patterns)
    ensures exists p <- patterns :: v in pass(p)
    decreases |patterns|
  {
    var last := |patterns| - 1;
    var init := patterns[..last];
    if v in Gather(pass, init) {
      GatherSound(pass, init, v);
      var p :| p in init && v in pass(p);
      assert p in patterns;
    } else {
      assert patterns[last] in patterns;
    }
  }

  /** Nothing is gathered exactly when every pass records nothing. */
  lemma {:induction false} GatherEmptyIff(pass: string -> seq<Violation>, patterns: seq<string>)
    ensures Gather(pass, patterns) == [] <==> forall p <- patterns :: pass(p) == []
    decreases |patterns|
  {
    if |patterns| > 0 {
      var last := |patterns| - 1;
      var init := patterns[..last];
      GatherEmptyIff(pass, init);
      assert forall x <- init :: x in patterns;
      assert forall x <- patterns :: x in init || x == patterns[last];
    }
  }

  /** The violations of a concatenated pattern list are those of each part, in order. */
  lemma ViolationsAppend(a: seq<string>, b: seq<string>, content: string)
    ensures Violations(a + b, content) == Violations(a, content) + Violations(b, content)
  {
    GatherAppend(PassOf(content), a, b);
  }

  /** The count of patterns a line contains adds up over a concatenated list. */
  lemma {:induction false} MatchCountAppend(a: seq<string>, b: seq<string>, line: string)
    ensures MatchCount(a + b, line) == MatchCount(a, line) + MatchCount(b, line)
    decreases |b|
  {
    if |b| == 0 {
      assert a + b == a;
    } else {
      var last := |b| - 1;
      assert (a + b)[..|a + b| - 1] == a + b[..last];
      MatchCountAppend(a, b[..last], line);
    }
  }

  /** A line containing every pattern of a list counts one match per pattern. */
  lemma {:induction false} MatchCountAllHit(patterns: seq<string>, line: string)
    requires forall p <- patterns :: LineHit(line, p)
    ensures MatchCount(patterns, line) == |patterns|
    decreases |patterns|
  {
    if |patterns| > 0 {
      var init := patterns[..|patterns| - 1];
      assert forall p <- init :: p in patterns;
      MatchCountAllHit(init, line);
      assert patterns[|patterns| - 1] in patterns;
    }
  }

  /** A line containing one of the patterns matches at least once. */
  lemma {:induction false} MatchCountOneHit(patterns: seq<string>, line: string, a: nat)
    requires a < |patterns| && LineHit(line, patterns[a])
    ensures MatchCount(patterns, line) >= 1
    decreases |patterns|
  {
    var init := patterns[..|patterns| - 1];
    if a < |patterns| - 1 {
      assert init[a] == patterns[a];
      MatchCountOneHit(init, line, a);
    }
  }

  /** A line containing two of the patterns, at different places in the list, matches at least twice. */
  lemma {:induction false} MatchCountTwoHits(patterns: seq<string>, line: string, a: nat, b: nat)
    requires a < b < |patterns| && LineHit(line, patterns[a]) && LineHit(line, patterns[b])
    ensures MatchCount(patterns, line) >= 2
    decreases |patterns|
  {
    var init := patterns[..|patterns| - 1];
    assert init[a] == patterns[a];
    if b == |patterns| - 1 {
      MatchCountOneHit(init, line, a);
    } else {
      assert init[b] == patterns[b];
      MatchCountTwoHits(init, line, a, b);
    }
  }

  /**
   * Pattern-major order: the violations for pattern j come after those for
   * every earlier pattern and before those for every later one; within a
   * pattern they are in strictly increasing line order (the ensures of Hits).
   */
  lemma ViolationsInPatternOrder(patterns: seq<string>, content: string, j: nat)
    requires j < |patterns|
    ensures Violations(patterns, content)
            == Violations(patterns[..j], content) + Hits(patterns[j], SplitLines(content))
               + Violations(patterns[j + 1..], content)
  {
    assert patterns == patterns[..j + 1] + patterns[j + 1..];
    ViolationsAppend(patterns[..j + 1], patterns[j + 1..], content);
    assert patterns[..j + 1][..j] == patterns[..j];
    PatternPassIsHits(patterns[j], content);
  }

  /** Every line containing any of the patterns is reported. */
  lemma ViolationComplete(patterns: seq<string>, content: string, p: string, i: nat)
    requires p in patterns && i < |SplitLines(content)|
    requires LineHit(SplitLines(content)[i], p)
    ensures Violation(i + 1, Snippet(SplitLines(content)[i])) in Violations(patterns, content)
  {
    var j :| 0 <= j < |patterns| && patterns[j] == p;
    ViolationsInPatternOrder(patterns, content, j);
    HitsComplete(p, SplitLines(content), i);
  }

  /**
   * A line is reported exactly once per pattern it contains: "Lorem ipsum"
   * gives three entries under a list holding "Lorem ipsum", "lorem" and "ipsum".
   */
  lemma {:induction false} ViolationMultiplicity(patterns: seq<string>, content: string, i: nat)
    requires i < |SplitLines(content)|
    ensures multiset(Violations(patterns, content))[Violation(i + 1, Snippet(SplitLines(content)[i]))]
            == MatchCount(patterns, SplitLines(content)[i])
    decreases |patterns|
  {
    if |patterns| > 0 {
      var last := |patterns| - 1;
      ViolationMultiplicity(patterns[..last], content, i);
      PatternPassIsHits(patterns[last], content);
      HitsOnce(patterns[last], SplitLines(content), i);
    }
  }

  /** For a newline-free pattern, one pass records something exactly when the text contains the pattern. */
  lemma PatternPassEmptyIff(pattern: string, content: string)
    requires '\n' !in pattern
    ensures PatternPass(pattern, content) == [] <==> !Contains(Lower(content), Lower(pattern))
  {
    var q := Lower(pattern);
    if Contains(Lower(content), q) {
      NewlineFreeLower(pattern);
      ContainsSomeLine(Lower(content), q);
      SplitLower(content);
      var i :| 0 <= i < |SplitLines(Lower(content))| && Contains(SplitLines(Lower(content))[i], q);
      HitsComplete(pattern, SplitLines(content), i);
    }
  }

  /**
   * Newline-free patterns: the scan finds nothing exactly when no pattern
   * occurs anywhere in the text, compared case-insensitively.
   */
  lemma ViolationsEmptyIff(patterns: seq<string>, content: string)
    requires forall p <- patterns :: '\n' !in p
    ensures Violations(patterns, content) == [] <==> forall p <- patterns :: !Contains(Lower(content), Lower(p))
  {
    GatherEmptyIff(PassOf(content), patterns);
    forall p <- patterns
      ensures PatternPass(p, content) == [] <==> !Contains(Lower(content), Lower(p))
    {
      PatternPassEmptyIff(p, content);
    }
  }

}
