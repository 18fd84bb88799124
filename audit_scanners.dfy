/**
 * audit_agency_swarm.py: the three line scanners of the audit agency.
 * `FileAnalyzer` looks for placeholder text, `pass`, `console.log` and
 * hard-coded values; `SecurityScanner` for SQL built from pieces, hard-coded
 * secrets, eval/exec and unchecked request bodies; `CodeQualityAnalyzer` for
 * long lines, deep indentation and magic numbers, and once per file for the
 * absence of any error handling. Each walks the 1-based lines of the file,
 * applies its checks to every line in a fixed order and lists everything it
 * finds, with no cap.
 */
module AuditScanners {
  import opened Text

  /** The checks, in the order the scanners apply them to a line. */
  datatype Check =
    | Placeholder | EmptyPass | ConsoleLog | HardcodedValue
    | SqlInjection | HardcodedSecret | UnsafeExecution | MissingValidation
    | LongLine(length: nat) | DeepNesting | MagicNumber(value: nat)

  /** One entry of a report: a check that fired on a line, quoting part of it, or the whole-file finding. */
  datatype Issue = LineIssue(line: nat, check: Check, excerpt: string) | MissingErrorHandling

  /** What a scanner returns: the file could not be read, nothing was found, or the list of issues. */
  datatype Report = Unreadable | Clean | Flagged(issues: seq<Issue>)

  const PlaceholderWords: seq<string> := ["todo", "fixme", "placeholder", "demo data", "fake", "mock", "temporary", "temp"]
  const HardcodedWords: seq<string> := ["localhost", "127.0.0.1", "password123", "admin"]
  const SecretWords: seq<string> := ["api_key", "secret", "password", "token"]
  const UnsafeCalls: seq<string> := ["eval(", "exec(", "system(", "shell_exec"]

  /** A line longer than this is too long. */
  const MaxLineLength: nat := 120
  /** How much of a long line the report quotes. */
  const ExcerptWidth: nat := 50
  /** More leading white space than this is too deep. */
  const MaxIndent: nat := 24
  /** A number above this is magic. */
  const MagicThreshold: nat := 100

  /** Position of a check in the order the checks are applied. */
  function Rank(c: Check): nat {
    match c
    case Placeholder => 0
    case EmptyPass => 1
    case ConsoleLog => 2
    case HardcodedValue => 3
    case SqlInjection => 4
    case HardcodedSecret => 5
    case UnsafeExecution => 6
    case MissingValidation => 7
    case LongLine(_) => 8
    case DeepNesting => 9
    case MagicNumber(_) => 10
  }

  function Flag(fires: bool, issue: Issue): seq<Issue> {
    if fires then [issue] else []
  }

  /** Three checks in a row: each reports its own issue, once, when it fires. */
  function Flags3(c1: bool, i1: Issue, c2: bool, i2: Issue, c3: bool, i3: Issue): (issues: seq<Issue>)
    ensures forall x <- issues :: x == i1 || x == i2 || x == i3
    ensures |issues| <= 3
  {
    Flag(c1, i1) + Flag(c2, i2) + Flag(c3, i3)
  }

  /** Four checks in a row: each reports its own issue, once, when it fires. */
  function Flags4(c1: bool, i1: Issue, c2: bool, i2: Issue, c3: bool, i3: Issue, c4: bool, i4: Issue): (issues: seq<Issue>)
    ensures forall x <- issues :: x == i1 || x == i2 || x == i3 || x == i4
    ensures |issues| <= 4
  {
    Flags3(c1, i1, c2, i2, c3, i3) + Flag(c4, i4)
  }

  /** Four checks on line `n`, each quoting `text` when it fires. */
  function LineFlags4(n: nat, text: string, c1: bool, k1: Check, c2: bool, k2: Check, c3: bool, k3: Check, c4: bool, k4: Check)
    : (issues: seq<Issue>)
    ensures forall x <- issues :: x.LineIssue? && x.line == n && x.excerpt == text
    ensures |issues| <= 4
  {
    Flags4(c1, LineIssue(n, k1, text), c2, LineIssue(n, k2, text), c3, LineIssue(n, k3, text), c4, LineIssue(n, k4, text))
  }

  /** `line.strip().startswith('#')` */
  predicate Commented(line: string) {
    StartsWith(Strip(line), "#")
  }

  /** The checks of `FileAnalyzer.run` on line `n`. */
  function FileLineIssues(n: nat, line: string): (issues: seq<Issue>)
    ensures forall x <- issues :: x.LineIssue? && x.line == n && x.excerpt == Strip(line)
    ensures |issues| <= 4
  {
    var lower := Lower(line);
    var text := Strip(line);
    var c1, c2 := ContainsAny(lower, PlaceholderWords), Contains(line, "pass") && !Commented(line);
    var c3, c4 := Contains(lower, "console.log"), ContainsAny(lower, HardcodedWords);
    LineFlags4(n, text, c1, Placeholder, c2, EmptyPass, c3, ConsoleLog, c4, HardcodedValue)
  }

  /** The checks of `SecurityScanner.run` on line `n`. */
  function SecurityLineIssues(n: nat, line: string): (issues: seq<Issue>)
    ensures forall x <- issues :: x.LineIssue? && x.line == n && x.excerpt == Strip(line)
    ensures |issues| <= 4
  {
    var lower := Lower(line);
    var text := Strip(line);
    var c1 := Contains(lower, "select") && (Contains(line, "${") || Contains(line, "{") || Contains(line, "+"));
    var c2 := ContainsAny(lower, SecretWords) && Contains(line, "=") && !Commented(line) && !Contains(lower, "getenv");
    var c3 := ContainsAny(lower, UnsafeCalls);
    var c4 := Contains(line, "req.body") && !Contains(lower, "validate") && !Contains(lower, "sanitize");
    LineFlags4(n, text, c1, SqlInjection, c2, HardcodedSecret, c3, UnsafeExecution, c4, MissingValidation)
  }

  /** The number of white-space characters at the start of the line. */
  function Indent(line: string): nat
    decreases |line|
  {
    if |line| > 0 && IsSpace(line[0]) then 1 + Indent(line[1..]) else 0
  }

  /** `[int(s) for s in words if s.isdigit() and int(s) > 1]` */
  function Numbers(words: seq<string>): seq<nat>
    decreases |words|
  {
    if |words| == 0 then []
    else
      (if IsDigits(words[0]) && DigitsValue(words[0]) > 1 then [DigitsValue(words[0])] else [])
      + Numbers(words[1..])
  }

  /** `max(xs)`: one of the values, and no value is larger. */
  function MaxOf(xs: seq<nat>): (m: nat)
    requires |xs| > 0
    ensures m in xs
    ensures forall x <- xs :: x <= m
    decreases |xs|
  {
    if |xs| == 1 then xs[0]
    else
      var rest := MaxOf(xs[1..]);
      assert forall x <- xs :: x == xs[0] || x in xs[1..];
      if xs[0] >= rest then xs[0] else rest
  }

  /** The magic-number check on a stripped line: a digit, no leading '#', and a number above the threshold. */
  predicate HasMagicNumber(stripped: string) {
    var numbers := Numbers(Words(stripped));
    HasDigit(stripped) && !StartsWith(stripped, "#") && |numbers| > 0 && MaxOf(numbers) > MagicThreshold
  }

  /** The number the magic-number check reports: the largest one on the line. */
  function MagicValue(stripped: string): nat {
    var numbers := Numbers(Words(stripped));
    if |numbers| > 0 then MaxOf(numbers) else 0
  }

  /** The line checks of `CodeQualityAnalyzer.run` on line `n`. */
  function QualityLineIssues(n: nat, line: string): (issues: seq<Issue>)
    ensures forall x <- issues :: x.LineIssue? && x.line == n
    ensures forall x <- issues :: x.check.LongLine? ==> x.excerpt == Take(line, ExcerptWidth)
    ensures |issues| <= 3
  {
    var stripped := Strip(line);
    var i1 := LineIssue(n, LongLine(|line|), Take(line, ExcerptWidth));
    var i3 := LineIssue(n, MagicNumber(MagicValue(stripped)), "");
    Flags3(|line| > MaxLineLength, i1, Indent(line) > MaxIndent, LineIssue(n, DeepNesting, ""), HasMagicNumber(stripped), i3)
  }

  /** The checks a scanner applies to line `n`. */
  type LineCheck = (nat, string) -> seq<Issue>

  /** The issues of each line, line 1 first. */
  function PerLine(check: LineCheck, lines: seq<string>): (groups: seq<seq<Issue>>)
    ensures |groups| == |lines|
  {
    seq(|lines|, k requires 0 <= k < |lines| => check(k + 1, lines[k]))
  }

  /** The groups one after the other. */
  function Concat(groups: seq<seq<Issue>>): seq<Issue>
    decreases |groups|
  {
    if |groups| == 0 then [] else Concat(groups[..|groups| - 1]) + groups[|groups| - 1]
  }

  /** What a scanner reports for `lines`: the issues of line 1, then of line 2, and so on. */
  function Findings(check: LineCheck, lines: seq<string>): seq<Issue> {
    Concat(PerLine(check, lines))
  }

  /** Neither "try" together with "catch", nor "error" or "exception", occurs in the text, ignoring case. */
  predicate LacksErrorHandling(content: string): (lacks: bool)
    ensures lacks ==> !(Contains(content, "try") && Contains(content, "catch"))
    ensures lacks ==> !Contains(content, "error") && !Contains(content, "exception")
  {
    var lower := Lower(content);
    var lacks := !(Contains(lower, "try") && Contains(lower, "catch")) && !(Contains(lower, "error") || Contains(lower, "exception"));
    assert forall w <- ["try", "catch", "error", "exception"] :: Contains(content, w) ==> Contains(lower, w) by {
      forall w <- ["try", "catch", "error", "exception"] | Contains(content, w) ensures Contains(lower, w) {
        NoCapitalsLower(w);
        LowerContains(content, w);
      }
    }
    lacks
  }

  /** The issues `CodeQualityAnalyzer.run` reports: the line issues, then the whole-file one. */
  function QualityIssues(content: string): seq<Issue> {
    Findings(QualityLineIssues, SplitLines(content)) + Flag(LacksErrorHandling(content), MissingErrorHandling)
  }

  // ---------------------------------------------------------------------
  // The scanners

  lemma ConcatAppend(groups: seq<seq<Issue>>, group: seq<Issue>)
    ensures Concat(groups + [group]) == Concat(groups) + group
  {
    assert (groups + [group])[..|groups|] == groups;
  }

  /** The `for i, line in enumerate(lines, 1)` loop the three scanners share, `check` being its body. */
  method ScanLines(check: LineCheck, content: string) returns (issues: seq<Issue>)
    ensures issues == Findings(check, SplitLines(content))
  {
    var lines := SplitLines(content);
    ghost var groups := PerLine(check, lines);
    issues := [];
    var i := 0;
    while i < |lines|
      invariant 0 <= i <= |lines|
      invariant issues == Concat(groups[..i])
    {
      var here := check(i + 1, lines[i]);
      assert groups[..i + 1] == groups[..i] + [here];
      ConcatAppend(groups[..i], here);
      issues := issues + here;
      i := i + 1;
    }
    assert groups[..i] == groups;
  }

  /**
   * `FileAnalyzer.run`: an unreadable file is an error; otherwise the file is
   * clean exactly when no check fires on any line, and the report lists
   * every issue of every line.
   */
  method AnalyzeFile(content: Option<string>) returns (report: Report)
    ensures content.None? <==> report == Unreadable
    ensures content.Some? ==>
              (report == Clean <==> forall k :: 0 <= k < |SplitLines(content.value)| ==>
                                               FileLineIssues(k + 1, SplitLines(content.value)[k]) == [])
    ensures report.Flagged? ==> report.issues == Findings(FileLineIssues, SplitLines(content.value))
  {
    if content.None? {
      return Unreadable;
    }
    var issues := ScanLines(FileLineIssues, content.value);
    FindingsEmptyIff(FileLineIssues, SplitLines(content.value));
    report := if issues == [] then Clean else Flagged(issues);
  }

  /**
   * `SecurityScanner.run`: an unreadable file is an error; otherwise the file
   * is secure exactly when no check fires on any line, and the alert lists
   * every issue of every line.
   */
  method ScanSecurity(content: Option<string>) returns (report: Report)
    ensures content.None? <==> report == Unreadable
    ensures content.Some? ==>
              (report == Clean <==> forall k :: 0 <= k < |SplitLines(content.value)| ==>
                                               SecurityLineIssues(k + 1, SplitLines(content.value)[k]) == [])
    ensures report.Flagged? ==> report.issues == Findings(SecurityLineIssues, SplitLines(content.value))
  {
    if content.None? {
      return Unreadable;
    }
    var issues := ScanLines(SecurityLineIssues, content.value);
    FindingsEmptyIff(SecurityLineIssues, SplitLines(content.value));
    report := if issues == [] then Clean else Flagged(issues);
  }

  /**
   * `CodeQualityAnalyzer.run`: an unreadable file is an error; otherwise the
   * line issues are followed by the missing-error-handling issue when the
   * text lacks error handling, and the file is fine exactly when there is
   * neither.
   */
  method AnalyzeQuality(content: Option<string>) returns (report: Report)
    ensures content.None? <==> report == Unreadable
    ensures content.Some? ==>
              (report == Clean <==> !LacksErrorHandling(content.value) &&
                                    forall k :: 0 <= k < |SplitLines(content.value)| ==>
                                      QualityLineIssues(k + 1, SplitLines(content.value)[k]) == [])
    ensures report.Flagged? ==> report.issues == QualityIssues(content.value)
  {
    if content.None? {
      return Unreadable;
    }
    var found := ScanLines(QualityLineIssues, content.value);
    var issues := found;
    if LacksErrorHandling(content.value) {
      issues := issues + [MissingErrorHandling];
    }
    assert issues == found + Flag(LacksErrorHandling(content.value), MissingErrorHandling);
    FindingsEmptyIff(QualityLineIssues, SplitLines(content.value));
    report := if issues == [] then Clean else Flagged(issues);
  }

  // ---------------------------------------------------------------------
  // The shape of a report

  /** Each check at most once, in the order the checks are applied. */
  predicate RankSorted(issues: seq<Issue>) {
    forall a, b :: 0 <= a < b < |issues| ==>
      issues[a].LineIssue? && issues[b].LineIssue? && Rank(issues[a].check) < Rank(issues[b].check)
  }

  /** The issues of one line `n`: all name line `n`, each check at most once, in order. */
  predicate LineGroup(group: seq<Issue>, n: nat) {
    (forall x <- group :: x.LineIssue? && x.line == n) && RankSorted(group)
  }

  /** A line check that gives a line group of at most `width` issues for every line. */
  ghost predicate WellShaped(check: LineCheck, width: nat) {
    forall n: nat, line: string :: LineGroup(check(n, line), n) && |check(n, line)| <= width
  }

  lemma FlagKeepsSorted(issues: seq<Issue>, fires: bool, issue: Issue)
    requires RankSorted(issues) && issue.LineIssue?
    requires forall x <- issues :: x.LineIssue? && Rank(x.check) < Rank(issue.check)
    ensures RankSorted(issues + Flag(fires, issue))
  {
    var r := issues + Flag(fires, issue);
    forall a, b | 0 <= a < b < |r|
      ensures r[a].LineIssue? && r[b].LineIssue? && Rank(r[a].check) < Rank(r[b].check)
    {
      if b >= |issues| {
        assert r[a] in issues;
      }
    }
  }

  /** Three checks in rank order, each naming line `n`, make a line group. */
  lemma ThreeFlags(n: nat, c1: bool, i1: Issue, c2: bool, i2: Issue, c3: bool, i3: Issue)
    requires i1.LineIssue? && i2.LineIssue? && i3.LineIssue?
    requires i1.line == n && i2.line == n && i3.line == n
    requires Rank(i1.check) < Rank(i2.check) < Rank(i3.check)
    ensures LineGroup(Flag(c1, i1) + Flag(c2, i2) + Flag(c3, i3), n)
    ensures |Flag(c1, i1) + Flag(c2, i2) + Flag(c3, i3)| <= 3
  {
    FlagKeepsSorted(Flag(c1, i1), c2, i2);
    FlagKeepsSorted(Flag(c1, i1) + Flag(c2, i2), c3, i3);
  }

  /** Four checks in rank order, each naming line `n`, make a line group. */
  lemma FourFlags(n: nat, c1: bool, i1: Issue, c2: bool, i2: Issue, c3: bool, i3: Issue, c4: bool, i4: Issue)
    requires i1.LineIssue? && i2.LineIssue? && i3.LineIssue? && i4.LineIssue?
    requires i1.line == n && i2.line == n && i3.line == n && i4.line == n
    requires Rank(i1.check) < Rank(i2.check) < Rank(i3.check) < Rank(i4.check)
    ensures LineGroup(Flag(c1, i1) + Flag(c2, i2) + Flag(c3, i3) + Flag(c4, i4), n)
    ensures |Flag(c1, i1) + Flag(c2, i2) + Flag(c3, i3) + Flag(c4, i4)| <= 4
  {
    ThreeFlags(n, c1, i1, c2, i2, c3, i3);
    FlagKeepsSorted(Flag(c1, i1) + Flag(c2, i2) + Flag(c3, i3), c4, i4);
  }

  lemma FileLineShape(n: nat, line: string)
    ensures LineGroup(FileLineIssues(n, line), n) && |FileLineIssues(n, line)| <= 4
  {
    var lower := Lower(line);
    var text := Strip(line);
    FourFlags(n, ContainsAny(lower, PlaceholderWords), LineIssue(n, Placeholder, text),
              Contains(line, "pass") && !Commented(line), LineIssue(n, EmptyPass, text),
              Contains(lower, "console.log"), LineIssue(n, ConsoleLog, text),
              ContainsAny(lower, HardcodedWords), LineIssue(n, HardcodedValue, text));
  }

  lemma SecurityLineShape(n: nat, line: string)
    ensures LineGroup(SecurityLineIssues(n, line), n) && |SecurityLineIssues(n, line)| <= 4
  {
    var lower := Lower(line);
    var text := Strip(line);
    FourFlags(n, Contains(lower, "select") && (Contains(line, "${") || Contains(line, "{") || Contains(line, "+")),
              LineIssue(n, SqlInjection, text),
              ContainsAny(lower, SecretWords) && Contains(line, "=") && !Commented(line) && !Contains(lower, "getenv"),
              LineIssue(n, HardcodedSecret, text),
              ContainsAny(lower, UnsafeCalls), LineIssue(n, UnsafeExecution, text),
              Contains(line, "req.body") && !Contains(lower, "validate") && !Contains(lower, "sanitize"),
              LineIssue(n, MissingValidation, text));
  }

  lemma QualityLineShape(n: nat, line: string)
    ensures LineGroup(QualityLineIssues(n, line), n) && |QualityLineIssues(n, line)| <= 3
  {
    var stripped := Strip(line);
    ThreeFlags(n, |line| > MaxLineLength, LineIssue(n, LongLine(|line|), Take(line, ExcerptWidth)),
               Indent(line) > MaxIndent, LineIssue(n, DeepNesting, ""),
               HasMagicNumber(stripped), LineIssue(n, MagicNumber(MagicValue(stripped)), ""));
  }

  /**
   * On one line each scanner reports each of its checks at most once, in its
   * fixed order, every issue naming that line: at most four issues a line
   * for `FileAnalyzer` and `SecurityScanner`, three for `CodeQualityAnalyzer`.
   */
  lemma ScannersWellShaped()
    ensures WellShaped(FileLineIssues, 4)
    ensures WellShaped(SecurityLineIssues, 4)
    ensures WellShaped(QualityLineIssues, 3)
  {
    forall n: nat, line: string
      ensures LineGroup(FileLineIssues(n, line), n) && |FileLineIssues(n, line)| <= 4
    {
      FileLineShape(n, line);
    }
    forall n: nat, line: string
      ensures LineGroup(SecurityLineIssues(n, line), n) && |SecurityLineIssues(n, line)| <= 4
    {
      SecurityLineShape(n, line);
    }
    forall n: nat, line: string
      ensures LineGroup(QualityLineIssues(n, line), n) && |QualityLineIssues(n, line)| <= 3
    {
      QualityLineShape(n, line);
    }
  }

  /** Groups that are line groups of lines 1, 2, ... */
  predicate Numbered(groups: seq<seq<Issue>>) {
    forall k :: 0 <= k < |groups| ==> LineGroup(groups[k], k + 1)
  }

  lemma PerLineNumbered(check: LineCheck, width: nat, lines: seq<string>)
    requires WellShaped(check, width)
    ensures Numbered(PerLine(check, lines))
    ensures forall k :: 0 <= k < |lines| ==> |PerLine(check, lines)[k]| <= width
  {
    forall k | 0 <= k < |lines|
      ensures LineGroup(PerLine(check, lines)[k], k + 1) && |PerLine(check, lines)[k]| <= width
    {
      assert PerLine(check, lines)[k] == check(k + 1, lines[k]);
    }
  }

  lemma NumberedPrefix(groups: seq<seq<Issue>>)
    requires Numbered(groups) && |groups| > 0
    ensures Numbered(groups[..|groups| - 1])
  {
    var init := groups[..|groups| - 1];
    forall k | 0 <= k < |init| ensures LineGroup(init[k], k + 1) {
      assert init[k] == groups[k];
    }
  }

  lemma {:induction false} ConcatOnLines(groups: seq<seq<Issue>>)
    requires Numbered(groups)
    ensures forall x <- Concat(groups) :: x.LineIssue? && 1 <= x.line <= |groups|
    decreases |groups|
  {
    if |groups| > 0 {
      NumberedPrefix(groups);
      ConcatOnLines(groups[..|groups| - 1]);
    }
  }

  lemma {:induction false} ConcatMembership(groups: seq<seq<Issue>>, x: Issue)
    requires Numbered(groups)
    ensures x in Concat(groups) <==> x.LineIssue? && 1 <= x.line <= |groups| && x in groups[x.line - 1]
    decreases |groups|
  {
    if |groups| > 0 {
      var init := groups[..|groups| - 1];
      NumberedPrefix(groups);
      ConcatMembership(init, x);
      if x.LineIssue? && 1 <= x.line < |groups| {
        assert init[x.line - 1] == groups[x.line - 1];
      }
    }
  }

  /** Ordered by line, and within a line by the order of the checks. */
  predicate InReportOrder(issues: seq<Issue>) {
    forall a, b :: 0 <= a < b < |issues| ==>
      issues[a].LineIssue? && issues[b].LineIssue? &&
      (issues[a].line < issues[b].line ||
       (issues[a].line == issues[b].line && Rank(issues[a].check) < Rank(issues[b].check)))
  }

  lemma {:induction false} ConcatInReportOrder(groups: seq<seq<Issue>>)
    requires Numbered(groups)
    ensures InReportOrder(Concat(groups))
    decreases |groups|
  {
    if |groups| > 0 {
      var init := groups[..|groups| - 1];
      NumberedPrefix(groups);
      ConcatInReportOrder(init);
      ConcatOnLines(init);
      var before := Concat(init);
      var here := groups[|groups| - 1];
      assert LineGroup(here, |groups|);
      var all := before + here;
      forall a, b | 0 <= a < b < |all|
        ensures all[a].LineIssue? && all[b].LineIssue? &&
                (all[a].line < all[b].line || (all[a].line == all[b].line && Rank(all[a].check) < Rank(all[b].check)))
      {
        if a >= |before| {
          assert all[a] == here[a - |before|] && all[b] == here[b - |before|];
        } else if b >= |before| {
          assert all[a] in before && all[b] in here;
        } else {
          assert all[a] == before[a] && all[b] == before[b];
        }
      }
    }
  }

  lemma {:induction false} ConcatBound(groups: seq<seq<Issue>>, width: nat)
    requires forall k :: 0 <= k < |groups| ==> |groups[k]| <= width
    ensures |Concat(groups)| <= width * |groups|
    decreases |groups|
  {
    if |groups| > 0 {
      var init := groups[..|groups| - 1];
      ConcatBound(init, width);
      assert width * |groups| == width * |init| + width;
    }
  }

  lemma {:induction false} ConcatEmptyIff(groups: seq<seq<Issue>>)
    ensures Concat(groups) == [] <==> forall k :: 0 <= k < |groups| ==> groups[k] == []
    decreases |groups|
  {
    if |groups| > 0 {
      var init := groups[..|groups| - 1];
      ConcatEmptyIff(init);
      assert forall k :: 0 <= k < |init| ==> init[k] == groups[k];
    }
  }

  /**
   * An issue is reported exactly when it is one of the issues of the line it
   * names: nothing is invented and nothing is dropped.
   */
  lemma FindingsMembership(check: LineCheck, width: nat, lines: seq<string>, x: Issue)
    requires WellShaped(check, width)
    ensures x in Findings(check, lines) <==>
            x.LineIssue? && 1 <= x.line <= |lines| && x in check(x.line, lines[x.line - 1])
  {
    PerLineNumbered(check, width, lines);
    ConcatMembership(PerLine(check, lines), x);
  }

  /** Reports are in line order, and within a line in the order of the checks. */
  lemma FindingsInReportOrder(check: LineCheck, width: nat, lines: seq<string>)
    requires WellShaped(check, width)
    ensures InReportOrder(Findings(check, lines))
  {
    PerLineNumbered(check, width, lines);
    ConcatInReportOrder(PerLine(check, lines));
  }

  /** With no cap, a report still holds at most `width` issues per line. */
  lemma FindingsBound(check: LineCheck, width: nat, lines: seq<string>)
    requires WellShaped(check, width)
    ensures |Findings(check, lines)| <= width * |lines|
  {
    PerLineNumbered(check, width, lines);
    ConcatBound(PerLine(check, lines), width);
  }

  /** A scanner finds nothing exactly when no check fires on any line. */
  lemma FindingsEmptyIff(check: LineCheck, lines: seq<string>)
    ensures Findings(check, lines) == [] <==> forall k :: 0 <= k < |lines| ==> check(k + 1, lines[k]) == []
  {
    var groups := PerLine(check, lines);
    ConcatEmptyIff(groups);
    assert forall k :: 0 <= k < |lines| ==> groups[k] == check(k + 1, lines[k]);
  }

  // ---------------------------------------------------------------------
  // What the individual checks mean

  /** A check of the lower-cased line against a word list fires exactly when the line holds one of the words in any case. */
  lemma AnyWordIff(line: string, words: seq<string>)
    ensures ContainsAny(Lower(line), words) <==> exists w <- words :: HasAnyCase(line, w)
  {
    forall w <- words ensures HasAnyCase(line, w) <==> Contains(Lower(line), w) {
      HasAnyCaseIff(line, w);
    }
  }

  /**
   * Error handling is found exactly when the text holds "try" and "catch",
   * or "error", or "exception", each in any case ("Try", "CATCH", "Error").
   */
  lemma ErrorHandlingIff(content: string)
    ensures !LacksErrorHandling(content) <==>
              (HasAnyCase(content, "try") && HasAnyCase(content, "catch"))
              || HasAnyCase(content, "error") || HasAnyCase(content, "exception")
  {
    HasAnyCaseIff(content, "try");
    HasAnyCaseIff(content, "catch");
    HasAnyCaseIff(content, "error");
    HasAnyCaseIff(content, "exception");
  }

  /** An issue is among four flagged ones exactly when one of them is it and fires. */
  lemma InFlags(c1: bool, i1: Issue, c2: bool, i2: Issue, c3: bool, i3: Issue, c4: bool, i4: Issue, x: Issue)
    ensures x in Flag(c1, i1) + Flag(c2, i2) + Flag(c3, i3) + Flag(c4, i4) <==>
            (c1 && x == i1) || (c2 && x == i2) || (c3 && x == i3) || (c4 && x == i4)
  {
  }

  /**
   * The `pass` check reads the raw line, case-sensitively, and skips only
   * lines whose first non-blank character is '#'.
   */
  lemma PassIff(n: nat, line: string)
    ensures LineIssue(n, EmptyPass, Strip(line)) in FileLineIssues(n, line) <==>
            Contains(line, "pass") && !Commented(line)
  {
    var lower := Lower(line);
    var text := Strip(line);
    InFlags(ContainsAny(lower, PlaceholderWords), LineIssue(n, Placeholder, text),
            Contains(line, "pass") && !Commented(line), LineIssue(n, EmptyPass, text),
            Contains(lower, "console.log"), LineIssue(n, ConsoleLog, text),
            ContainsAny(lower, HardcodedWords), LineIssue(n, HardcodedValue, text),
            LineIssue(n, EmptyPass, text));
  }

  /**
   * The placeholder check reads the lower-cased line: it fires exactly when
   * the line holds one of the placeholder words in any case ("TODO", "Fake").
   */
  lemma PlaceholderIff(n: nat, line: string)
    ensures LineIssue(n, Placeholder, Strip(line)) in FileLineIssues(n, line) <==>
            exists w <- PlaceholderWords :: HasAnyCase(line, w)
  {
    var lower := Lower(line);
    var text := Strip(line);
    InFlags(ContainsAny(lower, PlaceholderWords), LineIssue(n, Placeholder, text),
            Contains(line, "pass") && !Commented(line), LineIssue(n, EmptyPass, text),
            Contains(lower, "console.log"), LineIssue(n, ConsoleLog, text),
            ContainsAny(lower, HardcodedWords), LineIssue(n, HardcodedValue, text),
            LineIssue(n, Placeholder, text));
    AnyWordIff(line, PlaceholderWords);
  }

  /** The console.log check fires exactly when the line holds "console.log" in any case. */
  lemma ConsoleLogIff(n: nat, line: string)
    ensures LineIssue(n, ConsoleLog, Strip(line)) in FileLineIssues(n, line) <==> HasAnyCase(line, "console.log")
  {
    var lower := Lower(line);
    var text := Strip(line);
    InFlags(ContainsAny(lower, PlaceholderWords), LineIssue(n, Placeholder, text),
            Contains(line, "pass") && !Commented(line), LineIssue(n, EmptyPass, text),
            Contains(lower, "console.log"), LineIssue(n, ConsoleLog, text),
            ContainsAny(lower, HardcodedWords), LineIssue(n, HardcodedValue, text),
            LineIssue(n, ConsoleLog, text));
    HasAnyCaseIff(line, "console.log");
  }

  /** The hard-coded value check fires exactly when the line holds one of its words in any case ("LocalHost", "ADMIN"). */
  lemma HardcodedIff(n: nat, line: string)
    ensures LineIssue(n, HardcodedValue, Strip(line)) in FileLineIssues(n, line) <==>
            exists w <- HardcodedWords :: HasAnyCase(line, w)
  {
    var lower := Lower(line);
    var text := Strip(line);
    InFlags(ContainsAny(lower, PlaceholderWords), LineIssue(n, Placeholder, text),
            Contains(line, "pass") && !Commented(line), LineIssue(n, EmptyPass, text),
            Contains(lower, "console.log"), LineIssue(n, ConsoleLog, text),
            ContainsAny(lower, HardcodedWords), LineIssue(n, HardcodedValue, text),
            LineIssue(n, HardcodedValue, text));
    AnyWordIff(line, HardcodedWords);
  }

  /** So every uncommented line holding "password" is reported as an empty implementation. */
  lemma PasswordTripsPass(n: nat, line: string)
    requires Contains(line, "password") && !Commented(line)
    ensures LineIssue(n, EmptyPass, Strip(line)) in FileLineIssues(n, line)
  {
    ContainsAt("password", 0, "pass");
    ContainsTransitive(line, "password", "pass");
    PassIff(n, line);
  }

  /**
   * A secret is reported exactly when the lower-cased line names one of the
   * secret words, the line holds '=', it is not a comment, and it does not
   * read the value with "getenv".
   */
  lemma SecretIff(n: nat, line: string)
    ensures LineIssue(n, HardcodedSecret, Strip(line)) in SecurityLineIssues(n, line) <==>
            ContainsAny(Lower(line), SecretWords) && Contains(line, "=") && !Commented(line)
            && !Contains(Lower(line), "getenv")
  {
    var lower := Lower(line);
    var text := Strip(line);
    InFlags(Contains(lower, "select") && (Contains(line, "${") || Contains(line, "{") || Contains(line, "+")),
            LineIssue(n, SqlInjection, text),
            ContainsAny(lower, SecretWords) && Contains(line, "=") && !Commented(line) && !Contains(lower, "getenv"),
            LineIssue(n, HardcodedSecret, text),
            ContainsAny(lower, UnsafeCalls), LineIssue(n, UnsafeExecution, text),
            Contains(line, "req.body") && !Contains(lower, "validate") && !Contains(lower, "sanitize"),
            LineIssue(n, MissingValidation, text),
            LineIssue(n, HardcodedSecret, text));
  }

  /** The unsafe-execution check fires exactly when the line holds one of the unsafe calls in any case ("EVAL(", "Shell_Exec"). */
  lemma UnsafeCallIff(n: nat, line: string)
    ensures LineIssue(n, UnsafeExecution, Strip(line)) in SecurityLineIssues(n, line) <==>
            exists w <- UnsafeCalls :: HasAnyCase(line, w)
  {
    var lower := Lower(line);
    var text := Strip(line);
    InFlags(Contains(lower, "select") && (Contains(line, "${") || Contains(line, "{") || Contains(line, "+")),
            LineIssue(n, SqlInjection, text),
            ContainsAny(lower, SecretWords) && Contains(line, "=") && !Commented(line) && !Contains(lower, "getenv"),
            LineIssue(n, HardcodedSecret, text),
            ContainsAny(lower, UnsafeCalls), LineIssue(n, UnsafeExecution, text),
            Contains(line, "req.body") && !Contains(lower, "validate") && !Contains(lower, "sanitize"),
            LineIssue(n, MissingValidation, text),
            LineIssue(n, UnsafeExecution, text));
    AnyWordIff(line, UnsafeCalls);
  }

  /**
   * Missing validation is reported exactly when the raw line holds
   * "req.body", case-sensitively, and the lower-cased line holds neither
   * "validate" nor "sanitize".
   */
  lemma ValidationIff(n: nat, line: string)
    ensures LineIssue(n, MissingValidation, Strip(line)) in SecurityLineIssues(n, line) <==>
            Contains(line, "req.body") && !Contains(Lower(line), "validate") && !Contains(Lower(line), "sanitize")
  {
    var lower := Lower(line);
    var text := Strip(line);
    InFlags(Contains(lower, "select") && (Contains(line, "${") || Contains(line, "{") || Contains(line, "+")),
            LineIssue(n, SqlInjection, text),
            ContainsAny(lower, SecretWords) && Contains(line, "=") && !Commented(line) && !Contains(lower, "getenv"),
            LineIssue(n, HardcodedSecret, text),
            ContainsAny(lower, UnsafeCalls), LineIssue(n, UnsafeExecution, text),
            Contains(line, "req.body") && !Contains(lower, "validate") && !Contains(lower, "sanitize"),
            LineIssue(n, MissingValidation, text),
            LineIssue(n, MissingValidation, text));
  }

  /**
   * The SQL check fires exactly when the lower-cased line holds "select" and
   * the raw line holds "{" or "+": the separate test for "${" adds nothing.
   */
  lemma SqlInjectionIff(n: nat, line: string)
    ensures LineIssue(n, SqlInjection, Strip(line)) in SecurityLineIssues(n, line) <==>
            Contains(Lower(line), "select") && (Contains(line, "{") || Contains(line, "+"))
  {
    if Contains(line, "${") {
      ContainsAt("${", 1, "{");
      ContainsTransitive(line, "${", "{");
    }
  }

  /** The three line checks of the quality scanner, one flag each. */
  lemma QualityParts(n: nat, line: string)
    ensures QualityLineIssues(n, line) ==
              Flag(|line| > MaxLineLength, LineIssue(n, LongLine(|line|), Take(line, ExcerptWidth)))
              + Flag(Indent(line) > MaxIndent, LineIssue(n, DeepNesting, ""))
              + Flag(HasMagicNumber(Strip(line)), LineIssue(n, MagicNumber(MagicValue(Strip(line))), ""))
  {
  }

  /**
   * A line is too long exactly when it has more than 120 characters; the
   * report gives its length and quotes its first 50 characters.
   */
  lemma LongLineReport(n: nat, line: string)
    ensures (exists x <- QualityLineIssues(n, line) :: x.LineIssue? && x.check.LongLine?) <==> |line| > MaxLineLength
    ensures forall x <- QualityLineIssues(n, line) :: x.LineIssue? && x.check.LongLine? ==>
              x.check.length == |line| && |x.excerpt| == ExcerptWidth && x.excerpt == line[..ExcerptWidth]
  {
    var long := LineIssue(n, LongLine(|line|), Take(line, ExcerptWidth));
    var f1 := Flag(|line| > MaxLineLength, long);
    var f2 := Flag(Indent(line) > MaxIndent, LineIssue(n, DeepNesting, ""));
    var f3 := Flag(HasMagicNumber(Strip(line)), LineIssue(n, MagicNumber(MagicValue(Strip(line))), ""));
    QualityParts(n, line);
    var all: seq<Issue> := f1 + f2 + f3;
    forall x <- all | x.LineIssue? && x.check.LongLine?
      ensures x == long && |line| > MaxLineLength
    {
      assert x in f1;
    }
    if |line| > MaxLineLength {
      assert long in all;
    }
  }

  /** Indentation is deep exactly when more than 24 white-space characters open the line. */
  lemma NestingReport(n: nat, line: string)
    ensures LineIssue(n, DeepNesting, "") in QualityLineIssues(n, line) <==> Indent(line) > MaxIndent
  {
    var deep := LineIssue(n, DeepNesting, "");
    var f1 := Flag(|line| > MaxLineLength, LineIssue(n, LongLine(|line|), Take(line, ExcerptWidth)));
    var f2 := Flag(Indent(line) > MaxIndent, deep);
    var f3 := Flag(HasMagicNumber(Strip(line)), LineIssue(n, MagicNumber(MagicValue(Strip(line))), ""));
    QualityParts(n, line);
    assert deep !in f1 && deep !in f3;
    assert deep in f1 + f2 + f3 <==> deep in f2;
  }

  /**
   * `Indent` is `len(line) - len(line.lstrip())`: the length of the run of
   * white space that opens the line.
   */
  lemma {:induction false} IndentIsLeadingSpace(line: string)
    ensures Indent(line) == |line| - |LStrip(line)|
    ensures forall k :: 0 <= k < Indent(line) ==> IsSpace(line[k])
    ensures Indent(line) < |line| ==> !IsSpace(line[Indent(line)])
    decreases |line|
  {
    if |line| > 0 && IsSpace(line[0]) {
      IndentIsLeadingSpace(line[1..]);
    }
  }

  lemma {:induction false} NumbersMembership(words: seq<string>, v: nat)
    ensures v in Numbers(words) <==> exists w <- words :: IsDigits(w) && DigitsValue(w) > 1 && DigitsValue(w) == v
    decreases |words|
  {
    if |words| > 0 {
      NumbersMembership(words[1..], v);
      assert forall w <- words :: w == words[0] || w in words[1..];
    }
  }

  /**
   * The magic-number check fires on a line not opened by '#' exactly when one
   * of its white-space separated digit tokens is above 100; the leading test
   * for some digit adds nothing. It reports the largest digit token.
   */
  lemma MagicNumberMeaning(stripped: string)
    ensures HasMagicNumber(stripped) <==>
            !StartsWith(stripped, "#") && exists w <- Words(stripped) :: IsDigits(w) && DigitsValue(w) > MagicThreshold
    ensures HasMagicNumber(stripped) ==>
              (exists w <- Words(stripped) :: IsDigits(w) && DigitsValue(w) == MagicValue(stripped)) &&
              forall w <- Words(stripped) :: IsDigits(w) ==> DigitsValue(w) <= MagicValue(stripped)
  {
    var words := Words(stripped);
    var numbers := Numbers(words);
    if HasMagicNumber(stripped) {
      NumbersMembership(words, MaxOf(numbers));
      forall w <- words | IsDigits(w) ensures DigitsValue(w) <= MagicValue(stripped) {
        if DigitsValue(w) > 1 {
          NumbersMembership(words, DigitsValue(w));
        }
      }
    }
    if !StartsWith(stripped, "#") && exists w <- words :: IsDigits(w) && DigitsValue(w) > MagicThreshold {
      var w :| w in words && IsDigits(w) && DigitsValue(w) > MagicThreshold;
      NumbersMembership(words, DigitsValue(w));
      assert w[0] in w;
      WordCharsInText(stripped, w, w[0]);
    }
  }

  /**
   * The missing-error-handling issue is reported exactly when the text lacks
   * error handling, at most once, and after every line issue.
   */
  lemma ErrorHandlingReportedLast(content: string)
    ensures MissingErrorHandling in QualityIssues(content) <==> LacksErrorHandling(content)
    ensures forall k :: 0 <= k < |QualityIssues(content)| - 1 ==> QualityIssues(content)[k].LineIssue?
    ensures multiset(QualityIssues(content))[MissingErrorHandling] <= 1
  {
    var lines := SplitLines(content);
    ScannersWellShaped();
    PerLineNumbered(QualityLineIssues, 3, lines);
    ConcatOnLines(PerLine(QualityLineIssues, lines));
    FileFindingLast(Findings(QualityLineIssues, lines), LacksErrorHandling(content));
  }

  /** A whole-file finding added after line findings is the last entry, and appears at most once. */
  lemma FileFindingLast(found: seq<Issue>, fires: bool)
    requires forall x <- found :: x.LineIssue?
    ensures MissingErrorHandling in found + Flag(fires, MissingErrorHandling) <==> fires
    ensures forall k :: 0 <= k < |found + Flag(fires, MissingErrorHandling)| - 1 ==>
              (found + Flag(fires, MissingErrorHandling))[k].LineIssue?
    ensures multiset(found + Flag(fires, MissingErrorHandling))[MissingErrorHandling] <= 1
  {
    var tail := Flag(fires, MissingErrorHandling);
    assert MissingErrorHandling !in found;
    assert multiset(found + tail) == multiset(found) + multiset(tail);
    forall k | 0 <= k < |found + tail| - 1
      ensures (found + tail)[k].LineIssue?
    {
      assert (found + tail)[k] == found[k];
    }
  }
}
