/**
 * sms_agency_swarm_corrected.py: the `CodeValidator` tool, which rejects a
 * file holding placeholder text and lists at most five violations, and the
 * console loop that forwards typed messages to the agency, with three
 * one-word aliases and "exit".
 */
module CorrectedSwarm {
  import opened Text
  import opened Placeholders

  /** `CodeValidator.FORBIDDEN_PATTERNS`, row by row as the source lists them. */
  const ForbiddenPatterns: seq<Pattern> := Markers + Contacts + Phones + Names + Filler + SampleData

  const Markers: seq<Pattern> := ["TODO", "FIXME", "PLACEHOLDER", "CHANGEME", "REPLACE_ME"]
  const Contacts: seq<Pattern> := ["user@example.com", "test@test.com", "example.com"]
  const Phones: seq<Pattern> := ["123-456-7890", "555-1234", "(555)", "123-4567"]
  const Names: seq<Pattern> := ["Jane Doe", "John Doe", "Test User", "Sample Name"]
  const Filler: seq<Pattern> := ["Lorem ipsum", "lorem", "ipsum", "console.log"]
  const SampleData: seq<Pattern> := ["DEMO_DATA", "SAMPLE_DATA", "TEST_DATA"]

  /** How many violations a failure report lists. */
  const ShownViolations: nat := 5

  /**
   * `CodeValidator.run`: a missing file fails with "does not exist"; a path
   * that exists but cannot be read is a validation error; a file passes
   * exactly when no forbidden pattern occurs in it, ignoring case; otherwise
   * the report gives the number of violations and the first five.
   */
  method ValidateCode(fileExists: bool, content: Option<string>) returns (verdict: Verdict)
    ensures verdict == FileMissing <==> !fileExists
    ensures verdict == ReadError <==> fileExists && content.None?
    ensures verdict == Passed <==>
              fileExists && content.Some? && forall p <- ForbiddenPatterns :: !Contains(Lower(content.value), Lower(p))
    ensures verdict.Failed? ==> content.Some? && verdict.total == |Violations(ForbiddenPatterns, content.value)| > 0
    ensures verdict.Failed? ==> verdict.shown == Take(Violations(ForbiddenPatterns, content.value), ShownViolations)
    ensures verdict.Failed? ==> |verdict.shown| == if verdict.total < 5 then verdict.total else 5
  {
    verdict := Validate(ForbiddenPatterns, ShownViolations, fileExists, content);
    if content.Some? {
      ViolationsEmptyIff(ForbiddenPatterns, content.value);
    }
  }

  lemma LowerLoremIpsum()
    ensures Lower("Lorem ipsum") == "lorem ipsum"
    ensures Lower("lorem") == "lorem" && Lower("ipsum") == "ipsum"
  {
  }

  /**
   * A line holding "Lorem ipsum" in any case is reported at least three
   * times: under "Lorem ipsum", under "lorem" and under "ipsum".
   */
  lemma LoremIpsumReportedThrice(content: string, i: nat)
    requires i < |SplitLines(content)| && Contains(Lower(SplitLines(content)[i]), "lorem ipsum")
    ensures multiset(Violations(ForbiddenPatterns, content))[Violation(i + 1, Snippet(SplitLines(content)[i]))] >= 3
  {
    var line := SplitLines(content)[i];
    var head := Markers + Contacts + Phones + Names;
    var three := ["Lorem ipsum", "lorem", "ipsum"];
    LowerLoremIpsum();
    ContainsAt("lorem ipsum", 0, "lorem");
    ContainsAt("lorem ipsum", 6, "ipsum");
    ContainsTransitive(Lower(line), "lorem ipsum", "lorem");
    ContainsTransitive(Lower(line), "lorem ipsum", "ipsum");
    MatchCountAllHit(three, line);
    assert Filler == three + ["console.log"];
    MatchCountAppend(three, ["console.log"], line);
    MatchCountAppend(head + Filler, SampleData, line);
    MatchCountAppend(head, Filler, line);
    ViolationMultiplicity(ForbiddenPatterns, content, i);
  }

  // ---------------------------------------------------------------------
  // The console loop

  /** What the loop does with one line typed by the user. */
  datatype Action = Stop | Skip | Send(message: string)

  const StatusPrompt: string := "Get current task status from Task Master and report progress on all agents"
  const ProgressPrompt: string := "Show detailed progress on each task and identify any blockers"
  const ValidatePrompt: string := "QualityAssuranceAgent: Run validation checks on all current deliverables"

  /**
   * One turn of the loop: the input is stripped; "exit" in any case stops;
   * "status", "progress" and "validate" in any case are replaced by their
   * prompts; anything else non-empty is sent as it is, and empty input is
   * skipped.
   */
  function Interpret(raw: string): (action: Action)
    ensures action == Stop <==> Lower(Strip(raw)) == "exit"
    ensures action == Skip <==> Strip(raw) == ""
  {
    var input := Strip(raw);
    var key := Lower(input);
    assert input == "" ==> |key| == 0;
    if key == "exit" then Stop
    else
      var message :=
        if key == "status" then StatusPrompt
        else if key == "progress" then ProgressPrompt
        else if key == "validate" then ValidatePrompt
        else input;
      if message != "" then Send(message) else Skip
  }

  /**
   * The case table of `Interpret`, read off its definition: the three
   * aliases, in any case, are replaced by their prompts, and any other
   * non-blank input is sent as typed, stripped. What the loop does with a
   * whole session is stated by `Session` and the `Forwarded` lemmas.
   */
  lemma InterpretAliases(raw: string)
    ensures Lower(Strip(raw)) == "status" ==> Interpret(raw) == Send(StatusPrompt)
    ensures Lower(Strip(raw)) == "progress" ==> Interpret(raw) == Send(ProgressPrompt)
    ensures Lower(Strip(raw)) == "validate" ==> Interpret(raw) == Send(ValidatePrompt)
    ensures Strip(raw) != "" && Lower(Strip(raw)) != "exit" && Lower(Strip(raw)) != "status"
            && Lower(Strip(raw)) != "progress" && Lower(Strip(raw)) != "validate"
            ==> Interpret(raw) == Send(Strip(raw))
  {
  }

  /** One of the three alias prompts. */
  predicate IsPrompt(m: string) {
    m == StatusPrompt || m == ProgressPrompt || m == ValidatePrompt
  }

  /**
   * A message that is sent is never empty, and unless it is an alias prompt
   * it has no surrounding white space.
   */
  lemma InterpretSendsStripped(raw: string)
    ensures Interpret(raw).Send? ==> Interpret(raw).message != ""
    ensures Interpret(raw).Send? && !IsPrompt(Interpret(raw).message)
            ==> Strip(Interpret(raw).message) == Interpret(raw).message
  {
    var input := Strip(raw);
    var key := Lower(input);
    if key == "exit" {
    } else if key == "status" || key == "progress" || key == "validate" {
      assert |StatusPrompt| > 0 && |ProgressPrompt| > 0 && |ValidatePrompt| > 0;
      assert IsPrompt(Interpret(raw).message);
    } else {
      assert Interpret(raw) == if input != "" then Send(input) else Skip;
      StripIdempotent(raw);
    }
  }


  /**
   * The messages a run of typed lines sends, in order, when each line is
   * handled by `step`: lines are read until one stops the loop or until they
   * run out.
   */
  function Run(step: string -> Action, inputs: seq<string>): seq<string>
    decreases |inputs|
  {
    if |inputs| == 0 then []
    else match step(inputs[0])
      case Stop => []
      case Skip => Run(step, inputs[1..])
      case Send(m) => [m] + Run(step, inputs[1..])
  }

  /** The messages a console session hands to the agency. */
  function Forwarded(inputs: seq<string>): seq<string> {
    Run(Interpret, inputs)
  }

  /** The `while True` loop of the console, collecting what it hands to the agency. */
  method Session(inputs: seq<string>) returns (sent: seq<string>)
    ensures sent == Forwarded(inputs)
  {
    sent := [];
    var i := 0;
    while i < |inputs|
      invariant 0 <= i <= |inputs|
      invariant sent + Run(Interpret, inputs[i..]) == Forwarded(inputs)
    {
      var action := Interpret(inputs[i]);
      assert inputs[i..][1..] == inputs[i + 1..];
      match action {
        case Stop =>
          assert sent + [] == sent;
          return;
        case Skip =>
        case Send(m) =>
          sent := sent + [m];
      }
      i := i + 1;
    }
    assert sent + [] == sent;
  }

  /** A run sends at most one message per line. */
  lemma {:induction false} RunBound(step: string -> Action, inputs: seq<string>)
    ensures |Run(step, inputs)| <= |inputs|
    decreases |inputs|
  {
    if |inputs| > 0 {
      RunBound(step, inputs[1..]);
    }
  }

  /** Every message sent is what `step` made of one of the lines. */
  lemma {:induction false} RunSends(step: string -> Action, inputs: seq<string>)
    ensures forall m <- Run(step, inputs) :: exists x <- inputs :: step(x) == Send(m)
    decreases |inputs|
  {
    if |inputs| > 0 {
      RunSends(step, inputs[1..]);
      assert forall x <- inputs[1..] :: x in inputs;
    }
  }

  /** Nothing after a line that stops the loop is sent. */
  lemma {:induction false} RunStopsAt(step: string -> Action, inputs: seq<string>, k: nat)
    requires k < |inputs| && step(inputs[k]) == Stop
    ensures Run(step, inputs) == Run(step, inputs[..k])
    decreases k
  {
    if k > 0 {
      var rest := inputs[1..];
      assert rest[k - 1] == inputs[k];
      RunStopsAt(step, rest, k - 1);
      assert inputs[..k][0] == inputs[0];
      assert inputs[..k][1..] == rest[..k - 1];
    }
  }

  /** A session sends at most one message per input line. */
  lemma ForwardedBound(inputs: seq<string>)
    ensures |Forwarded(inputs)| <= |inputs|
  {
    RunBound(Interpret, inputs);
  }

  /** Every message a session sends is non-empty and, unless it is an alias prompt, stripped. */
  lemma ForwardedMessages(inputs: seq<string>)
    ensures forall m <- Forwarded(inputs) :: m != "" && (IsPrompt(m) || Strip(m) == m)
  {
    RunSends(Interpret, inputs);
    forall m <- Forwarded(inputs)
      ensures m != "" && (IsPrompt(m) || Strip(m) == m)
    {
      var x :| x in inputs && Interpret(x) == Send(m);
      InterpretSendsStripped(x);
    }
  }

  /** Nothing typed after "exit" is sent. */
  lemma ForwardedStopsAtExit(inputs: seq<string>, k: nat)
    requires k < |inputs| && Lower(Strip(inputs[k])) == "exit"
    ensures Forwarded(inputs) == Forwarded(inputs[..k])
  {
    RunStopsAt(Interpret, inputs, k);
  }
}
