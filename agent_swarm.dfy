/**
 * sms_agent_swarm.py: the `ValidateNoPlaceholders` tool, a longer pattern
 * list than `CodeValidator`'s with reports of at most ten violations, and the
 * Task Master command lines built by `UpdateTaskStatus` and
 * `UpdateSubtaskProgress` and run by `run_taskmaster_command`.
 */
module AgentSwarm {
  import opened Text
  import opened Placeholders

  /** `ValidateNoPlaceholders.FORBIDDEN_PATTERNS`, group by group as the source lists them. */
  const ForbiddenPatterns: seq<Pattern> :=
    Markers + Contacts + Phones + Names + Filler + Debugging + Reminders + SampleData + Credentials

  const Markers: seq<Pattern> := ["TODO", "FIXME", "PLACEHOLDER", "CHANGEME", "REPLACE_ME"]
  const Contacts: seq<Pattern> := ["user@example.com", "test@test.com", "example.com"]
  const Phones: seq<Pattern> := ["123-456-7890", "555-1234", "(555)", "123-4567"]
  const Names: seq<Pattern> := ["Jane Doe", "John Doe", "Test User", "Sample Name"]
  const Filler: seq<Pattern> := ["Lorem ipsum", "lorem", "ipsum"]
  const Debugging: seq<Pattern> := ["console.log", "print(", "debugger;"]
  const Reminders: seq<Pattern> := ["// Remove this", "# Remove this", "/* TODO", "<!-- TODO"]
  const SampleData: seq<Pattern> := ["DEMO_DATA", "SAMPLE_DATA", "TEST_DATA"]
  const Credentials: seq<Pattern> := ["password123", "secret123", "admin", "password"]

  /** How many violations a failure report lists. */
  const ShownViolations: nat := 10

  /**
   * `ValidateNoPlaceholders.run`: a missing file fails with "does not
   * exist"; a path that exists but cannot be read is a validation error; a
   * file passes exactly when no pattern of this list occurs in it, ignoring
   * case; otherwise the report gives the number of violations and the first
   * ten.
   */
  method ValidateNoPlaceholders(fileExists: bool, content: Option<string>) returns (verdict: Verdict)
    ensures verdict == FileMissing <==> !fileExists
    ensures verdict == ReadError <==> fileExists && content.None?
    ensures verdict == Passed <==>
              fileExists && content.Some? && forall p <- ForbiddenPatterns :: !Contains(Lower(content.value), Lower(p))
    ensures verdict.Failed? ==> content.Some? && verdict.total == |Violations(ForbiddenPatterns, content.value)| > 0
    ensures verdict.Failed? ==> verdict.shown == Take(Violations(ForbiddenPatterns, content.value), ShownViolations)
    ensures verdict.Failed? ==> |verdict.shown| == if verdict.total < 10 then verdict.total else 10
  {
    verdict := Validate(ForbiddenPatterns, ShownViolations, fileExists, content);
    if content.Some? {
      ViolationsEmptyIff(ForbiddenPatterns, content.value);
    }
  }

  /**
   * Overlapping patterns are counted separately: a line holding
   * "password123" in any case is reported under "password123" and again
   * under "password".
   */
  lemma Password123ReportedTwice(content: string, i: nat)
    requires i < |SplitLines(content)| && Contains(Lower(SplitLines(content)[i]), "password123")
    ensures multiset(Violations(ForbiddenPatterns, content))[Violation(i + 1, Snippet(SplitLines(content)[i]))] >= 2
  {
    var line := SplitLines(content)[i];
    var head := Markers + Contacts + Phones + Names + Filler + Debugging + Reminders + SampleData;
    assert ForbiddenPatterns == head + Credentials;
    assert ForbiddenPatterns[|head|] == "password123" && ForbiddenPatterns[|head| + 3] == "password";
    assert Lower("password123") == "password123" && Lower("password") == "password";
    ContainsAt("password123", 0, "password");
    ContainsTransitive(Lower(line), "password123", "password");
    MatchCountTwoHits(ForbiddenPatterns, line, |head|, |head| + 3);
    ViolationMultiplicity(ForbiddenPatterns, content, i);
  }


  /** Any line holding "admin" anywhere, in any case ("badminton", "Administrator"), is reported. */
  lemma AdminAlwaysReported(content: string, i: nat)
    requires i < |SplitLines(content)| && Contains(Lower(SplitLines(content)[i]), "admin")
    ensures Violation(i + 1, Snippet(SplitLines(content)[i])) in Violations(ForbiddenPatterns, content)
  {
    assert "admin" in Credentials;
    assert Lower("admin") == "admin";
    ViolationComplete(ForbiddenPatterns, content, "admin", i);
  }

  // ---------------------------------------------------------------------
  // Task Master command lines

  const StatusPrefix: string := "set-status --id="
  const StatusFlag: string := " --status="
  const SubtaskPrefix: string := "update-subtask --id="
  const PromptFlag: string := " --prompt=\""
  const TaskMaster: string := "task-master "

  /**
   * `UpdateTaskStatus.run`: the arguments are pasted in as they are, so a
   * task id without white space and any status can be read back from the
   * command (`StatusCommandParsed` is the other direction).
   */
  function StatusCommand(taskId: string, status: string): (command: string)
    ensures NoSpace(taskId) ==> ParseStatusCommand(command) == Some((taskId, status))
  {
    var command := StatusPrefix + taskId + StatusFlag + status;
    assert NoSpace(taskId) ==> ParseStatusCommand(command) == Some((taskId, status)) by {
      if NoSpace(taskId) {
        SplitCommandRoundTrip(StatusPrefix, StatusFlag, taskId, status);
      }
    }
    command
  }

  /**
   * `UpdateSubtaskProgress.run`: the notes go between double quotes as they
   * are, with no escaping, so a subtask id without white space and any
   * notes, quotes included, can be read back from the command.
   */
  function SubtaskCommand(subtaskId: string, notes: string): (command: string)
    ensures NoSpace(subtaskId) ==> ParseSubtaskCommand(command) == Some((subtaskId, notes))
  {
    var quoted := notes + "\"";
    var command := SubtaskPrefix + subtaskId + PromptFlag + quoted;
    assert NoSpace(subtaskId) ==> ParseSubtaskCommand(command) == Some((subtaskId, notes)) by {
      if NoSpace(subtaskId) {
        SplitCommandRoundTrip(SubtaskPrefix, PromptFlag, subtaskId, quoted);
        assert quoted[..|quoted| - 1] == notes;
      }
    }
    assert command == SubtaskPrefix + subtaskId + PromptFlag + notes + "\"";
    command
  }

  /** `run_taskmaster_command`: the shell line is the command after "task-master ". */
  function ShellLine(command: string): (line: string)
    ensures StartsWith(line, TaskMaster) && line[|TaskMaster|..] == command
  {
    TaskMaster + command
  }

  /**
   * Reads `prefix + id + flag + value` back into `(id, value)`: the id runs
   * to the first white space, and `flag` must follow it.
   */
  function SplitCommand(prefix: string, flag: string, command: string): Option<(string, string)> {
    if !StartsWith(command, prefix) then None
    else
      var rest := command[|prefix|..];
      var id := TakeWord(rest);
      var after := rest[|id|..];
      if StartsWith(after, flag) then Some((id, after[|flag|..])) else None
  }

  /** Reads a status command back into its task id and status. */
  function ParseStatusCommand(command: string): Option<(string, string)> {
    SplitCommand(StatusPrefix, StatusFlag, command)
  }

  /** Reads a subtask command back: the notes run to the final quote. */
  function ParseSubtaskCommand(command: string): Option<(string, string)> {
    match SplitCommand(SubtaskPrefix, PromptFlag, command)
    case None => None
    case Some(pair) =>
      var quoted := pair.1;
      if |quoted| > 0 && quoted[|quoted| - 1] == '"' then Some((pair.0, quoted[..|quoted| - 1])) else None
  }

  predicate NoSpace(s: string) {
    forall c <- s :: !IsSpace(c)
  }

  /** An id without white space, followed by a flag that starts with white space, reads back. */
  lemma SplitCommandRoundTrip(prefix: string, flag: string, id: string, value: string)
    requires NoSpace(id) && |flag| > 0 && IsSpace(flag[0])
    ensures SplitCommand(prefix, flag, prefix + id + flag + value) == Some((id, value))
  {
    var command := prefix + id + flag + value;
    var tail := flag + value;
    assert command == prefix + (id + tail);
    assert command[|prefix|..] == id + tail;
    assert tail[0] == flag[0];
    TakeWordOf(id, tail);
    assert (id + tail)[|id|..] == tail;
    assert tail[|flag|..] == value;
  }

  /** A string that starts with `p` is `p` followed by the rest. */
  lemma PrefixRejoin(s: string, p: string)
    requires StartsWith(s, p)
    ensures s == p + s[|p|..]
  {
    assert s == s[..|p|] + s[|p|..];
  }

  /** Three nested splits put back together. */
  lemma Rejoin(command: string, prefix: string, rest: string, id: string, after: string, flag: string, value: string)
    requires command == prefix + rest && rest == id + after && after == flag + value
    ensures command == prefix + id + flag + value
  {
  }

  /** Whatever reads back is put back together from its parts. */
  lemma SplitCommandParsed(prefix: string, flag: string, command: string)
    requires SplitCommand(prefix, flag, command).Some?
    ensures command == prefix + SplitCommand(prefix, flag, command).value.0
                      + flag + SplitCommand(prefix, flag, command).value.1
  {
    var rest := command[|prefix|..];
    var id := TakeWord(rest);
    var after := rest[|id|..];
    var value := after[|flag|..];
    assert command == prefix + rest by { PrefixRejoin(command, prefix); }
    assert rest == id + after by { PrefixRejoin(rest, id); }
    assert after == flag + value by { PrefixRejoin(after, flag); }
    Rejoin(command, prefix, rest, id, after, flag, value);
  }

  /** Every command that reads back is the command of what it reads back as. */
  lemma StatusCommandParsed(command: string)
    requires ParseStatusCommand(command).Some?
    ensures StatusCommand(ParseStatusCommand(command).value.0, ParseStatusCommand(command).value.1) == command
  {
    SplitCommandParsed(StatusPrefix, StatusFlag, command);
  }

  /**
   * With no escaping, two different argument pairs can give one command: an
   * id that goes on with " --status=" and more cannot be told apart from a
   * status that holds the same text, as "1 --status=done" with "x" against
   * "1" with "done --status=x".
   */
  lemma StatusCommandAmbiguous(taskId: string, middle: string, status: string)
    ensures StatusCommand(taskId + StatusFlag + middle, status) == StatusCommand(taskId, middle + StatusFlag + status)
  {
    var left := StatusCommand(taskId + StatusFlag + middle, status);
    var right := StatusCommand(taskId, middle + StatusFlag + status);
    assert left == StatusPrefix + taskId + StatusFlag + middle + StatusFlag + status;
    assert right == StatusPrefix + taskId + StatusFlag + middle + StatusFlag + status;
  }

  /** Every subtask command that reads back is the command of what it reads back as. */
  lemma SubtaskCommandParsed(command: string)
    requires ParseSubtaskCommand(command).Some?
    ensures SubtaskCommand(ParseSubtaskCommand(command).value.0, ParseSubtaskCommand(command).value.1) == command
  {
    var pair := SplitCommand(SubtaskPrefix, PromptFlag, command).value;
    SplitCommandParsed(SubtaskPrefix, PromptFlag, command);
    var quoted := pair.1;
    var notes := quoted[..|quoted| - 1];
    assert quoted == notes + "\"";
    assert SubtaskCommand(pair.0, notes) == SubtaskPrefix + pair.0 + PromptFlag + quoted;
  }
}
