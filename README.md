# Placeholder validators, audit scanners and Task Master commands

The SMS agency scripts give their LLM agents a handful of tools with logic of
their own:

- **Placeholder validators.** `CodeValidator` and `ValidateNoPlaceholders` read a
  file and reject it when any forbidden pattern occurs, ignoring case. A rejected
  file gets a report with the number of violations and the first five or ten of
  them. A violation is a 1-based line number with the stripped line cut to 100
  characters.
- **Console loop.** The interactive loop of the corrected launcher strips each
  typed line. "exit" stops the loop, and three one-word aliases are replaced by
  fixed prompts.
- **Task Master commands.** The command lines for setting a task's status and
  adding notes to a subtask are built by pasting the arguments in.
- **Audit scanners.** `FileAnalyzer`, `SecurityScanner` and `CodeQualityAnalyzer`
  walk the lines of a file, apply fixed checks to each line in a fixed order and
  list every finding. `DependencyChecker` reports missing scripts and caret
  ranges of major version zero in a package description. `DirectoryScanner`
  lists the files with a source or JSON extension.

The model has six modules:

- `Text` holds ASCII versions of the Python string operations these tools use.
- `Placeholders` holds the scan the two validators share. The scan is the two
  nested loops, proved equal to a function on the text.
- `CorrectedSwarm` and `AgentSwarm` instantiate that scan with their own
  pattern lists and caps. `CorrectedSwarm` also models the console loop;
  `AgentSwarm` also models the command strings.
- `AuditScanners` holds the three line scanners, sharing one line loop.
- `AuditProject` holds the dependency checker and the directory walk.

Reading a file is a parameter: `fileExists` with `content`, or an
`Option<string>`. In both, a file that cannot be read is `None`. The walk of `os.walk` is a
sequence of directories, and the parsed package.json is a `Package` value. The
reports are datatypes instead of the decorated strings of the source.

The repository's description also speaks of a device registry, a message
queue, a dispatcher and retry logic. None of the files modelled here
implements them, so none of it is part of this model.

## Model

| member | source | states |
|---|---|---|
| Text.JoinSplit | sms_agency_swarm_corrected.py:76 | joining the pieces of `split('\n')` with newlines gives back the text, so no character is lost or moved by the split |
| Text.SplitJoin | sms_agency_swarm_corrected.py:76 | splitting newline-free lines joined by newlines gives back exactly those lines |
| Text.ContainsSomeLine | sms_agency_swarm_corrected.py:75-78 | a newline-free piece occurring in the text occurs within one of its lines |
| Text.LineContainsInText | sms_agency_swarm_corrected.py:75-78 | whatever occurs in a line occurs in the text |
| Text.HasAnyCaseIff | sms_agency_swarm_corrected.py:75 | searching the lower-cased text finds a word exactly when some piece of the text is that word in some mix of cases |
| Text.LowerContains | sms_agency_swarm_corrected.py:75 | an occurrence survives lower-casing both sides |
| Text.SplitLower | sms_agency_swarm_corrected.py:75-78 | lower-casing commutes with splitting into lines: same number of lines, each lower-cased |
| Text.StripIdempotent | sms_agency_swarm_corrected.py:609 | stripping a stripped input changes nothing |
| Text.LStripRemovesSpace | audit_agency_swarm.py:174 | the characters `lstrip` removes are all white space |
| Text.TakeWordOf | sms_agent_swarm.py:63 | a word without white space, followed by white space or nothing, is the word read from the front |
| Text.ValueZeroIff | audit_agency_swarm.py:227 | a digit string has value 0 exactly when all its digits are '0' |
| Placeholders.Snippet | sms_agency_swarm_corrected.py:79 | a snippet is a prefix of the stripped line, of length min(100, length of the stripped line) |
| Placeholders.PatternPass | sms_agency_swarm_corrected.py:75-79 | one pass of the outer loop records only existing lines that contain the pattern, ignoring case, each quoted by its snippet |
| Placeholders.Violations | sms_agency_swarm_corrected.py:74-79 | every violation names an existing line, quotes its snippet, and that line contains one of the patterns, ignoring case |
| Placeholders.ScanLines | sms_agency_swarm_corrected.py:76-79 | the inner loop records exactly the hits of the pattern, line by line |
| Placeholders.ScanPatterns | sms_agency_swarm_corrected.py:73-79 | the nested loops fill the violations list with exactly the violations of the text |
| Placeholders.Validate | sms_agency_swarm_corrected.py:66-87 | missing file ⇔ FileMissing; a file that exists but cannot be read ⇔ ReadError; Passed ⇔ readable with no violation; a failure carries the full count and the first `shownMax` violations |
| Placeholders.MarkedComplete | sms_agency_swarm_corrected.py:77-79 | every accepted line is recorded, with its 1-based number and its quote |
| Placeholders.MarkedSound | sms_agency_swarm_corrected.py:77-79 | every record names an existing line that was accepted, and quotes that line |
| Placeholders.MarkedOrdered | sms_agency_swarm_corrected.py:77 | records come in strictly increasing line order |
| Placeholders.MarkedOnce | sms_agency_swarm_corrected.py:77-79 | a line is recorded exactly once if accepted and never otherwise |
| Placeholders.HitsComplete | sms_agency_swarm_corrected.py:78-79 | every line containing the pattern, ignoring case, is reported |
| Placeholders.HitsOrdered | sms_agency_swarm_corrected.py:77 | one pattern's reports are in strictly increasing line order |
| Placeholders.HitsOnce | sms_agency_swarm_corrected.py:77-79 | one pattern reports a line once if the line contains it, else not at all |
| Placeholders.PatternPassIsHits | sms_agency_swarm_corrected.py:75-79 | the whole-text test changes nothing: a pass records exactly the line hits |
| Placeholders.GatherAppend | sms_agency_swarm_corrected.py:74 | the outer loop over a concatenated pattern list records each part in turn |
| Placeholders.GatherSound | sms_agency_swarm_corrected.py:74 | everything recorded comes from the pass of one of the patterns |
| Placeholders.GatherEmptyIff | sms_agency_swarm_corrected.py:74 | nothing is recorded exactly when every pass records nothing |
| Placeholders.ViolationsAppend | sms_agency_swarm_corrected.py:74-79 | violations of a concatenated list are those of each part, pattern-major |
| Placeholders.MatchCountAppend | sms_agency_swarm_corrected.py:74-79 | the number of patterns a line contains adds up over a concatenated list |
| Placeholders.MatchCountAllHit | sms_agency_swarm_corrected.py:74-79 | a line containing every pattern of a list matches once per pattern |
| Placeholders.MatchCountOneHit | sms_agency_swarm_corrected.py:74-79 | a line containing one of the patterns matches at least once |
| Placeholders.MatchCountTwoHits | sms_agency_swarm_corrected.py:74-79 | a line containing two of the patterns matches at least twice |
| Placeholders.ViolationsInPatternOrder | sms_agency_swarm_corrected.py:74-79 | the violations are those of the patterns before pattern j, then the line hits of pattern j, then those of the patterns after it |
| Placeholders.ViolationComplete | sms_agency_swarm_corrected.py:74-79 | every line containing any listed pattern, ignoring case, is reported |
| Placeholders.ViolationMultiplicity | sms_agency_swarm_corrected.py:74-79 | a line is reported once per pattern it contains |
| Placeholders.PatternPassEmptyIff | sms_agency_swarm_corrected.py:75-79 | a newline-free pattern records something exactly when the text contains it, ignoring case |
| Placeholders.ViolationsEmptyIff | sms_agency_swarm_corrected.py:74-84 | no violations ⇔ no pattern occurs in the text, ignoring case |
| CorrectedSwarm.ValidateCode | sms_agency_swarm_corrected.py:50-87 | missing file ⇔ "does not exist"; present but unreadable ⇔ "VALIDATION ERROR"; passed ⇔ readable and no forbidden pattern occurs, ignoring case; a failure gives the total and the first min(total, 5) violations |
| CorrectedSwarm.LoremIpsumReportedThrice | sms_agency_swarm_corrected.py:60 | a line holding "Lorem ipsum" in any case is reported at least three times |
| CorrectedSwarm.Interpret | sms_agency_swarm_corrected.py:609-620 | one typed line stops the loop ⇔ stripped and lower-cased it is "exit"; it is skipped ⇔ it is blank |
| CorrectedSwarm.InterpretAliases | sms_agency_swarm_corrected.py:613-620 | the aliases in any case become their prompts; any other non-blank line is sent stripped |
| CorrectedSwarm.InterpretSendsStripped | sms_agency_swarm_corrected.py:609-620 | a sent message is non-empty and, unless a prompt, has no surrounding white space |
| CorrectedSwarm.Session | sms_agency_swarm_corrected.py:608-622 | the `while True` loop sends exactly the messages of `Forwarded` |
| CorrectedSwarm.RunBound | sms_agency_swarm_corrected.py:608-622 | a run sends at most one message per line |
| CorrectedSwarm.RunSends | sms_agency_swarm_corrected.py:608-622 | every message sent is what the step made of one of the lines |
| CorrectedSwarm.RunStopsAt | sms_agency_swarm_corrected.py:611-612 | nothing after a stopping line is sent |
| CorrectedSwarm.ForwardedBound | sms_agency_swarm_corrected.py:608-622 | a session sends at most one message per typed line |
| CorrectedSwarm.ForwardedMessages | sms_agency_swarm_corrected.py:609-620 | every message sent is non-empty and is a prompt or stripped |
| CorrectedSwarm.ForwardedStopsAtExit | sms_agency_swarm_corrected.py:611-612 | nothing typed after "exit" is sent |
| AgentSwarm.ValidateNoPlaceholders | sms_agent_swarm.py:79-119 | missing file ⇔ "does not exist"; present but unreadable ⇔ "VALIDATION ERROR"; passed ⇔ readable and none of its 33 patterns occurs, ignoring case; a failure gives the total and the first min(total, 10) violations |
| AgentSwarm.Password123ReportedTwice | sms_agent_swarm.py:93 | a line holding "password123" in any case is reported at least twice |
| AgentSwarm.AdminAlwaysReported | sms_agent_swarm.py:93 | every line holding "admin" anywhere, in any case, is reported |
| AgentSwarm.ShellLine | sms_agent_swarm.py:44 | the shell line is "task-master " followed by exactly the command |
| AgentSwarm.SplitCommandRoundTrip | sms_agent_swarm.py:63-75 | an id without white space, followed by a flag starting with white space, reads back with the value |
| AgentSwarm.SplitCommandParsed | sms_agent_swarm.py:63-75 | whatever reads back is prefix, id, flag and value put together |
| AgentSwarm.StatusCommand | sms_agent_swarm.py:63 | for a task id without white space, the command reads back as exactly that id and status |
| AgentSwarm.StatusCommandParsed | sms_agent_swarm.py:63 | every string that reads back as a status command is the command of what it reads back as |
| AgentSwarm.StatusCommandAmbiguous | sms_agent_swarm.py:63 | an id ending in " --status=" plus more and a status starting with that more build the same command: nothing is escaped |
| AgentSwarm.SubtaskCommand | sms_agent_swarm.py:75 | for a subtask id without white space, the command reads back as exactly that id and those notes, quotes included |
| AgentSwarm.SubtaskCommandParsed | sms_agent_swarm.py:75 | every string that reads back as a subtask command is the command of what it reads back as |
| AuditScanners.MaxOf | audit_agency_swarm.py:181-182 | the maximum is one of the numbers and no number exceeds it |
| AuditScanners.FileLineIssues | audit_agency_swarm.py:41-57 | the `FileAnalyzer` checks on one line: at most 4 issues, each naming that line and quoting it stripped |
| AuditScanners.SecurityLineIssues | audit_agency_swarm.py:80-97 | the `SecurityScanner` checks on one line: at most 4 issues, each naming that line and quoting it stripped |
| AuditScanners.QualityLineIssues | audit_agency_swarm.py:163-182 | the line checks of `CodeQualityAnalyzer`: at most 3 issues, each naming that line; a long-line issue quotes its first 50 characters |
| AuditScanners.LacksErrorHandling | audit_agency_swarm.py:185-188 | a file reported as lacking error handling does not hold both "try" and "catch", nor "error", nor "exception" |
| AuditScanners.PerLine | audit_agency_swarm.py:40 | one group of issues per line |
| AuditScanners.ScanLines | audit_agency_swarm.py:37-57 | the `enumerate(lines, 1)` loop collects exactly the findings of the line check |
| AuditScanners.AnalyzeFile | audit_agency_swarm.py:31-65 | unreadable ⇔ error; OK ⇔ no check fires on any line; otherwise every issue of every line, uncapped |
| AuditScanners.ScanSecurity | audit_agency_swarm.py:71-105 | unreadable ⇔ error; SECURE ⇔ no check fires on any line; otherwise every issue |
| AuditScanners.AnalyzeQuality | audit_agency_swarm.py:152-197 | unreadable ⇔ error; OK ⇔ no line issue and error handling present; otherwise line issues then the file issue |
| AuditScanners.FileLineShape | audit_agency_swarm.py:43-57 | at most 4 issues per line, all naming that line, in the order placeholder, pass, console.log, hard-coded |
| AuditScanners.SecurityLineShape | audit_agency_swarm.py:82-97 | at most 4 issues per line, all naming that line, in the order SQL, secret, unsafe call, validation |
| AuditScanners.QualityLineShape | audit_agency_swarm.py:169-182 | at most 3 issues per line, all naming that line, in the order length, nesting, magic number |
| AuditScanners.ScannersWellShaped | audit_agency_swarm.py:40-57 | each scanner's line check gives a line group of bounded width for every line |
| AuditScanners.PerLineNumbered | audit_agency_swarm.py:40 | the k-th group is the issues of line k + 1 |
| AuditScanners.ConcatOnLines | audit_agency_swarm.py:40-57 | every collected issue names a line 1 ≤ i ≤ number of lines |
| AuditScanners.ConcatMembership | audit_agency_swarm.py:40-57 | an issue is collected ⇔ it is in the group of the line it names |
| AuditScanners.ConcatInReportOrder | audit_agency_swarm.py:40-57 | collected issues are ordered by line, then by check order |
| AuditScanners.ConcatBound | audit_agency_swarm.py:40-57 | at most `width` issues per line in total |
| AuditScanners.ConcatEmptyIff | audit_agency_swarm.py:59-62 | nothing collected ⇔ every group is empty |
| AuditScanners.FindingsMembership | audit_agency_swarm.py:40-57 | an issue is reported ⇔ the check of the line it names gives it |
| AuditScanners.FindingsInReportOrder | audit_agency_swarm.py:40-57 | a report is ordered by line, then by check order |
| AuditScanners.FindingsBound | audit_agency_swarm.py:40-62 | a report holds at most width × number of lines issues: there is no cap |
| AuditScanners.FindingsEmptyIff | audit_agency_swarm.py:59-62 | a report is empty ⇔ no check fires on any line |
| AuditScanners.PlaceholderIff | audit_agency_swarm.py:41-45 | the placeholder issue ⇔ the line holds one of the eight placeholder words in any case |
| AuditScanners.ConsoleLogIff | audit_agency_swarm.py:41-53 | the console.log issue ⇔ the line holds "console.log" in any case |
| AuditScanners.HardcodedIff | audit_agency_swarm.py:41-57 | the hard-coded issue ⇔ the line holds "localhost", "127.0.0.1", "password123" or "admin" in any case |
| AuditScanners.PassIff | audit_agency_swarm.py:48-49 | the pass issue ⇔ the raw line holds "pass" case-sensitively and is not a comment |
| AuditScanners.PasswordTripsPass | audit_agency_swarm.py:48-49 | every uncommented line holding "password" is reported as an empty implementation |
| AuditScanners.SqlInjectionIff | audit_agency_swarm.py:83-84 | the SQL issue ⇔ lower-cased "select" and a raw "{" or "+"; the "${" test adds nothing |
| AuditScanners.SecretIff | audit_agency_swarm.py:87-89 | the secret issue ⇔ a secret word, "=", not a comment, and no "getenv" |
| AuditScanners.UnsafeCallIff | audit_agency_swarm.py:79-92 | the unsafe-execution issue ⇔ the line holds "eval(", "exec(", "system(" or "shell_exec" in any case |
| AuditScanners.ValidationIff | audit_agency_swarm.py:96-97 | the validation issue ⇔ raw "req.body" and neither "validate" nor "sanitize" in the lower-cased line |
| AuditScanners.LongLineReport | audit_agency_swarm.py:170-171 | a long-line issue ⇔ length > 120, carrying the length and the first 50 characters |
| AuditScanners.NestingReport | audit_agency_swarm.py:174-176 | a nesting issue ⇔ more than 24 leading white-space characters |
| AuditScanners.IndentIsLeadingSpace | audit_agency_swarm.py:174 | the indent is len(line) - len(line.lstrip()), all white space, followed by a non-space |
| AuditScanners.NumbersMembership | audit_agency_swarm.py:180 | a number is collected ⇔ some word is all digits with value above 1 and equal to it |
| AuditScanners.MagicNumberMeaning | audit_agency_swarm.py:179-182 | a magic number ⇔ no leading '#' and an all-digit word above 100 (so the separate digit test adds nothing); the value reported is one of the words and no all-digit word exceeds it |
| AuditScanners.ErrorHandlingReportedLast | audit_agency_swarm.py:184-189 | the file issue ⇔ no ("try" and "catch") and neither "error" nor "exception"; it is last and appears at most once |
| AuditScanners.ErrorHandlingIff | audit_agency_swarm.py:185-188 | error handling is found ⇔ the text holds "try" and "catch", or "error", or "exception", each in any case |
| AuditScanners.FileFindingLast | audit_agency_swarm.py:184-189 | a whole-file issue appended after line issues is present ⇔ it fires, and it is last and single |
| AuditProject.BeforeDot | audit_agency_swarm.py:226 | `split('.')[0]` is the longest dot-free prefix |
| AuditProject.IsOutdated | audit_agency_swarm.py:225-227 | an outdated range starts with "^0" |
| AuditProject.CheckDependencies | audit_agency_swarm.py:203-236 | unreadable ⇔ error; OK ⇔ no issue; otherwise exactly the script issues then the dependency issues |
| AuditProject.MissingScriptsIff | audit_agency_swarm.py:212-217 | a script is reported ⇔ it is required and absent |
| AuditProject.MissingScriptsInOrder | audit_agency_swarm.py:213-217 | two absent required scripts are reported in the order they are required |
| AuditProject.ScriptOrder | audit_agency_swarm.py:212-217 | the script part of the report is "start", "test", "build", in that order, each exactly when absent |
| AuditProject.OutdatedIff | audit_agency_swarm.py:224-228 | a dependency is reported ⇔ it is listed with an outdated range |
| AuditProject.ScriptIssues | audit_agency_swarm.py:215-217 | script issues only name scripts, at most one per required script |
| AuditProject.DependencyIssueKinds | audit_agency_swarm.py:224-228 | dependency issues only name dependencies, at most one per entry |
| AuditProject.ScriptsReportedFirst | audit_agency_swarm.py:211-228 | every missing script is reported before any dependency; at most 3 + number of dependencies issues |
| AuditProject.HealthyIff | audit_agency_swarm.py:212-231 | healthy ⇔ start, test and build are all present and no dependency is outdated |
| AuditProject.DevDependenciesIgnored | audit_agency_swarm.py:221 | changing devDependencies changes nothing |
| AuditProject.OutdatedMeaning | audit_agency_swarm.py:225-227 | outdated ⇔ '^' followed by one or more zeros and then the end or a '.' |
| AuditProject.OutdatedExamples | audit_agency_swarm.py:225-227 | "^0.2.1" and "^0" are outdated; "~0.2.1", "0.2.1", "^1.0.0" and "^.5" are not |
| AuditProject.JoinPath | audit_agency_swarm.py:248 | the joined path starts with the directory and ends with the file name |
| AuditProject.IsAuditable | audit_agency_swarm.py:247 | an auditable name has an extension: it contains '.' and is at least 3 characters long |
| AuditProject.ScanFiles | audit_agency_swarm.py:246-249 | the inner loop collects exactly the auditable files of one directory, joined to its path |
| AuditProject.ScanDirectory | audit_agency_swarm.py:244-249 | the nested loops over the walk collect exactly the files to audit |
| AuditProject.KeptIff | audit_agency_swarm.py:246-249 | a path is kept for one directory ⇔ it joins the directory to one of its accepted files |
| AuditProject.KeptInWalkSound | audit_agency_swarm.py:245-249 | every kept path joins some directory of the walk to one of its accepted files |
| AuditProject.KeptInWalkComplete | audit_agency_swarm.py:245-249 | every accepted file of every directory is kept |
| AuditProject.FilesToAuditIff | audit_agency_swarm.py:245-249 | a path is listed ⇔ some directory holds an auditable file it names |
| AuditProject.ListedPathsAreAuditable | audit_agency_swarm.py:247-249 | every listed path ends with one of the six extensions |
| AuditProject.KeptBound | audit_agency_swarm.py:246-249 | at most one path per file, and exactly one when every file is accepted |
| AuditProject.FilesToAuditBound | audit_agency_swarm.py:251 | the count in the summary never exceeds the number of files |

## Left out

- Shell execution: `subprocess.run` in `run_taskmaster_command` is external process I/O. Only the command line it builds is modelled (`ShellLine`).
- `SyntaxChecker`, `SystemCommand`, `TaskMasterIntegration`, the file reader and writer tools, the git tool and the command executor only run external programs or do file I/O.
- File I/O is a parameter: `open`/`read`, `os.path.exists` and `os.walk`. Existence is a boolean, content a string, the walk a sequence of directories, and a file that cannot be read is `None`.
- `json.load` is a library parser; the checker starts from a parsed `Package`. A key that is missing reads as empty. The scripts are a set of names: a `scripts` value that is not an object, and duplicate JSON keys, are not modelled. Dependencies are pairs of strings, so a `dependencies` value that is not an object, or a version that is not a string, cannot be expressed. In the source, `.items()` or `version.startswith` then raises and the `except` branch returns the error text.
- The `except Exception` branches: in the two validators, a file that exists but cannot be read gives `ReadError`; in the audit tools, an unreadable input gives `Unreadable`. Other failures inside those branches, such as running out of memory, are not modelled.
- Report texts (emoji, headers, "Line i: ..." formatting) are datatypes. The model keeps what they carry: counts, line numbers, excerpts, values.
- Agent and agency construction, prompts and `get_completion` are configuration and LLM network calls. The files that hold only those are not part of this model: dashboard_builder_swarm.py, sms_agency_swarm_with_tools.py, agency_swarm_exact.py and final_agency_swarm.py.
- The Android modules wrap platform SMS, telephony and battery APIs.
- Case folding, white space and digits are ASCII. Python's Unicode `lower()`, `isspace()` and `isdigit()` are not modelled.
- `input()` raising EOFError or KeyboardInterrupt ends the console loop. The model ends the session when the typed lines run out.
- `current_function_start` in `CodeQualityAnalyzer` is assigned but never read, so it does not affect the report.
- JoinPath: models `os.path.join` as POSIX `posixpath.join`, with '/' as the separator, for a plain file name. The scripts target Windows (the Task Master commands run in a `C:` directory), where `os.path.join` is `ntpath.join` and inserts a backslash instead. The contract (starts with the directory, ends with the file name) holds for both. An absolute file name, which would replace the root, is not modelled.
- CorrectedSwarm.ForwardedMessages: does not prove the prompts themselves stripped. They are fixed strings, and the lemma states "a prompt or stripped".
