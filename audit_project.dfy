/**
 * audit_agency_swarm.py: the two project-level tools of the audit agency.
 * `DependencyChecker` reads a parsed package.json and reports required
 * scripts that are missing and caret ranges whose major version is zero;
 * `DirectoryScanner` walks a directory tree and lists the files with a
 * source or JSON extension.
 */
module AuditProject {
  import opened Text

  // ---------------------------------------------------------------------
  // DependencyChecker

  /**
   * What the checker reads from a parsed package.json: the names of the
   * scripts and the dependency entries in file order. A missing key reads as
   * empty.
   */
  datatype Package = Package(
    scripts: set<string>,
    dependencies: seq<(string, string)>,
    devDependencies: seq<(string, string)>)

  datatype DependencyIssue = MissingScript(script: string) | OutdatedVersion(name: string, version: string)

  /** The file could not be read or parsed, nothing was found, or the issues found. */
  datatype DependencyReport = Unreadable | Healthy | Warning(issues: seq<DependencyIssue>)

  const RequiredScripts: seq<string> := ["start", "test", "build"]

  /** `s.split('.')[0]`: everything before the first '.', or all of `s` when it has none. */
  function BeforeDot(s: string): (r: string)
    ensures |r| <= |s| && r == s[..|r|]
    ensures '.' !in r
    ensures |r| < |s| ==> s[|r|] == '.'
    decreases |s|
  {
    if |s| == 0 || s[0] == '.' then "" else [s[0]] + BeforeDot(s[1..])
  }

  /** The major version of a caret range: what follows the '^' up to the first '.'. */
  function MajorVersion(version: string): string
    requires StartsWith(version, "^")
  {
    BeforeDot(version[1..])
  }

  /** A caret range whose major version is a string of digits of value 0. */
  predicate IsOutdated(version: string): (outdated: bool)
    ensures outdated ==> |version| >= 2 && version[..2] == "^0"
  {
    var outdated := StartsWith(version, "^") && IsDigits(MajorVersion(version)) && DigitsValue(MajorVersion(version)) < 1;
    assert outdated ==> |version| >= 2 && version[..2] == "^0" by {
      if outdated {
        var major := MajorVersion(version);
        ValueZeroIff(major);
        assert major[0] == '0' && major == version[1..][..|major|];
        assert version[1] == major[0];
      }
    }
    outdated
  }

  /** The required scripts the package lacks, in the order they are required. */
  function MissingScripts(required: seq<string>, scripts: set<string>): seq<DependencyIssue>
    decreases |required|
  {
    if |required| == 0 then []
    else
      var script := required[|required| - 1];
      MissingScripts(required[..|required| - 1], scripts)
      + (if script in scripts then [] else [MissingScript(script)])
  }

  /** The dependencies with an outdated range, in file order. */
  function OutdatedDependencies(dependencies: seq<(string, string)>): seq<DependencyIssue>
    decreases |dependencies|
  {
    if |dependencies| == 0 then []
    else
      var entry := dependencies[|dependencies| - 1];
      OutdatedDependencies(dependencies[..|dependencies| - 1])
      + (if IsOutdated(entry.1) then [OutdatedVersion(entry.0, entry.1)] else [])
  }

  /** Everything the checker reports about a package: the scripts first, then the dependencies. */
  function DependencyIssues(package: Package): seq<DependencyIssue> {
    MissingScripts(RequiredScripts, package.scripts) + OutdatedDependencies(package.dependencies)
  }

  /**
   * `DependencyChecker.run`: an unreadable or unparsable file gives an
   * error; otherwise the package is healthy exactly when nothing is found,
   * and the warning lists every issue found.
   */
  method CheckDependencies(package: Option<Package>) returns (report: DependencyReport)
    ensures report == Unreadable <==> package.None?
    ensures report == Healthy <==> package.Some? && DependencyIssues(package.value) == []
    ensures report.Warning? ==> package.Some? && report.issues == DependencyIssues(package.value)
  {
    if package.None? {
      return Unreadable;
    }
    var scripts := package.value.scripts;
    var dependencies := package.value.dependencies;
    var issues: seq<DependencyIssue> := [];
    var i := 0;
    while i < |RequiredScripts|
      invariant 0 <= i <= |RequiredScripts|
      invariant issues == MissingScripts(RequiredScripts[..i], scripts)
    {
      var script := RequiredScripts[i];
      if script !in scripts {
        issues := issues + [MissingScript(script)];
      }
      assert RequiredScripts[..i + 1][..i] == RequiredScripts[..i];
      i := i + 1;
    }
    assert RequiredScripts[..i] == RequiredScripts;
    var j := 0;
    while j < |dependencies|
      invariant 0 <= j <= |dependencies|
      invariant issues == MissingScripts(RequiredScripts, scripts) + OutdatedDependencies(dependencies[..j])
    {
      var name := dependencies[j].0;
      var version := dependencies[j].1;
      if StartsWith(version, "^") {
        var major := BeforeDot(version[1..]);
        if IsDigits(major) && DigitsValue(major) < 1 {
          issues := issues + [OutdatedVersion(name, version)];
        }
      }
      assert dependencies[..j + 1][..j] == dependencies[..j];
      j := j + 1;
    }
    assert dependencies[..j] == dependencies;
    if issues == [] {
      report := Healthy;
    } else {
      report := Warning(issues);
    }
  }

  /** A script is reported missing exactly when it is required and absent. */
  lemma {:induction false} MissingScriptsIff(required: seq<string>, scripts: set<string>, script: string)
    ensures MissingScript(script) in MissingScripts(required, scripts) <==> script in required && script !in scripts
    decreases |required|
  {
    if |required| > 0 {
      var front := required[..|required| - 1];
      MissingScriptsIff(front, scripts, script);
      assert required == front + [required[|required| - 1]];
    }
  }

  /**
   * Missing scripts keep the order in which they are required: when two
   * required scripts are both absent, the earlier one is reported first.
   */
  lemma {:induction false} MissingScriptsInOrder(required: seq<string>, scripts: set<string>, i: nat, j: nat)
    requires i < j < |required| && required[i] !in scripts && required[j] !in scripts
    ensures exists a, b :: 0 <= a < b < |MissingScripts(required, scripts)|
              && MissingScripts(required, scripts)[a] == MissingScript(required[i])
              && MissingScripts(required, scripts)[b] == MissingScript(required[j])
    decreases |required|
  {
    var last := |required| - 1;
    var front := required[..last];
    var before := MissingScripts(front, scripts);
    assert MissingScripts(required, scripts) == before + [MissingScript(required[last])] || required[last] in scripts;
    if j == last {
      MissingScriptsIff(front, scripts, front[i]);
      var a :| 0 <= a < |before| && before[a] == MissingScript(front[i]);
      var r := MissingScripts(required, scripts);
      assert r[a] == before[a] && r[|before|] == MissingScript(required[j]);
    } else {
      MissingScriptsInOrder(front, scripts, i, j);
      var a, b :| 0 <= a < b < |before| && before[a] == MissingScript(front[i]) && before[b] == MissingScript(front[j]);
      var r := MissingScripts(required, scripts);
      assert r[a] == before[a] && r[b] == before[b];
    }
  }

  /** The scripts part of the report: "start", then "test", then "build", each when it is absent. */
  lemma ScriptOrder(scripts: set<string>)
    ensures MissingScripts(RequiredScripts, scripts)
            == (if "start" in scripts then [] else [MissingScript("start")])
               + (if "test" in scripts then [] else [MissingScript("test")])
               + (if "build" in scripts then [] else [MissingScript("build")])
  {
    assert RequiredScripts[..2] == ["start", "test"] && RequiredScripts[..2][..1] == ["start"];
    assert ["start"][..0] == [];
  }

  /** A dependency is reported exactly when it is listed with an outdated range. */
  lemma {:induction false} OutdatedIff(dependencies: seq<(string, string)>, name: string, version: string)
    ensures OutdatedVersion(name, version) in OutdatedDependencies(dependencies) <==>
            (name, version) in dependencies && IsOutdated(version)
    decreases |dependencies|
  {
    if |dependencies| > 0 {
      var front := dependencies[..|dependencies| - 1];
      OutdatedIff(front, name, version);
      assert dependencies == front + [dependencies[|dependencies| - 1]];
    }
  }

  /** Script issues only name scripts, at most one per required script. */
  lemma {:induction false} ScriptIssues(required: seq<string>, scripts: set<string>)
    ensures forall x <- MissingScripts(required, scripts) :: x.MissingScript?
    ensures |MissingScripts(required, scripts)| <= |required|
    decreases |required|
  {
    if |required| > 0 {
      ScriptIssues(required[..|required| - 1], scripts);
    }
  }

  /** Dependency issues only name dependencies, at most one per entry. */
  lemma {:induction false} DependencyIssueKinds(dependencies: seq<(string, string)>)
    ensures forall x <- OutdatedDependencies(dependencies) :: x.OutdatedVersion?
    ensures |OutdatedDependencies(dependencies)| <= |dependencies|
    decreases |dependencies|
  {
    if |dependencies| > 0 {
      DependencyIssueKinds(dependencies[..|dependencies| - 1]);
    }
  }

  /** Every missing script is reported before any outdated dependency, and there are at most 3 of them. */
  lemma ScriptsReportedFirst(package: Package)
    ensures forall i, j :: 0 <= i < j < |DependencyIssues(package)| && DependencyIssues(package)[i].OutdatedVersion?
              ==> DependencyIssues(package)[j].OutdatedVersion?
    ensures |DependencyIssues(package)| <= |RequiredScripts| + |package.dependencies|
  {
    var scriptPart := MissingScripts(RequiredScripts, package.scripts);
    var dependencyPart := OutdatedDependencies(package.dependencies);
    var issues := DependencyIssues(package);
    ScriptIssues(RequiredScripts, package.scripts);
    DependencyIssueKinds(package.dependencies);
    forall k | 0 <= k < |issues|
      ensures issues[k].OutdatedVersion? <==> k >= |scriptPart|
    {
      if k < |scriptPart| {
        assert issues[k] == scriptPart[k] && scriptPart[k] in scriptPart;
      } else {
        var m := k - |scriptPart|;
        assert issues[k] == dependencyPart[m] && dependencyPart[m] in dependencyPart;
      }
    }
  }

  /**
   * A package is healthy exactly when it has every required script and no
   * dependency has an outdated range.
   */
  lemma HealthyIff(package: Package)
    ensures DependencyIssues(package) == [] <==>
            (forall s <- RequiredScripts :: s in package.scripts) &&
            (forall d <- package.dependencies :: !IsOutdated(d.1))
  {
    var scriptPart := MissingScripts(RequiredScripts, package.scripts);
    var dependencyPart := OutdatedDependencies(package.dependencies);
    var issues := DependencyIssues(package);
    ScriptIssues(RequiredScripts, package.scripts);
    DependencyIssueKinds(package.dependencies);
    forall s <- RequiredScripts | s !in package.scripts
      ensures issues != []
    {
      MissingScriptsIff(RequiredScripts, package.scripts, s);
      assert MissingScript(s) in issues;
    }
    forall d <- package.dependencies | IsOutdated(d.1)
      ensures issues != []
    {
      OutdatedIff(package.dependencies, d.0, d.1);
      assert OutdatedVersion(d.0, d.1) in issues;
    }
    if issues != [] {
      var x := issues[0];
      assert x in scriptPart || x in dependencyPart;
      if x in scriptPart {
        MissingScriptsIff(RequiredScripts, package.scripts, x.script);
      } else {
        OutdatedIff(package.dependencies, x.name, x.version);
      }
    }
  }

  /** devDependencies are read but never checked. */
  lemma DevDependenciesIgnored(package: Package, devDependencies: seq<(string, string)>)
    ensures DependencyIssues(package.(devDependencies := devDependencies)) == DependencyIssues(package)
  {
  }

  /**
   * A range is outdated exactly when it is '^' followed by one or more
   * zeros and then either the end or a '.'.
   */
  lemma OutdatedMeaning(version: string)
    ensures IsOutdated(version) <==>
            StartsWith(version, "^") && |MajorVersion(version)| > 0 &&
            forall c <- MajorVersion(version) :: c == '0'
  {
    if StartsWith(version, "^") {
      var major := MajorVersion(version);
      if AllDigits(major) {
        ValueZeroIff(major);
      }
      if |major| > 0 && forall c <- major :: c == '0' {
        assert forall i :: 0 <= i < |major| ==> major[i] in major;
        assert AllDigits(major);
        ValueZeroIff(major);
      }
    }
  }

  /**
   * Only caret ranges are looked at, and only the text before the first '.'
   * after the caret: "^0.2.1" and "^0" are outdated; "~0.2.1", "0.2.1",
   * "^1.0.0" and "^.5" are not.
   */
  lemma OutdatedExamples()
    ensures IsOutdated("^0.2.1") && IsOutdated("^0")
    ensures !IsOutdated("~0.2.1") && !IsOutdated("0.2.1") && !IsOutdated("^1.0.0") && !IsOutdated("^.5")
  {
    assert MajorVersion("^0.2.1") == "0";
    assert MajorVersion("^0") == "0";
    assert MajorVersion("^1.0.0") == "1";
    assert MajorVersion("^.5") == "";
    assert IsDigits("0") && DigitsValue("0") == 0;
    assert IsDigits("1") && DigitsValue("1") == 1;
    assert !StartsWith("~0.2.1", "^") && !StartsWith("0.2.1", "^");
  }

  // ---------------------------------------------------------------------
  // DirectoryScanner

  /** The extensions `DirectoryScanner` keeps, compared case-sensitively. */
  const AuditedExtensions: seq<string> := [".ts", ".tsx", ".js", ".jsx", ".py", ".json"]

  /** `name.endswith(('.ts', '.tsx', '.js', '.jsx', '.py', '.json'))` */
  predicate IsAuditable(name: string): (auditable: bool)
    ensures auditable ==> |name| >= 3 && '.' in name
  {
    var auditable := exists e <- AuditedExtensions :: EndsWith(name, e);
    assert auditable ==> |name| >= 3 && '.' in name by {
      if auditable {
        var e :| e in AuditedExtensions && EndsWith(name, e);
        assert |e| >= 3 && e[0] == '.';
        assert name[|name| - |e|] == e[0];
      }
    }
    auditable
  }

  /** `os.path.join(root, name)` for a plain file name: a '/' goes between them unless `root` is empty or ends with one. */
  function JoinPath(root: string, name: string): (path: string)
    ensures EndsWith(path, name) && StartsWith(path, root)
  {
    if root == "" || EndsWith(root, "/") then root + name else root + "/" + name
  }

  /** One step of `os.walk`: a directory and the names of the files directly in it. */
  datatype Directory = Directory(root: string, files: seq<string>)

  /** The files of one directory that `keep` accepts, joined to its path, in listing order. */
  function Kept(keep: string -> bool, root: string, files: seq<string>): seq<string>
    decreases |files|
  {
    if |files| == 0 then []
    else
      var name := files[|files| - 1];
      Kept(keep, root, files[..|files| - 1]) + (if keep(name) then [JoinPath(root, name)] else [])
  }

  /** The files of a whole walk that `keep` accepts: directory by directory in walk order. */
  function KeptInWalk(keep: string -> bool, walk: seq<Directory>): seq<string>
    decreases |walk|
  {
    if |walk| == 0 then []
    else
      var d := walk[|walk| - 1];
      KeptInWalk(keep, walk[..|walk| - 1]) + Kept(keep, d.root, d.files)
  }

  /** The paths `DirectoryScanner` lists. */
  function FilesToAudit(walk: seq<Directory>): seq<string> {
    KeptInWalk(IsAuditable, walk)
  }

  /** The inner loop of `DirectoryScanner.run`: the auditable files of one directory, joined to its path. */
  method ScanFiles(root: string, files: seq<string>) returns (kept: seq<string>)
    ensures kept == Kept(IsAuditable, root, files)
  {
    kept := [];
    var k := 0;
    while k < |files|
      invariant 0 <= k <= |files|
      invariant kept == Kept(IsAuditable, root, files[..k])
    {
      var name := files[k];
      if IsAuditable(name) {
        kept := kept + [JoinPath(root, name)];
      }
      assert files[..k + 1][..k] == files[..k];
      k := k + 1;
    }
    assert files[..k] == files;
  }

  /** `DirectoryScanner.run`: the two nested loops over the walk, collecting the paths to audit. */
  method ScanDirectory(walk: seq<Directory>) returns (found: seq<string>)
    ensures found == FilesToAudit(walk)
  {
    found := [];
    var i := 0;
    while i < |walk|
      invariant 0 <= i <= |walk|
      invariant found == KeptInWalk(IsAuditable, walk[..i])
    {
      var kept := ScanFiles(walk[i].root, walk[i].files);
      found := found + kept;
      assert walk[..i + 1][..i] == walk[..i];
      i := i + 1;
    }
    assert walk[..i] == walk;
  }

  /** `path` joins the directory to one of its files that `keep` accepts. */
  predicate ListedFrom(keep: string -> bool, d: Directory, path: string) {
    exists name <- d.files :: keep(name) && path == JoinPath(d.root, name)
  }

  /** A path is kept for a directory exactly when it joins the directory to one of its accepted files. */
  lemma {:induction false} KeptIff(keep: string -> bool, root: string, files: seq<string>, path: string)
    ensures path in Kept(keep, root, files) <==> ListedFrom(keep, Directory(root, files), path)
    decreases |files|
  {
    if |files| > 0 {
      var front := files[..|files| - 1];
      KeptIff(keep, root, front, path);
      assert files == front + [files[|files| - 1]];
    }
  }

  /** Every kept path joins some directory of the walk to one of its accepted files. */
  lemma {:induction false} KeptInWalkSound(keep: string -> bool, walk: seq<Directory>, path: string)
    requires path in KeptInWalk(keep, walk)
    ensures exists d <- walk :: ListedFrom(keep, d, path)
    decreases |walk|
  {
    var front := walk[..|walk| - 1];
    var last := walk[|walk| - 1];
    if path in KeptInWalk(keep, front) {
      KeptInWalkSound(keep, front, path);
      var d :| d in front && ListedFrom(keep, d, path);
      assert d in walk;
    } else {
      KeptIff(keep, last.root, last.files, path);
      assert last in walk;
    }
  }

  /** Every accepted file of every directory of the walk is kept. */
  lemma {:induction false} KeptInWalkComplete(keep: string -> bool, walk: seq<Directory>, d: Directory, path: string)
    requires d in walk && ListedFrom(keep, d, path)
    ensures path in KeptInWalk(keep, walk)
    decreases |walk|
  {
    var front := walk[..|walk| - 1];
    var last := walk[|walk| - 1];
    if d == last {
      KeptIff(keep, last.root, last.files, path);
    } else {
      assert d in front;
      KeptInWalkComplete(keep, front, d, path);
    }
  }

  /**
   * A path is listed exactly when some directory of the walk holds an
   * auditable file that the path joins to that directory.
   */
  lemma FilesToAuditIff(walk: seq<Directory>, path: string)
    ensures path in FilesToAudit(walk) <==> exists d <- walk :: ListedFrom(IsAuditable, d, path)
  {
    if path in FilesToAudit(walk) {
      KeptInWalkSound(IsAuditable, walk, path);
    }
    if exists d <- walk :: ListedFrom(IsAuditable, d, path) {
      var d :| d in walk && ListedFrom(IsAuditable, d, path);
      KeptInWalkComplete(IsAuditable, walk, d, path);
    }
  }

  lemma EndsWithTransitive(s: string, t: string, e: string)
    requires EndsWith(s, t) && EndsWith(t, e)
    ensures EndsWith(s, e)
  {
    assert s[|s| - |e|..] == s[|s| - |t|..][|t| - |e|..];
  }

  /** Every listed path itself ends with one of the audited extensions. */
  lemma ListedPathsAreAuditable(walk: seq<Directory>)
    ensures forall path <- FilesToAudit(walk) :: IsAuditable(path)
  {
    forall path <- FilesToAudit(walk)
      ensures IsAuditable(path)
    {
      FilesToAuditIff(walk, path);
      var d :| d in walk && ListedFrom(IsAuditable, d, path);
      var name :| name in d.files && IsAuditable(name) && path == JoinPath(d.root, name);
      var e :| e in AuditedExtensions && EndsWith(name, e);
      EndsWithTransitive(path, name, e);
    }
  }

  /** The number of files in the walk. */
  function FileCount(walk: seq<Directory>): nat
    decreases |walk|
  {
    if |walk| == 0 then 0 else FileCount(walk[..|walk| - 1]) + |walk[|walk| - 1].files|
  }

  /** At most one path is kept per file, and every file is kept when all are accepted. */
  lemma {:induction false} KeptBound(keep: string -> bool, root: string, files: seq<string>)
    ensures |Kept(keep, root, files)| <= |files|
    ensures (forall name <- files :: keep(name)) ==> |Kept(keep, root, files)| == |files|
    decreases |files|
  {
    if |files| > 0 {
      KeptBound(keep, root, files[..|files| - 1]);
    }
  }

  /** At most one path is listed per file, so the count in the summary never exceeds the number of files. */
  lemma {:induction false} FilesToAuditBound(walk: seq<Directory>)
    ensures |FilesToAudit(walk)| <= FileCount(walk)
    decreases |walk|
  {
    if |walk| > 0 {
      FilesToAuditBound(walk[..|walk| - 1]);
      KeptBound(IsAuditable, walk[|walk| - 1].root, walk[|walk| - 1].files);
    }
  }
}
