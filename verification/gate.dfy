/** The reliability gate (reliability-gate.gradle.kts): the changed test files,
    the test methods they add, their fully qualified names, and the verdict
    over repeated runs of each. `git` and the test runner are parameters: the
    diff output is a string, each path's file and base-branch content come
    from a `Snapshot`, and the outcome of every run is given. */
module Gate {
  import opened Wrappers
  import opened Strings
  import opened Patterns
  import Flakiness

  /** `val repeatCount = 5`. */
  const RepeatCount: nat := 5

  /** Kept by the modified-file filter: non-empty, and a Kotlin or Java source. */
  predicate IsSourcePath(p: string) {
    p != "" && (EndsWith(p, ".kt") || EndsWith(p, ".java"))
  }

  /** `.filter { it.isNotEmpty() && (it.endsWith(".kt") || it.endsWith(".java")) }`. */
  function KeepSources(paths: seq<string>): (r: seq<string>)
    ensures forall x :: x in r <==> x in paths && IsSourcePath(x)
    ensures |r| <= |paths|
    ensures (forall i :: 0 <= i < |paths| ==> IsSourcePath(paths[i])) ==> r == paths
  {
    if |paths| == 0 then []
    else (if IsSourcePath(paths[0]) then [paths[0]] else []) + KeepSources(paths[1..])
  }

  /** The modified test files (reliability-gate.gradle.kts:14-16): the lines of
      the diff output that name a Kotlin or Java source. */
  function ModifiedFiles(diffOutput: string): (r: seq<string>)
    ensures forall x :: x in r <==> x in Split(diffOutput, "\n") && IsSourcePath(x)
    ensures forall x :: x in r ==> '\n' !in x
  {
    var lines := Split(diffOutput, "\n");
    var r := KeepSources(lines);
    forall x | x in r
      ensures '\n' !in x
    {
      var i :| 0 <= i < |lines| && lines[i] == x;
      ContainsCharIff(x, '\n');
    }
    r
  }

  /** `filePath.substringAfterLast("/").removeSuffix(".kt").removeSuffix(".java")`
      (reliability-gate.gradle.kts:55). */
  function FileClassName(path: string): (r: string)
    ensures '/' !in r
  {
    var base := SubstringAfterLast(path, '/');
    var r := RemoveSuffix(RemoveSuffix(base, ".kt"), ".java");
    assert r <= base;
    r
  }

  /** The last segment of a path ends after the last slash. */
  lemma AfterLastSlash(dir: string, file: string)
    requires '/' !in file
    ensures SubstringAfterLast(dir + "/" + file, '/') == file
    ensures SubstringAfterLast(file, '/') == file
    decreases |file|
  {
    if |file| > 0 {
      var n := |file| - 1;
      assert (dir + "/" + file)[..|dir + "/" + file| - 1] == dir + "/" + file[..n];
      assert file[..n] + [file[n]] == file;
      AfterLastSlash(dir, file[..n]);
    } else {
      assert dir + "/" + file == dir + "/";
    }
  }

  /** The class name read off a file name is the file name without its
      extension, whether or not the path has directories. A Kotlin file whose
      stem itself ends in `.java` loses that too, since both suffixes are removed. */
  lemma FileClassNameOf(dir: string, stem: string, ext: string)
    requires '/' !in stem
    requires ext == ".java" || (ext == ".kt" && !EndsWith(stem, ".java"))
    ensures FileClassName(dir + "/" + stem + ext) == stem
    ensures FileClassName(stem + ext) == stem
  {
    assert dir + "/" + stem + ext == dir + "/" + (stem + ext);
    assert '/' !in stem + ext;
    AfterLastSlash(dir, stem + ext);
    var file := stem + ext;
    assert file[|file| - |ext|..] == ext;
    if ext == ".java" {
      assert file[|file| - 1] == 'a';
      assert !EndsWith(file, ".kt");
    }
    assert file[..|file| - |ext|] == stem;
  }

  /** The class declared in the file, else the one read off its name
      (reliability-gate.gradle.kts:45, 53-56). */
  function ClassName(content: string, path: string): (r: string)
    ensures (forall j :: 0 <= j <= |content| ==> KeywordAt(content, j, "class", Word).None?)
      ==> r == FileClassName(path)
    ensures (exists j :: 0 <= j <= |content| && KeywordAt(content, j, "class", Word).Some?)
      ==> r == ClassDeclName(content) && r != ""
  {
    if ClassDeclName(content) == "" then FileClassName(path) else ClassDeclName(content)
  }

  /** The fully qualified test name (reliability-gate.gradle.kts:69-74). */
  function Qualify(packageName: string, className: string, methodName: string): (r: string)
    ensures '.' !in methodName ==> (Flakiness.SplitTestName(r)
      == Some((if packageName == "" then className else packageName + "." + className, methodName)))
  {
    if packageName == "" then
      SplitOwnerName(className, methodName);
      className + "." + methodName
    else
      assert packageName + "." + className + "." + methodName == (packageName + "." + className) + "." + methodName;
      SplitOwnerName(packageName + "." + className, methodName);
      packageName + "." + className + "." + methodName
  }

  lemma SplitOwnerName(owner: string, methodName: string)
    ensures '.' !in methodName ==> Flakiness.SplitTestName(owner + "." + methodName) == Some((owner, methodName))
  {
    if '.' !in methodName {
      Flakiness.SplitTestNameInverse(owner, methodName);
    }
  }

  /** `currentTestMethods - baseTestMethods` (reliability-gate.gradle.kts:66): the
      current methods, in order, that the base does not have. */
  function NewMethods(current: seq<string>, base: seq<string>): (r: seq<string>)
    ensures forall x :: x in r <==> x in current && x !in base
    ensures |r| <= |current|
    ensures Distinct(current) ==> Distinct(r)
    ensures base == [] ==> r == current
  {
    if |current| == 0 then []
    else
      var rest := NewMethods(current[1..], base);
      var r := (if current[0] !in base then [current[0]] else []) + rest;
      assert Distinct(current) ==> current[0] !in current[1..];
      r
  }

  /** What the gate learns about one changed path: whether the file exists, its
      content, and its content on the base branch, None when `git show` fails
      (a file new on this branch). */
  datatype Snapshot = Snapshot(present: bool, current: string, base: Option<string>)

  /** `try { executeCommand("git show …") } catch (e: Exception) { "" }`. */
  function BaseContent(snap: Snapshot): (r: string)
    ensures snap.base.None? ==> r == ""
  {
    match snap.base
    case None => ""
    case Some(b) => b
  }

  /** Qualify each method name. */
  function QualifyAll(packageName: string, className: string, methods: seq<string>): (r: seq<string>)
    ensures |r| == |methods|
    ensures forall i :: 0 <= i < |methods| ==> r[i] == Qualify(packageName, className, methods[i])
  {
    if |methods| == 0 then []
    else [Qualify(packageName, className, methods[0])] + QualifyAll(packageName, className, methods[1..])
  }

  /** The new test methods of one file, qualified (reliability-gate.gradle.kts:25-76);
      nothing for a file that does not exist. */
  function FileNewTests(path: string, snap: Snapshot): (r: seq<string>)
    ensures !snap.present ==> r == []
    ensures snap.present ==> forall x :: x in r <==>
      exists m :: m in TestMethods(snap.current) && m !in TestMethods(BaseContent(snap))
        && x == Qualify(PackageName(snap.current), ClassName(snap.current, path), m)
  {
    if !snap.present then []
    else
      var pkg := PackageName(snap.current);
      var cls := ClassName(snap.current, path);
      var current := TestMethods(snap.current);
      var base := TestMethods(BaseContent(snap));
      QualifyNew(pkg, cls, current, base);
      QualifyAll(pkg, cls, NewMethods(current, base))
  }

  lemma QualifyNew(packageName: string, className: string, current: seq<string>, base: seq<string>)
    ensures forall x :: x in QualifyAll(packageName, className, NewMethods(current, base)) <==>
      exists m :: m in current && m !in base && x == Qualify(packageName, className, m)
  {
    var methods := NewMethods(current, base);
    var r := QualifyAll(packageName, className, methods);
    assert forall x :: x in r ==> exists i :: 0 <= i < |methods| && x == r[i];
  }

  /** A file new on this branch contributes every test method it has. */
  lemma NewFileAllNew(path: string, snap: Snapshot)
    requires snap.present && snap.base.None?
    ensures FileNewTests(path, snap)
      == QualifyAll(PackageName(snap.current), ClassName(snap.current, path), TestMethods(snap.current))
  {
    assert TestMethods("") == [];
  }

  /** Every new name splits back into its owner and a method of the file's
      current content that its base content lacks. */
  lemma FileNewTestsSplit(path: string, snap: Snapshot, x: string)
    requires x in FileNewTests(path, snap)
    ensures exists owner, m ::
      (Flakiness.SplitTestName(x) == Some((owner, m)) && m in TestMethods(snap.current) && m !in TestMethods(BaseContent(snap)))
  {
    var pkg := PackageName(snap.current);
    var cls := ClassName(snap.current, path);
    var current := TestMethods(snap.current);
    var base := TestMethods(BaseContent(snap));
    var m :| m in current && m !in base && x == Qualify(pkg, cls, m);
    TestMethodsFollowMarker(snap.current, m);
    WordHasNoDot(m);
    var owner := if pkg == "" then cls else pkg + "." + cls;
    assert Flakiness.SplitTestName(x) == Some((owner, m));
  }

  lemma WordHasNoDot(w: string)
    requires forall j :: 0 <= j < |w| ==> IsWord(w[j])
    ensures '.' !in w
  {
  }

  /** `newTestMethods` (reliability-gate.gradle.kts:21-77): the new tests of each
      modified file, file by file. */
  function NewTestsOf(paths: seq<string>, snapshot: string -> Snapshot): (r: seq<string>)
    ensures forall x :: x in r <==> exists i :: 0 <= i < |paths| && x in FileNewTests(paths[i], snapshot(paths[i]))
  {
    if |paths| == 0 then []
    else
      var rest := NewTestsOf(paths[1..], snapshot);
      assert forall i :: 0 < i < |paths| ==> paths[i] == paths[1..][i - 1];
      FileNewTests(paths[0], snapshot(paths[0])) + rest
  }

  /** The new tests of the whole diff: a name is new exactly when some modified
      source file contributes it. */
  function NewTestMethods(diffOutput: string, snapshot: string -> Snapshot): (r: seq<string>)
    ensures forall x :: x in r <==>
      exists path :: path in ModifiedFiles(diffOutput) && x in FileNewTests(path, snapshot(path))
  {
    var paths := ModifiedFiles(diffOutput);
    assert forall path :: path in paths ==> exists i :: 0 <= i < |paths| && paths[i] == path;
    NewTestsOf(paths, snapshot)
  }

  /** The number of failed runs among `results`. */
  function Failures(results: seq<bool>): (n: nat)
    ensures n <= |results|
  {
    if |results| == 0 then 0
    else Failures(results[..|results| - 1]) + (if results[|results| - 1] then 0 else 1)
  }

  /** Failed and passed runs make up all runs. */
  lemma {:induction false} FailuresComplement(results: seq<bool>)
    ensures Failures(results) + Flakiness.CountPasses(results) == |results|
    decreases |results|
  {
    if |results| > 0 {
      FailuresComplement(results[..|results| - 1]);
    }
  }

  /** No run failed exactly when every run passed. */
  lemma FailuresZeroIffAllPass(results: seq<bool>)
    ensures Failures(results) == 0 <==> forall i :: 0 <= i < |results| ==> results[i]
  {
    FailuresComplement(results);
    Flakiness.CountPassesExtremes(results);
  }

  /** The run loop and verdict (reliability-gate.gradle.kts:79-119). The runner's
      answer to run `i + 1` of test `t` is `outcomes[t][i]`, true when
      `./gradlew test --tests …` exits with 0. Every test is run `RepeatCount`
      times, in order, whatever earlier runs did; `calls` lists the runs made.
      The gate passes exactly when no run of any test failed, so it passes with
      no runs when there is no new test. */
  method RunGate(newTests: seq<string>, outcomes: seq<seq<bool>>)
      returns (failCounts: seq<nat>, calls: seq<(string, nat)>, passed: bool)
    requires |outcomes| == |newTests|
    requires forall t :: 0 <= t < |outcomes| ==> |outcomes[t]| == RepeatCount
    ensures |failCounts| == |newTests|
    ensures forall t :: 0 <= t < |newTests| ==> failCounts[t] == Failures(outcomes[t]) <= RepeatCount
    ensures |calls| == |newTests| * RepeatCount
    ensures forall k :: 0 <= k < |calls| ==> calls[k] == (newTests[k / RepeatCount], k % RepeatCount + 1)
    ensures passed <==> forall t, i :: 0 <= t < |newTests| && 0 <= i < RepeatCount ==> outcomes[t][i]
    ensures |newTests| == 0 ==> passed && calls == []
  {
    failCounts := [];
    calls := [];
    var anyTestFailed := false;
    var t := 0;
    while t < |newTests|
      invariant 0 <= t <= |newTests|
      invariant |failCounts| == t
      invariant forall u :: 0 <= u < t ==> failCounts[u] == Failures(outcomes[u])
      invariant |calls| == t * RepeatCount
      invariant forall k :: 0 <= k < |calls| ==> calls[k] == (newTests[k / RepeatCount], k % RepeatCount + 1)
      invariant anyTestFailed <==> exists u, i :: 0 <= u < t && 0 <= i < RepeatCount && !outcomes[u][i]
    {
      var failCount := 0;
      var i := 0;
      while i < RepeatCount
        invariant 0 <= i <= RepeatCount
        invariant failCount == Failures(outcomes[t][..i])
        invariant |calls| == t * RepeatCount + i
        invariant forall k :: 0 <= k < |calls| ==> calls[k] == (newTests[k / RepeatCount], k % RepeatCount + 1)
        invariant anyTestFailed <==>
          (exists u, j :: 0 <= u < t && 0 <= j < RepeatCount && !outcomes[u][j])
          || (exists j :: 0 <= j < i && !outcomes[t][j])
      {
        calls := calls + [(newTests[t], i + 1)];
        assert outcomes[t][..i + 1][..i] == outcomes[t][..i];
        if !outcomes[t][i] {
          failCount := failCount + 1;
          anyTestFailed := true;
        }
        i := i + 1;
      }
      assert outcomes[t][..i] == outcomes[t];
      failCounts := failCounts + [failCount];
      t := t + 1;
    }
    passed := !anyTestFailed;
  }

  /** The whole gate: the new tests the diff brings, then the verdict over their runs. */
  method ReliabilityGate(diffOutput: string, snapshot: string -> Snapshot, outcomes: seq<seq<bool>>)
      returns (newTests: seq<string>, failCounts: seq<nat>, passed: bool)
    requires |outcomes| == |NewTestMethods(diffOutput, snapshot)|
    requires forall t :: 0 <= t < |outcomes| ==> |outcomes[t]| == RepeatCount
    ensures newTests == NewTestMethods(diffOutput, snapshot)
    ensures forall x :: x in newTests <==>
      exists path :: path in ModifiedFiles(diffOutput) && x in FileNewTests(path, snapshot(path))
    ensures |failCounts| == |newTests|
    ensures forall t :: 0 <= t < |newTests| ==> failCounts[t] == Failures(outcomes[t])
    ensures passed <==> forall t :: 0 <= t < |newTests| ==> Failures(outcomes[t]) == 0
  {
    newTests := NewTestMethods(diffOutput, snapshot);
    var calls;
    failCounts, calls, passed := RunGate(newTests, outcomes);
    forall t | 0 <= t < |newTests| {
      FailuresZeroIffAllPass(outcomes[t]);
    }
  }

  /** The base has `a`, the current file `a` and `b`: only `b` is new. */
  lemma OnlyAddedMethodIsNew(a: string, b: string)
    requires a != b
    ensures NewMethods([a, b], [a]) == [b]
    ensures NewMethods([a, b], []) == [a, b]
  {
    assert [a, b][1..] == [b];
  }
}
