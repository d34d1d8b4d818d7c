/** The aggregation step of analyzeTestFlakiness (build.gradle.kts): one
    TestMetrics per collected test name, in the order names were first read,
    and the ignore requests, grouped by class, for every test at or past the
    ignore threshold. */
module Analysis {
  import opened Wrappers
  import opened Strings
  import opened Flakiness
  import Multimap
  import Report

  /** The TestMetrics of one test from its outcome history. */
  function MetricsOf(testName: string, results: seq<bool>, binaryEntropy: (nat, nat) -> real): (m: TestMetrics)
    ensures m.testName == testName && m.totalRuns == |results|
    ensures m.passes == multiset(results)[true] && m.passes <= m.totalRuns
    ensures 0.0 <= m.flipRate <= 1.0
    ensures IsConstant(results) <==> m.flipRate == 0.0
    ensures IsConstant(results) ==> m.entropy == 0.0
    ensures !IsConstant(results) ==> m.entropy == binaryEntropy(m.passes, m.totalRuns)
  {
    var passes := CountPasses(results);
    ConstantIffExtremePasses(results);
    TestMetrics(testName, |results|, passes, Entropy(passes, |results|, binaryEntropy), FlipRate(results))
  }

  /** A history is constant exactly when none or all of its runs passed, so the
      entropy guard and the zero flip rate pick out the same histories. */
  lemma ConstantIffExtremePasses(results: seq<bool>)
    ensures IsConstant(results) <==> CountPasses(results) == 0 || CountPasses(results) == |results|
  {
    CountPassesExtremes(results);
    if !IsConstant(results) {
      var i :| 0 <= i < |results| && results[i] != results[0];
      if results[0] {
        assert !results[i];
      } else {
        assert results[i];
      }
    }
  }

  /** The metrics of the named tests, in the order given. */
  function MetricsFor(results: Multimap.Multimap<bool>, names: seq<string>, binaryEntropy: (nat, nat) -> real): (ms: seq<TestMetrics>)
    ensures |ms| == |names|
    ensures forall i :: 0 <= i < |names| ==> ms[i] == MetricsOf(names[i], Multimap.Get(results, names[i]), binaryEntropy)
  {
    if |names| == 0 then []
    else [MetricsOf(names[0], Multimap.Get(results, names[0]), binaryEntropy)] + MetricsFor(results, names[1..], binaryEntropy)
  }

  /** The runs counted over a list of metrics. */
  function SumRuns(ms: seq<TestMetrics>): nat {
    if |ms| == 0 then 0 else ms[0].totalRuns + SumRuns(ms[1..])
  }

  lemma {:induction false} SumRunsIsTotal(results: Multimap.Multimap<bool>, names: seq<string>, binaryEntropy: (nat, nat) -> real)
    ensures SumRuns(MetricsFor(results, names, binaryEntropy)) == Multimap.Total(results, names)
    decreases |names|
  {
    if |names| > 0 {
      var ms := MetricsFor(results, names, binaryEntropy);
      assert ms[1..] == MetricsFor(results, names[1..], binaryEntropy);
      SumRunsIsTotal(results, names[1..], binaryEntropy);
    }
  }

  /** How many test cases carry the name `k`. */
  function CountNamed(cases: seq<Report.TestCase>, k: string): nat {
    if |cases| == 0 then 0
    else (if cases[0].fullName == k then 1 else 0) + CountNamed(cases[1..], k)
  }

  /** How many test cases carry the name `k` and passed. */
  function CountNamedPassing(cases: seq<Report.TestCase>, k: string): nat {
    if |cases| == 0 then 0
    else (if cases[0].fullName == k && cases[0].passed then 1 else 0) + CountNamedPassing(cases[1..], k)
  }

  /** The outcomes collected under `k` are those of the cases named `k`. */
  lemma {:induction false} SelectCounts(cases: seq<Report.TestCase>, k: string)
    ensures |Multimap.Select(Report.Outcomes(cases), k)| == CountNamed(cases, k)
    ensures multiset(Multimap.Select(Report.Outcomes(cases), k))[true] == CountNamedPassing(cases, k)
    decreases |cases|
  {
    if |cases| > 0 {
      var items := Report.Outcomes(cases);
      assert items[1..] == Report.Outcomes(cases[1..]);
      Multimap.SelectCons(items, k);
      SelectCounts(cases[1..], k);
    }
  }

  /** Some metric carries the name `k`. */
  predicate HasMetrics(ms: seq<TestMetrics>, k: string) {
    exists i :: 0 <= i < |ms| && ms[i].testName == k
  }

  /** `metrics`: the TestMetrics of every test read from a set of reports. Every
      name appears once; a name is there exactly when some test case carries it;
      its runs and passes count the test cases carrying it; and together the
      metrics account for every test case once. */
  function AnalyzeReports(reports: seq<string>, binaryEntropy: (nat, nat) -> real): (ms: seq<TestMetrics>)
    ensures forall i, j :: 0 <= i < j < |ms| ==> ms[i].testName != ms[j].testName
    ensures forall k :: HasMetrics(ms, k) <==> Report.HasCase(Report.ParseReports(reports), k)
    ensures forall i :: 0 <= i < |ms| ==> ms[i].totalRuns == CountNamed(Report.ParseReports(reports), ms[i].testName)
    ensures forall i :: 0 <= i < |ms| ==> ms[i].passes == CountNamedPassing(Report.ParseReports(reports), ms[i].testName)
    ensures SumRuns(ms) == |Report.ParseReports(reports)|
  {
    var results := Report.CollectResults(reports);
    var ms := MetricsFor(results, results.keys, binaryEntropy);
    SumRunsIsTotal(results, results.keys, binaryEntropy);
    MetricsCount(reports, results, ms, binaryEntropy);
    MetricsNames(reports, results, ms, binaryEntropy);
    ms
  }

  lemma MetricsCount(reports: seq<string>, results: Multimap.Multimap<bool>, ms: seq<TestMetrics>, binaryEntropy: (nat, nat) -> real)
    requires results == Report.CollectResults(reports)
    requires ms == MetricsFor(results, results.keys, binaryEntropy)
    ensures forall i :: 0 <= i < |ms| ==> ms[i].totalRuns == CountNamed(Report.ParseReports(reports), ms[i].testName)
    ensures forall i :: 0 <= i < |ms| ==> ms[i].passes == CountNamedPassing(Report.ParseReports(reports), ms[i].testName)
  {
    var cases := Report.ParseReports(reports);
    forall i | 0 <= i < |ms|
      ensures ms[i].totalRuns == CountNamed(cases, ms[i].testName)
      ensures ms[i].passes == CountNamedPassing(cases, ms[i].testName)
    {
      var k := results.keys[i];
      assert Multimap.Get(results, k) == Multimap.Select(Report.Outcomes(cases), k);
      SelectCounts(cases, k);
    }
  }

  lemma MetricsNames(reports: seq<string>, results: Multimap.Multimap<bool>, ms: seq<TestMetrics>, binaryEntropy: (nat, nat) -> real)
    requires results == Report.CollectResults(reports)
    requires ms == MetricsFor(results, results.keys, binaryEntropy)
    ensures forall i, j :: 0 <= i < j < |ms| ==> ms[i].testName != ms[j].testName
    ensures forall k :: HasMetrics(ms, k) <==> Report.HasCase(Report.ParseReports(reports), k)
  {
    MetricsForNames(results, results.keys, binaryEntropy);
  }

  /** The metrics of a list of names carry exactly those names, in order. */
  lemma MetricsForNames(results: Multimap.Multimap<bool>, names: seq<string>, binaryEntropy: (nat, nat) -> real)
    ensures forall i :: 0 <= i < |names| ==> MetricsFor(results, names, binaryEntropy)[i].testName == names[i]
    ensures forall k :: HasMetrics(MetricsFor(results, names, binaryEntropy), k) <==> k in names
  {
    var ms := MetricsFor(results, names, binaryEntropy);
    forall k
      ensures HasMetrics(ms, k) <==> k in names
    {
      if k in names {
        var i :| 0 <= i < |names| && names[i] == k;
        assert ms[i].testName == k;
      }
    }
  }

  /** The label texts of the two `when` blocks. */
  function StatusLabel(s: Status): string {
    match s
    case NotFlaky => "Not Flaky (NF)"
    case SlightlyFlaky => "Slightly Flaky (SF)"
    case Flaky => "Flaky"
    case VeryFlaky => "Very Flaky (VF)"
    case Unknown => "Unknown"
  }

  /** The reason written into the directive. `format3` stands for `"%.3f".format`. */
  function Reason(m: TestMetrics, format3: real -> string): string {
    "Flaky test: Entropy=" + format3(m.entropy) + ", Status: " + StatusLabel(EntropyStatus(m.entropy))
      + ", FlipRate=" + format3(m.flipRate) + ", Status: " + StatusLabel(FlipRateStatus(m.flipRate))
  }

  /** The `testsToIgnore.getOrPut(className) { ... }.add(methodName to reason)`
      calls, in the order of the metrics: only for tests past the threshold
      whose name has a dot. */
  function IgnoreItems(ms: seq<TestMetrics>, format3: real -> string): (items: seq<(string, (string, string))>)
    ensures |items| <= |ms|
    ensures (forall i :: 0 <= i < |ms| ==> !ShouldIgnore(ms[i])) ==> items == []
    ensures (forall i :: 0 <= i < |ms| ==> ShouldIgnore(ms[i]) && '.' in ms[i].testName) ==> |items| == |ms|
  {
    if |ms| == 0 then []
    else ItemsOf(ms[0], format3) + IgnoreItems(ms[1..], format3)
  }

  /** The request one test contributes: none, or its class, method and reason. */
  function ItemsOf(m: TestMetrics, format3: real -> string): (items: seq<(string, (string, string))>)
    ensures |items| <= 1
    ensures |items| == 1 <==> ShouldIgnore(m) && '.' in m.testName
    ensures forall c, mn, reason :: (c, (mn, reason)) in items <==> RequestsIgnore(m, format3, c, mn, reason)
  {
    if ShouldIgnore(m) then
      match SplitTestName(m.testName)
      case Some(parts) => [(parts.0, (parts.1, Reason(m, format3)))]
      case None => []
    else []
  }

  /** The test `m` asks for method `mn` of class `c` to be disabled with `reason`. */
  predicate RequestsIgnore(m: TestMetrics, format3: real -> string, c: string, mn: string, reason: string) {
    ShouldIgnore(m) && SplitTestName(m.testName) == Some((c, mn)) && reason == Reason(m, format3)
  }

  /** An ignore request is made for a class and method exactly when some test
      past the threshold has that class and method as its name. */
  lemma {:induction false} IgnoreItemsMember(ms: seq<TestMetrics>, format3: real -> string, c: string, mn: string, reason: string)
    ensures (c, (mn, reason)) in IgnoreItems(ms, format3)
        <==> exists i :: 0 <= i < |ms| && RequestsIgnore(ms[i], format3, c, mn, reason)
    decreases |ms|
  {
    if |ms| > 0 {
      assert IgnoreItems(ms, format3) == ItemsOf(ms[0], format3) + IgnoreItems(ms[1..], format3);
      IgnoreItemsMember(ms[1..], format3, c, mn, reason);
      if exists i :: 0 <= i < |ms| && RequestsIgnore(ms[i], format3, c, mn, reason) {
        var i :| 0 <= i < |ms| && RequestsIgnore(ms[i], format3, c, mn, reason);
        if i > 0 {
          assert ms[1..][i - 1] == ms[i];
        }
      }
      if exists i :: 0 <= i < |ms[1..]| && RequestsIgnore(ms[1..][i], format3, c, mn, reason) {
        var i :| 0 <= i < |ms[1..]| && RequestsIgnore(ms[1..][i], format3, c, mn, reason);
        assert ms[i + 1] == ms[1..][i];
      }
    }
  }

  /** `testsToIgnore`: per class, the (method, reason) pairs to disable. */
  function TestsToIgnore(ms: seq<TestMetrics>, format3: real -> string): (t: Multimap.Multimap<(string, string)>)
    ensures Multimap.Valid(t)
    ensures forall c, mn, reason :: (mn, reason) in Multimap.Get(t, c) <==>
        exists i :: 0 <= i < |ms| && RequestsIgnore(ms[i], format3, c, mn, reason)
  {
    IgnoreRequests(ms, format3);
    Multimap.AddAll(Multimap.Empty(), IgnoreItems(ms, format3))
  }

  lemma IgnoreRequests(ms: seq<TestMetrics>, format3: real -> string)
    ensures forall c, mn, reason ::
      (mn, reason) in Multimap.Get(Multimap.AddAll(Multimap.Empty(), IgnoreItems(ms, format3)), c)
      <==> exists i :: 0 <= i < |ms| && RequestsIgnore(ms[i], format3, c, mn, reason)
  {
    forall c, mn, reason {
      IgnoreRequest(ms, format3, c, mn, reason);
    }
  }

  lemma IgnoreRequest(ms: seq<TestMetrics>, format3: real -> string, c: string, mn: string, reason: string)
    ensures (mn, reason) in Multimap.Get(Multimap.AddAll(Multimap.Empty(), IgnoreItems(ms, format3)), c)
        <==> exists i :: 0 <= i < |ms| && RequestsIgnore(ms[i], format3, c, mn, reason)
  {
    var items := IgnoreItems(ms, format3);
    var empty: Multimap.Multimap<(string, string)> := Multimap.Empty();
    assert Multimap.Get(empty, c) == [];
    Multimap.SelectMember(items, c, (mn, reason));
    IgnoreItemsMember(ms, format3, c, mn, reason);
  }

  /** A path the project walk visits: its file name and whether it is a regular file. */
  datatype Entry = Entry(name: string, isFile: bool)

  /** The walk's filter (build.gradle.kts:239-243): a Kotlin or Java file whose
      name contains the class name's last segment. */
  predicate IsTestFileFor(e: Entry, shortClassName: string) {
    e.isFile && (EndsWith(e.name, ".kt") || EndsWith(e.name, ".java")) && Contains(e.name, shortClassName)
  }

  /** The first entry from `from` on that the filter keeps. */
  function FirstTestFile(walk: seq<Entry>, shortClassName: string, from: nat): (r: Option<nat>)
    requires from <= |walk|
    ensures r.Some? ==> from <= r.value < |walk| && IsTestFileFor(walk[r.value], shortClassName)
    ensures r.Some? ==> forall j :: from <= j < r.value ==> !IsTestFileFor(walk[j], shortClassName)
    ensures r.None? ==> forall j :: from <= j < |walk| ==> !IsTestFileFor(walk[j], shortClassName)
    decreases |walk| - from
  {
    if from == |walk| then None
    else if IsTestFileFor(walk[from], shortClassName) then Some(from)
    else FirstTestFile(walk, shortClassName, from + 1)
  }

  /** `project.projectDir.walk().filter { … }.firstOrNull()` for a class of the
      ignore list (build.gradle.kts:237-244), the walk given in its order: the
      index of the first matching entry. */
  function TestFileFor(walk: seq<Entry>, className: string): (r: Option<nat>) {
    FirstTestFile(walk, SubstringAfterLast(className, '.'), 0)
  }

  /** A file named after the class's last segment is found, unless an earlier
      entry matches first: the match is by substring, so `FooTest.kt` is taken
      for class `Foo` when the walk reaches it first. */
  lemma TestFileFound(walk: seq<Entry>, className: string, i: nat, ext: string)
    requires i < |walk| && (ext == ".kt" || ext == ".java")
    requires walk[i] == Entry(SubstringAfterLast(className, '.') + ext, true)
    ensures TestFileFor(walk, className).Some? && TestFileFor(walk, className).value <= i
  {
    var short := SubstringAfterLast(className, '.');
    var name := short + ext;
    assert name[|name| - |ext|..] == ext;
    assert OccursAt(name, short, 0);
    ContainsAt(name, short, 0);
    assert IsTestFileFor(walk[i], short);
  }

  /** A class whose last segment no file name contains has no test file. */
  lemma NoTestFile(walk: seq<Entry>, className: string)
    requires forall j :: 0 <= j < |walk| ==> !Contains(walk[j].name, SubstringAfterLast(className, '.'))
    ensures TestFileFor(walk, className) == None
  {
  }

  /** One failure among five runs: two of the four adjacent pairs flip, so the
      flip rate is 0.5 (Very Flaky) and the test is ignored. */
  lemma OneFailureInFiveRuns(binaryEntropy: (nat, nat) -> real)
    ensures var m := MetricsOf("SampleFlakyTests.t", [true, false, true, true, true], binaryEntropy);
      && m.totalRuns == 5 && m.passes == 4 && m.flipRate == 0.5
      && m.entropy == binaryEntropy(4, 5)
      && FlipRateStatus(m.flipRate) == VeryFlaky && ShouldIgnore(m)
  {
    var r := [true, false, true, true, true];
    assert r[..4] == [true, false, true, true];
    assert r[..4][..3] == [true, false, true];
    assert r[..4][..3][..2] == [true, false];
    assert [true, false][..1] == [true];
    assert FlipCount([true, false]) == 1;
    assert FlipCount([true, false, true]) == 2;
    assert FlipCount([true, false, true, true]) == 2;
    assert FlipCount(r) == 2;
  }

  /** Five passing runs are Not Flaky by both tables and not ignored. */
  lemma FivePassingRuns(binaryEntropy: (nat, nat) -> real)
    ensures var m := MetricsOf("SampleFlakyTests.t", [true, true, true, true, true], binaryEntropy);
      && m.totalRuns == 5 && m.passes == 5 && m.entropy == 0.0 && m.flipRate == 0.0
      && EntropyStatus(m.entropy) == NotFlaky && FlipRateStatus(m.flipRate) == NotFlaky && !ShouldIgnore(m)
  {
    var r := [true, true, true, true, true];
    assert IsConstant(r);
  }
}
