/** The scanning of JUnit XML report text in analyzeTestFlakiness
    (build.gradle.kts): split on `<testcase`, read two attributes and a failure
    marker from each fragment, and collect one outcome per fragment under its
    `classname.name`. */
module Report {
  import opened Wrappers
  import opened Strings
  import Multimap

  const TestcaseTag := "<testcase"

  /** One `<testcase` fragment: its qualified name and whether it passed. */
  datatype TestCase = TestCase(fullName: string, passed: bool)

  /** `text.split("<testcase").drop(1)`: one fragment per tag, each running up
      to the next tag; the text before the first tag is dropped. */
  function Fragments(report: string): (fs: seq<string>)
    ensures exists head :: Join([head] + fs, TestcaseTag) == report && !Contains(head, TestcaseTag)
    ensures forall i :: 0 <= i < |fs| ==> !Contains(fs[i], TestcaseTag)
    ensures |fs| == 0 <==> !Contains(report, TestcaseTag)
    ensures |fs| == Occurrences(report, TestcaseTag)
  {
    var parts := Split(report, TestcaseTag);
    assert forall k :: 0 < k < |TestcaseTag| ==> TestcaseTag[k] != TestcaseTag[0];
    SplitCount(report, TestcaseTag);
    assert parts == [parts[0]] + parts[1..];
    parts[1..]
  }

  /** `fragment.substringAfter("<attr>=\"").substringBefore("\"")`. */
  function AttributeValue(fragment: string, attr: string): string {
    SubstringBefore(SubstringAfter(fragment, attr + "=\""), "\"")
  }

  /** A fragment fails when it holds a `<failure` or an `<error` element. */
  predicate Failed(fragment: string) {
    Contains(fragment, "<failure") || Contains(fragment, "<error")
  }

  function ParseTestCase(fragment: string): (c: TestCase)
    ensures c.passed <==> !Contains(fragment, "<failure") && !Contains(fragment, "<error")
    ensures c.passed <==>
      (forall j: nat :: !OccursAt(fragment, "<failure", j)) && (forall j: nat :: !OccursAt(fragment, "<error", j))
  {
    ContainsIffOccurs(fragment, "<failure");
    ContainsIffOccurs(fragment, "<error");
    TestCase(AttributeValue(fragment, "classname") + "." + AttributeValue(fragment, "name"), !Failed(fragment))
  }

  /** The attribute is read from its first `attr="` and runs to the next quote. */
  lemma AttributeValueAt(pre: string, attr: string, v: string, post: string)
    requires !Contains(pre + attr + "=", attr + "=\"")
    requires '"' !in v
    ensures AttributeValue(pre + attr + "=\"" + v + "\"" + post, attr) == v
  {
    var d := attr + "=\"";
    var after := v + "\"" + post;
    assert pre + attr + "=\"" + v + "\"" + post == pre + d + after;
    assert pre + d[..|d| - 1] == pre + attr + "=";
    FirstOccurrenceAfter(pre, d, after);
    assert SubstringAfter(pre + d + after, d) == after;
    FirstQuote(v, post);
  }

  /** `d` first occurs right after `pre` when no occurrence ends before it does. */
  lemma FirstOccurrenceAfter(pre: string, d: string, after: string)
    requires |d| > 0 && !Contains(pre + d[..|d| - 1], d)
    ensures IndexOf(pre + d + after, d) == Some(|pre|)
  {
    var s := pre + d + after;
    var t := pre + d[..|d| - 1];
    assert s[|pre|..|pre| + |d|] == d;
    forall j | 0 <= j < |pre|
      ensures !OccursAt(s, d, j)
    {
      if OccursAt(s, d, j) {
        assert s[..|t|] == t;
        SliceOfSlice(s, 0, |t|, j, j + |d|);
        ContainsAt(t, d, j);
      }
    }
    IndexOfFirst(s, d, |pre|);
  }

  /** The first quote after a quote-free value is the one that closes it. */
  lemma FirstQuote(v: string, post: string)
    requires '"' !in v
    ensures SubstringBefore(v + "\"" + post, "\"") == v
  {
    var s := v + "\"" + post;
    assert s[|v|..|v| + 1] == "\"";
    forall j | 0 <= j < |v|
      ensures !OccursAt(s, "\"", j)
    {
      assert s[j] == v[j];
      assert s[j..j + 1][0] == s[j];
    }
    IndexOfFirst(s, "\"", |v|);
    assert s[..|v|] == v;
  }

  /** Round trip for the layout Gradle writes, `name` before `classname`: the
      fragment is read back as `classname.name` for any names free of quotes
      (and, for the method name, of `=`). */
  lemma ParseGradleTestcase(name: string, className: string, rest: string)
    requires '"' !in name && '=' !in name && '"' !in className
    ensures ParseTestCase(" name=\"" + name + "\" classname=\"" + className + "\"" + rest).fullName == className + "." + name
  {
    NameOfGradleTestcase(name, className, rest);
    ClassNameOfGradleTestcase(name, className, rest);
  }

  lemma NameOfGradleTestcase(name: string, className: string, rest: string)
    requires '"' !in name
    ensures AttributeValue(" name=\"" + name + "\" classname=\"" + className + "\"" + rest, "name") == name
  {
    var post := " classname=\"" + className + "\"" + rest;
    assert '"' in "name" + "=\"";
    MissingChar(" " + "name" + "=", "name" + "=\"", '"');
    assert " name=\"" + name + "\" classname=\"" + className + "\"" + rest
      == " " + "name" + "=\"" + name + "\"" + post;
    AttributeValueAt(" ", "name", name, post);
  }

  lemma ClassNameOfGradleTestcase(name: string, className: string, rest: string)
    requires '"' !in name && '=' !in name && '"' !in className
    ensures AttributeValue(" name=\"" + name + "\" classname=\"" + className + "\"" + rest, "classname") == className
  {
    var pre := " name=\"" + name + "\" ";
    NoClassnameAttributeIn(name);
    assert " name=\"" + name + "\" classname=\"" + className + "\"" + rest
      == pre + "classname" + "=\"" + className + "\"" + rest;
    AttributeValueAt(pre, "classname", className, rest);
  }

  /** With `classname` written first, the `name="` inside `classname="` is the
      first match, so the name read is the class name and the test is recorded
      as `classname.classname`, whatever its name. */
  lemma ClassnameFirstShadowsName(className: string, name: string, rest: string)
    requires '"' !in className
    ensures ParseTestCase(" classname=\"" + className + "\" name=\"" + name + "\"" + rest).fullName
      == className + "." + className
  {
    NameOfClassnameFirst(className, name, rest);
    ClassNameOfClassnameFirst(className, name, rest);
  }

  lemma NameOfClassnameFirst(className: string, name: string, rest: string)
    requires '"' !in className
    ensures AttributeValue(" classname=\"" + className + "\" name=\"" + name + "\"" + rest, "name") == className
  {
    var post := " name=\"" + name + "\"" + rest;
    assert '"' in "name" + "=\"";
    MissingChar(" class" + "name" + "=", "name" + "=\"", '"');
    assert " classname=\"" + className + "\" name=\"" + name + "\"" + rest
      == " class" + "name" + "=\"" + className + "\"" + post;
    AttributeValueAt(" class", "name", className, post);
  }

  lemma ClassNameOfClassnameFirst(className: string, name: string, rest: string)
    requires '"' !in className
    ensures AttributeValue(" classname=\"" + className + "\" name=\"" + name + "\"" + rest, "classname") == className
  {
    var post := " name=\"" + name + "\"" + rest;
    assert '"' in "classname" + "=\"";
    MissingChar(" " + "classname" + "=", "classname" + "=\"", '"');
    assert " classname=\"" + className + "\" name=\"" + name + "\"" + rest
      == " " + "classname" + "=\"" + className + "\"" + post;
    AttributeValueAt(" ", "classname", className, post);
  }

  lemma NoClassnameAttributeIn(name: string)
    requires '"' !in name && '=' !in name
    ensures !Contains(" name=\"" + name + "\" " + "classname" + "=", "classname" + "=\"")
  {
    var t := " name=\"" + name + "\" " + "classname" + "=";
    var d := "classname" + "=\"";
    assert d[9] == '=' && d[10] == '"';
    forall j: nat
      ensures !OccursAt(t, d, j)
    {
      if j + |d| <= |t| {
        NoEqualsQuoteAt(name, j);
        assert t[j + 9] == t[j..j + |d|][9] && t[j + 10] == t[j..j + |d|][10];
      }
    }
  }

  /** Nowhere in ` name="<name>" classname=` does `=` come right before `"`. */
  lemma NoEqualsQuoteAt(name: string, j: nat)
    requires '"' !in name && '=' !in name
    requires j + 11 <= |" name=\"" + name + "\" " + "classname" + "="|
    ensures var t := " name=\"" + name + "\" " + "classname" + "=";
      t[j + 9] != '=' || t[j + 10] != '"'
  {
    var a := " name=\"";
    var b := "\" classname=";
    var t := " name=\"" + name + "\" " + "classname" + "=";
    assert t == a + name + b;
    if j + 10 < 7 + |name| {
      assert t[j + 10] == name[j + 3];
    } else if j + 3 == |name| {
      assert t[j + 9] == name[|name| - 1];
    } else {
      assert t[j + 10] == b[j + 3 - |name|];
    }
  }

  /** The test cases of one report, in document order. */
  function ParseReport(report: string): (cs: seq<TestCase>)
    ensures |cs| == |Fragments(report)| == Occurrences(report, TestcaseTag)
    ensures forall i :: 0 <= i < |cs| ==> cs[i] == ParseTestCase(Fragments(report)[i])
  {
    var fs := Fragments(report);
    seq(|fs|, i requires 0 <= i < |fs| => ParseTestCase(fs[i]))
  }

  /** The test cases of every report, reports taken in the order given. */
  function ParseReports(reports: seq<string>): (cs: seq<TestCase>)
  {
    if |reports| == 0 then [] else ParseReport(reports[0]) + ParseReports(reports[1..])
  }

  /** The (name, outcome) pairs `testResults.getOrPut(fullName) { ... }.add(!failed)` is fed. */
  function Outcomes(cases: seq<TestCase>): (items: seq<(string, bool)>)
    ensures |items| == |cases|
    ensures forall i :: 0 <= i < |cases| ==> items[i] == (cases[i].fullName, cases[i].passed)
  {
    seq(|cases|, i requires 0 <= i < |cases| => (cases[i].fullName, cases[i].passed))
  }

  /** Some test case carries the name `k`. */
  predicate HasCase(cases: seq<TestCase>, k: string) {
    exists j :: 0 <= j < |cases| && cases[j].fullName == k
  }

  /** A name collects outcomes exactly when some test case carries it. */
  lemma OutcomeKeys(cases: seq<TestCase>)
    ensures forall k :: |Multimap.Select(Outcomes(cases), k)| > 0 <==> HasCase(cases, k)
  {
    var items := Outcomes(cases);
    forall k
      ensures |Multimap.Select(items, k)| > 0 <==> HasCase(cases, k)
    {
      Multimap.SelectNonEmpty(items, k);
      if exists i :: 0 <= i < |items| && items[i].0 == k {
        var i :| 0 <= i < |items| && items[i].0 == k;
        assert cases[i].fullName == k;
      }
      if exists i :: 0 <= i < |cases| && cases[i].fullName == k {
        var i :| 0 <= i < |cases| && cases[i].fullName == k;
        assert items[i].0 == k;
      }
    }
  }

  /** `testResults`: per test, its outcomes in the order the fragments were read. */
  function CollectResults(reports: seq<string>): (results: Multimap.Multimap<bool>)
    ensures Multimap.Valid(results)
    ensures forall k :: Multimap.Get(results, k) == Multimap.Select(Outcomes(ParseReports(reports)), k)
    ensures Multimap.Total(results, results.keys) == |ParseReports(reports)|
    ensures forall k :: k in results.keys <==> HasCase(ParseReports(reports), k)
  {
    var items := Outcomes(ParseReports(reports));
    Multimap.AddAllTotal(Multimap.Empty(), items);
    OutcomeKeys(ParseReports(reports));
    Multimap.AddAll(Multimap.Empty(), items)
  }
}
