/** The metrics of analyzeTestFlakiness in build.gradle.kts: pass counts, flip
    counting, the zero-entropy guard, the two status tables, the ignore threshold
    and the splitting of a test name into class and method. Doubles are modelled
    as exact `real`s. */
module Flakiness {
  import opened Wrappers
  import opened Strings

  /** `results.count { it }`: the number of passing runs. */
  function CountPasses(results: seq<bool>): (p: nat)
    ensures p <= |results|
    ensures p == multiset(results)[true]
  {
    if |results| == 0 then 0
    else
      var n := |results| - 1;
      assert results == results[..n] + [results[n]];
      CountPasses(results[..n]) + (if results[n] then 1 else 0)
  }

  /** No run passed exactly when the count is 0; every run passed exactly when
      the count is the length. */
  lemma CountPassesExtremes(results: seq<bool>)
    ensures CountPasses(results) == 0 <==> forall i :: 0 <= i < |results| ==> !results[i]
    ensures CountPasses(results) == |results| <==> forall i :: 0 <= i < |results| ==> results[i]
  {
    var ms := multiset(results);
    assert ms[true] + ms[false] == |ms| by {
      BoolMultiset(results);
    }
    if exists i :: 0 <= i < |results| && results[i] {
      var i :| 0 <= i < |results| && results[i];
      assert results[i] in ms;
    }
    if exists i :: 0 <= i < |results| && !results[i] {
      var i :| 0 <= i < |results| && !results[i];
      assert results[i] in ms;
    }
  }

  lemma {:induction false} BoolMultiset(results: seq<bool>)
    ensures multiset(results)[true] + multiset(results)[false] == |results|
  {
    if |results| > 0 {
      assert results == [results[0]] + results[1..];
      var ms := multiset(results);
      var rest := multiset(results[1..]);
      assert ms == multiset{results[0]} + rest;
      BoolMultiset(results[1..]);
      assert |results[1..]| == |results| - 1;
      if results[0] {
        assert ms[true] == rest[true] + 1 && ms[false] == rest[false];
      } else {
        assert ms[false] == rest[false] + 1 && ms[true] == rest[true];
      }
    }
  }

  /** Every run has the outcome of the first. */
  predicate IsConstant(results: seq<bool>) {
    forall i :: 0 <= i < |results| ==> results[i] == results[0]
  }

  /** Run `i + 1` has the outcome opposite to run `i`. */
  predicate FlipsAt(results: seq<bool>, i: nat)
    requires i < |results| - 1
  {
    results[i] != results[i + 1]
  }

  /** Every run has the outcome opposite to the one before it. */
  predicate Alternates(results: seq<bool>) {
    forall i :: 0 <= i < |results| - 1 ==> FlipsAt(results, i)
  }

  /** The loop of calculateFlipRate: how many adjacent pairs differ. Defined on
      growing prefixes, as the loop walks them. */
  function FlipCount(results: seq<bool>): (n: nat)
    ensures |results| <= 1 ==> n == 0
    ensures |results| >= 1 ==> n <= |results| - 1
  {
    if |results| <= 1 then 0
    else
      var k := |results| - 1;
      FlipCount(results[..k]) + (if FlipsAt(results, k - 1) then 1 else 0)
  }

  /** The positions `i` whose run differs from run `i + 1`. */
  function FlipPositions(results: seq<bool>): set<int> {
    set i: nat | i < |results| - 1 && FlipsAt(results, i)
  }

  /** The flip count is the number of positions where the outcome changes. */
  lemma {:induction false} FlipCountIsFlipPositions(results: seq<bool>)
    ensures FlipCount(results) == |FlipPositions(results)|
    decreases |results|
  {
    if |results| <= 1 {
      assert FlipPositions(results) == {};
    } else {
      var k := |results| - 1;
      var prefix := results[..k];
      FlipCountIsFlipPositions(prefix);
      assert forall i :: 0 <= i < k - 1 ==> (FlipsAt(prefix, i) <==> FlipsAt(results, i));
      if FlipsAt(results, k - 1) {
        assert FlipPositions(results) == FlipPositions(prefix) + {k - 1};
      } else {
        assert FlipPositions(results) == FlipPositions(prefix);
      }
    }
  }

  /** No flip at all exactly when the history is constant. */
  lemma {:induction false} FlipCountZeroIffConstant(results: seq<bool>)
    ensures FlipCount(results) == 0 <==> IsConstant(results)
    decreases |results|
  {
    if |results| > 1 {
      var k := |results| - 1;
      FlipCountZeroIffConstant(results[..k]);
      assert IsConstant(results) ==> IsConstant(results[..k]) && results[k - 1] == results[k] by {
        if IsConstant(results) {
          assert results[k - 1] == results[0] == results[k];
        }
      }
      assert IsConstant(results) <==> IsConstant(results[..k]) && results[k - 1] == results[k] by {
        if IsConstant(results[..k]) && results[k - 1] == results[k] {
          forall i | 0 <= i < |results|
            ensures results[i] == results[0]
          {
            if i < k {
              assert results[..k][i] == results[i];
            }
          }
        }
      }
    }
  }

  /** Every adjacent pair flips exactly when the history strictly alternates. */
  lemma {:induction false} FlipCountMaxIffAlternates(results: seq<bool>)
    requires |results| >= 1
    ensures FlipCount(results) == |results| - 1 <==> Alternates(results)
    decreases |results|
  {
    if |results| > 1 {
      var k := |results| - 1;
      FlipCountMaxIffAlternates(results[..k]);
      assert forall i :: 0 <= i < k - 1 ==> (FlipsAt(results[..k], i) <==> FlipsAt(results, i));
      assert Alternates(results) <==> Alternates(results[..k]) && FlipsAt(results, k - 1);
    }
  }

  /** `calculateFlipRate(results)`: flips per adjacent pair, 0 for fewer than two runs. */
  function FlipRate(results: seq<bool>): (r: real)
    ensures 0.0 <= r <= 1.0
    ensures r == 0.0 <==> IsConstant(results)
    ensures r == 1.0 <==> |results| >= 2 && Alternates(results)
  {
    if |results| <= 1 then 0.0
    else
      var flips := FlipCount(results);
      var pairs := |results| - 1;
      FlipCountZeroIffConstant(results);
      FlipCountMaxIffAlternates(results);
      RatioBounds(flips, pairs);
      flips as real / pairs as real
  }

  lemma RatioBounds(flips: nat, pairs: nat)
    requires 0 < pairs && flips <= pairs
    ensures 0.0 <= flips as real / pairs as real <= 1.0
    ensures flips as real / pairs as real == 0.0 <==> flips == 0
    ensures flips as real / pairs as real == 1.0 <==> flips == pairs
  {
    var r := flips as real / pairs as real;
    assert r * pairs as real == flips as real;
  }

  /** The loop of calculateFlipRate as written, counting flips left to right. */
  method CalculateFlipRate(results: seq<bool>) returns (rate: real)
    ensures rate == FlipRate(results)
  {
    if |results| <= 1 {
      return 0.0;
    }
    var flips := 0;
    var i := 0;
    while i < |results| - 1
      invariant 0 <= i <= |results| - 1
      invariant flips == FlipCount(results[..i + 1])
    {
      assert results[..i + 2][..i + 1] == results[..i + 1];
      if results[i] != results[i + 1] {
        assert FlipsAt(results[..i + 2], i);
        flips := flips + 1;
      }
      i := i + 1;
    }
    assert results[..i + 1] == results;
    rate := flips as real / (|results| - 1) as real;
  }

  /** `calculateEntropy(passes, totalRuns)`. For a history with both outcomes the
      source evaluates the binary entropy with natural logarithms; that
      floating-point value is the parameter `binaryEntropy`. */
  function Entropy(passes: nat, totalRuns: nat, binaryEntropy: (nat, nat) -> real): (e: real)
    ensures passes == 0 || passes == totalRuns ==> e == 0.0
    ensures 0 < passes < totalRuns ==> e == binaryEntropy(passes, totalRuns)
  {
    if passes == 0 || passes == totalRuns then 0.0 else binaryEntropy(passes, totalRuns)
  }

  /** The guard is symmetric in passes and failures, so entropy is whenever the
      logarithmic formula is. */
  lemma EntropySymmetric(passes: nat, totalRuns: nat, binaryEntropy: (nat, nat) -> real)
    requires passes <= totalRuns
    requires forall p :: 0 < p < totalRuns ==> binaryEntropy(p, totalRuns) == binaryEntropy(totalRuns - p, totalRuns)
    ensures Entropy(passes, totalRuns, binaryEntropy) == Entropy(totalRuns - passes, totalRuns, binaryEntropy)
  {
  }

  /** One row of TestMetrics. */
  datatype TestMetrics = TestMetrics(testName: string, totalRuns: nat, passes: nat, entropy: real, flipRate: real)

  /** The five labels of the two `when` blocks. */
  datatype Status = NotFlaky | SlightlyFlaky | Flaky | VeryFlaky | Unknown

  /** The closed ranges of one `when` block: `slightLo..slightHi` is Slightly
      Flaky, `flakyLo..flakyHi` is Flaky, from `veryLo` on is Very Flaky. */
  datatype Bins = Bins(slightLo: real, slightHi: real, flakyLo: real, flakyHi: real, veryLo: real)

  predicate Ordered(b: Bins) {
    0.0 < b.slightLo <= b.slightHi < b.flakyLo <= b.flakyHi < b.veryLo
  }

  const EntropyBins := Bins(0.13, 0.17, 0.18, 0.48, 0.49)
  const FlipRateBins := Bins(0.09, 0.10, 0.11, 0.31, 0.32)

  /** The `when` block, branches tried in order. With ordered ranges every value
      gets exactly one label, and the values between the ranges (and below 0)
      are Unknown. */
  function Classify(b: Bins, x: real): (s: Status)
    requires Ordered(b)
    ensures s == NotFlaky <==> x == 0.0
    ensures s == SlightlyFlaky <==> b.slightLo <= x <= b.slightHi
    ensures s == Flaky <==> b.flakyLo <= x <= b.flakyHi
    ensures s == VeryFlaky <==> b.veryLo <= x
    ensures s == Unknown <==> x < 0.0 || 0.0 < x < b.slightLo || b.slightHi < x < b.flakyLo || b.flakyHi < x < b.veryLo
  {
    if x == 0.0 then NotFlaky
    else if b.slightLo <= x <= b.slightHi then SlightlyFlaky
    else if b.flakyLo <= x <= b.flakyHi then Flaky
    else if x >= b.veryLo then VeryFlaky
    else Unknown
  }

  /** "Flakiness Status by Entropy". */
  function EntropyStatus(entropy: real): (s: Status)
    ensures s == Unknown <==> entropy < 0.0 || 0.0 < entropy < 0.13 || 0.17 < entropy < 0.18 || 0.48 < entropy < 0.49
  {
    Classify(EntropyBins, entropy)
  }

  /** "Flakiness Status by Flip Rate". */
  function FlipRateStatus(flipRate: real): (s: Status)
    ensures s == Unknown <==> flipRate < 0.0 || 0.0 < flipRate < 0.09 || 0.10 < flipRate < 0.11 || 0.31 < flipRate < 0.32
  {
    Classify(FlipRateBins, flipRate)
  }

  /** `shouldIgnore`: either metric at or above the lower edge of its Slightly
      Flaky range. */
  function ShouldIgnore(m: TestMetrics): (r: bool)
    ensures EntropyStatus(m.entropy) in {SlightlyFlaky, Flaky, VeryFlaky} ==> r
    ensures FlipRateStatus(m.flipRate) in {SlightlyFlaky, Flaky, VeryFlaky} ==> r
    ensures !r ==> EntropyStatus(m.entropy) in {NotFlaky, Unknown} && FlipRateStatus(m.flipRate) in {NotFlaky, Unknown}
    ensures r ==> EntropyStatus(m.entropy) != NotFlaky || FlipRateStatus(m.flipRate) != NotFlaky
    ensures r <==>
      || EntropyStatus(m.entropy) in {SlightlyFlaky, Flaky, VeryFlaky}
      || FlipRateStatus(m.flipRate) in {SlightlyFlaky, Flaky, VeryFlaky}
      || (EntropyStatus(m.entropy) == Unknown && m.entropy > 0.17)
      || (FlipRateStatus(m.flipRate) == Unknown && m.flipRate > 0.10)
  {
    m.entropy >= 0.13 || m.flipRate >= 0.09
  }

  /** A value in a gap above the Slightly Flaky range is labelled Unknown, yet
      the test is ignored: entropy 0.175 with a stable flip rate, and a flip
      rate of 0.315 with zero entropy. */
  lemma UnknownButIgnored(name: string, runs: nat, passes: nat)
    ensures var m := TestMetrics(name, runs, passes, 0.175, 0.0);
      EntropyStatus(m.entropy) == Unknown && FlipRateStatus(m.flipRate) == NotFlaky && ShouldIgnore(m)
    ensures var m := TestMetrics(name, runs, passes, 0.0, 0.315);
      EntropyStatus(m.entropy) == NotFlaky && FlipRateStatus(m.flipRate) == Unknown && ShouldIgnore(m)
  {
  }

  /** The class and method parts of a `classname.name` test name: everything
      before the last dot and everything after it. */
  function SplitTestName(testName: string): (r: Option<(string, string)>)
    ensures r.Some? <==> '.' in testName
    ensures r.Some? ==> r.value.0 + "." + r.value.1 == testName && '.' !in r.value.1
  {
    var parts := Split(testName, ".");
    ContainsCharIff(testName, '.');
    if |parts| >= 2 then
      var methodName := parts[|parts| - 1];
      JoinLast(parts, ".");
      ContainsCharIff(methodName, '.');
      Some((Join(parts[..|parts| - 1], "."), methodName))
    else None
  }

  /** A name with a dot-free last part splits back into exactly its two halves. */
  lemma SplitTestNameInverse(className: string, methodName: string)
    requires '.' !in methodName
    ensures SplitTestName(className + "." + methodName) == Some((className, methodName))
  {
    var name := className + "." + methodName;
    assert name[|className|] == '.';
    var r := SplitTestName(name);
    LastDotUnique(r.value.0, r.value.1, className, methodName);
  }

  /** Two ways of writing a string as `x + "." + y` with a dot-free `y` agree. */
  lemma LastDotUnique(a: string, b: string, x: string, y: string)
    requires a + "." + b == x + "." + y
    requires '.' !in b && '.' !in y
    ensures a == x && b == y
  {
    var s := a + "." + b;
    assert s[|a|] == '.' && s[|x|] == '.';
    if |a| != |x| {
      assert false;
    }
    assert a == s[..|a|] == x;
    assert b == s[|a| + 1..] == y;
  }
}
