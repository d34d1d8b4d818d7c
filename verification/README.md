# Flaky-test detection in Dafny

A model of the two Gradle scripts that detect and suppress flaky tests.

## build.gradle.kts
The `analyzeTestFlakiness` task works in five steps:

1. It reads the JUnit XML reports of repeated test runs and cuts each report at `<testcase`.
2. It collects a pass/fail sequence per `classname.name`.
3. It turns every sequence into `TestMetrics`: runs, passes, Shannon entropy and flip rate.
4. It labels each metric with the two threshold tables.
5. It picks the tests past the ignore threshold. For each one it finds a source file and inserts `import org.junit.jupiter.api.Disabled` and an `@Disabled("reason")` line above the test's `@Test` marker.

## reliability-gate.gradle.kts
The `reliabilityGate` task works in four steps:

1. It takes the modified `.kt`/`.java` files from `git diff`.
2. It finds the `@Test` methods of each file with two regular expressions. It keeps those absent from the base revision.
3. It qualifies them with the package and class name.
4. It runs each one five times. The gate fails when any run failed.

## Modules
| module | contents |
|---|---|
| `Wrappers` | `Option` |
| `Strings` | The Kotlin `String` functions the scripts use, on `seq<char>`: `indexOf`, `contains`, `split`, `joinToString`, `substringAfter/Before/AfterLast`, `removeSuffix`, `trim`, `trimStart`, `trimEnd`, `takeWhile { isWhitespace }`. |
| `Multimap` | A `MutableMap<String, MutableList<V>>` filled by `getOrPut(k) { mutableListOf() }.add(v)`, in key-insertion order. |
| `Flakiness` | Pass counts, flip rate, the entropy guard, the status tables, `shouldIgnore` and the test-name split. |
| `Report` | The `<testcase` scanner, and collecting outcomes per test name. |
| `Analysis` | The metrics of every test, the ignore requests per class, and the lookup of a test's source file. |
| `Annotate` | The import and `@Disabled` insertion, on a file given as its list of lines. |
| `Patterns` | Deterministic scanners for the three regular expressions `package\s+([\w.]+)`, `class\s+(\w+)` and the Kotlin/Java `@Test` patterns. Each is stated as "match at `i`" and searched the way `Regex.find`/`findAll` searches. Ghost predicates state the `@Test` patterns directly, and lemmas show that the scanners return exactly the matches a backtracking engine returns. |
| `Gate` | Modified files, class names, new tests, qualification and the run/verdict loop. |

Every source path below is relative to the repository root.

## Model
| member | source | states |
|---|---|---|
| Flakiness.CountPasses | build.gradle.kts:168 | The pass count is the number of `true` outcomes in the sequence, and never more than its length. |
| Flakiness.CountPassesExtremes | build.gradle.kts:75 | No passes means every run failed; passes equal to the run count means every run passed. Both directions. |
| Flakiness.FlipCount | build.gradle.kts:88-93 | The flip counter stays 0 for fewer than two runs and never exceeds the number of adjacent pairs. |
| Flakiness.FlipCountIsFlipPositions | build.gradle.kts:88-93 | The loop's counter equals the number of positions `i` where run `i+1` differs from run `i`. |
| Flakiness.FlipCountZeroIffConstant | build.gradle.kts:88-93 | No flips exactly when every run has the same outcome. |
| Flakiness.FlipCountMaxIffAlternates | build.gradle.kts:88-93 | The flip count reaches `size - 1` exactly when every adjacent pair differs. |
| Flakiness.FlipRate | build.gradle.kts:85-96 | The flip rate lies in [0, 1]. It is 0 exactly for constant sequences, including those with at most one run. It is 1 exactly for alternating sequences of at least two runs. |
| Flakiness.CalculateFlipRate | build.gradle.kts:85-96 | The loop with its counter computes the flip rate above. |
| Flakiness.Entropy | build.gradle.kts:74-83 | Entropy is 0 when all runs pass or all fail. Otherwise it is the binary-entropy value of passes over runs. |
| Flakiness.EntropySymmetric | build.gradle.kts:74-83 | Swapping passes and failures leaves the entropy unchanged whenever the entropy formula is symmetric. |
| Flakiness.Classify | build.gradle.kts:192-207 | For ordered bin bounds, each label holds exactly on its range, both directions. Unknown holds exactly on negatives and the gaps between the ranges. |
| Flakiness.EntropyStatus | build.gradle.kts:192-198 | The entropy label is Unknown exactly on negatives and on (0, 0.13), (0.17, 0.18) and (0.48, 0.49). |
| Flakiness.FlipRateStatus | build.gradle.kts:201-207 | The flip-rate label is Unknown exactly on negatives and on (0, 0.09), (0.10, 0.11) and (0.31, 0.32). |
| Flakiness.ShouldIgnore | build.gradle.kts:192-212 | A test is ignored exactly when either table labels it Slightly Flaky or worse, or labels it Unknown from a gap above its Slightly Flaky range. A test that is not ignored is Not Flaky or Unknown by both tables. |
| Flakiness.UnknownButIgnored | build.gradle.kts:192-212 | Entropy 0.175 with flip rate 0 is labelled Unknown and Not Flaky, and the test is ignored. Flip rate 0.315 with entropy 0 is labelled Not Flaky and Unknown, and the test is ignored too. |
| Flakiness.SplitTestName | build.gradle.kts:217-220 | A name splits exactly when it has a dot. The class part, a dot and the method part give the name back, and the method part has no dot. |
| Flakiness.SplitTestNameInverse | build.gradle.kts:217-220 | `class.method` with a dot-free method splits back into that class and method. |
| Flakiness.LastDotUnique | build.gradle.kts:217-220 | Two ways of writing a name as `a.b` with a dot-free `b` are the same. |
| Report.Fragments | build.gradle.kts:155-156 | The fragments after the first, joined back with `<testcase` behind the dropped head, give the report. No fragment holds the tag. There are as many fragments as occurrences of `<testcase`, so none exactly when the report lacks the tag. |
| Report.ParseTestCase | build.gradle.kts:160 | A test case passes exactly when `<failure` occurs at no position of its fragment and `<error` occurs at no position either. |
| Report.AttributeValueAt | build.gradle.kts:157-158 | An attribute written `attr="v"` with a quote-free value, and no earlier `attr="`, is read back as `v`. |
| Report.ParseGradleTestcase | build.gradle.kts:157-159 | For a Gradle-shaped fragment (`name` first, then `classname`), the test's full name is `classname.name`. |
| Report.NameOfGradleTestcase | build.gradle.kts:157 | In a Gradle-shaped fragment the `name=` search reads the test name. |
| Report.ClassNameOfGradleTestcase | build.gradle.kts:158 | In a Gradle-shaped fragment the `classname=` search reads the class name. |
| Report.ClassnameFirstShadowsName | build.gradle.kts:157 | When `classname` comes first, the `name="` search lands inside `classname="`, so the test is recorded as `classname.classname` whatever its name. |
| Report.ParseReport | build.gradle.kts:155-160 | One test case per occurrence of `<testcase` in the report, in order. Each is parsed from the text between its tag and the next. |
| Report.OutcomeKeys | build.gradle.kts:161 | A name collects outcomes exactly when some test case carries it. |
| Report.CollectResults | build.gradle.kts:147-164 | `testResults` is well formed. Each name's list holds the outcomes of its test cases in report order. The lists together hold one entry per test case. A name is a key exactly when some test case carries it. |
| Multimap.Add | build.gradle.kts:161 | `getOrPut(k).add(v)` appends `v` to `k`'s list and leaves every other list alone. It adds `k` at the end of the key order only when `k` is new. |
| Multimap.AddAll | build.gradle.kts:223 | Adding a sequence of items appends to each key exactly the values listed for it, in order. It keeps the earlier key order as a prefix. A key is present exactly when it was before or some item names it. |
| Multimap.AddAllTotal | build.gradle.kts:161 | Each added item adds exactly one entry to the lists' total size. |
| Multimap.SelectMember | build.gradle.kts:223 | A value is in a key's list exactly when that key-value item was added. |
| Analysis.MetricsOf | build.gradle.kts:167-175 | A test's metrics: runs are the sequence length and passes its `true` count. The flip rate is in [0, 1] and is 0 exactly for constant sequences. Entropy is 0 for constant sequences and the binary entropy otherwise. |
| Analysis.ConstantIffExtremePasses | build.gradle.kts:75 | The entropy guard's `passes == 0 \|\| passes == totalRuns` holds exactly when all runs agree, which is when the flip rate is 0. |
| Analysis.MetricsFor | build.gradle.kts:167-176 | One metrics record per key, in key order, each computed from that key's outcomes. |
| Analysis.SumRunsIsTotal | build.gradle.kts:167-176 | The metrics' runs add up to the number of collected outcomes. |
| Analysis.SelectCounts | build.gradle.kts:161-168 | The outcomes collected under a name number the test cases of that name, and their passes number its passing cases. |
| Analysis.AnalyzeReports | build.gradle.kts:147-176 | Test names in `metrics` are distinct, and a name has metrics exactly when some test case carries it. Runs and passes count that name's cases and passing cases. The runs add up to the number of test cases read. |
| Analysis.MetricsNames | build.gradle.kts:167-176 | The names in `metrics` are distinct and are exactly the names found in the reports. |
| Analysis.ItemsOf | build.gradle.kts:211-223 | A test contributes at most one request. It contributes one exactly when it passes the ignore threshold, its name has a dot, and the request carries its class, method and reason. |
| Analysis.IgnoreItems | build.gradle.kts:211-223 | At most one request per metric. No test past the threshold means no request. When every test is past the threshold and has a dotted name, there is one request per test. |
| Analysis.IgnoreItemsMember | build.gradle.kts:211-223 | A `(class, (method, reason))` request is made exactly when some metric passes the threshold and splits into that class and method with that reason. |
| Analysis.TestsToIgnore | build.gradle.kts:179-226 | `testsToIgnore` is well formed. A class lists `(method, reason)` exactly when some test past the threshold splits into that class and method with that reason. |
| Analysis.FirstTestFile | build.gradle.kts:238-244 | The walk yields the first Kotlin or Java file whose name contains the short class name. It yields nothing exactly when no entry qualifies. |
| Analysis.TestFileFound | build.gradle.kts:237-244 | A file named after the class's last segment is always found, at its place or at an earlier entry that also matches. |
| Analysis.NoTestFile | build.gradle.kts:237-244 | No file is found when no entry's name contains the class's last segment. |
| Analysis.OneFailureInFiveRuns | build.gradle.kts:85-96 | For [pass, fail, pass, pass, pass]: 5 runs and 4 passes. The flip rate is 0.5, labelled Very Flaky, so the test is ignored. |
| Analysis.FivePassingRuns | build.gradle.kts:74-96 | For five passes, entropy and flip rate are 0. Both labels are Not Flaky and the test is not ignored. |
| Annotate.Insert | build.gradle.kts:266 | `lines.add(i, x)` puts `x` at `i` and shifts the later lines by one, keeping every line. |
| Annotate.FirstClass | build.gradle.kts:259-261 | The loop stops at the first class line, or runs to the end when there is none. |
| Annotate.ImportInsertIndex | build.gradle.kts:253-263 | The import goes directly below the last import line before the first class line. With no such import it goes at index 0. |
| Annotate.InsertImport | build.gradle.kts:252-268 | After the step the file holds the import. A file that had it is unchanged. Otherwise the import is inserted at the computed index. |
| Annotate.InsertImportOnce | build.gradle.kts:252-268 | Into a file without it, the import is inserted exactly once. Removing that one line gives the original file back. |
| Annotate.InsertImportIdempotent | build.gradle.kts:252 | Running the import step twice is the same as running it once. |
| Annotate.FactsInsert | build.gradle.kts:280-299 | Inserting a line changes the per-line facts the search reads only by inserting that line's facts. |
| Annotate.FindDeclaration | build.gradle.kts:276-284 | The search stops at the first line that mentions `fun <method>` and has a parenthesis on it or on the next raw line. It finds none exactly when no line qualifies. |
| Annotate.MentionHasFun | build.gradle.kts:280-283 | The search tests for a substring of the trimmed line, so a line it takes for a mention holds `fun ` somewhere. |
| Annotate.NoFunNotFound | build.gradle.kts:279-283 | A file with `fun ` on no line, such as a Java test class, yields no declaration: every request for it is NotFound and leaves it unchanged. |
| Annotate.PrefixNameDeclares | build.gradle.kts:283-284 | A request for `m` takes `fun m<more>() {` for a declaration of `m`: the search matches a prefix of the name. |
| Annotate.FindDeclarationFirst | build.gradle.kts:279-284 | The first qualifying line is the one found. |
| Annotate.TestMarkerAbove | build.gradle.kts:287-293 | The marker used is the nearest `@Test` or `@Test(` line among the five lines above the declaration. None is used exactly when those lines have none. |
| Annotate.MarkerScanNearest | build.gradle.kts:288-293 | The downward scan finds the nearest marker. |
| Annotate.HasDisabledAbove | build.gradle.kts:296-303 | The look-back skips negative indices and stops at the first hit. It reports a directive exactly when one of the (up to) three lines above the marker starts with `@Disabled` after trimming. |
| Annotate.Directive | build.gradle.kts:306-310 | The inserted line has the marker line's indentation, and trims to exactly `@Disabled("reason")`. So the three-line look-back of a later run sees it as a directive, and it holds a parenthesis. |
| Annotate.DirectiveFacts | build.gradle.kts:283-299 | A directive whose reason does not mention the method is seen as a disabled line with a parenthesis, neither a marker nor a mention. |
| Annotate.DisableMethod | build.gradle.kts:274-327 | Nothing changes unless a directive is added. The method is not found exactly when no line is a declaration. There is no marker exactly when the first declaration has no `@Test` line in the five lines above it; the file is then left as it is and later declarations are not tried. The request is already disabled exactly when that nearest marker has `@Disabled` among the three lines above it. Otherwise the directive goes directly above that marker. |
| Annotate.AddedLines | build.gradle.kts:305-314 | When the marker has no directive above it, the directive is inserted at the marker's index. |
| Annotate.AlreadyDisabledUnchanged | build.gradle.kts:296-317 | A marker with `@Disabled` among the three lines above it leaves the file unchanged and reports the method as already disabled. |
| Annotate.DeclarationMoves | build.gradle.kts:279-284 | A directive inserted above the declaration moves the found declaration down by one, when every mention of the method is a declaration. |
| Annotate.MarkerMoves | build.gradle.kts:288-293 | A line inserted at the marker moves the marker found from the shifted declaration down by one. |
| Annotate.SecondRun | build.gradle.kts:279-305 | After the insertion, the second search finds the same declaration and marker, now with a directive above the marker. |
| Annotate.DisableMethodIdempotent | build.gradle.kts:274-327 | Disabling the same method twice gives the same lines as once. This holds when every line mentioning the method is a declaration and the reason does not mention it. |
| Annotate.NotIdempotentExample | build.gradle.kts:279-310 | Without those conditions the second run changes the file. A `// fun m` comment above the directive-carrying marker becomes a declaration, and a second directive is added. |
| Annotate.ExampleFirstRun | build.gradle.kts:279-310 | In the example file the first run inserts the directive above the real test's marker. |
| Annotate.ExampleSecondRun | build.gradle.kts:279-310 | In the example file the second run inserts another directive at the top. |
| Annotate.ExtendsInsert | build.gradle.kts:310 | Inserting an import or directive line keeps every original line in order. |
| Annotate.ExtendsTrans | build.gradle.kts:274-328 | Keeping every line in order composes across edits. |
| Annotate.DisableStep | build.gradle.kts:274-327 | One method's edit keeps every original line in order. It adds one line exactly when it adds a directive, and it keeps the import. |
| Annotate.DisableAll | build.gradle.kts:270-328 | Processing a class's requests keeps every original line in order. It adds one line per directive, at most one per request, and keeps the import. |
| Annotate.AnnotateFile | build.gradle.kts:249-331 | The annotated file holds the import and keeps every original line in order. |
| Annotate.AnnotateOne | build.gradle.kts:252-328 | Annotating with one request is the import step followed by that method's edit. |
| Annotate.AnnotateFileIdempotent | build.gradle.kts:252-328 | Annotating twice with the same request equals annotating once, under the conditions of DisableMethodIdempotent. |
| Strings.IndexOfFrom | build.gradle.kts:157 | `indexOf` yields the first occurrence at or after the start. It yields none exactly when there is none. |
| Strings.Split | build.gradle.kts:155 | The pieces, joined with the separator, give the string back. No piece holds the separator. There is one piece exactly when the string lacks it. |
| Strings.SplitCount | build.gradle.kts:155 | For a separator whose first character does not recur in it, such as `<testcase`, `split` gives exactly one more piece than the separator has occurrences. |
| Strings.ContainsIffOccurs | build.gradle.kts:160 | `contains` holds exactly when the pattern occurs at some position. |
| Strings.SubstringAfterLast | build.gradle.kts:237 | The result ends the string and holds no separator. When shorter than the string, it is preceded by the separator. |
| Strings.TrimStart | build.gradle.kts:257 | The result ends the line, does not start with whitespace, and only whitespace was removed. |
| Strings.TrimEnd | build.gradle.kts:280 | The result starts the line, does not end with whitespace, and only whitespace was removed. |
| Strings.LeadingWhitespace | build.gradle.kts:307 | The indentation is all whitespace, and indentation plus trimmed line is the line. |
| Strings.TrimIndented | build.gradle.kts:307-310 | Indentation plus a body that is trim at both ends trims back to that body. |
| Patterns.RunEnd | reliability-gate.gradle.kts:151 | A greedy character-class run: every character up to the end is in the class, and the next one is not. |
| Patterns.KeywordAt | reliability-gate.gradle.kts:44-45 | A `keyword\s+(class+)` match at `i` starts at `i`, and its group is non-empty and ends the match. |
| Patterns.KeywordAtIsGreedy | reliability-gate.gradle.kts:44-45 | The scanner matches at `i` exactly when the pattern can. Its group is the one a backtracking engine captures: the only possible group start and the longest group. |
| Patterns.ExtractPattern | reliability-gate.gradle.kts:140-144 | The result is empty exactly when nothing matches. Otherwise it is the group of the leftmost match. |
| Patterns.SkipAnnotations | reliability-gate.gradle.kts:151 | After the annotation list the next character, if any, is not `@`. |
| Patterns.SkipAnnotationsSound | reliability-gate.gradle.kts:151 | What the scanner skips is a list of `@[\w\d]+\s+` annotations. |
| Patterns.SkipAnnotationsExact | reliability-gate.gradle.kts:151 | When an annotation list is followed by a character that is neither `@` nor a blank, the scanner stops exactly at its end. |
| Patterns.AfterTestSound | reliability-gate.gradle.kts:151-157 | The prefix the scanner accepts is `@Test`, blanks, and an annotation list. |
| Patterns.AfterTestExact | reliability-gate.gradle.kts:151-157 | When such a prefix is followed by a character that is neither `@` nor a blank, the scanner ends it exactly there. |
| Patterns.NameThenParenSound | reliability-gate.gradle.kts:151-157 | What the tail scanner accepts is `\s+(\w+)\s*\(`, with the match's group as the `\w+` part. |
| Patterns.NameThenParenExact | reliability-gate.gradle.kts:151-157 | Whatever way the text splits as `\s+(\w+)\s*\(`, the scanner returns that split, so the split is unique. |
| Patterns.TypedNameSound | reliability-gate.gradle.kts:157 | What the typed-name scanner accepts is the longest `[\w<>\[\]]+` run as the type, then the tail. |
| Patterns.TypedNameExact | reliability-gate.gradle.kts:157 | Whatever way the text splits as a type run and a tail, the scanner returns that split. |
| Patterns.KotlinRestSound | reliability-gate.gradle.kts:151 | What the Kotlin scanner accepts after the annotations is `fun` and a tail. |
| Patterns.PublicRestSound | reliability-gate.gradle.kts:157 | What the first Java alternative accepts is `public`, blanks and a typed name. |
| Patterns.PublicRestExact | reliability-gate.gradle.kts:157 | Whenever the text has `public`, blanks and a typed name, the first alternative returns that match. |
| Patterns.MatchAt | reliability-gate.gradle.kts:151-157 | A test-method match at `i` starts with `@Test`. It captures a non-empty `\w` word after it and ends at a `(`. Patterns.KotlinMatchAt and Patterns.JavaMatchAt tie it to the two patterns. |
| Patterns.JavaRest | reliability-gate.gradle.kts:157 | When the Java rest matches, it captures a non-empty `\w` word and ends at `(`. |
| Patterns.JavaRestSound | reliability-gate.gradle.kts:157 | What the Java scanner accepts after the annotations is the rest of the Java pattern. It goes through `public\s+` exactly when the `public` alternative succeeded. |
| Patterns.KotlinMatchAt | reliability-gate.gradle.kts:151 | The scanner returns `m` at `i` exactly when the Kotlin pattern matches there with `m`'s group and end. The split is unique, so this is the capture of a backtracking engine. |
| Patterns.JavaMatchAt | reliability-gate.gradle.kts:157 | The scanner returns `m` at `i` exactly in two cases. Either the Java pattern matches with `m` through `public\s+`, or it matches with `m` without it and no match through `public\s+` exists. That is the engine's order: the optional group first. |
| Patterns.FindFrom | reliability-gate.gradle.kts:152 | `find` from a position yields the first match at or after it. It yields none exactly when there is none. |
| Patterns.FindAll | reliability-gate.gradle.kts:152-159 | `findAll` yields matches in order and without overlap, each resuming at the previous match's end. No match starts in a gap or after the last. |
| Patterns.Found | reliability-gate.gradle.kts:152-159 | Every reported match is a match at its start. Nothing is reported exactly when there is no match anywhere. |
| Patterns.DialectNames | reliability-gate.gradle.kts:152-159 | A name is collected exactly when it is the group of a reported match. |
| Patterns.AddAll | reliability-gate.gradle.kts:148-159 | Adding to the `LinkedHashSet` keeps it duplicate-free and keeps earlier elements first. It holds exactly the old elements and the added ones. |
| Patterns.TestMethods | reliability-gate.gradle.kts:147-163 | The method names are distinct, and are exactly the groups of the Kotlin and Java matches. Content without `@Test` has none. |
| Patterns.DialectNameMatches | reliability-gate.gradle.kts:150-159 | Every name a dialect reports is the group of a reported match. That match starts at an `@Test` marker and is a match of the dialect's pattern. |
| Patterns.TestMethodsFollowMarker | reliability-gate.gradle.kts:147-163 | Every found method name is a non-empty `\w` word. It is the group of a reported Kotlin or Java match that starts at an `@Test` marker and matches that dialect's pattern. |
| Gate.KeepSources | reliability-gate.gradle.kts:16 | A path is kept exactly when it is non-empty and ends in `.kt` or `.java`. |
| Gate.ModifiedFiles | reliability-gate.gradle.kts:14-16 | The modified files are exactly the `git diff` output lines that are source paths. None holds a newline. |
| Gate.FileClassName | reliability-gate.gradle.kts:55 | The file-name fallback never holds a `/`. |
| Gate.FileClassNameOf | reliability-gate.gradle.kts:53-56 | For `dir/Stem.kt` or `dir/Stem.java`, the fallback class name is `Stem`, with or without a directory. |
| Gate.ClassName | reliability-gate.gradle.kts:45-56 | The file name is used when no `class` declaration matches anywhere. Otherwise the first declared class, never empty, is used. |
| Gate.Qualify | reliability-gate.gradle.kts:69-74 | For a dot-free method, the qualified name splits back at its last dot. The owner is the package-qualified class (the bare class when there is no package) and the method comes back unchanged. |
| Gate.NewMethods | reliability-gate.gradle.kts:66 | A method is new exactly when it is current and not in the base. Order and distinctness are kept, and an empty base keeps everything. |
| Gate.OnlyAddedMethodIsNew | reliability-gate.gradle.kts:60-66 | Adding `b` to a file that had `a` makes only `b` new. Against an empty base both are new. |
| Gate.QualifyAll | reliability-gate.gradle.kts:69-76 | Each new method is qualified in place, in order. |
| Gate.QualifyNew | reliability-gate.gradle.kts:66-76 | A qualified name is produced exactly for a method current and not in the base. |
| Gate.FileNewTests | reliability-gate.gradle.kts:23-77 | A missing file contributes nothing. Otherwise a name is contributed exactly when it qualifies a method that is a test now and was not in the base. |
| Gate.NewFileAllNew | reliability-gate.gradle.kts:31-66 | For a file absent from the base revision, every current test method is new. |
| Gate.FileNewTestsSplit | reliability-gate.gradle.kts:69-74 | Every new test name splits back into an owner and a method that is new in that file. |
| Gate.NewTestsOf | reliability-gate.gradle.kts:21-77 | A name is a new test exactly when some modified file contributes it. |
| Gate.NewTestMethods | reliability-gate.gradle.kts:14-77 | A name is a new test exactly when some modified source file contributes it. |
| Gate.Failures | reliability-gate.gradle.kts:92-105 | A test's fail count is at most its number of runs. |
| Gate.FailuresComplement | reliability-gate.gradle.kts:92-105 | Failures plus passes equal the runs. |
| Gate.FailuresZeroIffAllPass | reliability-gate.gradle.kts:107-111 | No failures exactly when every run passed. |
| Gate.RunGate | reliability-gate.gradle.kts:79-119 | Each test is run five times in order: call `k` runs test `k / 5`, run `k % 5 + 1`. Its fail count is its failed runs, at most five. The gate passes exactly when every run of every test passed; with no new tests it passes at once, running nothing. |
| Gate.ReliabilityGate | reliability-gate.gradle.kts:8-119 | The whole task. A name is a new test exactly when some modified source file contributes it. One fail count per new test, each its failed runs. The verdict passes exactly when no new test has a failed run. |

## Behaviour of the code worth noting
- **Status tables.** The tables use closed ranges: entropy 0.13..0.17 is Slightly Flaky, 0.18..0.48 is Flaky and `>= 0.49` is Very Flaky (build.gradle.kts:192-198). The flip rate uses 0.09..0.10, 0.11..0.31 and `>= 0.32` (build.gradle.kts:201-207). Values in the gaps between ranges, and negative values, are labelled Unknown.
- **Unknown yet ignored.** The ignore decision compares each metric with the lower edge of its Slightly Flaky range only. A value in a gap above that range, such as entropy 0.175 or flip rate 0.315, is labelled Unknown, and the test is still ignored (build.gradle.kts:212, Flakiness.UnknownButIgnored).
- **Flip rate of one failure in five runs.** [pass, fail, pass, pass, pass] has two flips among four adjacent pairs, so its flip rate is 2/4 = 0.5. That is Very Flaky, and the test is ignored (Analysis.OneFailureInFiveRuns).
- **Idempotence.** Annotating a second time changes nothing only under the conditions in Annotate.DisableMethodIdempotent. Annotate.NotIdempotentExample is a file on which a second pass adds another line.
- **Import position.** In a file with no import lines, the `Disabled` import goes at index 0, above any `package` line (build.gradle.kts:253-266, Annotate.ImportInsertIndex).
- **Method search by substring.** The declaration search tests `line.contains("fun $methodName")` (build.gradle.kts:283). A request for `m` can therefore annotate `fun mFoo(` (Annotate.PrefixNameDeclares). A Java method, declared as `void name()`, is never found: a request for a `.java` file with `fun ` on no line ends NotFound (Annotate.NoFunNotFound).
- **No gate verdict in the analysis.** `analyzeTestFlakiness` reports and annotates only. It has no pass/fail verdict and no option to skip name prefixes.
## Left out
- File system, `git` and `./gradlew` calls are parameters. The diff output is a string. Each modified file is a `Snapshot` (whether it exists, its text, its base text or none). The test runs are a sequence of outcomes per test.
- The order of `listFiles()` and `walk()` is the order of the given sequences. Reading `.xml` files only is not modelled: the reports are given.
- `println`, `logger` output and the exception thrown on a failed gate are not modelled; the gate's verdict is a boolean.
- A file is modelled as its list of lines. `content.lines()` and `joinToString("\n")` are not modelled. The import check on the whole content equals the check on its lines, since the import text holds no line break.
- Flakiness.Entropy: the logarithm formula is a parameter `binaryEntropy`; only its guard is modelled, because reals have no `ln` here.
- Flakiness.EntropyStatus: thresholds are compared as exact decimals, not as IEEE doubles.
- Flakiness.FlipRateStatus: thresholds are compared as exact decimals, not as IEEE doubles.
- Analysis.ItemsOf: `"%.3f".format` is a parameter `format3`, and the reason text is built from it.
- Annotate.DisableMethodIdempotent: proved only when every line mentioning `fun <method>` is a declaration line and the reason does not mention it, because the code is not idempotent on every file (Annotate.NotIdempotentExample).
- Annotate.AnnotateFileIdempotent: proved for a single request, under the same conditions, for the same reason.
- Reading the found test file and writing it back are not modelled: Analysis.TestFileFor gives the index of the entry in the walk, and the annotation works on the file's lines.
- Gate.FileClassNameOf: stated for stems that do not themselves end in `.java` when the file is Kotlin; `removeSuffix` then strips that part too, which the lemma does not cover.
- `runTestsMultipleTimes` (the 101 iterations that copy reports into `run-N`) and the `tasks.test` configuration are build settings, not logic.
- `dangerfile.js` and the sample tests under `src` are not part of this model.
- `executeCommand` splits a command on spaces and throws on a non-zero exit code. It is replaced by its outcome: `Gate.RunGate` receives each run's pass or fail.
