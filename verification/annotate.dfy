/** The source mutator of analyzeTestFlakiness (build.gradle.kts): make sure
    the file imports `Disabled`, then, per flagged method, find its declaration,
    the `@Test` marker a few lines above it, and insert an indented
    `@Disabled("reason")` line before the marker unless one is already close
    above. A file is modelled as its list of lines. */
module Annotate {
  import opened Wrappers
  import opened Strings

  const DisabledImport := "import org.junit.jupiter.api.Disabled"

  /** `s` with `x` inserted at index `i` (`MutableList.add(i, x)`). */
  function Insert<T>(s: seq<T>, i: nat, x: T): (r: seq<T>)
    requires i <= |s|
    ensures |r| == |s| + 1 && r[i] == x
    ensures forall j :: 0 <= j < i ==> r[j] == s[j]
    ensures forall j :: i < j < |r| ==> r[j] == s[j - 1]
  {
    s[..i] + [x] + s[i..]
  }

  /** `content.contains("import org.junit.jupiter.api.Disabled")`; the import
      text holds no line break, so it is contained in the text exactly when it
      is contained in one of its lines. */
  predicate HasDisabledImport(lines: seq<string>) {
    exists i :: 0 <= i < |lines| && Contains(lines[i], DisabledImport)
  }

  predicate IsImportLine(line: string) {
    StartsWith(TrimStart(line), "import ")
  }

  predicate IsClassLine(line: string) {
    StartsWith(TrimStart(line), "class ")
  }

  /** How the import loop reads a line: the import test comes first. */
  datatype LineKind = ImportLine | ClassLine | OtherLine

  function KindOf(line: string): (k: LineKind)
    ensures k == ImportLine <==> IsImportLine(line)
    ensures k == ClassLine <==> !IsImportLine(line) && IsClassLine(line)
  {
    if IsImportLine(line) then ImportLine
    else if IsClassLine(line) then ClassLine
    else OtherLine
  }

  function Kinds(lines: seq<string>): (ks: seq<LineKind>)
    ensures |ks| == |lines|
    ensures forall i :: 0 <= i < |lines| ==> ks[i] == KindOf(lines[i])
  {
    seq(|lines|, i requires 0 <= i < |lines| => KindOf(lines[i]))
  }

  /** The index of the first class line at or after `from`, or the number of
      lines if there is none. */
  function FirstClass(ks: seq<LineKind>, from: nat): (c: nat)
    requires from <= |ks|
    ensures from <= c <= |ks|
    ensures forall j :: from <= j < c ==> ks[j] != ClassLine
    ensures c < |ks| ==> ks[c] == ClassLine
    decreases |ks| - from
  {
    if from == |ks| || ks[from] == ClassLine then from else FirstClass(ks, from + 1)
  }

  /** The import loop: walk the lines, remember the index after each import
      line, stop at the first class line. */
  function ImportScan(ks: seq<LineKind>, i: nat, index: nat): (r: nat)
    requires index <= i <= FirstClass(ks, 0)
    requires index > 0 ==> ks[index - 1] == ImportLine
    requires forall j :: index <= j < i ==> ks[j] != ImportLine
    ensures r <= FirstClass(ks, 0)
    ensures r > 0 ==> ks[r - 1] == ImportLine
    ensures forall j :: r <= j < FirstClass(ks, 0) ==> ks[j] != ImportLine
    decreases |ks| - i
  {
    if i == |ks| then index
    else if ks[i] == ImportLine then ImportScan(ks, i + 1, i + 1)
    else if ks[i] == ClassLine then index
    else ImportScan(ks, i + 1, index)
  }

  /** `importInsertIndex`: just after the last import line that comes before
      the first class line; 0 when there is none. */
  function ImportInsertIndex(lines: seq<string>): (r: nat)
    ensures r <= FirstClass(Kinds(lines), 0) <= |lines|
    ensures r > 0 ==> IsImportLine(lines[r - 1])
    ensures forall j :: r <= j < FirstClass(Kinds(lines), 0) ==> !IsImportLine(lines[j])
  {
    ImportScan(Kinds(lines), 0, 0)
  }

  /** The import step: add the import line unless the text already has it. */
  function InsertImport(lines: seq<string>): (r: seq<string>)
    ensures HasDisabledImport(r)
    ensures HasDisabledImport(lines) ==> r == lines
    ensures !HasDisabledImport(lines) ==> r == Insert(lines, ImportInsertIndex(lines), DisabledImport)
  {
    if HasDisabledImport(lines) then lines
    else
      var i := ImportInsertIndex(lines);
      var r := Insert(lines, i, DisabledImport);
      assert OccursAt(r[i], DisabledImport, 0);
      r
  }

  /** Removing the inserted line gives the list back. */
  lemma InsertRemove<T>(s: seq<T>, k: nat, x: T)
    requires k <= |s|
    ensures Insert(s, k, x)[..k] + Insert(s, k, x)[k + 1..] == s
  {
    var r := Insert(s, k, x);
    assert r[..k] == s[..k];
    assert r[k + 1..] == s[k..];
  }

  /** With no import yet, the import is added exactly once: a single new line
      holding it, every other line kept in order. */
  lemma InsertImportOnce(lines: seq<string>)
    requires !HasDisabledImport(lines)
    ensures var r := InsertImport(lines); var k := ImportInsertIndex(lines);
      && r[k] == DisabledImport
      && r[..k] + r[k + 1..] == lines
      && forall j :: 0 <= j < |r| && j != k ==> !Contains(r[j], DisabledImport)
  {
    var k := ImportInsertIndex(lines);
    InsertRemove(lines, k, DisabledImport);
    NoOtherImport(lines, k);
  }

  lemma NoOtherImport(lines: seq<string>, k: nat)
    requires k <= |lines| && !HasDisabledImport(lines)
    ensures var r := Insert(lines, k, DisabledImport);
      forall j :: 0 <= j < |r| && j != k ==> !Contains(r[j], DisabledImport)
  {
    var r := Insert(lines, k, DisabledImport);
    forall j | 0 <= j < |r| && j != k
      ensures !Contains(r[j], DisabledImport)
    {
      if j < k {
        assert r[j] == lines[j];
      } else {
        assert r[j] == lines[j - 1];
      }
    }
  }

  /** Importing twice adds nothing more. */
  lemma InsertImportIdempotent(lines: seq<string>)
    ensures InsertImport(InsertImport(lines)) == InsertImport(lines)
  {
  }

  /** What the method search reads off one line. */
  datatype LineFacts = LineFacts(
    mentions: bool,   // the trimmed line contains `fun <name>`
    paren: bool,      // the trimmed line contains `(`
    rawParen: bool,   // the line as it is contains `(`
    marker: bool,     // the trimmed line is `@Test` or starts with `@Test(`
    disabled: bool)   // the trimmed line starts with `@Disabled`

  function FactsOf(line: string, methodName: string): LineFacts {
    var t := Trim(line);
    LineFacts(Contains(t, "fun " + methodName), Contains(t, "("), Contains(line, "("),
      t == "@Test" || StartsWith(t, "@Test("), StartsWith(t, "@Disabled"))
  }

  function Facts(lines: seq<string>, methodName: string): (fs: seq<LineFacts>)
    ensures |fs| == |lines|
    ensures forall i :: 0 <= i < |lines| ==> fs[i] == FactsOf(lines[i], methodName)
  {
    seq(|lines|, i requires 0 <= i < |lines| => FactsOf(lines[i], methodName))
  }

  /** Inserting a line inserts its facts at the same place. */
  lemma FactsInsert(lines: seq<string>, t: nat, d: string, methodName: string)
    requires t <= |lines|
    ensures Facts(Insert(lines, t, d), methodName) == Insert(Facts(lines, methodName), t, FactsOf(d, methodName))
  {
  }

  /** The method search: the trimmed line mentions `fun <name>` and an opening
      parenthesis is on it or on the untrimmed next line. */
  predicate IsDeclarationAt(fs: seq<LineFacts>, i: nat)
    requires i < |fs|
  {
    fs[i].mentions && (fs[i].paren || (i + 1 < |fs| && fs[i + 1].rawParen))
  }

  /** The first declaration line at or after `from`. */
  function FindDeclaration(fs: seq<LineFacts>, from: nat): (r: Option<nat>)
    requires from <= |fs|
    ensures r.Some? ==> from <= r.value < |fs| && IsDeclarationAt(fs, r.value)
    ensures r.Some? ==> forall j :: from <= j < r.value ==> !IsDeclarationAt(fs, j)
    ensures r.None? ==> forall j :: from <= j < |fs| ==> !IsDeclarationAt(fs, j)
    decreases |fs| - from
  {
    if from == |fs| then None
    else if IsDeclarationAt(fs, from) then Some(from)
    else FindDeclaration(fs, from + 1)
  }

  /** The search result is determined by where the first declaration is. */
  lemma FindDeclarationFirst(fs: seq<LineFacts>, f: nat)
    requires f < |fs| && IsDeclarationAt(fs, f)
    requires forall j :: 0 <= j < f ==> !IsDeclarationAt(fs, j)
    ensures FindDeclaration(fs, 0) == Some(f)
  {
    FindDeclarationFrom(fs, 0, f);
  }

  lemma {:induction false} FindDeclarationFrom(fs: seq<LineFacts>, from: nat, f: nat)
    requires from <= f < |fs| && IsDeclarationAt(fs, f)
    requires forall j :: from <= j < f ==> !IsDeclarationAt(fs, j)
    ensures FindDeclaration(fs, from) == Some(f)
    decreases f - from
  {
    if from < f {
      FindDeclarationFrom(fs, from + 1, f);
    }
  }

  /** The backward scan from `i` down to `lo` for a test marker. */
  function MarkerScan(fs: seq<LineFacts>, i: int, lo: nat): (r: Option<nat>)
    requires i < |fs|
    ensures r.Some? ==> lo <= r.value <= i && fs[r.value].marker
    ensures r.Some? ==> forall j :: r.value < j <= i ==> !fs[j].marker
    ensures r.None? ==> forall j :: lo <= j <= i ==> !fs[j].marker
    decreases i + 1
  {
    if i < lo then None
    else if fs[i].marker then Some(i)
    else MarkerScan(fs, i - 1, lo)
  }

  /** The lowest line the marker search looks at: five lines up, not past the top. */
  function WindowStart(f: nat): nat {
    if f >= 5 then f - 5 else 0
  }

  /** `testAnnotationIndex`: the nearest test marker among the five lines above
      line `f`. */
  function TestMarkerAbove(fs: seq<LineFacts>, f: nat): (r: Option<nat>)
    requires f <= |fs|
    ensures r.Some? ==> WindowStart(f) <= r.value < f && fs[r.value].marker
    ensures r.Some? ==> forall j :: r.value < j < f ==> !fs[j].marker
    ensures r.None? ==> forall j :: WindowStart(f) <= j < f ==> !fs[j].marker
  {
    MarkerScan(fs, f - 1, WindowStart(f))
  }

  /** The scan finds the nearest marker in the window, whatever else is there. */
  lemma {:induction false} MarkerScanNearest(fs: seq<LineFacts>, i: int, lo: nat, t: nat)
    requires lo <= t <= i < |fs| && fs[t].marker
    requires forall j :: t < j <= i ==> !fs[j].marker
    ensures MarkerScan(fs, i, lo) == Some(t)
    decreases i + 1
  {
    if t < i {
      MarkerScanNearest(fs, i - 1, lo, t);
    }
  }

  /** `hasIgnore`: the loop over `t - 3 .. t - 1` that skips negative indices
      and stops at the first line that starts, once trimmed, with `@Disabled`.
      It is set exactly when one of the (up to) three lines above the marker
      is such a line. */
  function HasDisabledAbove(fs: seq<LineFacts>, t: nat): (r: bool)
    requires t <= |fs|
    ensures r <==> exists i :: t - 3 <= i < t && 0 <= i && fs[i].disabled
  {
    DisabledScan(fs, t - 3, t)
  }

  /** The `hasIgnore` loop from index `i` up to `t - 1`. */
  function DisabledScan(fs: seq<LineFacts>, i: int, t: nat): (r: bool)
    requires t <= |fs|
    ensures r <==> exists j :: i <= j < t && 0 <= j && fs[j].disabled
    decreases t - i
  {
    if i >= t then false
    else if i >= 0 && fs[i].disabled then true
    else DisabledScan(fs, i + 1, t)
  }

  function DirectiveBody(reason: string): string {
    "@Disabled(\"" + reason + "\")"
  }

  /** The inserted line: the marker line's indentation, then the directive. */
  function Directive(markerLine: string, reason: string): (d: string)
    ensures TrimStart(d) == DirectiveBody(reason) && Trim(d) == DirectiveBody(reason)
    ensures StartsWith(Trim(d), "@Disabled") && Contains(d, "(") && Contains(Trim(d), "(")
    ensures LeadingWhitespace(d) == LeadingWhitespace(markerLine)
  {
    var indent := LeadingWhitespace(markerLine);
    DirectiveTrims(indent, reason);
    DirectiveParen(indent, reason);
    DirectiveParen([], reason);
    assert [] + DirectiveBody(reason) == DirectiveBody(reason);
    DirectiveStart(reason);
    assert (indent + DirectiveBody(reason))[..|indent|] == indent;
    indent + DirectiveBody(reason)
  }

  lemma DirectiveTrims(indent: string, reason: string)
    requires forall i :: 0 <= i < |indent| ==> IsWhitespace(indent[i])
    ensures TrimStart(indent + DirectiveBody(reason)) == DirectiveBody(reason)
    ensures Trim(indent + DirectiveBody(reason)) == DirectiveBody(reason)
  {
    var body := DirectiveBody(reason);
    assert body[0] == '@' && body[|body| - 1] == ')';
    TrimIndented(indent, body);
  }

  lemma DirectiveParen(indent: string, reason: string)
    ensures Contains(indent + DirectiveBody(reason), "(")
  {
    var line := indent + DirectiveBody(reason);
    assert line[|indent| + 9] == '(';
    assert OccursAt(line, "(", |indent| + 9);
    ContainsAt(line, "(", |indent| + 9);
  }

  lemma DirectiveStart(reason: string)
    ensures StartsWith(DirectiveBody(reason), "@Disabled")
  {
    assert DirectiveBody(reason)[..9] == "@Disabled";
  }

  /** The directive line reads as disabled, not as a marker, and holds a
      parenthesis; it mentions the method only if the reason does. */
  lemma DirectiveFacts(markerLine: string, reason: string, methodName: string)
    requires !Contains(DirectiveBody(reason), "fun " + methodName)
    ensures var df := FactsOf(Directive(markerLine, reason), methodName);
      !df.mentions && df.paren && df.rawParen && df.disabled && !df.marker
  {
    var b := DirectiveBody(reason);
    assert b[1] == 'D';
    DiffersAt(b, "@Test(", 1);
    DiffersAt(b, "@Test", 1);
  }

  /** What happened to one flagged method. */
  datatype Outcome = Added | AlreadyDisabled | NoTestMarker | NotFound

  datatype Edit = Edit(lines: seq<string>, outcome: Outcome)

  /** The work for one (method, reason) pair. The search stops at the first
      declaration line whether or not a marker is found above it. */
  function DisableMethod(lines: seq<string>, methodName: string, reason: string): (r: Edit)
    ensures r.outcome != Added ==> r.lines == lines
    ensures r.outcome == NotFound <==> forall j :: 0 <= j < |lines| ==> !IsDeclarationAt(Facts(lines, methodName), j)
    ensures var fs := Facts(lines, methodName); var decl := FindDeclaration(fs, 0);
      r.outcome == NoTestMarker <==> decl.Some? && TestMarkerAbove(fs, decl.value).None?
    ensures var fs := Facts(lines, methodName); var decl := FindDeclaration(fs, 0);
      r.outcome == AlreadyDisabled <==>
        decl.Some? && TestMarkerAbove(fs, decl.value).Some? && HasDisabledAbove(fs, TestMarkerAbove(fs, decl.value).value)
    ensures var fs := Facts(lines, methodName); var decl := FindDeclaration(fs, 0);
      r.outcome == Added ==>
        && decl.Some? && TestMarkerAbove(fs, decl.value).Some?
        && var t := TestMarkerAbove(fs, decl.value).value;
           !HasDisabledAbove(fs, t) && r.lines == Insert(lines, t, Directive(lines[t], reason))
  {
    var fs := Facts(lines, methodName);
    match FindDeclaration(fs, 0)
    case None => Edit(lines, NotFound)
    case Some(f) =>
      match TestMarkerAbove(fs, f)
      case None => Edit(lines, NoTestMarker)
      case Some(t) =>
        if HasDisabledAbove(fs, t) then Edit(lines, AlreadyDisabled)
        else Edit(Insert(lines, t, Directive(lines[t], reason)), Added)
  }

  /** The search is a substring test: a line it takes for a mention holds
      `fun ` somewhere. */
  lemma MentionHasFun(line: string, methodName: string)
    ensures FactsOf(line, methodName).mentions ==> Contains(line, "fun ")
  {
    var t := Trim(line);
    if Contains(t, "fun " + methodName) {
      ContainsIffOccurs(t, "fun " + methodName);
      var j: nat :| OccursAt(t, "fun " + methodName, j);
      assert t[j..j + 4] == ("fun " + methodName)[..4] == "fun ";
      TrimOccurs(line, "fun ", j);
      ContainsAt(line, "fun ", |line| - |TrimStart(line)| + j);
    }
  }

  /** A file without `fun ` on any line, such as a Java test class whose
      methods read `void name()`, has no declaration: every request for it is
      NotFound and leaves it as it is. */
  lemma NoFunNotFound(lines: seq<string>, methodName: string, reason: string)
    requires forall i :: 0 <= i < |lines| ==> !Contains(lines[i], "fun ")
    ensures DisableMethod(lines, methodName, reason) == Edit(lines, NotFound)
  {
    var fs := Facts(lines, methodName);
    forall j | 0 <= j < |lines|
      ensures !IsDeclarationAt(fs, j)
    {
      MentionHasFun(lines[j], methodName);
    }
  }

  /** The search matches a prefix of the name: a request for `m` takes the
      declaration of `m` followed by more word characters for its own. */
  lemma PrefixNameDeclares(m: string, rest: string)
    ensures var line := "fun " + m + rest + "() {";
      FactsOf(line, m).mentions && FactsOf(line, m).paren
  {
    var line := "fun " + m + rest + "() {";
    TrimIndented("", line);
    assert "" + line == line;
    assert line[..|"fun " + m|] == "fun " + m;
    ContainsAt(line, "fun " + m, 0);
    assert line[|line| - 4..|line| - 3] == "(";
    ContainsAt(line, "(", |line| - 4);
  }

  /** Every line that mentions `fun <name>` (trimmed) is a declaration line. */
  predicate MentionsAreDeclarations(fs: seq<LineFacts>) {
    forall j {:trigger fs[j].mentions} :: 0 <= j < |fs| && fs[j].mentions ==> IsDeclarationAt(fs, j)
  }

  /** Running the same request a second time finds the directive it inserted
      and changes nothing, provided every line mentioning the method is one of
      its declaration lines and the reason does not mention it: otherwise a
      mention just above the marker becomes a declaration once the directive,
      which holds a parenthesis, sits under it (see NotIdempotentExample). */
  lemma DisableMethodIdempotent(lines: seq<string>, methodName: string, reason: string)
    requires MentionsAreDeclarations(Facts(lines, methodName))
    requires !Contains(DirectiveBody(reason), "fun " + methodName)
    ensures var once := DisableMethod(lines, methodName, reason).lines;
      DisableMethod(once, methodName, reason).lines == once
  {
    var fs := Facts(lines, methodName);
    match FindDeclaration(fs, 0)
    case None =>
    case Some(f) =>
      match TestMarkerAbove(fs, f)
      case None =>
      case Some(t) =>
        if !HasDisabledAbove(fs, t) {
          IdempotentWhenAdded(lines, methodName, reason, f, t);
        }
  }

  lemma IdempotentWhenAdded(lines: seq<string>, methodName: string, reason: string, f: nat, t: nat)
    requires MentionsAreDeclarations(Facts(lines, methodName))
    requires !Contains(DirectiveBody(reason), "fun " + methodName)
    requires FindDeclaration(Facts(lines, methodName), 0) == Some(f)
    requires TestMarkerAbove(Facts(lines, methodName), f) == Some(t)
    requires !HasDisabledAbove(Facts(lines, methodName), t)
    ensures var once := DisableMethod(lines, methodName, reason).lines;
      DisableMethod(once, methodName, reason).lines == once
  {
    AddedLines(lines, methodName, reason, f, t);
    SecondRunLines(lines, methodName, reason, f, t);
  }

  lemma AddedLines(lines: seq<string>, methodName: string, reason: string, f: nat, t: nat)
    requires FindDeclaration(Facts(lines, methodName), 0) == Some(f)
    requires TestMarkerAbove(Facts(lines, methodName), f) == Some(t)
    requires !HasDisabledAbove(Facts(lines, methodName), t)
    ensures t < |lines| && DisableMethod(lines, methodName, reason).lines == Insert(lines, t, Directive(lines[t], reason))
  {
  }

  lemma SecondRunLines(lines: seq<string>, methodName: string, reason: string, f: nat, t: nat)
    requires MentionsAreDeclarations(Facts(lines, methodName))
    requires !Contains(DirectiveBody(reason), "fun " + methodName)
    requires FindDeclaration(Facts(lines, methodName), 0) == Some(f)
    requires TestMarkerAbove(Facts(lines, methodName), f) == Some(t)
    ensures var once := Insert(lines, t, Directive(lines[t], reason));
      DisableMethod(once, methodName, reason).lines == once
  {
    var fs := Facts(lines, methodName);
    var d := Directive(lines[t], reason);
    var once := Insert(lines, t, d);
    FactsInsert(lines, t, d, methodName);
    DirectiveFacts(lines[t], reason, methodName);
    SecondRun(fs, f, t, FactsOf(d, methodName));
    AlreadyDisabledUnchanged(once, methodName, reason, f + 1, t + 1);
  }

  /** A request whose marker already has a directive close above leaves the
      lines as they are. */
  lemma AlreadyDisabledUnchanged(lines: seq<string>, methodName: string, reason: string, f: nat, t: nat)
    requires FindDeclaration(Facts(lines, methodName), 0) == Some(f)
    requires TestMarkerAbove(Facts(lines, methodName), f) == Some(t)
    requires HasDisabledAbove(Facts(lines, methodName), t)
    ensures DisableMethod(lines, methodName, reason) == Edit(lines, AlreadyDisabled)
  {
  }

  /** On the facts: after inserting the directive at the marker, the search
      finds the same declaration one line down, the same marker one line down,
      and the directive right above it. */
  lemma SecondRun(fs: seq<LineFacts>, f: nat, t: nat, df: LineFacts)
    requires MentionsAreDeclarations(fs)
    requires FindDeclaration(fs, 0) == Some(f)
    requires TestMarkerAbove(fs, f) == Some(t)
    requires !df.mentions && df.rawParen && df.disabled
    ensures var once := Insert(fs, t, df);
      && FindDeclaration(once, 0) == Some(f + 1)
      && TestMarkerAbove(once, f + 1) == Some(t + 1)
      && HasDisabledAbove(once, t + 1)
  {
    var once := Insert(fs, t, df);
    DeclarationMoves(fs, f, t, df);
    MarkerMoves(fs, f, t, df);
    assert once[t].disabled;
  }

  /** After the insertion the first declaration is one line further down. */
  lemma DeclarationMoves(fs: seq<LineFacts>, f: nat, t: nat, df: LineFacts)
    requires MentionsAreDeclarations(fs)
    requires FindDeclaration(fs, 0) == Some(f)
    requires t < f && !df.mentions && df.rawParen
    ensures FindDeclaration(Insert(fs, t, df), 0) == Some(f + 1)
  {
    var once := Insert(fs, t, df);
    assert IsDeclarationAt(once, f + 1);
    forall j | 0 <= j < f + 1
      ensures !IsDeclarationAt(once, j)
    {
      if j < t - 1 {
        assert !IsDeclarationAt(fs, j);
      } else if j == t - 1 {
        assert !fs[j].mentions;
      } else if j > t {
        assert !IsDeclarationAt(fs, j - 1);
      }
    }
    FindDeclarationFirst(once, f + 1);
  }

  /** After the insertion the nearest marker above the declaration is the old
      marker, one line further down. */
  lemma MarkerMoves(fs: seq<LineFacts>, f: nat, t: nat, df: LineFacts)
    requires f <= |fs| && TestMarkerAbove(fs, f) == Some(t)
    ensures TestMarkerAbove(Insert(fs, t, df), f + 1) == Some(t + 1)
  {
    var once := Insert(fs, t, df);
    forall j | t + 1 < j < f + 1
      ensures !once[j].marker
    {
      assert once[j] == fs[j - 1];
    }
    MarkerScanNearest(once, f, WindowStart(f + 1), t + 1);
  }

  /** Lines the mutator may add: the import and directive lines. */
  predicate IsInsertedLine(line: string) {
    line == DisabledImport || StartsWith(TrimStart(line), "@Disabled(\"")
  }

  /** `result` is `orig` with inserted lines added anywhere: every original
      line kept, in order. */
  predicate Extends(orig: seq<string>, result: seq<string>)
    decreases |result|
  {
    if |result| == 0 then |orig| == 0
    else
      || (|orig| > 0 && orig[0] == result[0] && Extends(orig[1..], result[1..]))
      || (IsInsertedLine(result[0]) && Extends(orig, result[1..]))
  }

  lemma {:induction false} ExtendsRefl(s: seq<string>)
    ensures Extends(s, s)
    decreases |s|
  {
    if |s| > 0 {
      ExtendsRefl(s[1..]);
    }
  }

  lemma {:induction false} ExtendsInsert(s: seq<string>, i: nat, x: string)
    requires i <= |s| && IsInsertedLine(x)
    ensures Extends(s, Insert(s, i, x))
    decreases i
  {
    var r := Insert(s, i, x);
    if i == 0 {
      assert r[1..] == s;
      ExtendsRefl(s);
    } else {
      assert r[1..] == Insert(s[1..], i - 1, x);
      ExtendsInsert(s[1..], i - 1, x);
    }
  }

  lemma {:induction false} ExtendsTrans(a: seq<string>, b: seq<string>, c: seq<string>)
    requires Extends(a, b) && Extends(b, c)
    ensures Extends(a, c)
    decreases |c|
  {
    if |c| > 0 {
      if |b| > 0 && b[0] == c[0] && Extends(b[1..], c[1..]) {
        if |a| > 0 && a[0] == b[0] && Extends(a[1..], b[1..]) {
          ExtendsTrans(a[1..], b[1..], c[1..]);
        } else {
          ExtendsTrans(a, b[1..], c[1..]);
        }
      } else {
        ExtendsTrans(a, b, c[1..]);
      }
    }
  }

  lemma DirectiveIsInserted(markerLine: string, reason: string)
    ensures IsInsertedLine(Directive(markerLine, reason))
  {
    var body := DirectiveBody(reason);
    assert body[..|"@Disabled(\""|] == "@Disabled(\"";
  }

  /** The `methodPairs.forEach` loop: each request in order on the lines left
      by the previous one; also counts the directives added (`totalAnnotated`). */
  function DisableAll(lines: seq<string>, pairs: seq<(string, string)>): (r: (seq<string>, nat))
    ensures Extends(lines, r.0)
    ensures |r.0| == |lines| + r.1 && r.1 <= |pairs|
    ensures HasDisabledImport(lines) ==> HasDisabledImport(r.0)
    decreases |pairs|
  {
    if |pairs| == 0 then
      ExtendsRefl(lines);
      (lines, 0)
    else
      var e := DisableMethod(lines, pairs[0].0, pairs[0].1);
      var rest := DisableAll(e.lines, pairs[1..]);
      DisableStep(lines, pairs[0].0, pairs[0].1);
      ExtendsTrans(lines, e.lines, rest.0);
      (rest.0, rest.1 + (if e.outcome == Added then 1 else 0))
  }

  /** One request adds at most the directive line and keeps every other line. */
  lemma DisableStep(lines: seq<string>, methodName: string, reason: string)
    ensures var e := DisableMethod(lines, methodName, reason);
      && Extends(lines, e.lines)
      && |e.lines| == |lines| + (if e.outcome == Added then 1 else 0)
      && (HasDisabledImport(lines) ==> HasDisabledImport(e.lines))
  {
    var e := DisableMethod(lines, methodName, reason);
    if e.outcome == Added {
      var fs := Facts(lines, methodName);
      var t := TestMarkerAbove(fs, FindDeclaration(fs, 0).value).value;
      var d := Directive(lines[t], reason);
      assert t < |lines| && e.lines == Insert(lines, t, d);
      DirectiveIsInserted(lines[t], reason);
      ExtendsInsert(lines, t, d);
      InsertKeepsImport(lines, t, d);
    } else {
      ExtendsRefl(lines);
    }
  }

  /** An insertion keeps an import the file already has. */
  lemma InsertKeepsImport(lines: seq<string>, t: nat, d: string)
    requires t <= |lines|
    ensures HasDisabledImport(lines) ==> HasDisabledImport(Insert(lines, t, d))
  {
    if HasDisabledImport(lines) {
      var i :| 0 <= i < |lines| && Contains(lines[i], DisabledImport);
      assert Insert(lines, t, d)[if i < t then i else i + 1] == lines[i];
    }
  }

  /** The import step only adds the import line. */
  lemma ImportExtends(lines: seq<string>)
    ensures Extends(lines, InsertImport(lines))
  {
    if !HasDisabledImport(lines) {
      ExtendsInsert(lines, ImportInsertIndex(lines), DisabledImport);
    } else {
      ExtendsRefl(lines);
    }
  }

  /** The rewrite of one test file: the import step, then every request for
      its class. Every original line survives in order; only the import and
      directive lines are added. */
  function AnnotateFile(lines: seq<string>, pairs: seq<(string, string)>): (r: seq<string>)
    ensures HasDisabledImport(r)
    ensures Extends(lines, r)
  {
    var imported := InsertImport(lines);
    ImportExtends(lines);
    var r := DisableAll(imported, pairs);
    ExtendsTrans(lines, imported, r.0);
    r.0
  }

  /** Rewriting a file twice for the same flagged method gives the same text as
      rewriting it once, under the conditions of DisableMethodIdempotent on the
      file with its import in place. */
  lemma AnnotateFileIdempotent(lines: seq<string>, methodName: string, reason: string)
    requires MentionsAreDeclarations(Facts(InsertImport(lines), methodName))
    requires !Contains(DirectiveBody(reason), "fun " + methodName)
    ensures var once := AnnotateFile(lines, [(methodName, reason)]);
      AnnotateFile(once, [(methodName, reason)]) == once
  {
    var once := AnnotateFile(lines, [(methodName, reason)]);
    AnnotateOne(lines, methodName, reason);
    DisableMethodIdempotent(InsertImport(lines), methodName, reason);
    AnnotateOne(once, methodName, reason);
  }

  /** A rewrite for a single request is the import step followed by that request. */
  lemma AnnotateOne(lines: seq<string>, methodName: string, reason: string)
    ensures AnnotateFile(lines, [(methodName, reason)]) == DisableMethod(InsertImport(lines), methodName, reason).lines
  {
    DisableAllOne(InsertImport(lines), methodName, reason);
  }

  lemma DisableAllOne(lines: seq<string>, methodName: string, reason: string)
    ensures DisableAll(lines, [(methodName, reason)]).0 == DisableMethod(lines, methodName, reason).lines
  {
    var pairs := [(methodName, reason)];
    assert pairs[1..] == [];
    var e := DisableMethod(lines, methodName, reason);
    assert DisableAll(e.lines, []).0 == e.lines;
  }

  /** The facts of a line that neither starts nor ends with whitespace. */
  lemma FactsOfTrimmed(line: string, methodName: string)
    requires |line| > 0 && !IsWhitespace(line[0]) && !IsWhitespace(line[|line| - 1])
    ensures FactsOf(line, methodName) == LineFacts(Contains(line, "fun " + methodName), Contains(line, "("),
      Contains(line, "("), line == "@Test" || StartsWith(line, "@Test("), StartsWith(line, "@Disabled"))
  {
    TrimIndented("", line);
    assert "" + line == line;
  }

  /** A method name for the example below: non-empty, free of `(`, not ending
      in whitespace. */
  predicate PlainName(m: string) {
    |m| > 0 && '(' !in m && !IsWhitespace(m[|m| - 1])
  }

  function ExampleLines(m: string): seq<string> {
    ["@Test", "// fun " + m, "@Test", "fun " + m + "() {}"]
  }

  const MarkerFacts := LineFacts(false, false, false, true, false)
  const CommentFacts := LineFacts(true, false, false, false, false)
  const DeclarationFacts := LineFacts(true, true, true, false, false)
  const DirectiveLineFacts := LineFacts(false, true, true, false, true)

  lemma TestLineFacts(m: string)
    ensures FactsOf("@Test", m) == MarkerFacts
  {
    FactsOfTrimmed("@Test", m);
    assert ("fun " + m)[0] == 'f';
    MissingChar("@Test", "fun " + m, 'f');
    MissingChar("@Test", "(", '(');
    assert "@Test"[1] == 'T' && "@Disabled"[1] == 'D';
    DiffersAt("@Test", "@Disabled", 1);
  }

  lemma CommentLineFacts(m: string)
    requires PlainName(m)
    ensures FactsOf("// fun " + m, m) == CommentFacts
  {
    var line := "// fun " + m;
    assert line[|line| - 1] == m[|m| - 1];
    FactsOfTrimmed(line, m);
    assert OccursAt(line, "fun " + m, 3);
    ContainsAt(line, "fun " + m, 3);
    assert '(' !in line;
    MissingChar(line, "(", '(');
    DiffersAt(line, "@Test", 0);
    DiffersAt(line, "@Test(", 0);
    DiffersAt(line, "@Disabled", 0);
  }

  lemma DeclarationLineFacts(m: string)
    ensures FactsOf("fun " + m + "() {}", m) == DeclarationFacts
  {
    var line := "fun " + m + "() {}";
    FactsOfTrimmed(line, m);
    assert OccursAt(line, "fun " + m, 0);
    ContainsAt(line, "fun " + m, 0);
    assert OccursAt(line, "(", |m| + 4);
    ContainsAt(line, "(", |m| + 4);
    DiffersAt(line, "@Test", 0);
    DiffersAt(line, "@Test(", 0);
    DiffersAt(line, "@Disabled", 0);
  }

  lemma ExampleFacts(m: string)
    requires PlainName(m)
    ensures Facts(ExampleLines(m), m) == [MarkerFacts, CommentFacts, MarkerFacts, DeclarationFacts]
  {
    FactsOfFour("@Test", "// fun " + m, "@Test", "fun " + m + "() {}", m);
    TestLineFacts(m);
    CommentLineFacts(m);
    DeclarationLineFacts(m);
  }

  lemma FactsOfFour(a: string, b: string, c: string, d: string, m: string)
    ensures Facts([a, b, c, d], m) == [FactsOf(a, m), FactsOf(b, m), FactsOf(c, m), FactsOf(d, m)]
  {
    var lines := [a, b, c, d];
    var fs := Facts(lines, m);
    SeqOfFour(fs);
    assert lines[0] == a && lines[1] == b && lines[2] == c && lines[3] == d;
  }

  lemma SeqOfFour<T>(xs: seq<T>)
    requires |xs| == 4
    ensures xs == [xs[0], xs[1], xs[2], xs[3]]
  {
  }

  lemma ExampleFactsAfter(m: string, reason: string)
    requires PlainName(m) && !Contains(DirectiveBody(reason), "fun " + m)
    ensures Facts(Insert(ExampleLines(m), 2, Directive("@Test", reason)), m)
      == [MarkerFacts, CommentFacts, DirectiveLineFacts, MarkerFacts, DeclarationFacts]
  {
    ExampleFacts(m);
    DirectiveFacts("@Test", reason, m);
    FactsInsert(ExampleLines(m), 2, Directive("@Test", reason), m);
  }

  lemma ExampleSearchBefore()
    ensures var fs := [MarkerFacts, CommentFacts, MarkerFacts, DeclarationFacts];
      FindDeclaration(fs, 0) == Some(3) && TestMarkerAbove(fs, 3) == Some(2) && !HasDisabledAbove(fs, 2)
  {
    var fs := [MarkerFacts, CommentFacts, MarkerFacts, DeclarationFacts];
    assert !IsDeclarationAt(fs, 0) && !IsDeclarationAt(fs, 1) && !IsDeclarationAt(fs, 2);
    FindDeclarationFirst(fs, 3);
    MarkerScanNearest(fs, 2, 0, 2);
  }

  lemma ExampleSearchAfter()
    ensures var fs := [MarkerFacts, CommentFacts, DirectiveLineFacts, MarkerFacts, DeclarationFacts];
      FindDeclaration(fs, 0) == Some(1) && TestMarkerAbove(fs, 1) == Some(0) && !HasDisabledAbove(fs, 0)
  {
    var fs := [MarkerFacts, CommentFacts, DirectiveLineFacts, MarkerFacts, DeclarationFacts];
    assert !IsDeclarationAt(fs, 0) && IsDeclarationAt(fs, 1);
    FindDeclarationFirst(fs, 1);
    MarkerScanNearest(fs, 0, 0, 0);
  }

  lemma ExampleFirstRun(m: string, reason: string)
    requires PlainName(m)
    ensures DisableMethod(ExampleLines(m), m, reason).lines == Insert(ExampleLines(m), 2, Directive("@Test", reason))
  {
    ExampleFacts(m);
    ExampleSearchBefore();
    AddedLines(ExampleLines(m), m, reason, 3, 2);
  }

  lemma ExampleSecondRun(m: string, reason: string)
    requires PlainName(m) && !Contains(DirectiveBody(reason), "fun " + m)
    ensures var once := Insert(ExampleLines(m), 2, Directive("@Test", reason));
      DisableMethod(once, m, reason).lines == Insert(once, 0, Directive("@Test", reason))
  {
    var once := Insert(ExampleLines(m), 2, Directive("@Test", reason));
    ExampleFactsAfter(m, reason);
    ExampleSearchAfter();
    AddedLines(once, m, reason, 1, 0);
  }

  /** Without the condition on mentions, a second run inserts a second
      directive: in the lines `@Test`, `// fun m`, `@Test`, `fun m() {}`, the
      commented-out mention gains a parenthesis on its next line once the
      directive is in place above the second marker, becomes the declaration
      found, and the first marker gets a directive too. */
  lemma NotIdempotentExample(m: string, reason: string)
    requires PlainName(m) && !Contains(DirectiveBody(reason), "fun " + m)
    ensures var once := DisableMethod(ExampleLines(m), m, reason).lines;
      DisableMethod(once, m, reason).lines != once
  {
    var once := Insert(ExampleLines(m), 2, Directive("@Test", reason));
    ExampleFirstRun(m, reason);
    ExampleSecondRun(m, reason);
    assert |Insert(once, 0, Directive("@Test", reason))| != |once|;
  }
}
