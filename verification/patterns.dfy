/** The regular expressions of the reliability gate, as deterministic scanners.

    Each pattern the gate uses is a chain of literals and greedy character-class
    runs where every run is followed by something the run's class cannot
    contain, so the backtracking engine has no choice to make except the
    optional `public\s+` of the Java pattern, which the scanner tries first and
    then drops, as the engine does. Character classes are those of
    java.util.regex without UNICODE_CHARACTER_CLASS. */
module Patterns {
  import opened Wrappers
  import opened Strings

  /** `\s`: space, tab, newline, vertical tab, form feed, carriage return. */
  predicate IsSpace(c: char) {
    c == ' ' || 9 <= c as int <= 13
  }

  /** `\w` (and `[\w\d]`, the same class): ASCII letters, digits and underscore. */
  predicate IsWord(c: char) {
    'a' <= c <= 'z' || 'A' <= c <= 'Z' || '0' <= c <= '9' || c == '_'
  }

  datatype CharClass =
    | Space          // \s
    | Word           // \w
    | QualifiedName  // [\w.]
    | TypeName       // [\w<>\[\]]

  predicate In(c: char, k: CharClass) {
    match k
    case Space => IsSpace(c)
    case Word => IsWord(c)
    case QualifiedName => IsWord(c) || c == '.'
    case TypeName => IsWord(c) || c == '<' || c == '>' || c == '[' || c == ']'
  }

  /** A greedy run of class `k` starting at `i` ends at `RunEnd(s, i, k)`. */
  function RunEnd(s: string, i: nat, k: CharClass): (e: nat)
    requires i <= |s|
    ensures i <= e <= |s|
    ensures forall j :: i <= j < e ==> In(s[j], k)
    ensures e < |s| ==> !In(s[e], k)
    decreases |s| - i
  {
    if i < |s| && In(s[i], k) then RunEnd(s, i + 1, k) else i
  }

  /** Any run of class `k` from `i` that stops at a character outside `k` is the greedy one. */
  lemma RunEndUnique(s: string, i: nat, e: nat, k: CharClass)
    requires i <= e <= |s|
    requires forall j :: i <= j < e ==> In(s[j], k)
    requires e < |s| ==> !In(s[e], k)
    ensures RunEnd(s, i, k) == e
  {
  }

  /** A greedy run reaches at least as far as any run of the same class. */
  lemma RunCovers(s: string, i: nat, c: nat, k: CharClass)
    requires i <= c <= |s|
    requires forall j :: i <= j < c ==> In(s[j], k)
    ensures c <= RunEnd(s, i, k)
  {
  }

  /** A match: where it starts, the span of capture group 1, and where it ends. */
  datatype Match = Match(start: nat, groupStart: nat, groupEnd: nat, end: nat)

  function Group(s: string, m: Match): string
    requires m.groupStart <= m.groupEnd <= |s|
  {
    s[m.groupStart..m.groupEnd]
  }

  /** `keyword\s+(k+)` tried at `i`, the shape of both `extractPattern` patterns
      (reliability-gate.gradle.kts:44-45). */
  function KeywordAt(s: string, i: nat, kw: string, k: CharClass): (r: Option<Match>)
    requires i <= |s|
    ensures r.Some? ==> r.value.start == i && r.value.groupEnd == r.value.end <= |s|
    ensures r.Some? ==> i + |kw| < r.value.groupStart < r.value.groupEnd
  {
    if !OccursAt(s, kw, i) then None
    else
      var b := RunEnd(s, i + |kw|, Space);
      var c := RunEnd(s, b, k);
      if b == i + |kw| || c == b then None else Some(Match(i, b, c, c))
  }

  /** The regular language of `keyword\s+(k+)` at `i`, with the blanks ending at
      `b` and the group spanning `b..c`: every way the pattern can match there. */
  ghost predicate KeywordMatch(s: string, i: nat, kw: string, k: CharClass, b: nat, c: nat) {
    && OccursAt(s, kw, i)
    && i + |kw| < b < c <= |s|
    && (forall j :: i + |kw| <= j < b ==> IsSpace(s[j]))
    && (forall j :: b <= j < c ==> In(s[j], k))
  }

  /** The scanner matches exactly where the pattern can, and captures what a
      greedy engine captures: the one possible group start and the longest group. */
  lemma KeywordAtIsGreedy(s: string, i: nat, kw: string, k: CharClass)
    requires i <= |s| && k != Space
    ensures KeywordAt(s, i, kw, k).Some? <==> exists b: nat, c: nat :: KeywordMatch(s, i, kw, k, b, c)
    ensures KeywordAt(s, i, kw, k).Some? ==>
      var m := KeywordAt(s, i, kw, k).value;
      && KeywordMatch(s, i, kw, k, m.groupStart, m.groupEnd)
      && forall b: nat, c: nat :: KeywordMatch(s, i, kw, k, b, c) ==> b == m.groupStart && c <= m.groupEnd
  {
    var r := KeywordAt(s, i, kw, k);
    forall b: nat, c: nat | KeywordMatch(s, i, kw, k, b, c)
      ensures r.Some? && b == r.value.groupStart && c <= r.value.groupEnd
    {
      assert In(s[b], k);
      RunEndUnique(s, i + |kw|, b, Space);
      RunCovers(s, b, c, k);
    }
    if r.Some? {
      assert KeywordMatch(s, i, kw, k, r.value.groupStart, r.value.groupEnd);
    }
  }

  /** What the keyword pattern finds at each position `0..|s|` of `s`. */
  function KeywordTable(s: string, kw: string, k: CharClass): (t: seq<Option<Match>>)
    ensures |t| == |s| + 1
    ensures forall i :: 0 <= i <= |s| ==> t[i] == KeywordAt(s, i, kw, k)
    ensures Table(t)
  {
    seq(|s| + 1, i requires 0 <= i <= |s| => KeywordAt(s, i, kw, k))
  }

  /** The pattern matches at `j` and nowhere before. */
  ghost predicate FirstKeywordAt(text: string, j: nat, kw: string, k: CharClass) {
    && j <= |text|
    && KeywordAt(text, j, kw, k).Some?
    && forall j' :: 0 <= j' < j ==> KeywordAt(text, j', kw, k).None?
  }

  /** `extractPattern(text, pattern)` (reliability-gate.gradle.kts:140-144): the
      first match's group 1, or "" when nothing matches. */
  function ExtractPattern(text: string, kw: string, k: CharClass): (r: string)
    ensures r == "" <==> forall j :: 0 <= j <= |text| ==> KeywordAt(text, j, kw, k).None?
    ensures forall j :: FirstKeywordAt(text, j, kw, k) ==> r == Group(text, KeywordAt(text, j, kw, k).value)
  {
    match FindFrom(KeywordTable(text, kw, k), 0)
    case None => ""
    case Some(m) => Group(text, m)
  }

  /** `extractPattern(currentContent, "package\\s+([\\w.]+)")`. */
  function PackageName(text: string): string {
    ExtractPattern(text, "package", QualifiedName)
  }

  /** `extractPattern(currentContent, "class\\s+(\\w+)")`. */
  function ClassDeclName(text: string): string {
    ExtractPattern(text, "class", Word)
  }

  /** The regular language of the two test patterns, part by part, as a
      reference for the scanners below. */

  /** `s[x..y]` is a run of class `k`. */
  ghost predicate Run(s: string, x: nat, y: nat, k: CharClass) {
    x <= y <= |s| && forall j :: x <= j < y ==> In(s[j], k)
  }

  /** One `@[\w\d]+\s+` at `p`: the name ends at `a`, the blanks at `b`. */
  ghost predicate Annotation(s: string, p: nat, a: nat, b: nat) {
    p < |s| && s[p] == '@' && p + 1 < a < b && Run(s, p + 1, a, Word) && Run(s, a, b, Space)
  }

  /** `s[p..q]` is a list of annotations, `(?:@[\w\d]+\s+)*`. */
  ghost predicate Annotations(s: string, p: nat, q: nat)
    decreases if p <= q then q - p else 0
  {
    p == q || (p < q && exists a: nat, b: nat :: p < a < b <= q && Annotation(s, p, a, b) && Annotations(s, b, q))
  }

  /** `@Test\s+(?:@[\w\d]+\s+)*` at `i`: the blanks end at `a`, the annotations at `q`. */
  ghost predicate HeadAt(s: string, i: nat, a: nat, q: nat) {
    OccursAt(s, "@Test", i) && i + 5 < a <= q <= |s| && Run(s, i + 5, a, Space) && Annotations(s, a, q)
  }

  /** `\s+(\w+)\s*\(` from `x`, with the group and the end of `m`. */
  ghost predicate TailAt(s: string, x: nat, m: Match) {
    && x < m.groupStart < m.groupEnd < m.end <= |s|
    && Run(s, x, m.groupStart, Space)
    && Run(s, m.groupStart, m.groupEnd, Word)
    && Run(s, m.groupEnd, m.end - 1, Space)
    && s[m.end - 1] == '('
  }

  /** `(?:void|[\w<>\[\]]+)` over `s[t..u]`, then the tail. As a language the
      `void` alternative adds nothing: `void` is itself a type-name run. */
  ghost predicate TypedAt(s: string, t: nat, u: nat, m: Match) {
    t < u && Run(s, t, u, TypeName) && TailAt(s, u, m)
  }

  /** `public\s+` at `q`, the blanks ending at `t`. */
  ghost predicate PublicAt(s: string, q: nat, t: nat) {
    OccursAt(s, "public", q) && q + 6 < t && Run(s, q + 6, t, Space)
  }

  /** The Kotlin pattern matches at `i` with the group and end of `m`. */
  ghost predicate KotlinMatch(s: string, i: nat, m: Match) {
    m.start == i && exists a: nat, q: nat :: HeadAt(s, i, a, q) && OccursAt(s, "fun", q) && TailAt(s, q + 3, m)
  }

  /** The Java pattern after its annotations, with or without `public\s+`. */
  ghost predicate JavaRestAt(s: string, q: nat, m: Match, withPublic: bool) {
    if withPublic then exists t: nat, u: nat :: PublicAt(s, q, t) && TypedAt(s, t, u, m)
    else exists u: nat :: TypedAt(s, q, u, m)
  }

  /** The Java pattern matches at `i` with the group and end of `m`, taking the
      optional `public\s+` or not. */
  ghost predicate JavaMatch(s: string, i: nat, m: Match, withPublic: bool) {
    m.start == i && exists a: nat, q: nat :: HeadAt(s, i, a, q) && JavaRestAt(s, q, m, withPublic)
  }

  /** The pattern of dialect `d` matches at `m.start` with `m`. */
  ghost predicate PatternMatch(s: string, d: Dialect, m: Match) {
    if d == Kotlin then KotlinMatch(s, m.start, m)
    else JavaMatch(s, m.start, m, true) || JavaMatch(s, m.start, m, false)
  }

  lemma AnnotationsStart(s: string, p: nat, q: nat)
    requires p < q && Annotations(s, p, q)
    ensures p < |s| && s[p] == '@'
  {
  }

  lemma FirstChar(s: string, p: string, i: nat)
    requires |p| > 0 && OccursAt(s, p, i)
    ensures i < |s| && s[i] == p[0]
  {
    assert s[i..i + |p|][0] == s[i];
  }

  /** `(?:@[\w\d]+\s+)*` from `p`: where the annotations end, or None when one is
      not followed by blanks (the pattern then fails, since nothing after the
      annotations can start with `@`). */
  function SkipAnnotations(s: string, p: nat): (r: Option<nat>)
    requires p <= |s|
    ensures r.Some? ==> p <= r.value <= |s| && (r.value < |s| ==> s[r.value] != '@')
    decreases |s| - p
  {
    if p < |s| && s[p] == '@' then
      var a := RunEnd(s, p + 1, Word);
      var b := RunEnd(s, a, Space);
      if a == p + 1 || b == a then None else SkipAnnotations(s, b)
    else Some(p)
  }

  /** What the scanner skips is a list of annotations. */
  lemma {:induction false} SkipAnnotationsSound(s: string, p: nat)
    requires p <= |s|
    ensures SkipAnnotations(s, p).Some? ==> Annotations(s, p, SkipAnnotations(s, p).value)
    decreases |s| - p
  {
    if p < |s| && s[p] == '@' {
      var a := RunEnd(s, p + 1, Word);
      var b := RunEnd(s, a, Space);
      if a != p + 1 && b != a {
        SkipAnnotationsSound(s, b);
        var r := SkipAnnotations(s, b);
        assert r.Some? ==> Annotation(s, p, a, b) && Annotations(s, b, r.value);
      }
    }
  }

  /** The scanner stops exactly where an annotation list ends, when what
      follows is neither `@` nor a blank. */
  lemma {:induction false} SkipAnnotationsExact(s: string, p: nat, q: nat)
    requires p <= q <= |s| && Annotations(s, p, q)
    requires q < |s| ==> s[q] != '@' && !IsSpace(s[q])
    ensures SkipAnnotations(s, p) == Some(q)
    decreases q - p
  {
    if p < q {
      var a: nat, b: nat :| p < a < b <= q && Annotation(s, p, a, b) && Annotations(s, b, q);
      if b < q {
        AnnotationsStart(s, b, q);
      }
      SkipOneAnnotation(s, p, a, b);
      SkipAnnotationsExact(s, b, q);
    }
  }

  /** An annotation followed by a non-blank is skipped in one step. */
  lemma SkipOneAnnotation(s: string, p: nat, a: nat, b: nat)
    requires Annotation(s, p, a, b)
    requires b < |s| ==> !IsSpace(s[b])
    ensures SkipAnnotations(s, p) == SkipAnnotations(s, b)
  {
    RunEndUnique(s, p + 1, a, Word);
    RunEndUnique(s, a, b, Space);
  }

  /** `@Test\s+(?:@[\w\d]+\s+)*` at `i`, the prefix both test patterns share. */
  function AfterTest(s: string, i: nat): (r: Option<nat>)
    requires i <= |s|
    ensures r.Some? ==> OccursAt(s, "@Test", i) && i + 5 < r.value <= |s|
  {
    if !OccursAt(s, "@Test", i) then None
    else
      var a := RunEnd(s, i + 5, Space);
      if a == i + 5 then None else SkipAnnotations(s, a)
  }

  /** What the prefix scanner accepts is a head of the pattern. */
  lemma AfterTestSound(s: string, i: nat) returns (a: nat)
    requires i <= |s| && AfterTest(s, i).Some?
    ensures HeadAt(s, i, a, AfterTest(s, i).value)
  {
    a := RunEnd(s, i + 5, Space);
    SkipAnnotationsSound(s, a);
  }

  /** The prefix ends exactly where a head of the pattern ends, when what follows
      is neither `@` nor a blank. */
  lemma AfterTestExact(s: string, i: nat, a: nat, q: nat)
    requires HeadAt(s, i, a, q)
    requires q < |s| ==> s[q] != '@' && !IsSpace(s[q])
    ensures AfterTest(s, i) == Some(q)
  {
    if a < q {
      AnnotationsStart(s, a, q);
    }
    RunEndUnique(s, i + 5, a, Space);
    SkipAnnotationsExact(s, a, q);
  }

  /** A test-method match captures a non-empty word and ends just after an
      opening parenthesis, within the text. */
  ghost predicate Shaped(s: string, m: Match) {
    && m.groupStart < m.groupEnd < m.end <= |s|
    && (forall j :: m.groupStart <= j < m.groupEnd ==> IsWord(s[j]))
    && s[m.end - 1] == '('
  }

  /** `\s+(\w+)\s*\(` from `p`, completing a match that started at `start`. */
  function NameThenParen(s: string, p: nat, start: nat): (r: Option<Match>)
    requires p <= |s|
    ensures r.Some? ==> r.value.start == start && p < r.value.groupStart && Shaped(s, r.value)
  {
    var a := RunEnd(s, p, Space);
    var b := RunEnd(s, a, Word);
    var c := RunEnd(s, b, Space);
    if a == p || b == a || c == |s| || s[c] != '(' then None
    else Some(Match(start, a, b, c + 1))
  }

  /** What the tail scanner accepts is a tail of the pattern. */
  lemma NameThenParenSound(s: string, p: nat, start: nat)
    requires p <= |s| && NameThenParen(s, p, start).Some?
    ensures TailAt(s, p, NameThenParen(s, p, start).value)
  {
  }

  /** Whatever tail the text has from `x`, the scanner finds that one. */
  lemma NameThenParenExact(s: string, x: nat, m: Match)
    requires TailAt(s, x, m)
    ensures NameThenParen(s, x, m.start) == Some(m)
  {
    RunEndUnique(s, x, m.groupStart, Space);
    assert !In(s[m.groupEnd], Word);
    RunEndUnique(s, m.groupStart, m.groupEnd, Word);
    RunEndUnique(s, m.groupEnd, m.end - 1, Space);
  }

  /** `(?:void|[\w<>\[\]]+)\s+(\w+)\s*\(` from `p`. `void` followed by blanks is
      the whole type-name run, and anything shorter than the whole run cannot be
      followed by blanks, so both alternatives come to the greedy run. */
  function TypedName(s: string, p: nat, start: nat): (r: Option<Match>)
    requires p <= |s|
    ensures r.Some? ==> r.value.start == start && p < r.value.groupStart && Shaped(s, r.value)
  {
    var t := RunEnd(s, p, TypeName);
    if t == p then None else NameThenParen(s, t, start)
  }

  /** What the typed-name scanner accepts is a type-name run and a tail. */
  lemma TypedNameSound(s: string, p: nat, start: nat)
    requires p <= |s| && TypedName(s, p, start).Some?
    ensures TypedAt(s, p, RunEnd(s, p, TypeName), TypedName(s, p, start).value)
  {
    NameThenParenSound(s, RunEnd(s, p, TypeName), start);
  }

  /** Whatever typed name the text has from `t`, the scanner finds that one. */
  lemma TypedNameExact(s: string, t: nat, u: nat, m: Match)
    requires TypedAt(s, t, u, m)
    ensures TypedName(s, t, m.start) == Some(m)
  {
    RunEndUnique(s, t, u, TypeName);
    NameThenParenExact(s, u, m);
  }

  datatype Dialect = Kotlin | Java

  /** `fun\s+(\w+)\s*\(` after the annotations, the rest of the Kotlin pattern. */
  function KotlinRest(s: string, p: nat, start: nat): (r: Option<Match>)
    requires p <= |s|
    ensures r.Some? ==> r.value.start == start && p < r.value.groupStart && Shaped(s, r.value)
  {
    if OccursAt(s, "fun", p) then NameThenParen(s, p + 3, start) else None
  }

  /** What the Kotlin scanner accepts after the annotations is `fun` and a tail. */
  lemma KotlinRestSound(s: string, p: nat, start: nat)
    requires p <= |s| && KotlinRest(s, p, start).Some?
    ensures OccursAt(s, "fun", p) && TailAt(s, p + 3, KotlinRest(s, p, start).value)
  {
    NameThenParenSound(s, p + 3, start);
  }

  /** `public\s+` and a typed name, the alternative of the Java pattern the
      engine tries first. */
  function PublicRest(s: string, p: nat, start: nat): (r: Option<Match>)
    requires p <= |s|
    ensures r.Some? ==> r.value.start == start && p < r.value.groupStart && Shaped(s, r.value)
  {
    if OccursAt(s, "public", p) && RunEnd(s, p + 6, Space) > p + 6
    then TypedName(s, RunEnd(s, p + 6, Space), start)
    else None
  }

  /** What the first alternative accepts is `public`, blanks and a typed name. */
  lemma PublicRestSound(s: string, p: nat, start: nat)
    requires p <= |s| && PublicRest(s, p, start).Some?
    ensures JavaRestAt(s, p, PublicRest(s, p, start).value, true)
  {
    var t := RunEnd(s, p + 6, Space);
    TypedNameSound(s, t, start);
    assert PublicAt(s, p, t) && TypedAt(s, t, RunEnd(s, t, TypeName), PublicRest(s, p, start).value);
  }

  /** Whatever `public` alternative the text has at `q`, the scanner finds it. */
  lemma PublicRestExact(s: string, q: nat, t: nat, u: nat, m: Match)
    requires PublicAt(s, q, t) && TypedAt(s, t, u, m)
    ensures PublicRest(s, q, m.start) == Some(m)
  {
    RunEndUnique(s, q + 6, t, Space);
    TypedNameExact(s, t, u, m);
  }

  /** `(?:public\s+)?(?:void|[\w<>\[\]]+)\s+(\w+)\s*\(` after the annotations,
      the rest of the Java pattern: with `public` first, then without. */
  function JavaRest(s: string, p: nat, start: nat): (r: Option<Match>)
    requires p <= |s|
    ensures r.Some? ==> r.value.start == start && p < r.value.groupStart && Shaped(s, r.value)
  {
    var withPublic := PublicRest(s, p, start);
    if withPublic.Some? then withPublic else TypedName(s, p, start)
  }

  /** What the Java scanner accepts after the annotations is the rest of the
      Java pattern, through `public` exactly when the first alternative
      succeeded. */
  lemma JavaRestSound(s: string, p: nat, start: nat)
    requires p <= |s| && JavaRest(s, p, start).Some?
    ensures JavaRestAt(s, p, JavaRest(s, p, start).value, PublicRest(s, p, start).Some?)
  {
    if PublicRest(s, p, start).Some? {
      PublicRestSound(s, p, start);
    } else {
      TypedNameSound(s, p, start);
      assert TypedAt(s, p, RunEnd(s, p, TypeName), JavaRest(s, p, start).value);
    }
  }

  /** The Kotlin pattern `@Test\s+(?:@[\w\d]+\s+)*fun\s+(\w+)\s*\(` and the Java
      pattern `@Test\s+(?:@[\w\d]+\s+)*(?:public\s+)?(?:void|[\w<>\[\]]+)\s+(\w+)\s*\(`
      tried at `i` (reliability-gate.gradle.kts:151, 157). */
  function MatchAt(s: string, i: nat, d: Dialect): (r: Option<Match>)
    requires i <= |s|
    ensures r.Some? ==> OccursAt(s, "@Test", i) && r.value.start == i && i + 5 < r.value.groupStart && Shaped(s, r.value)
  {
    match AfterTest(s, i)
    case None => None
    case Some(p) => if d == Kotlin then KotlinRest(s, p, i) else JavaRest(s, p, i)
  }

  /** The Kotlin scanner finds `m` at `i` exactly when the Kotlin pattern
      matches there with `m`'s group and end. Every part of the pattern is a run
      followed by a character its class excludes, so the match is unique and
      is the one a backtracking engine captures. */
  lemma KotlinMatchAt(s: string, i: nat, m: Match)
    requires i <= |s|
    ensures MatchAt(s, i, Kotlin) == Some(m) <==> KotlinMatch(s, i, m)
  {
    if MatchAt(s, i, Kotlin) == Some(m) {
      KotlinMatchSound(s, i, m);
    }
    if KotlinMatch(s, i, m) {
      KotlinMatchExact(s, i, m);
    }
  }

  lemma KotlinMatchSound(s: string, i: nat, m: Match)
    requires i <= |s| && MatchAt(s, i, Kotlin) == Some(m)
    ensures KotlinMatch(s, i, m)
  {
    var q := AfterTest(s, i).value;
    var a := AfterTestSound(s, i);
    assert KotlinRest(s, q, i) == Some(m);
    KotlinRestSound(s, q, i);
  }

  lemma KotlinMatchExact(s: string, i: nat, m: Match)
    requires i <= |s| && KotlinMatch(s, i, m)
    ensures MatchAt(s, i, Kotlin) == Some(m)
  {
    var a: nat, q: nat :| HeadAt(s, i, a, q) && OccursAt(s, "fun", q) && TailAt(s, q + 3, m);
    FirstChar(s, "fun", q);
    AfterTestExact(s, i, a, q);
    KotlinRestExact(s, q, m);
    MatchAtAfter(s, i, Kotlin, q);
  }

  lemma KotlinRestExact(s: string, q: nat, m: Match)
    requires OccursAt(s, "fun", q) && TailAt(s, q + 3, m)
    ensures KotlinRest(s, q, m.start) == Some(m)
  {
    NameThenParenExact(s, q + 3, m);
  }

  /** Once the shared prefix ends at `q`, the dialect's rest decides. */
  lemma MatchAtAfter(s: string, i: nat, d: Dialect, q: nat)
    requires i <= |s| && AfterTest(s, i) == Some(q)
    ensures MatchAt(s, i, d) == if d == Kotlin then KotlinRest(s, q, i) else JavaRest(s, q, i)
  {
  }

  /** The Java scanner finds `m` at `i` exactly when the Java pattern matches
      there with `m` through `public\s+`, or matches with `m` without it and no
      match through `public\s+` exists: the engine tries the optional group
      first and gives it up only when the rest fails. */
  lemma JavaMatchAt(s: string, i: nat, m: Match)
    requires i <= |s|
    ensures MatchAt(s, i, Java) == Some(m) <==>
      JavaMatch(s, i, m, true) || (JavaMatch(s, i, m, false) && forall m' :: !JavaMatch(s, i, m', true))
  {
    if MatchAt(s, i, Java) == Some(m) {
      JavaMatchSound(s, i, m);
    }
    if JavaMatch(s, i, m, true) {
      JavaPublicExact(s, i, m);
    }
    if JavaMatch(s, i, m, false) && forall m' :: !JavaMatch(s, i, m', true) {
      JavaPlainExact(s, i, m);
    }
  }

  /** The head of a Java match ends where the scanner's prefix does. */
  lemma JavaHead(s: string, i: nat, m: Match, withPublic: bool) returns (q: nat)
    requires JavaMatch(s, i, m, withPublic)
    ensures AfterTest(s, i) == Some(q) && JavaRestAt(s, q, m, withPublic)
  {
    var a: nat, q': nat :| HeadAt(s, i, a, q') && JavaRestAt(s, q', m, withPublic);
    q := q';
    if withPublic {
      var t: nat, u: nat :| PublicAt(s, q, t) && TypedAt(s, t, u, m);
      FirstChar(s, "public", q);
    } else {
      var u: nat :| TypedAt(s, q, u, m);
      assert In(s[q], TypeName);
    }
    AfterTestExact(s, i, a, q);
  }

  /** A match through `public\s+` is the one the scanner's first alternative finds. */
  lemma JavaPublicFound(s: string, i: nat, m: Match) returns (q: nat)
    requires JavaMatch(s, i, m, true)
    ensures AfterTest(s, i) == Some(q) && PublicRest(s, q, i) == Some(m)
  {
    q := JavaHead(s, i, m, true);
    var t: nat, u: nat :| PublicAt(s, q, t) && TypedAt(s, t, u, m);
    PublicRestExact(s, q, t, u, m);
  }

  lemma JavaPublicExact(s: string, i: nat, m: Match)
    requires i <= |s| && JavaMatch(s, i, m, true)
    ensures MatchAt(s, i, Java) == Some(m)
  {
    var q := JavaPublicFound(s, i, m);
    MatchAtAfter(s, i, Java, q);
  }

  lemma JavaPlainExact(s: string, i: nat, m: Match)
    requires i <= |s| && JavaMatch(s, i, m, false)
    requires forall m' :: !JavaMatch(s, i, m', true)
    ensures MatchAt(s, i, Java) == Some(m)
  {
    var q := JavaHead(s, i, m, false);
    var u: nat :| TypedAt(s, q, u, m);
    NoPublicRest(s, i, q);
    TypedNameExact(s, q, u, m);
    JavaRestPlain(s, q, i);
    MatchAtAfter(s, i, Java, q);
  }

  /** With no match through `public\s+`, the first alternative fails. */
  lemma NoPublicRest(s: string, i: nat, q: nat)
    requires i <= |s| && AfterTest(s, i) == Some(q)
    requires forall m' :: !JavaMatch(s, i, m', true)
    ensures PublicRest(s, q, i).None?
  {
    var w := PublicRest(s, q, i);
    var a := AfterTestSound(s, i);
    if w.Some? {
      PublicRestSound(s, q, i);
    }
    assert w.Some? ==> HeadAt(s, i, a, q) && JavaRestAt(s, q, w.value, true);
    assert w.Some? ==> JavaMatch(s, i, w.value, true);
  }

  lemma JavaRestPlain(s: string, q: nat, start: nat)
    requires q <= |s| && PublicRest(s, q, start).None?
    ensures JavaRest(s, q, start) == TypedName(s, q, start)
  {
  }

  lemma JavaMatchSound(s: string, i: nat, m: Match)
    requires i <= |s| && MatchAt(s, i, Java) == Some(m)
    ensures JavaMatch(s, i, m, true) || (JavaMatch(s, i, m, false) && forall m' :: !JavaMatch(s, i, m', true))
  {
    var q := AfterTest(s, i).value;
    var a := AfterTestSound(s, i);
    assert JavaRest(s, q, i) == Some(m);
    JavaRestSound(s, q, i);
    forall m' | JavaMatch(s, i, m', true)
      ensures PublicRest(s, q, i) == Some(m')
    {
      var q' := JavaPublicFound(s, i, m');
    }
    assert JavaRestAt(s, q, m, PublicRest(s, q, i).Some?);
  }

  /** What the pattern finds at each position `0..|s|` of `s`. */
  function MatchTable(s: string, d: Dialect): (t: seq<Option<Match>>)
    ensures |t| == |s| + 1
    ensures forall i :: 0 <= i <= |s| ==> t[i] == MatchAt(s, i, d)
    ensures Table(t)
  {
    seq(|s| + 1, i requires 0 <= i <= |s| => MatchAt(s, i, d))
  }

  /** A table of matches: the one at `i` starts at `i` and ends further on, inside the text. */
  ghost predicate Table(t: seq<Option<Match>>) {
    forall i :: 0 <= i < |t| && t[i].Some? ==>
      t[i].value.start == i && i < t[i].value.end < |t| && t[i].value.groupStart <= t[i].value.groupEnd < |t|
  }

  /** `matcher.find()` from `from`: the first match at or after `from`. */
  function FindFrom(t: seq<Option<Match>>, from: nat): (r: Option<Match>)
    requires Table(t) && from < |t|
    ensures r.Some? ==> from <= r.value.start < |t| && t[r.value.start] == r
    ensures r.Some? ==> forall j :: from <= j < r.value.start ==> t[j].None?
    ensures r.None? ==> forall j :: from <= j < |t| ==> t[j].None?
    decreases |t| - from
  {
    if t[from].Some? then t[from]
    else if from == |t| - 1 then None
    else FindFrom(t, from + 1)
  }

  /** `regex.findAll(content)` from `from`: each search resumes where the previous
      match ended, so the matches are in order and do not overlap, and no match
      starts in a gap between them or after the last one. */
  function FindAll(t: seq<Option<Match>>, from: nat): (ms: seq<Match>)
    requires Table(t) && from < |t|
    ensures Scanned(t, from, ms)
    decreases |t| - from
  {
    match FindFrom(t, from)
    case None => []
    case Some(m) =>
      var rest := FindAll(t, m.end);
      ScannedStep(t, from, m, rest);
      [m] + rest
  }

  /** `ms` are the matches a scan of `t` from `from` finds, one after the other. */
  ghost predicate Scanned(t: seq<Option<Match>>, from: nat, ms: seq<Match>) {
    && (forall n :: 0 <= n < |ms| ==> from <= ms[n].start < |t| && t[ms[n].start] == Some(ms[n]))
    && (forall n :: 0 < n < |ms| ==> ms[n - 1].end <= ms[n].start)
    && (forall n :: 0 < n < |ms| ==> forall j :: ms[n - 1].end <= j < ms[n].start ==> t[j].None?)
    && (|ms| > 0 ==> forall j :: from <= j < ms[0].start ==> t[j].None?)
    && (forall j :: (if |ms| == 0 then from else ms[|ms| - 1].end) <= j < |t| ==> t[j].None?)
  }

  lemma ScannedStep(t: seq<Option<Match>>, from: nat, m: Match, rest: seq<Match>)
    requires Table(t) && from <= m.start < |t| && t[m.start] == Some(m)
    requires forall j :: from <= j < m.start ==> t[j].None?
    requires Scanned(t, m.end, rest)
    ensures Scanned(t, from, [m] + rest)
  {
    var ms := [m] + rest;
    assert forall n :: 0 < n < |ms| ==> ms[n] == rest[n - 1];
    assert m.start < m.end;
  }

  /** The matches of dialect `d` that `findAll` reports in `s`. */
  function Found(s: string, d: Dialect): (ms: seq<Match>)
    ensures forall m :: m in ms ==> m.start <= |s| && MatchAt(s, m.start, d) == Some(m)
    ensures ms == [] <==> forall i :: 0 <= i <= |s| ==> MatchAt(s, i, d).None?
  {
    var t := MatchTable(s, d);
    var ms := FindAll(t, 0);
    assert forall m :: m in ms ==> m.start <= |s| && t[m.start] == Some(m);
    ms
  }

  /** Group 1 of each match, in order. */
  function Names(s: string, ms: seq<Match>): (names: seq<string>)
    requires forall m :: m in ms ==> m.groupStart <= m.groupEnd <= |s|
    ensures |names| == |ms|
    ensures forall x :: x in names <==> exists m :: m in ms && x == Group(s, m)
  {
    if |ms| == 0 then []
    else
      var rest := Names(s, ms[1..]);
      assert forall m :: m in ms <==> m == ms[0] || m in ms[1..];
      [Group(s, ms[0])] + rest
  }

  /** The method names the pattern of dialect `d` reports, in order of appearance. */
  function DialectNames(s: string, d: Dialect): (names: seq<string>)
    ensures forall x :: x in names <==> exists m :: m in Found(s, d) && x == Group(s, m)
  {
    Names(s, Found(s, d))
  }

  /** No duplicates: the insertion order of a `LinkedHashSet`. */
  predicate Distinct(xs: seq<string>) {
    forall i, j :: 0 <= i < j < |xs| ==> xs[i] != xs[j]
  }

  /** `set.add(x)` for each `x` of `xs`, in order, on a `LinkedHashSet` holding `acc`. */
  function AddAll(acc: seq<string>, xs: seq<string>): (r: seq<string>)
    requires Distinct(acc)
    ensures Distinct(r)
    ensures forall x :: x in r <==> x in acc || x in xs
    ensures |acc| <= |r| && r[..|acc|] == acc
    decreases |xs|
  {
    if |xs| == 0 then acc
    else if xs[0] in acc then AddAll(acc, xs[1..])
    else
      var r := AddAll(acc + [xs[0]], xs[1..]);
      assert r[..|acc|] == r[..|acc| + 1][..|acc|];
      r
  }

  /** `findTestMethods(content)` (reliability-gate.gradle.kts:147-163): the Kotlin
      matches, then the Java matches, once each. */
  function TestMethods(content: string): (r: seq<string>)
    ensures Distinct(r)
    ensures forall x :: x in r <==> x in DialectNames(content, Kotlin) || x in DialectNames(content, Java)
    ensures (forall i :: 0 <= i <= |content| ==> !OccursAt(content, "@Test", i)) ==> r == []
  {
    AddAll(AddAll([], DialectNames(content, Kotlin)), DialectNames(content, Java))
  }

  /** The group of a match is a non-empty word, right after the `@Test` marker
      the match starts with. */
  lemma MatchGroup(s: string, d: Dialect, m: Match)
    requires m.start <= |s| && MatchAt(s, m.start, d) == Some(m)
    ensures OccursAt(s, "@Test", m.start)
    ensures m.start + 5 < m.groupStart < m.groupEnd <= |s|
    ensures forall j :: 0 <= j < |Group(s, m)| ==> IsWord(Group(s, m)[j])
  {
    ShapedGroup(s, m);
  }

  lemma ShapedGroup(s: string, m: Match)
    requires Shaped(s, m)
    ensures forall j :: 0 <= j < |Group(s, m)| ==> IsWord(Group(s, m)[j])
  {
    forall j | 0 <= j < |Group(s, m)|
      ensures IsWord(Group(s, m)[j])
    {
      assert Group(s, m)[j] == s[m.groupStart + j];
    }
  }

  lemma WordsOf(x: string, g: string)
    requires x == g && |g| > 0 && forall j :: 0 <= j < |g| ==> IsWord(g[j])
    ensures |x| > 0 && forall j :: 0 <= j < |x| ==> IsWord(x[j])
  {
  }

  /** A match the scanner finds is a match of the dialect's pattern. */
  lemma MatchAtPattern(s: string, d: Dialect, m: Match)
    requires m.start <= |s| && MatchAt(s, m.start, d) == Some(m)
    ensures PatternMatch(s, d, m)
  {
    if d == Kotlin {
      KotlinMatchSound(s, m.start, m);
    } else {
      JavaMatchSound(s, m.start, m);
    }
  }

  /** Every name a dialect reports is a non-empty word that a match starting at
      an `@Test` marker captured. */
  lemma DialectNameFollowsMarker(s: string, d: Dialect, x: string)
    requires x in DialectNames(s, d)
    ensures exists i :: 0 <= i <= |s| && OccursAt(s, "@Test", i)
    ensures |x| > 0 && forall j :: 0 <= j < |x| ==> IsWord(x[j])
  {
    var m := NameOwner(s, d, x);
    MatchGroup(s, d, m);
    WordsOf(x, Group(s, m));
  }

  /** Every name a dialect reports is the group of a match of the dialect's
      pattern at an `@Test` marker. */
  lemma DialectNameMatches(s: string, d: Dialect, x: string)
    requires x in DialectNames(s, d)
    ensures exists m :: m in Found(s, d) && x == Group(s, m) && OccursAt(s, "@Test", m.start) && PatternMatch(s, d, m)
  {
    var m := NameOwner(s, d, x);
    FoundIsPattern(s, d, m);
  }

  lemma NameOwner(s: string, d: Dialect, x: string) returns (m: Match)
    requires x in DialectNames(s, d)
    ensures m in Found(s, d) && x == Group(s, m)
  {
    m :| m in Found(s, d) && x == Group(s, m);
  }

  lemma FoundIsPattern(s: string, d: Dialect, m: Match)
    requires m in Found(s, d)
    ensures OccursAt(s, "@Test", m.start) && PatternMatch(s, d, m)
  {
    MatchAtPattern(s, d, m);
  }

  /** The same for the union `findTestMethods` returns: each name is the group
      of a Kotlin or a Java match starting at an `@Test` marker. */
  lemma TestMethodsFollowMarker(content: string, x: string)
    requires x in TestMethods(content)
    ensures exists i :: 0 <= i <= |content| && OccursAt(content, "@Test", i)
    ensures |x| > 0 && forall j :: 0 <= j < |x| ==> IsWord(x[j])
    ensures exists d, m ::
      (m in Found(content, d) && x == Group(content, m) && OccursAt(content, "@Test", m.start) && PatternMatch(content, d, m))
  {
    var d := if x in DialectNames(content, Kotlin) then Kotlin else Java;
    DialectNameFollowsMarker(content, d, x);
    DialectNameMatches(content, d, x);
  }
}
