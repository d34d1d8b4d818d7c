/** The slice of Kotlin's String API that the two Gradle scripts use, on `seq<char>`. */
module Strings {
  import opened Wrappers

  /** Kotlin's `Char.isWhitespace()` on the JVM: `Character.isWhitespace` or
      `Character.isSpaceChar` (the Unicode separators, no-break spaces included). */
  predicate IsWhitespace(c: char) {
    var n := c as int;
    || 9 <= n <= 13
    || 28 <= n <= 32
    || n == 0xA0
    || n == 0x1680
    || 0x2000 <= n <= 0x200A
    || n == 0x2028
    || n == 0x2029
    || n == 0x202F
    || n == 0x205F
    || n == 0x3000
  }

  predicate StartsWith(s: string, prefix: string) {
    |prefix| <= |s| && s[..|prefix|] == prefix
  }

  predicate EndsWith(s: string, suffix: string) {
    |suffix| <= |s| && s[|s| - |suffix|..] == suffix
  }

  /** `p` occurs in `s` starting at index `i`. */
  predicate OccursAt(s: string, p: string, i: nat) {
    i + |p| <= |s| && s[i..i + |p|] == p
  }

  /** `s.indexOf(p, from)`: the first occurrence of `p` at or after `from`. */
  function IndexOfFrom(s: string, p: string, from: nat): (r: Option<nat>)
    ensures r.Some? ==> from <= r.value && OccursAt(s, p, r.value)
    ensures r.Some? ==> forall j :: from <= j < r.value ==> !OccursAt(s, p, j)
    ensures r.None? ==> forall j :: from <= j ==> !OccursAt(s, p, j)
    decreases |s| - from
  {
    if from + |p| > |s| then None
    else if s[from..from + |p|] == p then Some(from)
    else IndexOfFrom(s, p, from + 1)
  }

  function IndexOf(s: string, p: string): Option<nat> {
    IndexOfFrom(s, p, 0)
  }

  /** `s.contains(p)`. */
  predicate Contains(s: string, p: string) {
    IndexOf(s, p).Some?
  }

  lemma ContainsAt(s: string, p: string, i: nat)
    requires OccursAt(s, p, i)
    ensures Contains(s, p)
  {
  }

  /** `contains` holds exactly when there is a position at which `p` occurs. */
  lemma ContainsIffOccurs(s: string, p: string)
    ensures Contains(s, p) <==> exists j: nat :: OccursAt(s, p, j)
  {
    if exists j: nat :: OccursAt(s, p, j) {
      var j: nat :| OccursAt(s, p, j);
      assert !(forall k :: 0 <= k ==> !OccursAt(s, p, k));
    }
  }

  /** The number of positions from `from` up to `|s|` at which `p` occurs. */
  function CountFrom(s: string, p: string, from: nat): nat
    decreases |s| + 1 - from
  {
    if from > |s| then 0
    else (if OccursAt(s, p, from) then 1 else 0) + CountFrom(s, p, from + 1)
  }

  /** How many times `p` occurs in `s`, counting every starting position. */
  function Occurrences(s: string, p: string): nat {
    CountFrom(s, p, 0)
  }

  /** Positions without an occurrence add nothing to the count. */
  lemma {:induction false} CountSkip(s: string, p: string, a: nat, b: nat)
    requires a <= b
    requires forall j :: a <= j < b ==> !OccursAt(s, p, j)
    ensures CountFrom(s, p, a) == CountFrom(s, p, b)
    decreases b - a
  {
    if a < b {
      CountSkip(s, p, a + 1, b);
    }
  }

  /** Counting in a suffix is counting in the whole from the suffix's start. */
  lemma {:induction false} CountShift(s: string, p: string, k: nat, j: nat)
    requires k <= |s|
    ensures CountFrom(s[k..], p, j) == CountFrom(s, p, k + j)
    decreases |s| + 1 - (k + j)
  {
    if k + j <= |s| {
      if k + j + |p| <= |s| {
        assert s[k..][j..j + |p|] == s[k + j..k + j + |p|];
      }
      CountShift(s, p, k, j + 1);
    }
  }

  /** A string never contains a one-character string unless it contains that character. */
  lemma ContainsCharIff(s: string, c: char)
    ensures Contains(s, [c]) <==> c in s
  {
    if c in s {
      var i :| 0 <= i < |s| && s[i] == c;
      assert s[i..i + 1] == [c];
      ContainsAt(s, [c], i);
    }
    if Contains(s, [c]) {
      var i := IndexOf(s, [c]).value;
      assert s[i..i + 1][0] == s[i];
    }
  }

  /** The first occurrence found by `IndexOf` is the first one there is. */
  lemma IndexOfFirst(s: string, p: string, i: nat)
    requires OccursAt(s, p, i)
    requires forall j :: 0 <= j < i ==> !OccursAt(s, p, j)
    ensures IndexOf(s, p) == Some(i)
  {
  }

  /** A string containing `p` contains every character of `p`. */
  lemma ContainsChars(s: string, p: string, c: char)
    requires Contains(s, p) && c in p
    ensures c in s
  {
    var i := IndexOf(s, p).value;
    var k :| 0 <= k < |p| && p[k] == c;
    assert s[i..i + |p|][k] == s[i + k];
  }

  /** A string differing from `p` at a position both have does not start with `p`. */
  lemma DiffersAt(s: string, p: string, k: nat)
    requires k < |p| && k < |s| && s[k] != p[k]
    ensures !StartsWith(s, p)
  {
    assert |p| <= |s| ==> s[..|p|][k] == s[k];
  }

  /** A string lacking some character of `p` does not contain `p`. */
  lemma MissingChar(s: string, p: string, c: char)
    requires c in p && c !in s
    ensures !Contains(s, p)
  {
    if Contains(s, p) {
      ContainsChars(s, p, c);
    }
  }

  /** An occurrence inside a slice is an occurrence in the whole string. */
  lemma ContainsSlice(s: string, p: string, lo: nat, hi: nat)
    requires lo <= hi <= |s|
    requires Contains(s[lo..hi], p)
    ensures exists j :: lo <= j && j + |p| <= hi && OccursAt(s, p, j)
  {
    var k := IndexOf(s[lo..hi], p).value;
    SliceOfSlice(s, lo, hi, k, k + |p|);
    assert OccursAt(s, p, lo + k);
  }

  lemma SliceOfSlice<T>(s: seq<T>, lo: nat, hi: nat, a: nat, b: nat)
    requires lo <= hi <= |s| && a <= b <= hi - lo
    ensures s[lo..hi][a..b] == s[lo + a..lo + b]
  {
    forall i | 0 <= i < b - a
      ensures s[lo..hi][a..b][i] == s[lo + a..lo + b][i]
    {
    }
  }

  /** `parts.joinToString(sep)`. */
  function Join(parts: seq<string>, sep: string): string {
    if |parts| == 0 then ""
    else if |parts| == 1 then parts[0]
    else parts[0] + sep + Join(parts[1..], sep)
  }

  /** Joining splits off at the last separator too. */
  lemma {:induction false} JoinLast(parts: seq<string>, sep: string)
    requires |parts| >= 2
    ensures Join(parts, sep) == Join(parts[..|parts| - 1], sep) + sep + parts[|parts| - 1]
    decreases |parts|
  {
    if |parts| > 2 {
      JoinLast(parts[1..], sep);
      assert parts[1..][..|parts| - 2] == parts[..|parts| - 1][1..];
    }
  }

  /** `s.split(sep)` for a non-empty literal separator: the pieces between
      successive non-overlapping occurrences, scanning left to right, empty
      pieces kept. */
  function Split(s: string, sep: string): (parts: seq<string>)
    requires |sep| > 0
    ensures |parts| >= 1
    ensures Join(parts, sep) == s
    ensures forall i :: 0 <= i < |parts| ==> !Contains(parts[i], sep)
    ensures |parts| == 1 <==> !Contains(s, sep)
    decreases |s|
  {
    match IndexOf(s, sep)
    case None => [s]
    case Some(i) =>
      var rest := Split(s[i + |sep|..], sep);
      SplitStep(s, sep, i, rest);
      [s[..i]] + rest
  }

  /** One step of `Split`: the piece before the first separator, then the rest. */
  lemma SplitStep(s: string, sep: string, i: nat, rest: seq<string>)
    requires |sep| > 0 && IndexOf(s, sep) == Some(i)
    requires |rest| >= 1 && Join(rest, sep) == s[i + |sep|..]
    requires forall k :: 0 <= k < |rest| ==> !Contains(rest[k], sep)
    ensures Join([s[..i]] + rest, sep) == s
    ensures forall k :: 0 <= k < |[s[..i]] + rest| ==> !Contains(([s[..i]] + rest)[k], sep)
  {
    var head := s[..i];
    var parts := [head] + rest;
    assert parts[1..] == rest;
    calc {
      Join(parts, sep);
      head + sep + Join(rest, sep);
      s[..i] + s[i..i + |sep|] + s[i + |sep|..];
      { Slices(s, i, i + |sep|); }
      s;
    }
    PrefixBeforeFirstOccurrence(s, sep, i);
    forall k | 0 <= k < |parts|
      ensures !Contains(parts[k], sep)
    {
      if k > 0 {
        assert parts[k] == rest[k - 1];
      }
    }
  }

  /** A separator whose first character does not recur in it never overlaps
      itself, so `split` makes one more piece than the separator has
      occurrences. */
  lemma {:induction false} SplitCount(s: string, sep: string)
    requires |sep| > 0 && forall k :: 0 < k < |sep| ==> sep[k] != sep[0]
    ensures |Split(s, sep)| == Occurrences(s, sep) + 1
    decreases |s|
  {
    var r := IndexOf(s, sep);
    if r.None? {
      CountSkip(s, sep, 0, |s| + 1);
    } else {
      var i := r.value;
      var n := i + |sep|;
      assert |Split(s, sep)| == 1 + |Split(s[n..], sep)|;
      CountAtFirst(s, sep, i);
      SplitCount(s[n..], sep);
    }
  }

  /** Below the first occurrence and inside it there is nothing else to count. */
  lemma CountAtFirst(s: string, sep: string, i: nat)
    requires |sep| > 0 && forall k :: 0 < k < |sep| ==> sep[k] != sep[0]
    requires IndexOf(s, sep) == Some(i)
    ensures Occurrences(s, sep) == 1 + Occurrences(s[i + |sep|..], sep)
  {
    var n := i + |sep|;
    CountSkip(s, sep, 0, i);
    NoSelfOverlap(s, sep, i);
    CountSkip(s, sep, i + 1, n);
    CountShift(s, sep, n, 0);
  }

  /** An occurrence of such a separator hides no other start inside it. */
  lemma NoSelfOverlap(s: string, sep: string, i: nat)
    requires |sep| > 0 && forall k :: 0 < k < |sep| ==> sep[k] != sep[0]
    requires OccursAt(s, sep, i)
    ensures forall j :: i < j < i + |sep| ==> !OccursAt(s, sep, j)
  {
    forall j | i < j < i + |sep|
      ensures !OccursAt(s, sep, j)
    {
      assert s[j] == s[i..i + |sep|][j - i] != sep[0];
      if j + |sep| <= |s| {
        assert s[j..j + |sep|][0] == s[j];
      }
    }
  }

  lemma Slices<T>(s: seq<T>, i: nat, j: nat)
    requires i <= j <= |s|
    ensures s == s[..i] + s[i..j] + s[j..]
  {
  }

  /** The text before the first occurrence of `p` does not contain `p`. */
  lemma PrefixBeforeFirstOccurrence(s: string, p: string, i: nat)
    requires |p| > 0 && IndexOf(s, p) == Some(i)
    ensures !Contains(s[..i], p)
  {
    if Contains(s[..i], p) {
      ContainsSlice(s, p, 0, i);
    }
  }

  /** `s.substringAfter(d)`: the text after the first `d`, or all of `s`. */
  function SubstringAfter(s: string, d: string): string {
    match IndexOf(s, d)
    case None => s
    case Some(i) => s[i + |d|..]
  }

  /** `s.substringBefore(d)`: the text before the first `d`, or all of `s`. */
  function SubstringBefore(s: string, d: string): string {
    match IndexOf(s, d)
    case None => s
    case Some(i) => s[..i]
  }

  /** `s.substringAfterLast(c)`: the text after the last `c`, or all of `s`. */
  function SubstringAfterLast(s: string, c: char): (r: string)
    ensures c !in r
    ensures EndsWith(s, r)
    ensures |r| < |s| ==> s[|s| - |r| - 1] == c
  {
    if |s| == 0 then ""
    else if s[|s| - 1] == c then ""
    else SubstringAfterLast(s[..|s| - 1], c) + [s[|s| - 1]]
  }

  /** `s.removeSuffix(x)`. */
  function RemoveSuffix(s: string, x: string): string {
    if EndsWith(s, x) then s[..|s| - |x|] else s
  }

  /** `s.trimStart()`. */
  function TrimStart(s: string): (r: string)
    ensures EndsWith(s, r)
    ensures |r| > 0 ==> !IsWhitespace(r[0])
    ensures forall i :: 0 <= i < |s| - |r| ==> IsWhitespace(s[i])
  {
    if |s| > 0 && IsWhitespace(s[0]) then TrimStart(s[1..]) else s
  }

  /** `s.trimEnd()`. */
  function TrimEnd(s: string): (r: string)
    ensures StartsWith(s, r)
    ensures |r| > 0 ==> !IsWhitespace(r[|r| - 1])
    ensures forall i :: |r| <= i < |s| ==> IsWhitespace(s[i])
  {
    if |s| > 0 && IsWhitespace(s[|s| - 1]) then TrimEnd(s[..|s| - 1]) else s
  }

  /** `s.trim()`. */
  function Trim(s: string): string {
    TrimEnd(TrimStart(s))
  }

  /** `s.takeWhile { it.isWhitespace() }`: the indentation of a line. */
  function LeadingWhitespace(s: string): (r: string)
    ensures r + TrimStart(s) == s
    ensures forall i :: 0 <= i < |r| ==> IsWhitespace(r[i])
  {
    s[..|s| - |TrimStart(s)|]
  }

  /** Trimming a line made of indentation and a body that neither starts nor
      ends with whitespace gives back the body. */
  lemma TrimIndented(indent: string, body: string)
    requires forall i :: 0 <= i < |indent| ==> IsWhitespace(indent[i])
    requires |body| > 0 && !IsWhitespace(body[0]) && !IsWhitespace(body[|body| - 1])
    ensures TrimStart(indent + body) == body
    ensures Trim(indent + body) == body
    decreases |indent|
  {
    if |indent| > 0 {
      assert (indent + body)[1..] == indent[1..] + body;
      TrimIndented(indent[1..], body);
    } else {
      assert indent + body == body;
    }
  }

  /** A trimmed string is a slice of the string: what occurs in it occurs in
      the string, shifted by the indentation. */
  lemma TrimOccurs(s: string, p: string, j: nat)
    requires OccursAt(Trim(s), p, j)
    ensures OccursAt(s, p, |s| - |TrimStart(s)| + j)
  {
    var a := |s| - |TrimStart(s)|;
    var t := Trim(s);
    assert a >= 0 && a + |t| <= |s| && t == s[a..a + |t|] by { TrimSlice(s); }
    SliceOccurs(s, a, t, p, j);
  }

  lemma TrimSlice(s: string)
    ensures var a := |s| - |TrimStart(s)|; a + |Trim(s)| <= |s| && Trim(s) == s[a..a + |Trim(s)|]
  {
    PrefixOfSuffix(s, TrimStart(s), TrimEnd(TrimStart(s)));
  }

  lemma PrefixOfSuffix(s: string, u: string, t: string)
    requires EndsWith(s, u) && StartsWith(u, t)
    ensures t == s[|s| - |u|..|s| - |u| + |t|]
  {
    SliceOfSlice(s, |s| - |u|, |s|, 0, |t|);
  }

  lemma SliceOccurs(s: string, a: nat, t: string, p: string, j: nat)
    requires a + |t| <= |s| && t == s[a..a + |t|] && OccursAt(t, p, j)
    ensures OccursAt(s, p, a + j)
  {
    SliceOfSlice(s, a, a + |t|, j, j + |p|);
  }
}
