/**
 * Character classes and string primitives with the meaning JavaScript gives them:
 * the regular-expression classes `\w`, `\s`, `.` and the `m`-flag anchors `^`/`$`
 * (all without the `u` flag), and `String.prototype.indexOf`.
 */
module JsText {

  /** A LineTerminator of ECMAScript: what `.` refuses and what `^`/`$` see under the `m` flag. */
  predicate IsLineTerminator(c: char) {
    c == '\n' || c == '\r' || c == '\U{2028}' || c == '\U{2029}'
  }

  /** `\w`: ASCII letters, digits and underscore. */
  predicate IsWordChar(c: char) {
    ('a' <= c <= 'z') || ('A' <= c <= 'Z') || ('0' <= c <= '9') || c == '_'
  }

  /** `[A-Za-z_$]`: the first character of an identifier in the extension's patterns. */
  predicate IsIdentStart(c: char) {
    ('a' <= c <= 'z') || ('A' <= c <= 'Z') || c == '_' || c == '$'
  }

  /** `\s`: ECMAScript WhiteSpace and LineTerminator characters. */
  predicate IsSpace(c: char) {
    c == '\t' || c == '\n' || c == '\U{000B}' || c == '\U{000C}' || c == '\r' || c == ' '
    || c == '\U{00A0}' || c == '\U{1680}' || ('\U{2000}' <= c <= '\U{200A}')
    || c == '\U{2028}' || c == '\U{2029}' || c == '\U{202F}' || c == '\U{205F}'
    || c == '\U{3000}' || c == '\U{FEFF}'
  }

  /** The space character, the only one ` *` repeats. */
  predicate IsBlank(c: char) {
    c == ' '
  }

  predicate NotLineTerminator(c: char) {
    !IsLineTerminator(c)
  }

  /** Every character of `s` belongs to the class `p`. */
  predicate AllChars(s: string, p: char -> bool) {
    forall i :: 0 <= i < |s| ==> p(s[i])
  }

  /** Every character of `s[a..b]` belongs to the class `p`, stated on indices of `s`. */
  predicate AllCharsIn(s: string, a: int, b: int, p: char -> bool)
    requires 0 <= a <= b <= |s|
  {
    forall i :: a <= i < b ==> p(s[i])
  }

  /** Two adjacent stretches of one class make one. */
  lemma AllCharsInJoin(s: string, a: int, m: int, b: int, p: char -> bool)
    requires 0 <= a <= m <= b <= |s|
    requires AllCharsIn(s, a, m, p) && AllCharsIn(s, m, b, p)
    ensures AllCharsIn(s, a, b, p)
  {
  }

  /** `sub` occurs in `s` starting at index `i`. */
  predicate OccursAt(s: string, sub: string, i: int) {
    0 <= i && i + |sub| <= |s| && s[i..i + |sub|] == sub
  }

  /** A string cannot occur where its first character does not. */
  lemma NotOccursAtFirst(s: string, sub: string, i: nat)
    requires |sub| > 0 && (i < |s| ==> s[i] != sub[0])
    ensures !OccursAt(s, sub, i)
  {
    if i + |sub| <= |s| {
      assert s[i..i + |sub|][0] == s[i];
    }
  }

  predicate IsPrefix(pre: string, s: string) {
    |pre| <= |s| && s[..|pre|] == pre
  }

  predicate IsSuffix(suf: string, s: string) {
    |suf| <= |s| && s[|s| - |suf|..] == suf
  }

  /** The first index at or after `from` holding `c`, or `|s|` when there is none. */
  function FindChar(s: string, c: char, from: nat): (r: nat)
    requires from <= |s|
    ensures from <= r <= |s|
    ensures r < |s| ==> s[r] == c
    ensures forall i :: from <= i < r ==> s[i] != c
    decreases |s| - from
  {
    if from == |s| || s[from] == c then from else FindChar(s, c, from + 1)
  }

  /** With no `c` in `s[from..b]`, the search for `c` ends at `b` or later. */
  lemma FindCharBeyond(s: string, c: char, from: nat, b: nat)
    requires from <= b <= |s|
    requires forall k :: from <= k < b ==> s[k] != c
    ensures b <= FindChar(s, c, from)
  {
  }

  /** ` *`: the first index at or after `i` that is not a space. */
  function SkipBlanks(t: string, i: nat): (r: nat)
    requires i <= |t|
    ensures i <= r <= |t|
    ensures r == |t| || t[r] != ' '
    ensures forall k :: i <= k < r ==> t[k] == ' '
    decreases |t| - i
  {
    if i == |t| || t[i] != ' ' then i else SkipBlanks(t, i + 1)
  }

  /** `FindChar` is the only index with its three properties. */
  lemma FindCharIs(s: string, c: char, from: nat, r: nat)
    requires from <= r <= |s|
    requires r < |s| ==> s[r] == c
    requires forall i :: from <= i < r ==> s[i] != c
    ensures FindChar(s, c, from) == r
  {
  }

  /** Searching a suffix finds the same character, shifted. */
  lemma FindCharInSuffix(s: string, c: char, k: nat, from: nat)
    requires k + from <= |s|
    ensures FindChar(s, c, k + from) == k + FindChar(s[k..], c, from)
  {
    var r := FindChar(s[k..], c, from);
    forall i | k + from <= i < k + r
      ensures s[i] != c
    {
      assert s[i] == s[k..][i - k];
    }
    if k + r < |s| {
      assert s[k + r] == s[k..][r];
    }
    FindCharIs(s, c, k + from, k + r);
  }

  /** A slice of a slice is a slice of the whole. */
  lemma SliceOfSlice(s: string, lo: nat, hi: nat, a: nat, b: nat)
    requires lo <= a <= b <= hi <= |s|
    ensures s[lo..hi][a - lo..b - lo] == s[a..b]
  {
    var u := s[lo..hi][a - lo..b - lo];
    assert |u| == b - a;
    forall i | 0 <= i < b - a
      ensures u[i] == s[a..b][i]
    {
      assert u[i] == s[lo..hi][a - lo + i] == s[a + i];
    }
  }

  /** A slice of a suffix is a slice of the whole. */
  lemma SliceOfSuffix(s: string, k: nat, b: nat, f: nat)
    requires k <= |s| && b <= f <= |s| - k
    ensures s[k..][b..f] == s[k + b..k + f]
  {
  }

  function IndexOfFrom(s: string, sub: string, from: nat): (r: int)
    requires from <= |s| + 1
    ensures r == -1 || (from <= r && OccursAt(s, sub, r))
    ensures forall i :: from <= i && (r == -1 || i < r) ==> !OccursAt(s, sub, i)
    decreases |s| + 1 - from
  {
    if from + |sub| > |s| then -1
    else if s[from..from + |sub|] == sub then from
    else IndexOfFrom(s, sub, from + 1)
  }

  /** `r` is the first index at which `sub` occurs in `s`, or -1 when it occurs nowhere. */
  ghost predicate IsFirstOccurrence(s: string, sub: string, r: int) {
    (r == -1 && forall i :: !OccursAt(s, sub, i))
    || (OccursAt(s, sub, r) && forall i :: 0 <= i < r ==> !OccursAt(s, sub, i))
  }

  /** `s.indexOf(sub)`. */
  function IndexOf(s: string, sub: string): (r: int)
    ensures IsFirstOccurrence(s, sub, r)
  {
    IndexOfFrom(s, sub, 0)
  }

  // ---------------------------------------------------------------------------
  // Lines as the `m` flag sees them: `^` holds at 0 and after a line terminator,
  // `$` at |s| and before one.

  predicate IsLineStart(s: string, i: int) {
    0 <= i <= |s| && (i == 0 || IsLineTerminator(s[i - 1]))
  }

  predicate IsLineEnd(s: string, j: int) {
    0 <= j <= |s| && (j == |s| || IsLineTerminator(s[j]))
  }

  /** `s[a..b]` is one whole line of `s`. */
  predicate IsLine(s: string, a: int, b: int) {
    IsLineStart(s, a) && a <= b && IsLineEnd(s, b) && AllChars(s[a..b], NotLineTerminator)
  }

  /** The end of the line that contains index `i`. */
  function LineEndFrom(s: string, i: nat): (j: nat)
    requires i <= |s|
    ensures i <= j && IsLineEnd(s, j)
    ensures AllChars(s[i..j], NotLineTerminator)
    decreases |s| - i
  {
    if i == |s| || IsLineTerminator(s[i]) then i else LineEndFrom(s, i + 1)
  }

  function SomeLineFrom(s: string, i: nat, ok: string -> bool): bool
    requires IsLineStart(s, i)
    decreases |s| - i
  {
    var j := LineEndFrom(s, i);
    ok(s[i..j]) || (j < |s| && SomeLineFrom(s, j + 1, ok))
  }

  lemma SomeLineFromSpec(s: string, i: nat, ok: string -> bool)
    requires IsLineStart(s, i)
    ensures SomeLineFrom(s, i, ok) <==> exists a, b :: i <= a && IsLine(s, a, b) && ok(s[a..b])
  {
    if SomeLineFrom(s, i, ok) {
      var a, b := SomeLineFromWitness(s, i, ok);
    }
    if exists a, b :: i <= a && IsLine(s, a, b) && ok(s[a..b]) {
      var a, b :| i <= a && IsLine(s, a, b) && ok(s[a..b]);
      SomeLineFromFinds(s, i, ok, a, b);
    }
  }

  /** When `SomeLineFrom` holds, a line it found. */
  lemma {:induction false} SomeLineFromWitness(s: string, i: nat, ok: string -> bool) returns (a: nat, b: nat)
    requires IsLineStart(s, i) && SomeLineFrom(s, i, ok)
    ensures i <= a && IsLine(s, a, b) && ok(s[a..b])
    decreases |s| - i
  {
    var j := LineEndFrom(s, i);
    if ok(s[i..j]) {
      a, b := i, j;
    } else {
      a, b := SomeLineFromWitness(s, j + 1, ok);
    }
  }

  /** Every line at or after `i` that satisfies `ok` makes `SomeLineFrom` hold. */
  lemma {:induction false} SomeLineFromFinds(s: string, i: nat, ok: string -> bool, a: nat, b: nat)
    requires IsLineStart(s, i) && i <= a && IsLine(s, a, b) && ok(s[a..b])
    ensures SomeLineFrom(s, i, ok)
    decreases |s| - i
  {
    var j := LineEndFrom(s, i);
    if a == i {
      LineEndUnique(s, i, j, b);
    } else {
      LaterLineStartsAfter(s, i, j, a);
      SomeLineFromFinds(s, j + 1, ok, a, b);
    }
  }

  /** A line that starts after `i` starts after the end of the line holding `i`. */
  lemma LaterLineStartsAfter(s: string, i: nat, j: nat, a: nat)
    requires i <= j && IsLineEnd(s, j) && AllChars(s[i..j], NotLineTerminator)
    requires i < a && IsLineStart(s, a)
    ensures j < a && j < |s|
  {
    AllCharsSlice(s, i, j, NotLineTerminator);
  }

  /** A class membership of a slice, restated index by index of the whole string. */
  lemma AllCharsSlice(s: string, a: int, b: int, p: char -> bool)
    requires 0 <= a <= b <= |s| && AllChars(s[a..b], p)
    ensures forall k :: a <= k < b ==> p(s[k])
  {
    forall k | a <= k < b
      ensures p(s[k])
    {
      assert s[a..b][k - a] == s[k];
    }
  }

  /** A line that starts at `a` can end in one place only. */
  lemma LineEndUnique(s: string, a: nat, j: nat, b: nat)
    requires a <= j && IsLineEnd(s, j) && AllChars(s[a..j], NotLineTerminator)
    requires a <= b && IsLineEnd(s, b) && AllChars(s[a..b], NotLineTerminator)
    ensures j == b
  {
    AllCharsSlice(s, a, j, NotLineTerminator);
    AllCharsSlice(s, a, b, NotLineTerminator);
  }

  /**
   * Whether some line of `s` satisfies `ok`: what a `^...$` pattern with the `m` flag
   * answers through `test`/`match` when its body cannot cross a line terminator.
   */
  function SomeLine(s: string, ok: string -> bool): (r: bool)
    ensures r <==> exists a, b :: IsLine(s, a, b) && ok(s[a..b])
  {
    SomeLineFromSpec(s, 0, ok);
    SomeLineFrom(s, 0, ok)
  }
}
