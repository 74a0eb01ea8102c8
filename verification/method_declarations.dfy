/**
 * `getMethodDeclarations` of src/javaCodeHandler.ts: a global, multi-line scan of a document with
 *
 *   ^(?:public|protected|private|static|final|native|synchronized|abstract|transient|\t| )+
 *   [\w\<\>\[\]]+\s+([A-Za-z_$][A-Za-z0-9_]*)(?<!if|switch|while|for)\([^\)]*\) *(?:\{(?:.*\})?|;)?
 *
 * written out as a language (`IsDeclarationHead`, `IsLongestTail`) and as a hand-written
 * recogniser (`MatchAt`) proved to agree with it.
 */
module MethodDeclarations {
  import opened Wrappers
  import opened JsText
  import opened TextDocument
  import opened Types

  /** The alternatives of `(?:public|...|\t| )`; one of them is consumed per iteration of the `+`. */
  const ModifierTokens: seq<string> :=
    ["public", "protected", "private", "static", "final", "native", "synchronized", "abstract", "transient", "\t", " "]

  /**
   * The `k`-th alternative of the modifier group, looked up one element at a time so that a proof
   * about some token does not spell out all eleven.
   */
  function ModifierToken(k: nat): (tok: string)
    requires k < |ModifierTokens|
    ensures 0 < |tok|
  {
    ModifierTokenIs(k);
    Nth(ModifierTokens, k)
  }

  /** `ss[k]`, by walking down the sequence. */
  function Nth(ss: seq<string>, k: nat): string
    requires k < |ss|
    decreases k
  {
    if k == 0 then ss[0] else Nth(ss[1..], k - 1)
  }

  lemma {:induction false} NthIs(ss: seq<string>, k: nat)
    requires k < |ss|
    ensures Nth(ss, k) == ss[k]
    decreases k
  {
    if k > 0 {
      NthIs(ss[1..], k - 1);
    }
  }

  /** `ModifierToken(k)` is the `k`-th alternative. */
  lemma ModifierTokenIs(k: nat)
    requires k < |ModifierTokens|
    ensures Nth(ModifierTokens, k) == ModifierTokens[k] && 0 < |ModifierTokens[k]|
  {
    NthIs(ModifierTokens, k);
  }

  /** The words of the negative lookbehind `(?<!if|switch|while|for)`. */
  const ControlKeywords: seq<string> := ["if", "switch", "while", "for"]

  /** `[\w\<\>\[\]]`: a character of the return-type token. */
  predicate IsTypeChar(c: char) {
    IsWordChar(c) || c == '<' || c == '>' || c == '[' || c == ']'
  }

  /** The characters a modifier run is made of. */
  predicate IsModifierChar(c: char) {
    ('a' <= c <= 'z') || c == '\t' || c == ' '
  }

  // ---------------------------------------------------------------------------
  // The language of the pattern.

  /** `t[a..b]` is one or more modifier tokens back to back: `(?:public|...|\t| )+` matches it. */
  predicate IsModifierRun(t: string, a: nat, b: nat)
    requires a <= b <= |t|
    decreases b - a
  {
    exists k | 0 <= k < |ModifierTokens| ::
      a + |ModifierToken(k)| <= b && OccursAt(t, ModifierToken(k), a)
      && (a + |ModifierToken(k)| == b || IsModifierRun(t, a + |ModifierToken(k)|, b))
  }

  /** The head split: modifiers `t[p..e]`, return type `t[e..te]`, whitespace `t[te..w]`. */
  predicate HeadSplit(t: string, p: nat, e: nat, te: nat, w: nat) {
    p < e < te < w <= |t|
    && IsModifierRun(t, p, e)
    && AllCharsIn(t, e, te, IsTypeChar)
    && AllCharsIn(t, te, w, IsSpace)
  }

  /** The negative lookbehind at `n`: the text before `n` ends with `if`, `switch`, `while` or `for`. */
  predicate EndsWithControlKeyword(t: string, n: nat)
    requires n <= |t|
  {
    exists k | 0 <= k < |ControlKeywords| ::
      |ControlKeywords[k]| <= n && t[n - |ControlKeywords[k]|..n] == ControlKeywords[k]
  }

  /**
   * A match of the pattern starts at `p`, its name (group 1) is `t[w..n]` and its parameter list
   * opens at `n`. What follows the `)` always matches, so it does not decide whether there is a match.
   */
  ghost predicate IsDeclarationHead(t: string, p: nat, w: nat, n: nat) {
    p < w < n < |t|
    && IsLineStart(t, p)
    && (exists e, te :: HeadSplit(t, p, e, te, w))
    && IsIdentStart(t[w]) && AllCharsIn(t, w + 1, n, IsWordChar)
    && !EndsWithControlKeyword(t, n)
    && t[n] == '('
    && FindChar(t, ')', n + 1) < |t|
  }

  /** A character of the name: `[A-Za-z_$]` or `\w`. */
  predicate IsIdentStartOrWord(c: char) {
    IsIdentStart(c) || IsWordChar(c)
  }

  /** One past the last `}` in `t[i..j]`, or `i` when there is none. */
  function LastBraceEnd(t: string, i: nat, j: nat): (r: nat)
    requires i <= j <= |t|
    ensures i <= r <= j
    ensures r > i ==> t[r - 1] == '}'
    ensures forall k :: r <= k < j ==> t[k] != '}'
    decreases j - i
  {
    if j == i then i else if t[j - 1] == '}' then j else LastBraceEnd(t, i, j - 1)
  }

  /**
   * Where `matches[0]` ends, given the `)` at `c`: ` *` takes every space, then `{` followed, greedily,
   * by everything up to the last `}` of the line if there is one, or else `;`, or else nothing.
   */
  function DeclarationEnd(t: string, c: nat): (end: nat)
    requires c < |t| && t[c] == ')'
    ensures c < end <= |t|
  {
    EndAfterParen(t, c + 1)
  }

  /** The end of the match from just after its `)`, one space at a time. */
  function EndAfterParen(t: string, i: nat): (end: nat)
    requires i <= |t|
    ensures i <= end <= |t|
    decreases |t| - i
  {
    if i < |t| && t[i] == ' ' then EndAfterParen(t, i + 1)
    else if i < |t| && t[i] == '{' then LastBraceEnd(t, i + 1, LineEndFrom(t, i + 1))
    else if i < |t| && t[i] == ';' then i + 1
    else i
  }

  /**
   * `t[a..e]` is matched by ` *(?:\{(?:.*\})?|;)?`, the part of the pattern after the `)`, by some
   * choice of its quantifiers.
   */
  ghost predicate IsTail(t: string, a: nat, e: nat) {
    exists s: nat :: TailVia(t, a, s, e)
  }

  /**
   * The choice that takes the spaces up to `s`, then nothing, a `;` or a `{`, the `{` possibly
   * followed by non-terminator characters up to and including a `}`.
   */
  predicate TailVia(t: string, a: nat, s: nat, e: nat) {
    a <= s <= e <= |t| && AllCharsIn(t, a, s, IsBlank)
    && (e == s
        || (e == s + 1 && (t[s] == '{' || t[s] == ';'))
        || (s + 1 < e && t[s] == '{' && t[e - 1] == '}' && AllCharsIn(t, s + 1, e - 1, NotLineTerminator)))
  }

  /**
   * The tail the pattern takes. Its quantifiers are greedy and nothing follows them, so the first
   * choice that the backtracking order tries succeeds: as many spaces as there are, then `{` before
   * `;` before nothing, then as much of the line as reaches a `}`. No other choice matches more.
   */
  ghost predicate IsLongestTail(t: string, a: nat, e: nat) {
    IsTail(t, a, e) && forall e': nat :: IsTail(t, a, e') ==> e' <= e
  }

  /** The recogniser takes the longest tail. */
  lemma {:induction false} EndAfterParenLongest(t: string, i: nat)
    requires i <= |t|
    ensures IsLongestTail(t, i, EndAfterParen(t, i))
    decreases |t| - i
  {
    if i < |t| && t[i] == ' ' {
      EndAfterParenLongest(t, i + 1);
      SpaceTail(t, i, EndAfterParen(t, i + 1));
    } else {
      TailFromNonBlank(t, i);
    }
  }

  /** A space in front of a tail lengthens it, and the longest tail stays the longest. */
  lemma SpaceTail(t: string, i: nat, r: nat)
    requires i < |t| && t[i] == ' ' && IsLongestTail(t, i + 1, r)
    ensures IsLongestTail(t, i, r)
  {
    var s: nat :| TailVia(t, i + 1, s, r);
    assert AllCharsIn(t, i, s, IsBlank);
    assert TailVia(t, i, s, r);
    forall e': nat | IsTail(t, i, e')
      ensures e' <= r
    {
      var s': nat :| TailVia(t, i, s', e');
      if s' > i {
        assert AllCharsIn(t, i + 1, s', IsBlank);
        assert TailVia(t, i + 1, s', e');
        assert IsTail(t, i + 1, e');
      }
    }
  }

  /** Without a space at `i`, the tail is decided by the character at `i` alone. */
  lemma TailFromNonBlank(t: string, i: nat)
    requires i <= |t| && !(i < |t| && t[i] == ' ')
    ensures IsLongestTail(t, i, EndAfterParen(t, i))
  {
    var r := EndAfterParen(t, i);
    assert AllCharsIn(t, i, i, IsBlank);
    if i < |t| && t[i] == '{' {
      BraceTail(t, i);
    } else {
      assert TailVia(t, i, i, r);
      forall e': nat | IsTail(t, i, e')
        ensures e' <= r
      {
        var s': nat :| TailVia(t, i, s', e');
        assert s' == i;
      }
    }
  }

  /** After a `{`, the tail reaches the last `}` of the line, or ends just past the `{`. */
  lemma BraceTail(t: string, i: nat)
    requires i < |t| && t[i] == '{'
    ensures IsLongestTail(t, i, EndAfterParen(t, i))
  {
    var j := LineEndFrom(t, i + 1);
    var r := LastBraceEnd(t, i + 1, j);
    assert r == EndAfterParen(t, i);
    BraceTailMatches(t, i, j, r);
    forall e': nat | IsTail(t, i, e')
      ensures e' <= r
    {
      BraceTailAtMost(t, i, j, r, e');
    }
  }

  lemma BraceTailMatches(t: string, i: nat, j: nat, r: nat)
    requires i < |t| && t[i] == '{' && j == LineEndFrom(t, i + 1) && r == LastBraceEnd(t, i + 1, j)
    ensures IsTail(t, i, r)
  {
    assert AllCharsIn(t, i, i, IsBlank);
    if r > i + 1 {
      assert AllCharsIn(t, i + 1, r - 1, NotLineTerminator) by {
        forall k | i + 1 <= k < r - 1
          ensures NotLineTerminator(t[k])
        {
          assert t[k] == t[i + 1..j][k - (i + 1)];
        }
      }
    }
    assert TailVia(t, i, i, r);
  }

  lemma BraceTailAtMost(t: string, i: nat, j: nat, r: nat, e': nat)
    requires i < |t| && t[i] == '{' && j == LineEndFrom(t, i + 1) && r == LastBraceEnd(t, i + 1, j)
    requires IsTail(t, i, e')
    ensures e' <= r
  {
    var s': nat :| TailVia(t, i, s', e');
    assert !IsBlank(t[i]);
    assert s' == i;
    if i + 1 < e' {
      assert IsLineEnd(t, j);
      assert e' - 1 < j;
    }
  }

  /** A text has one longest tail after a given point. */
  lemma LongestTailUnique(t: string, a: nat, e1: nat, e2: nat)
    requires IsLongestTail(t, a, e1) && IsLongestTail(t, a, e2)
    ensures e1 == e2
  {
  }

  /** What the scan reads from one `regex.exec` result. */
  datatype DeclarationMatch = DeclarationMatch(index: nat, nameStart: nat, nameEnd: nat, end: nat)

  /** `m` is the match of the pattern that starts at `m.index`: a head, then the longest tail after its `)`. */
  ghost predicate IsMatch(t: string, m: DeclarationMatch) {
    IsDeclarationHead(t, m.index, m.nameStart, m.nameEnd)
    && IsLongestTail(t, FindChar(t, ')', m.nameEnd + 1) + 1, m.end)
  }

  // ---------------------------------------------------------------------------
  // The recogniser.

  /** Every modifier token is made of lower-case letters, tabs and spaces. */
  lemma ModifierTokenChars(k: nat, j: nat)
    requires k < |ModifierTokens| && j < |ModifierToken(k)|
    ensures IsModifierChar(ModifierToken(k)[j])
  {
    ModifierTokenIs(k);
  }

  /** The first token of a modifier run. */
  lemma RunFirstToken(t: string, a: nat, b: nat) returns (k: nat, mid: nat)
    requires a <= b <= |t| && IsModifierRun(t, a, b)
    ensures k < |ModifierTokens| && mid == a + |ModifierToken(k)| && OccursAt(t, ModifierToken(k), a)
    ensures a < mid <= b && (mid == b || IsModifierRun(t, mid, b))
  {
    k :| 0 <= k < |ModifierTokens| && a + |ModifierToken(k)| <= b && OccursAt(t, ModifierToken(k), a)
         && (a + |ModifierToken(k)| == b || IsModifierRun(t, a + |ModifierToken(k)|, b));
    mid := a + |ModifierToken(k)|;
  }

  /** One modifier token is a modifier run. */
  lemma RunOfOneToken(t: string, a: nat, k: nat)
    requires k < |ModifierTokens| && OccursAt(t, ModifierToken(k), a)
    ensures IsModifierRun(t, a, a + |ModifierToken(k)|)
  {
  }

  /** A modifier token followed by a modifier run is a modifier run. */
  lemma RunCons(t: string, a: nat, k: nat, b: nat)
    requires k < |ModifierTokens| && OccursAt(t, ModifierToken(k), a)
    requires a + |ModifierToken(k)| <= b <= |t| && IsModifierRun(t, a + |ModifierToken(k)|, b)
    ensures IsModifierRun(t, a, b)
  {
  }

  /** A modifier run is made of lower-case letters, tabs and spaces. */
  lemma {:induction false} ModifierRunChars(t: string, a: nat, b: nat)
    requires a <= b <= |t| && IsModifierRun(t, a, b)
    ensures AllCharsIn(t, a, b, IsModifierChar)
    decreases b - a
  {
    var k, mid := RunFirstToken(t, a, b);
    TokenChars(t, a, k);
    if mid < b {
      ModifierRunChars(t, mid, b);
      AllCharsInJoin(t, a, mid, b, IsModifierChar);
    }
  }

  lemma TokenChars(t: string, a: nat, k: nat)
    requires k < |ModifierTokens| && OccursAt(t, ModifierToken(k), a)
    ensures AllCharsIn(t, a, a + |ModifierToken(k)|, IsModifierChar)
  {
    var tok := ModifierToken(k);
    forall i | a <= i < a + |tok|
      ensures IsModifierChar(t[i])
    {
      assert t[a..a + |tok|][i - a] == t[i];
      ModifierTokenChars(k, i - a);
    }
  }

  /** `\s+` before the name: just past the last `\s` in `t[p..n]`, or `p` when there is none. */
  function NameStart(t: string, p: nat, n: nat): (w: nat)
    requires p <= n <= |t|
    ensures p <= w <= n
    ensures w > p ==> IsSpace(t[w - 1])
    ensures forall k :: w <= k < n ==> !IsSpace(t[k])
    decreases n - p
  {
    if n == p then p else if IsSpace(t[n - 1]) then n else NameStart(t, p, n - 1)
  }

  /** The start of the run of `\s` that ends at `w`, no further left than `p`. */
  function SpaceRunStart(t: string, p: nat, w: nat): (te: nat)
    requires p <= w <= |t|
    ensures p <= te <= w
    ensures te == p || !IsSpace(t[te - 1])
    ensures forall k :: te <= k < w ==> IsSpace(t[k])
    decreases w - p
  {
    if w == p || !IsSpace(t[w - 1]) then w else SpaceRunStart(t, p, w - 1)
  }

  /** The checks left once `n`, `w` and `te` are fixed. */
  predicate HeadOk(t: string, p: nat, te: nat, w: nat, n: nat)
    requires p <= te <= w < n < |t|
  {
    && te < w
    && (exists e | p < e < te :: HeadSplit(t, p, e, te, w))
    && IsIdentStart(t[w]) && AllCharsIn(t, w + 1, n, IsWordChar)
    && !EndsWithControlKeyword(t, n)
    && t[n] == '('
    && FindChar(t, ')', n + 1) < |t|
  }

  /** Every part of a head is pinned down by its start: the backtracking order cannot matter. */
  lemma HeadDetermined(t: string, p: nat, w: nat, n: nat)
    requires IsDeclarationHead(t, p, w, n)
    ensures n == FindChar(t, '(', p)
    ensures w == NameStart(t, p, n)
    ensures HeadOk(t, p, SpaceRunStart(t, p, w), w, n)
  {
    var e, te :| HeadSplit(t, p, e, te, w);
    HeadParts(t, p, e, te, w, n);
    NoParenInHead(t, p, e, te, w, n);
    FindCharIs(t, '(', p, n);
    NameStartIs(t, p, n, w);
    SpaceRunStartIs(t, p, w, te);
    assert p < e < te && HeadSplit(t, p, e, te, w);
  }

  /** The character classes around the boundaries of a head. */
  lemma HeadParts(t: string, p: nat, e: nat, te: nat, w: nat, n: nat)
    requires HeadSplit(t, p, e, te, w) && w < n <= |t|
    requires IsIdentStart(t[w]) && AllCharsIn(t, w + 1, n, IsWordChar)
    ensures AllCharsIn(t, w, n, IsIdentStartOrWord)
    ensures IsSpace(t[w - 1]) && forall k :: w <= k < n ==> !IsSpace(t[k])
    ensures !IsSpace(t[te - 1]) && forall k :: te <= k < w ==> IsSpace(t[k])
  {
  }

  /** A head has no `(` before the one after the name. */
  lemma NoParenInHead(t: string, p: nat, e: nat, te: nat, w: nat, n: nat)
    requires HeadSplit(t, p, e, te, w) && w <= n <= |t| && AllCharsIn(t, w, n, IsIdentStartOrWord)
    ensures forall k :: p <= k < n ==> t[k] != '('
  {
    ModifierRunChars(t, p, e);
  }

  lemma {:induction false} NameStartIs(t: string, p: nat, n: nat, w: nat)
    requires p < w <= n <= |t| && IsSpace(t[w - 1])
    requires forall k :: w <= k < n ==> !IsSpace(t[k])
    ensures NameStart(t, p, n) == w
    decreases n - p
  {
    if n > w {
      NameStartIs(t, p, n - 1, w);
    }
  }

  lemma {:induction false} SpaceRunStartIs(t: string, p: nat, w: nat, te: nat)
    requires p < te <= w <= |t| && !IsSpace(t[te - 1])
    requires forall k :: te <= k < w ==> IsSpace(t[k])
    ensures SpaceRunStart(t, p, w) == te
    decreases w - p
  {
    if w > te {
      SpaceRunStartIs(t, p, w - 1, te);
    }
  }

  /** Two heads at one start are the same head. */
  lemma HeadUnique(t: string, p: nat, w1: nat, n1: nat, w2: nat, n2: nat)
    requires IsDeclarationHead(t, p, w1, n1) && IsDeclarationHead(t, p, w2, n2)
    ensures w1 == w2 && n1 == n2
  {
    HeadDetermined(t, p, w1, n1);
    HeadDetermined(t, p, w2, n2);
  }

  /** The match of the pattern at start `p`, if there is one: the recogniser. */
  function MatchAt(t: string, p: nat): (r: Option<DeclarationMatch>)
    requires p <= |t|
    ensures r.Some? ==> r.value.index == p && IsMatch(t, r.value)
    ensures r.None? ==> NoMatchAt(t, p)
  {
    NoOtherHead(t, p);
    if p == |t| || !IsLineStart(t, p) then None
    else
      var n := FindChar(t, '(', p);
      if n == |t| then None
      else
        var w := NameStart(t, p, n);
        var te := SpaceRunStart(t, p, w);
        if w < n && HeadOk(t, p, te, w, n) then
          var m := RecognisedMatch(t, p, te, w, n);
          Some(m)
        else None
  }

  /** The match the recogniser builds once the head checks pass. */
  function RecognisedMatch(t: string, p: nat, te: nat, w: nat, n: nat): (m: DeclarationMatch)
    requires p <= te <= w < n < |t| && IsLineStart(t, p) && HeadOk(t, p, te, w, n)
    ensures m.index == p && IsMatch(t, m)
  {
    var c := FindChar(t, ')', n + 1);
    var end := DeclarationEnd(t, c);
    EndAfterParenLongest(t, c + 1);
    HeadOkIsHead(t, p, te, w, n);
    MatchOfParts(t, DeclarationMatch(p, w, n, end));
    DeclarationMatch(p, w, n, end)
  }

  /** A head followed by the longest tail after its `)` is a match. */
  lemma MatchOfParts(t: string, m: DeclarationMatch)
    requires IsDeclarationHead(t, m.index, m.nameStart, m.nameEnd)
    requires IsLongestTail(t, FindChar(t, ')', m.nameEnd + 1) + 1, m.end)
    ensures IsMatch(t, m)
  {
  }

  lemma HeadOkIsHead(t: string, p: nat, te: nat, w: nat, n: nat)
    requires p <= te <= w < n < |t| && IsLineStart(t, p) && HeadOk(t, p, te, w, n)
    ensures IsDeclarationHead(t, p, w, n)
  {
    var e :| p < e < te && HeadSplit(t, p, e, te, w);
  }

  /** Every head is the one the recogniser looks at. */
  lemma NoOtherHead(t: string, p: nat)
    ensures forall w: nat, n: nat :: IsDeclarationHead(t, p, w, n) ==>
              p < w < n < |t| && IsLineStart(t, p) && n == FindChar(t, '(', p) && w == NameStart(t, p, n)
              && HeadOk(t, p, SpaceRunStart(t, p, w), w, n)
  {
    forall w: nat, n: nat | IsDeclarationHead(t, p, w, n)
      ensures p < w < n && n == FindChar(t, '(', p) && w == NameStart(t, p, n)
              && HeadOk(t, p, SpaceRunStart(t, p, w), w, n)
    {
      HeadDetermined(t, p, w, n);
    }
  }

  // ---------------------------------------------------------------------------
  // The global scan.

  /** No match of the pattern starts at `p`. */
  ghost predicate NoMatchAt(t: string, p: nat) {
    forall w, n :: !IsDeclarationHead(t, p, w, n)
  }

  /** No match of the pattern starts in `[a, b)`. */
  ghost predicate NoMatchStartsIn(t: string, a: nat, b: nat)
    decreases b - a
  {
    a >= b || (NoMatchAt(t, a) && NoMatchStartsIn(t, a + 1, b))
  }

  lemma {:induction false} NoMatchStartsInExtend(t: string, a: nat, b: nat)
    requires a <= b && NoMatchStartsIn(t, a, b) && NoMatchAt(t, b)
    ensures NoMatchStartsIn(t, a, b + 1)
    decreases b - a
  {
    if a < b {
      NoMatchStartsInExtend(t, a + 1, b);
    }
  }

  /** `NoMatchStartsIn` holds at every position of its range. */
  lemma {:induction false} NoMatchStartsInAt(t: string, a: nat, b: nat, p: nat)
    requires NoMatchStartsIn(t, a, b) && a <= p < b
    ensures NoMatchAt(t, p)
    decreases b - a
  {
    if a < p {
      NoMatchStartsInAt(t, a + 1, b, p);
    }
  }

  /** `regex.exec(text)` with the pattern's `lastIndex`: the leftmost match starting at or after it. */
  method Exec(t: string, lastIndex: nat) returns (m: Option<DeclarationMatch>)
    requires lastIndex <= |t|
    ensures m.Some? ==> IsNextMatch(t, lastIndex, m.value)
    ensures m.None? ==> NoMatchStartsIn(t, lastIndex, |t| + 1)
  {
    var p := lastIndex;
    while p <= |t|
      invariant lastIndex <= p <= |t| + 1
      invariant NoMatchStartsIn(t, lastIndex, p)
    {
      var r := MatchAt(t, p);
      if r.Some? {
        NextMatchIs(t, lastIndex, r.value);
        return r;
      }
      NoMatchStartsInExtend(t, lastIndex, p);
      p := p + 1;
    }
    return None;
  }

  /** Where the `i`-th `exec` of a scan starts: 0, then the end of the previous match. */
  function ResumeAt(ms: seq<DeclarationMatch>, i: nat): nat
    requires i <= |ms|
  {
    if i == 0 then 0 else ms[i - 1].end
  }

  /**
   * `m` is what `exec` returns when it starts at `from`: walking forward from `from`, no match
   * starts before `m.index` and `m` is the match at `m.index`.
   */
  ghost predicate IsNextMatch(t: string, from: nat, m: DeclarationMatch)
    decreases m.index - from
  {
    from <= m.index
    && if from == m.index then IsMatch(t, m) else NoMatchAt(t, from) && IsNextMatch(t, from + 1, m)
  }

  /** `IsNextMatch` unfolded: a match, and nothing before it. */
  lemma {:induction false} NextMatchIs(t: string, from: nat, m: DeclarationMatch)
    requires from <= m.index
    ensures IsNextMatch(t, from, m) <==> IsMatch(t, m) && NoMatchStartsIn(t, from, m.index)
    decreases m.index - from
  {
    if from < m.index {
      NextMatchIs(t, from + 1, m);
    }
  }

  /** Each entry of `ms` is the leftmost match at or after the end of the entry before it. */
  ghost predicate IsScanPrefix(t: string, ms: seq<DeclarationMatch>)
    decreases |ms|
  {
    |ms| == 0 || (IsScanPrefix(t, ms[..|ms| - 1]) && IsNextMatch(t, ResumeAt(ms, |ms| - 1), ms[|ms| - 1]))
  }

  /** The `i`-th entry of a scan is the next match after the `i - 1`-th. */
  lemma {:induction false} ScanEntry(t: string, ms: seq<DeclarationMatch>, i: nat)
    requires IsScanPrefix(t, ms) && i < |ms|
    ensures IsNextMatch(t, ResumeAt(ms, i), ms[i])
    decreases |ms|
  {
    var front := ms[..|ms| - 1];
    if i < |ms| - 1 {
      ScanEntry(t, front, i);
      assert front[i] == ms[i];
      assert ResumeAt(front, i) == ResumeAt(ms, i);
    }
  }

  /**
   * `ms` is what the `while ((matches = regex.exec(text)) !== null)` loop visits: each entry is
   * the leftmost match starting at or after the end of the one before, and none is left after the last.
   */
  ghost predicate IsLeftmostScan(t: string, ms: seq<DeclarationMatch>) {
    IsScanPrefix(t, ms) && NoMatchStartsIn(t, ResumeAt(ms, |ms|), |t| + 1)
  }

  /** A match lies inside the text, its name inside it, and it is never empty. */
  predicate InBounds(t: string, m: DeclarationMatch) {
    m.index < m.nameStart < m.nameEnd < m.end <= |t|
  }

  lemma MatchInBounds(t: string, m: DeclarationMatch)
    requires IsMatch(t, m)
    ensures InBounds(t, m)
  {
  }

  /** One more `exec` extends a scan. */
  lemma ScanStep(t: string, ms: seq<DeclarationMatch>, m: DeclarationMatch)
    requires IsScanPrefix(t, ms) && IsNextMatch(t, ResumeAt(ms, |ms|), m)
    ensures IsScanPrefix(t, ms + [m])
  {
    var ms' := ms + [m];
    assert ms'[..|ms'| - 1] == ms;
    assert ResumeAt(ms', |ms|) == ResumeAt(ms, |ms|);
  }

  /** Each entry of a scan starts where the previous one ends or later, and is not empty. */
  lemma ScanEntryBounds(t: string, ms: seq<DeclarationMatch>, i: nat)
    requires IsScanPrefix(t, ms) && i < |ms|
    ensures ResumeAt(ms, i) <= ms[i].index < ms[i].end <= |t|
  {
    ScanEntry(t, ms, i);
    NextMatchBounds(t, ResumeAt(ms, i), ms[i]);
  }

  /** The matches of a scan come in document order and never overlap. */
  lemma {:induction false} ScanIsOrdered(t: string, ms: seq<DeclarationMatch>, i: nat, j: nat)
    requires IsScanPrefix(t, ms) && i < j < |ms|
    ensures ms[i].index < ms[i].end <= ms[j].index
    decreases j - i
  {
    ScanEntryBounds(t, ms, i);
    ScanEntryBounds(t, ms, i + 1);
    if j > i + 1 {
      ScanIsOrdered(t, ms, i + 1, j);
    }
  }

  /** The declaration the extension builds from one match, with ranges on the line of `matches.index`. */
  function ToDeclaration(t: string, m: DeclarationMatch): (d: MethodDeclaration)
    requires InBounds(t, m)
    ensures d.name == t[m.nameStart..m.nameEnd]
    ensures d.nameRange.start.line == d.nameRange.end.line == LineNumber(t, m.index)
    ensures d.declarationRange.start.line == d.declarationRange.end.line == LineNumber(t, m.index)
    ensures d.nameRange.end.character == d.nameRange.start.character + |d.name|
    ensures d.declarationRange.end.character == d.declarationRange.start.character + (m.end - m.index)
  {
    var line := LineNumber(t, m.index);
    var lineText := LineText(t, line);
    var matched := t[m.index..m.end];
    var name := t[m.nameStart..m.nameEnd];
    var declarationIndexOf := IndexOf(lineText, matched);
    var declarationRange := Range(Position(line, declarationIndexOf), Position(line, declarationIndexOf + |matched|));
    var nameIndexOf := IndexOf(lineText, name);
    var nameRange := Range(Position(line, nameIndexOf), Position(line, nameIndexOf + |name|));
    MethodDeclaration(name, declarationRange, nameRange)
  }

  /**
   * The columns are where `indexOf` first finds the name and the matched text on the line of the
   * match, or -1 when it does not find them there.
   */
  lemma DeclarationColumns(t: string, m: DeclarationMatch)
    requires InBounds(t, m)
    ensures IsFirstOccurrence(LineAround(t, m.index), t[m.nameStart..m.nameEnd], ToDeclaration(t, m).nameRange.start.character)
    ensures IsFirstOccurrence(LineAround(t, m.index), t[m.index..m.end], ToDeclaration(t, m).declarationRange.start.character)
  {
    LineAtOffset(t, m.index);
  }

  /** A line of the document holds no `'\n'`. */
  lemma LineAroundHasNoNewline(t: string, offset: nat)
    requires offset <= |t|
    ensures forall k :: 0 <= k < |LineAround(t, offset)| ==> LineAround(t, offset)[k] != '\n'
  {
  }

  /** An `indexOf` result is at most any index where the text occurs. */
  lemma FirstOccurrenceAtMost(s: string, sub: string, i: nat, r: int)
    requires OccursAt(s, sub, i) && IsFirstOccurrence(s, sub, r)
    ensures 0 <= r <= i
  {
  }

  /** Text that holds a `'\n'` never occurs in a line, so `indexOf` answers -1. */
  lemma NewlineNeverOccursInLine(t: string, offset: nat, sub: string, d: nat, r: int)
    requires offset <= |t| && d < |sub| && sub[d] == '\n'
    requires IsFirstOccurrence(LineAround(t, offset), sub, r)
    ensures r == -1
  {
    var l := LineAround(t, offset);
    LineAroundHasNoNewline(t, offset);
    forall i
      ensures !OccursAt(l, sub, i)
    {
      if 0 <= i && i + |sub| <= |l| {
        assert l[i..i + |sub|][d] == l[i + d];
      }
    }
  }

  /**
   * A match that runs over a line break (in the `\s+` before the name or inside the parameter
   * list) is not found on its first line: its declaration range starts at column -1.
   */
  lemma MultiLineMatchHasNoColumn(t: string, m: DeclarationMatch, k: nat)
    requires InBounds(t, m) && m.index <= k < m.end && t[k] == '\n'
    ensures ToDeclaration(t, m).declarationRange.start.character == -1
    ensures ToDeclaration(t, m).declarationRange.end.character == m.end - m.index - 1
  {
    DeclarationColumns(t, m);
    NewlineNeverOccursInLine(t, m.index, t[m.index..m.end], k - m.index,
                             ToDeclaration(t, m).declarationRange.start.character);
  }

  /** `t[a..b]` lies on the line holding `a`, at its own offset within that line. */
  lemma OccursInOwnLine(t: string, a: nat, b: nat, offset: nat)
    requires offset <= a <= b <= |t|
    requires forall k :: offset <= k < b ==> t[k] != '\n'
    ensures OccursAt(LineAround(t, offset), t[a..b], a - LineBegin(t, offset))
  {
    var lb, lf := LineBegin(t, offset), LineFinish(t, offset);
    FindCharBeyond(t, '\n', offset, b);
    SliceOfSlice(t, lb, lf, a, b);
  }

  /**
   * On a match that stays on one line, the declaration column is found and is at most the
   * match's own column; the name column likewise, at most the name's own column.
   */
  lemma OneLineMatchColumns(t: string, m: DeclarationMatch)
    requires InBounds(t, m) && forall k :: m.index <= k < m.end ==> t[k] != '\n'
    ensures 0 <= ToDeclaration(t, m).declarationRange.start.character <= m.index - LineBegin(t, m.index)
    ensures 0 <= ToDeclaration(t, m).nameRange.start.character <= m.nameStart - LineBegin(t, m.index)
  {
    OneLineDeclarationColumn(t, m);
    OneLineNameColumn(t, m);
  }

  lemma OneLineDeclarationColumn(t: string, m: DeclarationMatch)
    requires InBounds(t, m) && forall k :: m.index <= k < m.end ==> t[k] != '\n'
    ensures 0 <= ToDeclaration(t, m).declarationRange.start.character <= m.index - LineBegin(t, m.index)
  {
    DeclarationColumns(t, m);
    OccursInOwnLine(t, m.index, m.end, m.index);
    FirstOccurrenceAtMost(LineAround(t, m.index), t[m.index..m.end], m.index - LineBegin(t, m.index),
                          ToDeclaration(t, m).declarationRange.start.character);
  }

  lemma OneLineNameColumn(t: string, m: DeclarationMatch)
    requires InBounds(t, m) && forall k :: m.index <= k < m.end ==> t[k] != '\n'
    ensures 0 <= ToDeclaration(t, m).nameRange.start.character <= m.nameStart - LineBegin(t, m.index)
  {
    DeclarationColumns(t, m);
    OccursInOwnLine(t, m.nameStart, m.nameEnd, m.index);
    FirstOccurrenceAtMost(LineAround(t, m.index), t[m.nameStart..m.nameEnd], m.nameStart - LineBegin(t, m.index),
                          ToDeclaration(t, m).nameRange.start.character);
  }

  /**
   * The name column is where the name first occurs on the line, which need not be where the
   * name is: in `static int in();` the name `in` is first found inside the type `int`.
   */
  lemma NameColumnMayPrecedeName()
    ensures var t := "static int in();";
            var m := DeclarationMatch(0, 11, 13, 16);
            MatchAt(t, 0) == Some(m)
            && ToDeclaration(t, m).nameRange.start.character == 7
            && m.nameStart - LineBegin(t, m.index) == 11
  {
    ExampleMatchAt();
    ExampleNameColumn();
  }

  lemma ExampleMatchAt()
    ensures MatchAt("static int in();", 0) == Some(DeclarationMatch(0, 11, 13, 16))
  {
    var t := "static int in();";
    var m := DeclarationMatch(0, 11, 13, 16);
    ExampleIsMatch();
    var r := MatchAt(t, 0);
    assert !NoMatchAt(t, 0) by {
      assert IsDeclarationHead(t, 0, 11, 13);
    }
    MatchUnique(t, r.value, m);
  }

  /** Two matches that start at the same place are the same match. */
  lemma MatchUnique(t: string, m1: DeclarationMatch, m2: DeclarationMatch)
    requires IsMatch(t, m1) && IsMatch(t, m2) && m1.index == m2.index
    ensures m1 == m2
  {
    HeadUnique(t, m1.index, m1.nameStart, m1.nameEnd, m2.nameStart, m2.nameEnd);
    LongestTailUnique(t, FindChar(t, ')', m1.nameEnd + 1) + 1, m1.end, m2.end);
  }

  lemma ExampleNameColumn()
    ensures ToDeclaration("static int in();", DeclarationMatch(0, 11, 13, 16)).nameRange.start.character == 7
  {
    var t := "static int in();";
    var m := DeclarationMatch(0, 11, 13, 16);
    DeclarationColumns(t, m);
    ExampleOneLine();
    ExampleNameFirstAt7();
    FirstOccurrenceAtMost(t, t[11..13], 7, ToDeclaration(t, m).nameRange.start.character);
  }

  lemma ExampleOneLine()
    ensures LineAround("static int in();", 0) == "static int in();"
  {
    var t := "static int in();";
    FindCharIs(t, '\n', 0, |t|);
  }

  lemma ExampleNameFirstAt7()
    ensures OccursAt("static int in();", "static int in();"[11..13], 7)
    ensures forall i :: 0 <= i < 7 ==> !OccursAt("static int in();", "static int in();"[11..13], i)
  {
    var t := "static int in();";
    var name := t[11..13];
    PairSlice(t, 7);
    PairSlice(t, 11);
    forall i | 0 <= i < 7
      ensures !OccursAt(t, name, i)
    {
      PairSlice(t, i);
    }
  }

  lemma PairSlice(s: string, i: nat)
    requires i + 2 <= |s|
    ensures s[i..i + 2] == [s[i], s[i + 1]]
  {
  }

  /** `static int in();` is a declaration head: modifiers `static `, type `int`, name `in`. */
  lemma ExampleIsMatch()
    ensures IsMatch("static int in();", DeclarationMatch(0, 11, 13, 16))
  {
    var t := "static int in();";
    ExampleSplit();
    ExampleNoKeyword();
    assert FindChar(t, ')', 14) == 14;
    assert EndAfterParen(t, 15) == 16;
    EndAfterParenLongest(t, 15);
  }

  lemma ExampleSplit()
    ensures HeadSplit("static int in();", 0, 7, 10, 11)
  {
    ExampleModifiers();
  }

  lemma ExampleModifiers()
    ensures IsModifierRun("static int in();", 0, 7)
  {
    var t := "static int in();";
    ExampleStatic();
    ExampleSpace();
    ModifierTokenIs(3);
    ModifierTokenIs(10);
    RunOfOneToken(t, 6, 10);
    RunCons(t, 0, 3, 7);
  }

  lemma ExampleSpace()
    ensures OccursAt("static int in();", ModifierToken(10), 6)
  {
    var t := "static int in();";
    ExampleText(t);
    ModifierTokenIs(10);
    assert ModifierToken(10) == " ";
  }

  lemma ExampleText(t: string)
    requires t == "static int in();"
    ensures t[0..6] == "static" && t[6..7] == " "
  {
  }

  lemma ExampleStatic()
    ensures OccursAt("static int in();", ModifierToken(3), 0)
  {
    var t := "static int in();";
    ModifierTokenIs(3);
    assert ModifierToken(3) == "static";
    assert t[0..6] == "static";
  }

  lemma ExampleNoKeyword()
    ensures !EndsWithControlKeyword("static int in();", 13)
  {
    var t := "static int in();";
    forall k | 0 <= k < |ControlKeywords|
      ensures !(|ControlKeywords[k]| <= 13 && t[13 - |ControlKeywords[k]|..13] == ControlKeywords[k])
    {
      var kw := ControlKeywords[k];
      if |kw| <= 13 {
        assert t[13 - |kw|..13][|kw| - 1] == 'n' != kw[|kw| - 1];
      }
    }
  }

  /**
   * The name range as evidently intended: where group 1 of the match actually is, on the line
   * that holds it, so that the range covers the name's own text.
   */
  function CorrectedNameRange(t: string, m: DeclarationMatch): (r: Range)
    requires InBounds(t, m) && forall k :: m.nameStart <= k < m.nameEnd ==> t[k] != '\n'
    ensures r.start.line == r.end.line == LineNumber(t, m.nameStart)
    ensures 0 <= r.start.character <= r.end.character <= |LineText(t, r.start.line)|
    ensures LineText(t, r.start.line)[r.start.character..r.end.character] == t[m.nameStart..m.nameEnd]
  {
    LineAtOffset(t, m.nameStart);
    var lb, lf := LineBegin(t, m.nameStart), LineFinish(t, m.nameStart);
    FindCharBeyond(t, '\n', m.nameStart, m.nameEnd);
    SliceOfSlice(t, lb, lf, m.nameStart, m.nameEnd);
    var line := LineNumber(t, m.nameStart);
    var column := m.nameStart - lb;
    Range(Position(line, column), Position(line, column + (m.nameEnd - m.nameStart)))
  }

  /** The name of a match is an identifier, so it never holds a line break. */
  lemma MatchNameOnOneLine(t: string, m: DeclarationMatch)
    requires IsMatch(t, m)
    ensures InBounds(t, m) && forall k :: m.nameStart <= k < m.nameEnd ==> t[k] != '\n'
  {
  }

  /**
   * The declaration range as evidently intended: from the position of the match's first character
   * to the position just past its last, as `positionAt` gives them. A match that runs over a line
   * break then ends on a later line, and no column is ever negative.
   */
  function CorrectedDeclarationRange(t: string, m: DeclarationMatch): (r: Range)
    requires InBounds(t, m)
    ensures r.start.line == LineNumber(t, m.index) && r.end.line == LineNumber(t, m.end)
    ensures 0 <= r.start.character <= |LineText(t, r.start.line)|
    ensures 0 <= r.end.character <= |LineText(t, r.end.line)|
    ensures LineText(t, r.start.line)[r.start.character..] == t[m.index..LineFinish(t, m.index)]
    ensures LineText(t, r.end.line)[..r.end.character] == t[LineBegin(t, m.end)..m.end]
  {
    ColumnOnLine(t, m.index);
    ColumnOnLine(t, m.end);
    Range(Position(LineNumber(t, m.index), m.index - LineBegin(t, m.index)),
          Position(LineNumber(t, m.end), m.end - LineBegin(t, m.end)))
  }

  /** `positionAt(offset)`'s column splits the line of `offset` at `offset`. */
  lemma ColumnOnLine(t: string, offset: nat)
    requires offset <= |t|
    ensures var l := LineText(t, LineNumber(t, offset));
            var c := offset - LineBegin(t, offset);
            0 <= c <= |l| && l[c..] == t[offset..LineFinish(t, offset)] && l[..c] == t[LineBegin(t, offset)..offset]
  {
    var b, f := LineBegin(t, offset), LineFinish(t, offset);
    LineAtOffset(t, offset);
    SliceOfSlice(t, b, f, offset, f);
    SliceOfSlice(t, b, f, b, offset);
  }

  /**
   * Where the match crosses a line break, the corrected range starts at a real column and ends on
   * a later line; the range as written starts at -1 there.
   */
  lemma MultiLineMatchCorrected(t: string, m: DeclarationMatch, k: nat)
    requires InBounds(t, m) && m.index <= k < m.end && t[k] == '\n'
    ensures CorrectedDeclarationRange(t, m).start.character >= 0
    ensures CorrectedDeclarationRange(t, m).start.line < CorrectedDeclarationRange(t, m).end.line
    ensures ToDeclaration(t, m).declarationRange.start.character == -1
  {
    LineNumberMonotone(t, m.index, k);
    LineNumberMonotone(t, k + 1, m.end);
    MultiLineMatchHasNoColumn(t, m, k);
  }

  /** In the example, the corrected name range starts at column 11, where `in` is. */
  lemma CorrectedNameColumnExample()
    ensures CorrectedNameRange("static int in();", DeclarationMatch(0, 11, 13, 16)).start.character == 11
  {
    var t := "static int in();";
    assert LineBegin(t, 11) == 0 by {
      LineBeginWithinLine(t, 0, 11);
    }
  }

  /** The text of the document line (split at '\n') that holds `offset`. */
  function LineAround(t: string, offset: nat): string
    requires offset <= |t|
  {
    t[LineBegin(t, offset)..LineFinish(t, offset)]
  }

  /**
   * `getMethodDeclarations`: one declaration per match of the leftmost scan, in document order,
   * matches never overlapping.
   */
  method GetMethodDeclarations(t: string) returns (decls: seq<MethodDeclaration>, ghost ms: seq<DeclarationMatch>)
    ensures IsLeftmostScan(t, ms)
    ensures forall i :: 0 <= i < |ms| ==> InBounds(t, ms[i])
    ensures forall i, j :: 0 <= i < j < |ms| ==> ms[i].end <= ms[j].index
    ensures |decls| == |ms|
    ensures forall i :: 0 <= i < |ms| ==> decls[i] == ToDeclaration(t, ms[i])
    ensures forall i :: 0 <= i < |decls| ==> IsIdentifier(decls[i].name) && HasLineRanges(decls[i])
    ensures forall i, j :: 0 <= i < j < |decls| ==> decls[i].declarationRange.start.line <= decls[j].declarationRange.start.line
  {
    decls, ms := [], [];
    var lastIndex := 0;
    while true
      invariant lastIndex <= |t| && lastIndex == ResumeAt(ms, |ms|)
      invariant IsScanPrefix(t, ms)
      invariant forall i :: 0 <= i < |ms| ==> InBounds(t, ms[i])
      invariant |decls| == |ms|
      invariant decls == DeclarationsOf(t, ms)
      decreases |t| - lastIndex
    {
      var r := Exec(t, lastIndex);
      if r.None? {
        ScanIsOrderedAll(t, ms);
        DeclarationsOfAt(t, ms);
        DeclarationsShape(t, ms, decls);
        return;
      }
      var m := r.value;
      NextMatchBounds(t, lastIndex, m);
      ScanStep(t, ms, m);
      decls := decls + [ToDeclaration(t, m)];
      assert (ms + [m])[..|ms|] == ms;
      ms := ms + [m];
      lastIndex := m.end;
    }
  }

  /** `[A-Za-z_$][A-Za-z0-9_]*`: group 1 of the declaration pattern. */
  predicate IsIdentifier(s: string) {
    |s| > 0 && IsIdentStart(s[0]) && forall k :: 1 <= k < |s| ==> IsWordChar(s[k])
  }

  /** Both ranges of `d` lie on one line, and the name range is as wide as the name. */
  predicate HasLineRanges(d: MethodDeclaration) {
    d.nameRange.start.line == d.nameRange.end.line == d.declarationRange.start.line == d.declarationRange.end.line
    && d.nameRange.end.character == d.nameRange.start.character + |d.name|
  }

  /** What the declarations of a whole scan say without the matches behind them. */
  lemma DeclarationsShape(t: string, ms: seq<DeclarationMatch>, decls: seq<MethodDeclaration>)
    requires IsScanPrefix(t, ms) && forall i :: 0 <= i < |ms| ==> InBounds(t, ms[i])
    requires forall i, j :: 0 <= i < j < |ms| ==> ms[i].end <= ms[j].index
    requires |decls| == |ms| && forall i :: 0 <= i < |ms| ==> decls[i] == ToDeclaration(t, ms[i])
    ensures forall i :: 0 <= i < |decls| ==> IsIdentifier(decls[i].name) && HasLineRanges(decls[i])
    ensures forall i, j :: 0 <= i < j < |decls| ==> decls[i].declarationRange.start.line <= decls[j].declarationRange.start.line
  {
    forall i | 0 <= i < |decls|
      ensures IsIdentifier(decls[i].name) && HasLineRanges(decls[i])
    {
      ScanNameShape(t, ms, i);
    }
    forall i, j | 0 <= i < j < |decls|
      ensures decls[i].declarationRange.start.line <= decls[j].declarationRange.start.line
    {
      ScanEntryBounds(t, ms, i);
      LineNumberMonotone(t, ms[i].index, ms[j].index);
    }
  }

  /**
   * The name of every declaration of a scan is an identifier (`[A-Za-z_$]` then `\w*`) that the
   * text up to it does not end with a control keyword; it follows a line start, modifiers, a type
   * and whitespace; and its parameter list runs from the `(` right after it to the first `)`, which
   * lies inside the match.
   */
  lemma ScanNameShape(t: string, ms: seq<DeclarationMatch>, i: nat)
    requires IsScanPrefix(t, ms) && i < |ms| && InBounds(t, ms[i])
    ensures var m := ms[i];
            var name := t[m.nameStart..m.nameEnd];
            |name| > 0 && IsIdentStart(name[0]) && (forall k :: 1 <= k < |name| ==> IsWordChar(name[k]))
            && (forall k :: 0 <= k < |ControlKeywords| ==> !IsSuffix(ControlKeywords[k], t[..m.nameEnd]))
            && IsLineStart(t, m.index)
            && (exists e, te :: HeadSplit(t, m.index, e, te, m.nameStart))
            && t[m.nameEnd] == '('
            && var c := FindChar(t, ')', m.nameEnd + 1);
               c < m.end && t[c] == ')' && forall k :: m.nameEnd < k < c ==> t[k] != ')'
  {
    var m := ms[i];
    ScanEntry(t, ms, i);
    NextMatchIs(t, ResumeAt(ms, i), m);
    var name := t[m.nameStart..m.nameEnd];
    forall k | 1 <= k < |name|
      ensures IsWordChar(name[k])
    {
      assert name[k] == t[m.nameStart + k];
    }
    forall k | 0 <= k < |ControlKeywords|
      ensures !IsSuffix(ControlKeywords[k], t[..m.nameEnd])
    {
      var kw := ControlKeywords[k];
      if |kw| <= m.nameEnd {
        assert t[..m.nameEnd][m.nameEnd - |kw|..] == t[m.nameEnd - |kw|..m.nameEnd];
      }
    }
  }

  /** The declarations of `ms`, in order. */
  function DeclarationsOf(t: string, ms: seq<DeclarationMatch>): (ds: seq<MethodDeclaration>)
    requires forall i :: 0 <= i < |ms| ==> InBounds(t, ms[i])
    ensures |ds| == |ms|
    decreases |ms|
  {
    if |ms| == 0 then [] else DeclarationsOf(t, ms[..|ms| - 1]) + [ToDeclaration(t, ms[|ms| - 1])]
  }

  lemma {:induction false} DeclarationsOfAt(t: string, ms: seq<DeclarationMatch>)
    requires forall i :: 0 <= i < |ms| ==> InBounds(t, ms[i])
    ensures forall i :: 0 <= i < |ms| ==> DeclarationsOf(t, ms)[i] == ToDeclaration(t, ms[i])
    decreases |ms|
  {
    if |ms| > 0 {
      DeclarationsOfAt(t, ms[..|ms| - 1]);
    }
  }

  lemma ScanIsOrderedAll(t: string, ms: seq<DeclarationMatch>)
    requires IsScanPrefix(t, ms)
    ensures forall i, j :: 0 <= i < j < |ms| ==> ms[i].end <= ms[j].index
  {
    forall i, j | 0 <= i < j < |ms|
      ensures ms[i].end <= ms[j].index
    {
      ScanIsOrdered(t, ms, i, j);
    }
  }

  lemma NextMatchBounds(t: string, from: nat, m: DeclarationMatch)
    requires IsNextMatch(t, from, m)
    ensures from <= m.index && InBounds(t, m)
  {
    NextMatchIs(t, from, m);
    MatchInBounds(t, m);
  }
}
