/**
 * When a saved Java file has changed enough to re-run Infer (`isSignificantCodeChange` of
 * src/javaCodeHandler.ts), and the method whitelist that tunes that decision
 * (`addMethodToWhitelist`, `removeMethodFromWhitelist`).
 *
 * A changed diff block is significant when its text matches, somewhere,
 *
 *   (while *\(.+\)|for *\(.+\)|[A-Za-z_$][A-Za-z0-9_]+(?<!\W+(if|switch|w1|...|wn))\(.*\))
 *
 * where w1..wn are the whitelisted names pasted into the pattern as they are.
 */
module CodeChange {
  import opened Wrappers
  import opened JsText
  import opened Types

  // ---------------------------------------------------------------------------
  // The language of the significance pattern.

  /** `.+\)` or `.*\)` after the `(` at `q`: a `)` at `q + min` or later, with no line terminator before it. */
  predicate ClosesOnLine(t: string, q: nat, min: nat)
    requires q < |t| && 1 <= min
  {
    exists r | q + min <= r < |t| :: t[r] == ')' && AllCharsIn(t, q + 1, r, NotLineTerminator)
  }

  /** `while *\(.+\)` or `for *\(.+\)` matches at `p`, with `kw` the keyword. */
  predicate LoopTriggerAt(t: string, p: nat, kw: string) {
    OccursAt(t, kw, p)
    && exists q | p + |kw| <= q < |t| :: AllCharsIn(t, p + |kw|, q, IsBlank) && t[q] == '(' && ClosesOnLine(t, q, 2)
  }

  /**
   * The lookbehind `(?<!\W+(alt1|...|altn))` fails at `q`: some alternative ends at `q` with a
   * non-word character right before it.
   */
  predicate Suppressed(t: string, q: nat, alts: seq<string>)
    requires q <= |t|
  {
    exists k | 0 <= k < |alts| ::
      |alts[k]| < q && t[q - |alts[k]|..q] == alts[k] && !IsWordChar(t[q - |alts[k]| - 1])
  }

  /** `[A-Za-z_$][A-Za-z0-9_]+(?<!\W+(alts))\(.*\)` matches at `p`. */
  predicate CallTriggerAt(t: string, p: nat, alts: seq<string>) {
    p < |t| && IsIdentStart(t[p])
    && exists q | p + 2 <= q < |t| ::
         AllCharsIn(t, p + 1, q, IsWordChar) && t[q] == '(' && !Suppressed(t, q, alts) && ClosesOnLine(t, q, 1)
  }

  /** One of the three alternatives of the pattern matches at `p`. */
  predicate TriggerAt(t: string, p: nat, alts: seq<string>) {
    LoopTriggerAt(t, p, "while") || LoopTriggerAt(t, p, "for") || CallTriggerAt(t, p, alts)
  }

  /** `t.match(pattern)` is not null: the pattern matches at some index. */
  predicate HasTrigger(t: string, alts: seq<string>) {
    exists p | 0 <= p < |t| :: TriggerAt(t, p, alts)
  }

  // ---------------------------------------------------------------------------
  // The recogniser.

  /** The end of the run of `\w` characters that starts at `i`. */
  function WordRunEnd(t: string, i: nat): (r: nat)
    requires i <= |t|
    ensures i <= r <= |t|
    ensures r == |t| || !IsWordChar(t[r])
    ensures forall k :: i <= k < r ==> IsWordChar(t[k])
    decreases |t| - i
  {
    if i == |t| || !IsWordChar(t[i]) then i else WordRunEnd(t, i + 1)
  }

  /** `ClosesOnLine` decided with two searches: the first `)` far enough on, before the end of the line. */
  function ClosesOnLineAt(t: string, q: nat, min: nat): (b: bool)
    requires q < |t| && 1 <= min
    ensures b <==> ClosesOnLine(t, q, min)
  {
    var lineEnd := LineEndFrom(t, q + 1);
    AllCharsSlice(t, q + 1, lineEnd, NotLineTerminator);
    if q + min > |t| then false
    else
      var r := FindChar(t, ')', q + min);
      if r < lineEnd then
        assert r < |t| && t[r] == ')' && AllCharsIn(t, q + 1, r, NotLineTerminator);
        true
      else
        ClosesOnLineRefused(t, q, min, lineEnd, r);
        false
  }

  lemma ClosesOnLineRefused(t: string, q: nat, min: nat, lineEnd: nat, r: nat)
    requires q < |t| && 1 <= min && q + min <= |t|
    requires q + 1 <= lineEnd && IsLineEnd(t, lineEnd)
    requires r == FindChar(t, ')', q + min) && lineEnd <= r
    ensures !ClosesOnLine(t, q, min)
  {
    forall r' | q + min <= r' < |t| && t[r'] == ')'
      ensures !AllCharsIn(t, q + 1, r', NotLineTerminator)
    {
      assert lineEnd <= r' < |t|;
      assert lineEnd < r' ==> !NotLineTerminator(t[lineEnd]);
    }
  }

  /** The loop alternatives decided at `p`: the keyword, every space, the `(`, then a `)` on the line. */
  function LoopAt(t: string, p: nat, kw: string): (b: bool)
    ensures b <==> LoopTriggerAt(t, p, kw)
  {
    if !OccursAt(t, kw, p) then false
    else
      var q := SkipBlanks(t, p + |kw|);
      if q < |t| && t[q] == '(' then
        if ClosesOnLineAt(t, q, 2) then true
        else
          LoopOnlyAt(t, p, kw, q);
          false
      else
        LoopOnlyAt(t, p, kw, q);
        false
  }

  /** The only `(` the loop alternatives can use is the one after the maximal run of spaces. */
  lemma LoopOnlyAt(t: string, p: nat, kw: string, q: nat)
    requires OccursAt(t, kw, p) && q == SkipBlanks(t, p + |kw|)
    ensures forall q' :: p + |kw| <= q' < |t| && AllCharsIn(t, p + |kw|, q', IsBlank) && t[q'] == '(' ==> q' == q
  {
  }

  /** The call alternative decided at `p`: the whole word run, then the lookbehind, the `(` and a `)`. */
  function CallAt(t: string, p: nat, alts: seq<string>): (b: bool)
    ensures b <==> CallTriggerAt(t, p, alts)
  {
    if p >= |t| || !IsIdentStart(t[p]) then false
    else
      var q := WordRunEnd(t, p + 1);
      CallOnlyAt(t, p, q);
      p + 2 <= q < |t| && t[q] == '(' && !Suppressed(t, q, alts) && ClosesOnLineAt(t, q, 1)
  }

  /** The only `(` the call alternative can use is the one that ends the word run. */
  lemma CallOnlyAt(t: string, p: nat, q: nat)
    requires p < |t| && q == WordRunEnd(t, p + 1)
    ensures forall q' :: p + 2 <= q' < |t| && AllCharsIn(t, p + 1, q', IsWordChar) && t[q'] == '(' ==> q' == q
  {
  }

  /** `t.match(pattern)`, searching start by start. */
  method ContainsTrigger(t: string, alts: seq<string>) returns (found: bool)
    ensures found <==> HasTrigger(t, alts)
  {
    var p := 0;
    while p < |t|
      invariant p <= |t|
      invariant forall p' :: 0 <= p' < p ==> !TriggerAt(t, p', alts)
    {
      if LoopAt(t, p, "while") || LoopAt(t, p, "for") || CallAt(t, p, alts) {
        assert TriggerAt(t, p, alts);
        return true;
      }
      p := p + 1;
    }
    return false;
  }

  // ---------------------------------------------------------------------------
  // The significance decision.

  /** A diff block the loop looks at: one that has an `added` or a `removed` property, whatever its value. */
  predicate IsChangedBlock(part: LineDiff) {
    part.added.Some? || part.removed.Some?
  }

  /**
   * The lookbehind alternatives the extension's pattern ends up with: `if`, `switch`, then the
   * whitelisted names. A name holding `$` reads, inside the pattern, as an end-of-input assertion
   * (the pattern has no `m` flag), so it can never match just before a `(`: such a name
   * suppresses nothing.
   */
  function PatternAlternatives(whitelist: seq<string>): (alts: seq<string>)
    ensures forall a :: a in alts <==> a == "if" || a == "switch" || (a in whitelist && '$' !in a)
  {
    ["if", "switch"] + LiveNames(whitelist)
  }

  /** The whitelisted names without `$`, in order. */
  function LiveNames(whitelist: seq<string>): (live: seq<string>)
    ensures forall a :: a in live <==> a in whitelist && '$' !in a
  {
    if |whitelist| == 0 then []
    else if '$' in whitelist[0] then LiveNames(whitelist[1..])
    else [whitelist[0]] + LiveNames(whitelist[1..])
  }

  /** The alternatives as evidently intended: every whitelisted name, taken literally. */
  function IntendedAlternatives(whitelist: seq<string>): (alts: seq<string>)
    ensures forall a :: a in alts <==> a == "if" || a == "switch" || a in whitelist
  {
    ["if", "switch"] + whitelist
  }

  /**
   * Whether a changed block triggers under `alts`, given the text stored for `fileName` when
   * Infer last ran and the line diff between it and the saved text: nothing is significant
   * without a stored text or when it is empty.
   */
  method SignificantUnder(texts: map<string, string>, fileName: string, diff: seq<LineDiff>, alts: seq<string>)
    returns (significant: bool)
    ensures significant <==>
              fileName in texts && texts[fileName] != ""
              && exists i :: 0 <= i < |diff| && IsChangedBlock(diff[i]) && HasTrigger(diff[i].value, alts)
  {
    if fileName !in texts || texts[fileName] == "" {
      return false;
    }
    var i := 0;
    while i < |diff|
      invariant i <= |diff|
      invariant forall j :: 0 <= j < i ==> !(IsChangedBlock(diff[j]) && HasTrigger(diff[j].value, alts))
    {
      if IsChangedBlock(diff[i]) {
        var found := ContainsTrigger(diff[i].value, alts);
        if found {
          return true;
        }
      }
      i := i + 1;
    }
    return false;
  }

  /** `isSignificantCodeChange` as written, with the pattern the extension builds. */
  method IsSignificantCodeChange(texts: map<string, string>, fileName: string, diff: seq<LineDiff>, whitelist: seq<string>)
    returns (significant: bool)
    ensures significant <==>
              fileName in texts && texts[fileName] != ""
              && exists i :: 0 <= i < |diff| && IsChangedBlock(diff[i])
                             && HasTrigger(diff[i].value, PatternAlternatives(whitelist))
  {
    significant := SignificantUnder(texts, fileName, diff, PatternAlternatives(whitelist));
  }

  /** `isSignificantCodeChange` with every whitelisted name suppressing its calls. */
  method IsSignificantCodeChangeCorrected(texts: map<string, string>, fileName: string, diff: seq<LineDiff>, whitelist: seq<string>)
    returns (significant: bool)
    ensures significant <==>
              fileName in texts && texts[fileName] != ""
              && exists i :: 0 <= i < |diff| && IsChangedBlock(diff[i])
                             && HasTrigger(diff[i].value, IntendedAlternatives(whitelist))
  {
    significant := SignificantUnder(texts, fileName, diff, IntendedAlternatives(whitelist));
  }

  // ---------------------------------------------------------------------------
  // Properties of the decision.

  /** Only the set of alternatives matters, and more of them suppress more: triggers only disappear. */
  lemma MoreAlternativesFewerTriggers(t: string, alts: seq<string>, more: seq<string>)
    requires forall a :: a in alts ==> a in more
    ensures HasTrigger(t, more) ==> HasTrigger(t, alts)
  {
    if HasTrigger(t, more) {
      var p :| 0 <= p < |t| && TriggerAt(t, p, more);
      if CallTriggerAt(t, p, more) && !LoopTriggerAt(t, p, "while") && !LoopTriggerAt(t, p, "for") {
        var q :| p + 2 <= q < |t| && AllCharsIn(t, p + 1, q, IsWordChar) && t[q] == '(' && !Suppressed(t, q, more)
                 && ClosesOnLine(t, q, 1);
        SuppressedMonotone(t, q, alts, more);
        assert CallTriggerAt(t, p, alts);
      }
      assert TriggerAt(t, p, alts);
    }
  }

  lemma SuppressedMonotone(t: string, q: nat, alts: seq<string>, more: seq<string>)
    requires q <= |t| && forall a :: a in alts ==> a in more
    ensures Suppressed(t, q, alts) ==> Suppressed(t, q, more)
  {
    if Suppressed(t, q, alts) {
      var k :| 0 <= k < |alts| && |alts[k]| < q && t[q - |alts[k]|..q] == alts[k] && !IsWordChar(t[q - |alts[k]| - 1]);
      var a := alts[k];
      assert a in more;
      var k' :| 0 <= k' < |more| && more[k'] == a;
    }
  }

  /** A whitelisted name called after a non-word character, e.g. `  log(x);`, is never the call that triggers. */
  lemma WhitelistedCallDoesNotTrigger(t: string, p: nat, q: nat, alts: seq<string>, name: string)
    requires name in alts && |name| < q <= |t| && t[q - |name|..q] == name && !IsWordChar(t[q - |name| - 1])
    requires p + 2 <= q && AllCharsIn(t, p + 1, q, IsWordChar) && q < |t| && t[q] == '('
    ensures Suppressed(t, q, alts)
    ensures !CallTriggerAt(t, p, alts)
  {
    var k :| 0 <= k < |alts| && alts[k] == name;
    assert Suppressed(t, q, alts);
    forall q' | p + 2 <= q' < |t| && AllCharsIn(t, p + 1, q', IsWordChar) && t[q'] == '('
      ensures q' == q
    {
      SameOpenParen(t, p + 1, q, q');
    }
  }

  /** A word run followed by `(` ends at the only `(` such a run can reach. */
  lemma SameOpenParen(t: string, i: nat, q: nat, q': nat)
    requires i <= q < |t| && i <= q' < |t| && t[q] == '(' && t[q'] == '('
    requires AllCharsIn(t, i, q, IsWordChar) && AllCharsIn(t, i, q', IsWordChar)
    ensures q == q'
  {
    assert !IsWordChar(t[q]) && !IsWordChar(t[q']);
  }

  /** A loop header with a closing parenthesis on its line is significant whatever the whitelist says. */
  lemma LoopsAlwaysTrigger(t: string, p: nat, alts: seq<string>)
    requires LoopTriggerAt(t, p, "while") || LoopTriggerAt(t, p, "for")
    ensures HasTrigger(t, alts)
  {
    assert p < |t|;
    assert TriggerAt(t, p, alts);
  }

  /**
   * A block the diff marks neither added nor removed never decides significance: inserting one
   * anywhere in a diff leaves the decision as it was.
   */
  lemma UnchangedBlocksIrrelevant(diff: seq<LineDiff>, k: nat, block: LineDiff, alts: seq<string>)
    requires k <= |diff| && block.added.None? && block.removed.None?
    ensures var more := diff[..k] + [block] + diff[k..];
            (exists i :: 0 <= i < |more| && IsChangedBlock(more[i]) && HasTrigger(more[i].value, alts))
            <==> (exists i :: 0 <= i < |diff| && IsChangedBlock(diff[i]) && HasTrigger(diff[i].value, alts))
  {
    var more := diff[..k] + [block] + diff[k..];
    if i :| 0 <= i < |more| && IsChangedBlock(more[i]) && HasTrigger(more[i].value, alts) {
      var j := if i < k then i else i - 1;
      assert more[i] == diff[j];
    }
    if j :| 0 <= j < |diff| && IsChangedBlock(diff[j]) && HasTrigger(diff[j].value, alts) {
      var i := if j < k then j else j + 1;
      assert more[i] == diff[j];
    }
  }

  /**
   * The whitelist entry `$ab`, which the name check accepts, does not suppress the call `$ab()`:
   * the changed line ` $ab()` is significant as written and not as intended.
   */
  lemma DollarNameStillTriggers()
    ensures HasTrigger(" $ab()", PatternAlternatives(["$ab"]))
    ensures !HasTrigger(" $ab()", IntendedAlternatives(["$ab"]))
    ensures IsValidMethodName("$ab")
  {
    var t := " $ab()";
    DollarExampleCallsAt1(t);
    DollarExampleIntended(t);
    DollarNameValid();
  }

  lemma DollarExampleCallsAt1(t: string)
    requires t == " $ab()"
    ensures HasTrigger(t, PatternAlternatives(["$ab"]))
  {
    var alts := PatternAlternatives(["$ab"]);
    assert alts == ["if", "switch"];
    assert AllCharsIn(t, 2, 4, IsWordChar);
    assert !Suppressed(t, 4, alts) by {
      assert t[2..4] != "if" by { assert t[2] == 'a'; }
    }
    assert ClosesOnLine(t, 4, 1) by {
      assert t[5] == ')' && AllCharsIn(t, 5, 5, NotLineTerminator);
    }
    assert CallTriggerAt(t, 1, alts);
    assert TriggerAt(t, 1, alts);
  }

  lemma DollarExampleIntended(t: string)
    requires t == " $ab()"
    ensures !HasTrigger(t, IntendedAlternatives(["$ab"]))
  {
    var alts := IntendedAlternatives(["$ab"]);
    assert alts == ["if", "switch", "$ab"];
    forall p | 0 <= p < |t|
      ensures !TriggerAt(t, p, alts)
    {
      DollarExampleNoTriggerAt(t, p, alts);
    }
  }

  /** No alternative matches at any one start of ` $ab()` once `$ab` is listed. */
  lemma DollarExampleNoTriggerAt(t: string, p: nat, alts: seq<string>)
    requires t == " $ab()" && alts == ["if", "switch", "$ab"] && p < |t|
    ensures !TriggerAt(t, p, alts)
  {
    assert t[p] != 'w' && t[p] != 'f';
    NotOccursAtFirst(t, "while", p);
    NotOccursAtFirst(t, "for", p);
    if p == 1 || p == 2 {
      assert t[1..4] == "$ab" && !IsWordChar(t[0]) && AllCharsIn(t, p + 1, 4, IsWordChar);
      WhitelistedCallDoesNotTrigger(t, p, 4, alts, "$ab");
    } else if p == 3 {
      assert t[5] != '(';
    } else {
      assert !IsIdentStart(t[p]);
    }
  }

  lemma DollarNameValid()
    ensures IsValidMethodName("$ab")
  {
    var s := "$ab";
    assert IsLine(s, 0, 3) && IsMethodNameLine(s[0..3]);
  }

  // ---------------------------------------------------------------------------
  // The whitelist.

  /** `^[A-Za-z_$][A-Za-z0-9_]+$` holds for the whole of `line`. */
  predicate IsMethodNameLine(line: string) {
    2 <= |line| && IsIdentStart(line[0]) && AllChars(line[1..], IsWordChar)
  }

  /**
   * `methodName.match(/^[A-Za-z_$][A-Za-z0-9_]+$/gm)`: with the `m` flag the check passes when
   * some line of the text is a name, so a text that holds a line break can pass it.
   */
  function IsValidMethodName(name: string): (ok: bool)
    ensures ok <==> exists a, b :: IsLine(name, a, b) && IsMethodNameLine(name[a..b])
  {
    SomeLine(name, IsMethodNameLine)
  }

  /** The outcome `addMethodToWhitelist` reports. */
  datatype AddOutcome = InvalidName | AlreadyListed | Added

  /**
   * `addMethodToWhitelist`: an invalid name leaves the whitelist alone (and a message is shown),
   * a listed name leaves it alone, any other name is appended.
   */
  function AddMethodToWhitelist(whitelist: seq<string>, name: string): (r: (seq<string>, AddOutcome))
    ensures r.1 == InvalidName <==> !IsValidMethodName(name)
    ensures r.1 == AlreadyListed <==> IsValidMethodName(name) && name in whitelist
    ensures r.1 != Added ==> r.0 == whitelist
    ensures r.1 == Added ==> r.0 == whitelist + [name]
  {
    if !IsValidMethodName(name) then (whitelist, InvalidName)
    else if name in whitelist then (whitelist, AlreadyListed)
    else (whitelist + [name], Added)
  }

  /** `removeMethodFromWhitelist`: drop every entry equal to `name`, keeping the others in order. */
  function RemoveMethodFromWhitelist(whitelist: seq<string>, name: string): (r: seq<string>)
    ensures forall a :: a in r <==> a in whitelist && a != name
    ensures |r| <= |whitelist|
    ensures multiset(r) == multiset(whitelist)[name := 0]
    decreases |whitelist|
  {
    if |whitelist| == 0 then []
    else
      var rest := RemoveMethodFromWhitelist(whitelist[1..], name);
      assert whitelist == [whitelist[0]] + whitelist[1..];
      if whitelist[0] == name then rest else [whitelist[0]] + rest
  }

  /** Adding a name twice is adding it once. */
  lemma AddIdempotent(whitelist: seq<string>, name: string)
    ensures AddMethodToWhitelist(AddMethodToWhitelist(whitelist, name).0, name).0 == AddMethodToWhitelist(whitelist, name).0
  {
  }

  /** After a successful add the name is listed exactly once, when it was listed at most once before. */
  lemma AddKeepsNamesDistinct(whitelist: seq<string>, name: string)
    requires forall i, j :: 0 <= i < j < |whitelist| ==> whitelist[i] != whitelist[j]
    ensures var w := AddMethodToWhitelist(whitelist, name).0;
            forall i, j :: 0 <= i < j < |w| ==> w[i] != w[j]
  {
  }

  /** Removing what was just added gives back the whitelist without the name. */
  lemma {:induction false} RemoveUndoesAdd(whitelist: seq<string>, name: string)
    ensures RemoveMethodFromWhitelist(AddMethodToWhitelist(whitelist, name).0, name)
            == RemoveMethodFromWhitelist(whitelist, name)
  {
    if AddMethodToWhitelist(whitelist, name).1 == Added {
      RemoveAppend(whitelist, [name], name);
      assert RemoveMethodFromWhitelist([name], name) == [];
    }
  }

  /** Removing a name that is not listed changes nothing. */
  lemma {:induction false} RemoveAbsent(whitelist: seq<string>, name: string)
    requires name !in whitelist
    ensures RemoveMethodFromWhitelist(whitelist, name) == whitelist
    decreases |whitelist|
  {
    if |whitelist| > 0 {
      RemoveAbsent(whitelist[1..], name);
      assert whitelist == [whitelist[0]] + whitelist[1..];
    }
  }

  /** Removing distributes over concatenation. */
  lemma {:induction false} RemoveAppend(a: seq<string>, b: seq<string>, name: string)
    ensures RemoveMethodFromWhitelist(a + b, name) == RemoveMethodFromWhitelist(a, name) + RemoveMethodFromWhitelist(b, name)
    decreases |a|
  {
    if |a| > 0 {
      assert (a + b)[0] == a[0] && (a + b)[1..] == a[1..] + b;
      RemoveAppend(a[1..], b, name);
      var x, y := RemoveMethodFromWhitelist(a[1..], name), RemoveMethodFromWhitelist(b, name);
      if a[0] != name {
        assert [a[0]] + (x + y) == ([a[0]] + x) + y;
      }
    } else {
      assert a + b == b;
    }
  }

  /** Removing is idempotent. */
  lemma {:induction false} RemoveIdempotent(whitelist: seq<string>, name: string)
    ensures RemoveMethodFromWhitelist(RemoveMethodFromWhitelist(whitelist, name), name)
            == RemoveMethodFromWhitelist(whitelist, name)
  {
    RemoveAbsent(RemoveMethodFromWhitelist(whitelist, name), name);
  }

  /** A name the check accepts and then adds can only make fewer changes significant. */
  lemma AddingNeverAddsTriggers(whitelist: seq<string>, name: string, t: string)
    ensures HasTrigger(t, PatternAlternatives(AddMethodToWhitelist(whitelist, name).0))
            ==> HasTrigger(t, PatternAlternatives(whitelist))
    ensures HasTrigger(t, IntendedAlternatives(AddMethodToWhitelist(whitelist, name).0))
            ==> HasTrigger(t, IntendedAlternatives(whitelist))
  {
    var w := AddMethodToWhitelist(whitelist, name).0;
    assert forall a :: a in whitelist ==> a in w;
    MoreAlternativesFewerTriggers(t, PatternAlternatives(whitelist), PatternAlternatives(w));
    MoreAlternativesFewerTriggers(t, IntendedAlternatives(whitelist), IntendedAlternatives(w));
  }
}
