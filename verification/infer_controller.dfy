/**
 * The state kept by src/inferController.ts across runs of Infer: the text of each file when Infer
 * last ran on it, the cost lists per file, and the cost histories per method id, with the two
 * transitions that change them, `executeInfer` and `disableInfer`.
 */
module InferController {
  import opened Wrappers
  import opened JsText
  import opened Types
  import opened InferCosts

  /**
   * The extension's module-level state: the file of the active editor, `activeTextEditorTexts`
   * (file name to text), `currentInferCost`, `inferCosts` (file name to cost list) and
   * `inferCostHistories` (item id to history, newest first).
   */
  datatype InferState = InferState(
    active: Option<string>,
    texts: map<string, string>,
    currentCost: Option<seq<InferCostItem>>,
    costs: map<string, seq<InferCostItem>>,
    histories: map<string, seq<InferCostItem>>)

  /** The state when the extension starts. */
  const Initial := InferState(None, map[], None, map[], map[])

  /** The active editor at the moment of the call: its file name and its text. */
  datatype Editor = Editor(fileName: string, text: string)

  /**
   * What running Infer gave: the command failed, the report could not be read or parsed, or the
   * records of the report.
   */
  datatype InferRun = RunFailed | ReportUnreadable | Report(records: seq<RawCostRecord>)

  // ---------------------------------------------------------------------------
  // File names.

  /** `path.endsWith(".java")`. */
  predicate IsJavaFile(path: string) {
    IsSuffix(".java", path)
  }

  /** `split("/").pop()`: the text after the last `/`, or the whole text when there is none. */
  function AfterLastSlash(p: string): (r: string)
    ensures IsSuffix(r, p) && '/' !in r
    ensures |r| < |p| ==> p[|p| - |r| - 1] == '/'
  {
    if |p| == 0 || p[|p| - 1] == '/' then ""
    else
      var front := p[..|p| - 1];
      var tail := AfterLastSlash(front);
      SuffixExtends(p, tail);
      tail + [p[|p| - 1]]
  }

  /** A suffix of `p` without its last character, extended by that character, is a suffix of `p`. */
  lemma SuffixExtends(p: string, r: string)
    requires |p| > 0 && IsSuffix(r, p[..|p| - 1])
    ensures IsSuffix(r + [p[|p| - 1]], p)
  {
    var front := p[..|p| - 1];
    assert p == front + [p[|p| - 1]];
    assert p[|p| - |r| - 1..] == front[|front| - |r|..] + [p[|p| - 1]];
  }

  /** `split(".")[0]`: the text before the first `.`, or the whole text when there is none. */
  function BeforeFirstDot(s: string): (r: string)
    ensures IsPrefix(r, s) && '.' !in r
    ensures |r| < |s| ==> s[|r|] == '.'
  {
    if |s| == 0 || s[0] == '.' then ""
    else [s[0]] + BeforeFirstDot(s[1..])
  }

  /** The name of the sub-directory Infer writes its output to: the file name cut at its first `.`. */
  function OutputDirName(path: string): (r: string)
    ensures '/' !in r && '.' !in r
  {
    var name := AfterLastSlash(path);
    var r := BeforeFirstDot(name);
    assert forall i :: 0 <= i < |r| ==> r[i] == name[i];
    r
  }

  /** `AfterLastSlash` is the only suffix with its properties. */
  lemma {:induction false} AfterLastSlashIs(p: string, r: string)
    requires IsSuffix(r, p) && '/' !in r
    requires |r| < |p| ==> p[|p| - |r| - 1] == '/'
    ensures AfterLastSlash(p) == r
    decreases |p|
  {
    if |r| > 0 {
      var front := p[..|p| - 1];
      assert p[|p| - 1] == r[|r| - 1];
      assert front[|front| - (|r| - 1)..] == r[..|r| - 1];
      assert '/' !in r[..|r| - 1] by {
        assert forall i :: 0 <= i < |r| - 1 ==> r[..|r| - 1][i] == r[i];
      }
      AfterLastSlashIs(front, r[..|r| - 1]);
    }
  }

  /** `BeforeFirstDot` is the only prefix with its properties. */
  lemma {:induction false} BeforeFirstDotIs(s: string, r: string)
    requires IsPrefix(r, s) && '.' !in r
    requires |r| < |s| ==> s[|r|] == '.'
    ensures BeforeFirstDot(s) == r
    decreases |s|
  {
    if |r| > 0 {
      assert s[0] == r[0];
      assert s[1..][..|r| - 1] == r[1..];
      BeforeFirstDotIs(s[1..], r[1..]);
    }
  }

  /** The output directory of `dir/Name.ext` is `Name`, whatever the directory and the extension. */
  lemma OutputDirNameOf(dir: string, name: string, ext: string)
    requires '/' !in name && '.' !in name && '/' !in ext
    ensures OutputDirName(dir + "/" + name + "." + ext) == name
  {
    var path := dir + "/" + name + "." + ext;
    var file := name + "." + ext;
    assert path == (dir + "/") + file;
    assert '/' !in file by {
      forall i | 0 <= i < |file|
        ensures file[i] != '/'
      {
        if i < |name| {
          assert file[i] == name[i];
        } else if i > |name| {
          assert file[i] == ext[i - |name| - 1];
        }
      }
    }
    AfterLastSlashIs(path, file);
    BeforeFirstDotIs(file, name);
  }

  // ---------------------------------------------------------------------------
  // Transitions.

  /**
   * The part of `executeInfer` before the Infer command is awaited: without an active editor
   * nothing happens; otherwise the editor becomes the active one and its text is recorded as the
   * file's snapshot. The run goes on, for that file, only when it is a Java file.
   */
  function ExecuteStart(s: InferState, editor: Option<Editor>): (r: (InferState, Option<string>))
    ensures editor.None? ==> r == (s, None)
    ensures editor.Some? ==>
              r.0.active == Some(editor.value.fileName)
              && r.0.texts == s.texts[editor.value.fileName := editor.value.text]
              && r.0.currentCost == s.currentCost && r.0.costs == s.costs && r.0.histories == s.histories
    ensures r.1.Some? <==> editor.Some? && IsJavaFile(editor.value.fileName)
    ensures r.1.Some? ==> r.1.value == editor.value.fileName
  {
    match editor
    case None => (s, None)
    case Some(e) =>
      var f := e.fileName;
      (s.(active := Some(f), texts := s.texts[f := e.text]), if IsJavaFile(f) then Some(f) else None)
  }

  /**
   * The part of `executeInfer` after the Infer command on the Java file `f` returns: a failed run
   * or an unreadable report ends the call; a report becomes `f`'s cost list, ordered by line, and
   * the current one, which the history update then stamps. Snapshots and the active editor are
   * not touched.
   */
  function ExecuteFinish(s: InferState, f: string, run: InferRun, now: string): (r: (InferState, bool))
    requires IsJavaFile(f)
    ensures r.1 <==> run.Report?
    ensures r.0.texts == s.texts && r.0.active == s.active
    ensures !r.1 ==> r.0 == s
    ensures r.1 ==> f in r.0.costs && r.0.currentCost == Some(r.0.costs[f]) && |r.0.costs[f]| == |run.records|
    ensures r.1 ==> forall g :: g != f ==> (g in r.0.costs <==> g in s.costs)
    ensures r.1 ==> forall g :: g != f && g in s.costs ==> r.0.costs[g] == s.costs[g]
  {
    match run
    case RunFailed => (s, false)
    case ReportUnreadable => (s, false)
    case Report(records) =>
      var sorted := SortByLine(ToCostItems(f, records));
      var update := UpdateInferCostHistory(s.histories, sorted, now);
      (s.(currentCost := Some(update.costs), costs := s.costs[f := update.costs],
          histories := update.histories), true)
  }

  /**
   * `executeInfer` run to completion with nothing in between: its start, then, for a Java file,
   * its finish.
   */
  function ExecuteInfer(s: InferState, editor: Option<Editor>, run: InferRun, now: string): (r: (InferState, bool))
    ensures editor.None? ==> r == (s, false)
    ensures editor.Some? ==>
              r.0.active == Some(editor.value.fileName)
              && r.0.texts == s.texts[editor.value.fileName := editor.value.text]
    ensures r.1 <==> editor.Some? && IsJavaFile(editor.value.fileName) && run.Report?
    ensures !r.1 ==> r.0.currentCost == s.currentCost && r.0.costs == s.costs && r.0.histories == s.histories
  {
    var (started, file) := ExecuteStart(s, editor);
    if file.None? then (started, false) else ExecuteFinish(started, file.value, run, now)
  }

  /** `disableInfer`: the cost lists and the snapshots are dropped; the histories stay. */
  function DisableInfer(s: InferState): (r: InferState)
    ensures r.costs == map[] && r.texts == map[]
    ensures r.histories == s.histories && r.active == s.active && r.currentCost == s.currentCost
  {
    s.(costs := map[], texts := map[])
  }

  // ---------------------------------------------------------------------------
  // Properties of the transitions.

  /** `s` with every timestamp cleared. */
  function Unstamped(s: seq<InferCostItem>): (r: seq<InferCostItem>)
    ensures |r| == |s|
    ensures forall i :: 0 <= i < |s| ==> r[i] == s[i].(timestamp := None)
  {
    if |s| == 0 then [] else [s[0].(timestamp := None)] + Unstamped(s[1..])
  }

  /** Sortedness by line only looks at locations. */
  lemma SameLinesSorted(a: seq<InferCostItem>, b: seq<InferCostItem>)
    requires |a| == |b| && forall i :: 0 <= i < |a| ==> a[i].loc == b[i].loc
    requires SortedByLine(a)
    ensures SortedByLine(b)
  {
    forall i, j | 0 <= i < j < |b|
      ensures b[i].loc.lnum <= b[j].loc.lnum
    {
      assert a[i].loc.lnum <= a[j].loc.lnum;
    }
  }

  /**
   * After a successful finish, `f`'s cost list is ordered by line, and clearing its stamps gives
   * back exactly the report's items, ordered: a permutation of them. Each stamp is the run's time.
   * This holds whatever ran between the start and the finish.
   */
  lemma FinishStoresSortedReport(s: InferState, f: string, records: seq<RawCostRecord>, now: string)
    requires IsJavaFile(f)
    ensures var r := ExecuteFinish(s, f, Report(records), now).0;
            var stored := r.costs[f];
            var items := ToCostItems(f, records);
            SortedByLine(stored)
            && Unstamped(stored) == SortByLine(items)
            && multiset(Unstamped(stored)) == multiset(items)
            && forall i :: 0 <= i < |stored| ==> stored[i].timestamp.None? || stored[i].timestamp == Some(now)
  {
    var items := ToCostItems(f, records);
    var sorted := SortByLine(items);
    var stored := FinishStored(s, f, records, now);
    ReportItemsUnstamped(items);
    StampsOnly(sorted, stored);
    assert Unstamped(stored) == sorted;
    assert multiset(Unstamped(stored)) == multiset(items);
  }

  /** What a successful finish stores for `f`, and the histories it leaves. */
  lemma FinishStored(s: InferState, f: string, records: seq<RawCostRecord>, now: string) returns (stored: seq<InferCostItem>)
    requires IsJavaFile(f)
    ensures var r := ExecuteFinish(s, f, Report(records), now).0;
            var update := UpdateInferCostHistory(s.histories, SortByLine(ToCostItems(f, records)), now);
            stored == r.costs[f] == update.costs && r.histories == update.histories
  {
    var sorted := SortByLine(ToCostItems(f, records));
    stored := UpdateInferCostHistory(s.histories, sorted, now).costs;
  }

  /**
   * After a successful finish, the newest history entry of every method of the report has the
   * execution polynomial of that method's item, and the histories of other ids are unchanged.
   */
  lemma FinishHistoryHeads(s: InferState, f: string, records: seq<RawCostRecord>, now: string, id: string)
    requires IsJavaFile(f)
    ensures var r := ExecuteFinish(s, f, Report(records), now).0;
            var sorted := SortByLine(ToCostItems(f, records));
            (HasId(sorted, id) ==> HeadMatches(r.histories, sorted[LastWithId(sorted, id)]))
            && (!HasId(sorted, id) ==> HistoryOf(r.histories, id) == HistoryOf(s.histories, id))
  {
    var sorted := SortByLine(ToCostItems(f, records));
    var _ := FinishStored(s, f, records, now);
    if HasId(sorted, id) {
      UpdateHead(s.histories, sorted, now, id);
    } else {
      UpdateKeepsOthers(s.histories, sorted, now, id);
    }
  }

  /** A run to completion is its start followed by its finish, and the start keeps the histories. */
  lemma ExecuteIsStartThenFinish(s: InferState, e: Editor, records: seq<RawCostRecord>, now: string) returns (started: InferState)
    requires IsJavaFile(e.fileName)
    ensures ExecuteInfer(s, Some(e), Report(records), now) == ExecuteFinish(started, e.fileName, Report(records), now)
    ensures started.histories == s.histories && started.costs == s.costs
  {
    started := ExecuteStart(s, Some(e)).0;
  }

  /** `FinishStoresSortedReport` for a run to completion. */
  lemma StoredCostsSortedReport(s: InferState, e: Editor, records: seq<RawCostRecord>, now: string)
    requires IsJavaFile(e.fileName)
    ensures var r := ExecuteInfer(s, Some(e), Report(records), now).0;
            var stored := r.costs[e.fileName];
            var items := ToCostItems(e.fileName, records);
            SortedByLine(stored)
            && Unstamped(stored) == SortByLine(items)
            && multiset(Unstamped(stored)) == multiset(items)
            && forall i :: 0 <= i < |stored| ==> stored[i].timestamp.None? || stored[i].timestamp == Some(now)
  {
    var started := ExecuteIsStartThenFinish(s, e, records, now);
    FinishStoresSortedReport(started, e.fileName, records, now);
  }

  /** What a successful run stores for the file, and the histories it leaves. */
  lemma ReportStored(s: InferState, e: Editor, records: seq<RawCostRecord>, now: string) returns (stored: seq<InferCostItem>)
    requires IsJavaFile(e.fileName)
    ensures var r := ExecuteInfer(s, Some(e), Report(records), now).0;
            var update := UpdateInferCostHistory(s.histories, SortByLine(ToCostItems(e.fileName, records)), now);
            stored == r.costs[e.fileName] == update.costs && r.histories == update.histories
  {
    var started := ExecuteIsStartThenFinish(s, e, records, now);
    stored := FinishStored(started, e.fileName, records, now);
  }

  /** A report's items carry no timestamp, in any order. */
  lemma ReportItemsUnstamped(items: seq<InferCostItem>)
    requires forall i :: 0 <= i < |items| ==> items[i].timestamp.None?
    ensures forall i :: 0 <= i < |SortByLine(items)| ==> SortByLine(items)[i].timestamp.None?
  {
    var sorted := SortByLine(items);
    forall i | 0 <= i < |sorted|
      ensures sorted[i].timestamp.None?
    {
      assert sorted[i] in multiset(items);
    }
  }

  /** Stamping an unstamped sorted list keeps it sorted, and clearing the stamps undoes it. */
  lemma StampsOnly(sorted: seq<InferCostItem>, stamped: seq<InferCostItem>)
    requires SortedByLine(sorted)
    requires forall i :: 0 <= i < |sorted| ==> sorted[i].timestamp.None?
    requires |stamped| == |sorted|
    requires forall i :: 0 <= i < |sorted| ==> stamped[i].(timestamp := sorted[i].timestamp) == sorted[i]
    ensures SortedByLine(stamped) && Unstamped(stamped) == sorted
  {
    SameLinesSorted(sorted, stamped);
    assert Unstamped(stamped) == sorted;
  }

  /**
   * A successful run sets the file's cost list, one item per report record, makes it the current
   * one, and leaves the lists of other files alone.
   */
  lemma RunStoresFileCosts(s: InferState, e: Editor, records: seq<RawCostRecord>, now: string)
    requires IsJavaFile(e.fileName)
    ensures var r := ExecuteInfer(s, Some(e), Report(records), now).0;
            var f := e.fileName;
            f in r.costs && r.currentCost == Some(r.costs[f])
            && (forall g :: g != f ==> (g in r.costs <==> g in s.costs))
            && (forall g :: g != f && g in s.costs ==> r.costs[g] == s.costs[g])
            && |r.costs[f]| == |records|
  {
    var _ := ExecuteIsStartThenFinish(s, e, records, now);
  }

  /** A run only ever puts entries in front of histories, and keeps them free of adjacent repeats. */
  lemma ExecuteKeepsHistoriesWellFormed(s: InferState, editor: Option<Editor>, run: InferRun, now: string)
    requires HistoriesWellFormed(s.histories)
    ensures HistoriesWellFormed(ExecuteInfer(s, editor, run, now).0.histories)
  {
    if editor.Some? && IsJavaFile(editor.value.fileName) && run.Report? {
      var sorted := SortByLine(ToCostItems(editor.value.fileName, run.records));
      var _ := ReportStored(s, editor.value, run.records, now);
      UpdateKeepsNoAdjacentRepeats(s.histories, sorted, now);
    }
  }

  /**
   * After a successful run, the newest history entry of every method of the report has the
   * execution polynomial of that method's item, and the histories of other ids are unchanged.
   */
  lemma ExecuteHistoryHeads(s: InferState, e: Editor, records: seq<RawCostRecord>, now: string, id: string)
    requires IsJavaFile(e.fileName)
    ensures var r := ExecuteInfer(s, Some(e), Report(records), now).0;
            var sorted := SortByLine(ToCostItems(e.fileName, records));
            (HasId(sorted, id) ==> HeadMatches(r.histories, sorted[LastWithId(sorted, id)]))
            && (!HasId(sorted, id) ==> HistoryOf(r.histories, id) == HistoryOf(s.histories, id))
  {
    var started := ExecuteIsStartThenFinish(s, e, records, now);
    FinishHistoryHeads(started, e.fileName, records, now, id);
  }

  /**
   * Disabling keeps the histories, and a later run on the same file sees them: the snapshot, cost
   * and history maps after disable-then-run are those of the run on a state without snapshots or
   * cost lists.
   */
  lemma DisableThenExecute(s: InferState, editor: Option<Editor>, run: InferRun, now: string)
    ensures var r := ExecuteInfer(DisableInfer(s), editor, run, now).0;
            r.histories == ExecuteInfer(s, editor, run, now).0.histories
            && (editor.Some? ==> r.texts == map[editor.value.fileName := editor.value.text])
            && (forall f :: f in r.costs ==> editor.Some? && f == editor.value.fileName)
  {
  }

  /**
   * Every file with a cost list is a Java file with a snapshot: true after any sequence of
   * completed `executeInfer` and `disableInfer` calls, but not when a `disableInfer` comes while
   * an `executeInfer` awaits Infer (`DisableDuringRunLeavesCostsUnbacked`).
   */
  predicate CostsHaveSnapshots(s: InferState) {
    forall f :: f in s.costs ==> f in s.texts && IsJavaFile(f)
  }

  /** `executeInfer` keeps every cost list backed by a snapshot, and so does `disableInfer`. */
  lemma TransitionsKeepCostsBacked(s: InferState, editor: Option<Editor>, run: InferRun, now: string)
    requires CostsHaveSnapshots(s)
    ensures CostsHaveSnapshots(ExecuteInfer(s, editor, run, now).0)
    ensures CostsHaveSnapshots(DisableInfer(s))
    ensures CostsHaveSnapshots(Initial) && HistoriesWellFormed(Initial.histories)
  {
  }

  /** Every file with a cost list is a Java file. */
  predicate CostsAreJava(s: InferState) {
    forall f :: f in s.costs ==> IsJavaFile(f)
  }

  /**
   * Whatever the interleaving of the starts and finishes of `executeInfer` calls and of
   * `disableInfer` calls, only Java files have cost lists, and histories stay free of adjacent
   * repeats.
   */
  lemma InterleavedStepsKeepCostsJava(s: InferState, editor: Option<Editor>, f: string, run: InferRun, now: string)
    requires CostsAreJava(s) && HistoriesWellFormed(s.histories)
    ensures CostsAreJava(ExecuteStart(s, editor).0) && HistoriesWellFormed(ExecuteStart(s, editor).0.histories)
    ensures CostsAreJava(DisableInfer(s)) && HistoriesWellFormed(DisableInfer(s).histories)
    ensures IsJavaFile(f) ==> CostsAreJava(ExecuteFinish(s, f, run, now).0)
                              && HistoriesWellFormed(ExecuteFinish(s, f, run, now).0.histories)
  {
    if IsJavaFile(f) && run.Report? {
      var sorted := SortByLine(ToCostItems(f, run.records));
      UpdateKeepsNoAdjacentRepeats(s.histories, sorted, now);
    }
  }

  /**
   * A `disableInfer` while `executeInfer` awaits Infer drops the snapshot the run recorded, and the
   * run then stores its cost list anyway: the file has costs and no snapshot.
   */
  lemma DisableDuringRunLeavesCostsUnbacked(e: Editor, records: seq<RawCostRecord>, now: string)
    requires IsJavaFile(e.fileName)
    ensures var (started, file) := ExecuteStart(Initial, Some(e));
            file == Some(e.fileName)
            && var r := ExecuteFinish(DisableInfer(started), e.fileName, Report(records), now).0;
               e.fileName in r.costs && e.fileName !in r.texts && !CostsHaveSnapshots(r)
  {
  }
}
