/**
 * The cost bookkeeping of src/inferController.ts: turning the records of Infer's cost report into
 * cost items, ordering them by line, and keeping, per item id, a history of execution costs.
 */
module InferCosts {
  import opened Wrappers
  import opened Types

  // ---------------------------------------------------------------------------
  // Report records.

  /** The `hum` part of a cost in Infer's report. */
  datatype RawCost = RawCost(humPolynomial: string, humDegree: int, bigO: string)

  /** One record of `costs-report.json`, reduced to the fields the extension reads. */
  datatype RawCostRecord = RawCostRecord(procedureName: string, loc: Location, allocCost: RawCost, execCost: RawCost)

  /** `replace(/\./g, '*')`: every `.` becomes `*`, nothing else changes. */
  function DotsToStars(s: string): (r: string)
    ensures |r| == |s|
    ensures forall i :: 0 <= i < |s| ==> r[i] == (if s[i] == '.' then '*' else s[i])
  {
    if |s| == 0 then [] else [if s[0] == '.' then '*' else s[0]] + DotsToStars(s[1..])
  }

  /** The rewrite leaves no `.`, and rewriting again changes nothing. */
  lemma DotsToStarsIdempotent(s: string)
    ensures '.' !in DotsToStars(s)
    ensures DotsToStars(DotsToStars(s)) == DotsToStars(s)
  {
    var r := DotsToStars(s);
    assert forall i :: 0 <= i < |r| ==> r[i] != '.';
  }

  /** `*` back to `.`: the inverse of the rewrite on polynomials that held no `*`. */
  function StarsToDots(s: string): (r: string)
    ensures |r| == |s|
    ensures forall i :: 0 <= i < |s| ==> r[i] == (if s[i] == '*' then '.' else s[i])
  {
    if |s| == 0 then [] else [if s[0] == '*' then '.' else s[0]] + StarsToDots(s[1..])
  }

  /** The raw polynomial can be read back from the stored one when it held no `*`. */
  lemma DotsToStarsInvertible(s: string)
    requires '*' !in s
    ensures StarsToDots(DotsToStars(s)) == s
  {
    var r := StarsToDots(DotsToStars(s));
    assert forall i :: 0 <= i < |s| ==> r[i] == s[i];
  }

  /** `Cost` as stored: the polynomial rewritten, degree and big-O as reported. */
  function ToCost(raw: RawCost): (c: Cost)
    ensures c.polynomial == DotsToStars(raw.humPolynomial)
    ensures c.degree == raw.humDegree && c.bigO == raw.bigO
  {
    Cost(DotsToStars(raw.humPolynomial), raw.humDegree, raw.bigO)
  }

  /** The id of a procedure of the file at `path`: `${path}:${procedure_name}`. */
  function ItemId(path: string, procedureName: string): (id: string)
    ensures |id| == |path| + 1 + |procedureName|
    ensures id[..|path|] == path && id[|path|] == ':' && id[|path| + 1..] == procedureName
  {
    path + ":" + procedureName
  }

  /** With a procedure name free of `:`, the id tells its procedure name: the text after the last `:`. */
  lemma ItemIdLastColon(path: string, procedureName: string)
    requires ':' !in procedureName
    ensures var id := ItemId(path, procedureName);
            id[|path|] == ':' && forall k :: |path| < k < |id| ==> id[k] != ':'
  {
    var id := ItemId(path, procedureName);
    forall k | |path| < k < |id|
      ensures id[k] != ':'
    {
      assert id[k] == id[|path| + 1..][k - |path| - 1];
    }
  }

  /** Two procedures of one file get the same id only when they have the same name. */
  lemma ItemIdInjective(path: string, a: string, b: string)
    ensures ItemId(path, a) == ItemId(path, b) <==> a == b
  {
    if ItemId(path, a) == ItemId(path, b) {
      assert a == ItemId(path, a)[|path| + 1..];
    }
  }

  /** The cost item built from one report record of the file at `path` (src/inferController.ts:88-105). */
  function ToCostItem(path: string, raw: RawCostRecord): (item: InferCostItem)
    ensures item.id == ItemId(path, raw.procedureName) && item.methodName == raw.procedureName
    ensures item.timestamp.None? && item.loc == raw.loc
    ensures item.allocCost == ToCost(raw.allocCost) && item.execCost == ToCost(raw.execCost)
  {
    InferCostItem(ItemId(path, raw.procedureName), raw.procedureName, None, raw.loc, ToCost(raw.allocCost), ToCost(raw.execCost))
  }

  /** The items of a whole report, in report order. */
  function ToCostItems(path: string, raws: seq<RawCostRecord>): (items: seq<InferCostItem>)
    ensures |items| == |raws|
    ensures forall i :: 0 <= i < |raws| ==> items[i] == ToCostItem(path, raws[i])
  {
    if |raws| == 0 then [] else [ToCostItem(path, raws[0])] + ToCostItems(path, raws[1..])
  }

  // ---------------------------------------------------------------------------
  // Ordering by line.

  /** `loc.lnum` never decreases along `s`. */
  predicate SortedByLine(s: seq<InferCostItem>) {
    forall i, j :: 0 <= i < j < |s| ==> s[i].loc.lnum <= s[j].loc.lnum
  }

  /** The items of `s` on line `l`, in their order in `s`. */
  function OnLine(s: seq<InferCostItem>, l: int): (r: seq<InferCostItem>)
    ensures forall x :: x in r ==> x in s && x.loc.lnum == l
    ensures |r| <= |s|
  {
    if |s| == 0 then []
    else if s[|s| - 1].loc.lnum == l then OnLine(s[..|s| - 1], l) + [s[|s| - 1]]
    else OnLine(s[..|s| - 1], l)
  }

  /** Where `x` goes in a sorted sequence: after every item whose line is at most its own. */
  function InsertionPoint(x: InferCostItem, s: seq<InferCostItem>): (k: nat)
    ensures k <= |s|
    ensures forall i :: 0 <= i < k ==> s[i].loc.lnum <= x.loc.lnum
    ensures k < |s| ==> x.loc.lnum < s[k].loc.lnum
  {
    if |s| == 0 || x.loc.lnum < s[0].loc.lnum then 0 else 1 + InsertionPoint(x, s[1..])
  }

  /** `x` placed at its insertion point. */
  function Insert(x: InferCostItem, s: seq<InferCostItem>): (r: seq<InferCostItem>)
    ensures |r| == |s| + 1
    ensures x in r
  {
    var k := InsertionPoint(x, s);
    s[..k] + [x] + s[k..]
  }

  /** Insertion adds exactly `x`. */
  lemma InsertMultiset(x: InferCostItem, s: seq<InferCostItem>)
    ensures multiset(Insert(x, s)) == multiset(s) + multiset{x}
  {
    var k := InsertionPoint(x, s);
    assert s == s[..k] + s[k..];
  }

  /** Insertion keeps a sorted sequence sorted. */
  lemma InsertSorted(x: InferCostItem, s: seq<InferCostItem>)
    requires SortedByLine(s)
    ensures SortedByLine(Insert(x, s))
  {
    var k := InsertionPoint(x, s);
    var r := Insert(x, s);
    assert forall i :: 0 <= i < k ==> r[i] == s[i];
    assert r[k] == x;
    assert forall i :: k < i < |r| ==> r[i] == s[i - 1];
    forall i, j | 0 <= i < j < |r|
      ensures r[i].loc.lnum <= r[j].loc.lnum
    {
      if j < k {
      } else if j == k {
      } else if i < k {
      } else if i == k {
        assert x.loc.lnum < s[k].loc.lnum;
      } else {
      }
    }
  }

  /**
   * `inferCost.sort((a, b) => a.loc.lnum - b.loc.lnum)`: the stable sort the comparator asks for
   * (`Array.prototype.sort` is stable), written as an insertion sort.
   */
  function SortByLine(s: seq<InferCostItem>): (r: seq<InferCostItem>)
    ensures SortedByLine(r)
    ensures multiset(r) == multiset(s)
    ensures |r| == |s|
  {
    if |s| == 0 then []
    else
      LastSplit(s);
      var front := SortByLine(s[..|s| - 1]);
      InsertMultiset(s[|s| - 1], front);
      InsertSorted(s[|s| - 1], front);
      Insert(s[|s| - 1], front)
  }

  /** A non-empty sequence is its front and its last element. */
  lemma LastSplit(s: seq<InferCostItem>)
    requires |s| > 0
    ensures multiset(s) == multiset(s[..|s| - 1]) + multiset{s[|s| - 1]}
  {
    assert s == s[..|s| - 1] + [s[|s| - 1]];
  }

  /** `OnLine` of a concatenation. */
  lemma {:induction false} OnLineAppend(a: seq<InferCostItem>, b: seq<InferCostItem>, l: int)
    ensures OnLine(a + b, l) == OnLine(a, l) + OnLine(b, l)
    decreases |b|
  {
    if |b| == 0 {
      assert a + b == a;
    } else {
      assert (a + b)[..|a + b| - 1] == a + b[..|b| - 1];
      OnLineAppend(a, b[..|b| - 1], l);
    }
  }

  /** A sorted sequence that starts after line `k` holds nothing on line `k`. */
  lemma {:induction false} OnLineLater(s: seq<InferCostItem>, k: int)
    requires forall i :: 0 <= i < |s| ==> k < s[i].loc.lnum
    ensures OnLine(s, k) == []
    decreases |s|
  {
    if |s| > 0 {
      OnLineLater(s[..|s| - 1], k);
    }
  }

  /** Inserting into a sorted sequence puts `x` after every item of its line. */
  lemma InsertOnLine(x: InferCostItem, s: seq<InferCostItem>, l: int)
    requires SortedByLine(s)
    ensures OnLine(Insert(x, s), l) == OnLine(s, l) + (if x.loc.lnum == l then [x] else [])
  {
    var k := InsertionPoint(x, s);
    if x.loc.lnum == l {
      NothingOnLineAfterPoint(x, s);
    }
    SplitOnLine(s, k, x, l);
  }

  /** `OnLine` of `s` with `x` put at position `k`, when nothing from `k` on shares the line of `x`. */
  lemma SplitOnLine(s: seq<InferCostItem>, k: nat, x: InferCostItem, l: int)
    requires k <= |s|
    requires x.loc.lnum == l ==> OnLine(s[k..], l) == []
    ensures OnLine(s[..k] + [x] + s[k..], l) == OnLine(s, l) + (if x.loc.lnum == l then [x] else [])
  {
    var a, b := s[..k], s[k..];
    assert s == a + b;
    OnLineAppend(a, b, l);
    OnLineAppend(a + [x], b, l);
    OnLineAppend(a, [x], l);
    assert [x][..0] == [];
  }

  /** In a sorted sequence, nothing after the insertion point of `x` shares its line. */
  lemma NothingOnLineAfterPoint(x: InferCostItem, s: seq<InferCostItem>)
    requires SortedByLine(s)
    ensures OnLine(s[InsertionPoint(x, s)..], x.loc.lnum) == []
  {
    var k := InsertionPoint(x, s);
    var b := s[k..];
    forall i | 0 <= i < |b|
      ensures x.loc.lnum < b[i].loc.lnum
    {
      assert b[i] == s[k + i] && s[k].loc.lnum <= s[k + i].loc.lnum;
    }
    OnLineLater(b, x.loc.lnum);
  }

  /** The sort is stable: the items of each line keep their report order. */
  lemma {:induction false} SortByLineStable(s: seq<InferCostItem>, l: int)
    ensures OnLine(SortByLine(s), l) == OnLine(s, l)
    decreases |s|
  {
    if |s| > 0 {
      var front := s[..|s| - 1];
      SortByLineStable(front, l);
      InsertOnLine(s[|s| - 1], SortByLine(front), l);
    }
  }

  // ---------------------------------------------------------------------------
  // Cost histories.

  /** No two neighbouring entries of a history have the same execution polynomial. */
  predicate NoAdjacentRepeats(history: seq<InferCostItem>) {
    forall i :: 0 <= i < |history| - 1 ==> history[i].execCost.polynomial != history[i + 1].execCost.polynomial
  }

  /** Every history has no adjacent repeats. */
  predicate HistoriesWellFormed(histories: map<string, seq<InferCostItem>>) {
    forall id :: id in histories ==> NoAdjacentRepeats(histories[id])
  }

  /** The history stored for `id`, or the empty one. */
  function HistoryOf(histories: map<string, seq<InferCostItem>>, id: string): seq<InferCostItem> {
    if id in histories then histories[id] else []
  }

  /** What `updateInferCostHistory` leaves behind: the histories and the cost list, with stamps. */
  datatype HistoryUpdate = HistoryUpdate(histories: map<string, seq<InferCostItem>>, costs: seq<InferCostItem>)

  /**
   * One iteration of the loop: the item, stamped with `now`, goes in front of its history unless
   * the history's newest entry has the same execution polynomial. The stamp is made on the very
   * object the cost list holds, so the cost list carries it too.
   */
  function UpdateOne(histories: map<string, seq<InferCostItem>>, item: InferCostItem, now: string)
    : (r: (map<string, seq<InferCostItem>>, InferCostItem))
    ensures r.1.(timestamp := item.timestamp) == item
    ensures HeadMatches(r.0, item)
    ensures forall id :: id != item.id ==> HistoryOf(r.0, id) == HistoryOf(histories, id)
    ensures r.0 == histories || (r.1.timestamp == Some(now) && r.0 == histories[item.id := [r.1] + HistoryOf(histories, item.id)])
  {
    var history := HistoryOf(histories, item.id);
    if |history| > 0 && history[0].execCost.polynomial == item.execCost.polynomial then (histories, item)
    else
      var stamped := item.(timestamp := Some(now));
      (histories[item.id := [stamped] + history], stamped)
  }

  /** `updateInferCostHistory` over the whole cost list, first item first. */
  function UpdateInferCostHistory(histories: map<string, seq<InferCostItem>>, costs: seq<InferCostItem>, now: string)
    : (r: HistoryUpdate)
    ensures |r.costs| == |costs|
    ensures forall i :: 0 <= i < |costs| ==> r.costs[i].(timestamp := costs[i].timestamp) == costs[i]
    ensures forall i :: 0 <= i < |costs| ==> r.costs[i].timestamp == costs[i].timestamp || r.costs[i].timestamp == Some(now)
    decreases |costs|
  {
    if |costs| == 0 then HistoryUpdate(histories, [])
    else
      var before := UpdateInferCostHistory(histories, costs[..|costs| - 1], now);
      var (h, item) := UpdateOne(before.histories, costs[|costs| - 1], now);
      HistoryUpdate(h, before.costs + [item])
  }

  /** The update keeps every history free of adjacent repeats. */
  lemma {:induction false} UpdateKeepsNoAdjacentRepeats(histories: map<string, seq<InferCostItem>>, costs: seq<InferCostItem>, now: string)
    requires HistoriesWellFormed(histories)
    ensures HistoriesWellFormed(UpdateInferCostHistory(histories, costs, now).histories)
    decreases |costs|
  {
    if |costs| > 0 {
      var before := UpdateInferCostHistory(histories, costs[..|costs| - 1], now);
      UpdateKeepsNoAdjacentRepeats(histories, costs[..|costs| - 1], now);
      var item := costs[|costs| - 1];
      var history := HistoryOf(before.histories, item.id);
      var after := UpdateInferCostHistory(histories, costs, now).histories;
      if !(|history| > 0 && history[0].execCost.polynomial == item.execCost.polynomial) {
        var h := [item.(timestamp := Some(now))] + history;
        assert NoAdjacentRepeats(h) by {
          forall i | 0 <= i < |h| - 1
            ensures h[i].execCost.polynomial != h[i + 1].execCost.polynomial
          {
            if i > 0 {
              assert h[i] == history[i - 1] && h[i + 1] == history[i];
            }
          }
        }
        assert after == before.histories[item.id := h];
      }
    }
  }

  /** Whether some item of `costs` has id `id`. */
  predicate HasId(costs: seq<InferCostItem>, id: string) {
    exists i :: 0 <= i < |costs| && costs[i].id == id
  }

  /** The index of the last item of `costs` with id `id`. */
  function LastWithId(costs: seq<InferCostItem>, id: string): (k: nat)
    requires HasId(costs, id)
    ensures k < |costs| && costs[k].id == id
    ensures forall i :: k < i < |costs| ==> costs[i].id != id
    decreases |costs|
  {
    if costs[|costs| - 1].id == id then |costs| - 1
    else
      assert HasId(costs[..|costs| - 1], id) by {
        var i :| 0 <= i < |costs| && costs[i].id == id;
        assert costs[..|costs| - 1][i] == costs[i];
      }
      LastWithId(costs[..|costs| - 1], id)
  }

  /** One step leaves the histories of other ids alone. */
  lemma UpdateOneOther(histories: map<string, seq<InferCostItem>>, item: InferCostItem, now: string, id: string)
    requires item.id != id
    ensures var after := UpdateOne(histories, item, now).0;
            HistoryOf(after, id) == HistoryOf(histories, id) && (id in after <==> id in histories)
  {
  }

  /** After one step, the item's history starts with the item's polynomial. */
  lemma UpdateOneHead(histories: map<string, seq<InferCostItem>>, item: InferCostItem, now: string)
    ensures HeadMatches(UpdateOne(histories, item, now).0, item)
  {
  }

  /** Ids not in the cost list keep their history. */
  lemma {:induction false} UpdateKeepsOthers(histories: map<string, seq<InferCostItem>>, costs: seq<InferCostItem>, now: string, id: string)
    requires !HasId(costs, id)
    ensures var after := UpdateInferCostHistory(histories, costs, now).histories;
            HistoryOf(after, id) == HistoryOf(histories, id) && (id in after <==> id in histories)
    decreases |costs|
  {
    if |costs| > 0 {
      var front := costs[..|costs| - 1];
      assert !HasId(front, id) by {
        forall i | 0 <= i < |front|
          ensures front[i].id != id
        {
          assert front[i] == costs[i];
        }
      }
      UpdateKeepsOthers(histories, front, now, id);
      UpdateOneOther(UpdateInferCostHistory(histories, front, now).histories, costs[|costs| - 1], now, id);
    }
  }

  /**
   * After the update, the newest entry of the history of every id in the cost list has the
   * execution polynomial of the last item with that id.
   */
  lemma {:induction false} UpdateHead(histories: map<string, seq<InferCostItem>>, costs: seq<InferCostItem>, now: string, id: string)
    requires HasId(costs, id)
    ensures HeadMatches(UpdateInferCostHistory(histories, costs, now).histories, costs[LastWithId(costs, id)])
    decreases |costs|
  {
    var front := costs[..|costs| - 1];
    var last := costs[|costs| - 1];
    var before := UpdateInferCostHistory(histories, front, now).histories;
    if last.id == id {
      UpdateOneHead(before, last, now);
    } else {
      assert HasId(front, id) by {
        var i :| 0 <= i < |costs| && costs[i].id == id;
        assert front[i] == costs[i];
      }
      UpdateHead(histories, front, now, id);
      LastWithIdFront(costs, id);
      UpdateOneOther(before, last, now, id);
    }
  }

  lemma LastWithIdFront(costs: seq<InferCostItem>, id: string)
    requires HasId(costs, id) && costs[|costs| - 1].id != id && HasId(costs[..|costs| - 1], id)
    ensures costs[LastWithId(costs, id)] == costs[..|costs| - 1][LastWithId(costs[..|costs| - 1], id)]
  {
  }

  /** The update only ever puts entries in front: the old history is what follows them. */
  lemma {:induction false} UpdateOnlyPrepends(histories: map<string, seq<InferCostItem>>, costs: seq<InferCostItem>, now: string, id: string)
    ensures PrependedTo(HistoryOf(UpdateInferCostHistory(histories, costs, now).histories, id), HistoryOf(histories, id), id, now)
    decreases |costs|
  {
    if |costs| > 0 {
      var front := costs[..|costs| - 1];
      UpdateOnlyPrepends(histories, front, now, id);
      var mid := UpdateInferCostHistory(histories, front, now).histories;
      PrependStep(mid, costs[|costs| - 1], now, id, HistoryOf(histories, id));
    }
  }

  /** `before` followed by entries of `id` stamped `now`: what a history becomes after some steps. */
  predicate PrependedTo(after: seq<InferCostItem>, before: seq<InferCostItem>, id: string, now: string) {
    |before| <= |after| && after[|after| - |before|..] == before
    && forall i :: 0 <= i < |after| - |before| ==> after[i].timestamp == Some(now) && after[i].id == id
  }

  /** One more step keeps a history of the form `PrependedTo` describes. */
  lemma PrependStep(h: map<string, seq<InferCostItem>>, item: InferCostItem, now: string, id: string, before: seq<InferCostItem>)
    requires PrependedTo(HistoryOf(h, id), before, id, now)
    ensures PrependedTo(HistoryOf(UpdateOne(h, item, now).0, id), before, id, now)
  {
    var cur := HistoryOf(h, id);
    var after := HistoryOf(UpdateOne(h, item, now).0, id);
    if after != cur {
      assert after == [item.(timestamp := Some(now))] + cur;
      assert after[|after| - |before|..] == cur[|cur| - |before|..];
      forall i | 0 <= i < |after| - |before|
        ensures after[i].timestamp == Some(now) && after[i].id == id
      {
        if i > 0 {
          assert after[i] == cur[i - 1];
        }
      }
    }
  }

  /** An item goes into its history exactly when the cost list carries the stamp for it. */
  lemma StampMarksPrepended(histories: map<string, seq<InferCostItem>>, item: InferCostItem, now: string)
    requires item.timestamp != Some(now)
    ensures var (after, stamped) := UpdateOne(histories, item, now);
            stamped.timestamp == Some(now) <==> after != histories
  {
    var history := HistoryOf(histories, item.id);
    var (after, stamped) := UpdateOne(histories, item, now);
    if stamped.timestamp == Some(now) {
      assert item.id in after && after[item.id] == [stamped] + history;
      assert item.id !in histories || histories[item.id] != after[item.id];
    }
  }

  /** No two items of `costs` share an id. */
  predicate DistinctIds(costs: seq<InferCostItem>) {
    forall i, j :: 0 <= i < j < |costs| ==> costs[i].id != costs[j].id
  }

  /** With distinct ids, running the update a second time over the same list adds nothing. */
  lemma UpdateTwiceAddsNothing(histories: map<string, seq<InferCostItem>>, costs: seq<InferCostItem>, now: string, later: string)
    requires DistinctIds(costs)
    ensures var once := UpdateInferCostHistory(histories, costs, now).histories;
            UpdateInferCostHistory(once, costs, later).histories == once
  {
    var once := UpdateInferCostHistory(histories, costs, now).histories;
    forall i | 0 <= i < |costs|
      ensures HeadMatches(once, costs[i])
    {
      assert HasId(costs, costs[i].id);
      UpdateHead(histories, costs, now, costs[i].id);
      assert LastWithId(costs, costs[i].id) == i;
    }
    NothingToAdd(once, costs, later);
  }

  /** The newest entry of `item`'s history has `item`'s execution polynomial. */
  predicate HeadMatches(histories: map<string, seq<InferCostItem>>, item: InferCostItem) {
    item.id in histories && |histories[item.id]| > 0
    && histories[item.id][0].execCost.polynomial == item.execCost.polynomial
  }

  /** When every item's history already starts with its polynomial, the update adds nothing. */
  lemma {:induction false} NothingToAdd(histories: map<string, seq<InferCostItem>>, costs: seq<InferCostItem>, now: string)
    requires forall i :: 0 <= i < |costs| ==> HeadMatches(histories, costs[i])
    ensures UpdateInferCostHistory(histories, costs, now).histories == histories
    decreases |costs|
  {
    if |costs| > 0 {
      NothingToAdd(histories, costs[..|costs| - 1], now);
    }
  }
}
