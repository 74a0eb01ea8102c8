/**
 * The parts of an editor document the extension reads: its text, its lines split at '\n',
 * `positionAt(offset).line`, `lineAt(line).text`, and positions as (line, character) pairs.
 */
module TextDocument {
  import opened JsText

  /** A position; the extension can build one with character -1, so both parts are plain integers. */
  datatype Position = Position(line: int, character: int)

  datatype Range = Range(start: Position, end: Position)

  /** `positionAt(offset).line`: the number of '\n' before `offset` (a '\n' belongs to the line it ends). */
  function LineNumber(t: string, offset: nat): nat
    requires offset <= |t|
  {
    if offset == 0 then 0
    else LineNumber(t, offset - 1) + (if t[offset - 1] == '\n' then 1 else 0)
  }

  /** The offset where the line holding `offset` begins. */
  function LineBegin(t: string, offset: nat): (b: nat)
    requires offset <= |t|
    ensures b <= offset
    ensures b == 0 || t[b - 1] == '\n'
    ensures forall i :: b <= i < offset ==> t[i] != '\n'
  {
    if offset == 0 || t[offset - 1] == '\n' then offset else LineBegin(t, offset - 1)
  }

  /** The offset where the line holding `offset` ends: its '\n', or the end of the text. */
  function LineFinish(t: string, offset: nat): (f: nat)
    requires offset <= |t|
    ensures offset <= f <= |t|
    ensures f == |t| || t[f] == '\n'
    ensures forall i :: offset <= i < f ==> t[i] != '\n'
  {
    FindChar(t, '\n', offset)
  }

  /** The text of line `line`, counting lines from the one that begins at offset `from`. */
  function LineTextFrom(t: string, from: nat, line: nat): string
    requires from <= |t|
    decreases |t| - from
  {
    var i := FindChar(t, '\n', from);
    if line == 0 then t[from..i]
    else if i == |t| then []
    else LineTextFrom(t, i + 1, line - 1)
  }

  /**
   * `lineAt(line).text`: line number `line` of the text split at every '\n' (the empty text
   * past the last line, where the editor would refuse the call).
   */
  function LineText(t: string, line: nat): string {
    LineTextFrom(t, 0, line)
  }

  /** Offsets on one line share their line number. */
  lemma {:induction false} LineNumberWithinLine(t: string, a: nat, b: nat)
    requires a <= b <= |t|
    requires forall i :: a <= i < b ==> t[i] != '\n'
    ensures LineNumber(t, b) == LineNumber(t, a)
    decreases b
  {
    if a < b {
      LineNumberWithinLine(t, a, b - 1);
    }
  }

  /** Offsets on one line share the offset where it begins. */
  lemma {:induction false} LineBeginWithinLine(t: string, a: nat, b: nat)
    requires a <= b <= |t|
    requires a == 0 || t[a - 1] == '\n'
    requires forall i :: a <= i < b ==> t[i] != '\n'
    ensures LineBegin(t, b) == a
    decreases b
  {
    if a < b {
      LineBeginWithinLine(t, a, b - 1);
    }
  }

  /** Line numbers never decrease along the text. */
  lemma {:induction false} LineNumberMonotone(t: string, a: nat, b: nat)
    requires a <= b <= |t|
    ensures LineNumber(t, a) <= LineNumber(t, b)
    decreases b
  {
    if a < b {
      LineNumberMonotone(t, a, b - 1);
    }
  }

  /** Line `k` counted from the line that begins at `from` is the line around an offset `k` lines further. */
  lemma {:induction false} LineAtOffsetFrom(t: string, from: nat, offset: nat, k: nat)
    requires from <= offset <= |t|
    requires from == 0 || t[from - 1] == '\n'
    requires LineNumber(t, offset) == LineNumber(t, from) + k
    ensures LineTextFrom(t, from, k) == t[LineBegin(t, offset)..LineFinish(t, offset)]
    decreases |t| - from
  {
    var i := FindChar(t, '\n', from);
    if offset <= i {
      OnFirstLine(t, from, offset);
      LineTextFromFirst(t, from);
    } else {
      NextLineNumber(t, from);
      LineNumberMonotone(t, i + 1, offset);
      LineAtOffsetFrom(t, i + 1, offset, k - 1);
      LineTextFromNext(t, from, k);
    }
  }

  /** An offset on the line that begins at `from` has its line number, begin and end. */
  lemma OnFirstLine(t: string, from: nat, offset: nat)
    requires from <= offset <= |t| && offset <= FindChar(t, '\n', from)
    requires from == 0 || t[from - 1] == '\n'
    ensures LineNumber(t, offset) == LineNumber(t, from)
    ensures LineBegin(t, offset) == from && LineFinish(t, offset) == FindChar(t, '\n', from)
  {
    LineNumberWithinLine(t, from, offset);
    LineBeginWithinLine(t, from, offset);
    FindCharIs(t, '\n', offset, FindChar(t, '\n', from));
  }

  /** The line after the one that begins at `from` has the next number. */
  lemma NextLineNumber(t: string, from: nat)
    requires from <= |t| && FindChar(t, '\n', from) < |t|
    ensures LineNumber(t, FindChar(t, '\n', from) + 1) == LineNumber(t, from) + 1
  {
    LineNumberWithinLine(t, from, FindChar(t, '\n', from));
  }

  /** Line 0 counted from `from` runs from `from` to the next '\n'. */
  lemma LineTextFromFirst(t: string, from: nat)
    requires from <= |t|
    ensures LineTextFrom(t, from, 0) == t[from..FindChar(t, '\n', from)]
  {
  }

  /** Line `k > 0` counted from `from` is line `k - 1` counted from the next line. */
  lemma LineTextFromNext(t: string, from: nat, k: nat)
    requires from <= |t| && FindChar(t, '\n', from) < |t| && k > 0
    ensures LineTextFrom(t, from, k) == LineTextFrom(t, FindChar(t, '\n', from) + 1, k - 1)
  {
  }

  /** `lineAt(positionAt(offset).line).text` is the text between the '\n's around `offset`. */
  lemma LineAtOffset(t: string, offset: nat)
    requires offset <= |t|
    ensures LineText(t, LineNumber(t, offset)) == t[LineBegin(t, offset)..LineFinish(t, offset)]
  {
    LineAtOffsetFrom(t, 0, offset, LineNumber(t, offset));
  }
}
