/**
 * The state table is never spliced when an edit adds or removes lines, so the
 * loop's convergence test compares a line's new state with the state cached
 * for whatever line used to sit at that index. It can then stop while the
 * slots after it still belong to the old line numbering.
 *
 * This module exhibits that with a grammar that only tracks block comments,
 * and gives the corrected edit: shift the cached slots by the edit's line
 * delta before re-tokenizing, which restores the consistency of every line.
 */
module StaleTable {
  import opened Wrappers
  import opened Editor
  import opened Api
  import opened LineState
  import opened Incremental

  /** Inside a block comment after this line? */
  function CommentState(text: string, prev: Option<bool>): bool {
    if text == "/*" then true
    else if text == "*/" then false
    else prev.Some? && prev.value
  }

  function CommentGrammar(): Grammar<bool> {
    Grammar((text: string, prev: Option<bool>) => TokenizeLineResult([], CommentState(text, prev)))
  }

  /**
   * As written: parse `x`, an opening marker, `y`, a closing marker and `z`,
   * delete the first line, and re-tokenize the edit's new range (line 0). Line 0
   * is invalidated, line 1 then matches the state cached for the old line 1, so
   * the loop stops; but slot 2 still holds the state of the old line 2 (`y`,
   * inside the comment) while line 2 is now the closing marker.
   */
  lemma StaleSlotAfterLineDeletion(before: seq<string>, after: seq<string>)
    requires before == ["x", "/*", "y", "*/", "z"] && after == ["/*", "y", "*/", "z"]
    ensures var g := CommentGrammar();
            var t := FullParse(Some(g), before);
            var r := Reparse(Some(g), after, t, Range(Position(0, 0), Position(0, 0)));
            AllConsistent(g, before, t) && r.stop == 2 && !ConsistentAt(g, after, r.table, 2)
  {
    var g := CommentGrammar();
    CommentFullParse(before);
    var t := FullParse(Some(g), before);
    var r1 := RefreshLine(Some(g), t, TextLine(0, after[0]));
    assert r1.table == t[0 := true] && r1.invalidated;
    var r2 := RefreshLine(Some(g), r1.table, TextLine(1, after[1]));
    assert r2.table == t[0 := true] && !r2.invalidated;
    assert ReparseLoop(Some(g), after, r2.table, 2, 0, false) == Reparsed(r2.table, 2);
    assert ReparseLoop(Some(g), after, r1.table, 1, 0, true) == Reparsed(r2.table, 2);
    assert ReparseLoop(Some(g), after, t, 0, 0, false) == Reparsed(r2.table, 2);
    assert ValidateRange(Range(Position(0, 0), Position(0, 0)), after) == Range(Position(0, 0), Position(0, 0));
    var r := Reparse(Some(g), after, t, Range(Position(0, 0), Position(0, 0)));
    assert r == Reparsed(t[0 := true], 2);
    assert after[2] == "*/" && PrevState(r.table, 2) == Some(true);
    assert !ConsistentAt(g, after, r.table, 2);
  }

  /** The states a full parse of the example document caches: inside the comment after lines 1 and 2 only. */
  lemma CommentFullParse(lines: seq<string>)
    requires lines == ["x", "/*", "y", "*/", "z"]
    ensures var t := FullParse(Some(CommentGrammar()), lines);
            && AllConsistent(CommentGrammar(), lines, t)
            && t == map[0 := false, 1 := true, 2 := true, 3 := false, 4 := false]
  {
    var t := FullParse(Some(CommentGrammar()), lines);
    FullParseConsistent(Some(CommentGrammar()), lines);
    assert ConsistentAt(CommentGrammar(), lines, t, 0);
    assert ConsistentAt(CommentGrammar(), lines, t, 1);
    assert ConsistentAt(CommentGrammar(), lines, t, 2);
    assert ConsistentAt(CommentGrammar(), lines, t, 3);
    assert ConsistentAt(CommentGrammar(), lines, t, 4);
    assert t.Keys == {0, 1, 2, 3, 4};
  }

  /**
   * For line `k` of the edited document, the line of the old document whose
   * cached state it inherits: lines above the edit keep their index, the new
   * last edited line and the lines below it take the old index shifted back by
   * the line delta, and the other edited lines inherit nothing (-1).
   */
  function OldIndex(k: nat, startLine: nat, oldEndLine: nat, newEndLine: nat): int {
    if k < startLine then k
    else if newEndLine <= k then k - newEndLine + oldEndLine
    else -1
  }

  /**
   * The table renumbered for an edit that replaced lines `[startLine, oldEndLine]`
   * by lines `[startLine, newEndLine]`, restricted to the `lineCount` lines of
   * the edited document.
   */
  function SpliceTable<S>(t: StateTable<S>, startLine: nat, oldEndLine: nat, newEndLine: nat, lineCount: nat): StateTable<S>
    requires startLine <= oldEndLine && startLine <= newEndLine
  {
    map k: nat | k < lineCount && OldIndex(k, startLine, oldEndLine, newEndLine) >= 0
                 && OldIndex(k, startLine, oldEndLine, newEndLine) as nat in t ::
      t[OldIndex(k, startLine, oldEndLine, newEndLine) as nat]
  }

  /**
   * Where the renumbered table's slots come from: none beyond the document,
   * none for the edited lines before the new last one, and every other slot
   * holds what the old table held for the line it was moved from.
   */
  lemma SpliceTableShape<S>(t: StateTable<S>, startLine: nat, oldEndLine: nat, newEndLine: nat, lineCount: nat)
    requires startLine <= oldEndLine && startLine <= newEndLine
    ensures var r := SpliceTable(t, startLine, oldEndLine, newEndLine, lineCount);
            && (forall k: nat :: k in r ==> k < lineCount)
            && (forall k: nat :: k < startLine && k < lineCount ==> (k in r <==> k in t) && (k in t ==> r[k] == t[k]))
            && (forall k: nat :: startLine <= k < newEndLine ==> k !in r)
            && (forall k: nat :: newEndLine <= k < lineCount ==>
                  (k in r <==> k - newEndLine + oldEndLine in t) && (k in r ==> r[k] == t[k - newEndLine + oldEndLine]))
  {
  }

  /**
   * The corrected edit: renumber the table, then run the loop of
   * `reparsePretties` over the edit's new lines (a range already inside the
   * document, which validation leaves as it is).
   */
  function ApplyEditSpliced<S(==)>(grammar: Option<Grammar<S>>, lines: seq<string>, t: StateTable<S>,
                                   startLine: nat, oldEndLine: nat, newEndLine: nat): StateTable<S>
    requires startLine <= oldEndLine && startLine <= newEndLine < |lines|
  {
    ReparseLoop(grammar, lines, SpliceTable(t, startLine, oldEndLine, newEndLine, |lines|), startLine, newEndLine, false).table
  }

  /** The document after lines `[startLine, oldEndLine]` are replaced by `mid`. */
  function ReplaceLines(oldLines: seq<string>, startLine: nat, oldEndLine: nat, mid: seq<string>): (lines: seq<string>)
    requires startLine <= oldEndLine < |oldLines|
    ensures |lines| == |oldLines| - (oldEndLine - startLine + 1) + |mid|
  {
    oldLines[..startLine] + mid + oldLines[oldEndLine + 1..]
  }

  /** A line above the edit keeps its text, its slot and the slot before it. */
  lemma SplicedLineAbove<S>(g: Grammar<S>, oldLines: seq<string>, t: StateTable<S>, startLine: nat, oldEndLine: nat,
                            mid: seq<string>, i: nat)
    requires startLine <= oldEndLine < |oldLines| && |mid| >= 1 && i < startLine
    requires AllConsistent(g, oldLines, t)
    ensures var lines := ReplaceLines(oldLines, startLine, oldEndLine, mid);
            ConsistentAt(g, lines, SpliceTable(t, startLine, oldEndLine, startLine + |mid| - 1, |lines|), i)
  {
    var lines := ReplaceLines(oldLines, startLine, oldEndLine, mid);
    var sp := SpliceTable(t, startLine, oldEndLine, startLine + |mid| - 1, |lines|);
    SpliceTableShape(t, startLine, oldEndLine, startLine + |mid| - 1, |lines|);
    assert lines[i] == oldLines[i];
    assert ConsistentAt(g, oldLines, t, i);
    assert PrevState(sp, i) == PrevState(t, i);
  }

  /**
   * A line below the edit has the text, and its renumbered slot and the slot
   * before it hold the states, of the old line it was moved from.
   */
  lemma SplicedLineBelow<S>(g: Grammar<S>, oldLines: seq<string>, t: StateTable<S>, startLine: nat, oldEndLine: nat,
                            mid: seq<string>, i: nat)
    requires startLine <= oldEndLine < |oldLines| && |mid| >= 1
    requires startLine + |mid| - 1 < i < |ReplaceLines(oldLines, startLine, oldEndLine, mid)|
    requires AllConsistent(g, oldLines, t)
    ensures var lines := ReplaceLines(oldLines, startLine, oldEndLine, mid);
            ConsistentAt(g, lines, SpliceTable(t, startLine, oldEndLine, startLine + |mid| - 1, |lines|), i)
  {
    var lines := ReplaceLines(oldLines, startLine, oldEndLine, mid);
    var newEndLine := startLine + |mid| - 1;
    var sp := SpliceTable(t, startLine, oldEndLine, newEndLine, |lines|);
    SpliceTableShape(t, startLine, oldEndLine, newEndLine, |lines|);
    var j: nat := i - newEndLine + oldEndLine;
    assert lines[i] == oldLines[j];
    assert ConsistentAt(g, oldLines, t, j);
    assert PrevState(sp, i) == PrevState(t, j);
  }

  /** Every line outside the edit is consistent in the renumbered table. */
  lemma SplicedTableOutsideEdit<S>(g: Grammar<S>, oldLines: seq<string>, t: StateTable<S>,
                                   startLine: nat, oldEndLine: nat, mid: seq<string>, lines: seq<string>, newEndLine: nat)
    requires startLine <= oldEndLine < |oldLines| && |mid| >= 1 && newEndLine == startLine + |mid| - 1
    requires lines == ReplaceLines(oldLines, startLine, oldEndLine, mid)
    requires AllConsistent(g, oldLines, t)
    ensures forall i: nat :: i < |lines| && !(startLine <= i <= newEndLine) ==>
              ConsistentAt(g, lines, SpliceTable(t, startLine, oldEndLine, newEndLine, |lines|), i)
  {
    forall i: nat | i < |lines| && !(startLine <= i <= newEndLine)
      ensures ConsistentAt(g, lines, SpliceTable(t, startLine, oldEndLine, newEndLine, |lines|), i)
    {
      if i < startLine {
        SplicedLineAbove(g, oldLines, t, startLine, oldEndLine, mid, i);
      } else {
        SplicedLineBelow(g, oldLines, t, startLine, oldEndLine, mid, i);
      }
    }
  }

  /**
   * Replacing lines `[startLine, oldEndLine]` of a consistently parsed document
   * by `mid` and applying the corrected edit leaves every line consistent.
   */
  lemma SplicedEditRestoresConsistency<S>(g: Grammar<S>, oldLines: seq<string>, t: StateTable<S>,
                                          startLine: nat, oldEndLine: nat, mid: seq<string>, lines: seq<string>,
                                          newEndLine: nat)
    requires startLine <= oldEndLine < |oldLines| && |mid| >= 1 && newEndLine == startLine + |mid| - 1
    requires lines == ReplaceLines(oldLines, startLine, oldEndLine, mid)
    requires AllConsistent(g, oldLines, t)
    ensures newEndLine < |lines|
    ensures AllConsistent(g, lines, ApplyEditSpliced(Some(g), lines, t, startLine, oldEndLine, newEndLine))
  {
    var sp := SpliceTable(t, startLine, oldEndLine, newEndLine, |lines|);
    assert AllConsistent(g, lines, ReparseLoop(Some(g), lines, sp, startLine, newEndLine, false).table) by {
      SplicedTableOutsideEdit(g, oldLines, t, startLine, oldEndLine, mid, lines, newEndLine);
      ReparseLoopRestoresConsistency(g, lines, sp, startLine, newEndLine);
    }
  }

  /** Determinism: the corrected edit agrees line by line with a parse of the new document from scratch. */
  lemma SplicedEditMatchesFullParse<S>(g: Grammar<S>, oldLines: seq<string>, t: StateTable<S>,
                                       startLine: nat, oldEndLine: nat, mid: seq<string>, lines: seq<string>,
                                       newEndLine: nat)
    requires startLine <= oldEndLine < |oldLines| && |mid| >= 1 && newEndLine == startLine + |mid| - 1
    requires lines == ReplaceLines(oldLines, startLine, oldEndLine, mid)
    requires AllConsistent(g, oldLines, t)
    ensures newEndLine < |lines|
    ensures forall i: nat :: i < |lines| ==>
              && i in ApplyEditSpliced(Some(g), lines, t, startLine, oldEndLine, newEndLine)
              && i in FullParse(Some(g), lines)
              && ApplyEditSpliced(Some(g), lines, t, startLine, oldEndLine, newEndLine)[i] == FullParse(Some(g), lines)[i]
  {
    SplicedEditRestoresConsistency(g, oldLines, t, startLine, oldEndLine, mid, lines, newEndLine);
    AgreesWithFullParse(g, lines, ApplyEditSpliced(Some(g), lines, t, startLine, oldEndLine, newEndLine));
  }

  /**
   * Corrected: the same deletion, seen as replacing lines 0 and 1 (`x` and the
   * opening marker) by the opening marker alone, leaves every line of the new
   * document consistent.
   */
  lemma SplicedEditFixesLineDeletion(before: seq<string>, after: seq<string>)
    requires before == ["x", "/*", "y", "*/", "z"] && after == ["/*", "y", "*/", "z"]
    ensures AllConsistent(CommentGrammar(), after,
              ApplyEditSpliced(Some(CommentGrammar()), after, FullParse(Some(CommentGrammar()), before), 0, 1, 0))
  {
    var g := CommentGrammar();
    FullParseConsistent(Some(g), before);
    assert ReplaceLines(before, 0, 1, ["/*"]) == before[..0] + ["/*"] + before[2..];
    assert before[2..] == ["y", "*/", "z"];
    SplicedEditRestoresConsistency(g, before, FullParse(Some(g), before), 0, 1, ["/*"], after, 0);
  }
}
