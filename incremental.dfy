/**
 * The forward re-tokenization loop of `reparsePretties` as a function on
 * values, and what it guarantees: which lines it visits, which slots it
 * rewrites, when it stops, and that it leaves the table consistent.
 */
module Incremental {
  import opened Wrappers
  import opened Editor
  import opened Api
  import opened LineState

  /** The table the loop leaves and the value `lineIdx` has when it exits. */
  datatype Reparsed<S> = Reparsed(table: StateTable<S>, stop: nat)

  /**
   * One run of the loop from `lineIdx`, with `invalidated` the flag carried from
   * the previous line: a line is processed while `lineIdx <= endLine`, or while
   * the previous line was invalidated and `lineIdx` is still a line of the document.
   */
  function ReparseLoop<S(==)>(grammar: Option<Grammar<S>>, lines: seq<string>, t: StateTable<S>,
                              lineIdx: nat, endLine: nat, invalidated: bool): (r: Reparsed<S>)
    requires lineIdx <= |lines| && endLine < |lines|
    // the loop ends inside the document and never before the end of the range
    ensures lineIdx <= r.stop <= |lines| && endLine < r.stop
    decreases |lines| - lineIdx
  {
    if lineIdx <= endLine || (invalidated && lineIdx < |lines|) then
      var res := RefreshLine(grammar, t, TextLine(lineIdx, lines[lineIdx]));
      ReparseLoop(grammar, lines, res.table, lineIdx + 1, endLine, res.invalidated)
    else
      Reparsed(t, lineIdx)
  }

  /**
   * Only the visited slots `[lineIdx, stop)` can change, and with a grammar each
   * of them is written; without one the table is left alone.
   */
  lemma {:induction false} ReparseLoopFrame<S>(grammar: Option<Grammar<S>>, lines: seq<string>, t: StateTable<S>,
                                               lineIdx: nat, endLine: nat, invalidated: bool)
    requires lineIdx <= |lines| && endLine < |lines|
    ensures var r := ReparseLoop(grammar, lines, t, lineIdx, endLine, invalidated);
            && (forall k: nat :: (k < lineIdx || r.stop <= k) ==>
                  (k in r.table <==> k in t) && (k in t ==> r.table[k] == t[k]))
            && (grammar.Some? ==> forall k: nat :: lineIdx <= k < r.stop ==> k in r.table)
            && (grammar.None? ==> r.table == t)
    decreases |lines| - lineIdx
  {
    if lineIdx <= endLine || (invalidated && lineIdx < |lines|) {
      var res := RefreshLine(grammar, t, TextLine(lineIdx, lines[lineIdx]));
      ReparseLoopFrame(grammar, lines, res.table, lineIdx + 1, endLine, res.invalidated);
    }
  }

  /** Without a grammar the loop visits exactly the lines of the range and nothing more. */
  lemma {:induction false} ReparseLoopNoGrammar<S>(lines: seq<string>, t: StateTable<S>,
                                                   lineIdx: nat, endLine: nat)
    requires lineIdx <= |lines| && endLine < |lines|
    ensures var r := ReparseLoop(None, lines, t, lineIdx, endLine, false);
            r.table == t && r.stop == if lineIdx <= endLine then endLine + 1 else lineIdx
    decreases |lines| - lineIdx
  {
    if lineIdx <= endLine {
      ReparseLoopNoGrammar(lines, t, lineIdx + 1, endLine);
    }
  }

  /** Every visited line ends up holding the state of tokenizing it from the slot before it. */
  lemma {:induction false} ReparseLoopConsistent<S>(g: Grammar<S>, lines: seq<string>, t: StateTable<S>,
                                                    lineIdx: nat, endLine: nat, invalidated: bool)
    requires lineIdx <= |lines| && endLine < |lines|
    ensures var r := ReparseLoop(Some(g), lines, t, lineIdx, endLine, invalidated);
            forall i: nat :: lineIdx <= i < r.stop ==> ConsistentAt(g, lines, r.table, i)
    decreases |lines| - lineIdx
  {
    if lineIdx <= endLine || (invalidated && lineIdx < |lines|) {
      var res := RefreshLine(Some(g), t, TextLine(lineIdx, lines[lineIdx]));
      var r := ReparseLoop(Some(g), lines, res.table, lineIdx + 1, endLine, res.invalidated);
      assert r == ReparseLoop(Some(g), lines, t, lineIdx, endLine, invalidated);
      ReparseLoopConsistent(g, lines, res.table, lineIdx + 1, endLine, res.invalidated);
      ReparseLoopFrame(Some(g), lines, res.table, lineIdx + 1, endLine, res.invalidated);
      assert lineIdx in r.table && r.table[lineIdx] == res.table[lineIdx];
      if lineIdx >= 1 {
        assert (lineIdx - 1 in r.table <==> lineIdx - 1 in res.table) && (lineIdx - 1 in t <==> lineIdx - 1 in res.table);
      }
      assert PrevState(r.table, lineIdx) == PrevState(t, lineIdx);
    }
  }

  /**
   * When the loop stops: it runs at all exactly when its condition holds on
   * entry, and when it stops before the end of the document after running,
   * the last line it processed kept its cached state.
   */
  lemma {:induction false} ReparseLoopStop<S>(g: Grammar<S>, lines: seq<string>, t: StateTable<S>,
                                              lineIdx: nat, endLine: nat, invalidated: bool)
    requires lineIdx <= |lines| && endLine < |lines|
    ensures var r := ReparseLoop(Some(g), lines, t, lineIdx, endLine, invalidated);
            && (r.stop == lineIdx <==> !(lineIdx <= endLine || (invalidated && lineIdx < |lines|)))
            && (lineIdx < r.stop < |lines| ==> !ChangedSlot(t, r.table, r.stop - 1))
    decreases |lines| - lineIdx
  {
    if lineIdx <= endLine || (invalidated && lineIdx < |lines|) {
      var res := RefreshLine(Some(g), t, TextLine(lineIdx, lines[lineIdx]));
      var r := ReparseLoop(Some(g), lines, res.table, lineIdx + 1, endLine, res.invalidated);
      assert r == ReparseLoop(Some(g), lines, t, lineIdx, endLine, invalidated);
      ReparseLoopStop(g, lines, res.table, lineIdx + 1, endLine, res.invalidated);
      if r.stop == lineIdx + 1 {
        if r.stop < |lines| {
          assert !res.invalidated;
        }
      } else if r.stop < |lines| {
        assert r.stop - 1 != lineIdx;
      }
    }
  }

  /** Past the end of the range the loop went on only because the line before was invalidated. */
  lemma {:induction false} ReparseLoopInvalidated<S>(g: Grammar<S>, lines: seq<string>, t: StateTable<S>,
                                                     lineIdx: nat, endLine: nat, invalidated: bool)
    requires lineIdx <= |lines| && endLine < |lines|
    ensures var r := ReparseLoop(Some(g), lines, t, lineIdx, endLine, invalidated);
            forall j: nat :: lineIdx <= j && j + 1 < r.stop && endLine < j + 1 ==> ChangedSlot(t, r.table, j)
    decreases |lines| - lineIdx
  {
    if lineIdx <= endLine || (invalidated && lineIdx < |lines|) {
      var res := RefreshLine(Some(g), t, TextLine(lineIdx, lines[lineIdx]));
      var r := ReparseLoop(Some(g), lines, res.table, lineIdx + 1, endLine, res.invalidated);
      assert r == ReparseLoop(Some(g), lines, t, lineIdx, endLine, invalidated);
      ReparseLoopInvalidated(g, lines, res.table, lineIdx + 1, endLine, res.invalidated);
      ReparseLoopStop(g, lines, res.table, lineIdx + 1, endLine, res.invalidated);
      ReparseLoopFrame(Some(g), lines, res.table, lineIdx + 1, endLine, res.invalidated);
      forall j: nat | lineIdx <= j && j + 1 < r.stop && endLine < j + 1
        ensures ChangedSlot(t, r.table, j)
      {
        if j == lineIdx {
          assert res.invalidated;
        } else {
          assert ChangedSlot(res.table, r.table, j);
        }
      }
    }
  }

  /** `reparsePretties(range)`: the loop over the validated range, starting with no invalidation. */
  function Reparse<S(==)>(grammar: Option<Grammar<S>>, lines: seq<string>, t: StateTable<S>, range: Range): (r: Reparsed<S>)
    requires |lines| >= 1
    // every line of the clamped range is processed, and the loop ends inside the document
    ensures var v := ValidateRange(range, lines);
            v.start.line <= r.stop <= |lines| && v.end.line < r.stop
    // only the processed slots can change, and with a grammar each of them is written
    ensures var v := ValidateRange(range, lines);
            forall k: nat :: (k < v.start.line || r.stop <= k) ==>
              (k in r.table <==> k in t) && (k in t ==> r.table[k] == t[k])
    ensures var v := ValidateRange(range, lines);
            grammar.Some? ==> forall k: nat :: v.start.line <= k < r.stop ==> k in r.table
    ensures grammar.None? ==> r.table == t
  {
    var v := ValidateRange(range, lines);
    ReparseLoopFrame(grammar, lines, t, v.start.line, v.end.line, false);
    ReparseLoop(grammar, lines, t, v.start.line, v.end.line, false)
  }

  /**
   * Incremental correctness: when every slot outside the validated range was
   * consistent, the loop leaves every line of the document consistent. The
   * lines it rewrites are consistent by construction, and it only stops early
   * at a line whose new state equals the cached one, so the cached slots after
   * it were computed from the state they now follow.
   */
  lemma ReparseRestoresConsistency<S>(g: Grammar<S>, lines: seq<string>, t: StateTable<S>, range: Range)
    requires |lines| >= 1
    requires var v := ValidateRange(range, lines);
             forall i: nat :: i < |lines| && !(v.start.line <= i <= v.end.line) ==> ConsistentAt(g, lines, t, i)
    ensures AllConsistent(g, lines, Reparse(Some(g), lines, t, range).table)
  {
    var v := ValidateRange(range, lines);
    ReparseLoopRestoresConsistency(g, lines, t, v.start.line, v.end.line);
  }

  /**
   * An edit that keeps the number of lines and only changes lines inside the
   * validated range it reports: re-tokenizing that range after a consistent
   * parse of the old text leaves the new text consistently parsed.
   */
  lemma InPlaceEditRestoresConsistency<S>(g: Grammar<S>, oldLines: seq<string>, lines: seq<string>,
                                          t: StateTable<S>, range: Range)
    requires |lines| == |oldLines| >= 1
    requires var v := ValidateRange(range, lines);
             forall i :: 0 <= i < |lines| && !(v.start.line <= i <= v.end.line) ==> lines[i] == oldLines[i]
    requires AllConsistent(g, oldLines, t)
    ensures AllConsistent(g, lines, Reparse(Some(g), lines, t, range).table)
  {
    var v := ValidateRange(range, lines);
    forall i: nat | i < |lines| && !(v.start.line <= i <= v.end.line)
      ensures ConsistentAt(g, lines, t, i)
    {
      assert ConsistentAt(g, oldLines, t, i);
    }
    ReparseRestoresConsistency(g, lines, t, range);
  }

  /** The same for a run of the loop over lines `[startLine, endLine]` of the document. */
  lemma ReparseLoopRestoresConsistency<S>(g: Grammar<S>, lines: seq<string>, t: StateTable<S>, startLine: nat, endLine: nat)
    requires startLine < |lines| && endLine < |lines|
    requires forall i: nat :: i < |lines| && !(startLine <= i <= endLine) ==> ConsistentAt(g, lines, t, i)
    ensures AllConsistent(g, lines, ReparseLoop(Some(g), lines, t, startLine, endLine, false).table)
  {
    ReparseLoopKeepsConsistency(g, lines, t, startLine, endLine);
  }

  /**
   * The loop never breaks a line that was consistent, and every line of
   * `[startLine, endLine]` is consistent after it: the set of inconsistent lines
   * only shrinks.
   */
  lemma ReparseLoopKeepsConsistency<S>(g: Grammar<S>, lines: seq<string>, t: StateTable<S>, startLine: nat, endLine: nat)
    requires startLine < |lines| && endLine < |lines|
    ensures forall i: nat :: i < |lines| && (ConsistentAt(g, lines, t, i) || startLine <= i <= endLine) ==>
              ConsistentAt(g, lines, ReparseLoop(Some(g), lines, t, startLine, endLine, false).table, i)
  {
    var s, e := startLine, endLine;
    var r := ReparseLoop(Some(g), lines, t, s, e, false);
    ReparseLoopFrame(Some(g), lines, t, s, e, false);
    ReparseLoopConsistent(g, lines, t, s, e, false);
    ReparseLoopStop(g, lines, t, s, e, false);
    forall i: nat | i < |lines| && (ConsistentAt(g, lines, t, i) || s <= i <= e)
      ensures ConsistentAt(g, lines, r.table, i)
    {
      if i < s {
        assert PrevState(r.table, i) == PrevState(t, i);
      } else if r.stop <= i {
        if r.stop < i || r.stop == s {
          assert PrevState(r.table, i) == PrevState(t, i);
        } else {
          assert !ChangedSlot(t, r.table, i - 1);
          assert PrevState(r.table, i) == PrevState(t, i);
        }
      }
    }
  }

  /** `reparsePretties` never breaks a consistent line and leaves its validated range consistent. */
  lemma ReparseKeepsConsistency<S>(g: Grammar<S>, lines: seq<string>, t: StateTable<S>, range: Range)
    requires |lines| >= 1
    ensures var v := ValidateRange(range, lines);
            forall i: nat :: i < |lines| && (ConsistentAt(g, lines, t, i) || v.start.line <= i <= v.end.line) ==>
              ConsistentAt(g, lines, Reparse(Some(g), lines, t, range).table, i)
  {
    var v := ValidateRange(range, lines);
    ReparseLoopKeepsConsistency(g, lines, t, v.start.line, v.end.line);
  }

  /** On a table that is already consistent, re-tokenizing from `lineIdx` changes nothing. */
  lemma {:induction false} ReparseLoopOnConsistent<S>(g: Grammar<S>, lines: seq<string>, t: StateTable<S>,
                                                      lineIdx: nat, endLine: nat)
    requires lineIdx <= |lines| && endLine < |lines|
    requires AllConsistent(g, lines, t)
    ensures ReparseLoop(Some(g), lines, t, lineIdx, endLine, false).table == t
    decreases |lines| - lineIdx
  {
    if lineIdx <= endLine {
      var res := RefreshLine(Some(g), t, TextLine(lineIdx, lines[lineIdx]));
      assert ConsistentAt(g, lines, t, lineIdx);
      assert res.table == t;
      ReparseLoopOnConsistent(g, lines, t, lineIdx + 1, endLine);
    }
  }

  /**
   * Re-tokenizing any range of a consistent table leaves it as it was; in
   * particular re-running the whole-document parse on its own result does.
   */
  lemma ReparseConsistentIsIdentity<S>(g: Grammar<S>, lines: seq<string>, t: StateTable<S>, range: Range)
    requires |lines| >= 1 && AllConsistent(g, lines, t)
    ensures Reparse(Some(g), lines, t, range).table == t
  {
    var v := ValidateRange(range, lines);
    ReparseLoopOnConsistent(g, lines, t, v.start.line, v.end.line);
  }

  /**
   * Convergence bound: an edit confined to one line whose new end state equals
   * the cached one re-tokenizes that line only and leaves the table unchanged.
   */
  lemma SingleLineConvergence<S>(g: Grammar<S>, lines: seq<string>, t: StateTable<S>, range: Range)
    requires range.start.line == range.end.line < |lines|
    requires ConsistentAt(g, lines, t, range.start.line)
    ensures var r := Reparse(Some(g), lines, t, range);
            r.stop == range.start.line + 1 && r.table == t
  {
    var l := range.start.line;
    var r := Reparse(Some(g), lines, t, range);
    ReparseLoopFrame(Some(g), lines, t, l, l, false);
    ReparseLoopConsistent(g, lines, t, l, l, false);
    ReparseLoopStop(g, lines, t, l, l, false);
    assert PrevState(r.table, l) == PrevState(t, l);
    assert r.table[l] == t[l];
    if r.stop > l + 1 {
      assert false;
    }
    assert r.table.Keys == t.Keys;
  }

  /** The range `(0, 0)-(lineCount, 0)` the whole-document parse is asked for. */
  function DocumentRange(lines: seq<string>): Range {
    Range(Position(0, 0), Position(|lines|, 0))
  }

  /** The table the constructor and `refresh` build: the loop over the whole document from an empty table. */
  function FullParse<S(==)>(grammar: Option<Grammar<S>>, lines: seq<string>): (r: StateTable<S>)
    requires |lines| >= 1
    // with a grammar every line has a slot and nothing lies beyond the document; without one nothing is stored
    ensures grammar.Some? ==> forall k: nat :: k in r <==> k < |lines|
    ensures grammar.None? ==> r == map[]
  {
    Reparse(grammar, lines, map[], DocumentRange(lines)).table
  }

  /**
   * After the whole-document parse every line has a slot, there is no slot
   * beyond the document, and every slot is consistent; without a grammar the
   * table stays empty.
   */
  lemma FullParseConsistent<S>(grammar: Option<Grammar<S>>, lines: seq<string>)
    requires |lines| >= 1
    ensures var t := FullParse(grammar, lines);
            && (grammar.Some? ==> (forall k: nat :: k in t <==> k < |lines|) && AllConsistent(grammar.value, lines, t))
            && (grammar.None? ==> t == map[])
  {
    var t := FullParse(grammar, lines);
    ReparseLoopFrame(grammar, lines, map[], 0, |lines| - 1, false);
    if grammar.Some? {
      ReparseRestoresConsistency(grammar.value, lines, map[], DocumentRange(lines));
    }
  }

  /** Two tables consistent with the same document hold the same state on every line. */
  lemma {:induction false} ConsistentUnique<S>(g: Grammar<S>, lines: seq<string>, t1: StateTable<S>, t2: StateTable<S>, i: nat)
    requires i < |lines|
    requires AllConsistent(g, lines, t1) && AllConsistent(g, lines, t2)
    ensures i in t1 && i in t2 && t1[i] == t2[i]
    decreases i
  {
    assert ConsistentAt(g, lines, t1, i) && ConsistentAt(g, lines, t2, i);
    if i > 0 {
      ConsistentUnique(g, lines, t1, t2, i - 1);
      assert PrevState(t1, i) == PrevState(t2, i);
    }
  }

  /**
   * Determinism: any consistent table agrees on every line with the table the
   * whole-document parse builds from scratch.
   */
  lemma AgreesWithFullParse<S>(g: Grammar<S>, lines: seq<string>, t: StateTable<S>)
    requires |lines| >= 1 && AllConsistent(g, lines, t)
    ensures forall i: nat :: i < |lines| ==> i in t && i in FullParse(Some(g), lines) && t[i] == FullParse(Some(g), lines)[i]
  {
    FullParseConsistent(Some(g), lines);
    forall i: nat | i < |lines|
      ensures i in t && i in FullParse(Some(g), lines) && t[i] == FullParse(Some(g), lines)[i]
    {
      ConsistentUnique(g, lines, t, FullParse(Some(g), lines), i);
    }
  }
}
