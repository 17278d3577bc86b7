/**
 * `DocumentController`: owns one document's state table, builds it with a
 * whole-document parse, re-tokenizes after each batch of changes, rebuilds it
 * on `refresh`, and answers hover queries by re-tokenizing the hovered line.
 */
module Document {
  import opened Wrappers
  import opened Editor
  import opened Api
  import opened LineState
  import opened Changes
  import opened Incremental

  /** Token `tok` covers column `character`. */
  predicate ContainsColumn(tok: Token, character: nat) {
    tok.startIndex <= character < tok.endIndex
  }

  /** Index `k` is the first token that covers `character`. */
  ghost predicate IsFirstContaining(tokens: seq<Token>, character: nat, k: nat) {
    k < |tokens| && ContainsColumn(tokens[k], character)
    && forall j :: 0 <= j < k ==> !ContainsColumn(tokens[j], character)
  }

  /** The scan of the hover provider: the first token at or after `from` that covers `character`. */
  function FirstContaining(tokens: seq<Token>, character: nat, from: nat): (r: Option<nat>)
    requires from <= |tokens|
    ensures r.Some? ==> from <= r.value < |tokens| && ContainsColumn(tokens[r.value], character)
                        && forall j :: from <= j < r.value ==> !ContainsColumn(tokens[j], character)
    ensures r.None? ==> forall j :: from <= j < |tokens| ==> !ContainsColumn(tokens[j], character)
    decreases |tokens| - from
  {
    if from == |tokens| then None
    else if ContainsColumn(tokens[from], character) then Some(from)
    else FirstContaining(tokens, character, from + 1)
  }

  /** The hover for token `tok` of line `lineNumber`: its scopes and its span on that line. */
  function TokenHover(tok: Token, lineNumber: nat): Hover {
    Hover(tok.scopes, Range(Position(lineNumber, tok.startIndex), Position(lineNumber, tok.endIndex)))
  }

  /**
   * The hover lookup: tokenize the line from the previous slot (or the start
   * state) and report the first token covering the column, with its scopes and
   * its span on that line; nothing when no token covers it, or when there is no
   * grammar to tokenize with.
   */
  function HoverAt<S>(grammar: Option<Grammar<S>>, t: StateTable<S>, line: TextLine, character: nat): (r: Option<Hover>)
    ensures grammar.None? ==> r.None?
    ensures grammar.Some? ==>
      var tokens := grammar.value.tokenizeLine(line.text, PrevState(t, line.lineNumber)).tokens;
      && (r.None? <==> forall j :: 0 <= j < |tokens| ==> !ContainsColumn(tokens[j], character))
      && (r.Some? ==> exists k: nat :: IsFirstContaining(tokens, character, k) && r.value == TokenHover(tokens[k], line.lineNumber))
    // a hover always lies on the hovered line and covers the hovered column
    ensures r.Some? ==> r.value.range.start.line == r.value.range.end.line == line.lineNumber
                        && r.value.range.start.character <= character < r.value.range.end.character
  {
    match grammar
    case None => None
    case Some(g) =>
      var tokens := g.tokenizeLine(line.text, PrevState(t, line.lineNumber)).tokens;
      match FirstContaining(tokens, character, 0)
      case None => None
      case Some(k) =>
        assert IsFirstContaining(tokens, character, k);
        Some(TokenHover(tokens[k], line.lineNumber))
  }

  /**
   * The loop of `applyChanges` over an already sorted list: each change's new
   * range is re-tokenized; a change whose range cannot be computed (the
   * exception the loop catches) is skipped and the loop goes on.
   */
  function ApplyEdits<S(==)>(grammar: Option<Grammar<S>>, lines: seq<string>, t: StateTable<S>,
                             changes: seq<Change>, editRangeOf: Change -> Option<Range>): (r: StateTable<S>)
    requires |lines| >= 1
    // slots are only ever overwritten, never removed
    ensures forall k: nat :: k in t ==> k in r
    // nothing is stored beyond the document, and what was stored there stays as it was
    ensures forall k: nat :: k in r && k !in t ==> k < |lines|
    ensures forall k: nat :: |lines| <= k ==> (k in r <==> k in t) && (k in t ==> r[k] == t[k])
    ensures grammar.None? ==> r == t
    decreases |changes|
  {
    if changes == [] then t
    else
      var t' := match editRangeOf(changes[0])
                case Some(editRange) => Reparse(grammar, lines, t, editRange).table
                case None => t;
      ApplyEdits(grammar, lines, t', changes[1..], editRangeOf)
  }

  /** The changes whose new range can be computed, in their order. */
  function Handled(changes: seq<Change>, editRangeOf: Change -> Option<Range>): (r: seq<Change>)
    ensures forall c :: c in r <==> c in changes && editRangeOf(c).Some?
    ensures |r| <= |changes|
  {
    if changes == [] then []
    else if editRangeOf(changes[0]).Some? then [changes[0]] + Handled(changes[1..], editRangeOf)
    else Handled(changes[1..], editRangeOf)
  }

  /**
   * A change that fails does not stop the others: applying the list is the same
   * as applying only the changes that succeed, in the same order.
   */
  lemma {:induction false} ApplyEditsSkipsFailures<S>(grammar: Option<Grammar<S>>, lines: seq<string>, t: StateTable<S>,
                                                      changes: seq<Change>, editRangeOf: Change -> Option<Range>)
    requires |lines| >= 1
    ensures ApplyEdits(grammar, lines, t, changes, editRangeOf)
         == ApplyEdits(grammar, lines, t, Handled(changes, editRangeOf), editRangeOf)
    decreases |changes|
  {
    if changes != [] {
      var t' := match editRangeOf(changes[0])
                case Some(editRange) => Reparse(grammar, lines, t, editRange).table
                case None => t;
      ApplyEditsSkipsFailures(grammar, lines, t', changes[1..], editRangeOf);
      if editRangeOf(changes[0]).Some? {
        var h := Handled(changes, editRangeOf);
        assert h[0] == changes[0] && h[1..] == Handled(changes[1..], editRangeOf);
      }
    }
  }

  /** Edits that leave the text as it was leave a consistent table as it was. */
  lemma {:induction false} ApplyEditsOnConsistent<S>(g: Grammar<S>, lines: seq<string>, t: StateTable<S>,
                                                     changes: seq<Change>, editRangeOf: Change -> Option<Range>)
    requires |lines| >= 1 && AllConsistent(g, lines, t)
    ensures ApplyEdits(Some(g), lines, t, changes, editRangeOf) == t
    decreases |changes|
  {
    if changes != [] {
      if editRangeOf(changes[0]).Some? {
        ReparseConsistentIsIdentity(g, lines, t, editRangeOf(changes[0]).value);
      }
      ApplyEditsOnConsistent(g, lines, t, changes[1..], editRangeOf);
    }
  }

  /** Line `i` lies in the validated new range of some change of the list whose range can be computed. */
  ghost predicate Covered(lines: seq<string>, changes: seq<Change>, editRangeOf: Change -> Option<Range>, i: nat)
    requires |lines| >= 1
  {
    exists c :: c in changes && editRangeOf(c).Some?
                && ValidateRange(editRangeOf(c).value, lines).start.line <= i <= ValidateRange(editRangeOf(c).value, lines).end.line
  }

  /**
   * Handling a list of changes leaves the table consistent when every line that
   * was not consistent lies in the new range of one of the changes handled.
   */
  lemma {:induction false} ApplyEditsRestoresConsistency<S>(g: Grammar<S>, lines: seq<string>, t: StateTable<S>,
                                                            changes: seq<Change>, editRangeOf: Change -> Option<Range>)
    requires |lines| >= 1
    requires forall i: nat :: i < |lines| ==> ConsistentAt(g, lines, t, i) || Covered(lines, changes, editRangeOf, i)
    ensures AllConsistent(g, lines, ApplyEdits(Some(g), lines, t, changes, editRangeOf))
    decreases |changes|
  {
    if changes == [] {
      forall i: nat | i < |lines| ensures ConsistentAt(g, lines, t, i) {
        assert !Covered(lines, changes, editRangeOf, i);
      }
    } else {
      var t' := match editRangeOf(changes[0])
                case Some(editRange) => Reparse(Some(g), lines, t, editRange).table
                case None => t;
      if editRangeOf(changes[0]).Some? {
        ReparseKeepsConsistency(g, lines, t, editRangeOf(changes[0]).value);
      }
      forall i: nat | i < |lines| ensures ConsistentAt(g, lines, t', i) || Covered(lines, changes[1..], editRangeOf, i) {
        if !ConsistentAt(g, lines, t, i) {
          var c :| c in changes && editRangeOf(c).Some?
                   && ValidateRange(editRangeOf(c).value, lines).start.line <= i <= ValidateRange(editRangeOf(c).value, lines).end.line;
          if c != changes[0] {
            assert changes == [changes[0]] + changes[1..];
            assert c in changes[1..];
          }
        }
      }
      ApplyEditsRestoresConsistency(g, lines, t', changes[1..], editRangeOf);
    }
  }

  /**
   * A change event that keeps the number of lines, on a table consistent with
   * the old text: when every line whose text changed lies in the new range of a
   * change whose range can be computed, `applyChanges` leaves the table
   * consistent with the new text.
   */
  lemma InPlaceEventRestoresConsistency<S>(g: Grammar<S>, oldLines: seq<string>, lines: seq<string>, t: StateTable<S>,
                                           changes: seq<Change>, editRangeOf: Change -> Option<Range>)
    requires |lines| == |oldLines| >= 1
    requires AllConsistent(g, oldLines, t)
    requires forall i: nat :: i < |lines| && lines[i] != oldLines[i] ==> Covered(lines, changes, editRangeOf, i)
    ensures AllConsistent(g, lines, ApplyEdits(Some(g), lines, t, SortChanges(changes), editRangeOf))
  {
    var sorted := SortChanges(changes);
    forall i: nat | i < |lines| ensures ConsistentAt(g, lines, t, i) || Covered(lines, sorted, editRangeOf, i) {
      if lines[i] != oldLines[i] {
        var c :| c in changes && editRangeOf(c).Some?
                 && ValidateRange(editRangeOf(c).value, lines).start.line <= i <= ValidateRange(editRangeOf(c).value, lines).end.line;
        assert c in multiset(sorted);
      } else {
        assert ConsistentAt(g, oldLines, t, i);
      }
    }
    ApplyEditsRestoresConsistency(g, lines, t, sorted, editRangeOf);
  }

  class DocumentController<S(==)> {
    /** The state for each line. */
    var grammarState: StateTable<S>
    const grammar: Option<Grammar<S>>
    /** The text of the document, one entry per line; the editor updates it before notifying. */
    var lines: seq<string>

    /** An editor document always has at least one line. */
    ghost predicate Valid()
      reads this
    {
      |lines| >= 1
    }

    /** Takes the document and grammar and parses the whole document. */
    constructor (doc: seq<string>, textMateGrammar: Option<Grammar<S>>)
      requires |doc| >= 1
      ensures Valid() && lines == doc && grammar == textMateGrammar
      ensures grammarState == FullParse(grammar, lines)
      ensures grammar.Some? ==> AllConsistent(grammar.value, lines, grammarState)
    {
      lines := doc;
      grammar := textMateGrammar;
      grammarState := map[];
      new;
      ReparsePretties(DocumentRange(lines));
      FullParseConsistent(grammar, lines);
    }

    /**
     * `refreshTokensOnLine`: the tokens of `line` and whether its end state
     * differs from the cached one; only the line's own slot is written.
     */
    method RefreshTokensOnLine(line: TextLine) returns (tokens: seq<Token>, invalidated: bool)
      modifies this`grammarState
      ensures var r := RefreshLine(grammar, old(grammarState), line);
              tokens == r.tokens && invalidated == r.invalidated && grammarState == r.table
    {
      if grammar.None? {
        return [], false;
      }
      var prevState := PrevState(grammarState, line.lineNumber);
      var lineTokens := grammar.value.tokenizeLine(line.text, prevState);
      invalidated := line.lineNumber !in grammarState || lineTokens.ruleStack != grammarState[line.lineNumber];
      grammarState := grammarState[line.lineNumber := lineTokens.ruleStack];
      tokens := lineTokens.tokens;
    }

    /**
     * `reparsePretties`: re-tokenizes the validated range line by line, and goes
     * on past its end while the last line was invalidated and lines remain.
     */
    method ReparsePretties(range: Range)
      requires Valid()
      modifies this`grammarState
      ensures grammarState == Reparse(grammar, lines, old(grammarState), range).table
    {
      var validated := ValidateRange(range, lines);
      var invalidatedTokenState := false;
      var lineCount := |lines|;
      var lineIdx := validated.start.line;
      while lineIdx <= validated.end.line || (invalidatedTokenState && lineIdx < lineCount)
        invariant lineIdx <= lineCount
        invariant ReparseLoop(grammar, lines, grammarState, lineIdx, validated.end.line, invalidatedTokenState)
               == ReparseLoop(grammar, lines, old(grammarState), validated.start.line, validated.end.line, false)
        decreases lineCount - lineIdx
      {
        var line := TextLine(lineIdx, lines[lineIdx]);
        var tokens, invalidated := RefreshTokensOnLine(line);
        invalidatedTokenState := invalidated;
        lineIdx := lineIdx + 1;
      }
    }

    /**
     * `applyChanges`: sorts the changes bottom to top and re-tokenizes each
     * one's new range; `editRangeOf` stands for the range computation, whose
     * failure is caught per change.
     */
    method ApplyChanges(changes: seq<Change>, editRangeOf: Change -> Option<Range>)
      requires Valid()
      modifies this`grammarState
      ensures grammarState == ApplyEdits(grammar, lines, old(grammarState), SortChanges(changes), editRangeOf)
    {
      var sortedChanges := SortChanges(changes);
      for i := 0 to |sortedChanges|
        invariant ApplyEdits(grammar, lines, grammarState, sortedChanges[i..], editRangeOf)
               == ApplyEdits(grammar, lines, old(grammarState), sortedChanges, editRangeOf)
      {
        assert sortedChanges[i..][1..] == sortedChanges[i + 1..];
        match editRangeOf(sortedChanges[i]) {
          case Some(editRange) => ReparsePretties(editRange);
          case None =>
        }
      }
    }

    /**
     * A change notification for this document: the editor has already replaced
     * the text with `newText`; the controller then applies the changes.
     */
    method OnChangeDocument(newText: seq<string>, contentChanges: seq<Change>, editRangeOf: Change -> Option<Range>)
      requires |newText| >= 1
      modifies this`lines, this`grammarState
      ensures Valid() && lines == newText
      ensures grammarState == ApplyEdits(grammar, lines, old(grammarState), SortChanges(contentChanges), editRangeOf)
    {
      lines := newText;
      ApplyChanges(contentChanges, editRangeOf);
    }

    /** `refresh`: empties the table and parses the whole document again. */
    method Refresh()
      requires Valid()
      modifies this`grammarState
      ensures grammarState == FullParse(grammar, lines)
      ensures grammar.Some? ==> AllConsistent(grammar.value, lines, grammarState)
    {
      grammarState := map[];
      ReparsePretties(DocumentRange(lines));
      FullParseConsistent(grammar, lines);
    }

    /**
     * The hover provider for position `pos` of this document (the editor only
     * asks for positions inside it); it reads the table and changes nothing.
     */
    function ProvideHover(pos: Position): (r: Option<Hover>)
      reads this
      requires Valid() && pos.line < |lines|
      ensures grammar.None? ==> r.None?
      // the hovered line is tokenized from the slot cached for the line above it
      ensures grammar.Some? ==>
        var tokens := grammar.value.tokenizeLine(lines[pos.line], PrevState(grammarState, pos.line)).tokens;
        && (r.None? <==> forall j :: 0 <= j < |tokens| ==> !ContainsColumn(tokens[j], pos.character))
        && (r.Some? ==> exists k: nat :: IsFirstContaining(tokens, pos.character, k) && r.value == TokenHover(tokens[k], pos.line))
      ensures r.Some? ==> r.value.range.start.line == r.value.range.end.line == pos.line
                          && r.value.range.start.character <= pos.character < r.value.range.end.character
    {
      HoverAt(grammar, grammarState, TextLine(pos.line, lines[pos.line]), pos.character)
    }
  }
}
