/**
 * The per-line state table (`grammarState`) and the single-line refresh
 * (`refreshTokensOnLine`) as functions on values.
 */
module LineState {
  import opened Wrappers
  import opened Editor
  import opened Api

  /**
   * `grammarState`: a sparse array from line index to the rule stack left after
   * tokenizing that line. A missing key is an `undefined` entry.
   */
  type StateTable<S> = map<nat, S>

  /**
   * The state line `line` is tokenized from: slot `line - 1`, or `null` (the
   * start state) for line 0 and for a slot that holds nothing.
   */
  function PrevState<S>(t: StateTable<S>, line: nat): Option<S> {
    if line >= 1 && line - 1 in t then Some(t[line - 1]) else None
  }

  /** The rule stack a grammar leaves after `text` when started from `prev`. */
  function StateAfter<S>(g: Grammar<S>, text: string, prev: Option<S>): S {
    g.tokenizeLine(text, prev).ruleStack
  }

  /** Slot `i` holds the state of tokenizing line `i` from slot `i - 1`. */
  ghost predicate ConsistentAt<S>(g: Grammar<S>, lines: seq<string>, t: StateTable<S>, i: nat)
    requires i < |lines|
  {
    i in t && t[i] == StateAfter(g, lines[i], PrevState(t, i))
  }

  /** Every line of the document has a slot consistent with the slot before it. */
  ghost predicate AllConsistent<S>(g: Grammar<S>, lines: seq<string>, t: StateTable<S>) {
    forall i: nat :: i < |lines| ==> ConsistentAt(g, lines, t, i)
  }

  /** Slot `j` of `t'` is not the state `t` had cached there (or nothing was cached). */
  predicate ChangedSlot<S(==)>(t: StateTable<S>, t': StateTable<S>, j: nat) {
    j !in t || j !in t' || t[j] != t'[j]
  }

  /** What `refreshTokensOnLine` returns, with the table it leaves. */
  datatype Refreshed<S> = Refreshed(tokens: seq<Token>, invalidated: bool, table: StateTable<S>)

  /**
   * `refreshTokensOnLine`: without a grammar nothing happens; otherwise the line
   * is tokenized from the previous slot, its own slot is overwritten with the new
   * rule stack, and it is invalidated when that slot was empty or held a
   * different state.
   */
  function RefreshLine<S(==)>(grammar: Option<Grammar<S>>, t: StateTable<S>, line: TextLine): (r: Refreshed<S>)
    ensures grammar.None? ==> r == Refreshed([], false, t)
    ensures grammar.Some? ==>
      var res := grammar.value.tokenizeLine(line.text, PrevState(t, line.lineNumber));
      r.tokens == res.tokens && line.lineNumber in r.table && r.table[line.lineNumber] == res.ruleStack
    // a slot that was empty always counts as invalidated
    ensures r.invalidated <==> grammar.Some? && ChangedSlot(t, r.table, line.lineNumber)
    // no other slot is touched
    ensures forall k: nat :: k != line.lineNumber ==> (k in r.table <==> k in t) && (k in t ==> r.table[k] == t[k])
  {
    match grammar
    case None => Refreshed([], false, t)
    case Some(g) =>
      var res := g.tokenizeLine(line.text, PrevState(t, line.lineNumber));
      var invalidated := line.lineNumber !in t || res.ruleStack != t[line.lineNumber];
      Refreshed(res.tokens, invalidated, t[line.lineNumber := res.ruleStack])
  }

  /**
   * Refreshing the same line twice in a row: the second call finds its own
   * result cached, so it invalidates nothing and leaves the table as it was.
   */
  lemma RefreshLineTwice<S>(grammar: Option<Grammar<S>>, t: StateTable<S>, line: TextLine)
    ensures var once := RefreshLine(grammar, t, line);
            var twice := RefreshLine(grammar, once.table, line);
            !twice.invalidated && twice.table == once.table && twice.tokens == once.tokens
  {
    var once := RefreshLine(grammar, t, line);
    assert PrevState(once.table, line.lineNumber) == PrevState(t, line.lineNumber);
  }
}
