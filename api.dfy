/**
 * The tokenizer interface the controller consumes. The grammar itself is not
 * modelled: it is any deterministic function from a line's text and the
 * previous line's rule stack (or none, for the start state) to the line's
 * tokens and the rule stack to carry to the next line. Rule stacks are values
 * of an arbitrary type `S`, compared with `==`.
 */
module Api {
  import opened Wrappers

  /** A span `[startIndex, endIndex)` of one line with its scopes, innermost last. */
  datatype Token = Token(startIndex: nat, endIndex: nat, scopes: seq<string>)

  datatype TokenizeLineResult<S> = TokenizeLineResult(tokens: seq<Token>, ruleStack: S)

  datatype Grammar<!S> = Grammar(tokenizeLine: (string, Option<S>) -> TokenizeLineResult<S>)
}
