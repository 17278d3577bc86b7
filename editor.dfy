/**
 * The shapes of the editor's API that the controller touches: positions,
 * ranges, lines of a document, content changes and hover results, and the
 * clamping that `TextDocument.validateRange` performs.
 */
module Editor {

  /** A zero-based line and character offset; the editor refuses negative ones. */
  datatype Position = Position(line: nat, character: nat)

  datatype Range = Range(start: Position, end: Position)

  /** What `TextDocument.lineAt` hands out: the line's index and its text. */
  datatype TextLine = TextLine(lineNumber: nat, text: string)

  /** One entry of a change event: the replaced range and the replacement text. */
  datatype Change = Change(range: Range, text: string)

  /** A hover: the scope names shown and the range they cover. */
  datatype Hover = Hover(contents: seq<string>, range: Range)

  /** `p.isAfter(q)`: `p` comes strictly later in the document than `q`. */
  predicate IsAfter(p: Position, q: Position) {
    p.line > q.line || (p.line == q.line && p.character > q.character)
  }

  /**
   * The editor's `validatePosition`: a line past the end goes to the end of the
   * last line, a character past the end of its line goes to the end of that line.
   */
  function ValidatePosition(p: Position, lines: seq<string>): (v: Position)
    requires |lines| >= 1
    ensures v.line < |lines| && v.character <= |lines[v.line]|
    ensures v.line == if p.line < |lines| then p.line else |lines| - 1
    ensures p.line < |lines| && p.character <= |lines[p.line]| ==> v == p
  {
    if p.line >= |lines| then Position(|lines| - 1, |lines[|lines| - 1]|)
    else if p.character > |lines[p.line]| then Position(p.line, |lines[p.line]|)
    else p
  }

  /** The editor's `validateRange`: both ends validated. */
  function ValidateRange(r: Range, lines: seq<string>): (v: Range)
    requires |lines| >= 1
    ensures v.start.line < |lines| && v.end.line < |lines|
    ensures v.start.line == if r.start.line < |lines| then r.start.line else |lines| - 1
    ensures v.end.line == if r.end.line < |lines| then r.end.line else |lines| - 1
    // clamping keeps an ordered range ordered
    ensures !IsAfter(r.start, r.end) ==> !IsAfter(v.start, v.end)
  {
    Range(ValidatePosition(r.start, lines), ValidatePosition(r.end, lines))
  }
}
