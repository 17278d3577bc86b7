/**
 * The ordering `applyChanges` imposes on a change list: descending by start
 * position, so that the edits lower in the document are handled first. The
 * comparator never answers "equal", so the order of two changes with the same
 * start is left to the sort; this model fixes one such order and promises
 * nothing about it.
 */
module Changes {
  import opened Editor

  /** No change starts after a change listed before it. */
  ghost predicate Descending(cs: seq<Change>) {
    forall i, j :: 0 <= i < j < |cs| ==> !IsAfter(cs[j].range.start, cs[i].range.start)
  }

  /** Puts `c` into a descending list, before the first change that does not start after it. */
  function InsertChange(c: Change, sorted: seq<Change>): (r: seq<Change>)
    requires Descending(sorted)
    ensures multiset(r) == multiset(sorted) + multiset{c}
    ensures Descending(r)
    decreases |sorted|
  {
    if sorted == [] then
      DescendingCons(c, sorted);
      [c]
    else if !IsAfter(sorted[0].range.start, c.range.start) then
      HeadIsLatest(sorted);
      assert sorted == [sorted[0]] + sorted[1..];
      DescendingCons(c, sorted);
      [c] + sorted
    else
      var rest := InsertChange(c, sorted[1..]);
      HeadIsLatest(sorted);
      assert forall x :: x in rest ==> x in multiset(sorted[1..]) + multiset{c};
      DescendingCons(sorted[0], rest);
      assert sorted == [sorted[0]] + sorted[1..];
      [sorted[0]] + rest
  }

  /** A change that starts no earlier than every change of a descending list can head it. */
  lemma DescendingCons(h: Change, rest: seq<Change>)
    requires Descending(rest)
    requires forall x :: x in rest ==> !IsAfter(x.range.start, h.range.start)
    ensures Descending([h] + rest)
  {
    forall i, j | 0 <= i < j < |[h] + rest|
      ensures !IsAfter(([h] + rest)[j].range.start, ([h] + rest)[i].range.start)
    {
      if i == 0 {
        assert ([h] + rest)[j] == rest[j - 1];
      }
    }
  }

  /** The head of a descending list starts no earlier than any other change in it. */
  lemma HeadIsLatest(sorted: seq<Change>)
    requires Descending(sorted) && sorted != []
    ensures forall x :: x in sorted[1..] ==> !IsAfter(x.range.start, sorted[0].range.start)
  {
    forall x | x in sorted[1..] ensures !IsAfter(x.range.start, sorted[0].range.start) {
      var k :| 0 <= k < |sorted[1..]| && sorted[1..][k] == x;
      assert sorted[k + 1] == x;
    }
  }

  /** `changes.sort(...)`: the same changes, descending by start position. */
  function SortChanges(changes: seq<Change>): (r: seq<Change>)
    ensures multiset(r) == multiset(changes)
    ensures Descending(r)
  {
    if changes == [] then []
    else
      assert changes == [changes[0]] + changes[1..];
      InsertChange(changes[0], SortChanges(changes[1..]))
  }
}
