/** The `orderBy: { createdAt: "desc" }` ordering: newest rows first. */
module Ordering {
  import opened Records
  import opened Pagination

  /** Every row is at least as new as every row after it. */
  predicate NewestFirst(s: seq<ApproveList>) {
    forall i, j :: 0 <= i < j < |s| ==> s[i].createdAt >= s[j].createdAt
  }

  /** Places `x` in a newest-first sequence before every row that is not
      newer than it. */
  function Insert(x: ApproveList, s: seq<ApproveList>): (r: seq<ApproveList>)
    requires NewestFirst(s)
    ensures NewestFirst(r)
    ensures multiset(r) == multiset(s) + multiset{x}
    ensures |r| > 0 && (r[0] == x || (|s| > 0 && r[0] == s[0]))
  {
    if |s| == 0 then [x]
    else if x.createdAt >= s[0].createdAt then [x] + s
    else
      var rest := Insert(x, s[1..]);
      assert s == [s[0]] + s[1..];
      [s[0]] + rest
  }

  /** The rows of `s` ordered newest first; rows created at the same instant
      keep their storage order. */
  function SortNewestFirst(s: seq<ApproveList>): (r: seq<ApproveList>)
    ensures NewestFirst(r)
    ensures multiset(r) == multiset(s)
  {
    if |s| == 0 then []
    else
      assert s == [s[0]] + s[1..];
      Insert(s[0], SortNewestFirst(s[1..]))
  }

  /** A window of a newest-first ordering is newest first and holds only
      rows of the ordering. */
  lemma WindowOfNewestFirst(ordered: seq<ApproveList>, skip: nat, size: nat)
    requires NewestFirst(ordered)
    ensures NewestFirst(Window(ordered, skip, size))
    ensures forall x :: x in Window(ordered, skip, size) ==> x in ordered
  {
  }
}
