/** Sequential ID assignment: a new row gets the largest ID in its table
    plus one, or 1 when the table is empty. */
module Identifiers {

  /** The largest ID of a non-empty ID column. */
  function MaxId(ids: seq<int>): (m: int)
    requires ids != []
    ensures m in ids
    ensures forall i :: 0 <= i < |ids| ==> ids[i] <= m
  {
    if |ids| == 1 then ids[0]
    else
      var rest := MaxId(ids[1..]);
      if ids[0] >= rest then ids[0] else rest
  }

  /** The ID given to the next row appended to a table whose ID column is `ids`. */
  function NextId(ids: seq<int>): (n: int)
    ensures ids == [] ==> n == 1
    ensures forall i :: 0 <= i < |ids| ==> ids[i] < n
    ensures ids != [] ==> n - 1 in ids
  {
    if ids == [] then 1 else MaxId(ids) + 1
  }

  /** No two rows of the column share an ID. */
  predicate Distinct(ids: seq<int>)
  {
    forall i, j :: 0 <= i < j < |ids| ==> ids[i] != ids[j]
  }

  /** The two clauses of NextId's contract pin it down: the least value above
      every ID, that is max + 1. */
  lemma NextIdIsMaxPlusOne(ids: seq<int>, n: int)
    requires ids != []
    requires forall i :: 0 <= i < |ids| ==> ids[i] < n
    requires n - 1 in ids
    ensures n == NextId(ids)
    ensures n == MaxId(ids) + 1
  {
  }

  /** Appending a row with the next ID keeps the IDs pairwise distinct. */
  lemma AppendNextIdKeepsDistinct(ids: seq<int>)
    requires Distinct(ids)
    ensures Distinct(ids + [NextId(ids)])
  {
  }

  /** IDs only grow: the next ID after an append is larger than the one just used. */
  lemma NextIdIncreases(ids: seq<int>)
    ensures NextId(ids + [NextId(ids)]) == NextId(ids) + 1
  {
    var n := NextId(ids);
    var ext := ids + [n];
    assert ext[|ids|] == n;
    NextIdIsMaxPlusOne(ext, n + 1);
  }
}
