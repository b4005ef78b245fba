/**
 * Row identifiers of the two tables. The model assumes that both tables use
 * an integer primary key without AUTOINCREMENT (the schema is not part of
 * this model). Under that assumption SQLite gives a new row the id one larger
 * than the largest id in the table, or 1 when the table is empty, so the id
 * of a deleted largest row can be given out again.
 */
module RowIds {

  /** The largest id in `ids`, or 0 when there is none. */
  function MaxId(ids: seq<nat>): (m: nat)
    ensures forall i :: 0 <= i < |ids| ==> ids[i] <= m
    ensures ids == [] ==> m == 0
    ensures ids != [] ==> m in ids
  {
    if ids == [] then 0
    else
      var rest := MaxId(ids[1..]);
      if ids[0] >= rest then ids[0] else rest
  }

  /** The id the store assigns to the next inserted row. */
  function NextRowId(ids: seq<nat>): (r: nat)
    ensures r >= 1
    ensures forall i :: 0 <= i < |ids| ==> ids[i] < r
    ensures ids == [] ==> r == 1
  {
    MaxId(ids) + 1
  }

  /** Ids listed in storage order, each larger than the one before. */
  predicate StrictlyIncreasing(ids: seq<nat>)
  {
    forall i, j :: 0 <= i < j < |ids| ==> ids[i] < ids[j]
  }

  /** Appending the next row id keeps the ids in increasing order. */
  lemma AppendNextRowId(ids: seq<nat>)
    requires StrictlyIncreasing(ids)
    ensures StrictlyIncreasing(ids + [NextRowId(ids)])
  {
  }
}
