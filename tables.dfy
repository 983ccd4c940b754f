/**
 * Table operations shared by the three repositories. A table is the sequence of
 * its rows in ascending primary-key order, the order in which `First` picks
 * among matches. `Find` issues no ORDER BY, so the database may return its rows
 * in any order; the model returns them in key order.
 */
module Tables {
  import opened Wrappers

  /** Primary keys strictly increase along the table, so they are unique. */
  ghost predicate KeysIncreasing<R>(rows: seq<R>, key: R -> nat)
  {
    forall i, j :: 0 <= i < j < |rows| ==> key(rows[i]) < key(rows[j])
  }

  /** Every key is below the next auto-increment value. */
  ghost predicate KeysBelow<R>(rows: seq<R>, key: R -> nat, next: nat)
  {
    forall i :: 0 <= i < |rows| ==> key(rows[i]) < next
  }

  /** The position of the first row satisfying `p`, or `|rows|` when none does. */
  function FirstIndex<R>(rows: seq<R>, p: R -> bool): (k: nat)
    ensures k <= |rows|
    ensures k < |rows| ==> p(rows[k])
    ensures forall j :: 0 <= j < k ==> !p(rows[j])
  {
    if rows == [] then 0
    else if p(rows[0]) then 0
    else 1 + FirstIndex(rows[1..], p)
  }

  /** `First(&row, condition)`: the first row satisfying `p`, or not found. */
  function FirstMatch<R(!new)>(rows: seq<R>, p: R -> bool): (r: Option<R>)
    ensures r.Some? ==> r.value in rows && p(r.value)
    ensures r.None? <==> forall x :: x in rows ==> !p(x)
  {
    var k := FirstIndex(rows, p);
    if k < |rows| then Some(rows[k]) else None
  }

  /** Over a table in key order, the row `First` picks has the lowest key among the matches. */
  lemma FirstMatchHasLowestKey<R(!new)>(rows: seq<R>, key: R -> nat, p: R -> bool)
    requires KeysIncreasing(rows, key)
    ensures FirstMatch(rows, p).Some? ==>
      forall x :: x in rows && p(x) ==> key(FirstMatch(rows, p).value) <= key(x)
  {
    var k := FirstIndex(rows, p);
    forall x | x in rows && p(x) && k < |rows|
      ensures key(rows[k]) <= key(x)
    {
      var i :| 0 <= i < |rows| && rows[i] == x;
      assert k <= i;
    }
  }

  /** `Find(&rows, condition)`: the rows satisfying `p`, in table order. */
  function Filter<R(!new)>(rows: seq<R>, p: R -> bool): (r: seq<R>)
    ensures |r| <= |rows|
    ensures forall x :: x in r <==> x in rows && p(x)
  {
    if rows == [] then []
    else
      assert forall x :: x in rows <==> x == rows[0] || x in rows[1..];
      (if p(rows[0]) then [rows[0]] else []) + Filter(rows[1..], p)
  }

  /** Filtering keeps rows in key order. */
  lemma {:induction false} FilterKeepsKeysIncreasing<R(!new)>(rows: seq<R>, key: R -> nat, p: R -> bool)
    ensures KeysIncreasing(rows, key) ==> KeysIncreasing(Filter(rows, p), key)
  {
    if rows != [] && KeysIncreasing(rows, key) {
      var tail := Filter(rows[1..], p);
      FilterKeepsKeysIncreasing(rows[1..], key, p);
      if p(rows[0]) {
        forall j | 0 < j < |tail| + 1
          ensures key(rows[0]) < key(([rows[0]] + tail)[j])
        {
          assert tail[j - 1] in rows[1..];
        }
      }
    }
  }

  /**
   * `Save(&row)` for a row already stored: the row with the same key is
   * replaced, every other row is left as it was, keys stay where they were.
   */
  function ReplaceByKey<R>(rows: seq<R>, key: R -> nat, row: R): (r: seq<R>)
    ensures |r| == |rows|
    ensures forall i :: 0 <= i < |rows| ==> key(r[i]) == key(rows[i])
    ensures forall i :: 0 <= i < |rows| && key(rows[i]) != key(row) ==> r[i] == rows[i]
    ensures forall i :: 0 <= i < |rows| && key(rows[i]) == key(row) ==> r[i] == row
  {
    if rows == [] then []
    else [if key(rows[0]) == key(row) then row else rows[0]] + ReplaceByKey(rows[1..], key, row)
  }

  /** A replacement keeps the key order, and changes nothing when the key is absent. */
  lemma ReplaceByKeyProperties<R>(rows: seq<R>, key: R -> nat, row: R)
    ensures KeysIncreasing(rows, key) ==> KeysIncreasing(ReplaceByKey(rows, key, row), key)
    ensures (forall x :: x in rows ==> key(x) != key(row)) ==> ReplaceByKey(rows, key, row) == rows
  {
    var r := ReplaceByKey(rows, key, row);
    if forall x :: x in rows ==> key(x) != key(row) {
      assert forall i :: 0 <= i < |rows| ==> r[i] == rows[i];
    }
  }

  /** `Delete(&row)`: every row with the given key is removed, the others stay in order. */
  function RemoveByKey<R(!new)>(rows: seq<R>, key: R -> nat, k: nat): (r: seq<R>)
    ensures forall x :: x in r <==> x in rows && key(x) != k
    ensures KeysIncreasing(rows, key) ==> KeysIncreasing(r, key)
  {
    var keep := x => key(x) != k;
    FilterKeepsKeysIncreasing(rows, key, keep);
    Filter(rows, keep)
  }
}
