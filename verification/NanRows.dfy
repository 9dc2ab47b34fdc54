/** The NaN policy shared by the multi-objective code: rows with a NaN are set apart. */
module NanRows {
  import opened Coords
  import opened Orders
  import opened Front

  predicate NoNan(rows: seq<Point>) {
    forall i :: 0 <= i < |rows| ==> !HasNan(rows[i])
  }

  /** The positions of the rows that do (or do not) hold a NaN, in input order. */
  function NanPositions(rows: seq<Point>, nan: bool): (pos: seq<nat>)
    ensures InRange(pos, |rows|) && |pos| <= |rows|
  {
    if rows == [] then []
    else
      var n := |rows| - 1;
      NanPositions(rows[..n], nan) + if HasNan(rows[n]) == nan then [n] else []
  }

  lemma {:induction false} NanPositionsFacts(rows: seq<Point>, nan: bool)
    ensures forall i: nat :: i in NanPositions(rows, nan) <==> i < |rows| && HasNan(rows[i]) == nan
    ensures Distinct(NanPositions(rows, nan))
  {
    hide HasNan;
    if rows != [] {
      NanPositionsFacts(rows[..|rows| - 1], nan);
    }
  }

  lemma {:induction false} NanPositionsSplit(rows: seq<Point>)
    ensures |NanPositions(rows, true)| + |NanPositions(rows, false)| == |rows|
  {
    hide HasNan;
    if rows != [] {
      NanPositionsSplit(rows[..|rows| - 1]);
    }
  }

  lemma {:induction false} NanPositionsOfClean(rows: seq<Point>)
    requires NoNan(rows)
    ensures NanPositions(rows, false) == Upto(|rows|) && NanPositions(rows, true) == []
  {
    hide HasNan;
    if rows != [] {
      NanPositionsOfClean(rows[..|rows| - 1]);
    }
  }

  /** The loop that separates clean rows from NaN rows. */
  method PartitionNan(rows: seq<Point>) returns (clean: seq<nat>, nan: seq<nat>)
    ensures clean == NanPositions(rows, false) && nan == NanPositions(rows, true)
  {
    hide HasNan;
    clean, nan := [], [];
    for pos := 0 to |rows|
      invariant clean == NanPositions(rows[..pos], false) && nan == NanPositions(rows[..pos], true)
    {
      assert rows[..pos + 1][..pos] == rows[..pos];
      if HasNan(rows[pos]) {
        nan := nan + [pos];
      } else {
        clean := clean + [pos];
      }
    }
    assert rows[..|rows|] == rows;
  }

  /** The clean rows hold no NaN and there are fewer of them, if any row does. */
  lemma CleanRows(rows: seq<Point>)
    ensures NoNan(Select(rows, NanPositions(rows, false)))
    ensures !NoNan(rows) ==> |NanPositions(rows, false)| < |rows|
  {
  }
}
