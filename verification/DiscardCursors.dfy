/** The discard cursor as text: `sqlite3.rs` stores and compares rendered timestamps. */
module DiscardCursors {
  import opened Options
  import opened Backend
  import opened Datetime

  const MICROS: int := 1000000

  /** A stamp counts microseconds since the epoch. */
  function At(stamp: int): Instant {
    Instant(stamp / MICROS, stamp % MICROS)
  }

  predicate Renderable(stamp: int) {
    FourDigitYear(At(stamp))
  }

  function StampText(stamp: int): string {
    Timestamp(At(stamp))
  }

  /** No cursor is the empty string. */
  function CursorText(cursor: Option<int>): string {
    if cursor.Some? then StampText(cursor.value) else ""
  }

  predicate AllRenderable(rows: seq<Row>) {
    forall i :: 0 <= i < |rows| && rows[i].stamp.Some? ==> Renderable(rows[i].stamp.value)
  }

  lemma EarlierStamp(a: int, b: int)
    ensures Earlier(At(a), At(b)) <==> a < b
  {
    assert a == MICROS * At(a).secs + At(a).micros && b == MICROS * At(b).secs + At(b).micros;
  }

  /** Stamps of years 0 to 9999 compare as their texts do. */
  lemma StampsOrdered(a: int, b: int)
    requires Renderable(a) && Renderable(b)
    ensures TextLess(StampText(a), StampText(b)) <==> a < b
    ensures !TextLess(StampText(a), "")
  {
    hide TextLess, Timestamp, FourDigitYear, Earlier;
    EarlierStamp(a, b);
    TimestampsOrdered(At(a), At(b));
    NothingBeforeEmpty(StampText(a));
  }

  lemma NothingBeforeEmpty(text: string)
    ensures !TextLess(text, "")
  {
  }

  /** The textual `>=` selects the rows stamped at or after the cursor. */
  lemma SinceByText(rows: seq<Row>, cursor: Option<int>, i: nat)
    requires AllRenderable(rows) && (cursor.Some? ==> Renderable(cursor.value)) && i < |rows|
    ensures StampedSince(rows, cursor, i)
      <==> rows[i].stamp.Some? && !TextLess(StampText(rows[i].stamp.value), CursorText(cursor))
  {
    hide TextLess, StampText, Renderable;
    if rows[i].stamp.Some? {
      var stamp := rows[i].stamp.value;
      StampsOrdered(stamp, if cursor.Some? then cursor.value else stamp);
    }
  }

  /** `get_discarded_trials_diff` on text reads the same rows as on stamps, and its next cursor, the
      greatest text, is the text of the latest stamp. */
  method GetDiscardedTrialsDiff(rows: seq<Row>, ghost cursor: Option<int>, text: string)
      returns (numbers: seq<nat>, next: Option<string>, ghost latest: Option<int>)
    requires AllRenderable(rows) && (cursor.Some? ==> Renderable(cursor.value)) && text == CursorText(cursor)
    ensures DiscardsOf(rows, cursor, numbers, latest)
    ensures next == if latest.Some? then Some(StampText(latest.value)) else None
  {
    hide TextLess, StampText, Renderable;
    numbers, next, latest := [], None, None;
    for i := 0 to |rows|
      invariant forall j: nat :: j in numbers <==> j < i && StampedSince(rows, cursor, j)
      invariant latest.None? <==> numbers == []
      invariant latest.Some? ==> Renderable(latest.value)
      invariant latest.Some? ==> exists j :: 0 <= j < i && j in numbers && rows[j].stamp == latest
      invariant latest.Some? ==> forall j: nat ::
        j < i && StampedSince(rows, cursor, j) ==> rows[j].stamp.value <= latest.value
      invariant next == if latest.Some? then Some(StampText(latest.value)) else None
    {
      SinceByText(rows, cursor, i);
      if rows[i].stamp.Some? && !TextLess(StampText(rows[i].stamp.value), text) {
        var discardedAt := StampText(rows[i].stamp.value);
        numbers := numbers + [i];
        assert i in numbers;
        if latest.Some? {
          StampsOrdered(latest.value, rows[i].stamp.value);
        }
        if next.None? || TextLess(next.value, discardedAt) {
          next, latest := Some(discardedAt), rows[i].stamp;
        }
      }
    }
  }
}
