/**
 * Value-level facts behind the circular-buffer logger: where the k-th write
 * since a reset lands in a table of `n` rows, how the logger unwinds its
 * table into write order, and why that unwinding yields the most recent
 * writes, oldest first.
 */
module LogOrder {

  /** One logged row: the values of one `write`, stacked side by side. */
  type Row = seq<real>

  function Min(a: int, b: int): (m: int)
  {
    if a <= b then a else b
  }

  /** numpy's horizontal stack of one-dimensional arguments: their concatenation. */
  function Hstack(parts: seq<Row>): (r: Row)
  {
    if parts == [] then [] else parts[0] + Hstack(parts[1..])
  }

  /** Stacking one argument gives that argument. */
  lemma HstackOne(u: Row)
    ensures Hstack([u]) == u
  {
    assert [u][1..] == [];
  }

  /** Stacking two arguments gives their concatenation. */
  lemma HstackTwo(u: Row, v: Row)
    ensures Hstack([u, v]) == u + v
  {
    assert [u, v][1..] == [v];
    HstackOne(v);
  }

  /** An `r` by `c` table of zeros. */
  function Zeros(r: nat, c: nat): (t: seq<Row>)
    ensures |t| == r
    ensures forall i :: 0 <= i < r ==> |t[i]| == c
    ensures forall i, j :: 0 <= i < r && 0 <= j < c ==> t[i][j] == 0.0
  {
    seq(r, _ => seq(c, _ => 0.0))
  }

  /** Two tables of the same shape with the same entries are equal. */
  lemma TablesEqual(t: seq<Row>, u: seq<Row>)
    requires |t| == |u|
    requires forall i :: 0 <= i < |t| ==> |t[i]| == |u[i]|
    requires forall i, j :: 0 <= i < |t| && 0 <= j < |t[i]| ==> t[i][j] == u[i][j]
    ensures t == u
  {
    forall i | 0 <= i < |t| ensures t[i] == u[i] {
      assert forall j :: 0 <= j < |t[i]| ==> t[i][j] == u[i][j];
    }
  }

  /** The last `n` entries of `h` (all of `h` when it is shorter), oldest first. */
  function Recent<T>(h: seq<T>, n: nat): (r: seq<T>)
    ensures |r| == Min(|h|, n)
    ensures h == h[..|h| - |r|] + r
  {
    h[|h| - Min(|h|, n)..]
  }

  /**
   * The read-out of the table: before the first wrap-around (page 0) the
   * first `current` rows, afterwards the rows from `current` to the end
   * followed by the rows before `current`. Row `i` of the read-out is the
   * table row `i` places after the oldest one, going round the ring.
   */
  function Chronological<T>(table: seq<T>, page: nat, current: nat): (r: seq<T>)
    requires current <= |table|
    ensures |r| == if page == 0 then current else |table|
    ensures page == 0 ==> forall i :: 0 <= i < |r| ==> r[i] == table[i]
    ensures page > 0 ==> forall i :: 0 <= i < |r| ==>
      r[i] == table[if current + i < |table| then current + i else current + i - |table|]
  {
    if page == 0 then table[..current] else table[current..] + table[..current]
  }

  /** The row that write number `k` goes to in an `n`-row ring: `k` modulo `n`. */
  function Slot(k: nat, n: nat): (s: nat)
    requires n > 0
    ensures s < n
    ensures k < n ==> s == k
  {
    if k < n then k else Slot(k - n, n)
  }

  /** How many times the cursor has wrapped after `k` writes: `k` divided by `n`. */
  function Wraps(k: nat, n: nat): (q: nat)
    requires n > 0
  {
    if k < n then 0 else 1 + Wraps(k - n, n)
  }

  /**
   * The ring holds the history: of the writes numbered from 0 since the
   * last reset, each of the last `|table|` ones is still stored in row
   * `Slot(k, |table|)`, the row the cursor pointed at when it was written.
   */
  ghost predicate Holds<T>(table: seq<T>, history: seq<T>)
  {
    forall k :: |history| - Min(|history|, |table|) <= k < |history| ==>
      0 < |table| && table[Slot(k, |table|)] == history[k]
  }

  /**
   * The cursors are the quotient and remainder of the number of writes:
   * `page * n + current` with `current < n` determines both.
   */
  lemma {:induction false} CursorOfCount(page: nat, current: nat, n: nat)
    requires current < n
    ensures Wraps(page * n + current, n) == page
    ensures Slot(page * n + current, n) == current
  {
    if page > 0 {
      CursorOfCount(page - 1, current, n);
      assert page * n + current - n == (page - 1) * n + current;
    }
  }

  /** Write `x` lands where write `q * n + x` does, `q` laps later. */
  lemma {:induction false} SlotAfterLaps(q: nat, n: nat, x: nat)
    requires n > 0
    ensures Slot(q * n + x, n) == Slot(x, n)
  {
    if q > 0 {
      SlotAfterLaps(q - 1, n, x);
      assert q * n + x - n == (q - 1) * n + x;
    }
  }

  /** Two write numbers less than `n` apart land in different rows. */
  lemma {:induction false} DistinctSlots(a: nat, b: nat, n: nat)
    requires n > 0 && a < b < a + n
    ensures Slot(a, n) != Slot(b, n)
  {
    if a >= n {
      DistinctSlots(a - n, b - n, n);
    } else if b >= n {
      assert Slot(b, n) == Slot(b - n, n) == b - n;
    }
  }

  /**
   * Storing a row at the cursor of the next write (row `Slot(|history|, n)`)
   * keeps the ring holding the history extended by that row.
   */
  lemma {:induction false} StoreKeepsHolds<T>(table: seq<T>, history: seq<T>, row: T)
    requires 0 < |table| && Holds(table, history)
    ensures Holds(table[Slot(|history|, |table|) := row], history + [row])
  {
    var n, h, h' := |table|, history, history + [row];
    var t' := table[Slot(|h|, n) := row];
    forall k | |h'| - Min(|h'|, n) <= k < |h'|
      ensures t'[Slot(k, n)] == h'[k]
    {
      if k < |h| {
        DistinctSlots(k, |h|, n);
        assert table[Slot(k, n)] == h[k];
      }
    }
  }

  /**
   * One write keeps the ring consistent: storing the row at the cursor and
   * then moving the cursor on (to the next row, or to row 0 of a new page
   * from the last row) keeps `page * n + current` the number of writes and
   * the ring holding the history with the row appended.
   */
  lemma {:induction false} WriteStep<T>(table: seq<T>, page: nat, current: nat, history: seq<T>, row: T)
    requires current < |table| && |history| == page * |table| + current
    requires Holds(table, history)
    ensures current < |table| - 1 ==> |history + [row]| == page * |table| + (current + 1)
    ensures current == |table| - 1 ==> |history + [row]| == (page + 1) * |table| + 0
    ensures Holds(table[current := row], history + [row])
  {
    var n := |table|;
    assert (page + 1) * n == page * n + n;
    CursorOfCount(page, current, n);
    StoreKeepsHolds(table, history, row);
  }

  /**
   * After a wrap-around the read-out is the last `|table|` writes, starting
   * with the one stored at the cursor.
   */
  lemma {:induction false} ChronologicalAfterWrap<T>(table: seq<T>, laps: nat, current: nat, history: seq<T>)
    requires current < |table| && |history| == laps * |table| + |table| + current
    requires Holds(table, history)
    ensures Chronological(table, laps + 1, current) == history[|history| - |table|..]
  {
    var n, r, h := |table|, Chronological(table, laps + 1, current), history;
    forall i | 0 <= i < n ensures r[i] == h[|h| - n + i] {
      var k := |h| - n + i;
      SlotAfterLaps(laps, n, current + i);
      if current + i >= n {
        assert Slot(current + i, n) == Slot(current + i - n, n);
      }
      assert table[Slot(k, n)] == h[k];
    }
  }

  /**
   * The read-out of a ring that holds the history, with the cursors at
   * quotient and remainder of the number of writes, is the most recent
   * `|table|` writes, oldest first.
   */
  lemma {:induction false} ChronologicalIsRecent<T>(table: seq<T>, page: nat, current: nat, history: seq<T>)
    requires current < |table| || page == current == 0
    requires |history| == page * |table| + current
    requires Holds(table, history)
    ensures Chronological(table, page, current) == Recent(history, |table|)
  {
    if page == 0 {
      assert |history| == current;
    } else {
      var n := |table|;
      var laps: nat := page - 1;
      assert |history| == laps * n + n + current && laps * n >= 0 by {
        assert page * n == laps * n + n;
      }
      ChronologicalAfterWrap(table, laps, current, history);
      assert Recent(history, n) == history[|history| - n..];
    }
  }
}
