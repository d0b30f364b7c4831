/**
 * The logger block: a table of a fixed number of rows used as a circular
 * buffer, one row per `write`, read back in the order the rows were written.
 */
module Logger {
  import opened LogOrder

  class Logger {
    /** The `rows x cols` float table; its shape is `(data.Length0, data.Length1)`. */
    var data: array2<real>
    /** How many times the write cursor has wrapped round since the last reset. */
    var page: nat
    /** The row the next write goes to. */
    var current: nat
    /** The rows written since the last reset or reshape, oldest first. */
    ghost var History: seq<Row>

    /** The rows of the table, top to bottom. */
    function Rows(): (t: seq<Row>)
      reads this`data, data
      ensures |t| == data.Length0
      ensures forall i :: 0 <= i < |t| ==> |t[i]| == data.Length1
      ensures forall i, j :: 0 <= i < data.Length0 && 0 <= j < data.Length1 ==> t[i][j] == data[i, j]
    {
      var a := data;
      seq(a.Length0, i requires 0 <= i < a.Length0 reads a =>
        seq(a.Length1, j requires 0 <= j < a.Length1 reads a => a[i, j]))
    }

    /**
     * The cursor is inside the table (or at 0 in a table without rows),
     * `page * rows + current` counts the writes since the last reset, and
     * the table holds the most recent of them in the rows the cursor
     * pointed at when each was written.
     */
    ghost predicate Valid()
      reads this, data
    {
      (current < data.Length0 || page == current == 0) &&
      |History| == page * data.Length0 + current &&
      Holds(Rows(), History)
    }

    /** A logger of `rows` rows and `cols` columns, all zero, cursors at 0. */
    constructor (rows: nat := 12000, cols: nat := 0)
      ensures Valid() && fresh(data)
      ensures data.Length0 == rows && data.Length1 == cols
      ensures Rows() == Zeros(rows, cols)
      ensures page == 0 && current == 0 && History == []
    {
      data := new real[rows, cols]((i, j) => 0.0);
      page, current := 0, 0;
      History := [];
      new;
      TablesEqual(Rows(), Zeros(rows, cols));
    }

    /** Replaces the table by an all-zero `rows x cols` one and resets the cursors. */
    method Reshape(rows: nat, cols: nat)
      modifies this
      ensures Valid() && fresh(data)
      ensures data.Length0 == rows && data.Length1 == cols
      ensures Rows() == Zeros(rows, cols)
      ensures page == 0 && current == 0 && History == []
    {
      data := new real[rows, cols]((i, j) => 0.0);
      TablesEqual(Rows(), Zeros(rows, cols));
      Reset();
    }

    /** Moves both cursors back to 0; the table keeps its shape and contents. */
    method Reset()
      modifies this
      ensures Valid()
      ensures data == old(data) && Rows() == old(Rows())
      ensures page == 0 && current == 0 && History == []
    {
      page := 0;
      current := 0;
      History := [];
    }

    /** The number of wrap-arounds since the last reset. */
    function GetCurrentPage(): (p: nat)
      reads this, data
      requires Valid()
      ensures data.Length0 > 0 ==> p == Wraps(|History|, data.Length0)
      ensures data.Length0 == 0 ==> p == 0
    {
      if data.Length0 == 0 then page
      else
        CursorOfCount(page, current, data.Length0);
        page
    }

    /** The logical position of the cursor: the number of writes since the last reset. */
    function GetCurrentIndex(): (i: nat)
      reads this, data
      requires Valid()
      ensures i == |History|
      ensures data.Length0 > 0 ==> current == Slot(i, data.Length0)
    {
      if data.Length0 == 0 then page * data.Length0 + current
      else
        CursorOfCount(page, current, data.Length0);
        page * data.Length0 + current
    }

    /**
     * The log in write order: the most recent `rows` rows written since the
     * last reset, oldest first; all of them when the cursor has not wrapped.
     */
    function GetLog(): (log: seq<Row>)
      reads this, data
      requires Valid()
      ensures log == Recent(History, data.Length0)
      ensures page == 0 ==> log == History
      ensures page > 0 ==> |log| == data.Length0
    {
      ChronologicalIsRecent(Rows(), page, current, History);
      Chronological(Rows(), page, current)
    }

    /**
     * Stacks `values` into one row and stores it at the cursor, first
     * reallocating a zero table of the new width when the width changed,
     * then advances the cursor, wrapping to row 0 on a new page.
     */
    method Write(values: seq<Row>)
      requires Valid() && data.Length0 >= 1 && |values| >= 1
      modifies this, data
      ensures Valid()
      ensures data.Length0 == old(data.Length0) && data.Length1 == |Hstack(values)|
      ensures old(data.Length1) == |Hstack(values)| ==>
        data == old(data) &&
        Rows() == old(Rows())[old(current) := Hstack(values)] &&
        History == old(History) + [Hstack(values)] &&
        if old(current) < data.Length0 - 1 then page == old(page) && current == old(current) + 1
        else page == old(page) + 1 && current == 0
      ensures old(data.Length1) != |Hstack(values)| ==>
        fresh(data) &&
        Rows() == Zeros(data.Length0, data.Length1)[0 := Hstack(values)] &&
        History == [Hstack(values)] &&
        if 0 < data.Length0 - 1 then page == 0 && current == 1
        else page == 1 && current == 0
    {
      var v := Hstack(values);
      if data.Length1 != |v| {
        Reshape(data.Length0, |v|);
      }
      WriteStep(Rows(), page, current, History, v);
      StoreRow(v);
      if current < data.Length0 - 1 {
        current := current + 1;
      } else {
        current := 0;
        page := page + 1;
      }
      History := History + [v];
    }

    /** Overwrites the row at the cursor with `v` in place. */
    method StoreRow(v: Row)
      requires current < data.Length0 && |v| == data.Length1
      modifies data
      ensures Rows() == old(Rows())[current := v]
    {
      forall j | 0 <= j < data.Length1 {
        data[current, j] := v[j];
      }
      TablesEqual(Rows(), old(Rows())[current := v]);
    }
  }

  /** Three single-value writes to a two-row logger: only the last two are logged, oldest first. */
  method WrapAroundExample(x: real, y: real, z: real) returns (log: seq<Row>, index: nat)
    ensures log == [[y], [z]] && index == 3
  {
    HstackOne([x]);
    HstackOne([y]);
    HstackOne([z]);
    var logger := new Logger(2, 1);
    logger.Write([[x]]);
    logger.Write([[y]]);
    logger.Write([[z]]);
    assert logger.History == [[x], [y], [z]];
    log := logger.GetLog();
    index := logger.GetCurrentIndex();
  }

  /** A write of a new width drops the earlier rows: the log restarts from that write. */
  method WidthChangeExample(a: real, b: real, c: real, d: real, e: real) returns (log: seq<Row>, index: nat)
    ensures log == [[c, d, e]] && index == 1
  {
    HstackTwo([a], [b]);
    HstackTwo([c, d], [e]);
    assert [a] + [b] == [a, b] && [c, d] + [e] == [c, d, e];
    var logger := new Logger(3);
    logger.Write([[a], [b]]);
    logger.Write([[c, d], [e]]);
    log := logger.GetLog();
    index := logger.GetCurrentIndex();
  }

  /** Writes each of `xs` as a one-column row, in order. */
  method WriteEach(logger: Logger, xs: seq<real>)
    requires logger.Valid() && logger.History == [] && logger.data.Length0 >= 1 && logger.data.Length1 == 1
    modifies logger, logger.data
    ensures logger.Valid() && logger.data == old(logger.data)
    ensures |logger.History| == |xs|
    ensures forall k :: 0 <= k < |xs| ==> logger.History[k] == [xs[k]]
  {
    var i := 0;
    while i < |xs|
      invariant 0 <= i <= |xs|
      invariant logger.Valid() && logger.data == old(logger.data)
      invariant |logger.History| == i
      invariant forall k :: 0 <= k < i ==> logger.History[k] == [xs[k]]
    {
      HstackOne([xs[i]]);
      ghost var before := logger.History;
      logger.Write([[xs[i]]]);
      assert logger.History == before + [[xs[i]]];
      i := i + 1;
    }
  }

  /**
   * `2 * rows + 3` single-value writes to a logger of `rows > 3` rows: the
   * cursor has wrapped twice and stands at row 3.
   */
  method TwoLapsCursorExample(rows: nat, xs: seq<real>) returns (page: nat, current: nat)
    requires rows > 3 && |xs| == 2 * rows + 3
    ensures page == 2 && current == 3
  {
    var logger := new Logger(rows, 1);
    WriteEach(logger, xs);
    CursorOfCount(2, 3, rows);
    page := logger.GetCurrentPage();
    var index := logger.GetCurrentIndex();
    current := logger.current;
  }

  /**
   * After `2 * rows + 3` single-value writes to a logger of `rows > 3` rows
   * the log is the last `rows` values, oldest first.
   */
  method TwoLapsLogExample(rows: nat, xs: seq<real>) returns (log: seq<Row>)
    requires rows > 3 && |xs| == 2 * rows + 3
    ensures |log| == rows && forall i :: 0 <= i < rows ==> log[i] == [xs[rows + 3 + i]]
  {
    var logger := new Logger(rows, 1);
    WriteEach(logger, xs);
    ghost var h := logger.History;
    log := logger.GetLog();
    assert log == h[rows + 3..] by {
      assert log == Recent(h, rows) && Min(|h|, rows) == rows;
    }
    forall i | 0 <= i < rows ensures log[i] == [xs[rows + 3 + i]] {
      assert log[i] == h[rows + 3 + i];
    }
  }
}
