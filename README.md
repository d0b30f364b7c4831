# Circular-buffer logger block

This project models the `Logger` block of the `ctrl` real-time control
framework (`python/ctrl/block/logger.py`), and proves properties of that model.
The logger is the built-in sink that records one row per tick. It keeps a
table of a fixed number of rows and uses it as a circular buffer.

- `data` is the `rows x cols` float table. It is modelled as an `array2<real>`,
  so its shape `(data.Length0, data.Length1)` is numpy's `data.shape`.
- `current` is the row the next write goes to.
- `page` counts how many times `current` has wrapped back to row 0.
- `write(*values)` stacks its arguments into one row. If the row's width is not
  the table's column count, it first reallocates an all-zero table of the same
  row count and the new width, and resets the cursors. It then overwrites the
  row at `current` in place and advances the cursor.
- `get_log` reads the table back in write order.

The ghost field `History` holds the rows written since the last reset or
reshape, oldest first. The object invariant `Valid()` says three things:
- `page * rows + current == |History|`.
- Write number `k` (counting from 0) was stored in row `Slot(k, rows)`, which is
  `k` modulo `rows`. Each of the last `rows` writes is still in that row (`LogOrder.Holds`).
- The cursor is inside the table.

From this invariant:
- `GetLog()` is the last `min(|History|, rows)` written rows, oldest first.
- `GetCurrentIndex()` is `|History|`.
- `GetCurrentPage()` is `|History|` divided by `rows`.

The module `LogOrder` (`log_order.dfy`) holds the value-level part. It gives the
read-out expression of `get_log` on a sequence of rows (`Chronological`), the
slot arithmetic, and the lemmas that connect the physical layout to write
order. The module `Logger` (`logger.dfy`) holds the class and four client
methods. They replay a wrap-around, two wrap-arounds of the cursor (its
cursors and its log), and a change of width.

`read` is the same method as `get_log` in the source (`read = get_log`), so
`GetLog` models both. The code after the two `return`s in `get_log` (the
`auto_reset` branch) is unreachable, so it is not modelled. `GetLog` is a
function and cannot change `page`, `current` or `data`.

After `R + k` writes (`k < R`) to an `R`-row logger, the code returns all
`R` rows, the most recent ones, oldest first, and not `k` rows.
`WrapAroundExample` shows this for 3 writes to 2 rows.

## Model

| member | source | states |
|---|---|---|
| `Logger.Logger.constructor` | python/ctrl/block/logger.py:10-14 | a new logger has an all-zero `rows x cols` table (12000 x 0 by default), both cursors at 0, an empty history, and satisfies the invariant |
| `Logger.Logger.Reshape` | python/ctrl/block/logger.py:26-29 | replaces `data` by a fresh all-zero `rows x cols` table, sets `page` and `current` to 0, empties the history, and re-establishes the invariant |
| `Logger.Logger.Reset` | python/ctrl/block/logger.py:31-34 | sets `page` and `current` to 0 and empties the history; `data` keeps its shape and contents; the invariant holds afterwards whatever the cursors were before |
| `Logger.Logger.GetCurrentPage` | python/ctrl/block/logger.py:36-37 | the page is the number of writes since the last reset divided by the row count (0 for a table without rows) |
| `Logger.Logger.GetCurrentIndex` | python/ctrl/block/logger.py:39-40 | `page * rows + current` is the number of rows written since the last reset or reshape, and `current` is that number modulo the row count |
| `Logger.Logger.GetLog` | python/ctrl/block/logger.py:42-56 | the log is the last `min(writes, rows)` rows written since the last reset, oldest first: all of them while `page == 0`, exactly `rows` of them once the cursor has wrapped |
| `Logger.Logger.Write` | python/ctrl/block/logger.py:58-79 | on an unchanged width: same table, only the row at the old cursor changes (to the stacked values), history grows by that row, and the cursor moves to the next row, or to row 0 with `page + 1` from the last row; on a new width: a fresh zero table of the new width with only row 0 set, the history is just that row, and the cursors are those after one write; in both cases the row count is unchanged and the invariant is kept |
| `Logger.Logger.StoreRow` | python/ctrl/block/logger.py:71 | the row at the cursor becomes the given values in place; every other row is unchanged |
| `LogOrder.Chronological` | python/ctrl/block/logger.py:44-49 | the read-out has `current` rows on page 0 (the first `current` table rows) and all rows once wrapped, where row `i` of the read-out is table row `current + i` counted round the ring |
| `LogOrder.ChronologicalAfterWrap` | python/ctrl/block/logger.py:47-49 | after a wrap-around, the read-out `data[current:] + data[:current]` is the last `rows` writes, oldest first |
| `LogOrder.ChronologicalIsRecent` | python/ctrl/block/logger.py:42-49 | in both regimes, the read-out of a ring that holds the history equals the last `min(writes, rows)` entries of the history: before the first wrap-around that is the whole history in write order |
| `LogOrder.WriteStep` | python/ctrl/block/logger.py:71-79 | storing a row at the cursor and advancing the cursor keeps `page * rows + current` equal to the number of writes, and keeps every recent write in its slot |
| `LogOrder.StoreKeepsHolds` | python/ctrl/block/logger.py:71 | overwriting the row the next write maps to loses none of the previous `rows - 1` writes |
| `LogOrder.CursorOfCount` | python/ctrl/block/logger.py:73-79 | with `current < rows`, the cursors are the quotient and remainder of `page * rows + current` by `rows`; for example, with `rows > 3`, `2 * rows + 3` writes give `page == 2` and `current == 3` |
| `LogOrder.Slot` | python/ctrl/block/logger.py:73-79 | the row a write goes to is always inside the table, and the first `rows` writes go to rows `0, 1, ...` in order |
| `Logger.WrapAroundExample` | python/ctrl/block/logger.py:42-49 | three single-value writes to a two-row logger read back as the last two values, oldest first, with current index 3 |
| `Logger.TwoLapsCursorExample` | python/ctrl/block/logger.py:73-79 | `2 * rows + 3` single-value writes to a logger of `rows > 3` rows leave `page == 2` and `current == 3` |
| `Logger.TwoLapsLogExample` | python/ctrl/block/logger.py:42-49 | after `2 * rows + 3` single-value writes to a logger of `rows > 3` rows, the log is the last `rows` values, oldest first |
| `Logger.WidthChangeExample` | python/ctrl/block/logger.py:63-71 | a write of width 2 and then a write of width 3 leave only the width-3 row in the log, with current index 1 |

## Left out

- `Logger.get` (python/ctrl/block/logger.py:21-24), the `super().__init__` call and the `auto_reset` keyword argument (python/ctrl/block/logger.py:16-19) delegate to the `block.Block` base class. That class is not part of this model.
- The `auto_reset` branch of `get_log` (python/ctrl/block/logger.py:51-54) comes after both `return`s and never runs, so it has no counterpart.
- Logger.Logger.GetLog returns a snapshot of the rows. On page 0 the source returns a numpy view of the live table (`data[:current]`), so later writes or a reset change a log the caller already holds. After a wrap-around the source builds a new array with `vstack`, which is a copy. The model does not capture this aliasing.
- Logger.Logger.constructor takes the row and column counts as natural numbers. In the source, `numpy.zeros` raises an error for a negative count. The model excludes that error path by type.
- Logger.Logger.Reshape takes the row and column counts as natural numbers, like the constructor. A negative count raises an error in the source. The model excludes that error path by type.
- Floating point: the table holds `real`s. numpy's conversion of the written values to `float` is not modelled.
- `numpy.hstack` is modelled for one-dimensional arguments only (a scalar is a one-element row), as their concatenation (`LogOrder.Hstack`). Stacking of 2-D arguments is not modelled.
- `Logger.Logger.Write` requires at least one argument, because `numpy.hstack` of no arguments raises an error. It also requires at least one row, because `data[current, :]` on a table with no rows raises an index error. Those error paths are not modelled.
- The rest of the framework (the scheduler and its tick loop, the signal bus, the device registry, the remote-control server, hardware drivers, the ODE and transfer-function library) is not part of this model.
