/** Matrix differencing and the ghost filter of quantum/keyboard.c, on values. */
module MatrixModel {
  import opened Bitwise

  /** `matrix_row_t`: one bit per column. */
  type Row = nat

  /** The build: whether the matrix can ghost, and which positions the keymap defines. */
  datatype Config = Config(rows: nat, cols: nat, ghosting: bool, defined: (nat, nat) -> bool)

  /** A change of one key; `acted` tells whether it was also handed to `action_exec`. */
  datatype Event = Event(row: nat, col: nat, pressed: bool, acted: bool)

  /** `matrix_previous`, and the events so far. */
  datatype State = State(previous: seq<Row>, events: seq<Event>)

  // ---------------------------------------------------------------- the ghost test

  /** A real key that the scan shows as pressed. */
  predicate Down(c: Config, scan: seq<Row>, row: nat, col: nat)
    requires row < |scan|
  {
    col < c.cols && c.defined(row, col) && Bit(scan[row], col)
  }

  /** Two rows share two pressed real columns. */
  ghost predicate Rectangle(c: Config, scan: seq<Row>, r1: nat, r2: nat)
    requires r1 < |scan| && r2 < |scan|
  {
    exists i: nat, j: nat ::
      i < j && Down(c, scan, r1, i) && Down(c, scan, r1, j) && Down(c, scan, r2, i) && Down(c, scan, r2, j)
  }

  /** The row takes part in a rectangle with another row, so some of its keys may be ghosts. */
  ghost predicate Ghosted(c: Config, scan: seq<Row>, row: nat)
    requires row < |scan|
  {
    c.ghosting && exists i :: 0 <= i < |scan| && i != row && Rectangle(c, scan, row, i)
  }

  // ---------------------------------------------------------------- one scan

  /** The events of the first `n` columns of a row, of which `changes` has changed. */
  function RowEvents(row: nat, current: Row, changes: Row, acted: bool, n: nat): seq<Event> {
    if n == 0 then []
    else
      RowEvents(row, current, changes, acted, n - 1)
      + (if Bit(changes, n - 1) then [Event(row, n - 1, Bit(current, n - 1), acted)] else [])
  }

  ghost predicate Skipped(c: Config, s: State, scan: seq<Row>, row: nat)
    requires row < |scan| == |s.previous|
  {
    Xor(scan[row], s.previous[row]) == 0 || Ghosted(c, scan, row)
  }

  /** What the scan does to one row. */
  ghost function ScanRow(c: Config, s: State, scan: seq<Row>, acted: bool, row: nat): (s': State)
    requires row < |scan| == |s.previous|
    ensures |s'.previous| == |s.previous|
  {
    if Skipped(c, s, scan, row) then s
    else State(s.previous[row := scan[row]],
               s.events + RowEvents(row, scan[row], Xor(scan[row], s.previous[row]), acted, c.cols))
  }

  ghost function ScanRows(c: Config, s: State, scan: seq<Row>, acted: bool, n: nat): (s': State)
    requires n <= |scan| == |s.previous|
    ensures |s'.previous| == |s.previous|
  {
    if n == 0 then s else ScanRow(c, ScanRows(c, s, scan, acted, n - 1), scan, acted, n - 1)
  }

  /** `matrix_task` after `matrix_scan` has read `scan`. */
  ghost function Scan(c: Config, s: State, scan: seq<Row>, acted: bool): (s': State)
    requires |scan| == |s.previous|
    ensures |s'.previous| == |s.previous|
  {
    ScanRows(c, s, scan, acted, |scan|)
  }

  /** One call of `matrix_task`: what was scanned, and whether key presses are processed. */
  datatype Task = Task(scan: seq<Row>, acted: bool)

  const BLANK_ROW: Row := 0

  function Initial(c: Config): (s: State)
    ensures |s.previous| == c.rows
  {
    State(seq(c.rows, _ => BLANK_ROW), [])
  }

  ghost predicate Sized(c: Config, ts: seq<Task>) {
    forall k :: 0 <= k < |ts| ==> |ts[k].scan| == c.rows
  }

  ghost function Run(c: Config, ts: seq<Task>): (s: State)
    requires Sized(c, ts)
    ensures |s.previous| == c.rows
  {
    if ts == [] then Initial(c)
    else
      var last := ts[|ts| - 1];
      Scan(c, Run(c, ts[..|ts| - 1]), last.scan, last.acted)
  }
}
