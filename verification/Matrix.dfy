/** The matrix task of quantum/keyboard.c: the previous matrix updated row by row in place, with the
    bit-trick ghost filter, proved to do what `MatrixModel` says. */
module Matrix {
  import opened Bitwise
  import opened MatrixModel
  import MatrixRuns

  class MatrixScanner {
    const c: Config
    const previous: array<Row>
    var events: seq<Event>

    ghost predicate Valid() {
      previous.Length == c.rows
    }

    ghost function Model(): State
      reads this, previous
    {
      State(previous[..], events)
    }

    constructor (c: Config)
      ensures Valid() && this.c == c && fresh(previous) && Model() == Initial(c)
    {
      this.c := c;
      previous := new Row[c.rows](_ => BLANK_ROW);
      events := [];
    }

    /** `get_real_keys`. */
    method GetRealKeys(row: nat, rowdata: Row) returns (out: Row)
      ensures forall i: nat :: Bit(out, i) <==> i < c.cols && c.defined(row, i) && Bit(rowdata, i)
    {
      out := 0;
      forall i: nat ensures !Bit(0, i) {
        BitZero(i);
      }
      for col := 0 to c.cols
        invariant forall i: nat :: Bit(out, i) <==> i < col && c.defined(row, i) && Bit(rowdata, i)
      {
        MaskTests(rowdata, col);
        if c.defined(row, col) && And(rowdata, Mask(col)) != 0 {
          ghost var before := out;
          out := Or(out, Mask(col));
          forall i: nat ensures Bit(out, i) <==> Bit(before, i) || i == col {
            BitOr(before, Mask(col), i);
            BitMask(col, i);
          }
        }
      }
    }

    /** `popcount_more_than_one`; the subtraction wraps for an empty row, which masks to nothing. */
    method PopcountMoreThanOne(rowdata: Row) returns (more: bool)
      ensures more <==> TwoBitsSet(rowdata)
    {
      if rowdata == 0 {
        if TwoBitsSet(0) {
          var i: nat, j: nat :| i < j && Bit(0, i) && Bit(0, j);
          BitZero(i);
        }
        return false;
      }
      TwoBits(rowdata);
      return And(rowdata, rowdata - 1) != 0;
    }

    /** `has_ghost_in_row`. */
    method HasGhostInRow(scan: seq<Row>, row: nat) returns (ghosted: bool)
      requires row < |scan|
      ensures ghosted <==> Ghosted(c, scan, row)
    {
      if !c.ghosting {
        return false;
      }
      var rowdata := GetRealKeys(row, scan[row]);
      var two := PopcountMoreThanOne(rowdata);
      if !two {
        assert forall i :: 0 <= i < |scan| ==> !Rectangle(c, scan, row, i);
        return false;
      }
      for i := 0 to |scan|
        invariant forall k :: 0 <= k < i && k != row ==> !Rectangle(c, scan, row, k)
      {
        var other := GetRealKeys(i, scan[i]);
        var shared := PopcountMoreThanOne(And(other, rowdata));
        SharedIsRectangle(c, scan, row, i, rowdata, other);
        if i != row && shared {
          return true;
        }
      }
      return false;
    }

    /** The columns of one row that has changed. */
    method ReportRow(row: nat, current: Row, changes: Row, acted: bool)
      modifies this`events
      ensures events == old(events) + RowEvents(row, current, changes, acted, c.cols)
    {
      var mask := 1;
      for col := 0 to c.cols
        invariant mask == Mask(col)
        invariant events == old(events) + RowEvents(row, current, changes, acted, col)
      {
        MaskTests(changes, col);
        MaskTests(current, col);
        if And(changes, mask) != 0 {
          var pressed := And(current, mask) != 0;
          events := events + [Event(row, col, pressed, acted)];
        }
        mask := 2 * mask;
      }
    }

    /** One row of the scan. */
    method TaskRow(scan: seq<Row>, acted: bool, row: nat)
      requires Valid() && row < |scan| == c.rows
      modifies this`events, previous
      ensures Model() == ScanRow(c, old(Model()), scan, acted, row)
    {
      var current := scan[row];
      var changes := Xor(current, previous[row]);
      if changes == 0 {
        return;
      }
      var ghosted := HasGhostInRow(scan, row);
      if ghosted {
        return;
      }
      ReportRow(row, current, changes, acted);
      previous[row] := current;
    }

    /** `matrix_task` on a scan that could be read; `changed` is its result. */
    method MatrixTask(scan: seq<Row>, acted: bool) returns (changed: bool)
      requires Valid() && |scan| == c.rows
      modifies this`events, previous
      ensures Model() == Scan(c, old(Model()), scan, acted)
      ensures changed <==> scan != old(previous[..])
    {
      changed := false;
      var row := 0;
      while row < c.rows && !changed
        invariant row <= c.rows && Model() == old(Model())
        invariant !changed ==> forall k :: 0 <= k < row ==> Xor(previous[k], scan[k]) == 0
        invariant changed ==> scan != previous[..]
      {
        MatrixRuns.XorSame(previous[row], scan[row]);
        changed := Xor(previous[row], scan[row]) != 0;
        row := row + 1;
      }
      if !changed {
        MatrixRuns.NoChangeNoEvents(c, Model(), scan, acted, |scan|);
        forall k | 0 <= k < c.rows ensures previous[k] == scan[k] {
          MatrixRuns.XorSame(previous[k], scan[k]);
        }
        return;
      }
      ghost var s := Model();
      for r := 0 to c.rows
        invariant old(previous[..]) == s.previous && Model() == ScanRows(c, s, scan, acted, r)
      {
        TaskRow(scan, acted, r);
      }
    }
  }

  lemma SharedIsRectangle(c: Config, scan: seq<Row>, row: nat, i: nat, rowdata: Row, other: Row)
    requires row < |scan| && i < |scan|
    requires forall k: nat :: Bit(rowdata, k) <==> Down(c, scan, row, k)
    requires forall k: nat :: Bit(other, k) <==> Down(c, scan, i, k)
    ensures TwoBitsSet(And(other, rowdata)) <==> Rectangle(c, scan, row, i)
  {
    forall k: nat ensures Bit(And(other, rowdata), k) <==> Bit(other, k) && Bit(rowdata, k) {
      BitAnd(other, rowdata, k);
    }
    if TwoBitsSet(And(other, rowdata)) {
      var k: nat, l: nat :| k < l && Bit(And(other, rowdata), k) && Bit(And(other, rowdata), l);
      assert Down(c, scan, row, k) && Down(c, scan, row, l);
    }
    if Rectangle(c, scan, row, i) {
      var k: nat, l: nat :| k < l && Down(c, scan, row, k) && Down(c, scan, row, l)
                         && Down(c, scan, i, k) && Down(c, scan, i, l);
      assert Bit(And(other, rowdata), k) && Bit(And(other, rowdata), l);
    }
  }
}
