/** What the event stream of the matrix means: replayed, it is the matrix last reported; every key
    alternates; rows without ghosts are up to date; and the ghost test is symmetric. */
module MatrixRuns {
  import opened Bitwise
  import opened MatrixModel

  /** Whether replaying the events from the all-released matrix leaves a key pressed. */
  function Held(events: seq<Event>, row: nat, col: nat): bool {
    if events == [] then false
    else
      var e := events[|events| - 1];
      if e.row == row && e.col == col then e.pressed else Held(events[..|events| - 1], row, col)
  }

  /** Each event changes the state of its key. */
  ghost predicate Alternates(events: seq<Event>) {
    forall k :: 0 <= k < |events| ==> Toggles(events, k)
  }

  predicate Toggles(events: seq<Event>, k: nat)
    requires k < |events|
  {
    events[k].pressed != Held(events[..k], events[k].row, events[k].col)
  }

  /** The events replay to `previous` on every key, and alternate. */
  ghost predicate Faithful(c: Config, s: State) {
    && Alternates(s.events)
    && forall row, col :: 0 <= row < |s.previous| && 0 <= col < c.cols ==>
         Held(s.events, row, col) == Bit(s.previous[row], col)
  }

  lemma HeldAppend(events: seq<Event>, e: Event, row: nat, col: nat)
    ensures Held(events + [e], row, col) == if e.row == row && e.col == col then e.pressed else Held(events, row, col)
  {
    assert (events + [e])[..|events|] == events;
  }

  lemma AlternatesAppend(events: seq<Event>, e: Event)
    requires Alternates(events) && e.pressed != Held(events, e.row, e.col)
    ensures Alternates(events + [e])
  {
    var events' := events + [e];
    forall k | 0 <= k < |events'| ensures Toggles(events', k) {
      assert events'[..k] == events[..k];
      if k < |events| {
        assert Toggles(events, k);
      } else {
        assert events[..k] == events;
      }
    }
  }

  /** The events of a row bring exactly its changed columns up to date. */
  lemma {:induction false} RowReplays(c: Config, events: seq<Event>, row: nat, was: Row, current: Row, acted: bool, n: nat)
    requires Alternates(events) && n <= c.cols
    requires forall col :: 0 <= col < c.cols ==> Held(events, row, col) == Bit(was, col)
    ensures var out := events + RowEvents(row, current, Xor(current, was), acted, n);
            && Alternates(out)
            && (forall col :: 0 <= col < c.cols ==>
                  Held(out, row, col) == if col < n then Bit(current, col) else Bit(was, col))
            && (forall r, col :: r != row ==> Held(out, r, col) == Held(events, r, col))
  {
    var changes := Xor(current, was);
    if n == 0 {
      assert events + [] == events;
    } else {
      RowReplays(c, events, row, was, current, acted, n - 1);
      BitXor(current, was, n - 1);
      var before := events + RowEvents(row, current, changes, acted, n - 1);
      if Bit(changes, n - 1) {
        var e := Event(row, n - 1, Bit(current, n - 1), acted);
        assert events + RowEvents(row, current, changes, acted, n) == before + [e];
        AlternatesAppend(before, e);
        forall r, col ensures Held(before + [e], r, col) == if r == row && col == n - 1 then e.pressed else Held(before, r, col) {
          HeldAppend(before, e, r, col);
        }
      } else {
        assert events + RowEvents(row, current, changes, acted, n) == before;
      }
    }
  }

  lemma ScanRowFaithful(c: Config, s: State, scan: seq<Row>, acted: bool, row: nat)
    requires row < |scan| == |s.previous| && Faithful(c, s)
    ensures Faithful(c, ScanRow(c, s, scan, acted, row))
  {
    if !Skipped(c, s, scan, row) {
      RowReplays(c, s.events, row, s.previous[row], scan[row], acted, c.cols);
    }
  }

  lemma {:induction false} ScanRowsFaithful(c: Config, s: State, scan: seq<Row>, acted: bool, n: nat)
    requires n <= |scan| == |s.previous| && Faithful(c, s)
    ensures Faithful(c, ScanRows(c, s, scan, acted, n))
  {
    if n > 0 {
      ScanRowsFaithful(c, s, scan, acted, n - 1);
      ScanRowFaithful(c, ScanRows(c, s, scan, acted, n - 1), scan, acted, n - 1);
    }
  }

  /** Over any sequence of scans, the events replay to `matrix_previous` and alternate for every key. */
  lemma {:induction false} RunFaithful(c: Config, ts: seq<Task>)
    requires Sized(c, ts)
    ensures Faithful(c, Run(c, ts))
  {
    if ts == [] {
      forall row, col | 0 <= row < c.rows && 0 <= col < c.cols
        ensures Held([], row, col) == Bit(Initial(c).previous[row], col)
      {
        BitZero(col);
      }
    } else {
      var last := ts[|ts| - 1];
      RunFaithful(c, ts[..|ts| - 1]);
      ScanRowsFaithful(c, Run(c, ts[..|ts| - 1]), last.scan, last.acted, |last.scan|);
    }
  }

  // ---------------------------------------------------------------- which rows are brought up to date

  lemma {:induction false} XorSame(x: nat, y: nat)
    ensures Xor(x, y) == 0 <==> x == y
    decreases x + y
  {
    if x > 0 && y > 0 {
      XorSame(x / 2, y / 2);
    }
  }

  /** No event from position `from` on is about the row. */
  ghost predicate SilentSince(events: seq<Event>, from: nat, row: nat) {
    forall k :: from <= k < |events| ==> events[k].row != row
  }

  lemma {:induction false} RowEventsAbout(row: nat, current: Row, changes: Row, acted: bool, n: nat)
    ensures forall k :: 0 <= k < |RowEvents(row, current, changes, acted, n)| ==>
              RowEvents(row, current, changes, acted, n)[k].row == row
  {
    if n > 0 {
      RowEventsAbout(row, current, changes, acted, n - 1);
    }
  }

  /** After a scan, a row without ghosts is as scanned, and a ghosted row is as it was and silent. */
  lemma {:induction false} ScanRowsExact(c: Config, s: State, scan: seq<Row>, acted: bool, n: nat, row: nat)
    requires n <= |scan| == |s.previous| && row < |scan|
    ensures var s' := ScanRows(c, s, scan, acted, n);
            && s.events <= s'.events
            && s'.previous[row] == (if row < n && !Ghosted(c, scan, row) then scan[row] else s.previous[row])
            && (row >= n || Ghosted(c, scan, row) ==> SilentSince(s'.events, |s.events|, row))
  {
    if n > 0 {
      ScanRowsExact(c, s, scan, acted, n - 1, row);
      ScanRowsExact(c, s, scan, acted, n - 1, n - 1);
      var s1 := ScanRows(c, s, scan, acted, n - 1);
      XorSame(scan[n - 1], s1.previous[n - 1]);
      RowEventsAbout(n - 1, scan[n - 1], Xor(scan[n - 1], s1.previous[n - 1]), acted, c.cols);
    }
  }

  lemma ScanExact(c: Config, s: State, scan: seq<Row>, acted: bool, row: nat)
    requires |scan| == |s.previous| && row < |scan|
    ensures var s' := Scan(c, s, scan, acted);
            && s.events <= s'.events
            && s'.previous[row] == (if Ghosted(c, scan, row) then s.previous[row] else scan[row])
            && (Ghosted(c, scan, row) ==> SilentSince(s'.events, |s.events|, row))
  {
    ScanRowsExact(c, s, scan, acted, |scan|, row);
  }

  /** A scan that shows no change does nothing, which is why `matrix_task` may skip it. */
  lemma {:induction false} NoChangeNoEvents(c: Config, s: State, scan: seq<Row>, acted: bool, n: nat)
    requires n <= |scan| == |s.previous|
    requires forall row :: 0 <= row < |scan| ==> Xor(s.previous[row], scan[row]) == 0
    ensures ScanRows(c, s, scan, acted, n) == s
  {
    if n > 0 {
      NoChangeNoEvents(c, s, scan, acted, n - 1);
      XorSame(s.previous[n - 1], scan[n - 1]);
      XorSame(scan[n - 1], s.previous[n - 1]);
    }
  }

  /** The key of `e` comes before that of `f`, row by row and column by column. */
  predicate KeyBefore(e: Event, f: Event) {
    e.row < f.row || (e.row == f.row && e.col < f.col)
  }

  /** The events are about keys of the rows from `row` on and before `end`, in order, and all `acted` or all not. */
  ghost predicate InOrder(c: Config, events: seq<Event>, acted: bool, row: nat, end: nat) {
    && (forall k :: 0 <= k < |events| ==>
          events[k].acted == acted && row <= events[k].row < end && events[k].col < c.cols)
    && forall j, k :: 0 <= j < k < |events| ==> KeyBefore(events[j], events[k])
  }

  lemma {:induction false} RowInOrder(c: Config, row: nat, current: Row, changes: Row, acted: bool, n: nat)
    requires n <= c.cols
    ensures InOrder(c, RowEvents(row, current, changes, acted, n), acted, row, row + 1)
    ensures forall k :: 0 <= k < |RowEvents(row, current, changes, acted, n)| ==>
              RowEvents(row, current, changes, acted, n)[k].col < n
  {
    if n > 0 {
      RowInOrder(c, row, current, changes, acted, n - 1);
    }
  }

  lemma OrderAppends(c: Config, a: seq<Event>, b: seq<Event>, acted: bool, row: nat)
    requires InOrder(c, a, acted, 0, row) && InOrder(c, b, acted, row, row + 1)
    ensures InOrder(c, a + b, acted, 0, row + 1)
  {
  }

  lemma {:induction false} ScanRowsInOrder(c: Config, s: State, scan: seq<Row>, acted: bool, n: nat)
    requires n <= |scan| == |s.previous|
    ensures var s' := ScanRows(c, s, scan, acted, n);
            s.events <= s'.events && InOrder(c, s'.events[|s.events|..], acted, 0, n)
  {
    hide Skipped, RowEvents, Xor;
    if n > 0 {
      ScanRowsInOrder(c, s, scan, acted, n - 1);
      var s1, s' := ScanRows(c, s, scan, acted, n - 1), ScanRows(c, s, scan, acted, n);
      var news := s1.events[|s.events|..];
      if Skipped(c, s1, scan, n - 1) {
        assert s' == s1;
      } else {
        var row := RowEvents(n - 1, scan[n - 1], Xor(scan[n - 1], s1.previous[n - 1]), acted, c.cols);
        RowInOrder(c, n - 1, scan[n - 1], Xor(scan[n - 1], s1.previous[n - 1]), acted, c.cols);
        OrderAppends(c, news, row, acted, n - 1);
        assert s'.events[|s.events|..] == news + row;
      }
    }
  }

  /** A scan reports its changes row by row and column by column, each key at most once, and hands all of them to the
      action code or none, as the task says. */
  lemma ScanInOrder(c: Config, s: State, scan: seq<Row>, acted: bool)
    requires |scan| == |s.previous|
    ensures var s' := Scan(c, s, scan, acted);
            s.events <= s'.events && InOrder(c, s'.events[|s.events|..], acted, 0, |scan|)
  {
    ScanRowsInOrder(c, s, scan, acted, |scan|);
  }

  // ---------------------------------------------------------------- the ghost test

  /** If a row is ghosted, so is the row it forms a rectangle with. */
  lemma GhostsComeInPairs(c: Config, scan: seq<Row>, row: nat) returns (other: nat)
    requires row < |scan| && Ghosted(c, scan, row)
    ensures other < |scan| && other != row && Ghosted(c, scan, other) && Rectangle(c, scan, other, row)
  {
    other :| 0 <= other < |scan| && other != row && Rectangle(c, scan, row, other);
    var i: nat, j: nat :| i < j && Down(c, scan, row, i) && Down(c, scan, row, j)
                       && Down(c, scan, other, i) && Down(c, scan, other, j);
    assert Rectangle(c, scan, other, row);
  }
}
