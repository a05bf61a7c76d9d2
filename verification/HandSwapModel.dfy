/** Hand swapping of key events, with one truth value per key, and runs of key events interleaved with changes of the
    swap flag. */
module HandSwapModel {
  import opened Division
  import opened Keys
  import opened Optional

  /** The matrix size and the position that each key has on the other hand. */
  datatype Hands = Hands(rows: nat, cols: nat, other: Key -> Key)

  predicate OnBoard(h: Hands, key: Key) {
    key.row < h.rows && key.col < h.cols
  }

  function IndexOf(h: Hands, key: Key): (i: nat)
    requires OnBoard(h, key)
    ensures i < h.rows * h.cols
  {
    MulLess(key.row, h.rows, h.cols, key.col);
    key.row * h.cols + key.col
  }

  /** The swap flag, and for every key whether its latest press was swapped. */
  datatype Swap = Swap(on: bool, swapped: seq<bool>)

  predicate Fits(h: Hands, s: Swap) {
    |s.swapped| == h.rows * h.cols
  }

  datatype Step = SetSwap(on: bool) | Press(key: Key) | Release(key: Key)

  /** Whether an event on a matrix key is moved to the other hand: `should_swap_hands`. */
  function Moves(h: Hands, s: Swap, pressed: bool, key: Key): bool
    requires Fits(h, s) && OnBoard(h, key)
  {
    if pressed then s.on else s.swapped[IndexOf(h, key)]
  }

  /** Where an event on `key` is delivered. */
  function Delivered(h: Hands, s: Swap, pressed: bool, key: Key): Key
    requires Fits(h, s)
  {
    if OnBoard(h, key) && Moves(h, s, pressed, key) then h.other(key) else key
  }

  /** The state after an event on `key`. */
  function After(h: Hands, s: Swap, pressed: bool, key: Key): (t: Swap)
    requires Fits(h, s)
    ensures Fits(h, t)
  {
    if OnBoard(h, key) then s.(swapped := s.swapped[IndexOf(h, key) := Moves(h, s, pressed, key)]) else s
  }

  function Do(h: Hands, s: Swap, step: Step): (t: Swap)
    requires Fits(h, s)
    ensures Fits(h, t)
  {
    match step
    case SetSwap(on) => s.(on := on)
    case Press(key) => After(h, s, true, key)
    case Release(key) => After(h, s, false, key)
  }

  function Unswapped(h: Hands): (s: Swap)
    ensures Fits(h, s)
  {
    Swap(false, seq(h.rows * h.cols, _ => false))
  }

  /** The state after the first `n` steps of a run. */
  function SwapRun(h: Hands, steps: seq<Step>, n: nat): (s: Swap)
    requires n <= |steps|
    ensures Fits(h, s)
  {
    if n == 0 then Unswapped(h) else Do(h, SwapRun(h, steps, n - 1), steps[n - 1])
  }

  /** Where the key event at step `n` of a run is delivered. */
  function DeliveredAt(h: Hands, steps: seq<Step>, n: nat): Key
    requires n < |steps| && !steps[n].SetSwap?
  {
    Delivered(h, SwapRun(h, steps, n), steps[n].Press?, steps[n].key)
  }

  function LastPress(steps: seq<Step>, n: nat, key: Key): (i: Option<nat>)
    requires n <= |steps|
    ensures i.Some? ==> i.value < n && steps[i.value] == Press(key)
    ensures i.Some? ==> forall j :: i.value < j < n ==> steps[j] != Press(key)
    ensures i.None? ==> forall j :: 0 <= j < n ==> steps[j] != Press(key)
  {
    if n == 0 then None else if steps[n - 1] == Press(key) then Some(n - 1) else LastPress(steps, n - 1, key)
  }

  /** Different keys have different truth values. */
  lemma IndexInjective(h: Hands, k: Key, l: Key)
    requires OnBoard(h, k) && OnBoard(h, l) && IndexOf(h, k) == IndexOf(h, l)
    ensures k == l
  {
    if k.row < l.row {
      MulLess(k.row, l.row, h.cols, k.col);
    } else if l.row < k.row {
      MulLess(l.row, k.row, h.cols, l.col);
    }
  }

  /** After `n` steps a key is marked if and only if swapping was on at its latest press. */
  lemma {:induction false} MarksLatest(h: Hands, steps: seq<Step>, n: nat, key: Key)
    requires n <= |steps| && OnBoard(h, key)
    ensures SwapRun(h, steps, n).swapped[IndexOf(h, key)]
       <==> LastPress(steps, n, key).Some? && SwapRun(h, steps, LastPress(steps, n, key).value).on
  {
    if n > 0 {
      MarksLatest(h, steps, n - 1, key);
      var step := steps[n - 1];
      if !step.SetSwap? && OnBoard(h, step.key) && IndexOf(h, step.key) == IndexOf(h, key) {
        IndexInjective(h, step.key, key);
      }
    }
  }

  /** However the swap flag changes in between, a key's release is delivered where its latest press was; a key that was
      never pressed is released in its own place, and so is every key outside the matrix. */
  lemma ReleaseFollowsPress(h: Hands, steps: seq<Step>, n: nat)
    requires n < |steps| && steps[n].Release?
    ensures DeliveredAt(h, steps, n)
         == match LastPress(steps, n, steps[n].key)
            case None => steps[n].key
            case Some(i) => DeliveredAt(h, steps, i)
  {
    if OnBoard(h, steps[n].key) {
      MarksLatest(h, steps, n, steps[n].key);
    }
  }

  /** The swap flag as the first `n` steps leave it: the latest setting, or off. */
  function FlagAt(steps: seq<Step>, n: nat): bool
    requires n <= |steps|
  {
    if n == 0 then false else if steps[n - 1].SetSwap? then steps[n - 1].on else FlagAt(steps, n - 1)
  }

  lemma {:induction false} FlagIsLatest(h: Hands, steps: seq<Step>, n: nat)
    requires n <= |steps|
    ensures SwapRun(h, steps, n).on == FlagAt(steps, n)
  {
    if n > 0 {
      FlagIsLatest(h, steps, n - 1);
    }
  }

  /** The press of a matrix key goes to its place on the other hand exactly if swapping was last turned on, and stays in
      its own place otherwise, as does every key outside the matrix. */
  lemma PressDelivered(h: Hands, steps: seq<Step>, n: nat)
    requires n < |steps| && steps[n].Press?
    ensures var key := steps[n].key;
            DeliveredAt(h, steps, n)
            == if FlagAt(steps, n) && key.row < h.rows && key.col < h.cols then h.other(key) else key
  {
    FlagIsLatest(h, steps, n);
  }

  /** The release of a matrix key goes to the other hand exactly if swapping was on when the key last went down. */
  lemma ReleaseDelivered(h: Hands, steps: seq<Step>, n: nat)
    requires n < |steps| && steps[n].Release?
    ensures var key := steps[n].key;
            var i := LastPress(steps, n, key);
            DeliveredAt(h, steps, n)
            == if i.Some? && FlagAt(steps, i.value) && key.row < h.rows && key.col < h.cols then h.other(key) else key
  {
    ReleaseFollowsPress(h, steps, n);
    var i := LastPress(steps, n, steps[n].key);
    if i.Some? {
      PressDelivered(h, steps, i.value);
    }
  }
}
