/** The swap flag and the packed array of swapped keys, updated in place. */
module HandSwap {
  import opened Bitwise
  import opened Bytes
  import opened HandSwapModel
  import opened Keys

  class HandSwapper {
    const h: Hands
    const swapState: array<Byte>
    var swapHands: bool

    ghost predicate Shaped() {
      swapState.Length == (h.rows * h.cols + 7) / 8
    }

    /** The truth value of every key. */
    ghost function Marks(): (m: seq<bool>)
      requires Shaped()
      reads swapState
      ensures |m| == h.rows * h.cols && forall i :: 0 <= i < |m| ==> m[i] == Bit(swapState[i / 8], i % 8)
    {
      seq(h.rows * h.cols, i requires 0 <= i < h.rows * h.cols && Shaped() reads swapState => Bit(swapState[i / 8], i % 8))
    }

    ghost function Value(): (s: Swap)
      requires Shaped()
      reads this, swapState
      ensures Fits(h, s)
    {
      Swap(swapHands, Marks())
    }

    constructor (h: Hands)
      ensures Shaped() && fresh(swapState) && this.h == h && Value() == Unswapped(h)
    {
      this.h := h;
      swapState := new Byte[(h.rows * h.cols + 7) / 8](_ => 0);
      swapHands := false;
      new;
      forall i | 0 <= i < h.rows * h.cols ensures !Bit(swapState[i / 8], i % 8) {
        BitZero(i % 8);
      }
    }

    method SwapHandsOn()
      requires Shaped()
      modifies this`swapHands
      ensures Value() == Do(h, old(Value()), SetSwap(true))
    {
      swapHands := true;
    }

    method SwapHandsOff()
      requires Shaped()
      modifies this`swapHands
      ensures Value() == Do(h, old(Value()), SetSwap(false))
    {
      swapHands := false;
    }

    method SwapHandsToggle()
      requires Shaped()
      modifies this`swapHands
      ensures Value() == Do(h, old(Value()), SetSwap(!old(swapHands)))
    {
      swapHands := !swapHands;
    }

    method ShouldSwapHands(index: nat, pressed: bool) returns (doSwap: bool)
      requires Shaped() && index < h.rows * h.cols
      ensures doSwap <==> if pressed then swapHands else Marks()[index]
    {
      var bitVal := Mask(index % 8);
      MaskTests(swapState[index / 8], index % 8);
      doSwap := if pressed then swapHands else And(swapState[index / 8], bitVal) != 0;
    }

    /** Sets or clears the truth value of one key. */
    method SetSwapHandsState(index: nat, on: bool)
      requires Shaped() && index < h.rows * h.cols
      modifies swapState
      ensures Marks() == old(Marks())[index := on]
    {
      var arrayIndex, bitIndex := index / 8, index % 8;
      var cell := swapState[arrayIndex];
      MaskIsByte(bitIndex);
      if on {
        OrIsByte(cell, bitIndex);
        swapState[arrayIndex] := Or(cell, Mask(bitIndex));
      } else {
        swapState[arrayIndex] := And(cell, Not(Mask(bitIndex), 8));
      }
      forall i | 0 <= i < h.rows * h.cols
        ensures Bit(swapState[i / 8], i % 8) == if i == index then on else old(Bit(swapState[i / 8], i % 8))
      {
        if i / 8 == arrayIndex {
          MaskedBit(cell, on, bitIndex, i % 8);
        }
      }
    }

    /** Moves an event on a matrix key to the other hand, a release if its press was moved. */
    method ProcessHandSwap(pressed: bool, key: Key) returns (delivered: Key)
      requires Shaped()
      modifies swapState
      ensures Value() == After(h, old(Value()), pressed, key) && delivered == Delivered(h, old(Value()), pressed, key)
    {
      delivered := key;
      if key.row < h.rows && key.col < h.cols {
        ghost var was := IndexOf(h, key);
        var index := key.row * h.cols + key.col;
        var doSwap := ShouldSwapHands(index, pressed);
        if doSwap {
          delivered := h.other(key);
          SetSwapHandsState(index, true);
        } else {
          SetSwapHandsState(index, false);
        }
      }
    }
  }

  lemma MaskIsByte(i: nat)
    requires i < 8
    ensures Mask(i) < 256 && Mask(8) == 256
  {
    assert Mask(8) == 256;
    MaskGrows(i + 1, 8);
    assert Mask(i + 1) == 2 * Mask(i);
  }

  lemma OrIsByte(cell: Byte, i: nat)
    requires i < 8
    ensures Or(cell, Mask(i)) < 256
  {
    MaskIsByte(i);
    OrBelow(cell, Mask(i), 8);
  }

  /** `cell | mask` sets one bit and `cell & ~mask` clears it. */
  lemma MaskedBit(cell: Byte, on: bool, bit: nat, i: nat)
    requires bit < 8 && i < 8 && Mask(bit) < Mask(8)
    ensures Bit(if on then Or(cell, Mask(bit)) else And(cell, Not(Mask(bit), 8)), i) == if i == bit then on else Bit(cell, i)
  {
    BitMask(bit, i);
    if on {
      BitOr(cell, Mask(bit), i);
    } else {
      BitAnd(cell, Not(Mask(bit), 8), i);
      BitNot(Mask(bit), 8, i);
    }
  }
}
