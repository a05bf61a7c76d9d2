/** The tap/hold resolver of quantum/action_tapping.c: one tapping key and a waiting ring of eight slots,
    updated in place, proved to compute what `TappingModel` says. */
module Tapping {
  import opened Ring
  import opened Timer
  import opened TappingModel

  lemma DrainUnfolds(c: Config, s: State, o: Outcome)
    requires s.waiting != [] && o == Process(c, s, s.waiting[0])
    ensures |o.state.waiting| == |s.waiting|
    ensures Drain(c, s) == if o.done then Drain(c, o.state.(waiting := o.state.waiting[1..]))
                           else o.state.(waiting := o.state.waiting[0 := o.rec])
  {
    ProcessKeepsLength(c, s, s.waiting[0]);
  }

  lemma FindUnfolds(c: Config, s: State, k: nat)
    requires k < |s.waiting|
    ensures FindRelease(c, s, k) == if SettlesAsTap(c, s, s.waiting[k]) then k else FindRelease(c, s, k + 1)
  {
  }

  class TapResolver {
    const cfg: Config
    const ring: array<Record>
    var tapping: Record
    var head: nat
    var tail: nat
    var out: seq<Emission>
    var overflows: nat

    ghost predicate Valid()
      reads this
    {
      ring.Length == WAITING_BUFFER_SIZE && head < WAITING_BUFFER_SIZE && tail < WAITING_BUFFER_SIZE
    }

    function Waiting(): (n: nat)
      requires Valid()
      reads this
      ensures n < WAITING_BUFFER_SIZE
    {
      if tail <= head then head - tail else head + WAITING_BUFFER_SIZE - tail
    }

    /** A loop over the waiting records is at slot `i`, the `k`-th of them, or at the end. */
    ghost predicate AtSlot(i: nat, k: nat)
      requires Valid()
      reads this
    {
      k <= Waiting() && i < WAITING_BUFFER_SIZE && (if k < Waiting() then i == Slot(WAITING_BUFFER_SIZE, tail, k) else i == head)
    }

    ghost function Model(): State
      requires Valid()
      reads this, ring
    {
      State(tapping, Unroll(ring[..], tail, Waiting()), out, overflows)
    }

    constructor (c: Config)
      ensures Valid() && fresh(ring) && cfg == c
      ensures Model() == INITIAL
    {
      cfg := c;
      ring := new Record[WAITING_BUFFER_SIZE](_ => NO_RECORD);
      tapping := NO_RECORD;
      head, tail := 0, 0;
      out := [];
      overflows := 0;
    }

    method ProcessRecord(r: Record, why: Cause)
      requires Valid()
      modifies this`out
      ensures Model() == old(Model()).Emit(r, why)
    {
      out := out + [Emission(r, why)];
    }

    function WithinTerm(e: Event): (within: bool)
      requires Valid()
      reads this, ring
      ensures within == WithinTappingTerm(cfg, Model(), e)
    {
      TimerDiff16(e.time, tapping.event.time) < cfg.term(out, tapping.event.key)
    }

    /** The slot after slot `i`, the `k`-th that is waiting. */
    method NextSlot(i: nat, ghost k: nat) returns (next: nat)
      requires Valid() && AtSlot(i, k) && k < Waiting()
      ensures AtSlot(next, k + 1)
    {
      next := (i + 1) % 8;
    }

    /** `waiting_buffer_enq`. */
    method WaitingBufferEnq(r: Record) returns (ok: bool)
      requires Valid()
      modifies this`head, ring
      ensures Valid()
      ensures ok ==> Model() == Enqueue(old(Model()), r)
      ensures !ok ==> Model() == old(Model())
      ensures ok == (r.event.IsTick() || |old(Model()).waiting| < WAITING_BUFFER_SIZE - 1)
    {
      if r.event.IsTick() {
        return true;
      }
      if (head + 1) % 8 == tail {
        return false;
      }
      ring[head] := r;
      head := (head + 1) % 8;
      assert Model().waiting == old(Model()).waiting + [r];
      return true;
    }

    /** `waiting_buffer_clear`. */
    method WaitingBufferClear()
      requires Valid()
      modifies this`head, this`tail
      ensures Valid() && Model() == old(Model()).(waiting := [])
    {
      head, tail := 0, 0;
    }

    /** `waiting_buffer_typed`. */
    method WaitingBufferTyped(e: Event) returns (typed: bool)
      requires Valid()
      ensures typed == Typed(Model().waiting, e)
    {
      var i: nat := tail;
      ghost var k: nat := 0;
      while i != head
        invariant Valid() && AtSlot(i, k)
        invariant forall j :: 0 <= j < k ==>
          !(Model().waiting[j].event.key == e.key && Model().waiting[j].event.pressed != e.pressed)
        decreases Waiting() - k
      {
        assert ring[i] == Model().waiting[k];
        if e.key == ring[i].event.key && e.pressed != ring[i].event.pressed {
          return true;
        }
        i := NextSlot(i, k);
        k := k + 1;
      }
      return false;
    }

    /** Settles the tapping key with the release in slot `i`, the `k`-th that is waiting. */
    method SettleSlot(i: nat, ghost k: nat)
      requires Valid() && k < Waiting() && i == Slot(WAITING_BUFFER_SIZE, tail, k)
      modifies this`tapping, this`out, ring
      ensures Valid() && Model() == SettleWith(old(Model()), k)
    {
      var candidate := ring[i];
      assert candidate == Model().waiting[k];
      var marked := candidate.(tap := candidate.tap.(count := 1));
      UnrollUpdate(ring[..], tail, Waiting(), k, marked);
      tapping := tapping.(tap := tapping.tap.(count := 1));
      ring[i] := marked;
      ProcessRecord(tapping, Tapped(candidate.event));
    }

    /** Whether the record in slot `i`, the `k`-th that is waiting, settles the tapping key as a tap. */
    method SettlesIn(i: nat, ghost k: nat) returns (settles: bool)
      requires Valid() && k < Waiting() && i == Slot(WAITING_BUFFER_SIZE, tail, k)
      ensures settles == SettlesAsTap(cfg, Model(), Model().waiting[k])
    {
      var candidate := ring[i];
      assert candidate == Model().waiting[k];
      settles := !candidate.event.IsTick() && candidate.event.key == tapping.event.key && !candidate.event.pressed
                 && WithinTerm(candidate.event);
    }

    /** `waiting_buffer_scan_tap`. */
    method WaitingBufferScanTap()
      requires Valid()
      modifies this`tapping, this`out, ring
      ensures Valid() && Model() == ScanTap(cfg, old(Model()))
    {
      if tapping.tap.count > 0 || !tapping.event.pressed {
        return;
      }
      ghost var s := Model();
      ghost var found := FindRelease(cfg, s, 0);
      var i: nat := tail;
      ghost var k: nat := 0;
      while i != head
        invariant Valid() && AtSlot(i, k) && Model() == s
        invariant found == FindRelease(cfg, s, k)
        decreases Waiting() - k
      {
        var settles := SettlesIn(i, k);
        FindUnfolds(cfg, s, k);
        if settles {
          SettleSlot(i, k);
          return;
        }
        i := NextSlot(i, k);
        k := k + 1;
      }
    }

    /** `process_tapping`. The record is passed in, and handed back as `r'` with what the original writes into it. */
    method ProcessTapping(r: Record) returns (done: bool, r': Record)
      requires Valid()
      modifies this`tapping, this`out, ring
      ensures Valid() && Outcome(Model(), done, r') == Process(cfg, old(Model()), r)
    {
      var event := r.event;
      r' := r;
      if tapping.event.IsTick() {
        if event.IsTick() {
        } else if event.pressed && cfg.isTap(out, event.key) {
          tapping := r;
          WaitingBufferScanTap();
        } else {
          ProcessRecord(r, Passed);
        }
        return true, r';
      }
      var within := WithinTerm(event);
      if tapping.event.pressed {
        if tapping.tap.count > 0 {
          done, r' := ProcessWhileTapped(r, within);
        } else if within {
          if event.IsTick() {
            return true, r';
          }
          done, r' := ProcessWhileUndecided(r);
        } else {
          ProcessRecord(tapping, Held(event));
          tapping := NO_RECORD;
          return false, r';
        }
      } else {
        done, r' := ProcessWhileReleased(r, within);
      }
    }

    /** Tapping key down, count 0, event within the tapping term. */
    method ProcessWhileUndecided(r: Record) returns (done: bool, r': Record)
      requires Valid()
      modifies this`tapping, this`out, ring
      ensures Valid() && Outcome(Model(), done, r') == ProcessUndecided(cfg, old(Model()), r)
    {
      var event := r.event;
      r' := r;
      var typed := WaitingBufferTyped(event);
      if tapping.event.key == event.key && !event.pressed {
        tapping := tapping.(tap := tapping.tap.(count := 1));
        ProcessRecord(tapping, Tapped(event));
        return false, r.(tap := tapping.tap);
      } else if !event.pressed && typed && cfg.permissiveHold(out, tapping.event.key) {
        ProcessRecord(tapping, Interfered(event));
        tapping := NO_RECORD;
        return false, r';
      } else if !event.pressed && !typed {
        if cfg.retainsRelease(out, r) {
          return false, r';
        }
        ProcessRecord(r, Passed);
        return true, r';
      } else {
        if event.pressed {
          tapping := tapping.(tap := tapping.tap.(interrupted := true));
          if cfg.holdOnOtherKeyPress(out, tapping.event.key) {
            ProcessRecord(tapping, Interfered(event));
            tapping := NO_RECORD;
            return false, r';
          }
        }
        return false, r';
      }
    }

    /** Tapping key down, count above 0, within the tapping term or after it. */
    method ProcessWhileTapped(r: Record, within: bool) returns (done: bool, r': Record)
      requires Valid()
      modifies this`tapping, this`out, ring
      ensures Valid() && Outcome(Model(), done, r') == ProcessTapped(cfg, old(Model()), r, within)
    {
      var event := r.event;
      r' := r;
      if event.IsTick() {
        return true, r';
      }
      if tapping.event.key == event.key && !event.pressed {
        r' := r.(tap := tapping.tap);
        ProcessRecord(r', Passed);
        tapping := if within then r' else NO_RECORD;
      } else if cfg.isTap(out, event.key) && event.pressed {
        if tapping.tap.count > 1 {
          ProcessRecord(
            Record(Event(tapping.event.key, event.time, tapping.event.kind, false), tapping.tap), Synthesised);
        }
        tapping := r;
        WaitingBufferScanTap();
      } else {
        ProcessRecord(r, Passed);
      }
      return true, r';
    }

    /** Tapping key released. */
    method ProcessWhileReleased(r: Record, within: bool) returns (done: bool, r': Record)
      requires Valid() && within == WithinTappingTerm(cfg, Model(), r.event)
      modifies this`tapping, this`out, ring
      ensures Valid() && Outcome(Model(), done, r') == ProcessReleased(cfg, old(Model()), r)
    {
      var event := r.event;
      r' := r;
      if !within {
        tapping := NO_RECORD;
        return false, r';
      }
      if event.IsTick() {
        return true, r';
      }
      if event.pressed {
        if tapping.event.key == event.key {
          var quick := TimerDiff16(event.time, tapping.event.time) < cfg.quickTapTerm(out, tapping.event.key);
          if quick && !tapping.tap.interrupted && tapping.tap.count > 0 {
            r' := r.(tap := tapping.tap);
            if r'.tap.count < MAX_TAP_COUNT {
              r' := r'.(tap := r'.tap.(count := r'.tap.count + 1));
            }
            ProcessRecord(r', Retapped(tapping));
          }
          tapping := r';
        } else if cfg.isTap(out, event.key) {
          tapping := r;
          WaitingBufferScanTap();
        } else {
          tapping := tapping.(tap := tapping.tap.(interrupted := true));
          ProcessRecord(r, Passed);
        }
      } else {
        ProcessRecord(r, Passed);
      }
      return true, r';
    }

    method AdvanceTail()
      requires Valid() && tail != head
      modifies this`tail
      ensures Valid() && Waiting() == old(Waiting()) - 1
      ensures Model() == old(Model()).(waiting := old(Model()).waiting[1..])
    {
      ghost var b, n := ring[..], Waiting();
      hide Unroll, Slot;
      UnrollRest(b, tail, n);
      tail := (tail + 1) % 8;
      assert ring[..] == b && Waiting() == n - 1;
    }

    /** What `process_tapping` wrote into the oldest slot. */
    method UpdateOldest(r: Record)
      requires Valid() && tail != head
      modifies ring
      ensures Valid() && Model() == old(Model()).(waiting := old(Model()).waiting[0 := r])
    {
      UnrollUpdate(ring[..], tail, Waiting(), 0, r);
      ring[tail] := r;
    }

    /** One turn of the loop over the waiting ring. */
    method DrainOne() returns (processed: bool)
      requires Valid() && tail != head
      modifies this`tapping, this`out, this`tail, ring
      ensures Valid()
      ensures processed ==> Waiting() < old(Waiting()) && Drain(cfg, Model()) == Drain(cfg, old(Model()))
      ensures !processed ==> Model() == Drain(cfg, old(Model()))
    {
      var first := ring[tail];
      assert first == Model().waiting[0];
      ghost var s := Model();
      var updated;
      processed, updated := ProcessTapping(first);
      ghost var s1 := Model();
      DrainUnfolds(cfg, s, Outcome(s1, processed, updated));
      if processed {
        AdvanceTail();
      } else {
        UpdateOldest(updated);
      }
    }

    /** `action_tapping_process` on the record that `action_exec` builds for `e`. */
    method ActionTappingProcess(e: Event)
      requires Valid()
      modifies this, ring
      ensures Valid() && Model() == Exec(cfg, old(Model()), e)
    {
      ghost var target := Exec(cfg, Model(), e);
      var done, r := ProcessTapping(Record(e, NO_TAP));
      if !done {
        var ok := WaitingBufferEnq(r);
        if !ok {
          WaitingBufferClear();
          tapping := NO_RECORD;
          overflows := overflows + 1;
        }
      }
      while tail != head
        invariant Valid() && Drain(cfg, Model()) == target
        decreases Waiting()
      {
        var processed := DrainOne();
        if !processed {
          break;
        }
      }
    }
  }
}
