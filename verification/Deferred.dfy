/** The deferred executor of quantum/deferred_exec.c: a table of entries updated in place under a 32-bit
    clock, proved to compute what `DeferredModel` says on the wrapping clock. */
module Deferred {
  import opened Timer
  import opened DeferredModel

  /** `timer_read32` at true time `at`. */
  function TimerRead32(at: int): (r: nat)
    ensures r < TWO32 && r == Wrapping.Stamp(at)
  {
    at % 0x1_0000_0000
  }

  lemma StampSum(at: int, delay: nat)
    ensures (TimerRead32(at) + delay) % 0x1_0000_0000 == Wrapping.Stamp(at + delay)
  {
  }

  lemma ProbeUnfolds(entries: seq<Entry>, token: nat, n: nat)
    requires token < TOKENS && n > 0 && !TokenCanBeUsed(entries, token)
    ensures Probe(entries, token, n) == Probe(entries, Next(token), n - 1)
    ensures n == 1 ==> Probe(entries, token, n) == INVALID_TOKEN
  {
  }

  class DeferredExecutor {
    const table: array<Entry>
    var current: Token
    var last: int
    var log: seq<Call>

    ghost function Model(): Table
      reads this, table
    {
      Table(table[..], current, log)
    }

    constructor (size: nat)
      ensures fresh(table) && table.Length == size
      ensures Model() == Table(seq(size, _ => EMPTY), 0, []) && last == 0
    {
      table := new Entry[size](_ => EMPTY);
      current, last, log := 0, 0, [];
    }

    method TokenUsable(token: nat) returns (ok: bool)
      ensures ok == TokenCanBeUsed(table[..], token)
    {
      if token == INVALID_TOKEN {
        return false;
      }
      for i := 0 to table.Length
        invariant forall j :: 0 <= j < i ==> table[j].token != token
      {
        if table[i].token == token {
          assert table[..][i].token == token;
          return false;
        }
      }
      return true;
    }

    method AllocateToken() returns (token: nat)
      modifies this`current
      ensures token == DeferredModel.AllocateToken(old(Model()))
      ensures current == if token == INVALID_TOKEN then Next(old(current)) else token
    {
      ghost var entries := table[..];
      current := Next(current);
      var first := current;
      ghost var left := TOKENS;
      var ok := TokenUsable(current);
      while !ok
        invariant 0 < left <= TOKENS && table[..] == entries
        invariant current == (if first < left then first + TOKENS - left else first - left)
        invariant ok == TokenCanBeUsed(entries, current)
        invariant Probe(entries, current, left) == Probe(entries, first, TOKENS)
        decreases left
      {
        ProbeUnfolds(entries, current, left);
        current := Next(current);
        left := left - 1;
        if current == first {
          return INVALID_TOKEN;
        }
        ok := TokenUsable(current);
      }
      return current;
    }

    method DeferExec(delay: nat, callback: nat, arg: nat, at: int) returns (token: nat)
      modifies this`current, table
      ensures (Model(), token) == DoDefer(Wrapping, old(Model()), delay, callback, arg, at)
    {
      if table.Length == 0 || delay == 0 || callback == NO_CALLBACK {
        return INVALID_TOKEN;
      }
      for i := 0 to table.Length
        invariant Model() == old(Model())
        invariant FindSlot(table[..], INVALID_TOKEN, 0) == FindSlot(table[..], INVALID_TOKEN, i)
      {
        if table[i].token == INVALID_TOKEN {
          token := AllocateToken();
          if token == INVALID_TOKEN {
            return INVALID_TOKEN;
          }
          StampSum(at, delay);
          table[i] := Entry(current, (TimerRead32(at) + delay) % 0x1_0000_0000, callback, arg);
          return current;
        }
      }
      return INVALID_TOKEN;
    }

    method ExtendDeferredExec(token: nat, delay: nat, at: int) returns (ok: bool)
      modifies table
      ensures (Model(), ok) == DoExtend(Wrapping, old(Model()), token, delay, at)
    {
      if table.Length == 0 || delay == 0 || token == INVALID_TOKEN {
        return false;
      }
      for i := 0 to table.Length
        invariant Model() == old(Model())
        invariant FindSlot(table[..], token, 0) == FindSlot(table[..], token, i)
      {
        if table[i].token == token {
          StampSum(at, delay);
          table[i] := table[i].(trigger := (TimerRead32(at) + delay) % 0x1_0000_0000);
          return true;
        }
      }
      return false;
    }

    method CancelDeferredExec(token: nat) returns (ok: bool)
      modifies table
      ensures (Model(), ok) == DoCancel(old(Model()), token)
    {
      if table.Length == 0 || token == INVALID_TOKEN {
        return false;
      }
      for i := 0 to table.Length
        invariant Model() == old(Model())
        invariant FindSlot(table[..], token, 0) == FindSlot(table[..], token, i)
      {
        if table[i].token == token {
          table[i] := EMPTY;
          return true;
        }
      }
      return false;
    }

    /** The requests a callback makes while it runs. */
    method Serve(ops: seq<Op>)
      modifies this`current, table
      ensures Model() == ApplyAll(Wrapping, old(Model()), ops)
    {
      for k := 0 to |ops|
        invariant ApplyAll(Wrapping, Model(), ops[k..]) == ApplyAll(Wrapping, old(Model()), ops)
      {
        assert ops[k..][1..] == ops[k + 1..];
        match ops[k]
        case Defer(delay, callback, arg, at) => var _ := DeferExec(delay, callback, arg, at);
        case Extend(token, delay, at) => var _ := ExtendDeferredExec(token, delay, at);
        case Cancel(token) => var _ := CancelDeferredExec(token);
        case Elsewhere(c) => current := c;
      }
    }

    /** One turn of the task's loop. */
    method RunSlot(i: nat, now: int, cb: Callbacks)
      requires i < table.Length
      modifies this`current, this`log, table
      ensures Model() == Visit(Wrapping, old(Model()), i, now, cb)
    {
      var entry := table[i];
      var token := entry.token;
      if token != INVALID_TOKEN && AsInt32(TimerDiff32(entry.trigger, now)) <= 0 {
        log := log + [Call(i, token, entry.callback, entry.arg, entry.trigger, now)];
        assert Model() == Logged(old(Model()), i, now);
        var reply := cb(Wire(log));
        Serve(reply.ops);
        if table[i].token != token {
          return;
        }
        if reply.delay > 0 {
          table[i] := table[i].(trigger := (table[i].trigger + reply.delay) % 0x1_0000_0000);
        } else {
          table[i] := EMPTY;
        }
      }
    }

    /** `deferred_exec_advanced_task` when the clock stands at true time `now`. */
    method Task(now: int, cb: Callbacks)
      modifies this, table
      ensures System(Model(), last) == Pass(Wrapping, System(old(Model()), old(last)), now, cb)
    {
      if AsInt32(TimerDiff32(now, last)) > 0 {
        last := TimerRead32(now);
        ghost var t := Model();
        for i := 0 to table.Length
          invariant last == TimerRead32(now)
          invariant VisitFrom(Wrapping, Model(), i, now, cb) == VisitFrom(Wrapping, t, 0, now, cb)
        {
          RunSlot(i, now, cb);
        }
      }
    }
  }
}
