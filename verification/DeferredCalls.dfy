/** What the requests of the deferred executor mean for the calls that follow: a cancelled token is silent, an entry is
    called once with what was asked for, and then repeats or is gone. */
module DeferredCalls {
  import opened Timer
  import opened DeferredModel
  import opened DeferredRuns

  // ---------------------------------------------------------------- one request

  /** The trigger time of a request for `delay` at `at`. */
  function Deadline(clk: Clock, at: int, delay: nat): int {
    match clk
    case Wrapping => (at + delay) % 0x1_0000_0000
    case Unbounded => at + delay
  }

  lemma FoundIfUsed(entries: seq<Entry>, token: nat)
    ensures FindSlot(entries, token, 0) < |entries| <==> InUse(entries, token)
  {
    if InUse(entries, token) {
      var i :| 0 <= i < |entries| && entries[i].token == token;
      assert FindSlot(entries, token, 0) <= i;
    }
  }

  /** Cancelling succeeds exactly for a live token; its entry is emptied, so that the token is in no slot any more, and
      every other entry stays. */
  lemma CancelExact(t: Table, token: nat)
    requires Distinct(t)
    ensures var (t', ok) := DoCancel(t, token);
            && (ok <==> token != 0 && InUse(t.entries, token))
            && (token != 0 ==> !InUse(t'.entries, token))
            && |t'.entries| == |t.entries| && t'.current == t.current && t'.log == t.log
            && forall j :: 0 <= j < |t.entries| ==>
                 t'.entries[j] == if token != 0 && t.entries[j].token == token then Entry(0, 0, 0, 0) else t.entries[j]
  {
    FoundIfUsed(t.entries, token);
  }

  /** Extending succeeds exactly for a live token and a positive delay; only the trigger time of its entry changes, to
      the time of the request plus the delay. */
  lemma ExtendExact(clk: Clock, t: Table, token: nat, delay: nat, at: int)
    requires Distinct(t)
    ensures var (t', ok) := DoExtend(clk, t, token, delay, at);
            && (ok <==> delay > 0 && token != 0 && InUse(t.entries, token))
            && |t'.entries| == |t.entries| && t'.current == t.current && t'.log == t.log
            && forall j :: 0 <= j < |t.entries| ==>
                 t'.entries[j] == if ok && t.entries[j].token == token
                                  then Entry(token, Deadline(clk, at, delay), t.entries[j].callback, t.entries[j].arg)
                                  else t.entries[j]
  {
    FoundIfUsed(t.entries, token);
  }

  lemma {:induction false} ProbeFirst(entries: seq<Entry>, token: nat, n: nat) returns (d: nat)
    requires token < TOKENS && Probe(entries, token, n) != INVALID_TOKEN
    ensures d < n && Probe(entries, token, n) == Candidate(token, d) && TokenCanBeUsed(entries, Candidate(token, d))
    ensures forall k :: 0 <= k < d ==> !TokenCanBeUsed(entries, Candidate(token, k))
    decreases entries, n
  {
    if TokenCanBeUsed(entries, token) {
      d := 0;
    } else {
      var e := ProbeFirst(entries, Next(token), n - 1);
      d := e + 1;
      forall k | 0 <= k < d ensures !TokenCanBeUsed(entries, Candidate(token, k)) {
        CandidateNext(token, k);
      }
      CandidateNext(token, d);
    }
  }

  lemma CandidateNext(token: nat, k: nat)
    requires token < TOKENS
    ensures if k == 0 then Candidate(token, k) == token else Candidate(token, k) == Candidate(Next(token), k - 1)
  {
  }

  /** A deferral that succeeds fills the first free slot with exactly what was asked for, under the first usable token
      after the current one; one that fails changes no entry, and moves the token counter on by one only when it was the
      search for a token that failed. */
  lemma {:induction false} DeferExact(clk: Clock, t: Table, delay: nat, callback: nat, arg: nat, at: int)
    ensures var (t', token) := DoDefer(clk, t, delay, callback, arg, at);
            && t'.log == t.log
            && (token == 0 ==>
                  && t'.entries == t.entries
                  && t'.current == if delay > 0 && callback != 0 && InUse(t.entries, 0) then (t.current + 1) % 256
                                   else t.current)
            && (token != 0 ==>
                  && delay > 0 && callback != 0 && t'.current == token
                  && (exists i :: 0 <= i < |t.entries| && FirstFree(t.entries, i)
                        && t'.entries == t.entries[i := Entry(token, Deadline(clk, at, delay), callback, arg)])
                  && NextUsable(t.entries, (t.current + 1) % 256, token))
  {
    var (t', token) := DoDefer(clk, t, delay, callback, arg, at);
    FoundIfUsed(t.entries, 0);
    if token != 0 {
      var i := FindSlot(t.entries, 0, 0);
      assert FirstFree(t.entries, i);
      var d := ProbeFirst(t.entries, Next(t.current), TOKENS);
      assert FirstUsable(t.entries, (t.current + 1) % 256, d);
    }
  }

  predicate FirstFree(entries: seq<Entry>, i: nat) {
    i < |entries| && entries[i].token == 0 && forall j :: 0 <= j < i ==> entries[j].token != 0
  }

  predicate FirstUsable(entries: seq<Entry>, first: nat, d: nat) {
    TokenCanBeUsed(entries, Candidate(first, d)) && forall k :: 0 <= k < d ==> !TokenCanBeUsed(entries, Candidate(first, k))
  }

  /** Counting up from `first`, and around, `token` is the first that can be used. */
  ghost predicate NextUsable(entries: seq<Entry>, first: nat, token: nat) {
    exists d :: 0 <= d < 256 && FirstUsable(entries, first, d) && token == Candidate(first, d)
  }

  // ---------------------------------------------------------------- who hands out a token

  predicate OpGives(clk: Clock, t: Table, op: Op, token: nat) {
    op.Defer? && DoDefer(clk, t, op.delay, op.callback, op.arg, op.at).1 == token
  }

  predicate OpsGive(clk: Clock, t: Table, ops: seq<Op>, token: nat)
    decreases |ops|
  {
    ops != [] && (OpGives(clk, t, ops[0], token) || OpsGive(clk, Apply(clk, t, ops[0]), ops[1..], token))
  }

  /** The callback of slot `i`, if it is called, is handed the token. */
  predicate VisitGives(clk: Clock, t: Table, i: nat, now: int, cb: Callbacks, token: nat)
    requires i < |t.entries|
  {
    Runs(clk, t.entries[i], now)
    && OpsGive(clk, Logged(t, i, now), cb(Wire(Logged(t, i, now).log)).ops, token)
  }

  predicate VisitFromGives(clk: Clock, t: Table, i: nat, now: int, cb: Callbacks, token: nat)
    requires i <= |t.entries|
    decreases |t.entries| - i
  {
    i < |t.entries|
    && (VisitGives(clk, t, i, now, cb, token) || VisitFromGives(clk, Visit(clk, t, i, now, cb), i + 1, now, cb, token))
  }

  predicate StepGives(clk: Clock, s: System, c: Command, cb: Callbacks, token: nat) {
    match c
    case Request(op) => OpGives(clk, s.table, op, token)
    case Task(now) => !clk.NotAfter(now, s.last) && VisitFromGives(clk, s.table, 0, now, cb, token)
  }

  /** Some request of the run, or of a callback in it, was answered with the token. */
  predicate RunGives(clk: Clock, s: System, cs: seq<Command>, cb: Callbacks, token: nat) {
    cs != []
    && (RunGives(clk, s, cs[..|cs| - 1], cb, token)
        || StepGives(clk, Run(clk, s, cs[..|cs| - 1], cb), cs[|cs| - 1], cb, token))
  }

  // ---------------------------------------------------------------- a token in no slot is silent

  /** The log has grown, by no call of the token. */
  ghost predicate NoCalls(log: seq<Call>, log': seq<Call>, token: nat) {
    log <= log' && forall k :: |log| <= k < |log'| ==> log'[k].token != token
  }

  lemma ApplySilent(clk: Clock, t: Table, op: Op, token: nat)
    requires token != 0 && !InUse(t.entries, token) && !OpGives(clk, t, op, token)
    ensures !InUse(Apply(clk, t, op).entries, token)
  {
    var t' := Apply(clk, t, op);
    forall i | 0 <= i < |t'.entries| ensures t'.entries[i].token != token {
      assert t.entries[i].token != token;
    }
  }

  lemma {:induction false} ApplyAllSilent(clk: Clock, t: Table, ops: seq<Op>, token: nat)
    requires token != 0 && !InUse(t.entries, token) && !OpsGive(clk, t, ops, token)
    ensures !InUse(ApplyAll(clk, t, ops).entries, token)
    decreases |ops|
  {
    if ops != [] {
      ApplySilent(clk, t, ops[0], token);
      ApplyAllSilent(clk, Apply(clk, t, ops[0]), ops[1..], token);
    }
  }

  lemma VisitSilent(clk: Clock, t: Table, i: nat, now: int, cb: Callbacks, token: nat)
    requires i < |t.entries| && token != 0 && !InUse(t.entries, token) && !VisitGives(clk, t, i, now, cb, token)
    ensures !InUse(Visit(clk, t, i, now, cb).entries, token)
    ensures NoCalls(t.log, Visit(clk, t, i, now, cb).log, token)
  {
    if Runs(clk, t.entries[i], now) {
      var called := Logged(t, i, now);
      var reply := cb(Wire(called.log));
      ApplyAllSilent(clk, called, reply.ops, token);
      var t1 := ApplyAll(clk, called, reply.ops);
      var t2 := Requeue(clk, t1, i, t.entries[i].token, reply.delay);
      assert forall j :: 0 <= j < |t1.entries| ==> t1.entries[j].token != token;
    }
  }

  lemma {:induction false} VisitFromSilent(clk: Clock, t: Table, i: nat, now: int, cb: Callbacks, token: nat)
    requires i <= |t.entries| && token != 0 && !InUse(t.entries, token) && !VisitFromGives(clk, t, i, now, cb, token)
    ensures !InUse(VisitFrom(clk, t, i, now, cb).entries, token)
    ensures NoCalls(t.log, VisitFrom(clk, t, i, now, cb).log, token)
    decreases |t.entries| - i
  {
    if i < |t.entries| {
      VisitSilent(clk, t, i, now, cb, token);
      VisitFromSilent(clk, Visit(clk, t, i, now, cb), i + 1, now, cb, token);
    }
  }

  /** A token in no slot stays in no slot, and is never called, until a deferral hands it out again. */
  lemma {:induction false} RunSilent(clk: Clock, s: System, cs: seq<Command>, cb: Callbacks, token: nat)
    requires token != 0 && !InUse(s.table.entries, token) && !RunGives(clk, s, cs, cb, token)
    ensures !InUse(Run(clk, s, cs, cb).table.entries, token)
    ensures NoCalls(s.table.log, Run(clk, s, cs, cb).table.log, token)
  {
    if cs != [] {
      var c := cs[|cs| - 1];
      var s1 := Run(clk, s, cs[..|cs| - 1], cb);
      RunSilent(clk, s, cs[..|cs| - 1], cb, token);
      match c
      case Request(op) => ApplySilent(clk, s1.table, op, token);
      case Task(now) =>
        if !clk.NotAfter(now, s1.last) {
          VisitFromSilent(clk, s1.table, 0, now, cb, token);
        }
    }
  }

  /** After a token has been cancelled no pass calls it, whatever else is requested, by callbacks too, until some
      deferral hands the token out again. */
  lemma {:induction false} CancelSilences(clk: Clock, s: System, token: nat, cs: seq<Command>, cb: Callbacks)
    requires Distinct(s.table) && token != 0
    requires !RunGives(clk, Step(clk, s, Request(Cancel(token)), cb), cs, cb, token)
    ensures var after := Run(clk, Step(clk, s, Request(Cancel(token)), cb), cs, cb);
            !InUse(after.table.entries, token) && NoCalls(s.table.log, after.table.log, token)
  {
    CancelExact(s.table, token);
    RunSilent(clk, Step(clk, s, Request(Cancel(token)), cb), cs, cb, token);
  }

  // ---------------------------------------------------------------- an entry is called with what was asked for

  ghost predicate NoCallbackTouches(cb: Callbacks, token: nat) {
    forall log: seq<Call> :: AllSpare(cb(log).ops, token)
  }

  lemma ApplyKeepsEntry(clk: Clock, t: Table, op: Op, slot: nat)
    requires slot < |t.entries| && Distinct(t) && t.entries[slot].token != 0 && Spares(op, t.entries[slot].token)
    ensures Apply(clk, t, op).entries[slot] == t.entries[slot]
  {
  }

  lemma {:induction false} ApplyAllKeepsEntry(clk: Clock, t: Table, ops: seq<Op>, slot: nat)
    requires slot < |t.entries| && Distinct(t) && t.entries[slot].token != 0 && AllSpare(ops, t.entries[slot].token)
    ensures ApplyAll(clk, t, ops).entries[slot] == t.entries[slot]
    decreases |ops|
  {
    if ops != [] {
      ApplyKeepsEntry(clk, t, ops[0], slot);
      ApplyDistinct(clk, t, ops[0]);
      ApplyAllKeepsEntry(clk, Apply(clk, t, ops[0]), ops[1..], slot);
    }
  }

  lemma VisitKeepsEntry(clk: Clock, t: Table, i: nat, now: int, cb: Callbacks, slot: nat)
    requires i < |t.entries| && slot < |t.entries| && Distinct(t)
    requires t.entries[slot].token != 0 && NoCallbackTouches(cb, t.entries[slot].token)
    requires i != slot || !Runs(clk, t.entries[slot], now)
    ensures Visit(clk, t, i, now, cb).entries[slot] == t.entries[slot]
    ensures NoCalls(t.log, Visit(clk, t, i, now, cb).log, t.entries[slot].token)
  {
    if Runs(clk, t.entries[i], now) {
      var called := Logged(t, i, now);
      ApplyAllKeepsEntry(clk, called, cb(Wire(called.log)).ops, slot);
    }
  }

  lemma {:induction false} VisitFromKeepsEntry(clk: Clock, t: Table, i: nat, now: int, cb: Callbacks, slot: nat)
    requires i <= |t.entries| && slot < |t.entries| && Distinct(t)
    requires t.entries[slot].token != 0 && NoCallbackTouches(cb, t.entries[slot].token)
    requires slot < i || !Runs(clk, t.entries[slot], now)
    ensures VisitFrom(clk, t, i, now, cb).entries[slot] == t.entries[slot]
    ensures NoCalls(t.log, VisitFrom(clk, t, i, now, cb).log, t.entries[slot].token)
    decreases |t.entries| - i
  {
    if i < |t.entries| {
      VisitKeepsEntry(clk, t, i, now, cb, slot);
      VisitDistinct(clk, t, i, now, cb);
      VisitFromKeepsEntry(clk, Visit(clk, t, i, now, cb), i + 1, now, cb, slot);
    }
  }

  /** Call `k` of the log is the one and only call of the entry `e` of this slot since the log was `before`. */
  ghost predicate CalledAt(before: seq<Call>, log: seq<Call>, k: nat, slot: nat, e: Entry, now: int) {
    && |before| <= k < |log| && before <= log
    && log[k] == Call(slot, e.token, e.callback, e.arg, e.trigger, now)
    && forall j :: |before| <= j < |log| && j != k ==> log[j].token != e.token
  }

  /** What has become of an entry that was called as call `k`: due again after the delay its callback returned, or gone. */
  ghost predicate Afterwards(clk: Clock, t: Table, k: nat, slot: nat, e: Entry, cb: Callbacks)
    requires k < |t.log| && slot < |t.entries|
  {
    var d := cb(Wire(t.log[..k + 1])).delay;
    if d == 0 then !InUse(t.entries, e.token)
    else t.entries[slot] == Entry(e.token, Deadline(clk, e.trigger, d), e.callback, e.arg)
  }

  lemma VisitCalls(clk: Clock, t: Table, now: int, cb: Callbacks, slot: nat)
    requires slot < |t.entries| && Distinct(t) && Runs(clk, t.entries[slot], now)
    requires NoCallbackTouches(cb, t.entries[slot].token)
    ensures var e := t.entries[slot];
            var t' := Visit(clk, t, slot, now, cb);
            && CalledAt(t.log, t'.log, |t.log|, slot, e, now) && |t'.log| == |t.log| + 1
            && Afterwards(clk, t', |t.log|, slot, e, cb)
  {
    var e := t.entries[slot];
    var called := Logged(t, slot, now);
    var reply := cb(Wire(called.log));
    var t1 := ApplyAll(clk, called, reply.ops);
    var t' := Visit(clk, t, slot, now, cb);
    ApplyAllKeepsEntry(clk, called, reply.ops, slot);
    ApplyAllDistinct(clk, called, reply.ops);
    assert t'.log == called.log == called.log[..|t.log| + 1];
    assert forall j :: 0 <= j < |t1.entries| && j != slot ==> t1.entries[j].token != e.token;
  }

  /** What a pass from the table with log `before` to the table `t'` has made of the entry `e` of this slot. */
  ghost predicate Turned(clk: Clock, before: seq<Call>, t': Table, slot: nat, e: Entry, now: int, cb: Callbacks) {
    && slot < |t'.entries|
    && if clk.NotAfter(e.trigger, now) then
         exists k :: CalledAt(before, t'.log, k, slot, e, now) && Afterwards(clk, t', k, slot, e, cb)
       else t'.entries[slot] == e && NoCalls(before, t'.log, e.token)
  }

  lemma TurnedEarlier(clk: Clock, a: seq<Call>, b: seq<Call>, t': Table, slot: nat, e: Entry, now: int, cb: Callbacks)
    requires NoCalls(a, b, e.token) && Turned(clk, b, t', slot, e, now, cb)
    ensures Turned(clk, a, t', slot, e, now, cb)
  {
    if clk.NotAfter(e.trigger, now) {
      var k :| CalledAt(b, t'.log, k, slot, e, now) && Afterwards(clk, t', k, slot, e, cb);
      CalledEarlier(a, b, t'.log, k, slot, e, now);
    } else {
      NoCallsTwice(a, b, t'.log, e.token);
    }
  }

  /** The rest of the pass, when the slot comes at or after `i`. */
  lemma {:induction false} PassFromExact(clk: Clock, t: Table, i: nat, now: int, cb: Callbacks, slot: nat)
    requires i <= slot < |t.entries| && Distinct(t) && t.entries[slot].token != 0
    requires NoCallbackTouches(cb, t.entries[slot].token)
    requires !VisitFromGives(clk, t, i, now, cb, t.entries[slot].token)
    ensures Turned(clk, t.log, VisitFrom(clk, t, i, now, cb), slot, t.entries[slot], now, cb)
    decreases |t.entries| - i
  {
    hide Turned, Visit;
    var e := t.entries[slot];
    var t1 := Visit(clk, t, i, now, cb);
    VisitDistinct(clk, t, i, now, cb);
    if i < slot {
      VisitKeepsEntry(clk, t, i, now, cb, slot);
      PassFromExact(clk, t1, i + 1, now, cb, slot);
      TurnedEarlier(clk, t.log, t1.log, VisitFrom(clk, t, i, now, cb), slot, e, now, cb);
    } else {
      PassAtSlot(clk, t, now, cb, slot);
    }
  }

  lemma PassAtSlot(clk: Clock, t: Table, now: int, cb: Callbacks, slot: nat)
    requires slot < |t.entries| && Distinct(t) && t.entries[slot].token != 0
    requires NoCallbackTouches(cb, t.entries[slot].token)
    requires !VisitFromGives(clk, t, slot, now, cb, t.entries[slot].token)
    ensures Turned(clk, t.log, VisitFrom(clk, t, slot, now, cb), slot, t.entries[slot], now, cb)
  {
    hide Visit;
    var e := t.entries[slot];
    var t1 := Visit(clk, t, slot, now, cb);
    var t' := VisitFrom(clk, t, slot, now, cb);
    VisitDistinct(clk, t, slot, now, cb);
    if Runs(clk, e, now) {
      VisitCalls(clk, t, now, cb, slot);
      RestAfterCall(clk, t1, slot, |t.log|, now, cb, e);
      CalledLater(t.log, t1.log, t'.log, |t.log|, slot, e, now);
    } else {
      VisitKeepsEntry(clk, t, slot, now, cb, slot);
      VisitFromKeepsEntry(clk, t1, slot + 1, now, cb, slot);
      NoCallsTwice(t.log, t1.log, t'.log, e.token);
    }
  }

  lemma NoCallsTwice(a: seq<Call>, b: seq<Call>, log: seq<Call>, token: nat)
    requires NoCalls(a, b, token)
    ensures NoCalls(b, log, token) ==> NoCalls(a, log, token)
  {
    if NoCalls(b, log, token) {
      forall j | |a| <= j < |log| ensures log[j].token != token {
        assert j < |b| ==> log[j] == b[j];
      }
    }
  }

  lemma CalledEarlier(a: seq<Call>, b: seq<Call>, log: seq<Call>, k: nat, slot: nat, e: Entry, now: int)
    requires NoCalls(a, b, e.token) && CalledAt(b, log, k, slot, e, now)
    ensures CalledAt(a, log, k, slot, e, now)
  {
    forall j | |a| <= j < |log| && j != k ensures log[j].token != e.token {
      assert j < |b| ==> log[j] == b[j];
    }
  }

  lemma CalledLater(a: seq<Call>, b: seq<Call>, log: seq<Call>, k: nat, slot: nat, e: Entry, now: int)
    requires CalledAt(a, b, k, slot, e, now) && NoCalls(b, log, e.token)
    ensures CalledAt(a, log, k, slot, e, now)
  {
    assert log[k] == b[k];
    forall j | |a| <= j < |log| && j != k ensures log[j].token != e.token {
      assert j < |b| ==> log[j] == b[j];
    }
  }

  /** What has become of the entry stays so for the rest of the pass. */
  lemma RestAfterCall(clk: Clock, t: Table, slot: nat, k: nat, now: int, cb: Callbacks, e: Entry)
    requires slot < |t.entries| && k < |t.log| && Distinct(t) && e.token != 0 && NoCallbackTouches(cb, e.token)
    requires !VisitFromGives(clk, t, slot + 1, now, cb, e.token) && Afterwards(clk, t, k, slot, e, cb)
    ensures var t' := VisitFrom(clk, t, slot + 1, now, cb);
            NoCalls(t.log, t'.log, e.token) && Afterwards(clk, t', k, slot, e, cb)
  {
    var t' := VisitFrom(clk, t, slot + 1, now, cb);
    if cb(Wire(t.log[..k + 1])).delay == 0 {
      VisitFromSilent(clk, t, slot + 1, now, cb, e.token);
    } else {
      VisitFromKeepsEntry(clk, t, slot + 1, now, cb, slot);
    }
    assert t'.log[..k + 1] == t.log[..k + 1];
  }

  /** An entry that no callback touches, and whose token is not handed out anew, is called by a pass exactly if its time
      has come: once, with its own callback, argument and trigger time. It is then due again the returned delay after
      its trigger time, or gone when the delay is zero; an entry whose time has not come stays as it is. A pass in the
      same millisecond as the last one does nothing. */
  lemma {:induction false} PassExact(clk: Clock, s: System, now: int, cb: Callbacks, slot: nat)
    requires slot < |s.table.entries| && Distinct(s.table) && s.table.entries[slot].token != 0
    requires NoCallbackTouches(cb, s.table.entries[slot].token)
    requires !StepGives(clk, s, Task(now), cb, s.table.entries[slot].token)
    ensures var e := s.table.entries[slot];
            var s' := Step(clk, s, Task(now), cb);
            if clk.NotAfter(now, s.last) then s' == s
            else
              s'.last == Deadline(clk, now, 0) && Turned(clk, s.table.log, s'.table, slot, e, now, cb)
  {
    if !clk.NotAfter(now, s.last) {
      PassFromExact(clk, s.table, 0, now, cb, slot);
    }
  }

  /** An entry that a callback puts in place of its own is left alone, whatever delay it returns. */
  lemma ReusedSlotKept(clk: Clock, t: Table, i: nat, now: int, cb: Callbacks)
    requires i < |t.entries| && t.entries[i].token != 0 && clk.NotAfter(t.entries[i].trigger, now)
    ensures var called := t.(log := t.log + [Call(i, t.entries[i].token, t.entries[i].callback, t.entries[i].arg,
                                                  t.entries[i].trigger, now)]);
            var after := ApplyAll(clk, called, cb(Wire(called.log)).ops);
            after.entries[i].token != t.entries[i].token ==> Visit(clk, t, i, now, cb) == after
  {
  }

  // ---------------------------------------------------------------- from the request to the call

  /** The command neither touches the entry with this token nor is a pass at or after its time. */
  predicate Before(clk: Clock, c: Command, token: nat, due: int) {
    match c
    case Request(op) => Spares(op, token)
    case Task(now) => !clk.NotAfter(due, now)
  }

  ghost predicate AllBefore(clk: Clock, cs: seq<Command>, token: nat, due: int) {
    forall k :: 0 <= k < |cs| ==> Before(clk, cs[k], token, due)
  }

  lemma {:induction false} StepKeepsEntry(clk: Clock, s: System, c: Command, cb: Callbacks, slot: nat)
    requires slot < |s.table.entries| && Distinct(s.table) && s.table.entries[slot].token != 0
    requires NoCallbackTouches(cb, s.table.entries[slot].token)
    requires Before(clk, c, s.table.entries[slot].token, s.table.entries[slot].trigger)
    ensures Distinct(Step(clk, s, c, cb).table) && slot < |Step(clk, s, c, cb).table.entries|
    ensures Step(clk, s, c, cb).table.entries[slot] == s.table.entries[slot]
    ensures NoCalls(s.table.log, Step(clk, s, c, cb).table.log, s.table.entries[slot].token)
  {
    match c
    case Request(op) =>
      ApplyDistinct(clk, s.table, op);
      ApplyKeepsEntry(clk, s.table, op, slot);
    case Task(now) =>
      VisitFromDistinct(clk, s.table, 0, now, cb);
      VisitFromKeepsEntry(clk, s.table, 0, now, cb, slot);
  }

  lemma {:induction false} RunKeepsEntry(clk: Clock, s: System, cs: seq<Command>, cb: Callbacks, slot: nat)
    requires slot < |s.table.entries| && Distinct(s.table) && s.table.entries[slot].token != 0
    requires NoCallbackTouches(cb, s.table.entries[slot].token)
    requires AllBefore(clk, cs, s.table.entries[slot].token, s.table.entries[slot].trigger)
    ensures var s' := Run(clk, s, cs, cb);
            && Distinct(s'.table) && slot < |s'.table.entries| && s'.table.entries[slot] == s.table.entries[slot]
            && NoCalls(s.table.log, s'.table.log, s.table.entries[slot].token)
  {
    if cs != [] {
      var n := |cs| - 1;
      var s1 := Run(clk, s, cs[..n], cb);
      forall k | 0 <= k < n ensures Before(clk, cs[..n][k], s.table.entries[slot].token, s.table.entries[slot].trigger) {
        assert Before(clk, cs[k], s.table.entries[slot].token, s.table.entries[slot].trigger);
      }
      RunKeepsEntry(clk, s, cs[..n], cb, slot);
      assert Before(clk, cs[n], s.table.entries[slot].token, s.table.entries[slot].trigger);
      StepKeepsEntry(clk, s1, cs[n], cb, slot);
      NoCallsTwice(s.table.log, s1.table.log, Run(clk, s, cs, cb).table.log, s.table.entries[slot].token);
    }
  }

  /** A deferral that succeeds is called by the first pass at or after its deadline, the time of the request plus the
      delay: with the callback and the argument that were given, and once; and then it repeats or is gone. Before that
      it is not called, whatever else is requested and however many passes come before the deadline. */
  lemma {:induction false} DeferredThenCalled(clk: Clock, s: System, delay: nat, callback: nat, arg: nat, at: int,
                                              cs: seq<Command>, now: int, cb: Callbacks)
    requires Distinct(s.table) && DoDefer(clk, s.table, delay, callback, arg, at).1 != 0
    requires var token := DoDefer(clk, s.table, delay, callback, arg, at).1;
             var s1 := Run(clk, Step(clk, s, Request(Defer(delay, callback, arg, at)), cb), cs, cb);
             && NoCallbackTouches(cb, token) && AllBefore(clk, cs, token, Deadline(clk, at, delay))
             && !clk.NotAfter(now, s1.last) && !StepGives(clk, s1, Task(now), cb, token)
    ensures var token := DoDefer(clk, s.table, delay, callback, arg, at).1;
            var s1 := Run(clk, Step(clk, s, Request(Defer(delay, callback, arg, at)), cb), cs, cb);
            var s2 := Step(clk, s1, Task(now), cb);
            && NoCalls(s.table.log, s1.table.log, token)
            && exists slot :: Turned(clk, s.table.log, s2.table, slot,
                                Entry(token, Deadline(clk, at, delay), callback, arg), now, cb)
  {
    var token := DoDefer(clk, s.table, delay, callback, arg, at).1;
    var e := Entry(token, Deadline(clk, at, delay), callback, arg);
    var s0 := Step(clk, s, Request(Defer(delay, callback, arg, at)), cb);
    var s1 := Run(clk, s0, cs, cb);
    DeferExact(clk, s.table, delay, callback, arg, at);
    var slot :| 0 <= slot < |s.table.entries| && FirstFree(s.table.entries, slot)
      && s0.table.entries == s.table.entries[slot := e];
    ApplyDistinct(clk, s.table, Defer(delay, callback, arg, at));
    RunKeepsEntry(clk, s0, cs, cb, slot);
    PassExact(clk, s1, now, cb, slot);
    TurnedEarlier(clk, s.table.log, s1.table.log, Step(clk, s1, Task(now), cb).table, slot, e, now, cb);
  }
}
