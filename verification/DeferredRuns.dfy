/** What every run of the deferred executor keeps: distinct tokens, an allocator that fails only when it
    must, faithful 32-bit time, and repetition without drift. */
module DeferredRuns {
  import opened Timer
  import opened DeferredModel

  // ---------------------------------------------------------------- tokens

  /** Live tokens are pairwise distinct and fit uint8_t. */
  ghost predicate Distinct(t: Table) {
    && (forall i :: 0 <= i < |t.entries| ==> t.entries[i].token < TOKENS)
    && forall i, j :: 0 <= i < j < |t.entries| && t.entries[i].token != INVALID_TOKEN ==>
         t.entries[i].token != t.entries[j].token
  }

  /** The `k`-th token tried from `token`. */
  function Candidate(token: nat, k: nat): (t: nat)
    ensures t < TOKENS
  {
    (token + k) % 256
  }

  lemma {:induction false} ProbeExact(entries: seq<Entry>, token: nat, n: nat)
    requires token < TOKENS
    ensures Probe(entries, token, n) == INVALID_TOKEN <==>
            forall k :: 0 <= k < n ==> !TokenCanBeUsed(entries, Candidate(token, k))
    decreases entries, n
  {
    if n > 0 {
      assert Candidate(token, 0) == token;
      var next := Next(token);
      ProbeExact(entries, next, n - 1);
      forall k | 0 < k < n ensures Candidate(token, k) == Candidate(next, k - 1) {
      }
      if !TokenCanBeUsed(entries, token) {
        if Probe(entries, token, n) != INVALID_TOKEN {
          var k :| 0 <= k < n - 1 && TokenCanBeUsed(entries, Candidate(next, k));
          assert TokenCanBeUsed(entries, Candidate(token, k + 1));
        }
      }
    }
  }

  /** The allocator fails exactly when all 255 tokens are in use. */
  lemma AllocationExact(t: Table)
    ensures AllocateToken(t) == INVALID_TOKEN <==>
            forall k :: 0 < k < TOKENS ==> InUse(t.entries, k)
  {
    var first := Next(t.current);
    ProbeExact(t.entries, first, TOKENS);
    if AllocateToken(t) == INVALID_TOKEN {
      forall k | 0 < k < TOKENS ensures InUse(t.entries, k) {
        CandidateReaches(first, k);
      }
    }
  }

  lemma CandidateReaches(first: nat, k: nat)
    requires first < TOKENS && k < TOKENS
    ensures exists d :: 0 <= d < TOKENS && Candidate(first, d) == k
  {
    var d := if first <= k then k - first else k + TOKENS - first;
    assert Candidate(first, d) == k;
  }

  function TokenSet(entries: seq<Entry>): (s: set<nat>)
    ensures |s| <= |entries|
    ensures forall x :: x in s <==> InUse(entries, x)
  {
    if entries == [] then {}
    else
      var n := |entries| - 1;
      assert forall x :: InUse(entries, x) <==> x == entries[n].token || InUse(entries[..n], x) by {
        forall x | InUse(entries, x) ensures x == entries[n].token || InUse(entries[..n], x) {
          var i :| 0 <= i < |entries| && entries[i].token == x;
          assert i < n ==> entries[..n][i].token == x;
        }
        forall x | InUse(entries[..n], x) ensures InUse(entries, x) {
          var i :| 0 <= i < n && entries[..n][i].token == x;
          assert entries[i].token == x;
        }
      }
      TokenSet(entries[..n]) + {entries[n].token}
  }

  function Below(n: nat): (s: set<nat>)
    ensures forall x :: x in s <==> 0 <= x < n
    ensures |s| == n
  {
    if n == 0 then {} else Below(n - 1) + {n - 1}
  }

  lemma SubsetSize(a: set<nat>, b: set<nat>)
    requires a <= b
    ensures |a| <= |b|
  {
    assert b == a + (b - a);
  }

  /** Pigeonhole: a table of at most 255 slots with a free one always gets a token. */
  lemma FreeSlotGetsToken(t: Table)
    requires |t.entries| < TOKENS
    requires InUse(t.entries, INVALID_TOKEN)
    ensures AllocateToken(t) != INVALID_TOKEN
  {
    AllocationExact(t);
    if AllocateToken(t) == INVALID_TOKEN {
      SubsetSize(Below(TOKENS), TokenSet(t.entries));
      assert false;
    }
  }

  /** Deferring succeeds on every proper request as long as a slot is free, and hands out a new token. */
  lemma DeferSucceeds(clk: Clock, t: Table, delay: nat, callback: nat, arg: nat, at: int)
    requires |t.entries| < TOKENS
    ensures var (t', token) := DoDefer(clk, t, delay, callback, arg, at);
            && (token != INVALID_TOKEN <==>
                delay > 0 && callback != NO_CALLBACK && InUse(t.entries, INVALID_TOKEN))
            && (token != INVALID_TOKEN ==> !InUse(t.entries, token) && InUse(t'.entries, token))
  {
    var i := FindSlot(t.entries, INVALID_TOKEN, 0);
    if InUse(t.entries, INVALID_TOKEN) {
      FreeSlotGetsToken(t);
      var (t', token) := DoDefer(clk, t, delay, callback, arg, at);
      if token != INVALID_TOKEN {
        assert t'.entries[i].token == token;
      }
    }
  }

  lemma ApplyDistinct(clk: Clock, t: Table, op: Op)
    requires Distinct(t)
    ensures Distinct(Apply(clk, t, op))
  {
  }

  lemma {:induction false} ApplyAllDistinct(clk: Clock, t: Table, ops: seq<Op>)
    requires Distinct(t)
    ensures Distinct(ApplyAll(clk, t, ops))
    decreases |ops|
  {
    if ops != [] {
      ApplyDistinct(clk, t, ops[0]);
      ApplyAllDistinct(clk, Apply(clk, t, ops[0]), ops[1..]);
    }
  }

  lemma VisitDistinct(clk: Clock, t: Table, i: nat, now: int, cb: Callbacks)
    requires i < |t.entries| && Distinct(t)
    ensures Distinct(Visit(clk, t, i, now, cb))
  {
    var called := Logged(t, i, now);
    ApplyAllDistinct(clk, called, cb(Wire(called.log)).ops);
  }

  lemma {:induction false} VisitFromDistinct(clk: Clock, t: Table, i: nat, now: int, cb: Callbacks)
    requires i <= |t.entries| && Distinct(t)
    ensures Distinct(VisitFrom(clk, t, i, now, cb))
    decreases |t.entries| - i
  {
    if i < |t.entries| {
      VisitDistinct(clk, t, i, now, cb);
      VisitFromDistinct(clk, Visit(clk, t, i, now, cb), i + 1, now, cb);
    }
  }

  /** Live tokens stay distinct through any requests and passes, whatever the callbacks do to the table. */
  lemma {:induction false} RunDistinct(clk: Clock, s: System, cs: seq<Command>, cb: Callbacks)
    requires Distinct(s.table)
    ensures Distinct(Run(clk, s, cs, cb).table)
  {
    if cs != [] {
      var c := cs[|cs| - 1];
      var s1 := Run(clk, s, cs[..|cs| - 1], cb);
      RunDistinct(clk, s, cs[..|cs| - 1], cb);
      match c
      case Request(op) => ApplyDistinct(clk, s1.table, op);
      case Task(now) => VisitFromDistinct(clk, s1.table, 0, now, cb);
    }
  }

  // ---------------------------------------------------------------- wrapping time refines true time

  /** The two times are close enough for a signed 32-bit difference. */
  predicate Close(a: int, b: int) {
    -TWO31 <= a - b < TWO31
  }

  /** The wrapping comparison means what it should exactly when the times are close. */
  lemma NotAfterExact(a: int, b: int)
    requires -TWO32 < a - b < TWO32
    ensures Close(a, b) <==>
            (Wrapping.NotAfter(Wrapping.Stamp(a), Wrapping.Stamp(b)) <==> Unbounded.NotAfter(a, b))
  {
  }

  /** A table on the wrapping clock shows a table on the unbounded clock. */
  ghost predicate Shows(w: Table, u: Table) {
    && |w.entries| == |u.entries| && w.current == u.current && w.log == Wire(u.log)
    && forall i :: 0 <= i < |w.entries| ==>
         w.entries[i] == u.entries[i].(trigger := Wrapping.Stamp(u.entries[i].trigger))
  }

  lemma {:induction false} FindSlotShows(w: Table, u: Table, token: nat, from: nat)
    requires Shows(w, u) && from <= |w.entries|
    ensures FindSlot(w.entries, token, from) == FindSlot(u.entries, token, from)
    decreases |w.entries| - from
  {
    if from < |w.entries| && w.entries[from].token != token {
      FindSlotShows(w, u, token, from + 1);
    }
  }

  lemma {:induction false} ProbeShows(w: Table, u: Table, token: nat, n: nat)
    requires Shows(w, u) && token < TOKENS
    ensures Probe(w.entries, token, n) == Probe(u.entries, token, n)
    decreases n
  {
    if n > 0 {
      assert InUse(w.entries, token) <==> InUse(u.entries, token) by {
        if InUse(w.entries, token) {
          var i :| 0 <= i < |w.entries| && w.entries[i].token == token;
          assert u.entries[i].token == token;
        }
        if InUse(u.entries, token) {
          var i :| 0 <= i < |u.entries| && u.entries[i].token == token;
          assert w.entries[i].token == token;
        }
      }
      ProbeShows(w, u, Next(token), n - 1);
    }
  }

  lemma ApplyShows(w: Table, u: Table, op: Op)
    requires Shows(w, u)
    ensures Shows(Apply(Wrapping, w, op), Apply(Unbounded, u, op))
  {
    match op
    case Defer(delay, callback, arg, at) =>
      FindSlotShows(w, u, INVALID_TOKEN, 0);
      ProbeShows(w, u, Next(w.current), TOKENS);
    case Extend(token, delay, at) =>
      FindSlotShows(w, u, token, 0);
    case Cancel(token) =>
      FindSlotShows(w, u, token, 0);
    case Elsewhere(_) =>
  }

  lemma {:induction false} ApplyAllShows(w: Table, u: Table, ops: seq<Op>)
    requires Shows(w, u)
    ensures Shows(ApplyAll(Wrapping, w, ops), ApplyAll(Unbounded, u, ops))
    decreases |ops|
  {
    if ops != [] {
      ApplyShows(w, u, ops[0]);
      ApplyAllShows(Apply(Wrapping, w, ops[0]), Apply(Unbounded, u, ops[0]), ops[1..]);
    }
  }

  lemma RequeueShows(w: Table, u: Table, i: nat, was: nat, delay: nat)
    requires Shows(w, u) && i < |w.entries|
    ensures Shows(Requeue(Wrapping, w, i, was, delay), Requeue(Unbounded, u, i, was, delay))
  {
  }

  lemma WireSnoc(log: seq<Call>, c: Call)
    ensures Wire(log + [c]) == Wire(log) + [c.(trigger := c.trigger % 0x1_0000_0000)]
  {
  }

  lemma WireTwice(log: seq<Call>)
    ensures Wire(Wire(log)) == Wire(log)
  {
  }

  lemma VisitShows(w: Table, u: Table, i: nat, now: int, cb: Callbacks)
    requires Shows(w, u) && i < |w.entries|
    requires u.entries[i].token != INVALID_TOKEN ==> Close(u.entries[i].trigger, now)
    ensures Shows(Visit(Wrapping, w, i, now, cb), Visit(Unbounded, u, i, now, cb))
  {
    NotAfterStamp(w.entries[i].trigger, now);
    if Runs(Unbounded, u.entries[i], now) {
      NotAfterExact(u.entries[i].trigger, now);
      var w1, u1 := Logged(w, i, now), Logged(u, i, now);
      WireSnoc(u.log, u1.log[|u.log|]);
      WireTwice(u1.log);
      var reply := cb(Wire(u1.log));
      ApplyAllShows(w1, u1, reply.ops);
      RequeueShows(ApplyAll(Wrapping, w1, reply.ops), ApplyAll(Unbounded, u1, reply.ops), i,
                   u.entries[i].token, reply.delay);
    } else if u.entries[i].token != INVALID_TOKEN {
      NotAfterExact(u.entries[i].trigger, now);
    }
  }

  lemma NotAfterStamp(a: int, b: int)
    ensures Wrapping.NotAfter(a, Wrapping.Stamp(b)) == Wrapping.NotAfter(a, b)
    ensures Wrapping.NotAfter(Wrapping.Stamp(b), a) == Wrapping.NotAfter(b, a)
  {
    var q := b / TWO32;
    assert b == q * TWO32 + Wrapping.Stamp(b);
    ModShift(a - b, q);
    ModShift(b - a, -q);
  }

  lemma ModShift(x: int, q: int)
    ensures (x + q * TWO32) % 0x1_0000_0000 == x % 0x1_0000_0000
  {
  }

  /** Whenever the pass comes to a live entry, its trigger time is close to the time of the pass. */
  ghost predicate TimelyFrom(u: Table, i: nat, now: int, cb: Callbacks)
    requires i <= |u.entries|
    decreases |u.entries| - i
  {
    i == |u.entries| ||
    (&& (u.entries[i].token != INVALID_TOKEN ==> Close(u.entries[i].trigger, now))
     && TimelyFrom(Visit(Unbounded, u, i, now, cb), i + 1, now, cb))
  }

  lemma {:induction false} VisitFromShows(w: Table, u: Table, i: nat, now: int, cb: Callbacks)
    requires Shows(w, u) && i <= |w.entries| && TimelyFrom(u, i, now, cb)
    ensures Shows(VisitFrom(Wrapping, w, i, now, cb), VisitFrom(Unbounded, u, i, now, cb))
    decreases |w.entries| - i
  {
    if i < |w.entries| {
      VisitShows(w, u, i, now, cb);
      VisitFromShows(Visit(Wrapping, w, i, now, cb), Visit(Unbounded, u, i, now, cb), i + 1, now, cb);
    }
  }

  /** Passes are less than 2^31 ms apart and no entry is set, or late, by more than that. */
  ghost predicate TimelyStep(u: System, c: Command, cb: Callbacks) {
    match c
    case Request(_) => true
    case Task(now) => Close(now, u.last) && (now > u.last ==> TimelyFrom(u.table, 0, now, cb))
  }

  ghost predicate Timely(u: System, cs: seq<Command>, cb: Callbacks) {
    cs == [] ||
    (&& Timely(u, cs[..|cs| - 1], cb)
     && TimelyStep(Run(Unbounded, u, cs[..|cs| - 1], cb), cs[|cs| - 1], cb))
  }

  ghost predicate SystemShows(w: System, u: System) {
    Shows(w.table, u.table) && w.last == Wrapping.Stamp(u.last)
  }

  /** In a timely run, the executor on the wrapping clock does exactly what one on an unbounded clock
      would: the same calls, in the same order, with the same trigger times modulo 2^32. */
  lemma {:induction false} WrappingRefinesUnbounded(w: System, u: System, cs: seq<Command>, cb: Callbacks)
    requires SystemShows(w, u) && Timely(u, cs, cb)
    ensures SystemShows(Run(Wrapping, w, cs, cb), Run(Unbounded, u, cs, cb))
  {
    if cs != [] {
      var c := cs[|cs| - 1];
      var w1, u1 := Run(Wrapping, w, cs[..|cs| - 1], cb), Run(Unbounded, u, cs[..|cs| - 1], cb);
      WrappingRefinesUnbounded(w, u, cs[..|cs| - 1], cb);
      match c
      case Request(op) => ApplyShows(w1.table, u1.table, op);
      case Task(now) =>
        NotAfterExact(now, u1.last);
        NotAfterStamp(w1.last, now);
        if now > u1.last {
          VisitFromShows(w1.table, u1.table, 0, now, cb);
        }
    }
  }

  // ---------------------------------------------------------------- one pass

  /** The calls from position `from` on were made at `now`, each due, in strictly increasing slots. */
  ghost predicate CallsOfPass(clk: Clock, log: seq<Call>, from: nat, now: int) {
    && (forall k :: from <= k < |log| ==>
          log[k].at == now && log[k].token != INVALID_TOKEN && clk.NotAfter(log[k].trigger, now))
    && (forall j, k :: from <= j < k < |log| ==> log[j].slot < log[k].slot)
  }

  lemma VisitLogs(clk: Clock, t: Table, i: nat, now: int, cb: Callbacks)
    requires i < |t.entries|
    ensures Visit(clk, t, i, now, cb).log == if Runs(clk, t.entries[i], now) then Logged(t, i, now).log else t.log
  {
  }

  lemma {:induction false} VisitFromCalls(clk: Clock, t: Table, i: nat, now: int, cb: Callbacks, from: nat)
    requires i <= |t.entries| && from <= |t.log| && CallsOfPass(clk, t.log, from, now)
    requires forall k :: from <= k < |t.log| ==> t.log[k].slot < i
    ensures var t' := VisitFrom(clk, t, i, now, cb);
            t.log <= t'.log && CallsOfPass(clk, t'.log, from, now)
    decreases |t.entries| - i
  {
    hide Visit;
    if i < |t.entries| {
      VisitLogs(clk, t, i, now, cb);
      VisitFromCalls(clk, Visit(clk, t, i, now, cb), i + 1, now, cb, from);
    }
  }

  /** A pass calls each slot at most once, and only entries whose time has come. */
  lemma PassCalls(clk: Clock, s: System, now: int, cb: Callbacks)
    ensures var s' := Pass(clk, s, now, cb);
            s.table.log <= s'.table.log && CallsOfPass(clk, s'.table.log, |s.table.log|, now)
  {
    VisitFromCalls(clk, s.table, 0, now, cb, |s.table.log|);
  }

  // ---------------------------------------------------------------- repetition does not drift

  /** Nobody but the executor itself touches the entry with this token. */
  predicate Spares(op: Op, token: nat) {
    !(op.Extend? && op.token == token) && !(op.Cancel? && op.token == token)
  }

  ghost predicate AllSpare(ops: seq<Op>, token: nat) {
    forall k :: 0 <= k < |ops| ==> Spares(ops[k], token)
  }

  /** What was called last replies without touching `token`, and with delay `d` if it was that token. */
  ghost predicate RepliesOnBeat(cb: Callbacks, log: seq<Call>, token: nat, d: nat)
    requires log != []
  {
    AllSpare(cb(log).ops, token) && (log[|log| - 1].token == token ==> cb(log).delay == d)
  }

  /** The callback of `token` always returns `d`, and no callback touches that token. */
  ghost predicate Periodic(cb: Callbacks, token: nat, d: nat) {
    forall log: seq<Call> :: log != [] ==> RepliesOnBeat(cb, log, token, d)
  }

  function CallsOf(log: seq<Call>, token: nat): nat {
    if log == [] then 0
    else CallsOf(log[..|log| - 1], token) + (if log[|log| - 1].token == token then 1 else 0)
  }

  /** The slot holds the token, next due at true time `due`. */
  predicate DueAt(clk: Clock, t: Table, slot: nat, token: nat, due: int) {
    slot < |t.entries| && t.entries[slot].token == token && t.entries[slot].trigger == clk.Stamp(due)
  }

  /** The `k`-th call of the token received the `k`-th beat. */
  ghost predicate CallsOnBeat(clk: Clock, log: seq<Call>, token: nat, start: int, d: nat) {
    forall k :: 0 <= k < |log| && log[k].token == token ==> CallOnBeat(clk, log[..k], log[k], start, d)
  }

  /** The call received the beat that follows the calls of the same token in `earlier`. */
  predicate CallOnBeat(clk: Clock, earlier: seq<Call>, c: Call, start: int, d: nat) {
    c.trigger == clk.Stamp(Beat(start, CallsOf(earlier, c.token), d))
  }

  /** The `k`-th beat: `start`, `start + d`, `start + 2*d`, ... */
  function Beat(start: int, k: nat, d: nat): int {
    if k == 0 then start else Beat(start, k - 1, d) + d
  }

  lemma {:induction false} BeatIsMultiple(start: int, k: nat, d: nat)
    ensures Beat(start, k, d) == start + k * d
  {
    if k > 0 {
      BeatIsMultiple(start, k - 1, d);
    }
  }

  ghost predicate OnBeat(clk: Clock, t: Table, slot: nat, token: nat, start: int, d: nat) {
    && DueAt(clk, t, slot, token, Beat(start, CallsOf(t.log, token), d))
    && CallsOnBeat(clk, t.log, token, start, d)
  }

  lemma ApplyKeepsDue(clk: Clock, t: Table, op: Op, slot: nat, token: nat, due: int)
    requires Distinct(t) && token != INVALID_TOKEN && Spares(op, token)
    requires DueAt(clk, t, slot, token, due)
    ensures DueAt(clk, Apply(clk, t, op), slot, token, due)
  {
  }

  lemma {:induction false} ApplyAllKeepsDue(clk: Clock, t: Table, ops: seq<Op>, slot: nat, token: nat, due: int)
    requires Distinct(t) && token != INVALID_TOKEN && AllSpare(ops, token)
    requires DueAt(clk, t, slot, token, due)
    ensures Distinct(ApplyAll(clk, t, ops)) && DueAt(clk, ApplyAll(clk, t, ops), slot, token, due)
    decreases |ops|
  {
    if ops != [] {
      ApplyKeepsDue(clk, t, ops[0], slot, token, due);
      ApplyDistinct(clk, t, ops[0]);
      ApplyAllKeepsDue(clk, Apply(clk, t, ops[0]), ops[1..], slot, token, due);
    }
  }

  lemma LogOnBeat(clk: Clock, log: seq<Call>, c: Call, token: nat, start: int, d: nat)
    requires CallsOnBeat(clk, log, token, start, d)
    requires c.token == token ==> CallOnBeat(clk, log, c, start, d)
    ensures CallsOnBeat(clk, log + [c], token, start, d)
    ensures CallsOf(log + [c], token) == CallsOf(log, token) + (if c.token == token then 1 else 0)
  {
    var log' := log + [c];
    assert log'[..|log|] == log;
    forall k | 0 <= k < |log'| && log'[k].token == token ensures CallOnBeat(clk, log'[..k], log'[k], start, d) {
      assert log'[..k] == log[..k];
    }
  }

  lemma StampAdd(clk: Clock, a: int, b: int)
    ensures clk.Stamp(clk.Stamp(a) + b) == clk.Stamp(a + b)
  {
  }

  /** After the callback of the token's own slot, its entry is due `delay` later. */
  lemma RequeueOwn(clk: Clock, t: Table, slot: nat, token: nat, delay: nat, due: int)
    requires DueAt(clk, t, slot, token, due) && delay > 0
    ensures DueAt(clk, Requeue(clk, t, slot, token, delay), slot, token, due + delay)
  {
    StampAdd(clk, due, delay);
  }

  lemma VisitOwn(clk: Clock, t: Table, now: int, cb: Callbacks, slot: nat, token: nat, due: int, d: nat)
    requires Distinct(t) && token != INVALID_TOKEN && d > 0 && Periodic(cb, token, d)
    requires DueAt(clk, t, slot, token, due) && Runs(clk, t.entries[slot], now)
    ensures DueAt(clk, Visit(clk, t, slot, now, cb), slot, token, due + d)
    ensures Visit(clk, t, slot, now, cb).log == Logged(t, slot, now).log
  {
    var called := Logged(t, slot, now);
    var log := Wire(called.log);
    assert RepliesOnBeat(cb, log, token, d) && log[|log| - 1].token == token;
    var reply := cb(log);
    ApplyAllKeepsDue(clk, called, reply.ops, slot, token, due);
    RequeueOwn(clk, ApplyAll(clk, called, reply.ops), slot, token, d, due);
  }

  lemma VisitOther(clk: Clock, t: Table, i: nat, now: int, cb: Callbacks, slot: nat, token: nat, due: int, d: nat)
    requires i < |t.entries| && i != slot && Runs(clk, t.entries[i], now)
    requires Distinct(t) && token != INVALID_TOKEN && Periodic(cb, token, d)
    requires DueAt(clk, t, slot, token, due)
    ensures DueAt(clk, Visit(clk, t, i, now, cb), slot, token, due)
    ensures Visit(clk, t, i, now, cb).log == Logged(t, i, now).log
  {
    var called := Logged(t, i, now);
    var log := Wire(called.log);
    assert RepliesOnBeat(cb, log, token, d);
    ApplyAllKeepsDue(clk, called, cb(log).ops, slot, token, due);
  }

  lemma NextBeat(clk: Clock, t: Table, t': Table, c: Call, slot: nat, token: nat, start: int, d: nat, due: int)
    requires OnBeat(clk, t, slot, token, start, d) && t'.log == t.log + [c]
    requires due == Beat(start, CallsOf(t.log, token), d)
    requires c.token == token ==> c.trigger == clk.Stamp(due)
    requires DueAt(clk, t', slot, token, if c.token == token then due + d else due)
    ensures OnBeat(clk, t', slot, token, start, d)
  {
    LogOnBeat(clk, t.log, c, token, start, d);
  }

  lemma VisitOnBeat(clk: Clock, t: Table, i: nat, now: int, cb: Callbacks, slot: nat, token: nat, start: int, d: nat)
    requires i < |t.entries| && Distinct(t) && token != INVALID_TOKEN && d > 0 && Periodic(cb, token, d)
    requires OnBeat(clk, t, slot, token, start, d)
    ensures OnBeat(clk, Visit(clk, t, i, now, cb), slot, token, start, d)
  {
    var t' := Visit(clk, t, i, now, cb);
    if Runs(clk, t.entries[i], now) {
      var c := Logged(t, i, now).log[|t.log|];
      var due := Beat(start, CallsOf(t.log, token), d);
      if i == slot {
        VisitOwn(clk, t, now, cb, slot, token, due, d);
      } else {
        VisitOther(clk, t, i, now, cb, slot, token, due, d);
      }
      NextBeat(clk, t, t', c, slot, token, start, d, due);
    }
  }

  lemma {:induction false} VisitFromOnBeat(clk: Clock, t: Table, i: nat, now: int, cb: Callbacks,
                                           slot: nat, token: nat, start: int, d: nat)
    requires i <= |t.entries| && Distinct(t) && token != INVALID_TOKEN && d > 0 && Periodic(cb, token, d)
    requires OnBeat(clk, t, slot, token, start, d)
    ensures OnBeat(clk, VisitFrom(clk, t, i, now, cb), slot, token, start, d)
    decreases |t.entries| - i
  {
    if i < |t.entries| {
      VisitOnBeat(clk, t, i, now, cb, slot, token, start, d);
      VisitDistinct(clk, t, i, now, cb);
      VisitFromOnBeat(clk, Visit(clk, t, i, now, cb), i + 1, now, cb, slot, token, start, d);
    }
  }

  /** However late the passes are, the `k`-th call of a callback that always returns `d` receives the
      first trigger time plus `k*d` (modulo 2^32 on the wrapping clock), and the entry stays live. */
  lemma {:induction false} NoDrift(clk: Clock, s: System, cs: seq<Command>, cb: Callbacks,
                                   slot: nat, token: nat, start: int, d: nat)
    requires Distinct(s.table) && token != INVALID_TOKEN && d > 0 && Periodic(cb, token, d)
    requires forall k :: 0 <= k < |cs| && cs[k].Request? ==> Spares(cs[k].op, token)
    requires CallsOf(s.table.log, token) == 0 && CallsOnBeat(clk, s.table.log, token, start, d)
    requires DueAt(clk, s.table, slot, token, start)
    ensures OnBeat(clk, Run(clk, s, cs, cb).table, slot, token, start, d)
  {
    if cs != [] {
      var c := cs[|cs| - 1];
      var s1 := Run(clk, s, cs[..|cs| - 1], cb);
      NoDrift(clk, s, cs[..|cs| - 1], cb, slot, token, start, d);
      RunDistinct(clk, s, cs[..|cs| - 1], cb);
      match c
      case Request(op) =>
        ApplyKeepsDue(clk, s1.table, op, slot, token, Beat(start, CallsOf(s1.table.log, token), d));
      case Task(now) => VisitFromOnBeat(clk, s1.table, 0, now, cb, slot, token, start, d);
    }
  }

  lemma VisitOwnCalls(clk: Clock, t: Table, now: int, cb: Callbacks, slot: nat, token: nat, due: int, d: nat)
    requires Distinct(t) && token != INVALID_TOKEN && d > 0 && Periodic(cb, token, d)
    requires DueAt(clk, t, slot, token, due)
    ensures var runs := clk.NotAfter(clk.Stamp(due), now);
            var t' := Visit(clk, t, slot, now, cb);
            && DueAt(clk, t', slot, token, if runs then due + d else due)
            && CallsOf(t'.log, token) == CallsOf(t.log, token) + (if runs then 1 else 0)
  {
    if Runs(clk, t.entries[slot], now) {
      assert Logged(t, slot, now).log[..|t.log|] == t.log;
      VisitOwn(clk, t, now, cb, slot, token, due, d);
    }
  }

  lemma VisitOtherCalls(clk: Clock, t: Table, i: nat, now: int, cb: Callbacks, slot: nat, token: nat, due: int, d: nat)
    requires i < |t.entries| && i != slot
    requires Distinct(t) && token != INVALID_TOKEN && Periodic(cb, token, d)
    requires DueAt(clk, t, slot, token, due)
    ensures var t' := Visit(clk, t, i, now, cb);
            DueAt(clk, t', slot, token, due) && CallsOf(t'.log, token) == CallsOf(t.log, token)
  {
    if Runs(clk, t.entries[i], now) {
      assert Logged(t, i, now).log[..|t.log|] == t.log;
      VisitOther(clk, t, i, now, cb, slot, token, due, d);
    }
  }

  lemma {:induction false} VisitPastCalls(clk: Clock, t: Table, i: nat, now: int, cb: Callbacks,
                                          slot: nat, token: nat, due: int, d: nat)
    requires slot < i <= |t.entries| && Distinct(t) && token != INVALID_TOKEN && d > 0 && Periodic(cb, token, d)
    requires DueAt(clk, t, slot, token, due)
    ensures CallsOf(VisitFrom(clk, t, i, now, cb).log, token) == CallsOf(t.log, token)
    decreases |t.entries| - i
  {
    if i < |t.entries| {
      VisitDistinct(clk, t, i, now, cb);
      VisitOtherCalls(clk, t, i, now, cb, slot, token, due, d);
      VisitPastCalls(clk, Visit(clk, t, i, now, cb), i + 1, now, cb, slot, token, due, d);
    }
  }

  lemma {:induction false} VisitUpToCalls(clk: Clock, t: Table, i: nat, now: int, cb: Callbacks,
                                          slot: nat, token: nat, due: int, d: nat)
    requires i <= slot && Distinct(t) && token != INVALID_TOKEN && d > 0 && Periodic(cb, token, d)
    requires DueAt(clk, t, slot, token, due)
    ensures CallsOf(VisitFrom(clk, t, i, now, cb).log, token)
         == CallsOf(t.log, token) + (if clk.NotAfter(clk.Stamp(due), now) then 1 else 0)
    decreases |t.entries| - i
  {
    var t' := Visit(clk, t, i, now, cb);
    VisitDistinct(clk, t, i, now, cb);
    if i < slot {
      VisitOtherCalls(clk, t, i, now, cb, slot, token, due, d);
      VisitUpToCalls(clk, t', i + 1, now, cb, slot, token, due, d);
    } else {
      VisitOwnCalls(clk, t, now, cb, slot, token, due, d);
      VisitPastCalls(clk, t', i + 1, now, cb, slot, token,
                     if clk.NotAfter(clk.Stamp(due), now) then due + d else due, d);
    }
  }

  /** A pass that is not throttled calls a live periodic entry exactly once if its time has come, and not
      at all otherwise. */
  lemma PassCallsOnce(clk: Clock, s: System, now: int, cb: Callbacks, slot: nat, token: nat, due: int, d: nat)
    requires Distinct(s.table) && token != INVALID_TOKEN && d > 0 && Periodic(cb, token, d)
    requires DueAt(clk, s.table, slot, token, due) && !clk.NotAfter(now, s.last)
    ensures CallsOf(Pass(clk, s, now, cb).table.log, token)
         == CallsOf(s.table.log, token) + (if clk.NotAfter(clk.Stamp(due), now) then 1 else 0)
  {
    VisitUpToCalls(clk, s.table, 0, now, cb, slot, token, due, d);
  }
}
