/** When 32-bit time is enough: bounds on delays, on what callbacks ask for and on how far apart the passes are, from
    which it follows that the executor behaves as on an unbounded clock; and a run within the plainest of these bounds
    that does not. */
module DeferredBounds {
  import opened Timer
  import opened DeferredModel
  import opened DeferredRuns

  // ---------------------------------------------------------------- one decision

  /** A live entry runs on the wrapping clock just when it should if and only if its trigger time is close to the time of
      the pass. */
  lemma DecisionExact(e: Entry, now: int)
    requires e.token != INVALID_TOKEN && -TWO32 < e.trigger - now < TWO32
    ensures Close(e.trigger, now) <==>
            (Runs(Wrapping, e.(trigger := Wrapping.Stamp(e.trigger)), now) <==> Runs(Unbounded, e, now))
  {
    NotAfterExact(e.trigger, now);
    NotAfterStamp(Wrapping.Stamp(e.trigger), now);
  }

  /** Callback 1 runs in slot 0 and asks, a millisecond later, for callback 2 in as many milliseconds as a positive
      int32_t can hold. */
  function LongDelay(log: seq<Call>): Reply {
    if log != [] && log[|log| - 1].callback == 1 then Reply([Defer(0x7FFF_FFFF, 2, 0, 11)], 0) else Reply([], 0)
  }

  function Primed(): Table {
    Table([Entry(1, 10, 1, 0), EMPTY], 1, [])
  }

  lemma LongDelayReply(clk: Clock)
    ensures var called := Logged(Primed(), 0, 10);
            && LongDelay(Wire(called.log)) == Reply([Defer(0x7FFF_FFFF, 2, 0, 11)], 0)
            && ApplyAll(clk, called, [Defer(0x7FFF_FFFF, 2, 0, 11)]).entries
               == [Entry(1, 10, 1, 0), Entry(2, 0x8000_000A, 2, 0)]
  {
    var called := Logged(Primed(), 0, 10);
    assert called.entries == [Entry(1, 10, 1, 0), EMPTY];
    assert FindSlot(called.entries, INVALID_TOKEN, 0) == FindSlot(called.entries, INVALID_TOKEN, 1) == 1;
    assert Next(1) == 2 && TokenCanBeUsed(called.entries, 2);
    assert Probe(called.entries, 2, TOKENS) == 2;
    var op := Defer(0x7FFF_FFFF, 2, 0, 11);
    var t := Apply(clk, called, op);
    assert [op][1..] == [];
    assert ApplyAll(clk, called, [op]) == ApplyAll(clk, t, []) == t;
  }

  lemma LongDelayVisit(clk: Clock)
    ensures var t := Visit(clk, Primed(), 0, 10, LongDelay);
            t.entries == [EMPTY, Entry(2, 0x8000_000A, 2, 0)] && |t.log| == 1
  {
    LongDelayReply(clk);
  }

  /** A delay below 2^31 is not enough: asked for by a callback, after the pass has read the clock, it can lie 2^31
      after the time of the pass, and then it runs in that very pass, 2^31 milliseconds early. */
  lemma SamePassFails()
    ensures |Pass(Unbounded, System(Primed(), 0), 10, LongDelay).table.log| == 1
    ensures |Pass(Wrapping, System(Primed(), 0), 10, LongDelay).table.log| == 2
  {
    forall clk: Clock ensures |Pass(clk, System(Primed(), 0), 10, LongDelay).table.log| == if clk.Wrapping? then 2 else 1 {
      var t := Visit(clk, Primed(), 0, 10, LongDelay);
      LongDelayVisit(clk);
      var t2 := Visit(clk, t, 1, 10, LongDelay);
      if clk.Wrapping? {
        assert t2.log == ApplyAll(clk, Logged(t, 1, 10), LongDelay(Wire(Logged(t, 1, 10).log)).ops).log;
      }
      assert VisitFrom(clk, t2, 2, 10, LongDelay) == t2;
      assert VisitFrom(clk, t, 1, 10, LongDelay) == t2;
      assert VisitFrom(clk, Primed(), 0, 10, LongDelay) == t2;
    }
  }

  // ---------------------------------------------------------------- bounds on what is asked for

  /** The request of a callback that held token `was` and returns `d`, in a pass at `now`: its trigger time lies less
      than 2^31 after the pass, also once the returned delay has been added to it, which happens when the callback
      extends its own token (or cancels it and may be given the same one again). */
  predicate OpModest(op: Op, cancels: bool, was: nat, d: nat, now: int) {
    match op
    case Defer(delay, _, _, at) => at + delay < now + TWO31 && (cancels ==> at + delay + d < now + TWO31)
    case Extend(token, delay, at) => at + delay < now + TWO31 && (token == was ==> at + delay + d < now + TWO31)
    case Cancel(_) => true
    case Elsewhere(_) => true
  }

  predicate ReplyModest(reply: Reply, was: nat, now: int) {
    reply.delay < TWO31
    && forall k :: 0 <= k < |reply.ops| ==> OpModest(reply.ops[k], Cancel(was) in reply.ops, was, reply.delay, now)
  }

  /** Every callback, whatever has been called before, keeps to these bounds. */
  ghost predicate Modest(cb: Callbacks) {
    forall log: seq<Call> :: log != [] ==> ReplyModest(cb(log), log[|log| - 1].token, log[|log| - 1].at)
  }

  /** The time at which a command reads the clock; one that does not keeps the time of the command before it. */
  function TimeOf(c: Command, before: int): int {
    match c
    case Request(Defer(_, _, _, at)) => at
    case Request(Extend(_, _, at)) => at
    case Request(_) => before
    case Task(now) => now
  }

  function DelayOf(c: Command): nat {
    match c
    case Request(Defer(delay, _, _, _)) => delay
    case Request(Extend(_, delay, _)) => delay
    case _ => 0
  }

  /** The time after some commands, and that of the latest pass among them. */
  function TimeAfter(cs: seq<Command>, start: int): int {
    if cs == [] then start else TimeOf(cs[|cs| - 1], TimeAfter(cs[..|cs| - 1], start))
  }

  function LastPass(cs: seq<Command>, start: int): int {
    if cs == [] then start
    else if cs[|cs| - 1].Task? then cs[|cs| - 1].now
    else LastPass(cs[..|cs| - 1], start)
  }

  /** A command that comes no earlier than the one before it, asks for a delay below 2^31, and if it is a pass, comes at
      most `gap` after the pass before it. */
  predicate CommandModest(c: Command, before: int, last: int, gap: int) {
    before <= TimeOf(c, before) && DelayOf(c) < TWO31 && (c.Task? ==> c.now - last <= gap)
  }

  predicate AllModest(cs: seq<Command>, start: int, gap: int) {
    cs == [] ||
    (&& AllModest(cs[..|cs| - 1], start, gap)
     && CommandModest(cs[|cs| - 1], TimeAfter(cs[..|cs| - 1], start), LastPass(cs[..|cs| - 1], start), gap))
  }

  // ---------------------------------------------------------------- not too far ahead

  predicate Before(e: Entry, t: int) {
    e.token != INVALID_TOKEN ==> e.trigger < t + TWO31
  }

  /** No live entry lies 2^31 or more after `t`. */
  ghost predicate Ahead(t: Table, time: int) {
    forall j :: 0 <= j < |t.entries| ==> Before(t.entries[j], time)
  }

  predicate BeforeWith(e: Entry, was: nat, d: nat, t: int) {
    Before(e, t) && (e.token == was ==> Before(e.(trigger := e.trigger + d), t))
  }

  /** ... not even when `d` is added to the entry that holds `was`. */
  ghost predicate AheadWith(t: Table, was: nat, d: nat, time: int) {
    forall j :: 0 <= j < |t.entries| ==> BeforeWith(t.entries[j], was, d, time)
  }

  lemma {:induction false} UpdateAhead(t: Table, u: Table, i: nat, e: Entry, was: nat, d: nat, time: int)
    requires AheadWith(t, was, d, time) && i < |t.entries| && u.entries == t.entries[i := e]
    requires BeforeWith(e, was, d, time)
    ensures AheadWith(u, was, d, time)
  {
    forall j | 0 <= j < |u.entries| ensures BeforeWith(u.entries[j], was, d, time) {
      assert j != i ==> u.entries[j] == t.entries[j] && BeforeWith(t.entries[j], was, d, time);
    }
  }

  lemma {:induction false} InUseAfter(t: Table, u: Table, i: nat, e: Entry, was: nat)
    requires InUse(t.entries, was) && i < |t.entries| && u.entries == t.entries[i := e]
    requires t.entries[i].token != was || e.token == was
    ensures InUse(u.entries, was)
  {
    var j :| 0 <= j < |t.entries| && t.entries[j].token == was;
    assert j != i ==> u.entries[j].token == was;
    assert j == i ==> u.entries[i].token == was;
  }

  lemma {:induction false} DeferAhead(t: Table, delay: nat, callback: nat, arg: nat, at: int, cancels: bool,
                                      was: nat, d: nat, now: int)
    requires AheadWith(t, was, d, now) && was != INVALID_TOKEN && (!cancels ==> InUse(t.entries, was))
    requires OpModest(Defer(delay, callback, arg, at), cancels, was, d, now)
    ensures var u := DoDefer(Unbounded, t, delay, callback, arg, at).0;
            AheadWith(u, was, d, now) && (!cancels ==> InUse(u.entries, was))
  {
    var i := FindSlot(t.entries, INVALID_TOKEN, 0);
    var token := AllocateToken(t);
    if delay > 0 && callback != NO_CALLBACK && i < |t.entries| && token != INVALID_TOKEN {
      var e := Entry(token, at + delay, callback, arg);
      var u := DoDefer(Unbounded, t, delay, callback, arg, at).0;
      assert u.entries == t.entries[i := e];
      UpdateAhead(t, u, i, e, was, d, now);
      if !cancels {
        InUseAfter(t, u, i, e, was);
      }
    }
  }

  lemma {:induction false} ExtendAhead(t: Table, token: nat, delay: nat, at: int, cancels: bool, was: nat, d: nat, now: int)
    requires AheadWith(t, was, d, now) && (!cancels ==> InUse(t.entries, was))
    requires OpModest(Extend(token, delay, at), cancels, was, d, now)
    ensures var u := DoExtend(Unbounded, t, token, delay, at).0;
            AheadWith(u, was, d, now) && (!cancels ==> InUse(u.entries, was))
  {
    var i := FindSlot(t.entries, token, 0);
    if delay > 0 && token != INVALID_TOKEN && i < |t.entries| {
      var e := t.entries[i].(trigger := at + delay);
      var u := DoExtend(Unbounded, t, token, delay, at).0;
      assert u.entries == t.entries[i := e];
      UpdateAhead(t, u, i, e, was, d, now);
      if !cancels {
        InUseAfter(t, u, i, e, was);
      }
    }
  }

  lemma {:induction false} CancelAhead(t: Table, token: nat, cancels: bool, was: nat, d: nat, now: int)
    requires AheadWith(t, was, d, now) && was != INVALID_TOKEN
    requires (!cancels ==> InUse(t.entries, was)) && (token == was ==> cancels)
    ensures var u := DoCancel(t, token).0;
            AheadWith(u, was, d, now) && (!cancels ==> InUse(u.entries, was))
  {
    var i := FindSlot(t.entries, token, 0);
    if token != INVALID_TOKEN && i < |t.entries| {
      var u := DoCancel(t, token).0;
      UpdateAhead(t, u, i, EMPTY, was, d, now);
      if !cancels {
        InUseAfter(t, u, i, EMPTY, was);
      }
    }
  }

  lemma {:induction false} ApplyAhead(t: Table, op: Op, cancels: bool, was: nat, d: nat, now: int)
    requires AheadWith(t, was, d, now) && was != INVALID_TOKEN && (!cancels ==> InUse(t.entries, was))
    requires OpModest(op, cancels, was, d, now) && (op == Cancel(was) ==> cancels)
    ensures var u := Apply(Unbounded, t, op);
            AheadWith(u, was, d, now) && (!cancels ==> InUse(u.entries, was))
  {
    match op
    case Defer(delay, callback, arg, at) => DeferAhead(t, delay, callback, arg, at, cancels, was, d, now);
    case Extend(token, delay, at) => ExtendAhead(t, token, delay, at, cancels, was, d, now);
    case Cancel(token) => CancelAhead(t, token, cancels, was, d, now);
    case Elsewhere(current) =>
      var u := Apply(Unbounded, t, op);
      assert u.entries == t.entries;
  }

  ghost predicate OpsModest(ops: seq<Op>, cancels: bool, was: nat, d: nat, now: int) {
    && (Cancel(was) in ops ==> cancels)
    && forall k :: 0 <= k < |ops| ==> OpModest(ops[k], cancels, was, d, now)
  }

  lemma {:induction false} ApplyAllAhead(t: Table, ops: seq<Op>, cancels: bool, was: nat, d: nat, now: int)
    requires AheadWith(t, was, d, now) && was != INVALID_TOKEN && (!cancels ==> InUse(t.entries, was))
    requires OpsModest(ops, cancels, was, d, now)
    ensures AheadWith(ApplyAll(Unbounded, t, ops), was, d, now)
    decreases |ops|
  {
    if ops != [] {
      assert OpModest(ops[0], cancels, was, d, now);
      ApplyAhead(t, ops[0], cancels, was, d, now);
      ApplyAllAhead(Apply(Unbounded, t, ops[0]), ops[1..], cancels, was, d, now);
    }
  }

  lemma {:induction false} RequeueAhead(t: Table, i: nat, was: nat, d: nat, now: int)
    requires i < |t.entries| && AheadWith(t, was, d, now)
    ensures Ahead(Requeue(Unbounded, t, i, was, d), now)
  {
    var u := Requeue(Unbounded, t, i, was, d);
    forall j | 0 <= j < |u.entries| ensures Before(u.entries[j], now) {
      assert BeforeWith(t.entries[j], was, d, now);
    }
  }

  lemma {:induction false} VisitAhead(u: Table, i: nat, now: int, cb: Callbacks)
    requires i < |u.entries| && Distinct(u) && Ahead(u, now) && Modest(cb)
    ensures Ahead(Visit(Unbounded, u, i, now, cb), now)
  {
    var e := u.entries[i];
    if Runs(Unbounded, e, now) {
      var called := Logged(u, i, now);
      var log := Wire(called.log);
      var reply := cb(log);
      assert log[|log| - 1].token == e.token && log[|log| - 1].at == now;
      assert ReplyModest(reply, e.token, now);
      forall j | 0 <= j < |called.entries| ensures BeforeWith(called.entries[j], e.token, reply.delay, now) {
        assert Before(u.entries[j], now);
      }
      assert called.entries[i].token == e.token;
      ApplyAllAhead(called, reply.ops, Cancel(e.token) in reply.ops, e.token, reply.delay, now);
      RequeueAhead(ApplyAll(Unbounded, called, reply.ops), i, e.token, reply.delay, now);
    }
  }

  /** Whenever the pass comes to a live entry, it is at most 2^31 late. */
  ghost predicate PromptFrom(u: Table, i: nat, now: int, cb: Callbacks)
    requires i <= |u.entries|
    decreases |u.entries| - i
  {
    i == |u.entries| ||
    (&& (u.entries[i].token != INVALID_TOKEN ==> now - u.entries[i].trigger <= TWO31)
     && PromptFrom(Visit(Unbounded, u, i, now, cb), i + 1, now, cb))
  }

  lemma {:induction false} VisitFromAhead(u: Table, i: nat, now: int, cb: Callbacks)
    requires i <= |u.entries| && Distinct(u) && Ahead(u, now) && Modest(cb)
    ensures Ahead(VisitFrom(Unbounded, u, i, now, cb), now)
    ensures TimelyFrom(u, i, now, cb) <==> PromptFrom(u, i, now, cb)
    decreases |u.entries| - i
  {
    if i < |u.entries| {
      assert Before(u.entries[i], now);
      VisitAhead(u, i, now, cb);
      VisitDistinct(Unbounded, u, i, now, cb);
      VisitFromAhead(Visit(Unbounded, u, i, now, cb), i + 1, now, cb);
    }
  }

  lemma {:induction false} AheadLater(t: Table, a: int, b: int)
    requires Ahead(t, a) && a <= b
    ensures Ahead(t, b)
  {
    forall j | 0 <= j < |t.entries| ensures Before(t.entries[j], b) {
      assert Before(t.entries[j], a);
    }
  }

  /** A request outside a pass: `time` is when it reads the clock. */
  lemma {:induction false} RequestAhead(t: Table, op: Op, before: int)
    requires Ahead(t, before) && before <= TimeOf(Request(op), before) && DelayOf(Request(op)) < TWO31
    ensures Ahead(Apply(Unbounded, t, op), TimeOf(Request(op), before))
  {
    var time := TimeOf(Request(op), before);
    AheadLater(t, before, time);
    var u := Apply(Unbounded, t, op);
    forall j | 0 <= j < |u.entries| ensures Before(u.entries[j], time) {
      assert Before(t.entries[j], time);
    }
  }

  ghost predicate PromptStep(u: System, c: Command, cb: Callbacks) {
    c.Task? && c.now > u.last ==> PromptFrom(u.table, 0, c.now, cb)
  }

  /** No pass of the run comes to a live entry more than 2^31 late. */
  ghost predicate Prompt(u: System, cs: seq<Command>, cb: Callbacks) {
    cs == [] ||
    (&& Prompt(u, cs[..|cs| - 1], cb)
     && PromptStep(Run(Unbounded, u, cs[..|cs| - 1], cb), cs[|cs| - 1], cb))
  }

  /** One command, at `before` or later, on a system whose latest pass was at `s.last`. */
  lemma {:induction false} StepAhead(s: System, c: Command, cb: Callbacks, before: int, gap: int)
    requires Distinct(s.table) && Ahead(s.table, before) && s.last <= before && Modest(cb) && gap < TWO31
    requires CommandModest(c, before, s.last, gap)
    ensures Ahead(Step(Unbounded, s, c, cb).table, TimeOf(c, before))
    ensures Step(Unbounded, s, c, cb).last == (if c.Task? then c.now else s.last)
    ensures TimelyStep(s, c, cb) <==> PromptStep(s, c, cb)
  {
    match c
    case Request(op) => RequestAhead(s.table, op, before);
    case Task(now) =>
      AheadLater(s.table, before, now);
      VisitFromAhead(s.table, 0, now, cb);
  }

  /** In a run within the bounds, no live entry is ever too far ahead, and 32 bits are enough if and only if no pass comes
      2^31 too late. */
  lemma {:induction false} TimelyExactly(u: System, cs: seq<Command>, cb: Callbacks, gap: int)
    requires Distinct(u.table) && Ahead(u.table, u.last) && Modest(cb) && gap < TWO31 && AllModest(cs, u.last, gap)
    ensures Timely(u, cs, cb) <==> Prompt(u, cs, cb)
    ensures var s := Run(Unbounded, u, cs, cb);
            Ahead(s.table, TimeAfter(cs, u.last)) && s.last == LastPass(cs, u.last) <= TimeAfter(cs, u.last)
  {
    if cs != [] {
      var before := cs[..|cs| - 1];
      TimelyExactly(u, before, cb, gap);
      RunDistinct(Unbounded, u, before, cb);
      StepAhead(Run(Unbounded, u, before, cb), cs[|cs| - 1], cb, TimeAfter(before, u.last), gap);
    }
  }

  // ---------------------------------------------------------------- not too late

  predicate OpPunctual(op: Op, now: int) {
    match op
    case Defer(_, _, _, at) => at >= now
    case Extend(_, _, at) => at >= now
    case Cancel(_) => true
    case Elsewhere(_) => true
  }

  /** The callback reads the clock no earlier than the pass did, and if it wants to be repeated, not before the next pass
      may come. */
  predicate ReplySteady(reply: Reply, now: int, gap: int) {
    && (reply.delay > 0 ==> reply.delay >= gap)
    && forall k :: 0 <= k < |reply.ops| ==> OpPunctual(reply.ops[k], now)
  }

  ghost predicate Steady(cb: Callbacks, gap: int) {
    forall log: seq<Call> :: log != [] ==> ReplySteady(cb(log), log[|log| - 1].at, gap)
  }

  predicate NotBefore(e: Entry, t: int) {
    e.token != INVALID_TOKEN ==> e.trigger >= t
  }

  ghost predicate Since(t: Table, time: int) {
    forall j :: 0 <= j < |t.entries| ==> NotBefore(t.entries[j], time)
  }

  /** An entry in a pass at `now` that has come to slot `i`, where `was` was found; the pass before was at `last`. */
  predicate Caught(e: Entry, j: nat, i: nat, was: nat, last: int, now: int) {
    NotBefore(e, if j < i || (j == i && e.token != was) then now else last)
  }

  ghost predicate AllCaught(t: Table, i: nat, was: nat, last: int, now: int) {
    forall j :: 0 <= j < |t.entries| ==> Caught(t.entries[j], j, i, was, last, now)
  }

  lemma {:induction false} ApplyCaught(t: Table, op: Op, i: nat, was: nat, last: int, now: int)
    requires AllCaught(t, i, was, last, now) && OpPunctual(op, now) && last <= now
    ensures AllCaught(Apply(Unbounded, t, op), i, was, last, now)
  {
    var u := Apply(Unbounded, t, op);
    forall j | 0 <= j < |u.entries| ensures Caught(u.entries[j], j, i, was, last, now) {
      assert Caught(t.entries[j], j, i, was, last, now);
    }
  }

  lemma {:induction false} ApplyAllCaught(t: Table, ops: seq<Op>, i: nat, was: nat, last: int, now: int)
    requires AllCaught(t, i, was, last, now) && last <= now
    requires forall k :: 0 <= k < |ops| ==> OpPunctual(ops[k], now)
    ensures AllCaught(ApplyAll(Unbounded, t, ops), i, was, last, now)
    decreases |ops|
  {
    if ops != [] {
      assert OpPunctual(ops[0], now);
      ApplyCaught(t, ops[0], i, was, last, now);
      ApplyAllCaught(Apply(Unbounded, t, ops[0]), ops[1..], i, was, last, now);
    }
  }

  /** The slots before `i` have caught up with the pass. */
  ghost predicate CaughtUp(t: Table, i: nat, last: int, now: int) {
    forall j :: 0 <= j < |t.entries| ==> NotBefore(t.entries[j], if j < i then now else last)
  }

  lemma {:induction false} RequeueCaught(t: Table, i: nat, was: nat, d: nat, last: int, now: int, gap: int)
    requires i < |t.entries| && AllCaught(t, i, was, last, now) && last <= now <= last + gap && (d > 0 ==> d >= gap)
    ensures CaughtUp(Requeue(Unbounded, t, i, was, d), i + 1, last, now)
  {
    var u := Requeue(Unbounded, t, i, was, d);
    forall j | 0 <= j < |u.entries| ensures NotBefore(u.entries[j], if j < i + 1 then now else last) {
      assert Caught(t.entries[j], j, i, was, last, now);
    }
  }

  lemma {:induction false} VisitCaught(u: Table, i: nat, now: int, cb: Callbacks, last: int, gap: int)
    requires i < |u.entries| && CaughtUp(u, i, last, now) && last <= now <= last + gap && Steady(cb, gap)
    ensures CaughtUp(Visit(Unbounded, u, i, now, cb), i + 1, last, now)
  {
    var e := u.entries[i];
    assert NotBefore(e, last);
    if Runs(Unbounded, e, now) {
      var called := Logged(u, i, now);
      var log := Wire(called.log);
      var reply := cb(log);
      assert log[|log| - 1].at == now && ReplySteady(reply, now, gap);
      forall j | 0 <= j < |called.entries| ensures Caught(called.entries[j], j, i, e.token, last, now) {
        assert NotBefore(u.entries[j], if j < i then now else last);
      }
      ApplyAllCaught(called, reply.ops, i, e.token, last, now);
      RequeueCaught(ApplyAll(Unbounded, called, reply.ops), i, e.token, reply.delay, last, now, gap);
    } else {
      forall j | 0 <= j < |u.entries| ensures NotBefore(u.entries[j], if j < i + 1 then now else last) {
        assert NotBefore(u.entries[j], if j < i then now else last);
      }
    }
  }

  lemma {:induction false} VisitFromCaught(u: Table, i: nat, now: int, cb: Callbacks, last: int, gap: int)
    requires i <= |u.entries| && CaughtUp(u, i, last, now) && last <= now <= last + gap && Steady(cb, gap) && gap <= TWO31
    ensures PromptFrom(u, i, now, cb) && Since(VisitFrom(Unbounded, u, i, now, cb), now)
    decreases |u.entries| - i
  {
    if i == |u.entries| {
      forall j | 0 <= j < |u.entries| ensures NotBefore(u.entries[j], now) {
        assert NotBefore(u.entries[j], if j < i then now else last);
      }
    } else {
      assert NotBefore(u.entries[i], last);
      VisitCaught(u, i, now, cb, last, gap);
      VisitFromCaught(Visit(Unbounded, u, i, now, cb), i + 1, now, cb, last, gap);
    }
  }

  lemma {:induction false} StepPrompt(s: System, c: Command, cb: Callbacks, before: int, gap: int)
    requires Since(s.table, s.last) && s.last <= before && Steady(cb, gap) && gap < TWO31
    requires CommandModest(c, before, s.last, gap)
    ensures PromptStep(s, c, cb)
    ensures Since(Step(Unbounded, s, c, cb).table, Step(Unbounded, s, c, cb).last)
  {
    match c
    case Request(op) =>
      var u := Apply(Unbounded, s.table, op);
      forall j | 0 <= j < |u.entries| ensures NotBefore(u.entries[j], s.last) {
        assert NotBefore(s.table.entries[j], s.last);
      }
    case Task(now) =>
      if now > s.last {
        forall j | 0 <= j < |s.table.entries|
          ensures NotBefore(s.table.entries[j], if j < 0 then now else s.last)
        {
          assert NotBefore(s.table.entries[j], s.last);
        }
        VisitFromCaught(s.table, 0, now, cb, s.last, gap);
      }
  }

  /** If passes are at most `gap` apart and no callback wants to be repeated sooner than that, no pass is ever more than
      `gap` late: lateness does not add up. */
  lemma {:induction false} SteadyIsPrompt(u: System, cs: seq<Command>, cb: Callbacks, gap: int)
    requires Distinct(u.table) && Ahead(u.table, u.last) && Since(u.table, u.last)
    requires Modest(cb) && Steady(cb, gap) && gap < TWO31 && AllModest(cs, u.last, gap)
    ensures Prompt(u, cs, cb) && Since(Run(Unbounded, u, cs, cb).table, Run(Unbounded, u, cs, cb).last)
  {
    if cs != [] {
      var before := cs[..|cs| - 1];
      SteadyIsPrompt(u, before, cb, gap);
      TimelyExactly(u, before, cb, gap);
      StepPrompt(Run(Unbounded, u, before, cb), cs[|cs| - 1], cb, TimeAfter(before, u.last), gap);
    }
  }

  /** Within bounds that only speak of requests, replies and the times of passes, the executor on the wrapping clock does
      exactly what one on an unbounded clock would. */
  lemma {:induction false} WrappingRefinesInBounds(w: System, u: System, cs: seq<Command>, cb: Callbacks, gap: int)
    requires SystemShows(w, u) && Distinct(u.table) && Ahead(u.table, u.last) && Since(u.table, u.last)
    requires Modest(cb) && Steady(cb, gap) && gap < TWO31 && AllModest(cs, u.last, gap)
    ensures SystemShows(Run(Wrapping, w, cs, cb), Run(Unbounded, u, cs, cb))
  {
    SteadyIsPrompt(u, cs, cb, gap);
    TimelyExactly(u, cs, cb, gap);
    WrappingRefinesUnbounded(w, u, cs, cb);
  }

  /** An empty table meets the conditions on where a run starts. */
  lemma {:induction false} EmptyStarts(n: nat, last: int)
    ensures var t := Table(seq(n, _ => EMPTY), 0, []);
            Distinct(t) && Ahead(t, last) && Since(t, last) && Shows(t, t)
  {
    var t := Table(seq(n, _ => EMPTY), 0, []);
    assert Wire(t.log) == [];
  }

  /** Callbacks that ask for nothing and want to be repeated after `d`. */
  function Every(d: nat): Callbacks {
    (log: seq<Call>) => Reply([], d)
  }

  /** They keep to all the bounds if passes are at most `d` apart. */
  lemma {:induction false} EveryIsModest(d: nat, gap: int)
    requires gap <= d < TWO31
    ensures Modest(Every(d)) && Steady(Every(d), gap)
  {
    forall log: seq<Call> | log != []
      ensures ReplyModest(Every(d)(log), log[|log| - 1].token, log[|log| - 1].at)
      ensures ReplySteady(Every(d)(log), log[|log| - 1].at, gap)
    {
      assert Every(d)(log) == Reply([], d);
    }
  }
}
