/** The deferred executor of quantum/deferred_exec.c as a function on values, over two clocks: the
    32-bit clock that wraps, which the firmware has, and an unbounded clock that serves as the reference. */
module DeferredModel {
  import opened Timer

  const INVALID_TOKEN: nat := 0
  const TOKENS: nat := 256
  const NO_CALLBACK: nat := 0

  /** Times are exact, or reduced to uint32_t. */
  datatype Clock = Wrapping | Unbounded {
    function Stamp(t: int): int {
      if Wrapping? then t % 0x1_0000_0000 else t
    }

    /** The test `(int32_t)TIMER_DIFF_32(a, b) <= 0`, or its intention. */
    predicate NotAfter(a: int, b: int) {
      if Wrapping? then AsInt32(TimerDiff32(a, b)) <= 0 else a <= b
    }
  }

  datatype Entry = Entry(token: nat, trigger: int, callback: nat, arg: nat)

  const EMPTY := Entry(INVALID_TOKEN, 0, NO_CALLBACK, 0)

  /** One callback invocation; `at` is the time the pass read before its loop. */
  datatype Call = Call(slot: nat, token: nat, callback: nat, arg: nat, trigger: int, at: int)

  /** A request to the table, with the true time at which it reads the clock; or requests to other tables, which
      leave the token counter that all tables share anywhere. */
  datatype Op =
    | Defer(delay: nat, callback: nat, arg: nat, at: int)
    | Extend(token: nat, delay: nat, at: int)
    | Cancel(token: nat)
    | Elsewhere(current: Token)

  /** What a callback does: requests against the table that called it or others, then the delay it returns. */
  datatype Reply = Reply(ops: seq<Op>, delay: nat)

  /** `deferred_token`, a uint8_t. */
  type Token = t: nat | t < TOKENS

  datatype Table = Table(entries: seq<Entry>, current: Token, log: seq<Call>)

  /** The log as callbacks know it: trigger times are uint32_t. */
  function Wire(log: seq<Call>): (w: seq<Call>)
    ensures |w| == |log|
  {
    seq(|log|, i requires 0 <= i < |log| => log[i].(trigger := log[i].trigger % 0x1_0000_0000))
  }

  /** Callbacks are arbitrary functions of everything that has been called so far. */
  type Callbacks = seq<Call> -> Reply

  predicate InUse(entries: seq<Entry>, token: nat) {
    exists i :: 0 <= i < |entries| && entries[i].token == token
  }

  /** `token_can_be_used`. */
  predicate TokenCanBeUsed(entries: seq<Entry>, token: nat) {
    token != INVALID_TOKEN && !InUse(entries, token)
  }

  /** The search of `allocate_token`: up to `n` candidates from `token`, in uint8_t. */
  function Probe(entries: seq<Entry>, token: nat, n: nat): (t: nat)
    requires token < TOKENS
    ensures t < TOKENS
    ensures t != INVALID_TOKEN ==> TokenCanBeUsed(entries, t)
    decreases entries, n
  {
    if n == 0 then INVALID_TOKEN
    else if TokenCanBeUsed(entries, token) then token
    else Probe(entries, Next(token), n - 1)
  }

  /** `++current_token`, in uint8_t. */
  function Next(token: nat): (t: nat)
    requires token < TOKENS
    ensures t == if token == TOKENS - 1 then 0 else token + 1
  {
    (token + 1) % 256
  }

  function AllocateToken(t: Table): nat {
    Probe(t.entries, Next(t.current), TOKENS)
  }

  /** The first slot at or after `from` that holds `token`. */
  function FindSlot(entries: seq<Entry>, token: nat, from: nat): (i: nat)
    requires from <= |entries|
    ensures from <= i <= |entries|
    ensures i < |entries| ==> entries[i].token == token
    ensures forall j :: from <= j < i ==> entries[j].token != token
    decreases |entries| - from
  {
    if from == |entries| || entries[from].token == token then from else FindSlot(entries, token, from + 1)
  }

  /** `defer_exec_advanced`: the new table and the token returned. */
  function DoDefer(clk: Clock, t: Table, delay: nat, callback: nat, arg: nat, at: int): (Table, nat) {
    var i := FindSlot(t.entries, INVALID_TOKEN, 0);
    if delay == 0 || callback == NO_CALLBACK || i == |t.entries| then (t, INVALID_TOKEN)
    else
      var token := AllocateToken(t);
      if token == INVALID_TOKEN then (t.(current := Next(t.current)), INVALID_TOKEN)
      else
        (t.(entries := t.entries[i := Entry(token, clk.Stamp(at + delay), callback, arg)], current := token), token)
  }

  /** `extend_deferred_exec_advanced`. */
  function DoExtend(clk: Clock, t: Table, token: nat, delay: nat, at: int): (Table, bool) {
    var i := FindSlot(t.entries, token, 0);
    if delay == 0 || token == INVALID_TOKEN || i == |t.entries| then (t, false)
    else (t.(entries := t.entries[i := t.entries[i].(trigger := clk.Stamp(at + delay))]), true)
  }

  /** `cancel_deferred_exec_advanced`. */
  function DoCancel(t: Table, token: nat): (Table, bool) {
    var i := FindSlot(t.entries, token, 0);
    if token == INVALID_TOKEN || i == |t.entries| then (t, false)
    else (t.(entries := t.entries[i := EMPTY]), true)
  }

  function Apply(clk: Clock, t: Table, op: Op): (t': Table)
    ensures |t'.entries| == |t.entries| && t'.log == t.log
  {
    match op
    case Defer(delay, callback, arg, at) => DoDefer(clk, t, delay, callback, arg, at).0
    case Extend(token, delay, at) => DoExtend(clk, t, token, delay, at).0
    case Cancel(token) => DoCancel(t, token).0
    case Elsewhere(current) => t.(current := current)
  }

  function ApplyAll(clk: Clock, t: Table, ops: seq<Op>): (t': Table)
    ensures |t'.entries| == |t.entries| && t'.log == t.log
    decreases |ops|
  {
    if ops == [] then t else ApplyAll(clk, Apply(clk, t, ops[0]), ops[1..])
  }

  /** After the callback of slot `i`, which held token `was`: repeat, free, or leave a re-used slot alone. */
  function Requeue(clk: Clock, t: Table, i: nat, was: nat, delay: nat): Table
    requires i < |t.entries|
  {
    var e := t.entries[i];
    if e.token != was then t
    else if delay > 0 then t.(entries := t.entries[i := e.(trigger := clk.Stamp(e.trigger + delay))])
    else t.(entries := t.entries[i := EMPTY])
  }

  predicate Runs(clk: Clock, e: Entry, now: int) {
    e.token != INVALID_TOKEN && clk.NotAfter(e.trigger, now)
  }

  function Logged(t: Table, i: nat, now: int): Table
    requires i < |t.entries|
  {
    var e := t.entries[i];
    t.(log := t.log + [Call(i, e.token, e.callback, e.arg, e.trigger, now)])
  }

  /** One turn of the loop of `deferred_exec_advanced_task`. */
  function Visit(clk: Clock, t: Table, i: nat, now: int, cb: Callbacks): (t': Table)
    requires i < |t.entries|
    ensures |t'.entries| == |t.entries|
  {
    if !Runs(clk, t.entries[i], now) then t
    else
      var called := Logged(t, i, now);
      var reply := cb(Wire(called.log));
      Requeue(clk, ApplyAll(clk, called, reply.ops), i, t.entries[i].token, reply.delay)
  }

  function VisitFrom(clk: Clock, t: Table, i: nat, now: int, cb: Callbacks): (t': Table)
    requires i <= |t.entries|
    ensures |t'.entries| == |t.entries|
    decreases |t.entries| - i
  {
    if i == |t.entries| then t else VisitFrom(clk, Visit(clk, t, i, now, cb), i + 1, now, cb)
  }

  /** A table and the time of its last pass. */
  datatype System = System(table: Table, last: int)

  /** `deferred_exec_advanced_task`, at most once per millisecond. */
  function Pass(clk: Clock, s: System, now: int, cb: Callbacks): System {
    if clk.NotAfter(now, s.last) then s
    else System(VisitFrom(clk, s.table, 0, now, cb), clk.Stamp(now))
  }

  datatype Command = Request(op: Op) | Task(now: int)

  function Step(clk: Clock, s: System, c: Command, cb: Callbacks): System {
    match c
    case Request(op) => s.(table := Apply(clk, s.table, op))
    case Task(now) => Pass(clk, s, now, cb)
  }

  function Run(clk: Clock, s: System, cs: seq<Command>, cb: Callbacks): System {
    if cs == [] then s else Step(clk, Run(clk, s, cs[..|cs| - 1], cb), cs[|cs| - 1], cb)
  }
}
