/** The macro player of quantum/dynamic_keymap.c on values: how a macro buffer is cut into the short
    strings that are handed to `send_string`. */
module MacroModel {

  import opened Bytes
  import opened Optional

  const SS_QMK_PREFIX: Byte := 1
  const SS_TAP_CODE: Byte := 1
  const SS_DOWN_CODE: Byte := 2
  const SS_UP_CODE: Byte := 3
  const SS_DELAY_CODE: Byte := 4
  const BAR: Byte := 124
  const SCRATCH: nat := 8

  /** How playing ended; `Overrun` means that a byte past the end of the buffer was asked for. */
  datatype Status = Ignored | Done | Aborted | Overrun

  /** The strings sent, how playing ended, and the position after the last byte read. */
  datatype Sent = Sent(chunks: seq<seq<Byte>>, status: Status, stop: nat)

  /** The C string held by a byte array. */
  function CString(s: seq<Byte>): (t: seq<Byte>)
    ensures t <= s && 0 !in t
    ensures |t| < |s| ==> s[|t|] == 0
  {
    if s == [] || s[0] == 0 then [] else [s[0]] + CString(s[1..])
  }

  function Zeros(s: seq<Byte>): nat {
    if s == [] then 0 else (if s[0] == 0 then 1 else 0) + Zeros(s[1..])
  }

  /** The position after the `n`-th zero byte at or after `p`, if the buffer has that many. */
  function Skip(buf: seq<Byte>, p: nat, n: nat): (q: Option<nat>)
    requires p <= |buf|
    ensures q.Some? ==> p <= q.value <= |buf|
    decreases |buf| - p
  {
    if n == 0 then Some(p)
    else if p == |buf| then None
    else Skip(buf, p + 1, if buf[p] == 0 then n - 1 else n)
  }

  predicate KeyCode(code: Byte) { code == SS_TAP_CODE || code == SS_DOWN_CODE || code == SS_UP_CODE }

  /** What one token does to the scratch array, or why playing stops. */
  datatype Token = Token(scratch: seq<Byte>, next: nat) | Stop(status: Status, stop: nat)

  /** Copies the number of a delay and its bar to `data[i..]`. */
  function DelayToken(buf: seq<Byte>, p: nat, data: seq<Byte>, i: nat): (t: Token)
    requires |data| == SCRATCH && 2 <= i <= 6
    ensures t.Token? ==> |t.scratch| == SCRATCH && p < t.next <= |buf|
    decreases 7 - i
  {
    if p >= |buf| then Stop(Overrun, p)
    else
      var data' := data[i := buf[p]];
      if buf[p] == 0 then Stop(Aborted, p + 1)
      else if buf[p] == BAR then Token(data'[i + 1 := 0], p + 1)
      else if i == 6 then Stop(Aborted, p + 1)
      else DelayToken(buf, p + 1, data', i + 1)
  }

  /** One turn of the player's loop, up to the string it is about to send. */
  function ReadToken(buf: seq<Byte>, p: nat, data: seq<Byte>): (t: Token)
    requires |data| == SCRATCH
    ensures t.Token? ==> |t.scratch| == SCRATCH && p < t.next <= |buf|
  {
    if p >= |buf| then Stop(Overrun, p)
    else
      var data0 := data[0 := buf[p]][1 := 0];
      if buf[p] == 0 then Stop(Done, p + 1)
      else if buf[p] != SS_QMK_PREFIX then Token(data0, p + 1)
      else if p + 1 >= |buf| then Stop(Overrun, p + 1)
      else
        var code := buf[p + 1];
        var data1 := data0[1 := code];
        if code == 0 then Stop(Aborted, p + 2)
        else if KeyCode(code) then
          if p + 2 >= |buf| then Stop(Overrun, p + 2)
          else if buf[p + 2] == 0 then Stop(Aborted, p + 3)
          else Token(data1[2 := buf[p + 2]][3 := 0], p + 3)
        else if code == SS_DELAY_CODE then DelayToken(buf, p + 2, data1, 2)
        else Token(data1, p + 2)
  }

  /** The player's loop from position `p` with scratch contents `data`. */
  function SendFrom(buf: seq<Byte>, p: nat, data: seq<Byte>): Sent
    requires |data| == SCRATCH
    decreases |buf| - p
  {
    match ReadToken(buf, p, data)
    case Stop(status, stop) => Sent([], status, stop)
    case Token(scratch, next) =>
      var rest := SendFrom(buf, next, scratch);
      rest.(chunks := [CString(scratch)] + rest.chunks)
  }

  const BLANK: seq<Byte> := [0, 0, 0, 0, 0, 0, 0, 0]

  /** `dynamic_keymap_macro_send` on the bytes of the macro buffer, for `count` macros. */
  function MacroSend(buf: seq<Byte>, count: nat, id: nat): Sent {
    if id >= count || buf == [] || buf[|buf| - 1] != 0 then Sent([], Ignored, 0)
    else
      match Skip(buf, 0, id)
      case None => Sent([], Ignored, |buf|)
      case Some(p) => SendFrom(buf, p, BLANK)
  }
}
