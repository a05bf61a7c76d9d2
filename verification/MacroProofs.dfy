/** What playing a macro means: which bytes it reads, when it reads past the buffer, and when the strings
    sent add up to the macro. */
module MacroProofs {
  import opened Bytes
  import opened MacroModel
  import opened Optional

  // ---------------------------------------------------------------- where the macro starts

  lemma {:induction false} SkipExact(buf: seq<Byte>, p: nat, n: nat)
    requires p <= |buf|
    ensures Skip(buf, p, n).Some? <==> n <= Zeros(buf[p..])
    ensures Skip(buf, p, n).Some? ==> Zeros(buf[Skip(buf, p, n).value..]) == Zeros(buf[p..]) - n
    ensures Skip(buf, p, n).Some? && n > 0 ==> Skip(buf, p, n).value > p && buf[Skip(buf, p, n).value - 1] == 0
    decreases |buf| - p
  {
    if n > 0 && p < |buf| {
      assert buf[p..][1..] == buf[p + 1..];
      SkipExact(buf, p + 1, if buf[p] == 0 then n - 1 else n);
    }
  }

  lemma {:induction false} LastZeroCounts(s: seq<Byte>)
    requires s != [] && s[|s| - 1] == 0
    ensures Zeros(s) >= 1
  {
    if |s| > 1 {
      LastZeroCounts(s[1..]);
    }
  }

  /** The end of the string that starts at `p`: the first zero byte, or the end of the buffer. */
  function StringEnd(buf: seq<Byte>, p: nat): (e: nat)
    requires p <= |buf|
    ensures p <= e <= |buf|
    ensures e < |buf| ==> buf[e] == 0
    ensures forall k :: p <= k < e ==> buf[k] != 0
    decreases |buf| - p
  {
    if p == |buf| || buf[p] == 0 then p else StringEnd(buf, p + 1)
  }

  lemma {:induction false} StringEndFrom(buf: seq<Byte>, p: nat, q: nat)
    requires p <= q <= |buf|
    requires forall k :: p <= k < q ==> buf[k] != 0
    ensures StringEnd(buf, p) == StringEnd(buf, q)
    decreases q - p
  {
    if p < q {
      StringEndFrom(buf, p + 1, q);
    }
  }

  // ---------------------------------------------------------------- which bytes are read

  /** Token `t`, read at `p`, stays within the string that starts at `p` and its terminator. */
  predicate Within(buf: seq<Byte>, p: nat, t: Token)
    requires p <= |buf|
  {
    var e := StringEnd(buf, p);
    match t
    case Token(_, next) => p < next <= e && forall k :: p <= k < next ==> buf[k] != 0
    case Stop(status, stop) =>
      && stop <= e + 1
      && (status.Done? ==> e < |buf| && stop == e + 1 && p == e)
      && (status.Overrun? ==> e == |buf|)
      && !status.Ignored?
  }

  lemma {:induction false} DelayWithin(buf: seq<Byte>, p0: nat, p: nat, data: seq<Byte>, i: nat)
    requires |data| == SCRATCH && 2 <= i <= 6
    requires p0 < p <= |buf| && forall k :: p0 <= k < p ==> buf[k] != 0
    ensures Within(buf, p0, DelayToken(buf, p, data, i))
    ensures !(DelayToken(buf, p, data, i).Stop? && DelayToken(buf, p, data, i).status.Done?)
    decreases 7 - i
  {
    StringEndFrom(buf, p0, p);
    if p < |buf| && buf[p] != 0 && buf[p] != BAR && i < 6 {
      DelayWithin(buf, p0, p + 1, data[i := buf[p]], i + 1);
    }
  }

  lemma ReadWithin(buf: seq<Byte>, p: nat, data: seq<Byte>)
    requires |data| == SCRATCH && p <= |buf|
    ensures Within(buf, p, ReadToken(buf, p, data))
  {
    if p + 1 < |buf| && buf[p] == SS_QMK_PREFIX {
      StringEndFrom(buf, p, p + 1);
      if buf[p + 1] != 0 {
        StringEndFrom(buf, p, p + 2);
        if buf[p + 1] == SS_DELAY_CODE {
          DelayWithin(buf, p, p + 2, data[0 := buf[p]][1 := 0][1 := buf[p + 1]], 2);
        }
      }
    }
  }

  /** Playing from `p` reads no byte beyond the string there and its terminator, and asks for a byte past
      the buffer only if that string has no terminator. */
  lemma {:induction false} SendWithin(buf: seq<Byte>, p: nat, data: seq<Byte>)
    requires |data| == SCRATCH && p <= |buf|
    ensures var s := SendFrom(buf, p, data);
            var e := StringEnd(buf, p);
            && s.stop <= e + 1 && !s.status.Ignored?
            && (s.status.Done? ==> s.stop == e + 1 && e < |buf|)
            && (s.status.Overrun? ==> e == |buf|)
    decreases |buf| - p
  {
    ReadWithin(buf, p, data);
    var t := ReadToken(buf, p, data);
    if t.Token? {
      StringEndFrom(buf, p, t.next);
      SendWithin(buf, t.next, t.scratch);
    }
  }

  lemma {:induction false} ZerosPositive(s: seq<Byte>, k: nat)
    requires k < |s| && s[k] == 0
    ensures Zeros(s) >= 1
  {
    if k > 0 {
      ZerosPositive(s[1..], k - 1);
    }
  }

  lemma OverrunAtEnd(buf: seq<Byte>, p: nat)
    requires p <= |buf| && buf != [] && buf[|buf| - 1] == 0
    ensures SendFrom(buf, p, BLANK).status.Overrun? <==> p == |buf|
    ensures !SendFrom(buf, p, BLANK).status.Ignored?
  {
    SendWithin(buf, p, BLANK);
    if p < |buf| {
      StringEndIsBefore(buf, p);
    }
  }

  lemma ZerosLeft(buf: seq<Byte>, p: nat)
    requires p <= |buf| && buf != [] && buf[|buf| - 1] == 0
    ensures Zeros(buf[p..]) == 0 <==> p == |buf|
  {
    if p < |buf| {
      LastZeroCounts(buf[p..]);
    }
  }

  lemma SkipStart(buf: seq<Byte>, id: nat)
    requires buf != [] && buf[|buf| - 1] == 0
    ensures Skip(buf, 0, id).Some? <==> id <= Zeros(buf)
    ensures Skip(buf, 0, id).Some? ==> (Skip(buf, 0, id).value == |buf| <==> id == Zeros(buf))
  {
    assert buf[0..] == buf;
    SkipExact(buf, 0, id);
    if Skip(buf, 0, id).Some? {
      ZerosLeft(buf, Skip(buf, 0, id).value);
    }
  }

  /** Although the last byte of the buffer is checked to be zero, playing macro `id` asks for a byte past
      the end of the buffer exactly when the buffer holds exactly `id` zero bytes. */
  lemma OverrunExact(buf: seq<Byte>, count: nat, id: nat)
    requires id < count && buf != [] && buf[|buf| - 1] == 0
    ensures MacroSend(buf, count, id).status.Overrun? <==> Zeros(buf) == id
    ensures MacroSend(buf, count, id).status.Ignored? <==> Zeros(buf) < id
  {
    SkipStart(buf, id);
    if Skip(buf, 0, id).Some? {
      OverrunAtEnd(buf, Skip(buf, 0, id).value);
    }
  }

  lemma {:induction false} StringEndIsBefore(buf: seq<Byte>, p: nat)
    requires p < |buf| && buf[|buf| - 1] == 0
    ensures StringEnd(buf, p) < |buf|
    decreases |buf| - p
  {
    if buf[p] != 0 {
      StringEndIsBefore(buf, p + 1);
    }
  }

  /** A buffer whose only zero is its last byte: asking for its macro number 1 reads past the end. */
  lemma OverrunHappens()
    ensures MacroSend([65, 0], 16, 1).status.Overrun?
  {
    var buf: seq<Byte> := [65, 0];
    assert buf[1..] == [0] && [0 as Byte][1..] == [];
    assert Zeros(buf) == 1;
    OverrunExact(buf, 16, 1);
  }

  // ---------------------------------------------------------------- what is sent

  function Concat(chunks: seq<seq<Byte>>): seq<Byte> {
    if chunks == [] then [] else chunks[0] + Concat(chunks[1..])
  }

  /** The token at `p` has the prefix byte 1 and one of the codes 1 (tap), 2 (down), 3 (up) and 4 (delay). */
  predicate Known(buf: seq<Byte>, p: nat)
    requires p + 1 < |buf|
  {
    buf[p] == 1 && 1 <= buf[p + 1] <= 4
  }

  /** The token at `p` has a prefix and some other code. */
  predicate Unknown(buf: seq<Byte>, p: nat)
    requires p + 1 < |buf|
  {
    buf[p] == 1 && buf[p + 1] > 4
  }

  /** The first bar among the next `n` bytes, if no zero comes before it. */
  function BarAt(buf: seq<Byte>, p: nat, n: nat): (q: Option<nat>)
    ensures q.Some? ==> p <= q.value < |buf| && q.value < p + n && buf[q.value] == 124
    ensures q.Some? ==> forall k :: p <= k < q.value ==> buf[k] != 0 && buf[k] != 124
    decreases |buf| - p, n
  {
    if n == 0 || p >= |buf| || buf[p] == 0 then None else if buf[p] == 124 then Some(p) else BarAt(buf, p + 1, n - 1)
  }

  /** Where the well-formed token at `p` ends: a plain byte; a prefix, a key code and a byte; a prefix, the delay code,
      at most four bytes and a bar; or a prefix and any other code. */
  function TokenEnd(buf: seq<Byte>, p: nat): (q: Option<nat>)
    ensures q.Some? ==> p < q.value <= |buf|
  {
    if p >= |buf| || buf[p] == 0 then None
    else if buf[p] != 1 then Some(p + 1)
    else if p + 1 >= |buf| || buf[p + 1] == 0 then None
    else if 1 <= buf[p + 1] <= 3 then (if p + 2 < |buf| && buf[p + 2] != 0 then Some(p + 3) else None)
    else if buf[p + 1] == 4 then
      match BarAt(buf, p + 2, 5)
      case None => None
      case Some(bar) => Some(bar + 1)
    else Some(p + 2)
  }

  /** From `p` on there are well-formed tokens up to a zero byte. */
  predicate Parses(buf: seq<Byte>, p: nat)
    decreases |buf| - p
  {
    p < |buf| && (buf[p] == 0 ||
    match TokenEnd(buf, p)
    case None => false
    case Some(next) => Parses(buf, next))
  }

  /** ... all of them plain bytes or with one of the four known codes. */
  predicate WellFormed(buf: seq<Byte>, p: nat)
    decreases |buf| - p
  {
    p < |buf| && (buf[p] == 0 ||
    match TokenEnd(buf, p)
    case None => false
    case Some(next) => !UnknownAt(buf, p) && WellFormed(buf, next))
  }

  /** From `p` on, no unrecognised code follows a recognised one (`dirty`: one was seen before). */
  predicate NoneStale(buf: seq<Byte>, p: nat, dirty: bool)
    decreases |buf| - p
  {
    p >= |buf| || buf[p] == 0 ||
    match TokenEnd(buf, p)
    case None => true
    case Some(next) => !(UnknownAt(buf, p) && dirty) && NoneStale(buf, next, dirty || KnownAt(buf, p))
  }

  /** Scratch byte 2 is what a recognised code leaves behind. */
  predicate ScratchOk(data: seq<Byte>, dirty: bool) {
    |data| == SCRATCH && (dirty <==> data[2] != 0)
  }

  /** The player finds the bar of a delay exactly if it comes in time. */
  lemma {:induction false} DelayReads(buf: seq<Byte>, p: nat, data: seq<Byte>, i: nat)
    requires |data| == SCRATCH && 2 <= i <= 6
    ensures var t, q := DelayToken(buf, p, data, i), BarAt(buf, p, 7 - i);
            (t.Token? <==> q.Some?) && (t.Token? ==> t.next == q.value + 1) && (t.Stop? ==> !t.status.Done?)
    decreases 7 - i
  {
    if p < |buf| && i < 6 {
      DelayReads(buf, p + 1, data[i := buf[p]], i + 1);
    }
  }

  /** Whatever the scratch array holds, the player reads exactly the well-formed tokens, and is done exactly at a zero
      byte. */
  lemma ReadsTokens(buf: seq<Byte>, p: nat, data: seq<Byte>)
    requires |data| == SCRATCH
    ensures var t, q := ReadToken(buf, p, data), TokenEnd(buf, p);
            && (t.Token? <==> q.Some?) && (t.Token? ==> t.next == q.value)
            && (t.Stop? && t.status.Done? <==> p < |buf| && buf[p] == 0)
  {
    if p + 1 < |buf| {
      DelayReads(buf, p + 2, data[0 := buf[p]][1 := 0][1 := buf[p + 1]], 2);
    }
  }

  /** Playing from `p` comes to its end if and only if the string there parses. */
  lemma {:induction false} DoneExactly(buf: seq<Byte>, p: nat, data: seq<Byte>)
    requires |data| == SCRATCH
    ensures SendFrom(buf, p, data).status.Done? <==> Parses(buf, p)
    decreases |buf| - p
  {
    ReadsTokens(buf, p, data);
    var t := ReadToken(buf, p, data);
    if t.Token? {
      DoneExactly(buf, t.next, t.scratch);
    }
  }

  lemma {:induction false} WellFormedParses(buf: seq<Byte>, p: nat, dirty: bool)
    requires WellFormed(buf, p)
    ensures Parses(buf, p) && NoneStale(buf, p, dirty)
    decreases |buf| - p
  {
    if buf[p] != 0 {
      WellFormedParses(buf, TokenEnd(buf, p).value, dirty || KnownAt(buf, p));
    }
  }

  /** The first `i` scratch bytes are those of the token that starts at `p0`, none of them zero. */
  predicate Copied(buf: seq<Byte>, p0: nat, data: seq<Byte>, i: nat) {
    |data| == SCRATCH && i <= SCRATCH && p0 + i <= |buf| && data[..i] == buf[p0..p0 + i] && 0 !in data[..i]
  }

  lemma CopyOne(buf: seq<Byte>, p0: nat, data: seq<Byte>, i: nat)
    requires Copied(buf, p0, data, i) && i < SCRATCH && p0 + i < |buf| && buf[p0 + i] != 0
    ensures Copied(buf, p0, data[i := buf[p0 + i]], i + 1)
  {
    var b := buf[p0 + i];
    assert data[i := b][..i + 1] == data[..i] + [b];
    assert buf[p0..p0 + (i + 1)] == buf[p0..p0 + i] + [b];
  }

  lemma CopiedEnds(buf: seq<Byte>, p0: nat, data: seq<Byte>, i: nat)
    requires Copied(buf, p0, data, i) && 3 <= i < SCRATCH
    ensures var s := data[i := 0];
            CString(s) == buf[p0..p0 + i] && s[2] != 0
  {
    var s := data[i := 0];
    assert s[..i] == data[..i] && data[2] in data[..i];
    CStringIs(s, i);
  }

  lemma {:induction false} DelaySends(buf: seq<Byte>, p0: nat, p: nat, data: seq<Byte>, i: nat)
    requires 2 <= i <= 6 && p0 + i == p && Copied(buf, p0, data, i)
    requires DelayToken(buf, p, data, i).Token?
    ensures var t := DelayToken(buf, p, data, i);
            CString(t.scratch) == buf[p0..t.next] && t.scratch[2] != 0
    decreases 7 - i
  {
    CopyOne(buf, p0, data, i);
    var data' := data[i := buf[p]];
    if buf[p] == BAR {
      CopiedEnds(buf, p0, data', i + 1);
    } else {
      DelaySends(buf, p0, p + 1, data', i + 1);
    }
  }

  lemma {:induction false} CStringIs(s: seq<Byte>, n: nat)
    requires n < |s| && s[n] == 0 && 0 !in s[..n]
    ensures CString(s) == s[..n]
  {
    if n > 0 {
      assert s[0] == s[..n][0];
      assert s[1..][..n - 1] == s[..n][1..];
      CStringIs(s[1..], n - 1);
    }
  }

  /** Token `t`, read at `p` over scratch `data`, sends exactly its own bytes. */
  predicate SendsItself(buf: seq<Byte>, p: nat, t: Token) {
    t.Token? && p <= t.next <= |buf| && CString(t.scratch) == buf[p..t.next]
  }

  lemma PlainSends(buf: seq<Byte>, p: nat, data: seq<Byte>)
    requires |data| == SCRATCH && p < |buf| && buf[p] != SS_QMK_PREFIX && buf[p] != 0
    ensures SendsItself(buf, p, ReadToken(buf, p, data))
    ensures ReadToken(buf, p, data).scratch[2] == data[2]
  {
    var s := ReadToken(buf, p, data).scratch;
    CStringIs(s, 1);
    assert s[..1] == [buf[p]] == buf[p..p + 1];
  }

  lemma KeySends(buf: seq<Byte>, p: nat, data: seq<Byte>)
    requires |data| == SCRATCH && p + 2 < |buf| && buf[p] == SS_QMK_PREFIX && KeyCode(buf[p + 1]) && buf[p + 2] != 0
    ensures SendsItself(buf, p, ReadToken(buf, p, data))
    ensures ReadToken(buf, p, data).scratch[2] != 0
  {
    var s := ReadToken(buf, p, data).scratch;
    assert s[..3] == [buf[p], buf[p + 1], buf[p + 2]] == buf[p..p + 3];
    CStringIs(s, 3);
  }

  lemma DelayTokenSends(buf: seq<Byte>, p: nat, data: seq<Byte>)
    requires |data| == SCRATCH && p + 1 < |buf| && buf[p] == SS_QMK_PREFIX && buf[p + 1] == SS_DELAY_CODE
    requires ReadToken(buf, p, data).Token?
    ensures SendsItself(buf, p, ReadToken(buf, p, data))
    ensures ReadToken(buf, p, data).scratch[2] != 0
  {
    var data1 := data[0 := buf[p]][1 := 0][1 := buf[p + 1]];
    assert data1[..2] == [buf[p], buf[p + 1]] == buf[p..p + 2];
    DelaySends(buf, p, p + 2, data1, 2);
  }

  lemma UnknownSends(buf: seq<Byte>, p: nat, data: seq<Byte>)
    requires |data| == SCRATCH && p + 1 < |buf| && Unknown(buf, p)
    ensures var t := ReadToken(buf, p, data);
            && t.Token? && t.next == p + 2 && t.scratch[2] == data[2]
            && (if data[2] == 0 then SendsItself(buf, p, t) else |CString(t.scratch)| > 2)
  {
    var s := ReadToken(buf, p, data).scratch;
    if data[2] == 0 {
      assert s[..2] == [buf[p], buf[p + 1]] == buf[p..p + 2];
      CStringIs(s, 2);
    } else {
      assert s[0] != 0 && s[1] != 0 && s[2] != 0;
    }
  }

  predicate KnownAt(buf: seq<Byte>, p: nat) { p + 1 < |buf| && Known(buf, p) }

  predicate UnknownAt(buf: seq<Byte>, p: nat) { p + 1 < |buf| && Unknown(buf, p) }

  /** What reading the token at `p` leaves behind, and the string it sends. */
  lemma TokenSends(buf: seq<Byte>, p: nat, data: seq<Byte>, dirty: bool)
    requires ScratchOk(data, dirty) && ReadToken(buf, p, data).Token?
    ensures var t := ReadToken(buf, p, data);
            && ScratchOk(t.scratch, dirty || KnownAt(buf, p))
            && (if UnknownAt(buf, p) && dirty then |CString(t.scratch)| > t.next - p else SendsItself(buf, p, t))
  {
    if buf[p] != SS_QMK_PREFIX {
      PlainSends(buf, p, data);
    } else if buf[p + 1] == SS_DELAY_CODE {
      DelayTokenSends(buf, p, data);
    } else if KeyCode(buf[p + 1]) {
      KeySends(buf, p, data);
    } else {
      UnknownSends(buf, p, data);
    }
  }

  lemma ConcatFirst(chunk: seq<Byte>, rest: seq<seq<Byte>>)
    ensures Concat([chunk] + rest) == chunk + Concat(rest)
  {
    assert ([chunk] + rest)[1..] == rest;
  }

  /** Sent bytes against macro bytes `buf[p..e]`. */
  predicate Compares(buf: seq<Byte>, p: nat, e: nat, sent: seq<Byte>, clean: bool)
    requires p <= e <= |buf|
  {
    |sent| >= e - p && (if clean then sent == buf[p..e] else |sent| > e - p)
  }

  lemma ComparesMore(buf: seq<Byte>, p: nat, q: nat, e: nat, chunk: seq<Byte>, sent: seq<Byte>, clean0: bool, clean: bool)
    requires p <= q <= e <= |buf| && Compares(buf, q, e, sent, clean)
    requires if clean0 then chunk == buf[p..q] else |chunk| > q - p
    ensures Compares(buf, p, e, chunk + sent, clean0 && clean)
  {
    assert buf[p..e] == buf[p..q] + buf[q..e];
  }

  lemma {:induction false} SendsString(buf: seq<Byte>, p: nat, data: seq<Byte>, dirty: bool)
    requires ScratchOk(data, dirty) && p <= |buf|
    requires SendFrom(buf, p, data).status.Done?
    ensures Compares(buf, p, StringEnd(buf, p), Concat(SendFrom(buf, p, data).chunks), NoneStale(buf, p, dirty))
    decreases |buf| - p
  {
    ReadWithin(buf, p, data);
    ReadsTokens(buf, p, data);
    var t := ReadToken(buf, p, data);
    if t.Token? {
      TokenSends(buf, p, data, dirty);
      StringEndFrom(buf, p, t.next);
      SendsString(buf, t.next, t.scratch, dirty || KnownAt(buf, p));
      var rest := SendFrom(buf, t.next, t.scratch).chunks;
      ConcatFirst(CString(t.scratch), rest);
      ComparesMore(buf, p, t.next, StringEnd(buf, p), CString(t.scratch), Concat(rest),
                   !(UnknownAt(buf, p) && dirty), NoneStale(buf, t.next, dirty || KnownAt(buf, p)));
    }
  }

  /** Macro `id`, if the buffer holds enough zeros before it, plays to its end if and only if its tokens are well
      formed; then it is sent exactly if and only if no unrecognised code follows a recognised one in it, and otherwise
      left-over scratch bytes are sent as well. */
  lemma SentExactly(buf: seq<Byte>, count: nat, id: nat)
    requires id < count && buf != [] && buf[|buf| - 1] == 0 && id <= Zeros(buf)
    ensures Skip(buf, 0, id).Some?
    ensures var p := Skip(buf, 0, id).value;
            var sent := MacroSend(buf, count, id);
            && (sent.status.Done? <==> Parses(buf, p))
            && (Parses(buf, p) ==> (Concat(sent.chunks) == buf[p..StringEnd(buf, p)] <==> NoneStale(buf, p, false)))
  {
    SkipStart(buf, id);
    var p := Skip(buf, 0, id).value;
    DoneExactly(buf, p, BLANK);
    if Parses(buf, p) {
      SendsString(buf, p, BLANK, false);
    }
  }

  /** A macro of well-formed tokens with the four known codes is sent byte for byte. */
  lemma WellFormedSent(buf: seq<Byte>, count: nat, id: nat)
    requires id < count && buf != [] && buf[|buf| - 1] == 0 && id <= Zeros(buf)
    requires Skip(buf, 0, id).Some? && WellFormed(buf, Skip(buf, 0, id).value)
    ensures var p := Skip(buf, 0, id).value;
            var sent := MacroSend(buf, count, id);
            sent.status.Done? && Concat(sent.chunks) == buf[p..StringEnd(buf, p)]
  {
    WellFormedParses(buf, Skip(buf, 0, id).value, false);
    SentExactly(buf, count, id);
  }

  /** Nothing is played, and nothing sent, exactly if there is no macro of that number, by count or in the buffer, or if
      the buffer is empty or does not end in a zero byte. */
  lemma IgnoredExactly(buf: seq<Byte>, count: nat, id: nat)
    ensures var sent := MacroSend(buf, count, id);
            && (sent.status.Ignored? <==> id >= count || buf == [] || buf[|buf| - 1] != 0 || id > Zeros(buf))
            && (sent.status.Ignored? ==> sent.chunks == [])
  {
    if id < count && buf != [] && buf[|buf| - 1] == 0 {
      SkipExact(buf, 0, id);
      assert buf[0..] == buf;
      if id <= Zeros(buf) {
        NeverIgnored(buf, Skip(buf, 0, id).value, BLANK);
      }
    }
  }

  lemma {:induction false} NeverIgnored(buf: seq<Byte>, p: nat, data: seq<Byte>)
    requires |data| == SCRATCH
    ensures !SendFrom(buf, p, data).status.Ignored?
    decreases |buf| - p
  {
    var t := ReadToken(buf, p, data);
    if p + 1 < |buf| {
      DelayStops(buf, p + 2, data[0 := buf[p]][1 := 0][1 := buf[p + 1]], 2);
    }
    if t.Token? {
      NeverIgnored(buf, t.next, t.scratch);
    }
  }

  lemma {:induction false} DelayStops(buf: seq<Byte>, p: nat, data: seq<Byte>, i: nat)
    requires |data| == SCRATCH && 2 <= i <= 6
    ensures var t := DelayToken(buf, p, data, i); t.Stop? ==> t.status.Aborted? || t.status.Overrun?
    decreases 7 - i
  {
    if p < |buf| && i < 6 {
      DelayStops(buf, p + 1, data[i := buf[p]], i + 1);
    }
  }

  /** The well-formed tokens from `p` on, up to the first that is not one. */
  function Tokens(buf: seq<Byte>, p: nat): seq<seq<Byte>>
    decreases |buf| - p
  {
    match TokenEnd(buf, p)
    case None => []
    case Some(next) => [buf[p..next]] + Tokens(buf, next)
  }

  lemma {:induction false} SendsTokens(buf: seq<Byte>, p: nat, data: seq<Byte>, dirty: bool)
    requires ScratchOk(data, dirty) && NoneStale(buf, p, dirty)
    ensures SendFrom(buf, p, data).chunks == Tokens(buf, p)
    decreases |buf| - p
  {
    ReadsTokens(buf, p, data);
    var t := ReadToken(buf, p, data);
    if t.Token? {
      TokenSends(buf, p, data, dirty);
      SendsTokens(buf, t.next, t.scratch, dirty || KnownAt(buf, p));
    }
  }

  /** A macro in which no unrecognised code follows a recognised one is sent token by token, each as one string, up to its
      end or up to the first malformed token, which stops the player. */
  lemma TokensSent(buf: seq<Byte>, count: nat, id: nat)
    requires id < count && buf != [] && buf[|buf| - 1] == 0 && id <= Zeros(buf)
    ensures Skip(buf, 0, id).Some?
    ensures var p := Skip(buf, 0, id).value;
            NoneStale(buf, p, false) ==> MacroSend(buf, count, id).chunks == Tokens(buf, p)
  {
    SkipStart(buf, id);
    var p := Skip(buf, 0, id).value;
    if NoneStale(buf, p, false) {
      SendsTokens(buf, p, BLANK, false);
    }
  }

  lemma SendStep(buf: seq<Byte>, p: nat, data: seq<Byte>, scratch: seq<Byte>, next: nat)
    requires |data| == SCRATCH && ReadToken(buf, p, data) == Token(scratch, next)
    ensures var rest := SendFrom(buf, next, scratch);
            SendFrom(buf, p, data) == rest.(chunks := [CString(scratch)] + rest.chunks)
  {
  }

  const AFTER_TAP: seq<Byte> := [1, 1, 65, 0, 0, 0, 0, 0]
  const AFTER_OTHER: seq<Byte> := [1, 9, 65, 0, 0, 0, 0, 0]

  lemma ReadTap(buf: seq<Byte>)
    requires buf == [1, 1, 65, 1, 9, 0]
    ensures ReadToken(buf, 0, BLANK) == Token(AFTER_TAP, 3)
  {
    assert ReadToken(buf, 0, BLANK).scratch == AFTER_TAP;
  }

  lemma ReadOther(buf: seq<Byte>)
    requires buf == [1, 1, 65, 1, 9, 0]
    ensures ReadToken(buf, 3, AFTER_TAP) == Token(AFTER_OTHER, 5)
  {
    assert ReadToken(buf, 3, AFTER_TAP).scratch == AFTER_OTHER;
  }

  lemma StaleStrings()
    ensures CString(AFTER_TAP) == [1, 1, 65] && CString(AFTER_OTHER) == [1, 9, 65]
  {
    CStringIs(AFTER_TAP, 3);
    CStringIs(AFTER_OTHER, 3);
    assert AFTER_TAP[..3] == [1, 1, 65] && AFTER_OTHER[..3] == [1, 9, 65];
  }

  /** Tap `A`, then a code the player does not know: the keycode of the tap is sent again. */
  lemma StaleByteHappens(buf: seq<Byte>)
    requires buf == [1, 1, 65, 1, 9, 0]
    ensures SendFrom(buf, 0, BLANK).chunks == [CString(AFTER_TAP)] + [CString(AFTER_OTHER)]
    ensures CString(AFTER_TAP) == [1, 1, 65] && CString(AFTER_OTHER) == [1, 9, 65]
  {
    ReadTap(buf);
    ReadOther(buf);
    SendStep(buf, 0, BLANK, AFTER_TAP, 3);
    SendStep(buf, 3, AFTER_TAP, AFTER_OTHER, 5);
    StaleStrings();
  }
}
