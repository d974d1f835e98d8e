/**
  One endpoint on its own: whatever calls are made on it, and whatever bytes it is given, its control
  block stays in order.
 */
module KcpEndpoint {
  import opened Wrap32
  import opened KcpTypes
  import opened KcpSpec
  import opened KcpInvariants

  datatype Call =
    | Sends(data: seq<byte>)
    | Reads(len: int)
    | Receives(bytes: seq<byte>)
    | Flushes
    | Updates(time: u32)

  function Called(cb: Cb, call: Call): Cb
    requires cb.cfg.Valid()
  {
    match call
    case Sends(data) => Send(cb, data).cb
    case Reads(len) => Recv(cb, len).cb
    case Receives(bytes) => Input(cb, bytes).0
    case Flushes => Flush(cb).cb
    case Updates(time) => Update(cb, time).cb
  }

  ghost predicate CallsTo(cb: Cb, call: Call, cb': Cb) { cb.cfg.Valid() && cb' == Called(cb, call) }

  /** A sequence of calls on a fresh control block, and the states it goes through. */
  datatype Usage = Usage(cfg: Config, calls: seq<Call>, states: seq<Cb>)
  {
    ghost predicate Valid()
    {
      && cfg.Valid()
      && |states| == |calls| + 1
      && states[0] == Created(cfg)
      && forall i :: 0 <= i < |calls| ==> CallsTo(states[i], calls[i], states[i + 1])
    }
  }

  lemma CallOk(cb: Cb, call: Call)
    requires CbOk(cb)
    ensures CbOk(Called(cb, call))
  {
    hide Send, Recv, Input, Flush, Update, SenderOk, ReceiverOk;
    match call
    case Sends(data) => SendOk(cb, data);
    case Reads(len) => RecvOk(cb, len);
    case Receives(bytes) => InputOk(cb, bytes);
    case Flushes => FlushOk(cb);
    case Updates(time) => UpdateOk(cb, time);
  }

  lemma {:induction false} CallsOk(u: Usage, i: nat)
    requires u.Valid() && i < |u.states|
    ensures CbOk(u.states[i])
    decreases i
  {
    hide CbOk, Called;
    if i == 0 {
      CreatedOk(u.cfg);
    } else {
      CallsOk(u, i - 1);
      assert CallsTo(u.states[i - 1], u.calls[i - 1], u.states[i]);
      CallOk(u.states[i - 1], u.calls[i - 1]);
    }
  }

  /** After any calls with any input bytes: snd_buf and rcv_buf are strictly sorted, inside their windows
      and no longer than them; snd_buf starts at snd_una and is empty exactly when nothing is in flight;
      rcv_queue holds consecutive numbers up to rcv_nxt and is no longer than the window; and rcv_nxt
      itself waits in rcv_buf only behind a full rcv_queue. */
  lemma OrderInEveryUsage(u: Usage, i: nat)
    requires u.Valid() && i < |u.states|
    ensures var s, r, cfg := u.states[i].snd, u.states[i].rcv, u.states[i].cfg;
      && (s.buf == [] <==> s.una == s.nxt) && (s.buf != [] ==> s.buf[0].sn == s.una)
      && |s.buf| <= Age(s.nxt, s.una) <= cfg.sndWnd
      && OutSorted(s.nxt, Age(s.nxt, s.una), s.buf)
      && |r.buf| <= cfg.rcvWnd && |r.queue| <= cfg.rcvWnd
      && InSorted(r.nxt, cfg.rcvWnd, r.buf) && Contiguous(r.nxt, r.queue)
      && (r.buf != [] && r.buf[0].sn == r.nxt ==> |r.queue| == cfg.rcvWnd)
  {
    CallsOk(u, i);
    BuffersBounded(u.states[i]);
    hide OutSorted, InSorted, Contiguous, Called, FitsMss;
    var s := u.states[i].snd;
    if s.buf != [] { HeadInFlight(s.nxt, s.buf, Age(s.nxt, s.una)); }
  }

  lemma HeadInFlight(nxt: u32, buf: seq<OutSeg>, oldest: int)
    requires OutSorted(nxt, oldest, buf) && buf != []
    ensures buf[0].sn != nxt
  {
  }

  // ----- numbers only go up

  /** How many fragments a call numbers: those it moves from snd_queue to snd_buf. */
  function NumberedBy(cb: Cb, call: Call): int
    requires cb.cfg.Valid()
  {
    if call.Flushes? || call.Updates? then |cb.snd.queue| - |Called(cb, call).snd.queue| else 0
  }

  /** How many fragments have been numbered before state i: snd_nxt without wrapping. */
  ghost function NumberedTotal(u: Usage, i: nat): int
    requires u.Valid() && i < |u.states|
  {
    if i == 0 then 0
    else
      assert CallsTo(u.states[i - 1], u.calls[i - 1], u.states[i]);
      NumberedTotal(u, i - 1) + NumberedBy(u.states[i - 1], u.calls[i - 1])
  }

  /** snd_una without wrapping. */
  ghost function UnaTotal(u: Usage, i: nat): int
    requires u.Valid() && i < |u.states|
  {
    NumberedTotal(u, i) - Age(u.states[i].snd.nxt, u.states[i].snd.una)
  }

  lemma FlushNumbers(cb: Cb)
    requires CbOk(cb)
    ensures var c, n := Flush(cb).cb, |cb.snd.queue| - |Flush(cb).cb.snd.queue|;
      && n >= 0 && c.snd.nxt == Wrap(cb.snd.nxt + n)
      && Age(c.snd.nxt, c.snd.una) == Age(cb.snd.nxt, cb.snd.una) + n
  {
    hide Age, Wrap, SenderOk, ReceiverOk, Congest, TallyOf, DataWires, TransmitAll, Probe, SendWindow, AdmitCount;
    if cb.pace.updated {
      var p := Probe(cb.pace);
      var n := AdmitCount(cb.snd, SendWindow(cb.cfg, p));
      AdmitRoom(cb, SendWindow(cb.cfg, p));
      AdmitSorts(cb, p, n);
    } else {
      assert Wrap(cb.snd.nxt + 0) == cb.snd.nxt;
    }
  }

  lemma AdmitRoom(cb: Cb, window: u32)
    requires window <= cb.cfg.sndWnd
    ensures var n := AdmitCount(cb.snd, window); n == 0 || Age(cb.snd.nxt, cb.snd.una) + n <= cb.cfg.sndWnd
  {
  }

  /** A call gives out numbers from snd_nxt on and leaves no more in flight than it added. */
  lemma CallAdvances(cb: Cb, call: Call)
    requires CbOk(cb)
    ensures var s, s', n := cb.snd, Called(cb, call).snd, NumberedBy(cb, call);
      n >= 0 && s'.nxt == Wrap(s.nxt + n) && Age(s'.nxt, s'.una) <= Age(s.nxt, s.una) + n
  {
    hide Send, Recv, Input, Flush, Age, Wrap, SenderOk, ReceiverOk, Tick;
    assert Wrap(cb.snd.nxt + 0) == cb.snd.nxt;
    match call
    case Sends(data) => SendAside(cb, data);
    case Reads(len) => RecvAside(cb, len);
    case Receives(bytes) => InputOk(cb, bytes);
    case Flushes => FlushNumbers(cb);
    case Updates(time) => FlushNumbers(cb.(pace := Tick(cb.cfg, cb.pace, time)));
  }

  lemma SendAside(cb: Cb, data: seq<byte>)
    requires cb.cfg.Valid()
    ensures Send(cb, data).cb.snd.nxt == cb.snd.nxt && Send(cb, data).cb.snd.una == cb.snd.una
  {
    hide Split, Count, TailRoom, ExtendTail;
  }

  lemma RecvAside(cb: Cb, len: int)
    ensures Recv(cb, len).cb.snd == cb.snd
  {
    hide Payload, Release, PeekSize;
  }

  lemma {:induction false} Totals(u: Usage, i: nat)
    requires u.Valid() && i < |u.states|
    ensures NumberedTotal(u, i) >= 0
    ensures u.states[i].snd.nxt == Wrap(NumberedTotal(u, i))
    ensures UnaTotal(u, i) >= 0
    decreases i
  {
    hide CbOk, Called, Age, Wrap, NumberedBy;
    if i == 0 {
      CreatedNumbers(u.cfg);
    } else {
      Totals(u, i - 1);
      UnaStep(u, i - 1);
      WrapPlus(NumberedTotal(u, i - 1), NumberedTotal(u, i) - NumberedTotal(u, i - 1));
    }
  }

  lemma CreatedNumbers(cfg: Config)
    ensures var s := Created(cfg).snd; s.nxt == Wrap(0) && Age(s.nxt, s.una) == 0
  {
  }

  lemma UnaStep(u: Usage, i: nat)
    requires u.Valid() && i + 1 < |u.states|
    ensures var n := NumberedTotal(u, i + 1) - NumberedTotal(u, i);
      n >= 0 && u.states[i + 1].snd.nxt == Wrap(u.states[i].snd.nxt + n)
    ensures UnaTotal(u, i) <= UnaTotal(u, i + 1)
  {
    hide CbOk, Called, Age, Wrap, NumberedBy;
    CallsOk(u, i);
    assert CallsTo(u.states[i], u.calls[i], u.states[i + 1]);
    CallAdvances(u.states[i], u.calls[i]);
  }

  /** Between any two states of a usage snd_una and snd_nxt only move forward: both are the wrapped forms of
      unbounded numbers that never fall, and never more than snd_wnd apart. */
  lemma {:induction false} NumbersOnlyGrow(u: Usage, i: nat, j: nat)
    requires u.Valid() && i <= j < |u.states|
    ensures NumberedTotal(u, i) <= NumberedTotal(u, j) && UnaTotal(u, i) <= UnaTotal(u, j)
    ensures var s := u.states[j].snd; s.nxt == Wrap(NumberedTotal(u, j)) && s.una == Wrap(UnaTotal(u, j))
    ensures 0 <= UnaTotal(u, j) <= NumberedTotal(u, j) <= UnaTotal(u, j) + u.states[j].cfg.sndWnd
    decreases j
  {
    hide CbOk, Called, Age, Wrap, NumberedBy;
    Totals(u, j);
    CallsOk(u, j);
    BuffersBounded(u.states[j]);
    UnaWraps(NumberedTotal(u, j), u.states[j].snd);
    if i < j {
      NumbersOnlyGrow(u, i, j - 1);
      UnaStep(u, j - 1);
    }
  }

  lemma UnaWraps(n: int, s: Sender)
    requires s.nxt == Wrap(n)
    ensures s.una == Wrap(n - Age(s.nxt, s.una))
  {
  }
}
