/**
  When everything a user has sent can be read by the other: exactly when the receiver's window, as the 16
  bits of a segment can tell it, is large enough for the longest message.
 */
module KcpLiveness {
  import opened Wrap32
  import opened KcpTypes
  import opened KcpWire
  import opened KcpSpec
  import opened KcpInvariants
  import opened KcpHistory
  import opened KcpMessages
  import opened KcpNetwork
  import opened KcpEndToEnd
  import opened KcpTimely
  import opened KcpTheorems
  import opened KcpExchange
  import opened KcpProgress

  // ----- to the end of a transfer

  /** Rounds until the sender has nothing left, or the window stays closed. */
  lemma {:induction false} Drain(s: Sys, side: Side) returns (s': Sys)
    requires Inv(s) && Narrow(EndOf(s, side), EndOf(s, Peer(side)))
    ensures Inv(s') && Reaches(s, s') && Onward(s, s', side)
    ensures Work(EndOf(s', side).cb) == 0 || Closed(s', side)
    decreases Work(EndOf(s, side).cb)
  {
    hide Inv, Reaches, Closed, Advertised, FenceKept;
    ReachSelf(s);
    FenceSelf(s, side);
    s' := s;
    if Work(EndOf(s, side).cb) > 0 {
      var s1 := Round(s, side);
      s' := s1;
      if !Closed(s1, side) {
        s' := Drain(s1, side);
        ReachTrans(s, s1, s');
        FenceTrans(s, s1, s', side);
      }
    }
  }

  /** Everything one user has sent has been read by the other. */
  ghost predicate AllReadAt(s: Sys, side: Side)
  {
    var x, y := EndOf(s, side), EndOf(s, Peer(side));
    Concat(y.received) == Concat(x.accepted) && (!x.cb.cfg.stream ==> y.received == x.accepted)
  }

  lemma DoneMeansRead(s: Sys, side: Side)
    requires Inv(s) && Work(EndOf(s, side).cb) == 0 && Drained(EndOf(s, Peer(side)))
    ensures EndOf(s, Peer(side)).cb.rcv.queue == [] && AllReadAt(s, side)
    ensures EndOf(s, Peer(side)).taken == EndOf(s, side).sent
  {
    FenceLinked(s, side);
    hide Inv, CbOk, AcksOk, HonestPackets, Carries, Books, Drained, Concat;
    var x, y := EndOf(s, side), EndOf(s, Peer(side));
    DrainedUna(x, y);
    NothingQueued(x, y);
    AllArrived(x, y);
    AllRead(x, y);
  }

  lemma NothingQueued(x: End, y: End)
    requires CbOk(x.cb) && Carries(x, y) && Books(x, y) && Drained(y) && UnaNo(x) <= Arrived(y)
    requires x.cb.snd.buf == [] && x.cb.snd.queue == []
    ensures y.cb.rcv.queue == []
  {
    hide CbOk, Messages, Message, Payload, Concat, Streamed, Conserved, OutNo, PeekSize;
    if y.cb.rcv.queue != [] {
      NothingInFlight(x);
      if x.cb.cfg.stream {
        DrainedQueue(x, y);
      } else {
        NextIsMessage(x, y);
        RestIsQueued(x, y);
      }
    }
  }

  lemma NothingInFlight(x: End)
    requires CbOk(x.cb) && x.cb.snd.buf == []
    ensures UnaNo(x) == |x.sent|
  {
  }

  lemma RestIsQueued(x: End, y: End)
    requires Books(x, y) && !x.cb.cfg.stream && x.cb.snd.queue == [] && |y.received| < |x.accepted|
    requires ArrivedOk(y.taken, y.cb.rcv, x.sent) && Arrived(y) >= |x.sent|
    ensures |y.cb.rcv.queue| >= |Message(x.cb.cfg.Mss(), x.accepted[|y.received|])|
  {
    hide Message, Payload, Concat, Streamed, InNo;
    var mss, k := x.cb.cfg.Mss(), |y.received|;
    assert x.sent + x.cb.snd.queue == x.sent;
    assert x.accepted == y.received + x.accepted[k..];
    MessagesAppend(mss, y.received, x.accepted[k..]);
  }

  // ----- the window that can be told

  /** What 16 bits can tell of the receive window is at least one, for a message at least the 127 fragments
      the longest can have. */
  predicate Opens(cfgX: Config, cfgY: Config) { cfgY.rcvWnd % 0x1_0000 >= FrgBound(cfgX) }

  lemma NeverClosed(s: Sys, side: Side)
    requires Inv(s) && Opens(EndOf(s, side).cb.cfg, EndOf(s, Peer(side)).cb.cfg)
    ensures !Closed(s, side)
  {
    FenceLinked(s, side);
    hide Inv, CbOk, AcksOk, HonestPackets, Carries, Books, Drained, UnaNo, Opens, WndUnused, FrgBound;
    var x, y := EndOf(s, side), EndOf(s, Peer(side));
    if Advertised(s, side) {
      DrainedUna(x, y);
      RoomToTell(x.cb.cfg, y.cb);
    }
  }

  lemma RoomToTell(cfgX: Config, cb: Cb)
    requires |cb.rcv.queue| < FrgBound(cfgX) && Opens(cfgX, cb.cfg)
    ensures WndUnused(cb) % 0x1_0000 != 0
  {
    Told(cb.cfg.rcvWnd, |cb.rcv.queue|);
  }

  lemma Told(wnd: u32, n: nat)
    requires n <= wnd % 0x1_0000
    ensures wnd >= n && (wnd - n) % 0x1_0000 == wnd % 0x1_0000 - n
  {
  }

  // ----- longer runs

  function Last(run: Execution): Sys
    requires run.states != []
  {
    run.states[|run.states| - 1]
  }

  /** run' is run with more actions. */
  ghost predicate Continues(run: Execution, run': Execution)
  {
    && run.Valid() && run'.Valid() && run'.cfgA == run.cfgA && run'.cfgB == run.cfgB
    && run.acts <= run'.acts && run.states <= run'.states
  }

  /** run' is run with more ticks of clocks that run forward, deliveries and reads. */
  ghost predicate Proceeds(run: Execution, run': Execution)
  {
    && Continues(run, run')
    && forall k :: |run.acts| <= k < |run'.acts| ==> Quiet(run'.states[k], run'.acts[k])
  }

  lemma Longer(run: Execution, act: Action) returns (run': Execution)
    requires run.Valid() && Enabled(Last(run), act)
    requires Last(run).a.cb.cfg.Valid() && Last(run).b.cb.cfg.Valid()
    ensures Continues(run, run') && run'.acts == run.acts + [act] && Last(run') == Next(Last(run), act)
  {
    hide Next, Enabled, Start;
    run' := run.(acts := run.acts + [act], states := run.states + [Next(Last(run), act)]);
    forall i | 0 <= i < |run'.acts| ensures StepsTo(run'.states[i], run'.acts[i], run'.states[i + 1]) {
      if i < |run.acts| { assert StepsTo(run.states[i], run.acts[i], run.states[i + 1]); }
    }
  }

  lemma {:induction false} LongerBy(run: Execution, acts: seq<Action>, s': Sys) returns (run': Execution)
    requires run.Valid() && Leads(Last(run), acts, s')
    ensures Continues(run, run') && run'.acts == run.acts + acts && Last(run') == s'
    ensures Quietly(Last(run), acts) ==> Proceeds(run, run')
    decreases |acts|
  {
    hide Next, Enabled, StepsTo, Start, Quiet;
    if acts == [] {
      run' := run;
    } else {
      var run1 := Longer(run, acts[0]);
      run' := LongerBy(run1, acts[1..], s');
      assert run.acts + acts == run1.acts + acts[1..];
    }
  }

  lemma ProceedTo(run: Execution, s': Sys) returns (run': Execution)
    requires run.Valid() && Reaches(Last(run), s')
    ensures Proceeds(run, run') && run'.states != [] && Last(run') == s'
  {
    hide Leads, Quietly, StepsTo, Start, Quiet;
    var acts :| Leads(Last(run), acts, s') && Quietly(Last(run), acts);
    run' := LongerBy(run, acts, s');
  }

  lemma QuietSame(s: Sys, act: Action, side: Side)
    requires s.a.cb.cfg.Valid() && s.b.cb.cfg.Valid() && Quiet(s, act)
    ensures EndOf(Next(s, act), side).accepted == EndOf(s, side).accepted
  {
    hide UserRecv, Ticking, Delivered;
    match act
    case UserReads(acting, len) => ReadSame(EndOf(s, acting), len);
    case Updates(acting, time) => TickSame(EndOf(s, acting), time);
    case Delivers(acting, p) => DeliveredSame(EndOf(s, acting), p);
  }

  lemma ReadSame(e: End, len: int)
    ensures UserRecv(e, len).accepted == e.accepted
  {
    hide Recv;
  }

  lemma TickSame(e: End, time: u32)
    requires e.cb.cfg.Valid()
    ensures Ticking(e, time).0.accepted == e.accepted
  {
    hide Flush, Packets, Tick, FlushDue, WireNos, AdmitCount, SendWindow, Probe;
  }

  lemma DeliveredSame(e: End, p: Packet)
    requires e.cb.cfg.Valid()
    ensures Delivered(e, p).accepted == e.accepted
  {
    hide Input, Settle, Turns;
    var d := Parse(e.cb.cfg.conv, p.bytes);
    if |d.segs| == |p.nos| { TurnsHistory(e, NoAck, d.segs, p.nos); }
  }

  lemma {:induction false} ProceedSame(run: Execution, run': Execution, k: nat, side: Side)
    requires Proceeds(run, run') && |run.acts| <= k < |run'.states|
    ensures EndOf(run'.states[k], side).accepted == EndOf(Last(run), side).accepted
    decreases k
  {
    hide Next, Enabled, Start;
    if k == |run.acts| {
      assert run'.states[k] == Last(run);
    } else {
      ProceedSame(run, run', k - 1, side);
      assert StepsTo(run'.states[k - 1], run'.acts[k - 1], run'.states[k]);
      QuietSame(run'.states[k - 1], run'.acts[k - 1], side);
    }
  }

  /** Sending windows that fit together in the sequence space, in both directions. */
  predicate Fits(cfgA: Config, cfgB: Config)
  {
    cfgA.sndWnd + cfgB.rcvWnd < HALF && cfgB.sndWnd + cfgA.rcvWnd < HALF
  }

  /** Progress: whatever has happened on a connection whose windows can be told, and whatever the network still
      holds or has lost, forward clock ticks, deliveries and reads alone lead to a state in which everything accepted
      so far has been read, in both directions. */
  lemma EverythingGetsRead(run: Execution) returns (run': Execution)
    requires run.Valid() && Fits(run.cfgA, run.cfgB) && Opens(run.cfgA, run.cfgB) && Opens(run.cfgB, run.cfgA)
    ensures Proceeds(run, run')
    ensures forall side :: AllReadAt(Last(run'), side)
    ensures forall side :: EndOf(Last(run'), side).accepted == EndOf(Last(run), side).accepted
  {
    hide Inv, Reaches, StepsTo, Start, Proceeds, Closed, Drained, FenceKept, AllReadAt, Leads;
    var s := Last(run);
    RunInv(run, |run.states| - 1);
    Settings(run);
    var s1 := Drain(s, A);
    NeverClosed(s1, A);
    var s2 := Drain(s1, B);
    NeverClosed(s2, B);
    var s3 := ReadAll(s2, A);
    var s4 := ReadAll(s3, B);
    ReachTrans(s, s1, s2);
    ReachTrans(s, s2, s3);
    ReachTrans(s, s3, s4);
    forall side ensures AllReadAt(s4, side) {
      if side == A { DoneMeansRead(s4, A); } else { DoneMeansRead(s4, B); }
    }
    run' := ProceedTo(run, s4);
    forall side ensures EndOf(Last(run'), side).accepted == EndOf(s, side).accepted { ProceedKeeps(run, run', side); }
  }

  lemma ProceedKeeps(run: Execution, run': Execution, side: Side)
    requires run'.states != [] && run.states != [] && Proceeds(run, run')
    ensures EndOf(Last(run'), side).accepted == EndOf(Last(run), side).accepted
  {
    hide StepsTo, Start;
    ProceedSame(run, run', |run'.states| - 1, side);
  }

  lemma Settings(run: Execution)
    requires run.Valid()
    ensures Configured(Last(run), run.cfgA, run.cfgB)
  {
    SettingsAt(run, |run.states| - 1);
  }

  lemma {:induction false} SettingsAt(run: Execution, i: nat)
    requires run.Valid() && i < |run.states|
    ensures Configured(run.states[i], run.cfgA, run.cfgB)
    decreases i
  {
    hide Next, Enabled, Start;
    if i > 0 {
      SettingsAt(run, i - 1);
      assert StepsTo(run.states[i - 1], run.acts[i - 1], run.states[i]);
    }
  }
}
