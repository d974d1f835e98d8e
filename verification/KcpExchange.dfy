/**
  What one flush puts on the wire and what reading it does at the other end: the facts about single
  steps that progress is made of.
 */
module KcpExchange {
  import opened Wrap32
  import opened KcpTypes
  import opened KcpSpec
  import opened KcpInvariants
  import opened KcpNetwork
  import opened KcpTiming

  // ----- the sender's work

  /** The fragments a sender still has to get acknowledged. */
  function Work(cb: Cb): nat { |cb.snd.queue| + |cb.snd.buf| }

  ghost predicate Holds(ws: seq<Wire>, cmd: byte, sn: u32)
  {
    exists i :: 0 <= i < |ws| && ws[i].cmd == cmd && ws[i].sn == sn
  }

  // ----- reading segments

  /** A segment read takes segments out of snd_buf or leaves it as it is. */
  lemma WireSheds(g: Reading, w: Wire)
    ensures var s, s' := g.cb.snd, ApplyWire(g, w).cb.snd;
      s'.queue == s.queue && |s'.buf| <= |s.buf| && (|s'.buf| == |s.buf| ==> s'.buf == s.buf)
  {
    hide DropBelow, FindAcked, ApplyPush, UpdateAck, Diff, TrackAck;
  }

  lemma {:induction false} ApplyAllSheds(g: Reading, ws: seq<Wire>)
    ensures var s, s' := g.cb.snd, ApplyAll(g, ws).cb.snd;
      s'.queue == s.queue && |s'.buf| <= |s.buf| && (|s'.buf| == |s.buf| ==> s'.buf == s.buf)
    decreases |ws|
  {
    hide ApplyWire;
    if ws != [] {
      WireSheds(g, ws[0]);
      ApplyAllSheds(ApplyWire(g, ws[0]), ws[1..]);
    }
  }

  lemma AckedOut(g: Reading, w: Wire)
    requires CbOk(g.cb) && g.cb.snd.buf != [] && w.cmd == CMD_ACK && w.sn == g.cb.snd.buf[0].sn
    ensures |ApplyWire(g, w).cb.snd.buf| < |g.cb.snd.buf|
  {
    hide DropBelow, FindAcked, UpdateAck, Diff, TrackAck, OutSorted, ReceiverOk, Age;
    WireSheds(g, w);
    UnaKeepsSender(g.cb, w);
    var s := ApplyUna(g.cb, w).snd;
    AckRemovesExactly(g.cb.cfg, s, w.sn);
    assert g.cb.snd.buf[0] in g.cb.snd.buf && g.cb.snd.buf[0] !in ParseAck(s, w.sn).buf;
  }

  /** Reading the acknowledgement of the oldest segment makes snd_buf shorter. */
  lemma {:induction false} AckSheds(g: Reading, ws: seq<Wire>, i: nat)
    requires CbOk(g.cb) && g.cb.snd.buf != []
    requires i < |ws| && ws[i].cmd == CMD_ACK && ws[i].sn == g.cb.snd.buf[0].sn
    ensures |ApplyAll(g, ws).cb.snd.buf| < |g.cb.snd.buf|
    decreases |ws|
  {
    hide ApplyWire, SenderOk, ReceiverOk;
    var g1 := ApplyWire(g, ws[0]);
    WireSheds(g, ws[0]);
    ApplyAllSheds(g1, ws[1..]);
    ApplyWireOk(g, ws[0]);
    if i == 0 {
      AckedOut(g, ws[0]);
    } else if |g1.cb.snd.buf| == |g.cb.snd.buf| {
      AckSheds(g1, ws[1..], i - 1);
    }
  }

  lemma WirePace(g: Reading, w: Wire)
    ensures var p, p' := g.cb.pace, ApplyWire(g, w).cb.pace;
      p'.rmtWnd == w.wnd && (p'.askTell <==> p.askTell || w.cmd == CMD_WASK)
    ensures w.cmd != CMD_PUSH ==> ApplyWire(g, w).cb.rcv == g.cb.rcv
  {
    hide DropBelow, ParseAck, ApplyPush, Diff, TrackAck, Wrap, ToI32, TruncDiv;
  }

  /** The window last read is the one remembered, and a window probe is remembered for the next flush. */
  lemma {:induction false} ApplyAllPace(g: Reading, ws: seq<Wire>, wnd: u16)
    requires ws != [] && forall i :: 0 <= i < |ws| ==> ws[i].wnd == wnd
    ensures ApplyAll(g, ws).cb.pace.rmtWnd == wnd
    ensures g.cb.pace.askTell || (exists i :: 0 <= i < |ws| && ws[i].cmd == CMD_WASK)
      ==> ApplyAll(g, ws).cb.pace.askTell
    decreases |ws|
  {
    hide ApplyWire;
    WirePace(g, ws[0]);
    var g1 := ApplyWire(g, ws[0]);
    if |ws| > 1 {
      ApplyAllPace(g1, ws[1..], wnd);
      if exists i :: 0 <= i < |ws| && ws[i].cmd == CMD_WASK {
        var i :| 0 <= i < |ws| && ws[i].cmd == CMD_WASK;
        assert i > 0 ==> ws[1..][i - 1] == ws[i];
      }
    } else {
      assert ws[1..] == [];
    }
  }

  lemma {:induction false} ApplyAllNoPush(g: Reading, ws: seq<Wire>)
    requires forall i :: 0 <= i < |ws| ==> ws[i].cmd != CMD_PUSH
    ensures ApplyAll(g, ws).cb.rcv == g.cb.rcv
    decreases |ws|
  {
    hide ApplyWire;
    if ws != [] {
      WirePace(g, ws[0]);
      ApplyAllNoPush(ApplyWire(g, ws[0]), ws[1..]);
    }
  }

  lemma SettleAside(g: Reading, prevUna: u32)
    requires g.cb.cfg.Valid()
    ensures var cb, cb' := g.cb, Settle(g, prevUna);
      && cb'.cfg == cb.cfg && cb'.rcv == cb.rcv && cb'.snd.queue == cb.snd.queue && |cb'.snd.buf| == |cb.snd.buf|
      && cb'.snd.una == cb.snd.una && cb'.snd.nxt == cb.snd.nxt
      && cb'.pace.rmtWnd == cb.pace.rmtWnd && cb'.pace.askTell == cb.pace.askTell
  {
    hide SkipCount, Diff, Wrap, UDiv;
  }

  // ----- flushing

  /** Admission moves fragments from one list to the other; the oldest segment stays the oldest. */
  lemma FlushKeepsWork(cb: Cb)
    requires cb.cfg.Valid() && cb.pace.updated
    ensures var cb' := Flush(cb).cb;
      && Work(cb') == Work(cb) && |cb'.snd.buf| >= |cb.snd.buf|
      && (cb.snd.buf != [] ==> cb'.snd.buf[0].sn == cb.snd.buf[0].sn)
      && cb'.snd.una == cb.snd.una
      && cb'.rcv == cb.rcv.(acks := []) && cb'.cfg == cb.cfg
  {
    hide AdmitCount, SendWindow, Probe, Congest, TallyOf, Transmit, DataWires, NewSeg;
  }

  lemma CongestKeeps(cfg: Config, p: Pacing, t: Tally, inflight: u32, window: u32)
    requires cfg.Valid()
    ensures var q := Congest(cfg, p, t, inflight, window);
      && q.rmtWnd == p.rmtWnd && q.cwnd >= 1 && q.current == p.current
      && q.probeWait == p.probeWait && q.tsProbe == p.tsProbe
  {
    hide Resent, Wrap;
  }

  /** The peer's window is left alone, the congestion window is open afterwards, and a closed peer's window
      has the probe timer armed. */
  lemma FlushPace(cb: Cb)
    requires cb.cfg.Valid() && cb.pace.updated
    ensures var p, q := cb.pace, Flush(cb).cb.pace;
      && q.rmtWnd == p.rmtWnd && q.cwnd >= 1 && q.current == p.current
      && (p.rmtWnd == 0 && p.probeWait == 0 ==> q.probeWait == PROBE_INIT)
      && (p.rmtWnd == 0 && p.probeWait != 0 && Diff(p.current, p.tsProbe) < 0 ==>
            q.probeWait == p.probeWait && q.tsProbe == p.tsProbe)
  {
    hide AdmitCount, SendWindow, Congest, TallyOf, Transmit, DataWires, Admit, Diff, Wrap;
    var p := Probe(cb.pace);
    var window := SendWindow(cb.cfg, p);
    var snd := Admit(cb, p, AdmitCount(cb.snd, window));
    CongestKeeps(cb.cfg, p.(askSend := false, askTell := false), TallyOf(cb, p, snd.buf),
                 Wrap(snd.nxt - snd.una), window);
  }

  /** A closed window and an expired probe timer: the flush asks. */
  lemma FlushAsks(cb: Cb)
    requires cb.cfg.Valid() && cb.pace.updated
    requires cb.pace.rmtWnd == 0 && cb.pace.probeWait != 0 && Diff(cb.pace.current, cb.pace.tsProbe) >= 0
    ensures exists i :: 0 <= i < |Flush(cb).wires| && Flush(cb).wires[i].cmd == CMD_WASK
  {
    hide AdmitCount, SendWindow, Congest, TallyOf, TransmitAll, DataWires, Admit, Diff, Wrap;
    assert ProbeWires(cb, true, cb.pace.askTell)[0].cmd == CMD_WASK;
    assert Flush(cb).wires[|AckWires(cb)|].cmd == CMD_WASK;
  }

  /** Asked, it answers. */
  lemma FlushTells(cb: Cb)
    requires cb.cfg.Valid() && cb.pace.updated && cb.pace.askTell
    ensures Flush(cb).wires != []
  {
    hide AdmitCount, SendWindow, Congest, TallyOf, TransmitAll, DataWires, Admit, Diff, Wrap;
    assert Probe(cb.pace).askTell;
    assert |ProbeWires(cb, Probe(cb.pace).askSend, true)| >= 1;
  }

  /** Every segment of a flush advertises the same window: the free part of the receive window, as far as 16
      bits can tell. */
  lemma FlushWindow(cb: Cb)
    requires cb.cfg.Valid()
    ensures forall i :: 0 <= i < |Flush(cb).wires| ==> Flush(cb).wires[i].wnd == WndUnused(cb) % 0x1_0000
  {
    hide Admit, AdmitCount, SendWindow, Probe, Congest, TallyOf, TransmitAll, Decide, Transmit, DataWires, WndUnused;
    if cb.pace.updated {
      var p, s := Probe(cb.pace), Numbered(cb);
      DataWiresFrom(cb, p, s.buf);
      forall d | d in DataWires(cb, p, s.buf) ensures d.wnd == WndUnused(cb) % 0x1_0000 {
        var i :| 0 <= i < |s.buf| && Decide(cb.cfg, p, s.buf[i]) != Keep && d == WireOf(cb, Transmit(cb, p, s.buf[i]));
        SentWindow(cb, p, s.buf[i]);
      }
    }
  }

  lemma SentWindow(cb: Cb, p: Pacing, seg: OutSeg)
    requires Decide(cb.cfg, p, seg) != Keep
    ensures Transmit(cb, p, seg).wnd == WndUnused(cb)
  {
    hide BackedOff, Wrap, WndUnused;
  }

  /** The oldest segment goes out when it is new, timed out or skipped often enough, and otherwise stays as it
      is. */
  lemma FlushHead(cb: Cb)
    requires CbOk(cb) && cb.pace.updated && cb.snd.buf != []
    ensures Flush(cb).cb.snd.buf != []
    ensures if Decide(cb.cfg, cb.pace, cb.snd.buf[0]) == Keep then Flush(cb).cb.snd.buf[0] == cb.snd.buf[0]
      else Holds(Flush(cb).wires, CMD_PUSH, cb.snd.buf[0].sn)
  {
    hide AdmitCount, SendWindow, Congest, TallyOf, Transmit, DataWires, SenderOk, ReceiverOk, BackedOff, Diff, Flush,
      NewSeg, Decide;
    var p, seg := Probe(cb.pace), Numbered(cb).buf[0];
    SameDecision(cb.cfg, cb.pace, seg);
    assert seg == cb.snd.buf[0];
    DueAreSent(cb, 0);
    hide Probe;
    FlushKeepsWork(cb);
    assert WireOf(cb, Flush(cb).cb.snd.buf[0]).sn == cb.snd.buf[0].sn;
  }

  lemma SameDecision(cfg: Config, p: Pacing, seg: OutSeg)
    ensures Decide(cfg, Probe(p), seg) == Decide(cfg, p, seg)
  {
    SameClock(p);
    hide Probe, Diff;
  }

  /** With the peer's window and the congestion window open, an idle sender admits a fragment. */
  lemma FlushAdmits(cb: Cb)
    requires CbOk(cb) && cb.pace.updated && cb.snd.buf == [] && cb.snd.queue != []
    requires cb.pace.rmtWnd != 0 && cb.pace.cwnd != 0
    ensures Flush(cb).cb.snd.buf != []
  {
    hide Congest, TallyOf, Transmit, DataWires, NewSeg, ReceiverOk, OutSorted, FitsMss;
    assert Wrap(cb.snd.nxt - cb.snd.una) == 0;
  }

  /** With the peer's window closed it admits none and sends no data. */
  lemma FlushHoldsBack(cb: Cb)
    requires CbOk(cb) && cb.pace.updated && cb.snd.buf == [] && cb.pace.rmtWnd == 0
    ensures Flush(cb).cb.snd.buf == []
    ensures forall i :: 0 <= i < |Flush(cb).wires| ==> Flush(cb).wires[i].cmd != CMD_PUSH
  {
    hide Congest, TallyOf, Transmit, DataWires, NewSeg, Control, Wrap, SenderOk, ReceiverOk, AckWires, ProbeWires;
    FlushWires(cb);
    assert Numbered(cb).buf == [];
    NotAPush(cb);
  }

  lemma NotAPush(cb: Cb)
    ensures forall sn: u32, ts: u32 :: Control(cb, CMD_ACK, sn, ts).cmd == CMD_ACK
  {
  }
}
