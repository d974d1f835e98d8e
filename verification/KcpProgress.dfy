/**
  Progress: from every state of a connection, clocks, deliveries and reads alone can bring the transfer
  on, closed windows and window probes included.
 */
module KcpProgress {
  import opened Wrap32
  import opened KcpTypes
  import opened KcpWire
  import opened KcpSpec
  import opened KcpInvariants
  import opened KcpHistory
  import opened KcpMessages
  import opened KcpNetwork
  import opened KcpEndToEnd
  import opened KcpTimely
  import opened KcpTheorems
  import opened KcpTiming
  import opened KcpExchange

  // ----- what a connection does by itself

  /** Clocks run forward, datagrams arrive, users read; nothing is sent, lost or repeated. */
  predicate Quiet(s: Sys, act: Action)
  {
    || act.Delivers? || act.UserReads?
    || (act.Updates? && Diff(act.time, EndOf(s, act.side).cb.pace.current) >= 0)
  }

  ghost predicate Leads(s: Sys, acts: seq<Action>, s': Sys)
    decreases |acts|
  {
    if acts == [] then s' == s
    else
      && Enabled(s, acts[0])
      && s.a.cb.cfg.Valid() && s.b.cb.cfg.Valid()
      && Leads(Next(s, acts[0]), acts[1..], s')
  }

  /** Every action is quiet in the state it is taken in. */
  ghost predicate Quietly(s: Sys, acts: seq<Action>)
    decreases |acts|
  {
    acts == [] ||
    (Quiet(s, acts[0]) && s.a.cb.cfg.Valid() && s.b.cb.cfg.Valid() && Quietly(Next(s, acts[0]), acts[1..]))
  }

  ghost predicate Reaches(s: Sys, s': Sys) { exists acts :: Leads(s, acts, s') && Quietly(s, acts) }

  lemma ReachSelf(s: Sys)
    ensures Reaches(s, s)
  {
    var none: seq<Action> := [];
    assert Leads(s, none, s) && Quietly(s, none);
  }

  lemma ReachStep(s: Sys, act: Action)
    requires Inv(s) && Quiet(s, act) && Enabled(s, act)
    ensures s.a.cb.cfg.Valid() && s.b.cb.cfg.Valid()
    ensures Reaches(s, Next(s, act)) && Inv(Next(s, act))
  {
    hide Inv, Next, Enabled, Quiet;
    NextInv(s, act);
    var s' := Next(s, act);
    var none: seq<Action> := [];
    assert [act][1..] == none;
    assert Leads(s', none, s') && Quietly(s', none);
    assert Leads(s, [act], s') && Quietly(s, [act]);
  }

  lemma {:induction false} LeadsOn(s: Sys, a: seq<Action>, s1: Sys, b: seq<Action>, s2: Sys)
    requires Leads(s, a, s1) && Leads(s1, b, s2) && Quietly(s, a) && Quietly(s1, b)
    ensures Leads(s, a + b, s2) && Quietly(s, a + b)
    decreases |a|
  {
    hide Next, Enabled, Quiet;
    if a == [] {
      assert a + b == b;
    } else {
      LeadsOn(Next(s, a[0]), a[1..], s1, b, s2);
      assert (a + b)[1..] == a[1..] + b;
    }
  }

  lemma ReachTrans(s: Sys, s1: Sys, s2: Sys)
    requires Reaches(s, s1) && Reaches(s1, s2)
    ensures Reaches(s, s2)
  {
    hide Leads, Quietly;
    var a :| Leads(s, a, s1) && Quietly(s, a);
    var b :| Leads(s1, b, s2) && Quietly(s1, b);
    LeadsOn(s, a, s1, b, s2);
  }

  // ----- a flush now

  /** The first time from t on at which ikcp_update flushes. */
  function Soonest(p: Pacing, t: u32): u32 { if FlushDue(p, t) then t else p.tsFlush }

  lemma SoonestDue(p: Pacing, t: u32)
    ensures FlushDue(p, Soonest(p, t)) && 0 <= Diff(Soonest(p, t), t) <= 10000
  {
    hide Wrap, Diff;
    AddMs(t, 0);
    if !FlushDue(p, t) {
      NotDueNow(p, t);
      DiffFlip(t, p.tsFlush);
      AddMs(p.tsFlush, 0);
    }
  }

  /** A clock reading c is not before the time p.current, nor before r. */
  predicate Reached(p: Pacing, c: u32, r: u32) { Diff(c, p.current) >= 0 && Diff(c, r) >= 0 }

  /** r is about half a turn of the clock away. */
  predicate Opposite(p: Pacing, r: u32) { HALF - 10001 <= Ahead(p.current, r) <= HALF + 10001 }

  /** A time to flush from on: r itself if it is ahead, now if it is over, and a quarter turn of the clock on if
      it is half a turn away. */
  function Aim(p: Pacing, r: u32): u32
  {
    if Opposite(p, r) then Wrap(p.current + HALF / 2) else if Ahead(p.current, r) < HALF then r else p.current
  }

  lemma AimForward(p: Pacing, r: u32)
    ensures Diff(Soonest(p, Aim(p, r)), p.current) >= 0
    ensures !Opposite(p, r) ==> Reached(p, Soonest(p, Aim(p, r)), r)
    ensures Opposite(p, r) ==> Ahead(Soonest(p, Aim(p, r)), r) < HALF - 10001
  {
    var t, c := Aim(p, r), p.current;
    SoonestDue(p, t);
    hide FlushDue;
    var later := Diff(Soonest(p, t), t);
    SoonestIs(p, t, later);
    AimCases(c, r, t, later, Opposite(p, r));
  }

  lemma SoonestIs(p: Pacing, t: u32, later: int)
    requires later == Diff(Soonest(p, t), t)
    ensures Soonest(p, t) == Wrap(t + later)
  {
    hide Soonest;
  }

  lemma AimCases(c: u32, r: u32, t: u32, later: int, opposite: bool)
    requires 0 <= later <= 10000
    requires opposite <==> HALF - 10001 <= Ahead(c, r) <= HALF + 10001
    requires t == if opposite then Wrap(c + HALF / 2) else if Ahead(c, r) < HALF then r else c
    ensures Diff(Wrap(t + later), c) >= 0
    ensures !opposite ==> Diff(Wrap(t + later), r) >= 0
    ensures opposite ==> Ahead(Wrap(t + later), r) < HALF - 10001
  {
    hide Diff, Wrap, Ahead;
    var d := Ahead(c, r);
    WrapBack(c, r);
    AheadRange(c, r);
    if opposite {
      WrapPlus(c + HALF / 2, later);
      DiffIsExact(c + HALF / 2 + later, c);
      AheadLess(c, d, HALF / 2 + later);
    } else if d < HALF {
      WrapPlus(c + d, later);
      DiffIsExact(c + d + later, c);
      DiffIsExact(c + d + later, c + d);
    } else {
      DiffIsExact(c + later, c);
      DiffIsExact(c + later, c + d - M);
    }
  }

  lemma AheadLess(c: u32, d: int, e: int)
    requires 0 <= e <= d < M
    ensures Ahead(Wrap(c + e), Wrap(c + d)) == d - e
  {
    WrapOfDifference(c + d, c + e);
  }

  lemma AimNow(p: Pacing)
    ensures Diff(Soonest(p, p.current), p.current) >= 0
  {
    SoonestDue(p, p.current);
  }

  function Clocked(e: End, t: u32): (e': End)
    requires e.cb.cfg.Valid()
    ensures e'.cb.cfg == e.cb.cfg && e'.cb.snd == e.cb.snd && e'.cb.rcv == e.cb.rcv
    ensures e'.cb.pace.updated && e'.cb.pace.current == Soonest(e.cb.pace, t)
  {
    e.(cb := e.cb.(pace := Tick(e.cb.cfg, e.cb.pace, Soonest(e.cb.pace, t))))
  }

  /** What a tick leaves alone. */
  lemma ClockedKeeps(e: End, t: u32)
    requires e.cb.cfg.Valid()
    ensures var p, p' := e.cb.pace, Clocked(e, t).cb.pace;
      && p'.rmtWnd == p.rmtWnd && p'.cwnd == p.cwnd && p'.askTell == p.askTell
      && p'.probeWait == p.probeWait && p'.tsProbe == p.tsProbe
    ensures var e' := Clocked(e, t);
      e'.sent == e.sent && e'.taken == e.taken && e'.ackNos == e.ackNos
  {
    hide Diff, Wrap, Resync, Soonest;
  }

  /** ikcp_update at the first time from t on at which it flushes. */
  lemma FlushNow(s: Sys, side: Side, t: u32) returns (s': Sys)
    requires Inv(s)
    requires Diff(Soonest(EndOf(s, side).cb.pace, t), EndOf(s, side).cb.pace.current) >= 0
    ensures EndOf(s, side).cb.cfg.Valid()
    ensures Inv(s') && Reaches(s, s')
    ensures var x := Clocked(EndOf(s, side), t);
      && EndOf(s', side) == Flushing(x).0 && EndOf(s', Peer(side)) == EndOf(s, Peer(side))
      && (forall p :: p in Flushing(x).1 ==> p in Bound(s', Peer(side)))
      && Linked(x, EndOf(s, Peer(side)), Bound(s, Peer(side)), Bound(s, side))
  {
    hide Linked, Flushing, FlushDue, Soonest, Tick;
    InvAt(s, side);
    hide Inv;
    var x, y, xy, yx := EndOf(s, side), EndOf(s, Peer(side)), Bound(s, Peer(side)), Bound(s, side);
    LinkedValid(x, y, xy, yx);
    SoonestDue(x.cb.pace, t);
    var act := Updates(side, Soonest(x.cb.pace, t));
    ReachStep(s, act);
    LinkedPace(x, y, xy, yx, Clocked(x, t).cb.pace);
    s' := Next(s, act);
  }

  /** What a flush does to the endpoint. */
  ghost predicate FlushedFrom(x: End, x': End)
  {
    && x'.cb.cfg == x.cb.cfg
    && Work(x'.cb) == Work(x.cb) && |x'.cb.snd.buf| >= |x.cb.snd.buf|
    && (x.cb.snd.buf != [] ==> x'.cb.snd.buf[0].sn == x.cb.snd.buf[0].sn)
    && x'.cb.rcv == x.cb.rcv.(acks := []) && x'.ackNos == []
    && x'.taken == x.taken && x'.received == x.received && x'.accepted == x.accepted
    && x'.cb.pace.rmtWnd == x.cb.pace.rmtWnd && x'.cb.pace.cwnd >= 1
    && |x'.sent| + |x'.cb.snd.queue| == |x.sent| + |x.cb.snd.queue| && UnaNo(x') == UnaNo(x)
    && |x'.sent| <= Max(|x.sent|, UnaNo(x) + x.cb.pace.rmtWnd)
  }

  lemma FlushFacts(x: End, t: u32)
    requires CbOk(x.cb)
    ensures FlushedFrom(x, Flushing(Clocked(x, t)).0)
  {
    hide Tick, Soonest, Flush, Packets, WireNos, AdmitCount, SendWindow, Probe, SenderOk, ReceiverOk, Age;
    ClockedKeeps(x, t);
    var x1 := Clocked(x, t);
    FlushKeepsWork(x1.cb);
    FlushPace(x1.cb);
    FlushFits(x1);
  }

  /** A flush numbers no more fragments than the peer's window allows beyond snd_una. */
  lemma FlushFits(x: End)
    requires CbOk(x.cb) && x.cb.pace.updated
    ensures var x' := Flushing(x).0;
      && |x'.sent| + |x'.cb.snd.queue| == |x.sent| + |x.cb.snd.queue| && UnaNo(x') == UnaNo(x)
      && |x'.sent| <= Max(|x.sent|, UnaNo(x) + x.cb.pace.rmtWnd)
  {
    hide Packets, WireNos, Age, Admit, Congest, TallyOf, TransmitAll, DataWires, SenderOk, ReceiverOk;
    var p := Probe(x.cb.pace);
    var window := SendWindow(x.cb.cfg, p);
    FlushState(x.cb);
    AdmitBound(x.cb, window);
    AdmitSorts(x.cb, p, AdmitCount(x.cb.snd, window));
    AdmitQueue(x.cb, p, AdmitCount(x.cb.snd, window));
    AgeIs(x.cb.snd);
  }

  lemma AgeIs(s: Sender)
    ensures Age(s.nxt, s.una) == Wrap(s.nxt - s.una)
  {
  }

  /** The unbounded numbers of the segments of a flush. */
  function FlushNos(e: End): (nos: seq<No>)
    requires e.cb.cfg.Valid()
    ensures |nos| == |Flush(e.cb).wires|
  {
    WireNos(e, Flushing(e).0.sent, Flushing(e).0.cb.snd.nxt, Flush(e.cb).wires)
  }

  lemma {:induction false} TileOf(cs: seq<Span>, lo: nat, hi: nat, i: nat) returns (k: nat)
    requires Tiles(cs, lo, hi) && lo <= i < hi
    ensures k < |cs| && cs[k].lo <= i < cs[k].hi
    decreases |cs|
  {
    if i < cs[0].hi {
      k := 0;
    } else {
      k := TileOf(cs[1..], cs[0].hi, hi, i);
      k := k + 1;
    }
  }

  /** The packet p holds the segments lo..hi of the flush. */
  ghost predicate PacketOf(e: End, p: Packet, lo: nat, hi: nat)
    requires e.cb.cfg.Valid()
  {
    && lo < hi <= |Flush(e.cb).wires|
    && Parse(e.cb.cfg.conv, p.bytes) == Parsed(Flush(e.cb).wires[lo..hi], 0)
    && p.nos == FlushNos(e)[lo..hi] && |p.bytes| >= OVERHEAD
  }

  /** Every segment of a flush is in one of its packets. */
  lemma PacketWith(e: End, i: nat) returns (p: Packet, lo: nat, hi: nat)
    requires CbOk(e.cb) && e.cb.pace.updated && i < |Flush(e.cb).wires|
    ensures p in Flushing(e).1 && lo <= i < hi && PacketOf(e, p, lo, hi)
  {
    hide Flush, SenderOk, ReceiverOk, Encode, Need, Parse, WireNos, AdmitCount;
    var ws, mtu := Flush(e.cb).wires, e.cb.cfg.mtu;
    FlushEncodable(e.cb);
    CutsTile(mtu, ws, 0, 0);
    CutsInRange(mtu, ws, 0, 0);
    var cs := Cuts(mtu, ws, 0, 0);
    var k := TileOf(cs, 0, |ws|, i);
    lo, hi := cs[k].lo, cs[k].hi;
    ParseEncodeAll(e.cb.cfg.conv, ws[lo..hi]);
    assert |EncodeAll(ws[lo..hi])| >= OVERHEAD;
    p := Flushing(e).1[k];
  }

  /** And every packet holds segments of the flush. */
  lemma PacketIs(e: End, p: Packet) returns (lo: nat, hi: nat)
    requires CbOk(e.cb) && e.cb.pace.updated && p in Flushing(e).1
    ensures PacketOf(e, p, lo, hi)
  {
    hide Flush, SenderOk, ReceiverOk, Encode, Need, Parse, WireNos, AdmitCount;
    var ws, mtu := Flush(e.cb).wires, e.cb.cfg.mtu;
    FlushEncodable(e.cb);
    CutsInRange(mtu, ws, 0, 0);
    var cs := Cuts(mtu, ws, 0, 0);
    var k :| 0 <= k < |cs| && Flushing(e).1[k] == p;
    lo, hi := cs[k].lo, cs[k].hi;
    ParseEncodeAll(e.cb.cfg.conv, ws[lo..hi]);
    assert |EncodeAll(ws[lo..hi])| >= OVERHEAD;
  }

  // ----- a flush is timely for its reader

  lemma PushRecent(x: End, i: nat)
    requires CbOk(x.cb) && x.cb.pace.updated && SentOk(x.sent, x.cb.snd)
    requires i < |Flush(x.cb).wires| && Flush(x.cb).wires[i].cmd == CMD_PUSH
    ensures |Flushing(x).0.sent| - FlushNos(x)[i].sn <= x.cb.cfg.sndWnd
  {
    hide Flush, ReceiverOk, Admit, AdmitCount, Age, Packets, Control, LaterWire;
    FlushWires(x.cb);
    FlushState(x.cb);
    NotAPush(x.cb);
    assert LaterWire(x.cb, Numbered(x.cb), Flush(x.cb).wires[i]);
    LaterAge(x.cb, Numbered(x.cb), Flush(x.cb).wires[i]);
  }

  lemma LaterAge(cb: Cb, s: Sender, w: Wire)
    requires LaterWire(cb, s, w) && w.cmd == CMD_PUSH && SenderOk(cb.cfg, s)
    ensures Age(s.nxt, w.sn) <= cb.cfg.sndWnd
  {
    hide Age;
  }

  /** The segments of a flush are recent for the other end, if the acknowledgements among them are. */
  lemma FlushRecent(x: End, y: End, i: nat)
    requires CbOk(x.cb) && CbOk(y.cb) && x.cb.pace.updated && Carries(x, y) && Carries(y, x) && AcksOk(x)
    requires Narrow(x, y)
    requires forall j :: 0 <= j < |x.ackNos| ==> |y.sent| - x.ackNos[j] < HALF
    requires i < |Flush(x.cb).wires|
    ensures Recent(y, Flushing(x).0, Flush(x.cb).wires[i], FlushNos(x)[i])
  {
    hide Flush, SenderOk, ReceiverOk, Packets, Carries, AcksOk, UnaNo, Flushing, FlushNos, Numbered, Has;
    NosOf(x, y, i);
    UnaWithinWindow(y, x);
    if Flush(x.cb).wires[i].cmd == CMD_PUSH { PushIsRecent(x, y, i); }
  }

  lemma PushIsRecent(x: End, y: End, i: nat)
    requires CbOk(x.cb) && x.cb.pace.updated && Carries(x, y)
    requires i < |Flush(x.cb).wires| && Flush(x.cb).wires[i].cmd == CMD_PUSH
    ensures |Flushing(x).0.sent| - FlushNos(x)[i].sn < HALF
  {
    PushRecent(x, i);
    hide Flush, SenderOk, ReceiverOk, Flushing, FlushNos;
  }

  lemma NosOf(x: End, y: End, i: nat)
    requires CbOk(x.cb) && x.cb.pace.updated && AcksOk(x) && i < |Flush(x.cb).wires|
    ensures FlushNos(x)[i].una == Arrived(x)
    ensures Flush(x.cb).wires[i].cmd == CMD_ACK ==> i < |x.ackNos| && FlushNos(x)[i].sn == x.ackNos[i]
  {
    hide Flush, SenderOk, ReceiverOk, Packets, OutNo, AdmitCount, LaterWire, Has, Numbered;
    FlushWires(x.cb);
    if i >= |x.ackNos| {
      LaterFields(x.cb, Numbered(x.cb), Flush(x.cb).wires[i]);
    }
  }

  // ----- reading a datagram now

  ghost predicate HasCmd(ws: seq<Wire>, cmd: byte) { exists i :: 0 <= i < |ws| && ws[i].cmd == cmd }

  ghost predicate SameWnd(ws: seq<Wire>) { forall i :: 0 <= i < |ws| ==> ws[i].wnd == ws[0].wnd }

  /** What reading the segments ws does to an endpoint. */
  ghost predicate ReadFrom(y: End, y': End, ws: seq<Wire>)
    requires ws != []
  {
    && y'.cb.cfg == y.cb.cfg
    && y'.sent == y.sent && y'.taken == y.taken && y'.accepted == y.accepted && y'.received == y.received
    && y'.cb.snd.queue == y.cb.snd.queue && |y'.cb.snd.buf| <= |y.cb.snd.buf|
    && (y.cb.snd.buf != [] && Holds(ws, CMD_ACK, y.cb.snd.buf[0].sn) ==> |y'.cb.snd.buf| < |y.cb.snd.buf|)
    && (SameWnd(ws) ==> y'.cb.pace.rmtWnd == ws[0].wnd)
    && (SameWnd(ws) && HasCmd(ws, CMD_WASK) ==> y'.cb.pace.askTell)
    && (!HasCmd(ws, CMD_PUSH) ==> y'.cb.rcv == y.cb.rcv)
  }

  lemma SettledReads(g: Reading, ws: seq<Wire>, prevUna: u32)
    requires CbOk(g.cb) && ws != []
    ensures ApplyAll(g, ws).cb.cfg == g.cb.cfg
    ensures var cb, cb' := g.cb, Settle(ApplyAll(g, ws), prevUna);
      && cb'.cfg == cb.cfg
      && cb'.snd.queue == cb.snd.queue && |cb'.snd.buf| <= |cb.snd.buf|
      && (cb.snd.buf != [] && Holds(ws, CMD_ACK, cb.snd.buf[0].sn) ==> |cb'.snd.buf| < |cb.snd.buf|)
      && (SameWnd(ws) ==> cb'.pace.rmtWnd == ws[0].wnd)
      && (SameWnd(ws) && HasCmd(ws, CMD_WASK) ==> cb'.pace.askTell)
      && (!HasCmd(ws, CMD_PUSH) ==> cb'.rcv == cb.rcv)
  {
    hide ApplyAll, Settle, SenderOk, ReceiverOk;
    ApplyAllKeepsConfig(g, ws);
    ApplyAllSheds(g, ws);
    SettleAside(ApplyAll(g, ws), prevUna);
    if g.cb.snd.buf != [] && Holds(ws, CMD_ACK, g.cb.snd.buf[0].sn) {
      var i :| 0 <= i < |ws| && ws[i].cmd == CMD_ACK && ws[i].sn == g.cb.snd.buf[0].sn;
      AckSheds(g, ws, i);
    }
    if SameWnd(ws) { ApplyAllPace(g, ws, ws[0].wnd); }
    if !HasCmd(ws, CMD_PUSH) { ApplyAllNoPush(g, ws); }
  }

  lemma {:induction false} TurnsHistory(e: End, m: MaxAck, ws: seq<Wire>, nos: seq<No>)
    requires |ws| == |nos|
    ensures var e' := Turns(e, m, ws, nos).0;
      e'.sent == e.sent && e'.taken == e.taken && e'.accepted == e.accepted && e'.received == e.received
    decreases |ws|
  {
    hide ApplyWire, AckOwed;
    if ws != [] {
      var (e1, m1) := Turn(e, m, ws[0], nos[0]);
      TurnsHistory(e1, m1, ws[1..], nos[1..]);
    }
  }

  lemma DeliveredReads(y: End, p: Packet, ws: seq<Wire>)
    requires CbOk(y.cb) && ws != [] && |p.bytes| >= OVERHEAD
    requires Parse(y.cb.cfg.conv, p.bytes) == Parsed(ws, 0) && |ws| == |p.nos|
    ensures ReadFrom(y, Delivered(y, p), ws)
    ensures var y', y1 := Delivered(y, p), Turns(y, NoAck, ws, p.nos).0;
      y'.cb.rcv == y1.cb.rcv && y'.ackNos == y1.ackNos
  {
    hide Parse, ApplyAll, Turns, Settle, CbOk, Holds, HasCmd, SameWnd;
    CbValid(y.cb);
    TurnsRunInput(y, NoAck, ws, p.nos);
    TurnsHistory(y, NoAck, ws, p.nos);
    SettledReads(Reading(y.cb, NoAck), ws, y.cb.snd.una);
    SettleAside(ApplyAll(Reading(y.cb, NoAck), ws), y.cb.snd.una);
  }

  /** A recent datagram arrives. */
  lemma ReadNow(s: Sys, side: Side, p: Packet, ws: seq<Wire>) returns (s': Sys)
    requires Inv(s) && p in Bound(s, side) && ws != [] && |p.bytes| >= OVERHEAD
    requires Narrow(EndOf(s, Peer(side)), EndOf(s, side))
    requires Parse(EndOf(s, side).cb.cfg.conv, p.bytes) == Parsed(ws, 0)
    requires AllRecent(EndOf(s, side), EndOf(s, Peer(side)), ws, p.nos)
    ensures Inv(s') && Reaches(s, s') && EndOf(s', Peer(side)) == EndOf(s, Peer(side))
    ensures ReadFrom(EndOf(s, side), EndOf(s', side), ws)
    ensures var y, y' := EndOf(s, side), EndOf(s', side);
      var y1 := Turns(y, NoAck, ws, p.nos).0;
      && y'.cb.rcv == y1.cb.rcv && y'.ackNos == y1.ackNos
      && Reads(y, EndOf(s, Peer(side))) && HonestWires(EndOf(s, Peer(side)), ws, p.nos) && Timely(y, NoAck, ws, p.nos)
  {
    hide Parse, Timely, Turns, Delivered, ReadFrom, CbOk, Carries, AcksOk, Books, HonestWires, AllRecent, Narrow;
    InvAt(s, side);
    hide Inv;
    var x, y := EndOf(s, Peer(side)), EndOf(s, side);
    assert HonestPacket(x, p);
    HonestCount(x, ws, p.nos);
    RecentIsTimely(y, x, NoAck, ws, p.nos);
    DeliveredReads(y, p, ws);
    hide Linked;
    ReachStep(s, Delivers(side, p));
    s' := Next(s, Delivers(side, p));
  }

  lemma HonestCount(x: End, ws: seq<Wire>, nos: seq<No>)
    requires HonestWires(x, ws, nos)
    ensures |ws| == |nos|
  {
  }

  // ----- acknowledgements recorded

  ghost predicate Owed(acks: seq<Ack>, sn: u32) { exists j :: 0 <= j < |acks| && acks[j].sn == sn }

  lemma TurnOwes(e: End, m: MaxAck, w: Wire, no: No)
    ensures var e' := Turn(e, m, w, no).0;
      && (w.cmd == CMD_PUSH && AckOwed(e.cb, w) ==> Owed(e'.cb.rcv.acks, w.sn))
      && (forall sn :: Owed(e.cb.rcv.acks, sn) ==> Owed(e'.cb.rcv.acks, sn))
      && (e'.ackNos == e.ackNos || (w.cmd == CMD_PUSH && e'.ackNos == e.ackNos + [no.sn]))
  {
    hide DropBelow, ParseAck, ApplyPush, UpdateAck, Diff, TrackAck;
    var e' := Turn(e, m, w, no).0;
    if w.cmd == CMD_PUSH {
      PushAcks(e.cb, w);
      var acks, acks' := e.cb.rcv.acks, e'.cb.rcv.acks;
      assert AckOwed(e.cb, w) ==> acks'[|acks|] == Ack(w.sn, w.ts);
      forall sn | Owed(acks, sn) ensures Owed(acks', sn) {
        var j :| 0 <= j < |acks| && acks[j].sn == sn;
        assert acks'[j] == acks[j];
      }
    }
  }

  /** Acknowledgements are recorded for the fragments read. */
  lemma {:induction false} TurnsOwe(e: End, m: MaxAck, ws: seq<Wire>, nos: seq<No>, least: int)
    requires |ws| == |nos|
    requires forall i :: 0 <= i < |ws| && ws[i].cmd == CMD_PUSH ==> nos[i].sn >= least
    requires forall j :: 0 <= j < |e.ackNos| ==> e.ackNos[j] >= least
    ensures var e' := Turns(e, m, ws, nos).0; forall j :: 0 <= j < |e'.ackNos| ==> e'.ackNos[j] >= least
    decreases |ws|
  {
    hide Turn, Owed;
    if ws != [] {
      var (e1, m1) := Turn(e, m, ws[0], nos[0]);
      TurnOwes(e, m, ws[0], nos[0]);
      TurnsOwe(e1, m1, ws[1..], nos[1..], least);
      assert Turns(e, m, ws, nos) == Turns(e1, m1, ws[1..], nos[1..]);
    }
  }

  /** A fragment the reader has already, or expects next, is acknowledged. */
  lemma OldIsOwed(y: End, x: End, w: Wire, no: No)
    requires Reads(y, x) && HonestWire(x, w, no) && w.cmd == CMD_PUSH
    requires x.cb.cfg.sndWnd + y.cb.cfg.rcvWnd < HALF
    requires UnaNo(x) <= no.sn <= Arrived(y)
    ensures AckOwed(y.cb, w)
  {
    hide Wrap, Age, Diff, OutSorted, ReceiverOk, Conserved, AcksOk;
    assert y.cb.rcv.nxt == Wrap(Arrived(y)) && Arrived(y) <= |x.sent|;
    WrapPlus(Arrived(y), y.cb.cfg.rcvWnd);
    DiffIsExact(no.sn, Arrived(y) + y.cb.cfg.rcvWnd);
  }

  lemma {:induction false} PushIsOwed(y: End, x: End, m: MaxAck, ws: seq<Wire>, nos: seq<No>, i: nat)
    requires Reads(y, x) && HonestWires(x, ws, nos) && Timely(y, m, ws, nos)
    requires x.cb.cfg.sndWnd + y.cb.cfg.rcvWnd < HALF
    requires i < |ws| && ws[i].cmd == CMD_PUSH && UnaNo(x) <= nos[i].sn <= Arrived(y)
    ensures Owed(Turns(y, m, ws, nos).0.cb.rcv.acks, ws[i].sn)
    decreases |ws|
  {
    hide Reads, HonestWire, TimelyTurn, Turn, Owed, UnaNo, Arrived, AckOwed, HeldKept;
    var (y1, m1) := Turn(y, m, ws[0], nos[0]);
    TurnKeeps(y, x, m, ws[0], nos[0]);
    TurnOwes(y, m, ws[0], nos[0]);
    if i == 0 {
      OldIsOwed(y, x, ws[0], nos[0]);
      TurnsAcksStay(y1, m1, ws[1..], nos[1..]);
    } else {
      ArrivedGrown(y, y1);
      PushIsOwed(y1, x, m1, ws[1..], nos[1..], i - 1);
    }
  }

  lemma {:induction false} TurnsAcksStay(e: End, m: MaxAck, ws: seq<Wire>, nos: seq<No>)
    requires |ws| == |nos|
    ensures forall sn :: Owed(e.cb.rcv.acks, sn) ==> Owed(Turns(e, m, ws, nos).0.cb.rcv.acks, sn)
    decreases |ws|
  {
    hide Turn, Owed;
    if ws != [] {
      var (e1, m1) := Turn(e, m, ws[0], nos[0]);
      TurnOwes(e, m, ws[0], nos[0]);
      TurnsAcksStay(e1, m1, ws[1..], nos[1..]);
    }
  }

  // ----- reading all there is

  /** The user has nothing to read: no complete message waits. */
  predicate Drained(e: End) { PeekSize(e.cb.rcv) < 0 }

  lemma {:induction false} ReleaseKeepsCount(r: Receiver, wnd: u32)
    ensures var r' := Release(r, wnd); |r'.queue| + |r'.buf| == |r.queue| + |r.buf|
    decreases |r.buf|
  {
    if r.buf != [] && r.buf[0].sn == r.nxt && |r.queue| < wnd {
      ReleaseKeepsCount(r.(nxt := Wrap(r.nxt + 1), buf := r.buf[1..], queue := r.queue + [r.buf[0]]), wnd);
    }
  }

  /** What reading leaves alone. */
  ghost predicate ReadOut(y: End, y': End)
  {
    && y'.cb.cfg == y.cb.cfg && y'.cb.snd == y.cb.snd && y'.cb.rcv.acks == y.cb.rcv.acks
    && y'.ackNos == y.ackNos && y'.sent == y.sent && y'.accepted == y.accepted
    && y'.cb.pace.(askTell := y.cb.pace.askTell) == y.cb.pace
  }

  lemma OneRead(y: End)
    requires CbOk(y.cb) && !Drained(y)
    ensures var y' := UserRecv(y, PeekSize(y.cb.rcv));
      && ReadOut(y, y')
      && |y'.cb.rcv.queue| + |y'.cb.rcv.buf| < |y.cb.rcv.queue| + |y.cb.rcv.buf|
  {
    hide Payload, SenderOk, ReceiverOk, Release;
    var n := HeadCount(y.cb.rcv.queue);
    ReleaseKeepsCount(y.cb.rcv.(queue := y.cb.rcv.queue[n..]), y.cb.cfg.rcvWnd);
  }

  /** The user reads until nothing is left to read. */
  lemma {:induction false} ReadAll(s: Sys, side: Side) returns (s': Sys)
    requires Inv(s)
    ensures Inv(s') && Reaches(s, s') && EndOf(s', Peer(side)) == EndOf(s, Peer(side))
    ensures Bound(s', side) == Bound(s, side) && Bound(s', Peer(side)) == Bound(s, Peer(side))
    ensures ReadOut(EndOf(s, side), EndOf(s', side)) && Drained(EndOf(s', side))
    ensures Drained(EndOf(s, side)) ==> s' == s
    decreases |EndOf(s, side).cb.rcv.queue| + |EndOf(s, side).cb.rcv.buf|
  {
    hide Inv, Reaches, Drained, UserRecv, PeekSize;
    ReachSelf(s);
    s' := s;
    var y := EndOf(s, side);
    if !Drained(y) {
      EndOk(s, side);
      OneRead(y);
      var act := UserReads(side, PeekSize(y.cb.rcv));
      ReachStep(s, act);
      s' := ReadAll(Next(s, act), side);
      ReachTrans(s, Next(s, act), s');
    }
  }

  lemma EndOk(s: Sys, side: Side)
    requires Inv(s)
    ensures CbOk(EndOf(s, side).cb)
  {
    hide CbOk, Carries, AcksOk, Books, HonestPackets;
  }

  /** With nothing to read at the receiver, everything below snd_una has been put in order, and only part of a
      message can wait in rcv_queue. */
  lemma DrainedUna(x: End, y: End)
    requires CbOk(x.cb) && CbOk(y.cb) && Carries(x, y) && Books(x, y) && Drained(y)
    ensures UnaNo(x) <= Arrived(y)
    ensures |y.cb.rcv.queue| < FrgBound(x.cb.cfg)
  {
    DrainedQueue(x, y);
    hide Wrap, Age, PeekSize, Books, Conserved, ArrivedOk;
    var n := Arrived(y);
    if n < |x.sent| {
      assert Waits(x, n) || Has(y, n) by { ConservedAt(x, y, n); }
      if Has(y, n) { NotHeld(y); }
      var i :| 0 <= i < |x.cb.snd.buf| && OutNo(|x.sent|, x.cb.snd.nxt, x.cb.snd.buf[i].sn) == n;
    }
  }

  lemma ConservedAt(x: End, y: End, n: nat)
    requires Conserved(x, y) && n < |x.sent|
    ensures Waits(x, n) || Has(y, n)
  {
  }

  lemma NotHeld(y: End)
    requires CbOk(y.cb) && |y.cb.rcv.queue| < y.cb.cfg.rcvWnd
    ensures !Has(y, Arrived(y))
  {
    hide Ahead, SenderOk, ReceiverOk;
    if Has(y, Arrived(y)) {
      var i :| 0 <= i < |y.cb.rcv.buf| && InNo(y.taken, y.cb.rcv, y.cb.rcv.buf[i].sn) == Arrived(y);
      NextAtHead(y.cb, i);
    }
  }

  lemma DrainedQueue(x: End, y: End)
    requires Books(x, y) && ArrivedOk(y.taken, y.cb.rcv, x.sent) && Drained(y)
    ensures |y.cb.rcv.queue| < FrgBound(x.cb.cfg)
  {
    hide Messages, Message, Payload, Concat, ArrivedOk, Streamed;
    if y.cb.rcv.queue != [] {
      HeadFrg(x, y);
      if !x.cb.cfg.stream {
        NextIsMessage(x, y);
        FewFragments(x.cb.cfg.Mss(), x.accepted[|y.received|]);
      }
    }
  }

  lemma FewFragments(mss: int, buf: seq<byte>)
    requires mss > 0
    ensures |Message(mss, buf)| < WND_RCV
  {
    if |buf| <= (WND_RCV - 1) * mss { SplitLength(mss, false, buf); }
  }

  // ----- one datagram over

  ghost predicate AllAbove(nos: seq<nat>, least: int) { forall j :: 0 <= j < |nos| ==> nos[j] > least }

  lemma OverRecent(x: End, y: End, p: Packet, lo: nat, hi: nat)
    requires CbOk(x.cb) && CbOk(y.cb) && x.cb.pace.updated && Carries(x, y) && Carries(y, x) && AcksOk(x)
    requires Narrow(x, y)
    requires AllAbove(x.ackNos, |y.sent| - HALF) && PacketOf(x, p, lo, hi)
    ensures AllRecent(y, Flushing(x).0, Flush(x.cb).wires[lo..hi], p.nos)
  {
    hide Flush, SenderOk, ReceiverOk, Carries, AcksOk, Flushing, FlushNos, Parse, Recent;
    forall i | lo <= i < hi ensures Recent(y, Flushing(x).0, Flush(x.cb).wires[i], FlushNos(x)[i]) {
      FlushRecent(x, y, i);
    }
  }

  lemma OverAcks(x: End, y: End, p: Packet, lo: nat, hi: nat)
    requires CbOk(x.cb) && x.cb.pace.updated && SentOk(x.sent, x.cb.snd)
    requires y.ackNos == [] && PacketOf(x, p, lo, hi)
    ensures AllAbove(Turns(y, NoAck, Flush(x.cb).wires[lo..hi], p.nos).0.ackNos, |Flushing(x).0.sent| - HALF)
  {
    hide Flush, SenderOk, ReceiverOk, SentOk, Flushing, FlushNos, Parse, Turns;
    var ws, least := Flush(x.cb).wires, |Flushing(x).0.sent| - HALF + 1;
    forall i | lo <= i < hi && ws[i].cmd == CMD_PUSH ensures FlushNos(x)[i].sn >= least { PushRecent(x, i); }
    TurnsOwe(y, NoAck, ws[lo..hi], p.nos, least);
  }

  /** The oldest segment has number snd_una. */
  lemma HeadNumber(x: End, no: nat)
    requires CbOk(x.cb) && SentOk(x.sent, x.cb.snd) && x.cb.snd.buf != [] && x.cb.snd.buf[0].sn == Wrap(no)
    requires 0 <= |x.sent| - no < HALF
    ensures UnaNo(x) == no
  {
    hide Age, Wrap, OutSorted, ReceiverOk;
    OutNoWraps(|x.sent|, x.cb.snd.nxt, x.cb.snd.una);
    WrapInjective(UnaNo(x), no);
  }

  lemma OverOwed(x: End, y: End, p: Packet, lo: nat, hi: nat, i: nat)
    requires CbOk(x.cb) && x.cb.pace.updated && SentOk(x.sent, x.cb.snd) && PacketOf(x, p, lo, hi) && lo <= i < hi
    requires var x', ws := Flushing(x).0, Flush(x.cb).wires;
      && Reads(y, x') && HonestWires(x', ws[lo..hi], p.nos) && Timely(y, NoAck, ws[lo..hi], p.nos)
      && Narrow(x', y) && Books(x', y) && Drained(y)
      && ws[i].cmd == CMD_PUSH && x'.cb.snd.buf != [] && ws[i].sn == x'.cb.snd.buf[0].sn
    ensures Owed(Turns(y, NoAck, Flush(x.cb).wires[lo..hi], p.nos).0.cb.rcv.acks, Flush(x.cb).wires[i].sn)
  {
    hide Flush, Carries, AcksOk, Flushing, FlushNos, Parse, Turns, Timely, Books, Owed, Drained, SenderOk, ReceiverOk;
    var x', ws := Flushing(x).0, Flush(x.cb).wires;
    PushRecent(x, i);
    SentSide(x', y);
    assert HonestWire(x', ws[lo..hi][i - lo], p.nos[i - lo]);
    HeadNumber(x', p.nos[i - lo].sn);
    DrainedUna(x', y);
    PushIsOwed(y, x', NoAck, ws[lo..hi], p.nos, i - lo);
  }

  lemma SentSide(x: End, y: End)
    requires Carries(x, y)
    ensures SentOk(x.sent, x.cb.snd)
  {
  }

  lemma BooksAt(s: Sys, side: Side)
    requires Inv(s)
    ensures Books(EndOf(s, side), EndOf(s, Peer(side)))
  {
    hide CbOk, Carries, AcksOk, Books, HonestPackets;
  }

  lemma OverWindow(x: End, p: Packet, lo: nat, hi: nat)
    requires x.cb.cfg.Valid() && PacketOf(x, p, lo, hi)
    ensures var ws := Flush(x.cb).wires[lo..hi]; SameWnd(ws) && ws[0].wnd == WndUnused(x.cb) % 0x1_0000
    ensures forall w :: w in Flush(x.cb).wires[lo..hi] ==> w in Flush(x.cb).wires
  {
    hide Flush, FlushNos, Parse, WndUnused;
    FlushWindow(x.cb);
  }

  /** The segment is the oldest in snd_buf. */
  predicate IsHead(x: End, w: Wire)
  {
    w.cmd == CMD_PUSH && x.cb.snd.buf != [] && w.sn == x.cb.snd.buf[0].sn
  }

  /** One end flushes at the first chance from t on, and the other reads the datagram with the i-th of the
      segments written. */
  lemma SendOver(s: Sys, side: Side, t: u32, wires: seq<Wire>, i: nat) returns (s': Sys, ws: seq<Wire>)
    requires Inv(s) && Narrow(EndOf(s, side), EndOf(s, Peer(side)))
    requires EndOf(s, side).cb.cfg.Valid() && wires == Flush(Clocked(EndOf(s, side), t).cb).wires && i < |wires|
    requires AllAbove(EndOf(s, side).ackNos, |EndOf(s, Peer(side)).sent| - HALF)
    requires Diff(Soonest(EndOf(s, side).cb.pace, t), EndOf(s, side).cb.pace.current) >= 0
    ensures Inv(s') && Reaches(s, s')
    ensures EndOf(s', side) == Flushing(Clocked(EndOf(s, side), t)).0
    ensures FlushedFrom(EndOf(s, side), EndOf(s', side))
    ensures wires[i] in ws && SameWnd(ws) && ws[0].wnd == WndUnused(EndOf(s, side).cb) % 0x1_0000
    ensures forall w :: w in ws ==> w in wires
    ensures ReadFrom(EndOf(s, Peer(side)), EndOf(s', Peer(side)), ws)
    ensures EndOf(s, Peer(side)).ackNos == [] ==>
      AllAbove(EndOf(s', Peer(side)).ackNos, |EndOf(s', side).sent| - HALF)
    ensures Drained(EndOf(s, Peer(side))) && IsHead(EndOf(s', side), wires[i]) ==>
      Owed(EndOf(s', Peer(side)).cb.rcv.acks, wires[i].sn)
  {
    hide Flush, Flushing, Clocked, FlushNos, Parse, Turns, Timely, Owed, Drained, ReadFrom, FlushedFrom;
    hide CbOk, Carries, AcksOk, Books, HonestPackets, HonestWires, Inv, AllRecent, SameWnd, AllAbove, Reaches;
    EndOk(s, side);
    FlushFacts(EndOf(s, side), t);
    ClockedKeeps(EndOf(s, side), t);
    var s1 := FlushNow(s, side, t);
    var x, y := Clocked(EndOf(s, side), t), EndOf(s, Peer(side));
    var p, lo, hi := PacketWith(x, i);
    ws := Flush(x.cb).wires[lo..hi];
    OverRecent(x, y, p, lo, hi);
    OverWindow(x, p, lo, hi);
    s' := ReadNow(s1, Peer(side), p, ws);
    SentSide(x, y);
    if y.ackNos == [] { OverAcks(x, y, p, lo, hi); }
    var w, x' := Flush(x.cb).wires[i], EndOf(s1, side);
    if Drained(y) && IsHead(x', w) {
      BooksAt(s1, side);
      OverOwed(x, y, p, lo, hi, i);
    }
    ReachTrans(s, s1, s');
  }

  // ----- a limit on what the sender can get over

  /** The receiver's user has taken `base` fragments and waits for the rest of a message of room + 1. */
  datatype Fence = Fence(base: nat, room: nat)

  /** One fragment too many for the window that the receiver can advertise in 16 bits. */
  ghost predicate Fenced(s: Sys, side: Side, f: Fence)
  {
    var x, y := EndOf(s, side), EndOf(s, Peer(side));
    && |x.sent| <= f.base + f.room && UnaNo(x) + x.cb.pace.rmtWnd <= f.base + f.room
    && |x.sent| + |x.cb.snd.queue| == f.base + f.room + 1
    && |y.taken| == f.base && f.room == y.cb.cfg.rcvWnd % 0x1_0000 < FrgBound(x.cb.cfg)
    && (!x.cb.cfg.stream ==> |y.received| + 1 == |x.accepted|)
  }

  ghost predicate FenceKept(s: Sys, s': Sys, side: Side) { forall f :: Fenced(s, side, f) ==> Fenced(s', side, f) }

  /** The receiver advertises what it has free, and has nothing to read. */
  ghost predicate Advertised(s: Sys, side: Side)
  {
    && EndOf(s, side).cb.pace.rmtWnd == WndUnused(EndOf(s, Peer(side)).cb) % 0x1_0000
    && Drained(EndOf(s, Peer(side)))
  }

  lemma FenceLinked(s: Sys, side: Side)
    requires Inv(s)
    ensures LinkedAt(s, side)
  {
    hide Linked;
    InvAt(s, side);
  }

  /** Behind a fence the user has nothing to read. */
  lemma FencedDrained(s: Sys, side: Side, f: Fence)
    requires Inv(s) && Fenced(s, side, f)
    ensures Drained(EndOf(s, Peer(side)))
    ensures Arrived(EndOf(s, Peer(side))) <= f.base + f.room
  {
    FenceLinked(s, side);
    hide Inv, CbOk, AcksOk, HonestPackets, SentOk, Conserved, Messages, Message, Payload, Concat, Streamed, PeekSize;
    var x, y := EndOf(s, side), EndOf(s, Peer(side));
    if y.cb.rcv.queue == [] {
      NothingToPeek(y.cb.rcv);
    } else if !x.cb.cfg.stream {
      NextIsMessage(x, y);
      LastMessage(x, y);
    }
  }

  lemma NothingToPeek(r: Receiver)
    requires r.queue == []
    ensures PeekSize(r) < 0
  {
  }

  lemma LastMessage(x: End, y: End)
    requires Books(x, y) && !x.cb.cfg.stream && |y.received| + 1 == |x.accepted|
    ensures |Message(x.cb.cfg.Mss(), x.accepted[|y.received|])| == |x.sent| + |x.cb.snd.queue| - |y.taken|
  {
    hide Message, Payload, Concat, Streamed;
    assert x.accepted == y.received + [x.accepted[|y.received|]];
    MessagesSnoc(x.cb.cfg.Mss(), y.received, x.accepted[|y.received|]);
  }

  /** Flushing and reading respect a fence. */
  lemma FenceForth(s: Sys, s': Sys, side: Side)
    requires FlushedFrom(EndOf(s, side), EndOf(s', side))
    requires var y, y' := EndOf(s, Peer(side)), EndOf(s', Peer(side));
      y'.taken == y.taken && y'.received == y.received && y'.cb.cfg == y.cb.cfg
    ensures FenceKept(s, s', side)
  {
    hide UnaNo;
  }

  lemma FenceAside(s: Sys, s': Sys, side: Side)
    requires EndOf(s', side) == EndOf(s, side)
    requires var y, y' := EndOf(s, Peer(side)), EndOf(s', Peer(side));
      y'.taken == y.taken && y'.received == y.received && y'.cb.cfg == y.cb.cfg
    ensures FenceKept(s, s', side)
  {
    hide UnaNo;
  }

  lemma FenceRead(s: Sys, s': Sys, side: Side)
    requires Inv(s) && (Drained(EndOf(s, Peer(side))) ==> s' == s)
    ensures FenceKept(s, s', side)
  {
    hide Inv, Fenced, Drained;
    forall f | Fenced(s, side, f) ensures Fenced(s', side, f) { FencedDrained(s, side, f); }
  }

  lemma FenceSelf(s: Sys, side: Side)
    ensures FenceKept(s, s, side)
  {
    hide Fenced;
  }

  lemma FenceTrans(s: Sys, s1: Sys, s2: Sys, side: Side)
    requires FenceKept(s, s1, side) && FenceKept(s1, s2, side)
    ensures FenceKept(s, s2, side)
  {
    hide Fenced;
  }

  /** So does reading the receiver's answer, which advertises less the more has arrived. */
  lemma FenceBack(s: Sys, s': Sys, side: Side)
    requires Inv(s) && Inv(s')
    requires var x, x', y, y' := EndOf(s, side), EndOf(s', side), EndOf(s, Peer(side)), EndOf(s', Peer(side));
      && x'.sent == x.sent && x'.cb.cfg == x.cb.cfg && x'.accepted == x.accepted
      && x'.cb.snd.queue == x.cb.snd.queue
      && y'.taken == y.taken && y'.received == y.received && y'.cb.cfg == y.cb.cfg
      && y'.cb.rcv.queue == y.cb.rcv.queue && Advertised(s', side)
    ensures FenceKept(s, s', side)
  {
    hide Inv, UnaNo, Fenced;
    forall f | Fenced(s, side, f) ensures Fenced(s', side, f) {
      FencedDrained(s, side, f);
      FenceLinked(s', side);
      FenceBackOnce(s, s', side, f);
    }
  }

  lemma FenceBackOnce(s: Sys, s': Sys, side: Side, f: Fence)
    requires Fenced(s, side, f) && LinkedAt(s', side) && Arrived(EndOf(s, Peer(side))) <= f.base + f.room
    requires var x, x', y, y' := EndOf(s, side), EndOf(s', side), EndOf(s, Peer(side)), EndOf(s', Peer(side));
      && x'.sent == x.sent && x'.cb.cfg == x.cb.cfg && x'.accepted == x.accepted
      && x'.cb.snd.queue == x.cb.snd.queue
      && y'.taken == y.taken && y'.received == y.received && y'.cb.cfg == y.cb.cfg
      && y'.cb.rcv.queue == y.cb.rcv.queue && Advertised(s', side)
    ensures Fenced(s', side, f)
  {
    hide UnaNo, Carries, Books, AcksOk, HonestPackets, Drained, SenderOk, ReceiverOk;
    DrainedUna(EndOf(s', side), EndOf(s', Peer(side)));
  }

  // ----- one round

  lemma FlushOnce(s: Sys, side: Side, t: u32) returns (s': Sys)
    requires Inv(s)
    requires Diff(Soonest(EndOf(s, side).cb.pace, t), EndOf(s, side).cb.pace.current) >= 0
    ensures Inv(s') && Reaches(s, s') && EndOf(s', Peer(side)) == EndOf(s, Peer(side))
    ensures var x, x' := EndOf(s, side), EndOf(s', side);
      && FlushedFrom(x, x')
      && (x.cb.snd.buf == [] && x.cb.pace.rmtWnd == 0 ==>
            x'.cb.snd.buf == [] && (x.cb.pace.probeWait == 0 ==> x'.cb.pace.probeWait == PROBE_INIT))
      && (x.cb.snd.buf == [] && x.cb.snd.queue != [] && x.cb.pace.rmtWnd != 0 && x.cb.pace.cwnd != 0 ==>
            x'.cb.snd.buf != [])
    ensures EndOf(s, side).cb.cfg.Valid() && StillPending(EndOf(s, side), EndOf(s', side), t)
  {
    hide Flush, Clocked, CbOk, Inv, Reaches, FlushedFrom, Linked, StillPending;
    EndOk(s, side);
    s' := FlushNow(s, side, t);
    var x := EndOf(s, side);
    FlushFacts(x, t);
    ClockedKeeps(x, t);
    FlushedCb(Clocked(x, t));
    ClockedOk(x, t);
    FlushPace(Clocked(x, t).cb);
    Pending(x, t);
    if x.cb.snd.buf == [] {
      if x.cb.pace.rmtWnd == 0 {
        FlushHoldsBack(Clocked(x, t).cb);
      } else if x.cb.snd.queue != [] && x.cb.pace.cwnd != 0 {
        FlushAdmits(Clocked(x, t).cb);
      }
    }
  }

  /** The clock has moved on to the flush; the oldest segment, if it was not sent, and a probe timer that has
      not expired are as before. */
  ghost predicate StillPending(x: End, x': End, t: u32)
    requires x.cb.cfg.Valid()
  {
    var p, p', buf, buf' := x.cb.pace, x'.cb.pace, x.cb.snd.buf, x'.cb.snd.buf;
    && p'.current == Soonest(p, t)
    && (buf != [] && Decide(x.cb.cfg, Clocked(x, t).cb.pace, buf[0]) == Keep ==> buf' != [] && buf'[0] == buf[0])
    && (p.rmtWnd == 0 && p.probeWait != 0 && Diff(Soonest(p, t), p.tsProbe) < 0 ==>
          p'.probeWait == p.probeWait && p'.tsProbe == p.tsProbe)
  }

  lemma Pending(x: End, t: u32)
    requires CbOk(x.cb)
    ensures StillPending(x, Flushing(Clocked(x, t)).0, t)
  {
    hide Flush, Clocked, SenderOk, ReceiverOk, Soonest, Decide, Diff;
    var x1 := Clocked(x, t);
    ClockedKeeps(x, t);
    FlushedCb(x1);
    ClockedOk(x, t);
    FlushPace(x1.cb);
    if x.cb.snd.buf != [] { FlushHead(x1.cb); }
  }

  lemma FlushedCb(x: End)
    requires x.cb.cfg.Valid() && x.cb.pace.updated
    ensures Flushing(x).0.cb == Flush(x.cb).cb
  {
    hide Flush, Packets, WireNos;
  }

  lemma ClockedOk(x: End, t: u32)
    requires CbOk(x.cb)
    ensures CbOk(Clocked(x, t).cb)
  {
    hide SenderOk, ReceiverOk, Tick;
  }

  /** No acknowledgement is pending on either side, and the receiver of this direction has nothing to read. */
  ghost predicate Prepared(s: Sys, side: Side)
  {
    EndOf(s, side).ackNos == [] && EndOf(s, Peer(side)).ackNos == [] && Drained(EndOf(s, Peer(side)))
  }

  /** Neither end has more to get over than before, and a limit still holds. */
  ghost predicate Onward(s: Sys, s': Sys, side: Side)
  {
    && EndOf(s', side).cb.cfg == EndOf(s, side).cb.cfg && EndOf(s', Peer(side)).cb.cfg == EndOf(s, Peer(side)).cb.cfg
    && Work(EndOf(s', side).cb) <= Work(EndOf(s, side).cb)
    && Work(EndOf(s', Peer(side)).cb) <= Work(EndOf(s, Peer(side)).cb)
    && FenceKept(s, s', side)
  }

  lemma Prepare(s: Sys, side: Side) returns (s': Sys)
    requires Inv(s)
    ensures Inv(s') && Reaches(s, s') && Onward(s, s', side) && Prepared(s', side)
    ensures var x, x' := EndOf(s, side), EndOf(s', side);
      && FlushedFrom(x, x')
      && (x.cb.snd.buf == [] && x.cb.pace.rmtWnd == 0 ==> x'.cb.snd.buf == [])
  {
    hide Inv, Reaches, Drained, FenceKept;
    AimNow(EndOf(s, side).cb.pace);
    var s1 := FlushOnce(s, side, EndOf(s, side).cb.pace.current);
    AimNow(EndOf(s1, Peer(side)).cb.pace);
    var s2 := FlushOnce(s1, Peer(side), EndOf(s1, Peer(side)).cb.pace.current);
    s' := ReadAll(s2, Peer(side));
    FenceForth(s, s1, side);
    FenceAside(s1, s2, side);
    FenceRead(s2, s', side);
    FenceTrans(s, s1, s2, side);
    FenceTrans(s, s2, s', side);
    ReachTrans(s, s1, s2);
    ReachTrans(s, s2, s');
  }

  /** A flush from t on that sends the oldest segment. */
  ghost predicate SendsHead(x: End, t: u32)
    requires x.cb.cfg.Valid()
  {
    x.cb.snd.buf != [] && Decide(x.cb.cfg, Clocked(x, t).cb.pace, x.cb.snd.buf[0]) != Keep
  }

  lemma DueSendsHead(x: End, t: u32)
    requires x.cb.cfg.Valid() && x.cb.snd.buf != [] && Diff(Soonest(x.cb.pace, t), x.cb.snd.buf[0].resendts) >= 0
    ensures SendsHead(x, t)
  {
    hide Diff, Soonest, Tick;
  }

  /** It goes over. */
  lemma HeadOver(s: Sys, side: Side, t: u32) returns (s': Sys)
    requires Inv(s) && Narrow(EndOf(s, side), EndOf(s, Peer(side))) && Prepared(s, side)
    requires EndOf(s, side).cb.cfg.Valid() && SendsHead(EndOf(s, side), t)
    requires Diff(Soonest(EndOf(s, side).cb.pace, t), EndOf(s, side).cb.pace.current) >= 0
    ensures Inv(s') && Reaches(s, s') && Onward(s, s', side)
    ensures var x', y' := EndOf(s', side), EndOf(s', Peer(side));
      && x'.cb.snd.buf != [] && Owed(y'.cb.rcv.acks, x'.cb.snd.buf[0].sn)
      && AllAbove(y'.ackNos, |x'.sent| - HALF)
  {
    hide Inv, Reaches, Drained, FenceKept, Flush, Flushing, Owed, AllAbove, SenderOk, ReceiverOk, Diff, Clocked, Decide;
    EndOk(s, side);
    var x := EndOf(s, side);
    ClockedOk(x, t);
    FlushHead(Clocked(x, t).cb);
    var wires := Flush(Clocked(x, t).cb).wires;
    var i :| 0 <= i < |wires| && wires[i].cmd == CMD_PUSH && wires[i].sn == x.cb.snd.buf[0].sn;
    NoneAbove(|EndOf(s, Peer(side)).sent| - HALF);
    var ws;
    s', ws := SendOver(s, side, t, wires, i);
    FenceForth(s, s', side);
  }

  /** The oldest segment goes over, by the second flush at the latest. */
  lemma PushOver(s: Sys, side: Side) returns (s': Sys)
    requires Inv(s) && Narrow(EndOf(s, side), EndOf(s, Peer(side))) && Prepared(s, side)
    requires EndOf(s, side).cb.snd.buf != []
    ensures Inv(s') && Reaches(s, s') && Onward(s, s', side)
    ensures var x', y' := EndOf(s', side), EndOf(s', Peer(side));
      && x'.cb.snd.buf != [] && Owed(y'.cb.rcv.acks, x'.cb.snd.buf[0].sn)
      && AllAbove(y'.ackNos, |x'.sent| - HALF)
  {
    hide Inv, Reaches, Drained, FenceKept, Owed, AllAbove, SenderOk, ReceiverOk, Diff, SendsHead, Soonest, Aim,
      Clocked, Decide, Opposite;
    EndOk(s, side);
    var x := EndOf(s, side);
    var r := x.cb.snd.buf[0].resendts;
    var t := Aim(x.cb.pace, r);
    AimForward(x.cb.pace, r);
    if !Opposite(x.cb.pace, r) { DueSendsHead(x, t); }
    if SendsHead(x, t) {
      s' := HeadOver(s, side, t);
    } else {
      var s1 := FlushOnce(s, side, t);
      FenceForth(s, s1, side);
      var x1 := EndOf(s1, side);
      StillHead(x, x1, t);
      EndOk(s1, side);
      NotOpposite(x1.cb.pace, r);
      AimForward(x1.cb.pace, r);
      DueSendsHead(x1, Aim(x1.cb.pace, r));
      s' := HeadOver(s1, side, Aim(x1.cb.pace, r));
      FenceTrans(s, s1, s', side);
      ReachTrans(s, s1, s');
    }
  }

  lemma StillHead(x: End, x': End, t: u32)
    requires x.cb.cfg.Valid() && StillPending(x, x', t) && x.cb.snd.buf != [] && !SendsHead(x, t)
    ensures x'.cb.snd.buf != [] && x'.cb.snd.buf[0] == x.cb.snd.buf[0]
    ensures x'.cb.pace.current == Soonest(x.cb.pace, t)
  {
    hide Decide, Clocked, Soonest, Diff;
  }

  lemma NotOpposite(p: Pacing, r: u32)
    requires Ahead(p.current, r) < HALF - 10001
    ensures !Opposite(p, r)
  {
    hide Ahead;
  }

  lemma NoneAbove(least: int)
    ensures AllAbove([], least)
  {
  }

  /** Its acknowledgement comes back, after the receiver's user has read what was complete. */
  lemma AckBack(s: Sys, side: Side) returns (s': Sys)
    requires Inv(s) && Narrow(EndOf(s, side), EndOf(s, Peer(side)))
    requires var x, y := EndOf(s, side), EndOf(s, Peer(side));
      && x.cb.snd.buf != [] && Owed(y.cb.rcv.acks, x.cb.snd.buf[0].sn) && AllAbove(y.ackNos, |x.sent| - HALF)
    ensures Inv(s') && Reaches(s, s') && Onward(s, s', side) && Advertised(s', side)
    ensures Work(EndOf(s', side).cb) < Work(EndOf(s, side).cb)
  {
    hide Inv, Reaches, Drained, FenceKept, Flush, Flushing, AllAbove, SenderOk, ReceiverOk;
    var s1 := ReadAll(s, Peer(side));
    var x, y := EndOf(s1, side), EndOf(s1, Peer(side));
    EndOk(s1, Peer(side));
    var acks := y.cb.rcv.acks;
    var j :| 0 <= j < |acks| && acks[j].sn == x.cb.snd.buf[0].sn;
    var now := y.cb.pace.current;
    AimNow(y.cb.pace);
    FlushWires(Clocked(y, now).cb);
    var ws;
    s', ws := SendOver(s1, Peer(side), now, Flush(Clocked(y, now).cb).wires, j);
    assert Holds(ws, CMD_ACK, x.cb.snd.buf[0].sn);
    FenceRead(s, s1, side);
    DrainedStays(y, EndOf(s', Peer(side)));
    FenceBack(s1, s', side);
    FenceTrans(s, s1, s', side);
    ReachTrans(s, s1, s');
  }

  lemma DrainedStays(y: End, y': End)
    requires y'.cb.rcv == y.cb.rcv.(acks := []) && y'.cb.cfg == y.cb.cfg && Drained(y)
    ensures Drained(y') && WndUnused(y'.cb) == WndUnused(y.cb)
  {
    hide Payload;
  }

  /** While segments are in flight, one of them can be acknowledged. */
  lemma Exchange(s: Sys, side: Side) returns (s': Sys)
    requires Inv(s) && Narrow(EndOf(s, side), EndOf(s, Peer(side))) && EndOf(s, side).cb.snd.buf != []
    ensures Inv(s') && Reaches(s, s') && Onward(s, s', side) && Advertised(s', side)
    ensures Work(EndOf(s', side).cb) < Work(EndOf(s, side).cb)
  {
    hide Inv, Reaches, FenceKept, Prepared, Advertised, Owed, AllAbove;
    var s1 := Prepare(s, side);
    var s2 := PushOver(s1, side);
    s' := AckBack(s2, side);
    ReachTrans(s, s1, s2);
    FenceTrans(s, s1, s2, side);
    ReachTrans(s, s2, s');
    FenceTrans(s, s2, s', side);
  }

  // ----- a closed window

  /** A sender with nothing in flight, a closed window, and a probe timer that runs. */
  predicate Probing(x: End) { x.cb.snd.buf == [] && x.cb.pace.rmtWnd == 0 && x.cb.pace.probeWait != 0 }

  /** The sender's window probe goes over and the receiver remembers to answer. */
  lemma ProbeOver(s: Sys, side: Side, t: u32) returns (s': Sys)
    requires Inv(s) && Narrow(EndOf(s, side), EndOf(s, Peer(side))) && Prepared(s, side) && Probing(EndOf(s, side))
    requires Reached(EndOf(s, side).cb.pace, Soonest(EndOf(s, side).cb.pace, t), EndOf(s, side).cb.pace.tsProbe)
    ensures Inv(s') && Reaches(s, s') && Onward(s, s', side)
    ensures var x', y' := EndOf(s', side), EndOf(s', Peer(side));
      && x'.cb.snd.buf == [] && |x'.cb.snd.queue| == |EndOf(s, side).cb.snd.queue|
      && y'.cb.pace.askTell && Drained(y') && AllAbove(y'.ackNos, |x'.sent| - HALF)
  {
    hide Inv, Reaches, PeekSize, FenceKept, Flush, Flushing, AllAbove, SenderOk, ReceiverOk, Diff, Soonest;
    EndOk(s, side);
    var x := EndOf(s, side);
    ClockedOk(x, t);
    ClockedKeeps(x, t);
    var cb := Clocked(x, t).cb;
    FlushAsks(cb);
    FlushHoldsBack(cb);
    var i :| 0 <= i < |Flush(cb).wires| && Flush(cb).wires[i].cmd == CMD_WASK;
    NoneAbove(|EndOf(s, Peer(side)).sent| - HALF);
    var ws;
    s', ws := SendOver(s, side, t, Flush(cb).wires, i);
    FenceForth(s, s', side);
    FlushedCb(Clocked(x, t));
    NoPushAmong(Flush(cb).wires, ws);
    assert HasCmd(ws, CMD_WASK);
  }

  /** It does, by the second flush at the latest. */
  lemma AskOver(s: Sys, side: Side) returns (s': Sys)
    requires Inv(s) && Narrow(EndOf(s, side), EndOf(s, Peer(side))) && Prepared(s, side) && Probing(EndOf(s, side))
    ensures Inv(s') && Reaches(s, s') && Onward(s, s', side)
    ensures var x', y' := EndOf(s', side), EndOf(s', Peer(side));
      && x'.cb.snd.buf == [] && |x'.cb.snd.queue| == |EndOf(s, side).cb.snd.queue|
      && y'.cb.pace.askTell && Drained(y') && AllAbove(y'.ackNos, |x'.sent| - HALF)
  {
    hide Inv, Reaches, Drained, FenceKept, AllAbove, Diff, Soonest, Aim, Opposite;
    var x := EndOf(s, side);
    var r := x.cb.pace.tsProbe;
    var t := Aim(x.cb.pace, r);
    AimForward(x.cb.pace, r);
    if Reached(x.cb.pace, Soonest(x.cb.pace, t), r) {
      s' := ProbeOver(s, side, t);
    } else {
      var s1 := FlushOnce(s, side, t);
      FenceForth(s, s1, side);
      var p1 := EndOf(s1, side).cb.pace;
      StillProbing(x, EndOf(s1, side), t);
      NotOpposite(p1, r);
      AimForward(p1, r);
      s' := ProbeOver(s1, side, Aim(p1, r));
      FenceTrans(s, s1, s', side);
      ReachTrans(s, s1, s');
    }
  }

  lemma StillProbing(x: End, x': End, t: u32)
    requires x.cb.cfg.Valid() && StillPending(x, x', t) && Probing(x)
    requires Diff(Soonest(x.cb.pace, t), x.cb.pace.tsProbe) < 0
    ensures x'.cb.pace.probeWait == x.cb.pace.probeWait && x'.cb.pace.tsProbe == x.cb.pace.tsProbe
    ensures x'.cb.pace.current == Soonest(x.cb.pace, t)
  {
    hide Decide, Clocked, Soonest, Diff;
  }

  lemma NoPushAmong(wires: seq<Wire>, ws: seq<Wire>)
    requires forall w :: w in ws ==> w in wires
    requires forall i :: 0 <= i < |wires| ==> wires[i].cmd != CMD_PUSH
    ensures !HasCmd(ws, CMD_PUSH)
  {
    forall i | 0 <= i < |ws| ensures ws[i].cmd != CMD_PUSH {
      assert ws[i] in ws;
    }
  }

  lemma AnswerBack(s: Sys, side: Side) returns (s': Sys)
    requires Inv(s) && Narrow(EndOf(s, side), EndOf(s, Peer(side)))
    requires var x, y := EndOf(s, side), EndOf(s, Peer(side));
      x.cb.snd.buf == [] && y.cb.pace.askTell && Drained(y) && AllAbove(y.ackNos, |x.sent| - HALF)
    ensures Inv(s') && Reaches(s, s') && Onward(s, s', side) && Advertised(s', side)
    ensures EndOf(s', side).cb.snd.buf == [] && |EndOf(s', side).cb.snd.queue| == |EndOf(s, side).cb.snd.queue|
  {
    hide Inv, Reaches, Drained, FenceKept, Flush, Flushing, AllAbove, SenderOk, ReceiverOk;
    var y := EndOf(s, Peer(side));
    EndOk(s, Peer(side));
    var now := y.cb.pace.current;
    AimNow(y.cb.pace);
    ClockedKeeps(y, now);
    FlushTells(Clocked(y, now).cb);
    var ws;
    s', ws := SendOver(s, Peer(side), now, Flush(Clocked(y, now).cb).wires, 0);
    DrainedStays(y, EndOf(s', Peer(side)));
    FenceBack(s, s', side);
  }

  /** A sender with nothing in flight and a closed window gets to know the receiver's window. */
  lemma AskWindow(s: Sys, side: Side) returns (s': Sys)
    requires Inv(s) && Narrow(EndOf(s, side), EndOf(s, Peer(side)))
    requires EndOf(s, side).cb.snd.buf == [] && EndOf(s, side).cb.pace.rmtWnd == 0
    ensures Inv(s') && Reaches(s, s') && Onward(s, s', side) && Advertised(s', side)
    ensures EndOf(s', side).cb.snd.buf == [] && |EndOf(s', side).cb.snd.queue| == |EndOf(s, side).cb.snd.queue|
  {
    hide Inv, Reaches, FenceKept, Advertised, AllAbove, Drained;
    var s1 := Prepare(s, side);
    var s2 := s1;
    ReachSelf(s1);
    FenceSelf(s1, side);
    if EndOf(s1, side).cb.pace.probeWait == 0 {
      AimNow(EndOf(s1, side).cb.pace);
      s2 := FlushOnce(s1, side, EndOf(s1, side).cb.pace.current);
      FenceForth(s1, s2, side);
    }
    var s3 := AskOver(s2, side);
    s' := AnswerBack(s3, side);
    ReachTrans(s, s1, s2);
    FenceTrans(s, s1, s2, side);
    ReachTrans(s, s2, s3);
    FenceTrans(s, s2, s3, side);
    ReachTrans(s, s3, s');
    FenceTrans(s, s3, s', side);
  }

  /** With an open window a waiting fragment is admitted, by the second flush at the latest. */
  lemma AdmitNow(s: Sys, side: Side) returns (s': Sys)
    requires Inv(s)
    requires var x := EndOf(s, side); x.cb.snd.buf == [] && x.cb.snd.queue != [] && x.cb.pace.rmtWnd != 0
    ensures Inv(s') && Reaches(s, s') && Onward(s, s', side) && EndOf(s', side).cb.snd.buf != []
  {
    hide Inv, Reaches, FenceKept;
    AimNow(EndOf(s, side).cb.pace);
    var s1 := FlushOnce(s, side, EndOf(s, side).cb.pace.current);
    FenceForth(s, s1, side);
    s' := s1;
    if EndOf(s1, side).cb.snd.buf == [] {
      AimNow(EndOf(s1, side).cb.pace);
      s' := FlushOnce(s1, side, EndOf(s1, side).cb.pace.current);
      FenceForth(s1, s', side);
      FenceTrans(s, s1, s', side);
      ReachTrans(s, s1, s');
    }
  }

  /** The receiver has nothing to read, no room it could advertise, and the sender knows. */
  ghost predicate Closed(s: Sys, side: Side)
  {
    && EndOf(s, side).cb.snd.buf == [] && EndOf(s, side).cb.snd.queue != []
    && EndOf(s, side).cb.pace.rmtWnd == 0 && Advertised(s, side)
  }

  /** One round brings a direction on, unless the receiver's window is closed for good. */
  lemma Round(s: Sys, side: Side) returns (s': Sys)
    requires Inv(s) && Narrow(EndOf(s, side), EndOf(s, Peer(side))) && Work(EndOf(s, side).cb) > 0
    ensures Inv(s') && Reaches(s, s') && Onward(s, s', side)
    ensures (Work(EndOf(s', side).cb) < Work(EndOf(s, side).cb) && Advertised(s', side)) || Closed(s', side)
    ensures EndOf(s, side).cb.pace.rmtWnd != 0 ==> Work(EndOf(s', side).cb) < Work(EndOf(s, side).cb)
  {
    hide Inv, Reaches, Advertised, FenceKept;
    ReachSelf(s);
    FenceSelf(s, side);
    var s1 := s;
    if EndOf(s, side).cb.snd.buf == [] && EndOf(s, side).cb.pace.rmtWnd == 0 { s1 := AskWindow(s, side); }
    if EndOf(s1, side).cb.snd.buf == [] && EndOf(s1, side).cb.pace.rmtWnd == 0 {
      s' := s1;
    } else {
      var s2 := s1;
      ReachSelf(s1);
      FenceSelf(s1, side);
      if EndOf(s1, side).cb.snd.buf == [] { s2 := AdmitNow(s1, side); }
      s' := Exchange(s2, side);
      ReachTrans(s, s1, s2);
      ReachTrans(s, s2, s');
      FenceTrans(s, s1, s2, side);
      FenceTrans(s, s2, s', side);
    }
  }
}
