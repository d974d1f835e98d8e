/**
  The other half: where the receiver's window cannot be told, a connection can get into a state from which
  no calls and no network bring it out, and so the windows that can be told are exactly those that guarantee
  progress.
 */
module KcpStuck {
  import opened Wrap32
  import opened KcpTypes
  import opened KcpWire
  import opened KcpSpec
  import opened KcpInvariants
  import opened KcpHistory
  import opened KcpMessages
  import opened KcpNetwork
  import opened KcpEndToEnd
  import opened KcpExchange
  import opened KcpProgress
  import opened KcpLiveness

  // ----- stuck for good

  function SegsOf(conv: u32, p: Packet): seq<Wire> { Parse(conv, p.bytes).segs }

  ghost predicate Shut(ws: seq<Wire>) { forall i :: 0 <= i < |ws| ==> ws[i].wnd == 0 }

  /** Datagrams none of which opens a window. */
  ghost predicate AllShut(conv: u32, ps: multiset<Packet>) { forall p :: p in ps ==> Shut(SegsOf(conv, p)) }

  /** Datagrams none of which brings data. */
  ghost predicate NoData(conv: u32, ps: multiset<Packet>) { forall p :: p in ps ==> !HasCmd(SegsOf(conv, p), CMD_PUSH) }

  /** The sender: nothing in flight, something waiting, a closed window. */
  ghost predicate Waiting(x: End)
  {
    && x.cb.snd.buf == [] && x.cb.snd.queue != [] && x.cb.pace.rmtWnd == 0
    && (x.cb.cfg.stream ==> x.cb.snd.queue[0].data != [])
  }

  /** The receiver: nothing to read, and no room as 16 bits tell it. */
  ghost predicate Full(y: End) { Drained(y) && WndUnused(y.cb) % 0x1_0000 == 0 }

  /** Sender and receiver wait, and no datagram in flight opens the window or brings data. */
  ghost predicate Blocked(x: End, y: End, xy: multiset<Packet>, yx: multiset<Packet>)
  {
    Waiting(x) && Full(y) && NoData(y.cb.cfg.conv, xy) && AllShut(x.cb.cfg.conv, yx)
  }

  ghost predicate Stuck(s: Sys, side: Side)
  {
    Blocked(EndOf(s, side), EndOf(s, Peer(side)), Bound(s, Peer(side)), Bound(s, side))
  }

  lemma TakenPrefix(x: End, y: End)
    requires Carries(x, y)
    ensures y.taken <= x.sent
  {
    hide InNo, SentOk, Conserved;
  }

  lemma StreamUnread(x: End, y: End)
    requires Books(x, y) && x.cb.cfg.stream && y.taken <= x.sent && Waiting(x)
    ensures |Concat(y.received)| < |Concat(x.accepted)|
  {
    hide Concat, Streamed, Messages;
    var rest, queue := x.sent[|y.taken|..], x.cb.snd.queue;
    assert x.sent == y.taken + rest;
    PayloadAppend(x.sent, queue);
    PayloadAppend(y.taken, rest);
    assert |Payload(queue)| >= |queue[0].data| > 0;
  }

  lemma MessageUnread(x: End, y: End)
    requires Books(x, y) && !x.cb.cfg.stream && y.taken <= x.sent && x.cb.snd.queue != []
    ensures y.received != x.accepted
  {
    hide Concat, Payload, Messages;
  }

  /** What waits behind a closed window has not been read. */
  lemma StuckUnread(s: Sys, side: Side)
    requires Inv(s) && Waiting(EndOf(s, side))
    ensures !AllReadAt(s, side)
  {
    FenceLinked(s, side);
    hide Inv, CbOk, AcksOk, HonestPackets, Carries, Books, Concat, Waiting;
    var x, y := EndOf(s, side), EndOf(s, Peer(side));
    TakenPrefix(x, y);
    WaitingQueue(x);
    if x.cb.cfg.stream { StreamUnread(x, y); } else { MessageUnread(x, y); }
  }

  lemma WaitingQueue(x: End)
    requires Waiting(x)
    ensures x.cb.snd.queue != []
  {
  }

  // ----- every action leaves it stuck

  lemma SendWaits(x: End, data: seq<byte>)
    requires Waiting(x) && x.cb.cfg.Valid()
    ensures Waiting(UserSend(x, data)) && UserSend(x, data).cb.cfg == x.cb.cfg
  {
    hide Split, Count, TailRoom;
  }

  lemma SendFull(y: End, data: seq<byte>)
    requires Full(y) && y.cb.cfg.Valid()
    ensures Full(UserSend(y, data))
  {
    hide Split, Count, TailRoom, ExtendTail, PeekSize;
  }

  lemma ReadWaits(x: End, len: int)
    requires Waiting(x)
    ensures Waiting(UserRecv(x, len))
  {
    hide Release, Payload, PeekSize;
  }

  lemma ReadFull(y: End, len: int)
    requires Full(y)
    ensures UserRecv(y, len) == y
  {
    hide Release, Payload, PeekSize, WndUnused;
  }

  lemma FlushWaits(x: End)
    requires CbOk(x.cb) && SentOk(x.sent, x.cb.snd) && Waiting(x)
    ensures Waiting(Flushing(x).0) && NoData(x.cb.cfg.conv, multiset(Flushing(x).1))
  {
    hide Flush, SenderOk, ReceiverOk, SentOk, Packets, WireNos, Parse, HasCmd;
    if x.cb.pace.updated {
      FlushHoldsBack(x.cb);
      FlushKeepsWork(x.cb);
      FlushPace(x.cb);
      FlushedEnd(x);
      forall p | p in Flushing(x).1 ensures !HasCmd(SegsOf(x.cb.cfg.conv, p), CMD_PUSH) {
        var lo, hi := PacketIs(x, p);
        NoPushAmong(Flush(x.cb).wires, Flush(x.cb).wires[lo..hi]);
      }
    }
  }

  lemma FlushFull(y: End)
    requires CbOk(y.cb) && Full(y)
    ensures Full(Flushing(y).0) && AllShut(y.cb.cfg.conv, multiset(Flushing(y).1))
  {
    hide Flush, SenderOk, ReceiverOk, Packets, WireNos, Parse, PeekSize;
    if y.cb.pace.updated {
      FlushKeepsWork(y.cb);
      DrainedStays(y, Flushing(y).0);
      FlushWindow(y.cb);
      forall p | p in Flushing(y).1 ensures Shut(SegsOf(y.cb.cfg.conv, p)) {
        var lo, hi := PacketIs(y, p);
      }
    }
  }

  lemma HonestReads(y: End, x: End, p: Packet)
    requires CbOk(y.cb) && HonestPacket(x, p) && x.cb.cfg.conv == y.cb.cfg.conv
    ensures var ws, y' := SegsOf(y.cb.cfg.conv, p), Delivered(y, p);
      if |p.bytes| < OVERHEAD then y' == y else ws != [] && ReadFrom(y, y', ws)
  {
    hide HonestWire, ReadFrom, CbOk;
    CbValid(y.cb);
    var ws := SegsOf(y.cb.cfg.conv, p);
    if |p.bytes| < OVERHEAD {
      ShortPacket(y, p);
    } else {
      hide Delivered;
      assert ws != [];
      DeliveredReads(y, p, ws);
    }
  }

  lemma DeliverWaits(x: End, y: End, p: Packet)
    requires CbOk(x.cb) && HonestPacket(y, p) && x.cb.cfg.conv == y.cb.cfg.conv
    requires Waiting(x) && Shut(SegsOf(x.cb.cfg.conv, p))
    ensures Waiting(Delivered(x, p))
  {
    hide HonestPacket, Delivered, SenderOk, ReceiverOk, Parse, Holds, HasCmd;
    HonestReads(x, y, p);
  }

  lemma DeliverFull(y: End, x: End, p: Packet)
    requires CbOk(y.cb) && HonestPacket(x, p) && x.cb.cfg.conv == y.cb.cfg.conv
    requires Full(y) && !HasCmd(SegsOf(y.cb.cfg.conv, p), CMD_PUSH)
    ensures Full(Delivered(y, p))
  {
    hide HonestPacket, Delivered, SenderOk, ReceiverOk, Parse, Holds, HasCmd, PeekSize;
    HonestReads(y, x, p);
  }

  lemma PaceFull(y: End, pace: Pacing)
    requires Full(y)
    ensures Full(y.(cb := y.cb.(pace := pace)))
  {
    hide PeekSize;
  }

  lemma FlushBlocked(x: End, y: End, xy: multiset<Packet>, yx: multiset<Packet>)
    requires Linked(x, y, xy, yx) && Blocked(x, y, xy, yx)
    ensures Blocked(Flushing(x).0, y, xy + multiset(Flushing(x).1), yx)
  {
    hide Books, AcksOk, HonestPackets, CbOk, Carries, Flushing, Waiting, Full, Shut, HasCmd, SegsOf;
    SentSide(x, y);
    FlushWaits(x);
  }

  lemma PeerFlushBlocked(x: End, y: End, xy: multiset<Packet>, yx: multiset<Packet>)
    requires Linked(x, y, xy, yx) && Blocked(x, y, xy, yx)
    ensures Blocked(x, Flushing(y).0, xy, yx + multiset(Flushing(y).1))
  {
    hide Books, AcksOk, HonestPackets, CbOk, Carries, Flushing, Waiting, Full, Shut, HasCmd, SegsOf;
    FlushFull(y);
  }

  lemma TickBlocked(x: End, y: End, xy: multiset<Packet>, yx: multiset<Packet>, time: u32)
    requires Linked(x, y, xy, yx) && Blocked(x, y, xy, yx)
    ensures Blocked(Ticking(x, time).0, y, xy + multiset(Ticking(x, time).1), yx)
  {
    hide Linked, Flushing, FlushDue, Full, NoData, AllShut;
    LinkedValid(x, y, xy, yx);
    var x1 := x.(cb := x.cb.(pace := Tick(x.cb.cfg, x.cb.pace, time)));
    LinkedPace(x, y, xy, yx, x1.cb.pace);
    TickKeepsWindow(x.cb.cfg, x.cb.pace, time);
    hide Tick;
    FlushBlocked(x1, y, xy, yx);
    var none: seq<Packet> := [];
    assert xy + multiset(none) == xy;
  }

  lemma TickKeepsWindow(cfg: Config, p: Pacing, time: u32)
    requires cfg.Valid()
    ensures Tick(cfg, p, time).rmtWnd == p.rmtWnd
  {
    hide Diff, Wrap, Resync;
  }

  lemma PeerTickBlocked(x: End, y: End, xy: multiset<Packet>, yx: multiset<Packet>, time: u32)
    requires Linked(x, y, xy, yx) && Blocked(x, y, xy, yx)
    ensures Blocked(x, Ticking(y, time).0, xy, yx + multiset(Ticking(y, time).1))
  {
    hide Linked, Flushing, FlushDue, Full, NoData, AllShut, Tick, Waiting;
    LinkedValid(x, y, xy, yx);
    var y1 := y.(cb := y.cb.(pace := Tick(y.cb.cfg, y.cb.pace, time)));
    LinkedSwap(x, y, xy, yx);
    LinkedPace(y, x, yx, xy, y1.cb.pace);
    LinkedSwap(y1, x, yx, xy);
    PaceFull(y, y1.cb.pace);
    PeerFlushBlocked(x, y1, xy, yx);
    var none: seq<Packet> := [];
    assert yx + multiset(none) == yx;
  }

  lemma DeliverBlocked(x: End, y: End, xy: multiset<Packet>, yx: multiset<Packet>, p: Packet)
    requires Linked(x, y, xy, yx) && Blocked(x, y, xy, yx) && p in yx
    ensures x.cb.cfg.Valid() && Blocked(Delivered(x, p), y, xy, yx - multiset{p})
  {
    hide Books, AcksOk, Carries, SenderOk, ReceiverOk, Delivered, HonestPacket, Waiting, Full, Shut, HasCmd, SegsOf;
    assert HonestPacket(y, p);
    DeliverWaits(x, y, p);
  }

  lemma PeerDeliverBlocked(x: End, y: End, xy: multiset<Packet>, yx: multiset<Packet>, p: Packet)
    requires Linked(x, y, xy, yx) && Blocked(x, y, xy, yx) && p in xy
    ensures y.cb.cfg.Valid() && Blocked(x, Delivered(y, p), xy - multiset{p}, yx)
  {
    hide Books, AcksOk, Carries, SenderOk, ReceiverOk, Delivered, HonestPacket, Waiting, Full, Shut, HasCmd, SegsOf;
    assert HonestPacket(x, p);
    DeliverFull(y, x, p);
  }

  lemma NetworkBlocked(x: End, y: End, xy: multiset<Packet>, xy': multiset<Packet>, yx: multiset<Packet>,
                       yx': multiset<Packet>)
    requires Blocked(x, y, xy, yx)
    requires (forall p :: p in xy' ==> p in xy) && (forall p :: p in yx' ==> p in yx)
    ensures Blocked(x, y, xy', yx')
  {
    hide Waiting, Full, Shut, HasCmd, SegsOf;
  }

  lemma UserBlocked(x: End, y: End, xy: multiset<Packet>, yx: multiset<Packet>, data: seq<byte>, len: int)
    requires x.cb.cfg.Valid() && y.cb.cfg.Valid() && Blocked(x, y, xy, yx)
    ensures Blocked(UserSend(x, data), y, xy, yx) && Blocked(UserRecv(x, len), y, xy, yx)
    ensures Blocked(x, UserSend(y, data), xy, yx) && Blocked(x, UserRecv(y, len), xy, yx)
  {
    hide UserSend, UserRecv, Waiting, Full, NoData, AllShut;
    SendWaits(x, data);
    ReadWaits(x, len);
    SendFull(y, data);
    ReadFull(y, len);
  }

  /** One endpoint changes, and what it sends goes into the network. */
  lemma StuckEmits(s: Sys, side: Side, acting: Side, e: End, ps: seq<Packet>)
    requires acting == side ==>
      Blocked(e, EndOf(s, Peer(side)), Bound(s, Peer(side)) + multiset(ps), Bound(s, side))
    requires acting != side ==>
      Blocked(EndOf(s, side), e, Bound(s, Peer(side)), Bound(s, side) + multiset(ps))
    ensures Stuck(Emit(s, acting, (e, ps)), side)
  {
    hide Blocked;
  }

  lemma StuckClock(s: Sys, side: Side, act: Action)
    requires LinkedAt(s, side) && Stuck(s, side) && (act.Flushes? || act.Updates?)
    ensures s.a.cb.cfg.Valid() && s.b.cb.cfg.Valid() && Stuck(Next(s, act), side)
  {
    hide Linked, Blocked, Flushing, Ticking, Emit, Stuck;
    var x, y, xy, yx := EndOf(s, side), EndOf(s, Peer(side)), Bound(s, Peer(side)), Bound(s, side);
    LinkedValid(x, y, xy, yx);
    StuckIs(s, side);
    var r: (End, seq<Packet>);
    if act.Flushes? {
      r := Flushing(EndOf(s, act.side));
      if act.side == side { FlushBlocked(x, y, xy, yx); } else { PeerFlushBlocked(x, y, xy, yx); }
    } else {
      r := Ticking(EndOf(s, act.side), act.time);
      if act.side == side { TickBlocked(x, y, xy, yx, act.time); } else { PeerTickBlocked(x, y, xy, yx, act.time); }
    }
    StuckEmits(s, side, act.side, r.0, r.1);
  }

  lemma StuckIs(s: Sys, side: Side)
    ensures Stuck(s, side) <==> Blocked(EndOf(s, side), EndOf(s, Peer(side)), Bound(s, Peer(side)), Bound(s, side))
  {
  }

  lemma StuckUser(s: Sys, side: Side, act: Action)
    requires LinkedAt(s, side) && Stuck(s, side) && (act.UserSends? || act.UserReads?)
    ensures s.a.cb.cfg.Valid() && s.b.cb.cfg.Valid() && Stuck(Next(s, act), side)
  {
    hide Linked, Blocked, UserSend, UserRecv;
    var x, y, xy, yx := EndOf(s, side), EndOf(s, Peer(side)), Bound(s, Peer(side)), Bound(s, side);
    LinkedValid(x, y, xy, yx);
    UserBlocked(x, y, xy, yx, if act.UserSends? then act.data else [], if act.UserReads? then act.len else 0);
  }

  lemma StuckArrival(s: Sys, side: Side, act: Action)
    requires LinkedAt(s, side) && Stuck(s, side) && Enabled(s, act) && act.Delivers?
    ensures s.a.cb.cfg.Valid() && s.b.cb.cfg.Valid() && Stuck(Next(s, act), side)
  {
    hide Linked, Blocked, Delivered, Timely, Parse;
    EndsValid(s, side);
    var x, y, xy, yx := EndOf(s, side), EndOf(s, Peer(side)), Bound(s, Peer(side)), Bound(s, side);
    if act.side == side {
      DeliverBlocked(x, y, xy, yx, act.packet);
    } else {
      PeerDeliverBlocked(x, y, xy, yx, act.packet);
    }
  }

  lemma StuckNetwork(s: Sys, side: Side, act: Action)
    requires LinkedAt(s, side) && Stuck(s, side) && Enabled(s, act) && (act.Loses? || act.Repeats?)
    ensures s.a.cb.cfg.Valid() && s.b.cb.cfg.Valid() && Stuck(Next(s, act), side)
  {
    hide Linked, Blocked;
    EndsValid(s, side);
    var x, y, xy, yx := EndOf(s, side), EndOf(s, Peer(side)), Bound(s, Peer(side)), Bound(s, side);
    var p := act.packet;
    var some := if act.Loses? then Bound(s, act.side) - multiset{p} else Bound(s, act.side) + multiset{p};
    if act.side == side { NetworkBlocked(x, y, xy, xy, yx, some); } else { NetworkBlocked(x, y, xy, some, yx, yx); }
  }

  /** No action brings it out: not sending, not reading, not waiting, not the network. */
  lemma StuckStep(s: Sys, side: Side, act: Action)
    requires Inv(s) && Stuck(s, side) && Enabled(s, act)
    ensures s.a.cb.cfg.Valid() && s.b.cb.cfg.Valid() && Stuck(Next(s, act), side)
  {
    FenceLinked(s, side);
    hide Inv, LinkedAt, Stuck, Next, Enabled;
    match act
    case UserSends(_, _) => StuckUser(s, side, act);
    case UserReads(_, _) => StuckUser(s, side, act);
    case Flushes(_) => StuckClock(s, side, act);
    case Updates(_, _) => StuckClock(s, side, act);
    case Delivers(_, _) => StuckArrival(s, side, act);
    case Loses(_, _) => StuckNetwork(s, side, act);
    case Repeats(_, _) => StuckNetwork(s, side, act);
  }

  lemma {:induction false} StuckRun(run: Execution, run': Execution, side: Side, k: nat)
    requires Continues(run, run') && Stuck(Last(run), side) && |run.acts| <= k < |run'.states|
    ensures Stuck(run'.states[k], side)
    decreases k
  {
    hide Next, Enabled, Start, Stuck, Inv;
    if k == |run.acts| {
      assert run'.states[k] == Last(run);
    } else {
      StuckRun(run, run', side, k - 1);
      RunInv(run', k - 1);
      assert StepsTo(run'.states[k - 1], run'.acts[k - 1], run'.states[k]);
      StuckStep(run'.states[k - 1], side, run'.acts[k - 1]);
    }
  }

  lemma StuckForever(run: Execution, run': Execution, side: Side)
    requires Continues(run, run') && Stuck(Last(run), side)
    ensures !AllReadAt(Last(run'), side)
  {
    hide StepsTo, Start, AllReadAt, Stuck, Inv, Waiting;
    var k := |run'.states| - 1;
    StuckRun(run, run', side, k);
    RunInv(run', k);
    StuckWaits(run'.states[k], side);
    StuckUnread(run'.states[k], side);
  }

  lemma StuckWaits(s: Sys, side: Side)
    requires Stuck(s, side)
    ensures Waiting(EndOf(s, side))
  {
    hide Waiting;
  }

  // ----- getting stuck

  lemma WholeSend(x: End, data: seq<byte>)
    requires x.cb.cfg.Valid() && x.cb.snd.queue == [] && 0 < |data| <= (WND_RCV - 1) * x.cb.cfg.Mss()
    ensures UserSend(x, data)
         == x.(cb := x.cb.(snd := x.cb.snd.(queue := Split(x.cb.cfg.Mss(), x.cb.cfg.stream, data))),
               accepted := x.accepted + [data])
  {
    hide Split, Count;
    CountFits(x.cb.cfg.Mss(), |data|);
    assert data[0..] == data && data[..|data|] == data;
  }

  /** A buffer that takes n + 1 fragments. */
  function LongBuffer(mss: int, n: nat): (data: seq<byte>)
    requires mss > 0
    ensures |data| == n * mss + 1 && data[0] == 0
  {
    seq(n * mss + 1, _ => 0)
  }

  lemma LongBufferSplits(mss: int, stream: bool, n: nat)
    requires mss > 0 && n < WND_RCV - 1
    ensures |LongBuffer(mss, n)| <= (WND_RCV - 1) * mss
    ensures |Split(mss, stream, LongBuffer(mss, n))| == n + 1
    ensures n == 0 ==> Split(mss, stream, LongBuffer(mss, n)) == [Frag(0, LongBuffer(mss, n))]
  {
    hide Split, LongBuffer, Count;
    MulMonotone(n + 1, WND_RCV - 1, mss);
    SplitCount(mss, stream, LongBuffer(mss, n));
    CountOf(mss, n);
    if n == 0 { SplitShort(mss, stream, LongBuffer(mss, n)); }
  }

  lemma CountOf(mss: int, n: nat)
    requires mss > 0
    ensures Count(mss, n * mss + 1) == n + 1
  {
    if n > 0 {
      MulMonotone(1, n, mss);
      DivUnique(n * mss + mss, mss, n + 1);
    }
  }

  lemma SplitShort(mss: int, stream: bool, data: seq<byte>)
    requires mss > 0 && |data| <= mss && |data| <= (WND_RCV - 1) * mss
    ensures Split(mss, stream, data) == [Frag(0, data)]
  {
  }

  lemma OneFragment(x: End, data: seq<byte>)
    requires x.cb.cfg.Valid() && x.cb.snd.queue == [] && x.cb.snd.buf == [] && |data| == 1
    ensures Work(UserSend(x, data).cb) == 1 && UserSend(x, data).cb.pace == x.cb.pace
  {
    WholeSend(x, data);
  }

  /** The first fragment sent goes over, is read, and the sender learns the receiver's whole window. */
  lemma FirstOver(cfgA: Config, cfgB: Config, side: Side) returns (run: Execution)
    requires cfgA.Valid() && cfgB.Valid() && cfgA.conv == cfgB.conv && Fits(cfgA, cfgB)
    ensures run.Valid() && run.cfgA == cfgA && run.cfgB == cfgB
    ensures Work(EndOf(Last(run), side).cb) == 0 && Advertised(Last(run), side)
  {
    hide StepsTo, Inv, Advertised, Reaches, UserSend, Leads;
    var s := Start(cfgA, cfgB);
    var run0 := Execution(cfgA, cfgB, [], [s]);
    var data: seq<byte> := [0];
    var act := UserSends(side, data);
    var run1 := Longer(run0, act);
    var s1 := Last(run1);
    RunInv(run1, 1);
    OneFragment(EndOf(s, side), data);
    var s2 := Round(s1, side);
    run := ProceedTo(run1, s2);
  }

  /** Then a message goes in that is one fragment longer than what the receiver can advertise. */
  lemma SecondIn(s: Sys, side: Side) returns (data: seq<byte>)
    requires Inv(s) && Work(EndOf(s, side).cb) == 0 && Advertised(s, side)
    requires !Opens(EndOf(s, side).cb.cfg, EndOf(s, Peer(side)).cb.cfg)
    ensures EndOf(s, side).cb.cfg.Valid()
    ensures var s', c := SetEnd(s, side, UserSend(EndOf(s, side), data)), EndOf(s, Peer(side)).cb.cfg.rcvWnd % 0x1_0000;
      && Fenced(s', side, Fence(|EndOf(s, side).sent|, c))
      && (c == 0 ==> Waiting(EndOf(s', side)) && Full(EndOf(s', Peer(side))))
      && (c != 0 ==> !EndOf(s', side).cb.cfg.stream)
  {
    hide Inv, Drained, AllReadAt, UnaNo, UserSend;
    EndOk(s, side);
    DoneMeansRead(s, side);
    var x, y := EndOf(s, side), EndOf(s, Peer(side));
    var mss, c := x.cb.cfg.Mss(), y.cb.cfg.rcvWnd % 0x1_0000;
    data := LongBuffer(mss, c);
    LongBufferSplits(mss, x.cb.cfg.stream, c);
    WholeSend(x, data);
    NothingInFlight(x);
    SameUna(x, UserSend(x, data));
    ReadCounts(s, side);
  }

  lemma SameUna(x: End, x': End)
    requires x'.sent == x.sent && x'.cb.snd.nxt == x.cb.snd.nxt && x'.cb.snd.una == x.cb.snd.una
    ensures UnaNo(x') == UnaNo(x)
  {
  }

  lemma ReadCounts(s: Sys, side: Side)
    requires AllReadAt(s, side)
    ensures var x, y := EndOf(s, side), EndOf(s, Peer(side)); !x.cb.cfg.stream ==> |y.received| == |x.accepted|
  {
  }

  lemma FenceAt(s: Sys, s': Sys, side: Side, f: Fence)
    requires FenceKept(s, s', side) && Fenced(s, side, f)
    ensures Fenced(s', side, f)
  {
    hide Fenced;
  }

  /** A fenced sender ends up with something waiting behind a closed window. */
  lemma FencedWaits(s: Sys, side: Side, f: Fence)
    requires Fenced(s, side, f) && !EndOf(s, side).cb.cfg.stream
    requires Work(EndOf(s, side).cb) == 0 || Closed(s, side)
    ensures Waiting(EndOf(s, side)) && Full(EndOf(s, Peer(side)))
  {
    hide UnaNo, Drained;
  }

  lemma {:induction false} LoseAll(run: Execution, side: Side) returns (run': Execution)
    requires run.Valid()
    ensures Continues(run, run') && Last(run') == SetBound(Last(run), side, multiset{})
    decreases |Bound(Last(run), side)|
  {
    hide StepsTo, Start;
    var s := Last(run);
    Settings(run);
    if Bound(s, side) == multiset{} {
      run' := run;
    } else {
      var p :| p in Bound(s, side);
      var run1 := Longer(run, Loses(side, p));
      run' := LoseAll(run1, side);
    }
  }

  /** Where the window cannot be told, the connection can get stuck. */
  lemma CanGetStuck(cfgA: Config, cfgB: Config, side: Side) returns (run: Execution)
    requires cfgA.Valid() && cfgB.Valid() && cfgA.conv == cfgB.conv && Fits(cfgA, cfgB)
    requires if side == A then !Opens(cfgA, cfgB) else !Opens(cfgB, cfgA)
    ensures run.Valid() && run.cfgA == cfgA && run.cfgB == cfgB
    ensures Stuck(Last(run), side)
  {
    hide StepsTo, Start, Inv, Advertised, Reaches, UserSend, Fenced, FenceKept, Closed, Opens, Waiting, Full;
    var run1 := FirstOver(cfgA, cfgB, side);
    var s1 := Last(run1);
    RunInv(run1, |run1.states| - 1);
    Settings(run1);
    var data := SecondIn(s1, side);
    var run2 := Longer(run1, UserSends(side, data));
    var s2 := Last(run2);
    var c := EndOf(s1, Peer(side)).cb.cfg.rcvWnd % 0x1_0000;
    RunInv(run2, |run2.states| - 1);
    Settings(run2);
    var run3 := run2;
    if c != 0 {
      var s3 := Drain(s2, side);
      FenceAt(s2, s3, side, Fence(|EndOf(s1, side).sent|, c));
      FencedWaits(s3, side, Fence(|EndOf(s1, side).sent|, c));
      run3 := ProceedTo(run2, s3);
    }
    var run4 := LoseAll(run3, A);
    run := LoseAll(run4, B);
  }

  // ----- exactly when

  /** Clock ticks, deliveries and reads can bring the run to a state where everything sent has been read. */
  ghost predicate Finishes(run: Execution)
  {
    exists run' :: Proceeds(run, run') && run'.states != [] && AllReadAt(Last(run'), A) && AllReadAt(Last(run'), B)
  }

  /** Progress is guaranteed exactly when both windows can be told: the remainder of rcv_wnd by 65536 is at
      least 127 for a sender of messages, and not 0 for a sender in stream mode. */
  lemma ProgressExactly(cfgA: Config, cfgB: Config)
    requires cfgA.Valid() && cfgB.Valid() && cfgA.conv == cfgB.conv && Fits(cfgA, cfgB)
    ensures (forall run: Execution :: run.Valid() && run.cfgA == cfgA && run.cfgB == cfgB ==> Finishes(run))
       <==> Opens(cfgA, cfgB) && Opens(cfgB, cfgA)
  {
    hide StepsTo, Start, Stuck, AllReadAt, Opens;
    if Opens(cfgA, cfgB) && Opens(cfgB, cfgA) {
      forall run: Execution | run.Valid() && run.cfgA == cfgA && run.cfgB == cfgB ensures Finishes(run) {
        var run' := EverythingGetsRead(run);
      }
    } else {
      var side := if Opens(cfgA, cfgB) then B else A;
      var run := CanGetStuck(cfgA, cfgB, side);
      NeverFinishes(run, side);
    }
  }

  lemma NeverFinishes(run: Execution, side: Side)
    requires run.states != [] && Stuck(Last(run), side)
    ensures !Finishes(run)
  {
    hide StepsTo, Start, Stuck, AllReadAt;
    if Finishes(run) {
      var run' :| Proceeds(run, run') && run'.states != [] && AllReadAt(Last(run'), A) && AllReadAt(Last(run'), B);
      StuckForever(run, run', side);
    }
  }
}
