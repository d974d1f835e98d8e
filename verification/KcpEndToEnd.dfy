/**
  The invariant of a connection and what follows from it: in every run, over a network that loses,
  duplicates, reorders and delays, fragments arrive in order and exactly once, no numbered fragment is
  ever lost between the two endpoints, and the users' messages and bytes come out as they went in.
 */
module KcpEndToEnd {
  import opened Wrap32
  import opened KcpTypes
  import opened KcpWire
  import opened KcpSpec
  import opened KcpInvariants
  import opened KcpHistory
  import opened KcpMessages
  import opened KcpNetwork

  // ----- the invariant

  /** Every acknowledgement owed is for a fragment this endpoint has. */
  ghost predicate AcksOk(e: End)
  {
    && |e.ackNos| == |e.cb.rcv.acks|
    && forall i :: 0 <= i < |e.ackNos| ==> e.cb.rcv.acks[i].sn == Wrap(e.ackNos[i]) && Has(e, e.ackNos[i])
  }

  /** Every fragment x has numbered is still in its snd_buf or safely at y. */
  ghost predicate Conserved(x: End, y: End)
  {
    forall k :: 0 <= k < |x.sent| ==> Waits(x, k) || Has(y, k)
  }

  /** The direction from x to y. */
  ghost predicate Carries(x: End, y: End)
  {
    && SentOk(x.sent, x.cb.snd)
    && ArrivedOk(y.taken, y.cb.rcv, x.sent)
    && Conserved(x, y)
  }

  /** A segment x has put on the wire says only what is true of x, and stays true. */
  ghost predicate HonestWire(x: End, w: Wire, no: No)
  {
    && w.una == Wrap(no.una) && no.una <= Arrived(x)
    && (w.cmd == CMD_PUSH ==> no.sn < |x.sent| && w.sn == Wrap(no.sn) && Frag(w.frg, w.data) == x.sent[no.sn])
    && (w.cmd == CMD_ACK ==> w.sn == Wrap(no.sn) && Has(x, no.sn))
  }

  ghost predicate HonestWires(x: End, ws: seq<Wire>, nos: seq<No>)
  {
    |ws| == |nos| && forall i :: 0 <= i < |ws| ==> HonestWire(x, ws[i], nos[i])
  }

  ghost predicate HonestPacket(x: End, p: Packet)
  {
    var d := Parse(x.cb.cfg.conv, p.bytes);
    d.code == 0 && HonestWires(x, d.segs, p.nos)
  }

  ghost predicate HonestPackets(x: End, ps: multiset<Packet>) { forall p :: p in ps ==> HonestPacket(x, p) }

  /** Fragment numbers are 0 in stream mode, below 127 in message mode. */
  function FrgBound(cfg: Config): int { if cfg.stream then 1 else WND_RCV - 1 }

  ghost predicate FrgsOk(x: End)
  {
    forall i :: 0 <= i < |x.sent + x.cb.snd.queue| ==> (x.sent + x.cb.snd.queue)[i].frg < FrgBound(x.cb.cfg)
  }

  /** Message by message: what x numbered or queued is what its user sent, what y's user took is what it read. */
  ghost predicate MessageBooks(x: End, y: End)
    requires x.cb.cfg.Valid()
  {
    && (forall i :: 0 <= i < |x.accepted| ==> |x.accepted[i]| <= (WND_RCV - 1) * x.cb.cfg.Mss())
    && x.sent + x.cb.snd.queue == Messages(x.cb.cfg.Mss(), x.accepted)
    && y.received <= x.accepted
    && y.taken == Messages(x.cb.cfg.Mss(), y.received)
  }

  /** x's user against y's user: the bytes x accepted are the bytes of its fragments, the bytes y's
      user read are the bytes of the fragments taken; in message mode whole messages correspond. */
  ghost predicate Books(x: End, y: End)
  {
    && x.cb.cfg.Valid()
    && Payload(x.sent + x.cb.snd.queue) == Concat(x.accepted)
    && Payload(y.taken) == Concat(y.received)
    && FrgsOk(x)
    && (x.cb.cfg.stream ==> Streamed(x.cb.cfg.Mss(), x.cb.snd.queue))
    && (!x.cb.cfg.stream ==> MessageBooks(x, y))
  }

  /** The whole connection, seen from x; it reads the same from y. */
  ghost predicate Linked(x: End, y: End, xy: multiset<Packet>, yx: multiset<Packet>)
  {
    && CbOk(x.cb) && CbOk(y.cb) && x.cb.cfg.conv == y.cb.cfg.conv
    && Carries(x, y) && Carries(y, x) && AcksOk(x) && AcksOk(y)
    && HonestPackets(x, xy) && HonestPackets(y, yx)
    && Books(x, y) && Books(y, x)
  }

  ghost predicate Inv(s: Sys) { Linked(s.a, s.b, s.toB, s.toA) }

  // ----- what only grows

  /** x may later have numbered and received more. */
  ghost predicate Grown(x: End, x': End)
  {
    && x'.cb.cfg == x.cb.cfg
    && x.sent <= x'.sent
    && HeldKept(x.taken, x.cb.rcv, x'.taken, x'.cb.rcv)
  }

  lemma GrownTrans(x: End, x1: End, x2: End)
    requires Grown(x, x1) && Grown(x1, x2)
    ensures Grown(x, x2)
  {
    hide Held;
  }

  lemma HonestGrown(x: End, x': End, ps: multiset<Packet>)
    requires Grown(x, x') && HonestPackets(x, ps)
    ensures HonestPackets(x', ps)
  {
    hide Held, Parse;
  }

  // ----- one turn of the receive loop

  /** What a turn leaves alone. */
  ghost predicate SameHistory(y: End, y': End)
  {
    && y'.sent == y.sent && y'.taken == y.taken && y'.accepted == y.accepted && y'.received == y.received
    && y'.cb.cfg == y.cb.cfg && y'.cb.snd.queue == y.cb.snd.queue
  }

  ghost predicate Reads(y: End, x: End)
  {
    CbOk(y.cb) && CbOk(x.cb) && Carries(x, y) && Carries(y, x) && AcksOk(y)
  }

  /** The state after the una field. */
  function UnaDone(e: End, w: Wire): End { e.(cb := ApplyUna(e.cb, w)) }

  lemma UnaTurn(y: End, x: End, w: Wire, no: No)
    requires Reads(y, x) && HonestWire(x, w, no) && Near(no.una, UnaNo(y))
    ensures Reads(UnaDone(y, w), x)
  {
    hide Age, Wrap, Held, Unacked, ReceiverOk, ArrivedOk, DropBelow;
    UnaReleases(y.cb.cfg, y.sent, y.cb.snd, no.una);
    UnaKeepsSender(y.cb, w);
    SafeBelow(x, no.una);
  }

  lemma SafeBelow(x: End, k: int)
    requires k <= Arrived(x)
    ensures forall j :: j < k ==> Has(x, j)
  {
  }

  lemma AckTurn(y: End, x: End, w: Wire, no: No)
    requires Reads(y, x) && HonestWire(x, w, no) && w.cmd == CMD_ACK && Near(no.sn, UnaNo(y))
    ensures Reads(y.(cb := y.cb.(snd := Shrink(ParseAck(y.cb.snd, w.sn)))), x)
  {
    hide Age, Wrap, Held, Unacked, ReceiverOk, ArrivedOk, ParseAck;
    AckReleases(y.cb.cfg, y.sent, y.cb.snd, no.sn);
    AckKeepsSender(y.cb.cfg, y.cb.snd, w.sn);
  }

  lemma PushTurn(y: End, x: End, w: Wire, no: No)
    requires Reads(y, x) && HonestWire(x, w, no) && w.cmd == CMD_PUSH && Near(no.sn, Arrived(y))
    ensures var y' := y.(cb := y.cb.(rcv := ApplyPush(y.cb.rcv, y.cb.cfg.rcvWnd, w)),
                         ackNos := if AckOwed(y.cb, w) then y.ackNos + [no.sn] else y.ackNos);
      Reads(y', x) && Grown(y, y')
  {
    hide Wrap, Held, Unacked, SenderOk, ReceiverOk, ArrivedOk, ParseData, Diff;
    PushArrives(y.cb.cfg, y.taken, y.cb.rcv, x.sent, w, no.sn);
    ApplyPushOk(y.cb.cfg, y.cb.rcv, w);
    PushAcks(y.cb, w);
  }

  lemma PushAcks(cb: Cb, w: Wire)
    requires w.cmd == CMD_PUSH
    ensures ApplyPush(cb.rcv, cb.cfg.rcvWnd, w).acks
      == if AckOwed(cb, w) then cb.rcv.acks + [Ack(w.sn, w.ts)] else cb.rcv.acks
  {
    hide Insert, Diff;
  }

  /** Reading one honest, timely segment keeps everything. */
  lemma TurnKeeps(y: End, x: End, m: MaxAck, w: Wire, no: No)
    requires Reads(y, x) && HonestWire(x, w, no) && TimelyTurn(y, w, no)
    ensures var y' := Turn(y, m, w, no).0; Reads(y', x) && Grown(y, y') && SameHistory(y, y')
  {
    hide Reads, HonestWire, ParseAck, ApplyPush, UpdateAck, Held, DropBelow, Diff, UnaNo, Arrived, Wrap;
    var y1, y' := UnaDone(y, w), Turn(y, m, w, no).0;
    UnaTurn(y, x, w, no);
    if w.cmd == CMD_ACK {
      AckTurn(y1, x, w, no);
      PaceAside(y1.(cb := y1.cb.(snd := Shrink(ParseAck(y1.cb.snd, w.sn)))), x, y'.cb.pace);
    } else if w.cmd == CMD_PUSH {
      assert Arrived(y1) == Arrived(y) by { SameArrived(y, y1); }
      PushTurn(y1, x, w, no);
    } else {
      PaceAside(y1, x, y'.cb.pace);
    }
  }

  lemma SameArrived(y: End, y1: End)
    requires y1.taken == y.taken && y1.cb.rcv == y.cb.rcv
    ensures Arrived(y1) == Arrived(y)
  {
  }

  lemma PaceAside(y: End, x: End, pace: Pacing)
    requires Reads(y, x)
    ensures Reads(y.(cb := y.cb.(pace := pace)), x)
  {
    hide Held, Unacked, SenderOk, ReceiverOk, ArrivedOk, SentOk;
  }

  lemma {:induction false} TurnsKeep(y: End, x: End, m: MaxAck, ws: seq<Wire>, nos: seq<No>)
    requires Reads(y, x) && HonestWires(x, ws, nos) && Timely(y, m, ws, nos)
    ensures var y' := Turns(y, m, ws, nos).0; Reads(y', x) && Grown(y, y') && SameHistory(y, y')
    decreases |ws|
  {
    hide Reads, HonestWire, TimelyTurn, Turn, Held;
    if ws == [] {
      SelfGrown(y);
    } else {
      var (y1, m1) := Turn(y, m, ws[0], nos[0]);
      TurnKeeps(y, x, m, ws[0], nos[0]);
      TurnsKeep(y1, x, m1, ws[1..], nos[1..]);
    }
  }

  lemma SelfGrown(y: End)
    ensures Grown(y, y)
  {
  }

  /** Counting skips touches no number and no content. */
  lemma SettleKeeps(y: End, x: End, m: MaxAck, prevUna: u32)
    requires Reads(y, x)
    ensures var y' := y.(cb := Settle(Reading(y.cb, m), prevUna));
      Reads(y', x) && y'.cb.rcv == y.cb.rcv && SameHistory(y, y')
  {
    hide Age, Wrap, Held, SenderOk, ReceiverOk, ArrivedOk, Grow, Diff, SkipCount;
    SettleOk(Reading(y.cb, m), prevUna);
    if m.MaxAck? { SkipCountSame(y.cb.snd.buf, m.sn, m.ts); }
    var y' := y.(cb := Settle(Reading(y.cb, m), prevUna));
    assert forall k :: Waits(y, k) ==> Waits(y', k);
  }

  // ----- the steps

  lemma BooksKept(x: End, y: End, x': End, y': End)
    requires Books(x, y) && SameHistory(x, x') && SameHistory(y, y')
    ensures Books(x', y')
  {
    hide Messages, Payload, Concat;
  }

  lemma {:induction false} DeliverStep(y: End, x: End, yx: multiset<Packet>, xy: multiset<Packet>, p: Packet)
    requires Linked(y, x, yx, xy) && p in xy
    requires var ws := Parse(y.cb.cfg.conv, p.bytes).segs; |ws| == |p.nos| ==> Timely(y, NoAck, ws, p.nos)
    ensures Linked(Delivered(y, p), x, yx, xy - multiset{p})
  {
    hide Carries, AcksOk, HonestWire, Books, Timely, Settle, SenderOk, ReceiverOk, Held, Parse;
    var d := Parse(y.cb.cfg.conv, p.bytes);
    assert HonestPacket(x, p);
    var y' := Delivered(y, p);
    if |p.bytes| < OVERHEAD {
      ShortPacket(y, p);
    } else {
      var (y1, m1) := Turns(y, NoAck, d.segs, p.nos);
      TurnsKeep(y, x, NoAck, d.segs, p.nos);
      SettleKeeps(y1, x, m1, y.cb.snd.una);
      assert Grown(y1, y') by { SelfGrown(y1); SameGrown(y1, y'); }
      GrownTrans(y, y1, y');
      HonestGrown(y, y', yx);
      assert SameHistory(x, x);
      BooksKept(x, y, x, y');
      BooksKept(y, x, y', x);
    }
  }

  lemma SameGrown(y: End, y': End)
    requires y'.cb.rcv == y.cb.rcv && y'.taken == y.taken && y'.sent == y.sent && y'.cb.cfg == y.cb.cfg
    ensures Grown(y, y')
  {
    SelfGrown(y);
  }

  lemma ShortPacket(y: End, p: Packet)
    requires y.cb.cfg.Valid() && |p.bytes| < OVERHEAD
    ensures Delivered(y, p) == y
  {
  }

  // ----- flushing

  lemma AckHonest(x: End, x': End, i: nat)
    requires AcksOk(x) && Grown(x, x') && i < |x.ackNos| && x.cb.rcv.nxt == Wrap(Arrived(x))
    requires Arrived(x) <= Arrived(x')
    ensures HonestWire(x', Control(x.cb, CMD_ACK, x.cb.rcv.acks[i].sn, x.cb.rcv.acks[i].ts),
                       No(x.ackNos[i], Arrived(x)))
  {
  }

  lemma LaterHonest(x: End, x': End, s: Sender, w: Wire, no: No)
    requires LaterWire(x.cb, s, w) && SentOk(x'.sent, s)
    requires x.cb.rcv.nxt == Wrap(Arrived(x)) && Arrived(x) <= Arrived(x')
    requires no.una == Arrived(x)
    requires w.cmd == CMD_PUSH ==> no.sn == Max(0, OutNo(|x'.sent|, s.nxt, w.sn))
    ensures HonestWire(x', w, no)
  {
    hide Age, Wrap, Held;
    if w.cmd == CMD_PUSH {
      var i :| 0 <= i < |s.buf| && w.sn == s.buf[i].sn && Frag(w.frg, w.data) == s.buf[i].frag;
      OutNoWraps(|x'.sent|, s.nxt, w.sn);
    }
  }

  /** Every segment a flush writes is honest about the endpoint after the flush. */
  lemma FlushHonest(x: End)
    requires CbOk(x.cb) && x.cb.pace.updated && SentOk(x.sent, x.cb.snd) && AcksOk(x)
    requires x.cb.rcv.nxt == Wrap(Arrived(x))
    requires Grown(x, Flushing(x).0) && SentOk(Flushing(x).0.sent, Numbered(x.cb))
    ensures var x', ws := Flushing(x).0, Flush(x.cb).wires;
      HonestWires(x', ws, WireNos(x, x'.sent, x'.cb.snd.nxt, ws))
  {
    hide Numbered, LaterWire, Control, HonestWire, Grown, OutNo, Admit, DataWires, Congest, SenderOk, ReceiverOk;
    var x', ws := Flushing(x).0, Flush(x.cb).wires;
    var nos := WireNos(x, x'.sent, x'.cb.snd.nxt, ws);
    FlushState(x.cb);
    FlushWires(x.cb);
    ArrivedGrown(x, x');
    forall i | 0 <= i < |ws| ensures HonestWire(x', ws[i], nos[i]) {
      if i < |x.ackNos| {
        ControlFields(x.cb, CMD_ACK, x.cb.rcv.acks[i]);
        AckHonest(x, x', i);
      } else {
        LaterFields(x.cb, Numbered(x.cb), ws[i]);
        LaterHonest(x, x', Numbered(x.cb), ws[i], nos[i]);
      }
    }
  }

  lemma ArrivedGrown(x: End, x': End)
    requires Grown(x, x')
    ensures Arrived(x) <= Arrived(x')
  {
  }

  lemma ControlFields(cb: Cb, cmd: byte, ack: Ack)
    ensures Control(cb, cmd, ack.sn, ack.ts).cmd == cmd
  {
  }

  lemma LaterFields(cb: Cb, s: Sender, w: Wire)
    requires LaterWire(cb, s, w)
    ensures w.cmd != CMD_ACK
  {
  }

  /** Packing honest segments into datagrams keeps each with its numbers. */
  lemma PacketsHonest(x: End, mtu: nat, ws: seq<Wire>, nos: seq<No>)
    requires HonestWires(x, ws, nos) && AllSendable(x.cb.cfg.conv, ws)
    ensures forall p :: p in Packets(mtu, ws, nos) ==> HonestPacket(x, p)
  {
    hide HonestWire, Parse, Sendable, Encode;
    var cs, ps := Cuts(mtu, ws, 0, 0), Packets(mtu, ws, nos);
    CutsInRange(mtu, ws, 0, 0);
    forall p | p in ps ensures HonestPacket(x, p) {
      var k :| 0 <= k < |ps| && ps[k] == p;
      ParseEncodeAll(x.cb.cfg.conv, ws[cs[k].lo..cs[k].hi]);
    }
  }

  /** The endpoint after a flush. */
  lemma FlushedEnd(x: End)
    requires CbOk(x.cb) && SentOk(x.sent, x.cb.snd) && x.cb.pace.updated
    ensures var x' := Flushing(x).0;
      && CbOk(x'.cb) && Grown(x, x') && SentOk(x'.sent, x'.cb.snd) && SentOk(x'.sent, Numbered(x.cb))
      && x'.cb.rcv == x.cb.rcv.(acks := []) && x'.taken == x.taken && x'.ackNos == []
      && x'.sent + x'.cb.snd.queue == x.sent + x.cb.snd.queue && |x'.cb.snd.queue| <= |x.cb.snd.queue|
      && x'.cb.snd.queue == x.cb.snd.queue[|x.cb.snd.queue| - |x'.cb.snd.queue|..]
      && x'.accepted == x.accepted && x'.received == x.received
      && (forall k :: Waits(x, k) ==> Waits(x', k))
      && forall k :: |x.sent| <= k < |x'.sent| ==> Waits(x', k)
  {
    hide Flush, Packets, WireNos, Age, OutNo, SenderOk, ReceiverOk, Admit;
    var p := Probe(x.cb.pace);
    var n := AdmitCount(x.cb.snd, SendWindow(x.cb.cfg, p));
    FlushOk(x.cb);
    FlushState(x.cb);
    AdmitBound(x.cb, SendWindow(x.cb.cfg, p));
    AdmitExtends(x.sent, x.cb, p, n);
    AdmitQueue(x.cb, p, n);
    var x' := Flushing(x).0;
    SameNumbers(x'.sent, Numbered(x.cb), x'.cb.snd);
    AcksCleared(x, x');
  }

  lemma AdmitQueue(cb: Cb, p: Pacing, n: nat)
    requires n <= |cb.snd.queue|
    ensures Admit(cb, p, n).queue == cb.snd.queue[n..]
  {
  }

  lemma SameNumbers(sent: seq<Frag>, s: Sender, s': Sender)
    requires SentOk(sent, s) && s'.nxt == s.nxt && s'.una == s.una && |s'.buf| == |s.buf|
    requires forall i :: 0 <= i < |s.buf| ==> s'.buf[i].sn == s.buf[i].sn && s'.buf[i].frag == s.buf[i].frag
    ensures SentOk(sent, s')
    ensures forall k :: Unacked(|sent|, s, k) ==> Unacked(|sent|, s', k)
  {
    hide Age, Wrap;
    forall k | Unacked(|sent|, s, k) ensures Unacked(|sent|, s', k) {
      var i :| 0 <= i < |s.buf| && OutNo(|sent|, s.nxt, s.buf[i].sn) == k;
      assert OutNo(|sent|, s'.nxt, s'.buf[i].sn) == k;
    }
  }

  lemma AcksCleared(x: End, x': End)
    requires x'.taken == x.taken && x.sent <= x'.sent && x'.cb.cfg == x.cb.cfg
    requires x'.cb.rcv == x.cb.rcv.(acks := [])
    ensures Grown(x, x')
  {
    hide Ahead;
    MoreHeld(x.taken, x.cb.rcv, x'.cb.rcv);
  }

  lemma ArrivedMore(taken: seq<Frag>, r: Receiver, sent: seq<Frag>, sent': seq<Frag>, acks: seq<Ack>)
    requires ArrivedOk(taken, r, sent) && sent <= sent'
    ensures ArrivedOk(taken, r, sent')
    ensures ArrivedOk(taken, r.(acks := acks), sent)
  {
    hide Ahead, Wrap;
  }

  lemma FlushCarries(x: End, y: End)
    requires CbOk(x.cb) && x.cb.pace.updated && Carries(x, y) && Carries(y, x)
    ensures Carries(Flushing(x).0, y) && Carries(y, Flushing(x).0)
  {
    hide Flushing, Held, Unacked, ArrivedOk, SenderOk, ReceiverOk, Flush;
    var x' := Flushing(x).0;
    FlushedEnd(x);
    ArrivedMore(y.taken, y.cb.rcv, x.sent, x'.sent, []);
    ArrivedMore(x.taken, x.cb.rcv, y.sent, y.sent, []);
  }

  lemma FlushBooks(x: End, y: End)
    requires CbOk(x.cb) && x.cb.pace.updated && Carries(x, y) && Books(x, y) && Books(y, x)
    ensures Books(Flushing(x).0, y) && Books(y, Flushing(x).0)
  {
    hide Flushing, Held, Unacked, CbOk, SentOk, Messages, Payload, Concat, HeldKept;
    FlushedEnd(x);
  }

  lemma FlushStep(x: End, y: End, xy: multiset<Packet>, yx: multiset<Packet>)
    requires Linked(x, y, xy, yx)
    ensures Linked(Flushing(x).0, y, xy + multiset(Flushing(x).1), yx)
  {
    hide Flushing, Carries, Books, HonestPacket, SenderOk, ReceiverOk, Held, Parse, Grown;
    var (x', ps) := Flushing(x);
    if x.cb.pace.updated {
      FlushedEnd'(x, y);
      FlushCarries(x, y);
      FlushBooks(x, y);
      FlushPackets(x, y);
      HonestGrown(x, x', xy);
    } else {
      FlushIdle(x);
    }
  }

  lemma FlushIdle(x: End)
    requires x.cb.cfg.Valid() && !x.cb.pace.updated
    ensures Flushing(x) == (x, [])
  {
  }

  lemma FlushedEnd'(x: End, y: End)
    requires CbOk(x.cb) && x.cb.pace.updated && Carries(x, y)
    ensures var x' := Flushing(x).0; CbOk(x'.cb) && Grown(x, x') && AcksOk(x')
  {
    hide Flushing, Held, CbOk, HeldKept;
    FlushedEnd(x);
  }

  lemma FlushPackets(x: End, y: End)
    requires CbOk(x.cb) && x.cb.pace.updated && Carries(x, y) && Carries(y, x) && AcksOk(x)
    ensures forall p :: p in Flushing(x).1 ==> HonestPacket(Flushing(x).0, p)
  {
    hide Held, SenderOk, ReceiverOk, Flush, HonestPacket, WireNos, Packets, Conserved;
    FlushedEnd(x);
    FlushHonest(x);
    FlushEncodable(x.cb);
    var x', ws := Flushing(x).0, Flush(x.cb).wires;
    PacketsHonest(x', x.cb.cfg.mtu, ws, WireNos(x, x'.sent, x'.cb.snd.nxt, ws));
  }

  lemma TickStep(x: End, y: End, xy: multiset<Packet>, yx: multiset<Packet>, time: u32)
    requires Linked(x, y, xy, yx)
    ensures Linked(Ticking(x, time).0, y, xy + multiset(Ticking(x, time).1), yx)
  {
    hide Flushing, FlushDue, Tick, Linked;
    LinkedValid(x, y, xy, yx);
    var pace := Tick(x.cb.cfg, x.cb.pace, time);
    LinkedPace(x, y, xy, yx, pace);
    FlushStep(x.(cb := x.cb.(pace := pace)), y, xy, yx);
    var none: seq<Packet> := [];
    assert xy + multiset(none) == xy;
  }

  lemma LinkedValid(x: End, y: End, xy: multiset<Packet>, yx: multiset<Packet>)
    requires Linked(x, y, xy, yx)
    ensures x.cb.cfg.Valid() && y.cb.cfg.Valid()
  {
  }

  lemma LinkedPace(x: End, y: End, xy: multiset<Packet>, yx: multiset<Packet>, pace: Pacing)
    requires Linked(x, y, xy, yx)
    ensures Linked(x.(cb := x.cb.(pace := pace)), y, xy, yx)
  {
    hide Held, Unacked, SenderOk, ReceiverOk, ArrivedOk, SentOk, Parse, Messages, Payload, Concat;
    var x' := x.(cb := x.cb.(pace := pace));
    SameGrown(x, x');
    HonestGrown(x, x', xy);
  }

  // ----- the users

  /** Looking at the next message, or failing to read it, changes nothing. */
  lemma RecvIdle(x: End, len: int)
    requires CbOk(x.cb) && (len < 0 || Recv(x.cb, len).code < 0)
    ensures UserRecv(x, len) == x
  {
    hide Payload, SenderOk;
    ReleaseIdle(x.cb.cfg, x.cb.rcv);
  }

  /** Taking n segments from the head of rcv_queue. */
  function Taken(x: End, n: nat): Receiver
    requires n <= |x.cb.rcv.queue|
  {
    Release(x.cb.rcv.(queue := x.cb.rcv.queue[n..]), x.cb.cfg.rcvWnd)
  }

  lemma RecvTakes(x: End, len: int)
    requires len >= 0 && Recv(x.cb, len).code >= 0
    ensures var x', n := UserRecv(x, len), HeadCount(x.cb.rcv.queue);
      && PeekSize(x.cb.rcv) >= 0
      && x'.cb.rcv == Taken(x, n) && x'.cb.snd == x.cb.snd && x'.cb.cfg == x.cb.cfg
      && x'.taken == x.taken + Frags(x.cb.rcv.queue[..n])
      && x'.received == x.received + [Payload(Frags(x.cb.rcv.queue[..n]))]
      && x'.sent == x.sent && x'.ackNos == x.ackNos && x'.accepted == x.accepted
  {
    hide Payload, Release;
  }

  lemma RecvCarries(x: End, y: End, len: int)
    requires CbOk(x.cb) && Carries(x, y) && Carries(y, x) && AcksOk(x)
    requires len >= 0 && Recv(x.cb, len).code >= 0
    ensures var x' := UserRecv(x, len);
      CbOk(x'.cb) && Grown(x, x') && Carries(x', y) && Carries(y, x') && AcksOk(x')
  {
    hide UserRecv, Recv, Held, Unacked, ArrivedOk, SenderOk, ReceiverOk, Release;
    RecvTakes(x, len);
    RecvEnd(x, len);
    TakeDelivers(x.cb.cfg, x.taken, x.cb.rcv, y.sent, HeadCount(x.cb.rcv.queue));
  }

  lemma RecvEnd(x: End, len: int)
    requires CbOk(x.cb)
    ensures CbOk(UserRecv(x, len).cb)
  {
    RecvOk(x.cb, len);
    hide CbOk, Recv;
  }

  /** Reading yields the next message, or in stream mode the next bytes. */
  lemma RecvBooks(y: End, x: End, len: int)
    requires Books(y, x) && ArrivedOk(x.taken, x.cb.rcv, y.sent)
    requires len >= 0 && Recv(x.cb, len).code >= 0
    ensures Books(y, UserRecv(x, len))
  {
    hide UserRecv, Recv, Messages, Message, Payload, Concat, Streamed;
    var queue, mss := x.cb.rcv.queue, y.cb.cfg.Mss();
    var n := HeadCount(queue);
    var fs := Frags(queue[..n]);
    RecvTakes(x, len);
    PayloadAppend(x.taken, fs);
    ConcatSnoc(x.received, Payload(fs));
    if !y.cb.cfg.stream {
      NextIsMessage(y, x);
      MessagesSnoc(mss, x.received, y.accepted[|x.received|]);
    }
  }

  lemma NextIsMessage(y: End, x: End)
    requires Books(y, x) && !y.cb.cfg.stream && ArrivedOk(x.taken, x.cb.rcv, y.sent) && x.cb.rcv.queue != []
    ensures |x.received| < |y.accepted|
    ensures PeekSize(x.cb.rcv) >= 0 ==>
      var fs, next := Frags(x.cb.rcv.queue[..HeadCount(x.cb.rcv.queue)]), y.accepted[|x.received|];
      fs == Message(y.cb.cfg.Mss(), next) && Payload(fs) == next
    ensures PeekSize(x.cb.rcv) >= 0 <==> |x.cb.rcv.queue| >= |Message(y.cb.cfg.Mss(), y.accepted[|x.received|])|
  {
    hide Messages, Message, Payload, Concat, PeekSize, HeadCount, Streamed, InNo;
    var queue, mss, k := x.cb.rcv.queue, y.cb.cfg.Mss(), |x.received|;
    var rest := y.accepted[k..];
    assert y.accepted == x.received + rest;
    MessagesAppend(mss, x.received, rest);
    assert Frags(queue) <= Messages(mss, rest) by {
      var all := y.sent + y.cb.snd.queue;
      assert x.taken + Frags(queue) <= all;
      assert all == x.taken + Messages(mss, rest);
      PrefixDrop(x.taken, Frags(queue), Messages(mss, rest));
    }
    HeadIsMessage(mss, x.cb.rcv, rest);
  }

  lemma PrefixDrop<T>(a: seq<T>, b: seq<T>, c: seq<T>)
    requires a + b <= a + c
    ensures b <= c
  {
    assert b == (a + b)[|a|..];
    assert c == (a + c)[|a|..];
  }

  lemma HeadFrg(y: End, x: End)
    requires Books(y, x) && ArrivedOk(x.taken, x.cb.rcv, y.sent) && x.cb.rcv.queue != []
    ensures x.cb.rcv.queue[0].frag.frg < FrgBound(y.cb.cfg)
  {
    hide Messages, Payload, Concat, Streamed, InNo, Wrap;
    var all := y.sent + y.cb.snd.queue;
    assert (x.taken + Frags(x.cb.rcv.queue))[|x.taken|] == x.cb.rcv.queue[0].frag;
    assert all[|x.taken|].frg < FrgBound(y.cb.cfg);
  }

  lemma RecvStep(x: End, y: End, xy: multiset<Packet>, yx: multiset<Packet>, len: int)
    requires Linked(x, y, xy, yx)
    ensures Linked(UserRecv(x, len), y, xy, yx)
  {
    hide Carries, AcksOk, Books, HonestPackets, SenderOk, ReceiverOk, Grown, Recv, UserRecv;
    if len < 0 || Recv(x.cb, len).code < 0 {
      RecvIdle(x, len);
    } else {
      RecvCarries(x, y, len);
      HonestGrown(x, UserRecv(x, len), xy);
      RecvBooks'(y, x, len);
    }
  }

  lemma RecvBooks'(y: End, x: End, len: int)
    requires Books(y, x) && Books(x, y) && Carries(y, x)
    requires len >= 0 && Recv(x.cb, len).code >= 0
    ensures Books(y, UserRecv(x, len)) && Books(UserRecv(x, len), y)
    ensures UserRecv(x, len).cb.cfg == x.cb.cfg
  {
    RecvBooks(y, x, len);
    RecvTakes(x, len);
    hide UserRecv, Recv, Messages, Payload, Concat, Streamed;
  }

  // ----- sending

  /** What ikcp_send appends to snd_queue in message mode. */
  lemma SendMessage(cb: Cb, data: seq<byte>)
    requires CbOk(cb) && !cb.cfg.stream
    ensures var r := Send(cb, data);
      r.cb.snd.queue == cb.snd.queue + (if r.code < 0 then [] else Message(cb.cfg.Mss(), data))
    ensures Send(cb, data).code >= 0 ==> Send(cb, data).code == |data| <= (WND_RCV - 1) * cb.cfg.Mss()
  {
    hide Split, SenderOk, ReceiverOk, Count;
    CountFits(cb.cfg.Mss(), |data|);
    assert data[0..] == data;
  }

  lemma SmallFrg(cb: Cb, data: seq<byte>)
    requires CbOk(cb) && forall i :: 0 <= i < |cb.snd.queue| ==> cb.snd.queue[i].frg < FrgBound(cb.cfg)
    ensures var q := Send(cb, data).cb.snd.queue; forall i :: 0 <= i < |q| ==> q[i].frg < FrgBound(cb.cfg)
  {
    hide Split, SenderOk, ReceiverOk, Count, TailRoom;
    var cfg := cb.cfg;
    var rest := data[TailRoom(cfg, cb.snd.queue, |data|)..];
    CountFits(cfg.Mss(), |rest|);
    if |rest| <= (WND_RCV - 1) * cfg.Mss() { SplitWhole(cfg.Mss(), cfg.stream, rest); }
  }

  lemma SendBooks(x: End, y: End, data: seq<byte>)
    requires CbOk(x.cb) && Books(x, y)
    ensures Books(UserSend(x, data), y)
  {
    hide Send, Messages, Payload, Concat, Streamed, SenderOk, ReceiverOk;
    SendAppends(x.cb, data);
    SendBytes(x, data);
    SendFrgs(x, data);
    if x.cb.cfg.stream { SendKeepsStreamed(x.cb, data); } else { SendMessages(x, y, data); }
  }

  /** The bytes accepted are still the bytes of the fragments. */
  lemma SendBytes(x: End, data: seq<byte>)
    requires CbOk(x.cb) && Payload(x.sent + x.cb.snd.queue) == Concat(x.accepted)
    ensures var x' := UserSend(x, data); Payload(x'.sent + x'.cb.snd.queue) == Concat(x'.accepted)
  {
    hide Send, Payload, Concat, SenderOk, ReceiverOk;
    var r := Send(x.cb, data);
    SendAppends(x.cb, data);
    PayloadAppend(x.sent, x.cb.snd.queue);
    PayloadAppend(x.sent, r.cb.snd.queue);
    if r.code >= 0 { ConcatSnoc(x.accepted, data[..r.code]); }
  }

  lemma SendFrgs(x: End, data: seq<byte>)
    requires CbOk(x.cb) && FrgsOk(x)
    ensures FrgsOk(UserSend(x, data))
  {
    hide Send, SenderOk, ReceiverOk, FrgBound;
    SendAppends(x.cb, data);
    SmallQueue(x);
    SmallFrg(x.cb, data);
    var q, q' := x.cb.snd.queue, Send(x.cb, data).cb.snd.queue;
    forall i | 0 <= i < |x.sent + q'| ensures (x.sent + q')[i].frg < FrgBound(x.cb.cfg) {
      if i < |x.sent| { assert (x.sent + q)[i] == x.sent[i]; }
    }
  }

  /** In message mode the fragments are still those of the messages accepted. */
  lemma SendMessages(x: End, y: End, data: seq<byte>)
    requires CbOk(x.cb) && !x.cb.cfg.stream && MessageBooks(x, y)
    ensures MessageBooks(UserSend(x, data), y)
  {
    hide Send, Messages, Message, SenderOk, ReceiverOk;
    var r := Send(x.cb, data);
    SendMessage(x.cb, data);
    if r.code >= 0 {
      MessagesSnoc(x.cb.cfg.Mss(), x.accepted, data);
      assert data[..|data|] == data;
    }
  }

  lemma SmallQueue(x: End)
    requires FrgsOk(x)
    ensures forall i :: 0 <= i < |x.cb.snd.queue| ==> x.cb.snd.queue[i].frg < FrgBound(x.cb.cfg)
  {
    forall i | 0 <= i < |x.cb.snd.queue| ensures x.cb.snd.queue[i].frg < FrgBound(x.cb.cfg) {
      assert (x.sent + x.cb.snd.queue)[|x.sent| + i] == x.cb.snd.queue[i];
    }
  }

  lemma SendCarries(x: End, y: End, data: seq<byte>)
    requires CbOk(x.cb) && Carries(x, y) && Carries(y, x) && AcksOk(x) && Books(y, x)
    ensures var x' := UserSend(x, data);
      CbOk(x'.cb) && Grown(x, x') && Carries(x', y) && Carries(y, x') && AcksOk(x') && Books(y, x')
  {
    hide Send, Messages, Payload, Concat, Streamed, SenderOk, ReceiverOk, ArrivedOk, Held;
    SendAppends(x.cb, data);
    SendOk(x.cb, data);
    var x' := UserSend(x, data);
    QueueAside(x, x');
  }

  lemma QueueAside(x: End, x': End)
    requires x'.cb.rcv == x.cb.rcv && x'.taken == x.taken && x'.sent == x.sent && x'.cb.cfg == x.cb.cfg
    requires x'.cb.snd == x.cb.snd.(queue := x'.cb.snd.queue)
    ensures Grown(x, x')
    ensures SentOk(x.sent, x.cb.snd) ==> SentOk(x'.sent, x'.cb.snd)
    ensures forall k :: Waits(x, k) ==> Waits(x', k)
  {
    hide Age, Wrap;
    SameGrown(x, x');
  }

  lemma SendStep(x: End, y: End, xy: multiset<Packet>, yx: multiset<Packet>, data: seq<byte>)
    requires Linked(x, y, xy, yx)
    ensures Linked(UserSend(x, data), y, xy, yx)
  {
    hide Carries, AcksOk, Books, HonestPackets, SenderOk, ReceiverOk, Grown, UserSend;
    SendCarries(x, y, data);
    SendBooks(x, y, data);
    HonestGrown(x, UserSend(x, data), xy);
  }

  // ----- every run

  lemma LinkedSwap(x: End, y: End, xy: multiset<Packet>, yx: multiset<Packet>)
    requires Linked(x, y, xy, yx)
    ensures Linked(y, x, yx, xy)
  {
    hide CbOk, Carries, Books, AcksOk, HonestPacket;
  }

  lemma StartInv(cfgA: Config, cfgB: Config)
    requires cfgA.Valid() && cfgB.Valid() && cfgA.conv == cfgB.conv
    ensures Inv(Start(cfgA, cfgB))
  {
    hide CbOk, HonestPacket, Carries, AcksOk, Books;
    CreatedOk(cfgA);
    CreatedOk(cfgB);
    FreshLinks(cfgA, cfgB);
    FreshLinks(cfgB, cfgA);
  }

  lemma FreshLinks(cfgX: Config, cfgY: Config)
    requires cfgX.Valid()
    ensures Carries(Fresh(cfgX), Fresh(cfgY)) && AcksOk(Fresh(cfgX)) && Books(Fresh(cfgX), Fresh(cfgY))
  {
    hide OutNo, InNo, Held;
    FreshBooks(cfgX, cfgY);
    hide Books;
  }

  lemma FreshBooks(cfgX: Config, cfgY: Config)
    requires cfgX.Valid()
    ensures Books(Fresh(cfgX), Fresh(cfgY))
  {
    var x := Fresh(cfgX);
    assert x.sent + x.cb.snd.queue == [];
  }

  /** The connection seen from one side. */
  ghost predicate LinkedAt(s: Sys, side: Side)
  {
    Linked(EndOf(s, side), EndOf(s, Peer(side)), Bound(s, Peer(side)), Bound(s, side))
  }

  lemma InvAt(s: Sys, side: Side)
    ensures LinkedAt(s, side) <==> Inv(s)
  {
    hide Linked;
    if side == B {
      if Inv(s) { LinkedSwap(s.a, s.b, s.toB, s.toA); }
      if LinkedAt(s, B) { LinkedSwap(s.b, s.a, s.toA, s.toB); }
    }
  }

  /** Every action keeps the invariant. */
  lemma NextInv(s: Sys, act: Action)
    requires Inv(s) && Enabled(s, act)
    ensures s.a.cb.cfg.Valid() && s.b.cb.cfg.Valid()
    ensures Inv(Next(s, act))
  {
    hide Inv, LinkedAt, Next, Enabled;
    InvAt(s, act.side);
    EndsValid(s, act.side);
    InvAt(Next(s, act), act.side);
    match act
    case UserSends(_, _) => UserAct(s, act);
    case UserReads(_, _) => UserAct(s, act);
    case Flushes(_) => ClockAct(s, act);
    case Updates(_, _) => ClockAct(s, act);
    case Delivers(_, _) => NetworkAct(s, act);
    case Loses(_, _) => NetworkAct(s, act);
    case Repeats(_, _) => NetworkAct(s, act);
  }

  lemma EndsValid(s: Sys, side: Side)
    requires LinkedAt(s, side)
    ensures s.a.cb.cfg.Valid() && s.b.cb.cfg.Valid()
  {
    hide Linked;
    LinkedValid(EndOf(s, side), EndOf(s, Peer(side)), Bound(s, Peer(side)), Bound(s, side));
  }

  lemma UserAct(s: Sys, act: Action)
    requires LinkedAt(s, act.side) && (act.UserSends? || act.UserReads?)
    requires s.a.cb.cfg.Valid() && s.b.cb.cfg.Valid()
    ensures LinkedAt(Next(s, act), act.side)
  {
    hide Linked, UserSend, UserRecv;
    var x, y := EndOf(s, act.side), EndOf(s, Peer(act.side));
    if act.UserSends? {
      SendStep(x, y, Bound(s, Peer(act.side)), Bound(s, act.side), act.data);
    } else {
      RecvStep(x, y, Bound(s, Peer(act.side)), Bound(s, act.side), act.len);
    }
  }

  lemma ClockAct(s: Sys, act: Action)
    requires LinkedAt(s, act.side) && (act.Flushes? || act.Updates?)
    requires s.a.cb.cfg.Valid() && s.b.cb.cfg.Valid()
    ensures LinkedAt(Next(s, act), act.side)
  {
    hide Linked, Flushing, Ticking;
    var x, y := EndOf(s, act.side), EndOf(s, Peer(act.side));
    if act.Flushes? {
      FlushStep(x, y, Bound(s, Peer(act.side)), Bound(s, act.side));
    } else {
      TickStep(x, y, Bound(s, Peer(act.side)), Bound(s, act.side), act.time);
    }
  }

  lemma NetworkAct(s: Sys, act: Action)
    requires LinkedAt(s, act.side) && Enabled(s, act) && (act.Delivers? || act.Loses? || act.Repeats?)
    requires s.a.cb.cfg.Valid() && s.b.cb.cfg.Valid()
    ensures LinkedAt(Next(s, act), act.side)
  {
    hide Linked, Delivered, Timely, Parse;
    var x, y, xy, yx := EndOf(s, act.side), EndOf(s, Peer(act.side)), Bound(s, Peer(act.side)), Bound(s, act.side);
    match act
    case Delivers(_, p) => LinkedConv(x, y, xy, yx); DeliverStep(x, y, xy, yx, p);
    case Loses(_, p) => NetworkStep(x, y, xy, xy, yx, yx - multiset{p});
    case Repeats(_, p) => NetworkStep(x, y, xy, xy, yx, yx + multiset{p});
  }

  lemma LinkedConv(x: End, y: End, xy: multiset<Packet>, yx: multiset<Packet>)
    requires Linked(x, y, xy, yx)
    ensures x.cb.cfg.conv == y.cb.cfg.conv
  {
  }

  lemma NetworkStep(x: End, y: End, xy: multiset<Packet>, xy': multiset<Packet>, yx: multiset<Packet>,
                    yx': multiset<Packet>)
    requires Linked(x, y, xy, yx)
    requires (forall p :: p in xy' ==> p in xy) && (forall p :: p in yx' ==> p in yx)
    ensures Linked(x, y, xy', yx')
  {
    hide CbOk, Carries, Books, AcksOk, HonestPacket;
  }

  /** The invariant holds throughout every run. */
  lemma {:induction false} RunInv(x: Execution, i: nat)
    requires x.Valid() && i < |x.states|
    ensures Inv(x.states[i])
    decreases i
  {
    hide Inv, Next, Start, Enabled;
    if i == 0 {
      StartInv(x.cfgA, x.cfgB);
    } else {
      RunInv(x, i - 1);
      assert StepsTo(x.states[i - 1], x.acts[i - 1], x.states[i]);
      NextInv(x.states[i - 1], x.acts[i - 1]);
    }
  }
}
