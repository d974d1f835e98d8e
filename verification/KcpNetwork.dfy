/**
  Two endpoints and a network between them. The network is a multiset of datagrams per direction;
  it may drop, duplicate, delay and reorder them at will. Every datagram carries, beside its bytes,
  the unbounded numbers its 32-bit fields stand for; no endpoint ever looks at them.
 */
module KcpNetwork {
  import opened Wrap32
  import opened KcpTypes
  import opened KcpWire
  import opened KcpSpec
  import opened KcpInvariants
  import opened KcpHistory

  /** The unbounded numbers behind the sn and una fields of a segment on the wire. */
  datatype No = No(sn: nat, una: nat)

  datatype Packet = Packet(bytes: seq<byte>, nos: seq<No>)

  /**
    An endpoint with its history: fragments it has numbered, fragments its user has read, the
    unbounded numbers of the acknowledgements it owes, the buffers its user handed to ikcp_send (the
    part that was accepted) and the buffers ikcp_recv returned.
   */
  datatype End = End(cb: Cb, sent: seq<Frag>, taken: seq<Frag>, ackNos: seq<nat>,
                     accepted: seq<seq<byte>>, received: seq<seq<byte>>)

  function Fresh(cfg: Config): End { End(Created(cfg), [], [], [], [], []) }

  /** Unbounded snd_una and rcv_nxt. */
  function UnaNo(e: End): int { OutNo(|e.sent|, e.cb.snd.nxt, e.cb.snd.una) }
  function Arrived(e: End): nat { Expected(e.taken, e.cb.rcv) }

  ghost predicate Has(e: End, k: int) { Held(e.taken, e.cb.rcv, k) }
  ghost predicate Waits(e: End, k: int) { Unacked(|e.sent|, e.cb.snd, k) }

  // ----- what each call does to an endpoint and its history

  function UserSend(e: End, data: seq<byte>): (e': End)
    requires e.cb.cfg.Valid()
    ensures e'.cb.cfg == e.cb.cfg
  {
    var r := Send(e.cb, data);
    e.(cb := r.cb, accepted := if 0 <= r.code <= |data| then e.accepted + [data[..r.code]] else e.accepted)
  }

  function UserRecv(e: End, len: int): (e': End)
    ensures e'.cb.cfg == e.cb.cfg
  {
    var r := Recv(e.cb, len);
    if r.code < 0 || len < 0 then e.(cb := r.cb)
    else e.(cb := r.cb, taken := e.taken + Frags(e.cb.rcv.queue[..HeadCount(e.cb.rcv.queue)]),
            received := e.received + [r.data])
  }

  /** The unbounded numbers of the segments a flush writes. */
  function WireNos(e: End, sent: seq<Frag>, nxt: u32, ws: seq<Wire>): (nos: seq<No>)
    ensures |nos| == |ws|
  {
    seq(|ws|, i requires 0 <= i < |ws| =>
      No(if ws[i].cmd == CMD_PUSH then Max(0, OutNo(|sent|, nxt, ws[i].sn))
         else if ws[i].cmd == CMD_ACK && i < |e.ackNos| then e.ackNos[i] else 0,
         Arrived(e)))
  }

  function Packets(mtu: nat, ws: seq<Wire>, nos: seq<No>): (ps: seq<Packet>)
    requires |nos| == |ws|
  {
    var cs := Cuts(mtu, ws, 0, 0);
    CutsInRange(mtu, ws, 0, 0);
    seq(|cs|, k requires 0 <= k < |cs| => Packet(EncodeAll(ws[cs[k].lo..cs[k].hi]), nos[cs[k].lo..cs[k].hi]))
  }

  function Flushing(e: End): (r: (End, seq<Packet>))
    requires e.cb.cfg.Valid()
    ensures r.0.cb.cfg == e.cb.cfg
  {
    var f := Flush(e.cb);
    var n := AdmitCount(e.cb.snd, SendWindow(e.cb.cfg, Probe(e.cb.pace)));
    if !e.cb.pace.updated then (e, [])
    else
      var sent := e.sent + e.cb.snd.queue[..n];
      (e.(cb := f.cb, sent := sent, ackNos := []),
       Packets(e.cb.cfg.mtu, f.wires, WireNos(e, sent, f.cb.snd.nxt, f.wires)))
  }

  function Ticking(e: End, time: u32): (r: (End, seq<Packet>))
    requires e.cb.cfg.Valid()
    ensures r.0.cb.cfg == e.cb.cfg
  {
    var e1 := e.(cb := e.cb.(pace := Tick(e.cb.cfg, e.cb.pace, time)));
    if FlushDue(e.cb.pace, time) then Flushing(e1) else (e1, [])
  }

  /** Does reading this segment record an acknowledgement? */
  predicate AckOwed(cb: Cb, w: Wire)
  {
    w.cmd == CMD_PUSH && Diff(w.sn, Wrap(cb.rcv.nxt + cb.cfg.rcvWnd)) < 0
  }

  /** One turn of the receive loop, with its effect on the history. */
  function Turn(e: End, m: MaxAck, w: Wire, no: No): (r: (End, MaxAck))
  {
    var g := ApplyWire(Reading(e.cb, m), w);
    (e.(cb := g.cb, ackNos := if AckOwed(e.cb, w) then e.ackNos + [no.sn] else e.ackNos), g.maxack)
  }

  function Turns(e: End, m: MaxAck, ws: seq<Wire>, nos: seq<No>): (r: (End, MaxAck))
    requires |ws| == |nos|
    decreases |ws|
  {
    if ws == [] then (e, m)
    else
      var (e1, m1) := Turn(e, m, ws[0], nos[0]);
      Turns(e1, m1, ws[1..], nos[1..])
  }

  /** ikcp_input on a datagram whose numbers are known. */
  function Delivered(e: End, p: Packet): (e': End)
    requires e.cb.cfg.Valid()
    ensures e'.cb.cfg == e.cb.cfg
  {
    var d := Parse(e.cb.cfg.conv, p.bytes);
    ApplyAllKeepsConfig(Reading(e.cb, NoAck), d.segs);
    if |p.bytes| < OVERHEAD || |d.segs| != |p.nos| then e.(cb := Input(e.cb, p.bytes).0)
    else
      TurnsRunInput(e, NoAck, d.segs, p.nos);
      var (e1, m1) := Turns(e, NoAck, d.segs, p.nos);
      if d.code == 0 then e1.(cb := Settle(Reading(e1.cb, m1), e.cb.snd.una)) else e1
  }

  lemma {:induction false} TurnsRunInput(e: End, m: MaxAck, ws: seq<Wire>, nos: seq<No>)
    requires |ws| == |nos|
    ensures Reading(Turns(e, m, ws, nos).0.cb, Turns(e, m, ws, nos).1) == ApplyAll(Reading(e.cb, m), ws)
    decreases |ws|
  {
    hide ApplyWire;
    if ws != [] {
      var (e1, m1) := Turn(e, m, ws[0], nos[0]);
      TurnsRunInput(e1, m1, ws[1..], nos[1..]);
    }
  }

  /** The history is a mere annotation: the control block evolves by ikcp_input alone. */
  lemma DeliveredIsInput(e: End, p: Packet)
    requires e.cb.cfg.Valid()
    ensures Delivered(e, p).cb == Input(e.cb, p.bytes).0
  {
    hide ApplyAll, Turns, Settle, Parse;
    var d := Parse(e.cb.cfg.conv, p.bytes);
    if |d.segs| == |p.nos| { TurnsRunInput(e, NoAck, d.segs, p.nos); }
  }

  // ----- what a flush can put on the wire

  lemma {:induction false} DataWiresFrom(cb: Cb, p: Pacing, buf: seq<OutSeg>)
    ensures forall w :: w in DataWires(cb, p, buf) ==>
      exists i :: 0 <= i < |buf| && Decide(cb.cfg, p, buf[i]) != Keep && w == WireOf(cb, Transmit(cb, p, buf[i]))
  {
    hide Decide, WireOf, Transmit;
    if buf != [] {
      DataWiresFrom(cb, p, buf[1..]);
      forall w | w in DataWires(cb, p, buf[1..])
        ensures exists i ::
          0 <= i < |buf| && Decide(cb.cfg, p, buf[i]) != Keep && w == WireOf(cb, Transmit(cb, p, buf[i]))
      {
        var i :| 0 <= i < |buf[1..]| && Decide(cb.cfg, p, buf[1..][i]) != Keep
          && w == WireOf(cb, Transmit(cb, p, buf[1..][i]));
        assert buf[i + 1] == buf[1..][i];
      }
      if Decide(cb.cfg, p, buf[0]) != Keep { assert WireOf(cb, Transmit(cb, p, buf[0])) == DataWires(cb, p, buf)[0]; }
    }
  }

  /** The segments numbered by a flush. */
  function Numbered(cb: Cb): Sender
  {
    var p := Probe(cb.pace);
    Admit(cb, p, AdmitCount(cb.snd, SendWindow(cb.cfg, p)))
  }

  /** What a flush leaves behind: the admitted segments with their numbers and contents, the receiver
      without the acknowledgements it owed. */
  lemma FlushState(cb: Cb)
    requires CbOk(cb) && cb.pace.updated
    ensures var c, s := Flush(cb).cb, Numbered(cb);
      && SenderOk(cb.cfg, s) && c.snd.nxt == s.nxt && c.snd.una == s.una && c.snd.queue == s.queue
      && |c.snd.buf| == |s.buf|
      && (forall i :: 0 <= i < |s.buf| ==> c.snd.buf[i].sn == s.buf[i].sn && c.snd.buf[i].frag == s.buf[i].frag)
      && c.cfg == cb.cfg && c.rcv == cb.rcv.(acks := [])
  {
    hide Admit, AdmitCount, SendWindow, Probe, Congest, TallyOf, Transmit, DataWires, ReceiverOk, SenderOk;
    AdmitOk(cb, Probe(cb.pace), SendWindow(cb.cfg, Probe(cb.pace)));
  }

  /** What a flush writes. */
  lemma FlushWires(cb: Cb)
    requires cb.cfg.Valid() && cb.pace.updated
    ensures var ws, n := Flush(cb).wires, |cb.rcv.acks|;
      && |ws| >= n
      && (forall i :: 0 <= i < n ==> ws[i] == Control(cb, CMD_ACK, cb.rcv.acks[i].sn, cb.rcv.acks[i].ts))
      && forall i :: n <= i < |ws| ==> LaterWire(cb, Numbered(cb), ws[i])
  {
    hide Admit, AdmitCount, SendWindow, Probe, Congest, TallyOf, Transmit, TransmitAll, Decide;
    var p, s := Probe(cb.pace), Numbered(cb);
    DataWiresFrom(cb, p, s.buf);
    forall d | d in DataWires(cb, p, s.buf) ensures LaterWire(cb, s, d) {
      var i :| 0 <= i < |s.buf| && Decide(cb.cfg, p, s.buf[i]) != Keep && d == WireOf(cb, Transmit(cb, p, s.buf[i]));
      PushWire(cb, p, s, i);
    }
  }

  /** After the acknowledgements come window probes and segments of snd_buf. */
  ghost predicate LaterWire(cb: Cb, s: Sender, w: Wire)
  {
    && w.conv == cb.cfg.conv && w.una == cb.rcv.nxt
    && w.cmd in {CMD_WASK, CMD_WINS, CMD_PUSH}
    && (w.cmd != CMD_PUSH ==> w.data == [])
    && (w.cmd == CMD_PUSH ==>
          exists i :: 0 <= i < |s.buf| && w.sn == s.buf[i].sn && Frag(w.frg, w.data) == s.buf[i].frag)
  }

  lemma PushWire(cb: Cb, p: Pacing, s: Sender, i: nat)
    requires i < |s.buf| && Decide(cb.cfg, p, s.buf[i]) != Keep
    ensures LaterWire(cb, s, WireOf(cb, Transmit(cb, p, s.buf[i])))
  {
    var w := WireOf(cb, Transmit(cb, p, s.buf[i]));
    assert w.sn == s.buf[i].sn && Frag(w.frg, w.data) == s.buf[i].frag;
  }

  /** Every segment written belongs to this connection and fits the mtu. */
  lemma FlushEncodable(cb: Cb)
    requires CbOk(cb)
    ensures AllSendable(cb.cfg.conv, Flush(cb).wires)
    ensures forall i :: 0 <= i < |Flush(cb).wires| ==> Need(Flush(cb).wires[i]) <= cb.cfg.mtu
  {
    hide Flush, Numbered, OutSorted, ReceiverOk, HeadIsUna;
    if cb.pace.updated {
      FlushState(cb);
      FlushWires(cb);
    } else {
      IdleFlush(cb);
    }
  }

  lemma IdleFlush(cb: Cb)
    requires CbOk(cb) && !cb.pace.updated
    ensures Flush(cb) == Flushed(cb, [])
  {
  }

  // ----- the network

  datatype Side = A | B
  datatype Action =
    | UserSends(side: Side, data: seq<byte>)
    | UserReads(side: Side, len: int)
    | Flushes(side: Side)
    | Updates(side: Side, time: u32)
    | Delivers(side: Side, packet: Packet)   // to this side
    | Loses(side: Side, packet: Packet)      // on its way to this side
    | Repeats(side: Side, packet: Packet)

  datatype Sys = Sys(a: End, b: End, toA: multiset<Packet>, toB: multiset<Packet>)

  function EndOf(s: Sys, side: Side): End { if side == A then s.a else s.b }
  function Bound(s: Sys, side: Side): multiset<Packet> { if side == A then s.toA else s.toB }
  function SetEnd(s: Sys, side: Side, e: End): Sys { if side == A then s.(a := e) else s.(b := e) }
  function Peer(side: Side): Side { if side == A then B else A }
  function SetBound(s: Sys, side: Side, ps: multiset<Packet>): Sys
  {
    if side == A then s.(toA := ps) else s.(toB := ps)
  }

  predicate Configured(s: Sys, cfgA: Config, cfgB: Config) { s.a.cb.cfg == cfgA && s.b.cb.cfg == cfgB }

  function Start(cfgA: Config, cfgB: Config): (s: Sys)
    ensures Configured(s, cfgA, cfgB)
  {
    Sys(Fresh(cfgA), Fresh(cfgB), multiset{}, multiset{})
  }

  predicate Near(x: int, y: int) { -HALF < x - y < HALF }

  /** The one assumption about the network: a number is read while less than 2^31 away from the number
      of the endpoint it is compared with. */
  predicate TimelyTurn(e: End, w: Wire, no: No)
  {
    && Near(no.una, UnaNo(e))
    && (w.cmd == CMD_PUSH ==> Near(no.sn, Arrived(e)))
    && (w.cmd == CMD_ACK ==> Near(no.sn, UnaNo(e.(cb := ApplyUna(e.cb, w)))))
  }

  predicate Timely(e: End, m: MaxAck, ws: seq<Wire>, nos: seq<No>)
    requires |ws| == |nos|
    decreases |ws|
  {
    ws == [] ||
    (TimelyTurn(e, ws[0], nos[0]) &&
     var (e1, m1) := Turn(e, m, ws[0], nos[0]);
     Timely(e1, m1, ws[1..], nos[1..]))
  }

  predicate Enabled(s: Sys, act: Action)
  {
    match act
    case Delivers(side, p) =>
      && p in Bound(s, side)
      && var ws := Parse(EndOf(s, side).cb.cfg.conv, p.bytes).segs;
         |ws| == |p.nos| ==> Timely(EndOf(s, side), NoAck, ws, p.nos)
    case Loses(side, p) => p in Bound(s, side)
    case Repeats(side, p) => p in Bound(s, side)
    case _ => true
  }

  function Emit(s: Sys, side: Side, r: (End, seq<Packet>)): Sys
  {
    SetBound(SetEnd(s, side, r.0), Peer(side), Bound(s, Peer(side)) + multiset(r.1))
  }

  function Next(s: Sys, act: Action): (s': Sys)
    requires s.a.cb.cfg.Valid() && s.b.cb.cfg.Valid()
    ensures Configured(s', s.a.cb.cfg, s.b.cb.cfg)
  {
    match act
    case UserSends(side, data) => SetEnd(s, side, UserSend(EndOf(s, side), data))
    case UserReads(side, len) => SetEnd(s, side, UserRecv(EndOf(s, side), len))
    case Flushes(side) => Emit(s, side, Flushing(EndOf(s, side)))
    case Updates(side, time) => Emit(s, side, Ticking(EndOf(s, side), time))
    case Delivers(side, p) =>
      SetBound(SetEnd(s, side, Delivered(EndOf(s, side), p)), side, Bound(s, side) - multiset{p})
    case Loses(side, p) => SetBound(s, side, Bound(s, side) - multiset{p})
    case Repeats(side, p) => SetBound(s, side, Bound(s, side) + multiset{p})
  }

  predicate StepsTo(s: Sys, act: Action, s': Sys)
  {
    Enabled(s, act) && s.a.cb.cfg.Valid() && s.b.cb.cfg.Valid() && s' == Next(s, act)
  }

  /** Two endpoints set up for the same connection, the actions of a run between them, and the states it
      goes through: one before each action and one at the end. */
  datatype Execution = Execution(cfgA: Config, cfgB: Config, acts: seq<Action>, states: seq<Sys>)
  {
    ghost predicate Valid()
    {
      && cfgA.Valid() && cfgB.Valid() && cfgA.conv == cfgB.conv
      && |states| == |acts| + 1
      && states[0] == Start(cfgA, cfgB)
      && forall i :: 0 <= i < |acts| ==> StepsTo(states[i], acts[i], states[i + 1])
    }
  }
}
