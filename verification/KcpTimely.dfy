/**
  When datagrams are timely: which half of the assumption on the network holds by itself, and why a
  datagram read soon after it was sent is timely.
 */
module KcpTimely {
  import opened Wrap32
  import opened KcpTypes
  import opened KcpWire
  import opened KcpSpec
  import opened KcpInvariants
  import opened KcpHistory
  import opened KcpNetwork
  import opened KcpEndToEnd

  // ----- numbers ahead of the reader

  lemma WireAhead(x: End, y: End, w: Wire, no: No)
    requires CbOk(x.cb) && CbOk(y.cb) && Carries(x, y) && Carries(y, x) && HonestWire(x, w, no)
    requires x.cb.cfg.sndWnd + y.cb.cfg.rcvWnd < HALF
    ensures no.una - UnaNo(y) < HALF
    ensures w.cmd == CMD_PUSH ==> no.sn - Arrived(y) < HALF
    ensures w.cmd == CMD_ACK ==> no.sn - UnaNo(y) < HALF
  {
    hide Wrap, Age, Unacked, OutSorted, ReceiverOk;
    assert Arrived(x) <= |y.sent| && |y.sent| - UnaNo(y) <= y.cb.cfg.sndWnd;
    UnaWithinWindow(x, y);
    if w.cmd == CMD_ACK && no.sn >= Arrived(x) {
      var i :| 0 <= i < |x.cb.rcv.buf| && InNo(x.taken, x.cb.rcv, x.cb.rcv.buf[i].sn) == no.sn;
      assert no.sn < |y.sent|;
    }
  }

  /** snd_una never runs ahead of what the receiver holds. */
  lemma UnaWithinWindow(x: End, y: End)
    requires CbOk(x.cb) && CbOk(y.cb) && Carries(x, y)
    ensures UnaNo(x) <= Arrived(y) + y.cb.cfg.rcvWnd
    ensures |x.sent| - UnaNo(x) <= x.cb.cfg.sndWnd
  {
    hide Wrap, Age, ArrivedOk;
    var k := UnaNo(x) - 1;
    if k >= 0 {
      assert Waits(x, k) || Has(y, k) by {
        if UnaNo(x) > |x.sent| { assert false; }
      }
    }
  }

  // ----- numbers behind the reader

  /** A number is not 2^31 or more behind the endpoint reading it. */
  predicate NotLate(e: End, w: Wire, no: No)
  {
    && no.una - UnaNo(e) > -HALF
    && (w.cmd == CMD_PUSH ==> no.sn - Arrived(e) > -HALF)
    && (w.cmd == CMD_ACK ==> no.sn - UnaNo(UnaDone(e, w)) > -HALF)
  }

  /** No segment of a datagram comes late at its turn. */
  predicate NoneLate(e: End, m: MaxAck, ws: seq<Wire>, nos: seq<No>)
    requires |ws| == |nos|
    decreases |ws|
  {
    ws == [] ||
    (NotLate(e, ws[0], nos[0]) &&
     var (e1, m1) := Turn(e, m, ws[0], nos[0]);
     NoneLate(e1, m1, ws[1..], nos[1..]))
  }

  /** A datagram none of whose segments comes late at its turn. */
  predicate NoLate(e: End, p: Packet)
  {
    var ws := Parse(e.cb.cfg.conv, p.bytes).segs;
    |ws| == |p.nos| ==> NoneLate(e, NoAck, ws, p.nos)
  }

  /** The windows of both directions, each with the other end's. */
  predicate Narrow(x: End, y: End)
  {
    x.cb.cfg.sndWnd + y.cb.cfg.rcvWnd < HALF && y.cb.cfg.sndWnd + x.cb.cfg.rcvWnd < HALF
  }

  lemma ConfigAside(y: End, w: Wire)
    ensures UnaDone(y, w).sent == y.sent && UnaDone(y, w).cb.cfg == y.cb.cfg
  {
  }

  lemma NotLateTurn(y: End, x: End, w: Wire, no: No)
    requires Reads(y, x) && HonestWire(x, w, no) && Narrow(x, y) && NotLate(y, w, no)
    ensures TimelyTurn(y, w, no)
  {
    hide Carries, CbOk, HonestWire, AcksOk, UnaNo, Arrived, ApplyUna;
    WireAhead(x, y, w, no);
    UnaTurn(y, x, w, no);
    ConfigAside(y, w);
    WireAhead(x, UnaDone(y, w), w, no);
  }

  /** Reading in order, with both windows together below 2^31, not late means timely. */
  lemma {:induction false} NoneLateIsTimely(y: End, x: End, m: MaxAck, ws: seq<Wire>, nos: seq<No>)
    requires Reads(y, x) && HonestWires(x, ws, nos) && Narrow(x, y) && NoneLate(y, m, ws, nos)
    ensures Timely(y, m, ws, nos)
    decreases |ws|
  {
    hide Reads, HonestWire, NotLate, TimelyTurn, Turn;
    if ws != [] {
      var (e1, m1) := Turn(y, m, ws[0], nos[0]);
      NotLateTurn(y, x, ws[0], nos[0]);
      TurnKeeps(y, x, m, ws[0], nos[0]);
      NoneLateIsTimely(e1, x, m1, ws[1..], nos[1..]);
    }
  }

  lemma NoLateIsEnabled(s: Sys, side: Side, p: Packet)
    requires Inv(s) && Narrow(EndOf(s, Peer(side)), EndOf(s, side))
    requires p in Bound(s, side) && NoLate(EndOf(s, side), p)
    ensures Enabled(s, Delivers(side, p))
  {
    InvAt(s, side);
    hide Inv, Books, Carries, AcksOk, CbOk, Parse, HonestWire, NoneLate, Timely;
    var x, y := EndOf(s, Peer(side)), EndOf(s, side);
    assert HonestPacket(x, p);
    NoneLateIsTimely(y, x, NoAck, Parse(y.cb.cfg.conv, p.bytes).segs, p.nos);
  }

  // ----- datagrams read soon

  /** A number less than 2^31 behind everything numbered so far on the side it belongs to. */
  predicate Recent(y: End, x: End, w: Wire, no: No)
  {
    && |y.sent| - no.una < HALF
    && (w.cmd == CMD_PUSH ==> |x.sent| - no.sn < HALF)
    && (w.cmd == CMD_ACK ==> |y.sent| - no.sn < HALF)
  }

  predicate AllRecent(y: End, x: End, ws: seq<Wire>, nos: seq<No>)
  {
    |ws| == |nos| && forall i :: 0 <= i < |ws| ==> Recent(y, x, ws[i], nos[i])
  }

  lemma NumbersBelow(y: End, x: End)
    requires Reads(y, x)
    ensures UnaNo(y) <= |y.sent| && Arrived(y) <= |x.sent|
  {
    hide Held, Unacked;
  }

  lemma RecentTurn(y: End, x: End, w: Wire, no: No)
    requires Reads(y, x) && HonestWire(x, w, no) && Narrow(x, y) && Recent(y, x, w, no)
    ensures TimelyTurn(y, w, no)
  {
    hide Carries, CbOk, HonestWire, AcksOk, UnaNo, Arrived, UnaDone;
    NumbersBelow(y, x);
    WireAhead(x, y, w, no);
    UnaTurn(y, x, w, no);
    ConfigAside(y, w);
    NumbersBelow(UnaDone(y, w), x);
    NotLateTurn(y, x, w, no);
  }

  /** A datagram whose numbers are all recent is timely. */
  lemma {:induction false} RecentIsTimely(y: End, x: End, m: MaxAck, ws: seq<Wire>, nos: seq<No>)
    requires Reads(y, x) && HonestWires(x, ws, nos) && Narrow(x, y) && AllRecent(y, x, ws, nos)
    ensures Timely(y, m, ws, nos)
    decreases |ws|
  {
    hide Reads, HonestWire, TimelyTurn, Turn, Grown;
    if ws != [] {
      var (e1, m1) := Turn(y, m, ws[0], nos[0]);
      RecentTurn(y, x, ws[0], nos[0]);
      TurnKeeps(y, x, m, ws[0], nos[0]);
      RecentIsTimely(e1, x, m1, ws[1..], nos[1..]);
    }
  }
}
