/**
  The results about a KCP connection a user can rely on.
 */
module KcpTheorems {
  import opened Wrap32
  import opened KcpTypes
  import opened KcpSpec
  import opened KcpInvariants
  import opened KcpHistory
  import opened KcpMessages
  import opened KcpNetwork
  import opened KcpEndToEnd
  import opened KcpTimely

  lemma RunLinked(run: Execution, i: nat, side: Side)
    requires run.Valid() && i < |run.states|
    ensures LinkedAt(run.states[i], side)
  {
    RunInv(run, i);
    InvAt(run.states[i], side);
  }

  // ----- safety over whole runs

  /** In every run, on either side, the fragments put in order at the receiver are a prefix of the
      fragments the sender numbered: nothing is missing, repeated, altered or out of order. */
  lemma InOrderExactlyOnce(run: Execution, i: nat, side: Side)
    requires run.Valid() && i < |run.states|
    ensures var s := run.states[i];
      EndOf(s, Peer(side)).taken + Frags(EndOf(s, Peer(side)).cb.rcv.queue) <= EndOf(s, side).sent
  {
    RunLinked(run, i, side);
    hide CbOk, Books, AcksOk, HonestPackets, SentOk, Held, StepsTo, Start;
  }

  /** In every run, a fragment that has been given a number and no longer waits in the sender's snd_buf
      is at the receiver: read, ready in rcv_queue, or held in rcv_buf. */
  lemma NothingLost(run: Execution, i: nat, side: Side, k: nat)
    requires run.Valid() && i < |run.states|
    requires k < |EndOf(run.states[i], side).sent|
    ensures var s := run.states[i];
      !Waits(EndOf(s, side), k) ==> Has(EndOf(s, Peer(side)), k)
  {
    RunLinked(run, i, side);
    hide CbOk, Books, AcksOk, HonestPackets, SentOk, Held, StepsTo, Start, ArrivedOk;
  }

  /** In every run, the bytes one user has read are a prefix of the bytes the other had accepted for
      sending. */
  lemma BytesInOrder(run: Execution, i: nat, side: Side)
    requires run.Valid() && i < |run.states|
    ensures var s := run.states[i];
      Concat(EndOf(s, Peer(side)).received) <= Concat(EndOf(s, side).accepted)
  {
    RunLinked(run, i, side);
    hide CbOk, Books, AcksOk, HonestPackets, SentOk, Conserved, ArrivedOk, StepsTo, Start, Concat;
    var s := run.states[i];
    BytesPrefix(EndOf(s, side), EndOf(s, Peer(side)));
  }

  lemma BytesPrefix(x: End, y: End)
    requires Books(x, y) && ArrivedOk(y.taken, y.cb.rcv, x.sent)
    ensures Concat(y.received) <= Concat(x.accepted)
  {
    hide Payload, Concat, Messages, Streamed, InNo, Wrap;
    var all := x.sent + x.cb.snd.queue;
    var rest := all[|y.taken|..];
    assert all == y.taken + rest;
    PayloadAppend(y.taken, rest);
  }

  /** In every run in message mode, the buffers returned to the reading user are, one by one, the first
      buffers accepted from the sending user. */
  lemma MessagesInOrder(run: Execution, i: nat, side: Side)
    requires run.Valid() && i < |run.states| && !EndOf(run.states[i], side).cb.cfg.stream
    ensures var s := run.states[i];
      EndOf(s, Peer(side)).received <= EndOf(s, side).accepted
  {
    RunLinked(run, i, side);
    hide CbOk, AcksOk, HonestPackets, Carries, StepsTo, Start, Payload, Concat, Messages, Streamed;
  }

  /** In every run in stream mode, all waiting segments but the last are exactly mss long. */
  lemma StreamSegmentsFull(run: Execution, i: nat, side: Side)
    requires run.Valid() && i < |run.states| && EndOf(run.states[i], side).cb.cfg.stream
    ensures var x := EndOf(run.states[i], side);
      forall i :: 0 <= i < |x.cb.snd.queue| - 1 ==> |x.cb.snd.queue[i].data| == x.cb.cfg.Mss()
  {
    RunLinked(run, i, side);
    hide CbOk, AcksOk, HonestPackets, Carries, StepsTo, Start, Payload, Concat, Messages;
  }

  /** A complete message is at the head of rcv_queue. */
  ghost predicate Readable(r: Receiver)
  {
    && PeekSize(r) >= 0 && HeadCount(r.queue) >= 1
    && r.queue[HeadCount(r.queue) - 1].frag.frg == 0
  }

  /** Reading cannot stall: whenever rcv_queue is full a complete message is at its head. */
  lemma FullQueueIsReadable(run: Execution, i: nat, side: Side)
    requires run.Valid() && i < |run.states|
    ensures var y := EndOf(run.states[i], side);
      |y.cb.rcv.queue| >= y.cb.cfg.rcvWnd ==> Readable(y.cb.rcv)
  {
    hide AcksOk, HonestPackets, SenderOk, ReceiverOk, Conserved, StepsTo, Start, SentOk, ArrivedOk, Books, Readable;
    RunLinked(run, i, Peer(side));
    var s := run.states[i];
    var x, y := EndOf(s, Peer(side)), EndOf(s, side);
    if |y.cb.rcv.queue| >= y.cb.cfg.rcvWnd { HeadComplete(x, y); }
  }

  lemma HeadComplete(x: End, y: End)
    requires Books(x, y) && ArrivedOk(y.taken, y.cb.rcv, x.sent) && |y.cb.rcv.queue| >= WND_RCV
    ensures Readable(y.cb.rcv)
  {
    hide Messages, Message, Payload, Concat, ArrivedOk, Streamed;
    var queue := y.cb.rcv.queue;
    HeadFrg(x, y);
    if !x.cb.cfg.stream {
      NextIsMessage(x, y);
      LastFrg(x.cb.cfg.Mss(), queue[..HeadCount(queue)], x.accepted[|y.received|]);
    }
  }

  lemma LastFrg(mss: int, segs: seq<InSeg>, buf: seq<byte>)
    requires mss > 0 && |buf| <= (WND_RCV - 1) * mss && Frags(segs) == Message(mss, buf)
    ensures segs != [] && segs[|segs| - 1].frag.frg == 0
  {
    hide Split;
    SplitWhole(mss, false, buf);
    assert Frags(segs)[|segs| - 1] == segs[|segs| - 1].frag;
  }

  // ----- nothing outstanding means everything delivered

  /** Once the sender has nothing waiting, numbered or not, and the receiver's user has emptied
      rcv_queue, every byte accepted has been read; in message mode, every message. */
  lemma QuietMeansComplete(run: Execution, i: nat, side: Side)
    requires run.Valid() && i < |run.states|
    ensures var s := run.states[i];
      var x, y := EndOf(s, side), EndOf(s, Peer(side));
      x.cb.snd.queue == [] && x.cb.snd.buf == [] && y.cb.rcv.queue == [] ==>
        && y.taken == x.sent
        && Concat(y.received) == Concat(x.accepted)
        && (!x.cb.cfg.stream ==> y.received == x.accepted)
  {
    RunLinked(run, i, side);
    hide AcksOk, HonestPackets, SentOk, ArrivedOk, Conserved, CbOk, Books, StepsTo, Start, Concat;
    var s := run.states[i];
    var x, y := EndOf(s, side), EndOf(s, Peer(side));
    if x.cb.snd.queue == [] && x.cb.snd.buf == [] && y.cb.rcv.queue == [] {
      AllArrived(x, y);
      AllRead(x, y);
    }
  }

  lemma AllArrived(x: End, y: End)
    requires CbOk(y.cb) && Carries(x, y) && x.cb.snd.buf == [] && y.cb.rcv.queue == []
    ensures y.taken == x.sent
  {
    hide OutNo, SentOk, SenderOk;
    var n := Arrived(y);
    if n < |x.sent| {
      assert Waits(x, n) || Has(y, n);
      var i :| 0 <= i < |y.cb.rcv.buf| && InNo(y.taken, y.cb.rcv, y.cb.rcv.buf[i].sn) == n;
      NextAtHead(y.cb, i);
    }
  }

  /** The next expected segment can only be at the head of rcv_buf, and only while rcv_queue is full. */
  lemma NextAtHead(cb: Cb, i: nat)
    requires CbOk(cb) && i < |cb.rcv.buf| && Ahead(cb.rcv.nxt, cb.rcv.buf[i].sn) == 0
    ensures |cb.rcv.queue| == cb.cfg.rcvWnd >= WND_RCV
  {
    AheadSame(cb.rcv.nxt, cb.rcv.buf[i].sn);
    hide Ahead, SenderOk;
    AheadSame(cb.rcv.nxt, cb.rcv.buf[0].sn);
  }

  lemma AheadSame(nxt: u32, sn: u32)
    ensures Ahead(nxt, sn) >= 0
    ensures Ahead(nxt, sn) == 0 ==> sn == nxt
  {
  }

  lemma AllRead(x: End, y: End)
    requires Books(x, y) && y.taken == x.sent && x.cb.snd.queue == []
    ensures Concat(y.received) == Concat(x.accepted)
    ensures !x.cb.cfg.stream ==> y.received == x.accepted
  {
    hide Payload, Concat, Messages, Streamed;
    assert x.sent + x.cb.snd.queue == x.sent;
    if !x.cb.cfg.stream && |y.received| < |x.accepted| {
      var mss, rest := x.cb.cfg.Mss(), x.accepted[|y.received|..];
      assert x.accepted == y.received + rest;
      MessagesAppend(mss, y.received, rest);
      MessageNonEmpty(mss, rest);
    }
  }

  lemma MessageNonEmpty(mss: int, bufs: seq<seq<byte>>)
    requires mss > 0 && bufs != [] && |bufs[0]| <= (WND_RCV - 1) * mss
    ensures Messages(mss, bufs) != []
  {
    hide Split;
  }

  // ----- the assumption on the network

  /** The half of the timeliness assumption about numbers ahead of the reader needs no assuming when
      the two windows together stay within 2^31: a datagram none of whose numbers comes late at its turn
      is timely. Only a datagram delayed for 2^31 numbers could break the assumption. */
  lemma AheadIsAutomatic(run: Execution, i: nat, side: Side, p: Packet)
    requires run.Valid() && i < |run.states|
    requires Narrow(EndOf(run.states[i], Peer(side)), EndOf(run.states[i], side))
    ensures p in Bound(run.states[i], side) && NoLate(EndOf(run.states[i], side), p) ==>
      Enabled(run.states[i], Delivers(side, p))
  {
    hide Inv, NoLate, Enabled, StepsTo, Start;
    RunInv(run, i);
    if p in Bound(run.states[i], side) && NoLate(EndOf(run.states[i], side), p) {
      NoLateIsEnabled(run.states[i], side, p);
    }
  }
}
