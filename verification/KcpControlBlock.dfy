/**
  The control block as the C code keeps it: scalar fields and counters updated in place, four queues,
  an acknowledgement array that grows by doubling and a fixed output buffer. Every method is proved to
  compute the function of KcpSpec of the same name.
 */
module KcpControlBlock {
  import opened Wrap32
  import opened KcpTypes
  import opened KcpWire
  import opened KcpInvariants
  import Spec = KcpSpec
  import Net = KcpNetwork
  import Msg = KcpMessages
  import Timing = KcpTiming

  /** The acknowledgements stored as (sn, ts) pairs. */
  ghost function AckPairs(words: seq<u32>): (acks: seq<Ack>)
    ensures |acks| == |words| / 2
  {
    seq(|words| / 2, i requires 0 <= i < |words| / 2 => Ack(words[2 * i], words[2 * i + 1]))
  }

  class Kcp {
    const cfg: Config

    var sndUna: u32
    var sndNxt: u32
    var sndBuf: seq<OutSeg>
    var sndQueue: seq<Frag>
    var nsndBuf: u32
    var nsndQue: u32

    var rcvNxt: u32
    var rcvBuf: seq<InSeg>
    var rcvQueue: seq<InSeg>
    var nrcvBuf: u32
    var nrcvQue: u32

    var acklist: array<u32>
    var ackcount: nat
    var ackblock: nat

    var pace: Pacing

    const buffer: array<byte>

    // ----- the value the fields stand for

    ghost function Snd(): Sender
      reads `sndUna, `sndNxt, `sndBuf, `sndQueue
    {
      Sender(sndUna, sndNxt, sndBuf, sndQueue)
    }

    ghost function Acks(): (acks: seq<Ack>)
      reads `acklist, `ackcount, acklist
      requires 2 * ackcount <= acklist.Length
      ensures |acks| == ackcount
    {
      AckPairs(acklist[..2 * ackcount])
    }

    ghost function Rcv(): Receiver
      reads `rcvNxt, `rcvBuf, `rcvQueue, `acklist, `ackcount, acklist
      requires 2 * ackcount <= acklist.Length
    {
      Receiver(rcvNxt, rcvBuf, rcvQueue, Acks())
    }

    ghost function View(): Cb
      reads this, acklist
      requires 2 * ackcount <= acklist.Length
    {
      Cb(cfg, Snd(), Rcv(), pace)
    }

    /** Counters agree with the queues and the arrays have their sizes. */
    ghost predicate Counted()
      reads this
    {
      && nsndBuf == |sndBuf| && nsndQue == Wrap(|sndQueue|)
      && nrcvBuf == |rcvBuf| && nrcvQue == |rcvQueue|
      && acklist.Length == 2 * ackblock && ackcount <= ackblock
      && cfg.Valid() && buffer.Length == 3 * (cfg.mtu + OVERHEAD)
      && (acklist as object) != buffer
    }

    ghost predicate Valid()
      reads this, acklist
    {
      Counted() && CbOk(View())
    }

    /** ikcp_create, with the settings made before first use. */
    constructor (cfg: Config)
      requires cfg.Valid()
      ensures Valid() && View() == Created(cfg)
      ensures fresh(buffer) && fresh(acklist)
    {
      this.cfg := cfg;
      sndUna, sndNxt, rcvNxt := 0, 0, 0;
      sndBuf, sndQueue, rcvBuf, rcvQueue := [], [], [], [];
      nsndBuf, nsndQue, nrcvBuf, nrcvQue := 0, 0, 0, 0;
      var list, room := new u32[0], new byte[3 * (cfg.mtu + OVERHEAD)];
      acklist, ackcount, ackblock, buffer := list, 0, 0, room;
      pace := Created(cfg).pace;
      new;
      CreatedOk(cfg);
      assert View() == Created(cfg);
    }

    // ----- the user's side

    /** ikcp_peeksize */
    method PeekSize() returns (n: int)
      requires Valid()
      ensures n == Spec.PeekSize(Rcv())
    {
      if rcvQueue == [] { return -1; }
      var seg := rcvQueue[0];
      if seg.frag.frg == 0 { return |seg.frag.data|; }
      if nrcvQue < seg.frag.frg + 1 { return -1; }
      ghost var whole := Spec.HeadCount(rcvQueue);
      n := 0;
      var p := 0;
      while p < |rcvQueue|
        invariant 0 <= p <= whole
        invariant p < |rcvQueue| ==> p + Spec.HeadCount(rcvQueue[p..]) == whole
        invariant p == |rcvQueue| ==> p == whole
        invariant n == |Payload(Frags(rcvQueue[..p]))|
      {
        n := n + |rcvQueue[p].frag.data|;
        FragsSnoc(rcvQueue, p);
        assert rcvQueue[p..][1..] == rcvQueue[p + 1..];
        p := p + 1;
        if rcvQueue[p - 1].frag.frg == 0 { break; }
      }
    }

    /** Moving available segments from rcv_buf to rcv_queue. */
    method MoveAvailable()
      requires 2 * ackcount <= acklist.Length
      requires nrcvBuf == |rcvBuf| && nrcvQue == |rcvQueue|
      modifies this`rcvBuf, this`rcvQueue, this`rcvNxt, this`nrcvBuf, this`nrcvQue
      ensures Rcv() == Spec.Release(old(Rcv()), cfg.rcvWnd)
      ensures nrcvBuf == |rcvBuf| && nrcvQue == |rcvQueue|
    {
      while rcvBuf != []
        invariant nrcvBuf == |rcvBuf| && nrcvQue == |rcvQueue|
        invariant Spec.Release(Rcv(), cfg.rcvWnd) == Spec.Release(old(Rcv()), cfg.rcvWnd)
        decreases |rcvBuf|
      {
        var seg := rcvBuf[0];
        if seg.sn == rcvNxt && nrcvQue < cfg.rcvWnd {
          rcvBuf := rcvBuf[1..];
          nrcvBuf := nrcvBuf - 1;
          rcvQueue := rcvQueue + [seg];
          nrcvQue := nrcvQue + 1;
          rcvNxt := Wrap(rcvNxt + 1);
        } else {
          break;
        }
      }
    }

    /** The merge loop of ikcp_recv. */
    method MergeFragments(ispeek: bool) returns (data: seq<byte>)
      requires nrcvQue == |rcvQueue|
      modifies this`rcvQueue, this`nrcvQue
      ensures var n := Spec.HeadCount(old(rcvQueue));
        && data == Payload(Frags(old(rcvQueue)[..n]))
        && rcvQueue == if ispeek then old(rcvQueue) else old(rcvQueue)[n..]
      ensures nrcvQue == |rcvQueue|
    {
      ghost var whole := Spec.HeadCount(rcvQueue);
      data := [];
      var p, walk := 0, rcvQueue;
      while p < |walk|
        invariant 0 <= p <= whole
        invariant rcvQueue == if ispeek then walk else walk[p..]
        invariant nrcvQue == |rcvQueue|
        invariant data == Payload(Frags(walk[..p]))
        invariant p < |walk| ==> p + Spec.HeadCount(walk[p..]) == whole
        invariant p == |walk| ==> p == whole
      {
        var seg := walk[p];
        FragsSnoc(walk, p);
        assert walk[p..][1..] == walk[p + 1..];
        data := data + seg.frag.data;
        if !ispeek {
          rcvQueue := rcvQueue[1..];
          nrcvQue := nrcvQue - 1;
        }
        p := p + 1;
        if seg.frag.frg == 0 { break; }
      }
    }

    /** Taking, or only copying, the first message, then moving what became available. */
    method Drain(ispeek: bool) returns (data: seq<byte>)
      requires Counted()
      modifies this`rcvBuf, this`rcvQueue, this`rcvNxt, this`nrcvBuf, this`nrcvQue
      ensures Counted()
      ensures var n := Spec.HeadCount(old(rcvQueue));
        data == Payload(Frags(old(rcvQueue)[..n])) && Rcv() == Drained(old(View()), n, ispeek)
    {
      hide Payload, Spec.Release, Spec.HeadCount, Frags, Wrap;
      data := MergeFragments(ispeek);
      MoveAvailable();
    }

    /** The part of ikcp_recv after its checks. */
    method TakeMessage(len: int) returns (data: seq<byte>)
      requires Counted() && Spec.Recv(View(), len).code >= 0
      modifies this`rcvBuf, this`rcvQueue, this`rcvNxt, this`nrcvBuf, this`nrcvQue, this`pace
      ensures Counted()
      ensures Spec.Recv(old(View()), len) == Spec.Received(View(), |data|, data)
    {
      hide Payload, Drained, Spec.HeadCount, Frags, Spec.Recv, Wrap;
      RecvTaken(View(), len);
      var recover := nrcvQue >= cfg.rcvWnd;
      data := Drain(len < 0);
      if nrcvQue < cfg.rcvWnd && recover { pace := pace.(askTell := true); }
    }

    /** ikcp_recv into a buffer of |len| bytes; `data` is what is copied there. */
    method Recv(len: int) returns (code: int, data: seq<byte>)
      requires Valid()
      modifies this`rcvBuf, this`rcvQueue, this`rcvNxt, this`nrcvBuf, this`nrcvQue, this`pace
      ensures Valid()
      ensures Spec.Recv(old(View()), len) == Spec.Received(View(), code, data)
    {
      hide CbOk, Payload, Spec.Recv, Spec.PeekSize;
      RecvOk(View(), len);
      Msg.RecvMatchesPeek(View(), len);
      RecvCases(View(), len);
      if rcvQueue == [] { return -1, []; }
      var peeksize := PeekSize();
      if peeksize < 0 { return -2, []; }
      if peeksize > (if len < 0 then -len else len) { return -3, []; }
      data := TakeMessage(len);
      code := |data|;
      assert code == peeksize;
    }

    /** ikcp_send of the first `len` bytes of a buffer. */
    method Send(buffer: seq<byte>, len: int) returns (code: int)
      requires Valid() && len <= |buffer|
      modifies this`sndQueue, this`nsndQue
      ensures Valid()
      ensures len < 0 ==> code == -1 && View() == old(View())
      ensures len >= 0 ==> Spec.Send(old(View()), buffer[..len]) == Spec.Sent(View(), code)
    {
      hide CbOk, Spec.Send, Spec.Split, Spec.Count, Spec.ExtendTail, Spec.TailRoom;
      if len < 0 { return -1; }
      assert cfg.Valid();
      var data, mss := buffer[..len], cfg.Mss();
      ghost var cb := View();
      SendOk(cb, data);
      Spec.SendCases(cb, data);

      // append to the previous segment in stream mode
      var sent := 0;
      if cfg.stream {
        if sndQueue != [] {
          sent := ExtendLast(data);
        } else {
          NoRoom(cfg, sndQueue, |data|);
        }
        if |data| - sent <= 0 { return sent; }
      } else {
        NoRoom(cfg, sndQueue, |data|);
      }
      assert sent == Spec.TailRoom(cfg, cb.snd.queue, |data|);

      var rest := data[sent..];
      var count := if |rest| <= mss then 1 else (|rest| + mss - 1) / mss;
      CountIs(mss, |rest|);
      if count >= WND_RCV {
        if cfg.stream && sent > 0 { return sent; }
        return -2;
      }
      CutUp(rest, count);
      return |data|;
    }

    /** Stream mode: filling up the last waiting segment. */
    method ExtendLast(data: seq<byte>) returns (extend: int)
      requires cfg.Valid() && cfg.stream && sndQueue != [] && nsndQue == Wrap(|sndQueue|)
      modifies this`sndQueue
      ensures extend == Spec.TailRoom(cfg, old(sndQueue), |data|)
      ensures sndQueue == Spec.ExtendTail(cfg, old(sndQueue), data[..extend])
      ensures nsndQue == Wrap(|sndQueue|)
    {
      var last := |sndQueue| - 1;
      var tail := sndQueue[last];
      extend := 0;
      if |tail.data| < cfg.Mss() {
        var capacity := cfg.Mss() - |tail.data|;
        extend := if |data| < capacity then |data| else capacity;
        var seg := Frag(0, tail.data + data[..extend]);
        sndQueue := sndQueue + [seg];
        sndQueue := sndQueue[..last] + [sndQueue[last + 1]];
      }
    }

    method Enqueue(seg: Frag)
      requires nsndQue == Wrap(|sndQueue|)
      modifies this`sndQueue, this`nsndQue
      ensures sndQueue == old(sndQueue) + [seg] && nsndQue == Wrap(|sndQueue|)
    {
      hide Wrap;
      sndQueue := sndQueue + [seg];
      nsndQue := Wrap(nsndQue + 1);
      WrapPlus(|sndQueue| - 1, 1);
    }

    /** The fragment loop of ikcp_send. */
    method CutUp(rest: seq<byte>, count: int)
      requires cfg.Valid() && nsndQue == Wrap(|sndQueue|)
      requires count == Spec.Count(cfg.Mss(), |rest|) < WND_RCV
      modifies this`sndQueue, this`nsndQue
      ensures |rest| <= (WND_RCV - 1) * cfg.Mss()
      ensures sndQueue == old(sndQueue) + Spec.Split(cfg.Mss(), cfg.stream, rest)
      ensures nsndQue == Wrap(|sndQueue|)
    {
      hide Spec.Count, Spec.Split, Wrap;
      var mss := cfg.Mss();
      Spec.CountFits(mss, |rest|);
      Spec.SplitCount(mss, cfg.stream, rest);
      ghost var fs := Spec.Split(mss, cfg.stream, rest);
      var i, left := 0, rest;
      while i < count
        invariant 0 <= i <= count == |fs|
        invariant |left| <= (WND_RCV - 1) * mss
        invariant i < count ==> fs[i..] == Spec.Split(mss, cfg.stream, left)
        invariant sndQueue == old(sndQueue) + fs[..i]
        invariant nsndQue == Wrap(|sndQueue|)
      {
        NextFrag(mss, cfg.stream, left, fs, i);
        var size := if |left| > mss then mss else |left|;
        Enqueue(Frag(if !cfg.stream then count - i - 1 else 0, left[..size]));
        left := left[size..];
        i := i + 1;
      }
    }

    // ----- acknowledgements

    /** ikcp_shrink_buf */
    method ShrinkBuf()
      modifies this`sndUna
      ensures Snd() == Spec.Shrink(old(Snd()))
    {
      if sndBuf != [] {
        sndUna := sndBuf[0].sn;
      } else {
        sndUna := sndNxt;
      }
    }

    /** ikcp_parse_una */
    method ParseUna(una: u32)
      requires nsndBuf == |sndBuf|
      modifies this`sndBuf, this`nsndBuf
      ensures sndBuf == Spec.DropBelow(old(sndBuf), una) && nsndBuf == |sndBuf|
    {
      while sndBuf != []
        invariant Spec.DropBelow(sndBuf, una) == Spec.DropBelow(old(sndBuf), una) && nsndBuf == |sndBuf|
        decreases |sndBuf|
      {
        if Diff(una, sndBuf[0].sn) > 0 {
          sndBuf := sndBuf[1..];
          nsndBuf := nsndBuf - 1;
        } else {
          break;
        }
      }
    }

    /** ikcp_parse_ack */
    method ParseAck(sn: u32)
      requires nsndBuf == |sndBuf|
      modifies this`sndBuf, this`nsndBuf
      ensures Snd() == Spec.ParseAck(old(Snd()), sn) && nsndBuf == |sndBuf|
    {
      hide Diff;
      if Diff(sn, sndUna) < 0 || Diff(sn, sndNxt) >= 0 { return; }
      ghost var s := Snd();
      var p := 0;
      while p < |sndBuf|
        invariant 0 <= p <= |sndBuf| && Snd() == s && nsndBuf == |sndBuf|
        invariant Spec.FindAcked(s.buf, sn, p) == Spec.FindAcked(s.buf, sn, 0)
      {
        var seg := sndBuf[p];
        if sn == seg.sn {
          sndBuf := sndBuf[..p] + sndBuf[p + 1..];
          nsndBuf := nsndBuf - 1;
          return;
        }
        if Diff(sn, seg.sn) < 0 { return; }
        p := p + 1;
      }
    }

    /** ikcp_parse_fastack */
    method ParseFastack(sn: u32, ts: u32)
      modifies this`sndBuf
      ensures Snd() == Spec.ParseFastack(old(Snd()), sn, ts)
    {
      if Diff(sn, sndUna) < 0 || Diff(sn, sndNxt) >= 0 { return; }
      CountSkips(sn, ts);
    }

    method CountSkips(sn: u32, ts: u32)
      modifies this`sndBuf
      ensures sndBuf == Spec.SkipCount(old(sndBuf), sn, ts)
    {
      hide Diff, Wrap, Spec.SkipCount;
      ghost var buf := sndBuf;
      var p := 0;
      while p < |sndBuf|
        invariant 0 <= p <= |sndBuf| == |buf|
        invariant forall k :: 0 <= k < p ==> Diff(sn, buf[k].sn) >= 0 && sndBuf[k] == Spec.SkipCount(buf, sn, ts)[k]
        invariant forall k :: p <= k < |buf| ==> sndBuf[k] == buf[k]
      {
        SkipAt(buf, sn, ts, p);
        var seg := sndBuf[p];
        if Diff(sn, seg.sn) < 0 {
          break;
        } else if sn != seg.sn && Diff(ts, seg.ts) >= 0 {
          sndBuf := sndBuf[p := seg.(fastack := Wrap(seg.fastack + 1))];
        }
        p := p + 1;
      }
    }

    // ----- data arriving

    /** A larger acknowledgement array with the same content. */
    method GrowAcklist()
      requires acklist.Length == 2 * ackblock && ackcount <= ackblock
      modifies this`acklist, this`ackblock
      ensures acklist.Length == 2 * ackblock && ackcount < ackblock && fresh(acklist)
      ensures acklist[..2 * ackcount] == old(acklist[..2 * ackcount])
      ensures IsBlock(ackblock, ackcount + 1)
    {
      var newblock := 8;
      ghost var doublings: nat := 0;
      while newblock <= ackcount
        invariant newblock == Doubled(8, doublings) && (newblock == 8 || newblock / 2 < ackcount + 1) && newblock > 0
      {
        doublings := doublings + 1;
        newblock := newblock * 2;
      }
      var list := new u32[2 * newblock];
      var x := 0;
      while x < ackcount
        invariant 0 <= x <= ackcount
        invariant forall k :: 0 <= k < 2 * x ==> list[k] == acklist[k]
        modifies list
      {
        list[2 * x], list[2 * x + 1] := acklist[2 * x], acklist[2 * x + 1];
        x := x + 1;
      }
      assert list[..2 * ackcount] == acklist[..2 * ackcount];
      acklist, ackblock := list, newblock;
    }

    /** ikcp_ack_push: appending to the acknowledgement array, in a larger one when it is full. */
    method AckPush(sn: u32, ts: u32)
      requires acklist.Length == 2 * ackblock && ackcount <= ackblock && (acklist as object) != buffer
      modifies this`acklist, this`ackcount, this`ackblock, acklist
      ensures acklist.Length == 2 * ackblock && ackcount <= ackblock && (acklist as object) != buffer
      ensures Acks() == old(Acks()) + [Ack(sn, ts)]
      ensures if old(ackcount) < old(ackblock) then acklist == old(acklist) && ackblock == old(ackblock)
              else fresh(acklist) && IsBlock(ackblock, old(ackcount) + 1)
    {
      hide AckPairs;
      ghost var words := acklist[..2 * ackcount];
      if ackcount + 1 > ackblock { GrowAcklist(); }
      acklist[2 * ackcount] := sn;
      acklist[2 * ackcount + 1] := ts;
      ackcount := ackcount + 1;
      assert acklist[..2 * ackcount] == words + [sn, ts];
      AckPairsSnoc(words, sn, ts);
    }

    /** ikcp_parse_data */
    method ParseData(newseg: InSeg)
      requires 2 * ackcount <= acklist.Length
      requires nrcvBuf == |rcvBuf| < UINT_MAX && nrcvQue == |rcvQueue|
      modifies this`rcvBuf, this`rcvQueue, this`rcvNxt, this`nrcvBuf, this`nrcvQue
      ensures Rcv() == Spec.ParseData(old(Rcv()), cfg.rcvWnd, newseg)
      ensures nrcvBuf == |rcvBuf| && nrcvQue == |rcvQueue|
    {
      hide Diff, Wrap, Spec.Release, Spec.Locate;
      var sn := newseg.sn;
      if Diff(sn, Wrap(rcvNxt + cfg.rcvWnd)) >= 0 || Diff(sn, rcvNxt) < 0 { return; }
      ghost var r := Rcv();
      var p, repeat := Scan(sn);
      if !repeat {
        rcvBuf := rcvBuf[..p] + [newseg] + rcvBuf[p..];
        nrcvBuf := nrcvBuf + 1;
      }
      assert Rcv() == r.(buf := Spec.Insert(r.buf, newseg));
      MoveAvailable();
    }

    /** The backward scan of rcv_buf. */
    method Scan(sn: u32) returns (p: nat, repeat: bool)
      ensures Spec.Locate(rcvBuf, sn, |rcvBuf|) == if repeat then Spec.Repeat else Spec.At(p)
      ensures p <= |rcvBuf|
    {
      hide Diff;
      p, repeat := |rcvBuf|, false;
      while p > 0
        invariant p <= |rcvBuf| && Spec.Locate(rcvBuf, sn, p) == Spec.Locate(rcvBuf, sn, |rcvBuf|)
      {
        if rcvBuf[p - 1].sn == sn { return p, true; }
        if Diff(sn, rcvBuf[p - 1].sn) > 0 { return; }
        p := p - 1;
      }
    }

    /** The PUSH branch of ikcp_input. */
    method TakePush(w: Wire)
      requires Valid()
      modifies this`rcvBuf, this`rcvQueue, this`rcvNxt, this`nrcvBuf, this`nrcvQue, this`acklist, this`ackcount,
        this`ackblock, acklist
      ensures Counted() && Rcv() == Spec.ApplyPush(old(Rcv()), cfg.rcvWnd, w)
      ensures acklist == old(acklist) || fresh(acklist)
    {
      hide Diff, Spec.ParseData, CbOk, Wrap;
      ghost var r := Rcv();
      RoomForOne(View());
      if Diff(w.sn, Wrap(rcvNxt + cfg.rcvWnd)) < 0 {
        AckPush(w.sn, w.ts);
        assert Rcv() == r.(acks := r.acks + [Ack(w.sn, w.ts)]);
        if Diff(w.sn, rcvNxt) >= 0 {
          ParseData(InSeg(w.sn, Frag(w.frg, w.data)));
        }
      }
    }

    /** What every command does first: window, cumulative acknowledgement, snd_una. */
    method TakeUna(w: Wire)
      requires Valid()
      modifies this`sndUna, this`sndBuf, this`nsndBuf, this`pace
      ensures Valid() && View() == Spec.ApplyUna(old(View()), w)
    {
      hide Diff, CbOk, Wrap, Spec.DropBelow, Spec.Shrink;
      UnaKeeps(View(), w);
      pace := pace.(rmtWnd := w.wnd);
      ParseUna(w.una);
      ShrinkBuf();
    }

    /** The ACK branch of ikcp_input. */
    method TakeAck(w: Wire)
      requires Valid()
      modifies this`sndUna, this`sndBuf, this`nsndBuf, this`pace
      ensures Counted() && Rcv() == old(Rcv()) && Snd() == Spec.Shrink(Spec.ParseAck(old(Snd()), w.sn))
      ensures var rtt := Diff(old(pace).current, w.ts);
        pace == if rtt >= 0 then Spec.UpdateAck(cfg, old(pace), rtt) else old(pace)
    {
      hide Diff, CbOk, Wrap, Spec.UpdateAck, Spec.ParseAck, Spec.Shrink;
      if Diff(pace.current, w.ts) >= 0 {
        pace := Spec.UpdateAck(cfg, pace, Diff(pace.current, w.ts));
      }
      ParseAck(w.sn);
      ShrinkBuf();
    }

    /** One turn of the receive loop of ikcp_input; `m` stands for flag, maxack and latest_ts. */
    method TakeSegment(w: Wire, m: Spec.MaxAck) returns (m': Spec.MaxAck)
      requires Valid() && KnownCmd(w.cmd)
      modifies this, acklist
      ensures Valid()
      ensures Spec.ApplyWire(Spec.Reading(old(View()), m), w) == Spec.Reading(View(), m')
      ensures acklist == old(acklist) || fresh(acklist)
    {
      hide Diff, CbOk, Wrap, Spec.UpdateAck, Spec.TrackAck, Spec.ApplyPush, Spec.ParseAck, Spec.ApplyUna, Spec.Shrink,
        Spec.ApplyWire;
      ghost var g := Spec.Reading(View(), m);
      ApplyWireOk(g, w);
      WireCases(g, w);
      m' := m;
      TakeUna(w);
      if w.cmd == CMD_ACK {
        TakeAck(w);
        m' := Spec.TrackAck(m, w);
      } else if w.cmd == CMD_PUSH {
        TakePush(w);
      } else if w.cmd == CMD_WASK {
        pace := pace.(askTell := true);
      }
      assert View() == Spec.ApplyWire(g, w).cb;
    }

    /** ikcp_input */
    method Input(data: seq<byte>) returns (code: int)
      requires Valid()
      modifies this, acklist
      ensures Valid()
      ensures Spec.Input(old(View()), data) == (View(), code)
      ensures acklist == old(acklist) || fresh(acklist)
    {
      hide CbOk, Diff, Spec.ApplyWire, Spec.ApplyAll, Parse, DecodeHeader, Spec.ParseFastack, Spec.Grow;
      if |data| < OVERHEAD { return -1; }
      ghost var cb := View();
      assert cb.cfg.Valid();
      var prevUna := sndUna;
      var m := Spec.NoAck;
      var i := 0;
      ghost var p := Parse(cfg.conv, data);
      ghost var g := Spec.ApplyAll(Spec.Reading(cb, Spec.NoAck), p.segs);
      InputCases(cb, data);
      assert data[0..] == data;
      while |data| - i >= OVERHEAD
        invariant 0 <= i <= |data| && Valid()
        invariant acklist == old(acklist) || fresh(acklist)
        invariant Parse(cfg.conv, data[i..]).code == p.code
        invariant Spec.ApplyAll(Spec.Reading(View(), m), Parse(cfg.conv, data[i..]).segs) == g
      {
        ParseTurn(cfg.conv, data, i);
        ApplyTurn(Spec.Reading(View(), m), Parse(cfg.conv, data[i..]).segs);
        var (w, len) := DecodeHeader(data[i..]);
        if w.conv != cfg.conv { return -1; }
        i := i + OVERHEAD;
        if |data| - i < len || len >= HALF { return -2; }
        if !KnownCmd(w.cmd) { return -3; }
        w := w.(data := data[i..i + len]);
        m := TakeSegment(w, m);
        i := i + len;
      }
      ParseEnd(cfg.conv, data, i);
      ApplyTurn(Spec.Reading(View(), m), []);
      assert Spec.Reading(View(), m) == g;
      Finish(m, prevUna);
      return 0;
    }

    /** What ikcp_input does after its loop. */
    method Finish(m: Spec.MaxAck, prevUna: u32)
      requires Valid()
      modifies this`sndBuf, this`pace
      ensures Valid()
      ensures View() == Spec.Settle(Spec.Reading(old(View()), m), prevUna)
    {
      hide CbOk, Diff, Spec.ParseFastack, Spec.Grow;
      ghost var cb := View();
      SettleOk(Spec.Reading(cb, m), prevUna);
      FastackSame(cb.snd, m);
      if m.MaxAck? { ParseFastack(m.sn, m.ts); }
      if Diff(sndUna, prevUna) > 0 {
        pace := Spec.Grow(cfg, pace);
      }
      assert View() == Spec.Settle(Spec.Reading(cb, m), prevUna);
    }

    // ----- ikcp_flush

    /** Segments lo..i of `ws` are encoded in the first `ptr` bytes of the buffer and `out` has been
        sent; what remains to be sent completes the batching of `ws`. */
    ghost predicate Filling(ws: seq<Wire>, lo: nat, i: nat, ptr: nat, out: seq<seq<byte>>)
      reads buffer
    {
      && lo <= i <= |ws| && ptr <= cfg.mtu <= buffer.Length
      && (forall k :: 0 <= k < |ws| ==> Need(ws[k]) <= cfg.mtu)
      && buffer[..ptr] == EncodeAll(ws[lo..i])
      && out + Batches(cfg.mtu, ws, lo, i) == Batches(cfg.mtu, ws, 0, 0)
    }

    /** ikcp_encode_seg and the copy of the payload, after sending a buffer that has no room. */
    method Emit(w: Wire, ptr: nat, out: seq<seq<byte>>, ghost ws: seq<Wire>, ghost lo: nat, ghost i: nat)
        returns (ptr': nat, out': seq<seq<byte>>, ghost lo': nat)
      requires i < |ws| && ws[i] == w && Filling(ws, lo, i, ptr, out)
      modifies buffer
      ensures Filling(ws, lo', i + 1, ptr', out')
    {
      hide Encode, Batches, Header, EncodeAll;
      ptr', out', lo' := MakeRoom(w, ptr, out, ws, lo, i);
      EncodeNext(ws, lo', i);
      var bytes := Encode(w);
      Store(ptr', bytes);
      ptr' := ptr' + |bytes|;
    }

    /** A buffer without room for the segment is sent and emptied. */
    method MakeRoom(w: Wire, ptr: nat, out: seq<seq<byte>>, ghost ws: seq<Wire>, ghost lo: nat, ghost i: nat)
        returns (ptr': nat, out': seq<seq<byte>>, ghost lo': nat)
      requires i < |ws| && ws[i] == w && Filling(ws, lo, i, ptr, out)
      ensures lo' <= i && ptr' + Need(w) <= cfg.mtu && buffer[..ptr'] == EncodeAll(ws[lo'..i])
      ensures out' + Batches(cfg.mtu, ws, lo', i + 1) == Batches(cfg.mtu, ws, 0, 0)
    {
      hide Encode, Batches, Header;
      BatchesStep(cfg.mtu, ws, lo, i);
      ptr', out', lo' := ptr, out, lo;
      if ptr + (OVERHEAD + |w.data|) > cfg.mtu {
        if ptr > 0 { out' := out + [buffer[..ptr]]; }
        ptr', lo' := 0, i;
      }
      assert ws[i..i] == [];
    }

    /** Copying bytes into the buffer behind what is there. */
    method Store(ptr: nat, bytes: seq<byte>)
      requires ptr + |bytes| <= buffer.Length
      modifies buffer
      ensures buffer[..ptr + |bytes|] == old(buffer[..ptr]) + bytes
    {
      forall k | 0 <= k < |bytes| { buffer[ptr + k] := bytes[k]; }
    }

    /** Sending what is left in the buffer. */
    method SendRest(ptr: nat, out: seq<seq<byte>>, ghost ws: seq<Wire>, ghost lo: nat) returns (out': seq<seq<byte>>)
      requires Filling(ws, lo, |ws|, ptr, out)
      ensures out' == Batches(cfg.mtu, ws, 0, 0)
    {
      BatchesStep(cfg.mtu, ws, lo, |ws|);
      out' := if ptr > 0 then out + [buffer[..ptr]] else out;
    }

    /** Writing the acknowledgements owed. */
    method FlushAcks(wnd: u32, ghost ws: seq<Wire>) returns (ptr: nat, out: seq<seq<byte>>, ghost lo: nat, last: Ack)
      requires Counted() && Filling(ws, 0, 0, 0, []) && wnd == Spec.WndUnused(View())
      requires Spec.AckWires(View()) <= ws
      modifies this`ackcount, buffer
      ensures Counted() && View() == old(View()).(rcv := old(Rcv()).(acks := []))
      ensures Filling(ws, lo, old(ackcount), ptr, out)
      ensures last == if old(Acks()) == [] then Ack(0, 0) else old(Acks())[old(ackcount) - 1]
    {
      hide Batches, EncodeAll, Wrap, Filling, Spec.AckWires, Spec.WndUnused;
      ptr, out, lo, last := 0, [], 0, Ack(0, 0);
      ghost var cb := View();
      var k := 0;
      while k < ackcount
        invariant 0 <= k <= ackcount
        invariant Filling(ws, lo, k, ptr, out)
        invariant last == if k == 0 then Ack(0, 0) else cb.rcv.acks[k - 1]
        invariant View() == cb && acklist[..] == old(acklist[..])
        modifies buffer
      {
        last := Ack(acklist[2 * k], acklist[2 * k + 1]);
        AckAt(acklist[..2 * ackcount], k);
        var w := Wire(cfg.conv, CMD_ACK, 0, wnd % 0x1_0000, last.ts, last.sn, rcvNxt, []);
        AckWireIs(cb, w, ws, k);
        ptr, out, lo := Emit(w, ptr, out, ws, lo, k);
        k := k + 1;
      }
      ackcount := 0;
    }

    /** Writing WASK and WINS when they are wanted. */
    method FlushProbes(wnd: u32, last: Ack, ghost cb: Cb, ghost ws: seq<Wire>, ghost i: nat,
                       ptr: nat, out: seq<seq<byte>>, ghost lo: nat)
        returns (ptr': nat, out': seq<seq<byte>>, ghost lo': nat)
      requires cb.cfg == cfg && cb.rcv.nxt == rcvNxt && wnd == Spec.WndUnused(cb)
      requires last == if cb.rcv.acks == [] then Ack(0, 0) else cb.rcv.acks[|cb.rcv.acks| - 1]
      requires Filling(ws, lo, i, ptr, out)
      requires Spec.ProbeWires(cb, pace.askSend, pace.askTell) <= ws[i..]
      modifies buffer
      ensures Filling(ws, lo', i + |Spec.ProbeWires(cb, pace.askSend, pace.askTell)|, ptr', out')
    {
      hide Batches, EncodeAll, Wrap, Filling;
      ghost var pw := Spec.ProbeWires(cb, pace.askSend, pace.askTell);
      ghost var at := i;
      FillingRange(ws, lo, i, ptr, out);
      assert forall k :: 0 <= k < |pw| ==> i + k < |ws| && ws[i + k] == pw[k] by {
        assert forall k :: 0 <= k < |pw| ==> ws[i..][k] == ws[i + k];
      }
      ptr', out', lo' := ptr, out, lo;
      if pace.askSend {
        assert pw[0] == Spec.Control(cb, CMD_WASK, last.sn, last.ts);
        var w := Wire(cfg.conv, CMD_WASK, 0, wnd % 0x1_0000, last.ts, last.sn, rcvNxt, []);
        ptr', out', lo' := Emit(w, ptr', out', ws, lo', at);
        at := at + 1;
      }
      if pace.askTell {
        assert pw[at - i] == Spec.Control(cb, CMD_WINS, last.sn, last.ts);
        var w := Wire(cfg.conv, CMD_WINS, 0, wnd % 0x1_0000, last.ts, last.sn, rcvNxt, []);
        ptr', out', lo' := Emit(w, ptr', out', ws, lo', at);
      }
    }

    lemma FillingStart(ws: seq<Wire>)
      requires Counted() && forall k :: 0 <= k < |ws| ==> Need(ws[k]) <= cfg.mtu
      ensures Filling(ws, 0, 0, 0, [])
    {
      hide Batches, Need;
      assert ws[0..0] == [];
    }

    lemma FillingRange(ws: seq<Wire>, lo: nat, i: nat, ptr: nat, out: seq<seq<byte>>)
      requires Filling(ws, lo, i, ptr, out)
      ensures i <= |ws|
    {
    }

    /** One fragment gets its number. */
    method NumberNext(wnd: u32)
      requires sndQueue != [] && nsndBuf == |sndBuf| < UINT_MAX && nsndQue == Wrap(|sndQueue|)
      modifies this`sndNxt, this`sndBuf, this`sndQueue, this`nsndBuf, this`nsndQue
      ensures nsndBuf == |sndBuf| && nsndQue == Wrap(|sndQueue|)
      ensures var s := old(Snd());
        var newseg := OutSeg(s.queue[0], wnd, pace.current, s.nxt, rcvNxt, pace.current, pace.rto, 0, 0);
        Snd() == Sender(s.una, Wrap(s.nxt + 1), s.buf + [newseg], s.queue[1..])
    {
      hide Wrap;
      var newseg := OutSeg(sndQueue[0], wnd, pace.current, sndNxt, rcvNxt, pace.current, pace.rto, 0, 0);
      sndQueue := sndQueue[1..];
      sndBuf := sndBuf + [newseg];
      nsndQue := Wrap(nsndQue - 1);
      WrapPlus(|sndQueue| + 1, -1);
      nsndBuf := nsndBuf + 1;
      sndNxt := Wrap(sndNxt + 1);
    }

    /** Moving fragments from snd_queue to snd_buf while the window has room. */
    method AdmitSegments(window: u32, wnd: u32, ghost cb: Cb)
      requires Counted() && SenderOk(cfg, Snd()) && window <= cfg.sndWnd && Snd() == cb.snd
      requires wnd == Spec.WndUnused(cb) && cb.rcv.nxt == rcvNxt
      modifies this`sndNxt, this`sndBuf, this`sndQueue, this`nsndBuf, this`nsndQue
      ensures Counted() && Snd() == Spec.Admit(cb, pace, Spec.AdmitCount(cb.snd, window))
    {
      hide Diff, Wrap, SenderOk, Spec.Admit, Spec.AdmitCount;
      ghost var n, j := Spec.AdmitCount(cb.snd, window), 0;
      AdmitStart(cb, pace);
      AdmitTest(cfg, cb, pace, window, j);
      while Diff(sndNxt, Wrap(sndUna + window)) < 0
        invariant 0 <= j <= n <= |cb.snd.queue| && Snd() == Spec.Admit(cb, pace, j)
        invariant nsndBuf == |sndBuf| < UINT_MAX && nsndQue == Wrap(|sndQueue|)
        invariant j < n <==> sndQueue != [] && Diff(sndNxt, Wrap(sndUna + window)) < 0
        decreases |sndQueue|
      {
        if sndQueue == [] { break; }
        AdmitNext(cb, pace, j);
        NumberNext(wnd);
        j := j + 1;
        AdmitTest(cfg, cb, pace, window, j);
      }
    }

    /** Deciding about one segment and bringing its fields up to date. */
    method Touch(seg: OutSeg, wnd: u32, ghost cb: Cb) returns (why: Spec.Why, seg': OutSeg)
      requires cb.cfg == cfg && cb.rcv.nxt == rcvNxt && wnd == Spec.WndUnused(cb)
      ensures why == Spec.Decide(cfg, pace, seg) && seg' == Spec.Transmit(cb, pace, seg)
    {
      hide Diff, Wrap, ToI32, Spec.WndUnused;
      var resent := if cfg.fastresend > 0 then cfg.fastresend else UINT_MAX;
      var rtomin := if cfg.nodelay == 0 then pace.rto / 8 else 0;
      why, seg' := Spec.Keep, seg;
      if seg.xmit == 0 {
        why := Spec.First;
        seg' := seg'.(xmit := Wrap(seg.xmit + 1), rto := pace.rto);
        seg' := seg'.(resendts := Wrap(pace.current + seg'.rto + rtomin));
      } else if Diff(pace.current, seg.resendts) >= 0 {
        why := Spec.Timeout;
        var rto := Spec.BackedOff(cfg, pace, seg.rto);
        seg' := seg'.(xmit := Wrap(seg.xmit + 1), rto := rto, resendts := Wrap(pace.current + rto));
      } else if seg.fastack >= resent {
        if ToI32(seg.xmit) <= cfg.fastlimit || cfg.fastlimit <= 0 {
          why := Spec.Fast;
          seg' := seg'.(xmit := Wrap(seg.xmit + 1), fastack := 0, resendts := Wrap(pace.current + seg.rto));
        }
      }
      if why != Spec.Keep {
        seg' := seg'.(ts := pace.current, wnd := wnd, una := rcvNxt);
      }
    }

    method EmitSegment(segment: OutSeg, ghost cb: Cb, ptr: nat, out: seq<seq<byte>>,
                       ghost ws: seq<Wire>, ghost lo: nat, ghost i: nat)
        returns (ptr': nat, out': seq<seq<byte>>, ghost lo': nat)
      requires cb.cfg == cfg && i < |ws| && ws[i] == Spec.WireOf(cb, segment) && Filling(ws, lo, i, ptr, out)
      modifies buffer
      ensures Filling(ws, lo', i + 1, ptr', out')
    {
      hide Filling, Spec.WireOf;
      WireIs(cb, segment);
      var w := Wire(cfg.conv, CMD_PUSH, segment.frag.frg, segment.wnd % 0x1_0000, segment.ts, segment.sn, segment.una,
                    segment.frag.data);
      ptr', out', lo' := Emit(w, ptr, out, ws, lo, i);
    }

    /** Writing a segment if it is due; `rest` is what remains to be written. */
    method EmitDue(due: bool, segment: OutSeg, ghost cb: Cb, ptr: nat, out: seq<seq<byte>>,
                   ghost ws: seq<Wire>, ghost lo: nat, ghost i: nat, ghost rest: seq<Wire>)
        returns (ptr': nat, out': seq<seq<byte>>, ghost lo': nat, ghost i': nat)
      requires cb.cfg == cfg && i <= |ws| && Filling(ws, lo, i, ptr, out)
      requires ws[i..] == (if due then [Spec.WireOf(cb, segment)] + rest else rest)
      modifies buffer
      ensures i' <= |ws| && Filling(ws, lo', i', ptr', out') && ws[i'..] == rest
    {
      hide Filling, Spec.WireOf;
      ptr', out', lo', i' := ptr, out, lo, i;
      if due {
        NextWire(ws, i);
        ptr', out', lo' := EmitSegment(segment, cb, ptr, out, ws, lo, i);
        i' := i + 1;
      }
    }

    /** The loop over what was `buf` has dealt with j segments. */
    ghost predicate Transmitting(cb: Cb, buf: seq<OutSeg>, j: nat, ws: seq<Wire>, lo: nat, i: nat, ptr: nat,
                                 out: seq<seq<byte>>, t: Spec.Tally)
      reads this, buffer
    {
      && j <= |sndBuf| == |buf| && i <= |ws|
      && sndBuf == Spec.TransmitAll(cb, pace, buf[..j]) + buf[j..]
      && Filling(ws, lo, i, ptr, out)
      && ws[i..] == Spec.DataWires(cb, pace, buf[j..])
      && t == Spec.TallyOf(cb, pace, buf[..j])
    }

    /** A turn of that loop. */
    method TransmitOne(j: nat, wnd: u32, ghost cb: Cb, ghost buf: seq<OutSeg>, ghost ws: seq<Wire>, ghost lo: nat,
                       ghost i: nat, ptr: nat, out: seq<seq<byte>>, t: Spec.Tally)
        returns (ptr': nat, out': seq<seq<byte>>, ghost lo': nat, ghost i': nat, t': Spec.Tally)
      requires cb.cfg == cfg && cb.rcv.nxt == rcvNxt && wnd == Spec.WndUnused(cb) && j < |sndBuf|
      requires Transmitting(cb, buf, j, ws, lo, i, ptr, out, t)
      modifies this`sndBuf, buffer
      ensures Transmitting(cb, buf, j + 1, ws, lo', i', ptr', out', t') && |sndBuf| == |buf|
    {
      hide Batches, EncodeAll, Wrap, Filling, Spec.Decide, Spec.Transmit, Spec.TransmitAll, Spec.WireOf, Spec.WndUnused,
        Spec.DataWires, Spec.TallyOf, Tallied;
      DataStep(cb, pace, buf, j);
      TallyStep(cb, pace, buf, j);
      TransmitStep(cb, pace, buf, j);
      var why, segment := Touch(sndBuf[j], wnd, cb);
      sndBuf := sndBuf[j := segment];
      ghost var rest := Spec.DataWires(cb, pace, buf[j + 1..]);
      ptr', out', lo', i' := EmitDue(why != Spec.Keep, segment, cb, ptr, out, ws, lo, i, rest);
      t' := Tallied(t, why, segment.xmit, cfg.deadLink);
    }

    /** The transmission loop over snd_buf. */
    method TransmitSegments(wnd: u32, ghost cb: Cb, ghost ws: seq<Wire>, ghost i: nat,
                            ptr: nat, out: seq<seq<byte>>, ghost lo: nat)
        returns (ptr': nat, out': seq<seq<byte>>, ghost lo': nat, t: Spec.Tally)
      requires cb.cfg == cfg && cb.rcv.nxt == rcvNxt && wnd == Spec.WndUnused(cb)
      requires Filling(ws, lo, i, ptr, out) && ws[i..] == Spec.DataWires(cb, pace, sndBuf)
      modifies this`sndBuf, buffer
      ensures sndBuf == Spec.TransmitAll(cb, pace, old(sndBuf))
      ensures Filling(ws, lo', |ws|, ptr', out')
      ensures t == Spec.TallyOf(cb, pace, old(sndBuf))
    {
      hide Batches, EncodeAll, Wrap, Filling, Spec.TransmitAll, Spec.WndUnused, Spec.DataWires, Spec.TallyOf;
      ptr', out', lo', t := ptr, out, lo, Spec.Tally(0, 0, false);
      ghost var buf: seq<OutSeg>, at: nat := sndBuf, i;
      FillingRange(ws, lo, i, ptr, out);
      TallyNone(cb, pace, buf);
      DataStep(cb, pace, buf, 0);
      var j := 0;
      while j < |sndBuf|
        invariant |sndBuf| == |buf| && Transmitting(cb, buf, j, ws, lo', at, ptr', out', t)
        decreases |buf| - j
      {
        ptr', out', lo', at, t := TransmitOne(j, wnd, cb, buf, ws, lo', at, ptr', out', t);
        j := j + 1;
      }
      DataStep(cb, pace, buf, j);
      assert buf[..j] == buf;
    }

    /** Acknowledgements and window probes. */
    method FlushControl(wnd: u32, ghost cb: Cb, ghost ws: seq<Wire>)
        returns (ptr: nat, out: seq<seq<byte>>, ghost lo: nat, ghost i: nat)
      requires Counted() && Filling(ws, 0, 0, 0, []) && View() == cb && wnd == Spec.WndUnused(cb)
      requires var p := Spec.Probe(cb.pace);
        Spec.AckWires(cb) + Spec.ProbeWires(cb, p.askSend, p.askTell) <= ws
      modifies this`ackcount, this`pace, buffer
      ensures Counted() && View() == cb.(rcv := cb.rcv.(acks := []), pace := Spec.Probe(cb.pace))
      ensures i == |Spec.AckWires(cb)| + |Spec.ProbeWires(cb, pace.askSend, pace.askTell)|
      ensures Filling(ws, lo, i, ptr, out)
    {
      hide Filling, Batches, Spec.AckWires, Spec.ProbeWires, Spec.Probe, Spec.WndUnused, Wrap;
      var last;
      i := ackcount;
      ptr, out, lo, last := FlushAcks(wnd, ws);
      pace := Spec.Probe(pace);
      TwoPrefixes(Spec.AckWires(cb), Spec.ProbeWires(cb, pace.askSend, pace.askTell), ws);
      ptr, out, lo := FlushProbes(wnd, last, cb, ws, i, ptr, out, lo);
      i := i + |Spec.ProbeWires(cb, pace.askSend, pace.askTell)|;
    }

    /** Admission, transmission and the last datagram. */
    method FlushData(window: u32, wnd: u32, ghost cb: Cb, ghost ws: seq<Wire>, ghost i: nat,
                     ptr: nat, out: seq<seq<byte>>, ghost lo: nat)
        returns (out': seq<seq<byte>>, t: Spec.Tally)
      requires Counted() && SenderOk(cfg, Snd()) && Snd() == cb.snd && cb.cfg == cfg && cb.rcv.nxt == rcvNxt
      requires window <= cfg.sndWnd && wnd == Spec.WndUnused(cb) && Filling(ws, lo, i, ptr, out)
      requires ws[i..] == Spec.DataWires(cb, pace, Spec.Admit(cb, pace, Spec.AdmitCount(cb.snd, window)).buf)
      modifies this`sndNxt, this`sndBuf, this`sndQueue, this`nsndBuf, this`nsndQue, buffer
      ensures var snd := Spec.Admit(cb, pace, Spec.AdmitCount(cb.snd, window));
        Snd() == snd.(buf := Spec.TransmitAll(cb, pace, snd.buf)) && t == Spec.TallyOf(cb, pace, snd.buf)
      ensures Counted() && out' == Batches(cfg.mtu, ws, 0, 0)
    {
      hide Filling, Batches, Spec.Admit, Spec.AdmitCount, Spec.WndUnused, Spec.DataWires, Wrap;
      AdmitSegments(window, wnd, cb);
      var ptr';
      ghost var lo';
      ptr', out', lo', t := TransmitSegments(wnd, cb, ws, i, ptr, out, lo);
      out' := SendRest(ptr', out', ws, lo');
    }

    /** ikcp_flush; `out` lists the datagrams passed to the output callback. */
    method Flush() returns (out: seq<seq<byte>>)
      requires Valid()
      modifies this`sndNxt, this`sndBuf, this`sndQueue, this`nsndBuf, this`nsndQue, this`ackcount, this`pace, buffer
      ensures Valid()
      ensures View() == Spec.Flush(old(View())).cb
      ensures out == Timing.FlushDatagrams(old(View()))
    {
      hide CbOk, Batches, Spec.Flush;
      ghost var cb := View();
      FlushOk(cb);
      ghost var ws := Spec.Flush(cb).wires;
      StartFilling(cb);
      if !pace.updated {
        IdleBatches(cb);
        return [];
      }
      out := FlushAll(cb, ws);
    }

    /** The body of ikcp_flush, after the check that ikcp_update has been called. */
    method FlushAll(ghost cb: Cb, ghost ws: seq<Wire>) returns (out: seq<seq<byte>>)
      requires Counted() && SenderOk(cfg, Snd()) && View() == cb && pace.updated && ws == Spec.Flush(cb).wires
      requires forall k :: 0 <= k < |ws| ==> Need(ws[k]) <= cfg.mtu
      modifies this`sndNxt, this`sndBuf, this`sndQueue, this`nsndBuf, this`nsndQue, this`ackcount, this`pace, buffer
      ensures Counted() && View() == Spec.Flush(cb).cb
      ensures out == Batches(cfg.mtu, ws, 0, 0)
    {
      hide CbOk, Filling, Batches, Spec.Flush, Spec.Congest, Spec.WndUnused, Spec.SendWindow, Admitted, Wrap,
        Spec.AckWires, Spec.ProbeWires, Spec.DataWires, Spec.TransmitAll, Spec.TallyOf, Spec.Probe, SenderOk;
      FlushParts(cb);
      FillingStart(ws);
      var wnd := if nrcvQue < cfg.rcvWnd then cfg.rcvWnd - nrcvQue else 0;
      WndIs(cb, wnd);
      var ptr;
      ghost var lo, i;
      ptr, out, lo, i := FlushControl(wnd, cb, ws);
      ghost var p := pace;
      var window := Spec.SendWindow(cfg, pace);
      DataAfter(cb, p);
      var t;
      out, t := FlushData(window, wnd, cb, ws, i, ptr, out, lo);
      pace := Spec.Congest(cfg, pace.(askSend := false, askTell := false), t, Wrap(sndNxt - sndUna), window);
    }

    // ----- the clock

    /** Setting the clock and the flush timer; `due` says whether to flush. */
    method Advance(now: u32) returns (due: bool)
      requires cfg.Valid()
      modifies this`pace
      ensures due == Spec.FlushDue(old(pace), now) && pace == Spec.Tick(cfg, old(pace), now)
    {
      hide Diff, Wrap;
      SelfDiff(now);
      pace := pace.(current := now);
      if !pace.updated {
        pace := pace.(updated := true, tsFlush := now);
      }
      var slap := Diff(now, pace.tsFlush);
      if slap >= 10000 || slap < -10000 {
        pace := pace.(tsFlush := now);
        slap := 0;
      }
      due := slap >= 0;
      if due {
        pace := pace.(tsFlush := Wrap(pace.tsFlush + cfg.interval));
        if Diff(now, pace.tsFlush) >= 0 {
          pace := pace.(tsFlush := Wrap(now + cfg.interval));
        }
      }
    }

    /** ikcp_update */
    method Update(now: u32) returns (out: seq<seq<byte>>)
      requires Valid()
      modifies this`sndNxt, this`sndBuf, this`sndQueue, this`nsndBuf, this`nsndQue, this`ackcount, this`pace, buffer
      ensures Valid()
      ensures View() == Spec.Update(old(View()), now).cb
      ensures out ==
        if Spec.FlushDue(old(pace), now) then
          Timing.FlushDatagrams(old(View()).(pace := Spec.Tick(cfg, old(pace), now)))
        else []
    {
      hide Spec.Flush, Spec.FlushDue, Spec.Tick, Timing.FlushDatagrams, CbOk;
      TickedOk(View(), now);
      var due := Advance(now);
      out := [];
      if due { out := Flush(); }
    }

    /** ikcp_check */
    method Check(now: u32) returns (t: u32)
      requires Valid()
      ensures t == Spec.Check(View(), now)
    {
      hide Diff, Wrap, Spec.NextResend;
      if !pace.updated { return now; }
      var tsFlush := pace.tsFlush;
      if Diff(now, tsFlush) >= 10000 || Diff(now, tsFlush) < -10000 { tsFlush := now; }
      if Diff(now, tsFlush) >= 0 { return now; }
      SelfDiff(now);
      Ahead'(now, tsFlush);
      var tmFlush, tmPacket := Diff(tsFlush, now), 0x7fff_ffff;
      var p := 0;
      assert sndBuf[0..] == sndBuf;
      while p < |sndBuf|
        invariant 0 <= p <= |sndBuf| && tmPacket >= 0
        invariant Spec.NextResend(sndBuf[p..], now, tmPacket) == Spec.NextResend(sndBuf, now, 0x7fff_ffff)
      {
        ResendStep(sndBuf, now, tmPacket, p);
        var diff := Diff(sndBuf[p].resendts, now);
        if diff <= 0 { return now; }
        if diff < tmPacket { tmPacket := diff; }
        p := p + 1;
      }
      ResendStep(sndBuf, now, tmPacket, p);
      var minimal := if tmPacket < tmFlush then tmPacket else tmFlush;
      if minimal >= cfg.interval { minimal := cfg.interval; }
      return Wrap(now + minimal);
    }
  }

  lemma SelfDiff(now: u32)
    ensures Diff(now, now) == 0 && Wrap(now + 0) == now
  {
  }

  lemma Ahead'(now: u32, ts: u32)
    requires Diff(now, ts) < 0 && Diff(now, ts) >= -10000
    ensures Diff(ts, now) > 0
  {
    Timing.DiffFlip(now, ts);
  }

  lemma ResendStep(buf: seq<OutSeg>, now: u32, soonest: int, p: nat)
    requires p <= |buf|
    ensures Spec.NextResend(buf[p..], now, soonest) ==
      if p == |buf| then soonest
      else if Diff(buf[p].resendts, now) <= 0 then 0
      else Spec.NextResend(buf[p + 1..], now, Min(soonest, Diff(buf[p].resendts, now)))
  {
    hide Diff;
    if p < |buf| { assert buf[p..][1..] == buf[p + 1..]; }
  }

  lemma TickedOk(cb: Cb, now: u32)
    requires CbOk(cb)
    ensures CbOk(cb.(pace := Spec.Tick(cb.cfg, cb.pace, now)))
  {
  }

  lemma TwoPrefixes(a: seq<Wire>, b: seq<Wire>, ws: seq<Wire>)
    requires a + b <= ws
    ensures a <= ws && b <= ws[|a|..]
  {
  }

  /** The segments numbered by a flush with pacing p. */
  ghost function Admitted(cb: Cb, p: Pacing): Sender
  {
    Spec.Admit(cb, p, Spec.AdmitCount(cb.snd, Spec.SendWindow(cb.cfg, p)))
  }

  lemma DataAfter(cb: Cb, p: Pacing)
    requires cb.cfg.Valid() && cb.pace.updated && p == Spec.Probe(cb.pace)
    ensures var ws, i := Spec.Flush(cb).wires, |Spec.AckWires(cb)| + |Spec.ProbeWires(cb, p.askSend, p.askTell)|;
      i <= |ws| && ws[i..] == Spec.DataWires(cb, p, Admitted(cb, p).buf)
    ensures Admitted(cb, p) == Spec.Admit(cb, p, Spec.AdmitCount(cb.snd, Spec.SendWindow(cb.cfg, p)))
  {
    hide Spec.Flush, Spec.AckWires, Spec.ProbeWires, Spec.DataWires, Spec.Probe, Spec.SendWindow, Spec.Admit,
      Spec.AdmitCount, Spec.Congest, Spec.TransmitAll, Wrap;
    FlushParts(cb);
  }

  lemma TallyNone(cb: Cb, p: Pacing, buf: seq<OutSeg>)
    ensures Spec.TallyOf(cb, p, buf[..0]) == Spec.Tally(0, 0, false)
  {
  }

  /** The counts of lost segments and of skips, and whether the link is dead, after one more segment. */
  function Tallied(t: Spec.Tally, why: Spec.Why, xmit: u32, limit: u32): Spec.Tally
  {
    Spec.Tally(t.timeouts + (if why == Spec.Timeout then 1 else 0), t.fasts + (if why == Spec.Fast then 1 else 0),
               t.dead || (why != Spec.Keep && xmit >= limit))
  }

  /** The buffer after the j-th turn of the transmission loop. */
  lemma TransmitStep(cb: Cb, p: Pacing, buf: seq<OutSeg>, j: nat)
    requires j < |buf|
    ensures var before := Spec.TransmitAll(cb, p, buf[..j]) + buf[j..];
      && |before| == |buf| && before[j] == buf[j]
      && before[j := Spec.Transmit(cb, p, buf[j])] == Spec.TransmitAll(cb, p, buf[..j + 1]) + buf[j + 1..]
  {
    hide Spec.Transmit;
  }

  lemma TallyStep(cb: Cb, p: Pacing, buf: seq<OutSeg>, j: nat)
    requires j < |buf|
    ensures var t, why, seg :=
      Spec.TallyOf(cb, p, buf[..j]), Spec.Decide(cb.cfg, p, buf[j]), Spec.Transmit(cb, p, buf[j]);
      Spec.TallyOf(cb, p, buf[..j + 1]) == Tallied(t, why, seg.xmit, cb.cfg.deadLink)
  {
    hide Spec.Decide, Wrap;
    var b := buf[..j + 1];
    assert b[..|b| - 1] == buf[..j] && b[|b| - 1] == buf[j];
  }

  lemma DataStep(cb: Cb, p: Pacing, buf: seq<OutSeg>, j: nat)
    requires j <= |buf|
    ensures var ws := Spec.DataWires(cb, p, buf[j..]);
      if j == |buf| then ws == []
      else if Spec.Decide(cb.cfg, p, buf[j]) == Spec.Keep then ws == Spec.DataWires(cb, p, buf[j + 1..])
      else ws == [Spec.WireOf(cb, Spec.Transmit(cb, p, buf[j]))] + Spec.DataWires(cb, p, buf[j + 1..])
    ensures j == 0 ==> buf[j..] == buf
  {
    hide Spec.Decide, Spec.Transmit, Spec.WireOf;
    if j < |buf| { assert buf[j..][1..] == buf[j + 1..]; }
  }

  lemma NextWire(ws: seq<Wire>, at: nat)
    requires at <= |ws|
    ensures ws[at..] != [] ==> at < |ws| && ws[at..][0] == ws[at] && ws[at..][1..] == ws[at + 1..]
  {
  }

  lemma WireIs(cb: Cb, seg: OutSeg)
    ensures Spec.WireOf(cb, seg)
         == Wire(cb.cfg.conv, CMD_PUSH, seg.frag.frg, seg.wnd % 0x1_0000, seg.ts, seg.sn, seg.una, seg.frag.data)
  {
  }

  lemma AckWireIs(cb: Cb, w: Wire, ws: seq<Wire>, k: nat)
    requires k < |cb.rcv.acks| && Spec.AckWires(cb) <= ws
    requires var ack := cb.rcv.acks[k];
      w == Wire(cb.cfg.conv, CMD_ACK, 0, Spec.WndUnused(cb) % 0x1_0000, ack.ts, ack.sn, cb.rcv.nxt, [])
    ensures k < |ws| && ws[k] == w
  {
    hide Spec.WndUnused;
    assert ws[k] == Spec.AckWires(cb)[k];
  }

  lemma WndIs(cb: Cb, wnd: u32)
    requires wnd == if |cb.rcv.queue| < cb.cfg.rcvWnd then cb.cfg.rcvWnd - |cb.rcv.queue| else 0
    ensures wnd == Spec.WndUnused(cb)
  {
  }

  lemma IdleBatches(cb: Cb)
    requires cb.cfg.Valid() && !cb.pace.updated
    ensures Timing.FlushDatagrams(cb) == [] && Spec.Flush(cb).cb == cb
  {
  }

  lemma StartFilling(cb: Cb)
    requires CbOk(cb)
    ensures forall k :: 0 <= k < |Spec.Flush(cb).wires| ==> Need(Spec.Flush(cb).wires[k]) <= cb.cfg.mtu
    ensures cb.cfg.Valid() && SenderOk(cb.cfg, cb.snd)
  {
    Net.FlushEncodable(cb);
  }

  /** The pieces of a flush. */
  lemma FlushParts(cb: Cb)
    requires cb.cfg.Valid() && cb.pace.updated
    ensures var p, f := Spec.Probe(cb.pace), Spec.Flush(cb);
      var snd := Admitted(cb, p);
      && f.wires == Spec.AckWires(cb) + Spec.ProbeWires(cb, p.askSend, p.askTell) + Spec.DataWires(cb, p, snd.buf)
      && f.cb == cb.(snd := snd.(buf := Spec.TransmitAll(cb, p, snd.buf)), rcv := cb.rcv.(acks := []),
                     pace := Spec.Congest(cb.cfg, p.(askSend := false, askTell := false), Spec.TallyOf(cb, p, snd.buf),
                                          Wrap(snd.nxt - snd.una), Spec.SendWindow(cb.cfg, p)))
  {
    hide Spec.Admit, Spec.AdmitCount, Spec.ProbeWires, Spec.AckWires, Spec.DataWires, Spec.TransmitAll, Spec.TallyOf,
      Spec.Congest, Spec.Probe, Spec.SendWindow, Wrap;
  }

  lemma AdmitStart(cb: Cb, p: Pacing)
    ensures Spec.Admit(cb, p, 0) == cb.snd
  {
  }

  lemma InFlightBound(cfg: Config, s: Sender)
    requires SenderOk(cfg, s) && cfg.Valid()
    ensures |s.buf| <= Age(s.nxt, s.una) <= cfg.sndWnd
  {
    if s.buf != [] { AgesSpread(s, 0); }
  }

  lemma AdmitNext(cb: Cb, p: Pacing, j: nat)
    requires j < |cb.snd.queue|
    ensures var s, s' := Spec.Admit(cb, p, j), Spec.Admit(cb, p, j + 1);
      && s.queue != [] && s'.queue == s.queue[1..] && s.una == s'.una
      && s'.buf == s.buf +
           [OutSeg(s.queue[0], Spec.WndUnused(cb), p.current, s.nxt, cb.rcv.nxt, p.current, p.rto, 0, 0)]
      && s'.nxt == Wrap(s.nxt + 1)
  {
    WrapPlus(cb.snd.nxt + j, 1);
    hide Wrap;
  }

  /** The loop test of the admission says whether fewer than AdmitCount fragments have been admitted. */
  lemma AdmitTest(cfg: Config, cb: Cb, p: Pacing, window: u32, j: nat)
    requires cfg.Valid() && SenderOk(cfg, cb.snd) && window <= cfg.sndWnd && j <= Spec.AdmitCount(cb.snd, window)
    ensures var s := Spec.Admit(cb, p, j);
      && |s.buf| < M - 1
      && (j < Spec.AdmitCount(cb.snd, window) <==> s.queue != [] && Diff(s.nxt, Wrap(s.una + window)) < 0)
  {
    hide Diff, Wrap, OutSorted, FitsMss;
    var s := cb.snd;
    InFlightBound(cfg, s);
    WrapBack(s.nxt, s.una);
    DiffIsExact(s.nxt + j, s.nxt - Age(s.nxt, s.una) + window);
    WrapPlus(s.nxt - Age(s.nxt, s.una), window);
  }

  lemma AckAt(words: seq<u32>, k: nat)
    requires 2 * k + 1 < |words|
    ensures AckPairs(words)[k] == Ack(words[2 * k], words[2 * k + 1])
  {
  }

  lemma AckPairsSnoc(words: seq<u32>, sn: u32, ts: u32)
    requires |words| % 2 == 0
    ensures AckPairs(words + [sn, ts]) == AckPairs(words) + [Ack(sn, ts)]
  {
  }

  lemma RoomForOne(cb: Cb)
    requires CbOk(cb)
    ensures |cb.rcv.buf| < UINT_MAX
  {
    BuffersBounded(cb);
  }

  lemma UnaKeeps(cb: Cb, w: Wire)
    requires CbOk(cb)
    ensures CbOk(Spec.ApplyUna(cb, w))
  {
    UnaKeepsSender(cb, w);
  }

  lemma WireCases(g: Spec.Reading, w: Wire)
    ensures w.cmd == CMD_ACK ==> Spec.ApplyWire(g, w) == AckRead(g, w)
    ensures w.cmd != CMD_ACK ==>
      Spec.ApplyWire(g, w).maxack == g.maxack && Spec.ApplyWire(g, w).cb == OtherRead(Spec.ApplyUna(g.cb, w), w)
  {
    hide Diff, Spec.UpdateAck, Spec.TrackAck, Spec.ApplyPush, Spec.ParseAck, Spec.ApplyUna, Spec.Shrink;
  }

  ghost function AckRead(g: Spec.Reading, w: Wire): Spec.Reading
  {
    var cb := Spec.ApplyUna(g.cb, w);
    var rtt := Diff(cb.pace.current, w.ts);
    Spec.Reading(
      cb.(snd := Spec.Shrink(Spec.ParseAck(cb.snd, w.sn)),
          pace := if rtt >= 0 then Spec.UpdateAck(cb.cfg, cb.pace, rtt) else cb.pace),
      Spec.TrackAck(g.maxack, w))
  }

  ghost function OtherRead(cb: Cb, w: Wire): Cb
  {
    if w.cmd == CMD_PUSH then cb.(rcv := Spec.ApplyPush(cb.rcv, cb.cfg.rcvWnd, w))
    else if w.cmd == CMD_WASK then cb.(pace := cb.pace.(askTell := true))
    else cb
  }

  lemma InputCases(cb: Cb, data: seq<byte>)
    requires cb.cfg.Valid() && |data| >= OVERHEAD
    ensures var p := Parse(cb.cfg.conv, data);
      var g := Spec.ApplyAll(Spec.Reading(cb, Spec.NoAck), p.segs);
      && g.cb.cfg == cb.cfg
      && Spec.Input(cb, data) == (if p.code == 0 then Spec.Settle(g, cb.snd.una) else g.cb, p.code)
  {
    hide Parse, Spec.ApplyAll, Spec.Settle;
    Spec.ApplyAllKeepsConfig(Spec.Reading(cb, Spec.NoAck), Parse(cb.cfg.conv, data).segs);
  }

  lemma ParseTurn(conv: u32, data: seq<byte>, i: nat)
    requires i + OVERHEAD <= |data|
    ensures var ((w, len), p) := (DecodeHeader(data[i..]), Parse(conv, data[i..]));
      if w.conv != conv then p == Parsed([], -1)
      else if |data| - (i + OVERHEAD) < len || len >= HALF then p == Parsed([], -2)
      else if !KnownCmd(w.cmd) then p == Parsed([], -3)
      else
        var j := i + OVERHEAD + len;
        && p.segs != [] && p.segs[0] == w.(data := data[i + OVERHEAD..j])
        && p.segs[1..] == Parse(conv, data[j..]).segs && p.code == Parse(conv, data[j..]).code
  {
    hide DecodeHeader;
    var ((w, len), bs) := (DecodeHeader(data[i..]), data[i..]);
    if |bs| - OVERHEAD >= len {
      assert bs[OVERHEAD..OVERHEAD + len] == data[i + OVERHEAD..i + OVERHEAD + len];
      assert bs[OVERHEAD + len..] == data[i + OVERHEAD + len..];
    }
  }

  lemma ParseEnd(conv: u32, data: seq<byte>, i: nat)
    requires i <= |data| < i + OVERHEAD
    ensures Parse(conv, data[i..]) == Parsed([], 0)
  {
  }

  lemma ApplyTurn(g: Spec.Reading, ws: seq<Wire>)
    ensures Spec.ApplyAll(g, ws) == if ws == [] then g else Spec.ApplyAll(Spec.ApplyWire(g, ws[0]), ws[1..])
  {
    hide Spec.ApplyWire;
  }

  lemma FastackSame(s: Sender, m: Spec.MaxAck)
    ensures m.MaxAck? ==> Spec.ParseFastack(s, m.sn, m.ts) == s.(buf := Spec.ParseFastack(s, m.sn, m.ts).buf)
    ensures m.MaxAck? ==> |Spec.ParseFastack(s, m.sn, m.ts).buf| == |s.buf|
  {
    hide Spec.SkipCount;
  }

  /** Skips are counted up to the first segment beyond sn. */
  lemma {:induction false} SkipAt(buf: seq<OutSeg>, sn: u32, ts: u32, p: nat)
    requires p < |buf| && forall k :: 0 <= k < p ==> Diff(sn, buf[k].sn) >= 0
    ensures var all, seg := Spec.SkipCount(buf, sn, ts), buf[p];
      if Diff(sn, seg.sn) < 0 then forall k :: p <= k < |buf| ==> all[k] == buf[k]
      else all[p] == if sn != seg.sn && Diff(ts, seg.ts) >= 0 then seg.(fastack := Wrap(seg.fastack + 1)) else seg
  {
    hide Diff, Wrap;
    if p > 0 {
      SkipAt(buf[1..], sn, ts, p - 1);
      assert forall k :: 1 <= k < |buf| ==> buf[k] == buf[1..][k - 1];
    }
  }

  lemma NoRoom(cfg: Config, queue: seq<Frag>, len: nat)
    requires !cfg.stream || queue == []
    ensures Spec.TailRoom(cfg, queue, len) == 0
    ensures forall more :: Spec.ExtendTail(cfg, queue, more) == queue
  {
  }

  lemma CountIs(mss: int, n: nat)
    requires mss > 0
    ensures Spec.Count(mss, n) == if n <= mss then 1 else (n + mss - 1) / mss
  {
  }

  lemma SplitStep(mss: int, stream: bool, left: seq<byte>)
    requires mss > 0 && |left| <= (WND_RCV - 1) * mss
    ensures var fs := Spec.Split(mss, stream, left);
      if |left| <= mss then fs == [Frag(0, left)]
      else
        && |left[mss..]| <= (WND_RCV - 1) * mss
        && 0 < |fs| <= WND_RCV
        && fs == [Frag(if stream then 0 else |fs| - 1, left[..mss])] + Spec.Split(mss, stream, left[mss..])
  {
    if |left| > mss {
      Spec.SplitLength(mss, stream, left[mss..]);
      SplitUnfold(mss, stream, left);
    }
  }

  lemma SplitUnfold(mss: int, stream: bool, left: seq<byte>)
    requires 0 < mss < |left| <= (WND_RCV - 1) * mss
    requires |Spec.Split(mss, stream, left[mss..])| < WND_RCV
    ensures var rest := Spec.Split(mss, stream, left[mss..]);
      Spec.Split(mss, stream, left) == [Frag(if stream then 0 else |rest|, left[..mss])] + rest
  {
  }

  function Doubled(x: nat, n: nat): nat { if n == 0 then x else 2 * Doubled(x, n - 1) }

  /** The size of the acknowledgement array: the first of 8, 16, 32 and so on that has room for so many. */
  ghost predicate IsBlock(size: nat, need: nat)
  {
    && (exists n: nat :: size == Doubled(8, n))
    && need <= size && (size == 8 || size / 2 < need)
  }

  /** One turn of the fragment loop. */
  lemma NextFrag(mss: int, stream: bool, left: seq<byte>, fs: seq<Frag>, i: nat)
    requires mss > 0 && |left| <= (WND_RCV - 1) * mss && i < |fs| && fs[i..] == Spec.Split(mss, stream, left)
    ensures var size := if |left| > mss then mss else |left|;
      && fs[..i + 1] == fs[..i] + [fs[i]]
      && 0 <= |fs| - i - 1 < WND_RCV
      && fs[i] == Frag(if !stream then |fs| - i - 1 else 0, left[..size])
      && |left[size..]| <= (WND_RCV - 1) * mss
      && (i + 1 < |fs| ==> fs[i + 1..] == Spec.Split(mss, stream, left[size..]))
  {
    SplitStep(mss, stream, left);
    Spec.SplitLength(mss, stream, left);
    hide Spec.Split;
    assert fs[i..][0] == fs[i] && fs[i..][1..] == fs[i + 1..];
  }

  /** The receiver after n segments were taken, or only looked at. */
  ghost function Drained(cb: Cb, n: nat, ispeek: bool): Receiver
    requires n <= |cb.rcv.queue|
  {
    Spec.Release(if ispeek then cb.rcv else cb.rcv.(queue := cb.rcv.queue[n..]), cb.cfg.rcvWnd)
  }

  lemma RecvTaken(cb: Cb, len: int)
    requires Spec.Recv(cb, len).code >= 0
    ensures var n, r := Spec.HeadCount(cb.rcv.queue), Spec.Recv(cb, len);
      var rcv := Drained(cb, n, len < 0);
      && r.data == Payload(Frags(cb.rcv.queue[..n])) && r.code == |r.data|
      && r.cb.rcv == rcv && r.cb.snd == cb.snd && r.cb.cfg == cb.cfg
      && r.cb.pace == if |cb.rcv.queue| >= cb.cfg.rcvWnd && |rcv.queue| < cb.cfg.rcvWnd
                      then cb.pace.(askTell := true) else cb.pace
  {
    hide Payload, Spec.Release, Spec.PeekSize, Spec.HeadCount, Frags;
  }

  lemma RecvCases(cb: Cb, len: int)
    ensures var size := Spec.PeekSize(cb.rcv);
      if cb.rcv.queue == [] then Spec.Recv(cb, len) == Spec.Received(cb, -1, [])
      else if size < 0 then Spec.Recv(cb, len) == Spec.Received(cb, -2, [])
      else if size > (if len < 0 then -len else len) then Spec.Recv(cb, len) == Spec.Received(cb, -3, [])
      else Spec.Recv(cb, len).code >= 0
  {
    hide Payload, Spec.Release, Spec.PeekSize, Spec.HeadCount, Frags;
  }

  lemma FragsSnoc(segs: seq<InSeg>, p: nat)
    requires p < |segs|
    ensures Payload(Frags(segs[..p + 1])) == Payload(Frags(segs[..p])) + segs[p].frag.data
  {
    assert Frags(segs[..p + 1]) == Frags(segs[..p]) + [segs[p].frag];
    Msg.PayloadSnoc(Frags(segs[..p]), segs[p].frag);
  }
}
