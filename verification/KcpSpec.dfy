/**
  What each KCP operation does to a control block, as functions on values. The class in
  KcpControlBlock.dfy is proved to compute these functions in place; the invariants and the
  end-to-end results are proved about them.
 */
module KcpSpec {
  import opened Wrap32
  import opened KcpTypes
  import opened KcpWire

  // ----- acknowledgements arriving at the sender

  /** ikcp_shrink_buf */
  function Shrink(s: Sender): Sender
  {
    s.(una := if s.buf == [] then s.nxt else s.buf[0].sn)
  }

  /** ikcp_parse_una on snd_buf */
  function DropBelow(buf: seq<OutSeg>, una: u32): (r: seq<OutSeg>)
    ensures |r| <= |buf| && r == buf[|buf| - |r|..]
  {
    if buf != [] && Diff(una, buf[0].sn) > 0 then DropBelow(buf[1..], una) else buf
  }

  /** The search of ikcp_parse_ack: index of the segment numbered sn, or |buf|. */
  function FindAcked(buf: seq<OutSeg>, sn: u32, i: nat): (k: nat)
    requires i <= |buf|
    ensures i <= k <= |buf|
    ensures k < |buf| ==> buf[k].sn == sn
    decreases |buf| - i
  {
    if i == |buf| || sn == buf[i].sn then i
    else if Diff(sn, buf[i].sn) < 0 then |buf|
    else FindAcked(buf, sn, i + 1)
  }

  /** ikcp_parse_ack */
  function ParseAck(s: Sender, sn: u32): (s': Sender)
    ensures s' == s.(buf := s'.buf)
  {
    if Diff(sn, s.una) < 0 || Diff(sn, s.nxt) >= 0 then s
    else
      var k := FindAcked(s.buf, sn, 0);
      if k < |s.buf| then s.(buf := s.buf[..k] + s.buf[k + 1..]) else s
  }

  /** ikcp_parse_fastack on snd_buf, from index i on. */
  function SkipCount(buf: seq<OutSeg>, sn: u32, ts: u32): (r: seq<OutSeg>)
    ensures |r| == |buf|
  {
    if buf == [] || Diff(sn, buf[0].sn) < 0 then buf
    else
      var seg := buf[0];
      [if sn != seg.sn && Diff(ts, seg.ts) >= 0 then seg.(fastack := Wrap(seg.fastack + 1)) else seg]
      + SkipCount(buf[1..], sn, ts)
  }

  /** ikcp_parse_fastack */
  function ParseFastack(s: Sender, sn: u32, ts: u32): Sender
  {
    if Diff(sn, s.una) < 0 || Diff(sn, s.nxt) >= 0 then s else s.(buf := SkipCount(s.buf, sn, ts))
  }

  /** ikcp_update_ack; signed overflow is taken to wrap. */
  function UpdateAck(cfg: Config, p: Pacing, rtt: i32): Pacing
  {
    var (srtt, rttval) :=
      if p.srtt == 0 then (rtt, ToI32(TruncDiv(rtt, 2)))
      else
        var delta := if rtt - p.srtt < 0 then p.srtt - rtt else rtt - p.srtt;
        var val := ToI32(TruncDiv(ToI32(3 * p.rttval) + delta, 4));
        var s := ToI32(TruncDiv(ToI32(ToI32(7 * p.srtt) + rtt), 8));
        (if s < 1 then 1 else s, val);
    var rto := Wrap(srtt as int + Max(cfg.interval as int, Wrap(4 * rttval as int) as int));
    p.(srtt := srtt, rttval := rttval, rto := Min(Max(cfg.minrto, rto), RTO_MAX))
  }

  // ----- data arriving at the receiver

  /** The backward scan of ikcp_parse_data over rcv_buf: where to put the segment, or None when it
      is already there. */
  datatype Place = Repeat | At(index: nat)

  function Locate(buf: seq<InSeg>, sn: u32, i: nat): (p: Place)
    requires i <= |buf|
    ensures p.At? ==> p.index <= i
    ensures p.Repeat? ==> exists k :: 0 <= k < i && buf[k].sn == sn
  {
    if i == 0 then At(0)
    else if buf[i - 1].sn == sn then Repeat
    else if Diff(sn, buf[i - 1].sn) > 0 then At(i)
    else Locate(buf, sn, i - 1)
  }

  function Insert(buf: seq<InSeg>, seg: InSeg): (r: seq<InSeg>)
  {
    match Locate(buf, seg.sn, |buf|)
    case Repeat => buf
    case At(i) => buf[..i] + [seg] + buf[i..]
  }

  /** Moving available segments from rcv_buf to rcv_queue. */
  function Release(r: Receiver, wnd: u32): (r': Receiver)
    ensures r'.acks == r.acks
    decreases |r.buf|
  {
    if r.buf != [] && r.buf[0].sn == r.nxt && |r.queue| < wnd then
      Release(r.(nxt := Wrap(r.nxt + 1), buf := r.buf[1..], queue := r.queue + [r.buf[0]]), wnd)
    else r
  }

  /** ikcp_parse_data */
  function ParseData(r: Receiver, wnd: u32, seg: InSeg): Receiver
  {
    if Diff(seg.sn, Wrap(r.nxt + wnd)) >= 0 || Diff(seg.sn, r.nxt) < 0 then r
    else Release(r.(buf := Insert(r.buf, seg)), wnd)
  }

  /** A PUSH command: an acknowledgement is owed unless the number lies beyond the window, and the
      segment is kept when it lies inside. */
  function ApplyPush(r: Receiver, wnd: u32, w: Wire): Receiver
  {
    if Diff(w.sn, Wrap(r.nxt + wnd)) >= 0 then r
    else
      var r1 := r.(acks := r.acks + [Ack(w.sn, w.ts)]);
      if Diff(w.sn, r.nxt) < 0 then r1 else ParseData(r1, wnd, InSeg(w.sn, Frag(w.frg, w.data)))
  }

  // ----- ikcp_input

  /** The local variables flag, maxack and latest_ts. */
  datatype MaxAck = NoAck | MaxAck(sn: u32, ts: u32)

  function TrackAck(m: MaxAck, w: Wire): MaxAck
  {
    match m
    case NoAck => MaxAck(w.sn, w.ts)
    case MaxAck(sn, ts) => if Diff(w.sn, sn) > 0 && Diff(w.ts, ts) > 0 then MaxAck(w.sn, w.ts) else m
  }

  datatype Reading = Reading(cb: Cb, maxack: MaxAck)

  /** The effect of the una field, common to all commands. */
  function ApplyUna(cb: Cb, w: Wire): Cb
  {
    cb.(snd := Shrink(cb.snd.(buf := DropBelow(cb.snd.buf, w.una))), pace := cb.pace.(rmtWnd := w.wnd))
  }

  /** One turn of the receive loop. */
  function ApplyWire(g: Reading, w: Wire): (g': Reading)
    ensures g'.cb.cfg == g.cb.cfg
  {
    var cb := ApplyUna(g.cb, w);
    if w.cmd == CMD_ACK then
      var rtt := Diff(cb.pace.current, w.ts);
      var pace := if rtt >= 0 then UpdateAck(cb.cfg, cb.pace, rtt) else cb.pace;
      Reading(cb.(snd := Shrink(ParseAck(cb.snd, w.sn)), pace := pace), TrackAck(g.maxack, w))
    else if w.cmd == CMD_PUSH then g.(cb := cb.(rcv := ApplyPush(cb.rcv, cb.cfg.rcvWnd, w)))
    else if w.cmd == CMD_WASK then g.(cb := cb.(pace := cb.pace.(askTell := true)))
    else g.(cb := cb)
  }

  function ApplyAll(g: Reading, ws: seq<Wire>): Reading
    decreases |ws|
  {
    if ws == [] then g else ApplyAll(ApplyWire(g, ws[0]), ws[1..])
  }

  /** The congestion window after new data was acknowledged. */
  function Grow(cfg: Config, p: Pacing): Pacing
    requires cfg.Valid()
  {
    var mss: u32 := cfg.Mss();
    if p.cwnd >= p.rmtWnd then p
    else
      var p1 :=
        if p.cwnd < p.ssthresh then p.(cwnd := Wrap(p.cwnd + 1), incr := Wrap(p.incr + mss))
        else
          var incr0 := if p.incr < mss then mss else p.incr;
          var incr := Wrap(incr0 + UDiv(Wrap(mss * mss), incr0) + mss / 16);
          if Wrap(Wrap(p.cwnd + 1) * mss) <= incr then
            p.(cwnd := UDiv(Wrap(incr + mss - 1), mss), incr := incr)
          else p.(incr := incr);
      if p1.cwnd > p1.rmtWnd then p1.(cwnd := p1.rmtWnd, incr := Wrap(p1.rmtWnd * mss)) else p1
  }

  function Settle(g: Reading, prevUna: u32): Cb
    requires g.cb.cfg.Valid()
  {
    var cb := g.cb;
    var snd := if g.maxack.MaxAck? then ParseFastack(cb.snd, g.maxack.sn, g.maxack.ts) else cb.snd;
    cb.(snd := snd, pace := if Diff(snd.una, prevUna) > 0 then Grow(cb.cfg, cb.pace) else cb.pace)
  }

  /** ikcp_input: the new control block and the code returned. Segments before a malformed one have
      taken effect; the closing steps are taken only when the datagram was read to its end. */
  function Input(cb: Cb, data: seq<byte>): (Cb, int)
    requires cb.cfg.Valid()
  {
    if |data| < OVERHEAD then (cb, -1)
    else
      var p := Parse(cb.cfg.conv, data);
      ApplyAllKeepsConfig(Reading(cb, NoAck), p.segs);
      var g := ApplyAll(Reading(cb, NoAck), p.segs);
      (if p.code == 0 then Settle(g, cb.snd.una) else g.cb, p.code)
  }

  lemma {:induction false} ApplyAllKeepsConfig(g: Reading, ws: seq<Wire>)
    ensures ApplyAll(g, ws).cb.cfg == g.cb.cfg
    decreases |ws|
  {
    hide ApplyWire;
    if ws != [] { ApplyAllKeepsConfig(ApplyWire(g, ws[0]), ws[1..]); }
  }

  // ----- the user's side

  /** Number of segments the merge loop of ikcp_recv takes: up to and including the first whose
      fragment number is 0. */
  function HeadCount(queue: seq<InSeg>): (n: nat)
    ensures n <= |queue|
    ensures queue != [] ==> n >= 1
    ensures forall i :: 0 <= i < n - 1 ==> queue[i].frag.frg != 0
    ensures n < |queue| ==> queue[n - 1].frag.frg == 0
  {
    if queue == [] then 0 else if queue[0].frag.frg == 0 then 1 else 1 + HeadCount(queue[1..])
  }

  /** ikcp_peeksize */
  function PeekSize(r: Receiver): (n: int)
    ensures n >= -1
  {
    if r.queue == [] then -1
    else if r.queue[0].frag.frg == 0 then |r.queue[0].frag.data|
    else if |r.queue| < r.queue[0].frag.frg + 1 then -1
    else |Payload(Frags(r.queue[..HeadCount(r.queue)]))|
  }

  datatype Received = Received(cb: Cb, code: int, data: seq<byte>)

  /** ikcp_recv with a buffer of |len| bytes; a negative len only looks. */
  function Recv(cb: Cb, len: int): Received
  {
    var size := PeekSize(cb.rcv);
    if cb.rcv.queue == [] then Received(cb, -1, [])
    else if size < 0 then Received(cb, -2, [])
    else if size > (if len < 0 then -len else len) then Received(cb, -3, [])
    else
      var n := HeadCount(cb.rcv.queue);
      var data := Payload(Frags(cb.rcv.queue[..n]));
      var recover := |cb.rcv.queue| >= cb.cfg.rcvWnd;
      var rcv := Release(if len < 0 then cb.rcv else cb.rcv.(queue := cb.rcv.queue[n..]), cb.cfg.rcvWnd);
      var tell := recover && |rcv.queue| < cb.cfg.rcvWnd;
      Received(cb.(rcv := rcv, pace := if tell then cb.pace.(askTell := true) else cb.pace), |data|, data)
  }

  /** The fragments of a buffer: full segments and a last one that may be shorter; in message mode
      each carries the number of fragments that follow it. */
  function Split(mss: int, stream: bool, data: seq<byte>): (fs: seq<Frag>)
    requires mss > 0
    requires |data| <= (WND_RCV - 1) * mss
    ensures fs != []
    decreases |data|
  {
    if |data| <= mss then [Frag(0, data)]
    else
      var rest := Split(mss, stream, data[mss..]);
      [Frag(if stream then 0 else |rest| % 0x100, data[..mss])] + rest
  }

  /** There are fewer than 128 fragments, just enough for the buffer, so the fragment number keeps its value in
      eight bits. */
  lemma {:induction false} SplitLength(mss: int, stream: bool, data: seq<byte>)
    requires mss > 0 && |data| <= (WND_RCV - 1) * mss
    ensures var n := |Split(mss, stream, data)|;
      n < WND_RCV && |data| <= n * mss && (n > 1 ==> (n - 1) * mss < |data|)
    decreases |data|
  {
    if |data| > mss {
      var rest := data[mss..];
      SplitLength(mss, stream, rest);
      OneMore(mss, |rest|, |Split(mss, stream, rest)|);
    }
  }

  /** One more fragment in front of m. */
  lemma OneMore(mss: int, len: nat, m: nat)
    requires 0 < mss && len + mss <= (WND_RCV - 1) * mss
    requires 0 < m && 0 < len <= m * mss && (m > 1 ==> (m - 1) * mss < len)
    ensures m + 1 < WND_RCV && len + mss <= (m + 1) * mss && m * mss < len + mss
  {
    assert (m + 1) * mss == m * mss + mss;
    assert (m - 1) * mss == m * mss - mss;
    if m >= WND_RCV - 1 { MulMonotone(WND_RCV - 1, m, mss); }
  }

  /** The number of fragments is the one the source computes. */
  function Count(mss: int, len: nat): int
    requires mss > 0
  {
    if len <= mss then 1 else (len + mss - 1) / mss
  }

  lemma CountFits(mss: int, n: nat)
    requires mss > 0
    ensures Count(mss, n) < WND_RCV <==> n <= (WND_RCV - 1) * mss
  {
    if n > mss {
      var q := Count(mss, n);
      DivWithin(n + mss - 1, mss);
      if q < WND_RCV {
        MulMonotone(q, WND_RCV - 1, mss);
      } else {
        MulMonotone(WND_RCV, q, mss);
      }
    } else {
      MulMonotone(1, WND_RCV - 1, mss);
    }
  }

  lemma SplitCount(mss: int, stream: bool, data: seq<byte>)
    requires mss > 0 && |data| <= (WND_RCV - 1) * mss
    ensures |Split(mss, stream, data)| == Count(mss, |data|)
  {
    if |data| > mss {
      var k := |Split(mss, stream, data)|;
      SplitLength(mss, stream, data);
      hide Split;
      DivUnique(|data| + mss - 1, mss, k);
    }
  }

  datatype Sent = Sent(cb: Cb, code: int)

  /** ikcp_send of a whole buffer. */
  function Send(cb: Cb, data: seq<byte>): Sent
    requires cb.cfg.Valid()
  {
    var cfg, queue := cb.cfg, cb.snd.queue;
    var mss := cfg.Mss();
    var extend := TailRoom(cfg, queue, |data|);
    var queue1 := ExtendTail(cfg, queue, data[..extend]);
    var rest := data[extend..];
    if cfg.stream && rest == [] then Sent(cb.(snd := cb.snd.(queue := queue1)), extend)
    else if Count(mss, |rest|) >= WND_RCV then
      Sent(cb.(snd := cb.snd.(queue := queue1)), if cfg.stream && extend > 0 then extend else -2)
    else
      CountFits(mss, |rest|);
      Sent(cb.(snd := cb.snd.(queue := queue1 + Split(mss, cfg.stream, rest))), |data|)
  }

  lemma SendCases(cb: Cb, data: seq<byte>)
    requires cb.cfg.Valid()
    ensures var mss, n, r := cb.cfg.Mss(), TailRoom(cb.cfg, cb.snd.queue, |data|), Send(cb, data);
      var queue1, rest := ExtendTail(cb.cfg, cb.snd.queue, data[..n]), data[n..];
      if cb.cfg.stream && rest == [] then r == Sent(cb.(snd := cb.snd.(queue := queue1)), n)
      else if Count(mss, |rest|) >= WND_RCV then
        r == Sent(cb.(snd := cb.snd.(queue := queue1)), if cb.cfg.stream && n > 0 then n else -2)
      else
        && |rest| <= (WND_RCV - 1) * mss
        && r == Sent(cb.(snd := cb.snd.(queue := queue1 + Split(mss, cb.cfg.stream, rest))), |data|)
  {
    hide Split, Count, ExtendTail, TailRoom;
    CountFits(cb.cfg.Mss(), |data[TailRoom(cb.cfg, cb.snd.queue, |data|)..]|);
  }

  /** Stream mode fills up the last waiting segment when it is not full. */
  predicate TailOpen(cfg: Config, queue: seq<Frag>)
  {
    cfg.stream && queue != [] && |queue[|queue| - 1].data| < cfg.Mss()
  }

  /** How many bytes of a buffer the last waiting segment takes. */
  function TailRoom(cfg: Config, queue: seq<Frag>, len: nat): (n: nat)
    ensures n <= len
    ensures n > 0 ==> TailOpen(cfg, queue)
    ensures n == 0 ==> len == 0 || !TailOpen(cfg, queue)
  {
    if TailOpen(cfg, queue) then Min(len, cfg.Mss() - |queue[|queue| - 1].data|) else 0
  }

  function ExtendTail(cfg: Config, queue: seq<Frag>, more: seq<byte>): (r: seq<Frag>)
    ensures |r| == |queue|
    ensures !TailOpen(cfg, queue) ==> r == queue
  {
    if TailOpen(cfg, queue) then queue[..|queue| - 1] + [Frag(0, queue[|queue| - 1].data + more)] else queue
  }

  // ----- ikcp_flush

  /** ikcp_wnd_unused */
  function WndUnused(cb: Cb): u32
  {
    if |cb.rcv.queue| < cb.cfg.rcvWnd then cb.cfg.rcvWnd - |cb.rcv.queue| else 0
  }

  function Control(cb: Cb, cmd: byte, sn: u32, ts: u32): (w: Wire)
  {
    Wire(cb.cfg.conv, cmd, 0, WndUnused(cb) % 0x1_0000, ts, sn, cb.rcv.nxt, [])
  }

  function AckWires(cb: Cb): (ws: seq<Wire>)
    ensures |ws| == |cb.rcv.acks|
  {
    var acks := cb.rcv.acks;
    seq(|acks|, i requires 0 <= i < |acks| => Control(cb, CMD_ACK, acks[i].sn, acks[i].ts))
  }

  /** The window probe timer. */
  function Probe(p: Pacing): Pacing
  {
    if p.rmtWnd != 0 then p.(tsProbe := 0, probeWait := 0)
    else if p.probeWait == 0 then p.(probeWait := PROBE_INIT, tsProbe := Wrap(p.current + PROBE_INIT))
    else if Diff(p.current, p.tsProbe) >= 0 then
      var wait := if p.probeWait < PROBE_INIT then PROBE_INIT else p.probeWait;
      var longer := Wrap(wait + wait / 2);
      var next := if longer > PROBE_LIMIT then PROBE_LIMIT else longer;
      p.(probeWait := next, tsProbe := Wrap(p.current + next), askSend := true)
    else p
  }

  /** WASK and WINS; they repeat the sn and ts of the last acknowledgement written. */
  function ProbeWires(cb: Cb, askSend: bool, askTell: bool): (ws: seq<Wire>)
    ensures |ws| <= 2
  {
    var acks := cb.rcv.acks;
    var last := if acks == [] then Ack(0, 0) else acks[|acks| - 1];
    (if askSend then [Control(cb, CMD_WASK, last.sn, last.ts)] else [])
    + (if askTell then [Control(cb, CMD_WINS, last.sn, last.ts)] else [])
  }

  function SendWindow(cfg: Config, p: Pacing): (w: u32)
    ensures w <= cfg.sndWnd
  {
    var w := Min(cfg.sndWnd, p.rmtWnd);
    if cfg.nocwnd then w else Min(p.cwnd, w)
  }

  /** How many fragments get a sequence number: as many as fit between the segments in flight and
      the window. */
  function AdmitCount(s: Sender, window: u32): (n: nat)
    ensures n <= |s.queue|
  {
    Min(|s.queue|, Max(0, window - Wrap(s.nxt - s.una)))
  }

  function NewSeg(cb: Cb, p: Pacing, j: nat): OutSeg
    requires j < |cb.snd.queue|
  {
    OutSeg(cb.snd.queue[j], WndUnused(cb), p.current, Wrap(cb.snd.nxt + j), cb.rcv.nxt, p.current, p.rto, 0, 0)
  }

  /** Moving fragments from snd_queue to snd_buf. */
  function Admit(cb: Cb, p: Pacing, n: nat): Sender
    requires n <= |cb.snd.queue|
  {
    var s := cb.snd;
    Sender(s.una, Wrap(s.nxt + n), s.buf + seq(n, j requires 0 <= j < n => NewSeg(cb, p, j)), s.queue[n..])
  }

  datatype Why = Keep | First | Timeout | Fast

  function Resent(cfg: Config): u32 { if cfg.fastresend > 0 then cfg.fastresend else UINT_MAX }

  /** Whether a segment of snd_buf is (re)transmitted now. */
  function Decide(cfg: Config, p: Pacing, seg: OutSeg): Why
  {
    if seg.xmit == 0 then First
    else if Diff(p.current, seg.resendts) >= 0 then Timeout
    else if seg.fastack >= Resent(cfg) && (ToI32(seg.xmit) <= cfg.fastlimit || cfg.fastlimit <= 0) then Fast
    else Keep
  }

  function BackedOff(cfg: Config, p: Pacing, rto: u32): u32
  {
    if cfg.nodelay == 0 then Wrap(rto + Max(rto, p.rto))
    else Wrap(rto + TruncDiv(if cfg.nodelay < 2 then ToI32(rto) else ToI32(p.rto), 2))
  }

  /** The segment after the transmission decision; its number and content never change. */
  function Transmit(cb: Cb, p: Pacing, seg: OutSeg): (r: OutSeg)
    ensures r.sn == seg.sn && r.frag == seg.frag
  {
    var why := Decide(cb.cfg, p, seg);
    if why == Keep then seg
    else
      var rto := if why == First then p.rto else if why == Timeout then BackedOff(cb.cfg, p, seg.rto) else seg.rto;
      var rtomin := if why == First && cb.cfg.nodelay == 0 then p.rto / 8 else 0;
      OutSeg(seg.frag, WndUnused(cb), p.current, seg.sn, cb.rcv.nxt, Wrap(p.current + rto + rtomin), rto,
             if why == Timeout then seg.fastack else if why == Fast then 0 else seg.fastack, Wrap(seg.xmit + 1))
  }

  function TransmitAll(cb: Cb, p: Pacing, buf: seq<OutSeg>): (r: seq<OutSeg>)
    ensures |r| == |buf|
    ensures forall i :: 0 <= i < |buf| ==> r[i] == Transmit(cb, p, buf[i])
  {
    seq(|buf|, i requires 0 <= i < |buf| => Transmit(cb, p, buf[i]))
  }

  function WireOf(cb: Cb, seg: OutSeg): Wire
  {
    Wire(cb.cfg.conv, CMD_PUSH, seg.frag.frg, seg.wnd % 0x1_0000, seg.ts, seg.sn, seg.una, seg.frag.data)
  }

  /** The PUSH segments written, in the order of snd_buf. */
  function DataWires(cb: Cb, p: Pacing, buf: seq<OutSeg>): (ws: seq<Wire>)
    ensures |ws| <= |buf|
  {
    if buf == [] then []
    else
      (if Decide(cb.cfg, p, buf[0]) == Keep then [] else [WireOf(cb, Transmit(cb, p, buf[0]))])
      + DataWires(cb, p, buf[1..])
  }

  /** What the transmission loop accumulates: timeouts, fast retransmissions, and whether the link
      was declared dead. */
  datatype Tally = Tally(timeouts: nat, fasts: nat, dead: bool)

  function TallyOf(cb: Cb, p: Pacing, buf: seq<OutSeg>): Tally
  {
    if buf == [] then Tally(0, 0, false)
    else
      var t := TallyOf(cb, p, buf[..|buf| - 1]);
      var seg := buf[|buf| - 1];
      var why := Decide(cb.cfg, p, seg);
      Tally(t.timeouts + (if why == Timeout then 1 else 0), t.fasts + (if why == Fast then 1 else 0),
            t.dead || (why != Keep && Wrap(seg.xmit + 1) >= cb.cfg.deadLink))
  }

  /** ssthresh and cwnd after the transmissions. */
  function Congest(cfg: Config, p: Pacing, t: Tally, inflight: u32, window: u32): Pacing
    requires cfg.Valid()
  {
    var mss: u32 := cfg.Mss();
    var p0 := p.(xmit := Wrap(p.xmit + t.timeouts), state := if t.dead then UINT_MAX else p.state);
    var p1 :=
      if t.fasts > 0 then
        var ssthresh: u32 := Max(inflight / 2, THRESH_MIN);
        var cwnd := Wrap(ssthresh + Resent(cfg));
        p0.(ssthresh := ssthresh, cwnd := cwnd, incr := Wrap(cwnd * mss))
      else p0;
    var p2 := if t.timeouts > 0 then p1.(ssthresh := Max(window / 2, THRESH_MIN), cwnd := 1, incr := mss) else p1;
    if p2.cwnd < 1 then p2.(cwnd := 1, incr := mss) else p2
  }

  datatype Flushed = Flushed(cb: Cb, wires: seq<Wire>)

  /** ikcp_flush: the new control block and the segments written, in order. */
  function Flush(cb: Cb): Flushed
    requires cb.cfg.Valid()
  {
    if !cb.pace.updated then Flushed(cb, [])
    else
      var p := Probe(cb.pace);
      var window := SendWindow(cb.cfg, p);
      var snd := Admit(cb, p, AdmitCount(cb.snd, window));
      var p1 := Congest(cb.cfg, p.(askSend := false, askTell := false), TallyOf(cb, p, snd.buf),
                        Wrap(snd.nxt - snd.una), window);
      Flushed(
        cb.(snd := snd.(buf := TransmitAll(cb, p, snd.buf)), rcv := cb.rcv.(acks := []), pace := p1),
        AckWires(cb) + ProbeWires(cb, p.askSend, p.askTell) + DataWires(cb, p, snd.buf))
  }

  // ----- ikcp_update and ikcp_check

  /** ts_flush when it is too far from the clock to be trusted. */
  function Resync(tsFlush: u32, current: u32): u32
  {
    if Diff(current, tsFlush) >= 10000 || Diff(current, tsFlush) < -10000 then current else tsFlush
  }

  /** Does ikcp_update at this time flush? */
  predicate FlushDue(p: Pacing, current: u32)
  {
    !p.updated || Diff(current, Resync(p.tsFlush, current)) >= 0
  }

  /** The clock and the flush timer after ikcp_update. */
  function Tick(cfg: Config, p: Pacing, current: u32): Pacing
    requires cfg.Valid()
  {
    var ts := if p.updated then Resync(p.tsFlush, current) else current;
    var next := Wrap(ts + cfg.interval);
    p.(current := current, updated := true,
       tsFlush := if Diff(current, ts) < 0 then ts
                  else if Diff(current, next) >= 0 then Wrap(current + cfg.interval) else next)
  }

  function Update(cb: Cb, current: u32): Flushed
    requires cb.cfg.Valid()
  {
    var cb1 := cb.(pace := Tick(cb.cfg, cb.pace, current));
    if FlushDue(cb.pace, current) then Flush(cb1) else Flushed(cb1, [])
  }

  /** Time until the first retransmission is due, at most `soonest`; 0 when one is due already. */
  function NextResend(buf: seq<OutSeg>, current: u32, soonest: int): (d: int)
    ensures soonest >= 0 ==> 0 <= d <= soonest
  {
    if buf == [] then soonest
    else
      var diff := Diff(buf[0].resendts, current);
      if diff <= 0 then 0 else NextResend(buf[1..], current, Min(soonest, diff))
  }

  /** ikcp_check */
  function Check(cb: Cb, current: u32): u32
  {
    if !cb.pace.updated then current
    else
      var ts := Resync(cb.pace.tsFlush, current);
      if Diff(current, ts) >= 0 then current
      else
        var packet := NextResend(cb.snd.buf, current, 0x7fff_ffff);
        Wrap(current + Min(Min(packet, Diff(ts, current)), cb.cfg.interval))
  }
}
