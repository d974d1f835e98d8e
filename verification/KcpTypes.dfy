/**
  The data of one KCP endpoint as values: the segment records that travel through its four
  queues, the settings fixed when a connection is set up, and the control block.
 */
module KcpTypes {
  import opened Wrap32

  const CMD_PUSH := 81
  const CMD_ACK := 82
  const CMD_WASK := 83
  const CMD_WINS := 84
  const OVERHEAD := 24
  const WND_RCV := 128
  const RTO_DEF := 200
  const RTO_MAX := 60000
  const PROBE_INIT := 7000
  const PROBE_LIMIT := 120000
  const THRESH_INIT := 2
  const THRESH_MIN := 2
  const UINT_MAX := 0xffff_ffff

  /** What the user's data becomes: `frg` further fragments of the same message follow. */
  datatype Frag = Frag(frg: byte, data: seq<byte>)

  /** A segment on the wire; its length field is |data|. */
  datatype Wire = Wire(conv: u32, cmd: byte, frg: byte, wnd: u16, ts: u32, sn: u32, una: u32, data: seq<byte>)

  /** A segment in snd_buf: numbered, sent at least once or about to be. */
  datatype OutSeg = OutSeg(
    frag: Frag, wnd: u32, ts: u32, sn: u32, una: u32, resendts: u32, rto: u32, fastack: u32, xmit: u32)

  /** A segment in rcv_buf or rcv_queue. */
  datatype InSeg = InSeg(sn: u32, frag: Frag)

  /** One entry of the acknowledgement list. */
  datatype Ack = Ack(sn: u32, ts: u32)

  datatype Config = Config(
    conv: u32, mtu: nat, sndWnd: u32, rcvWnd: u32, stream: bool, nodelay: u32, interval: u32,
    minrto: u32, fastresend: i32, fastlimit: i32, nocwnd: bool, deadLink: u32)
  {
    function Mss(): int { mtu - OVERHEAD }

    /** What ikcp_create, ikcp_setmtu, ikcp_wndsize, ikcp_interval and ikcp_nodelay can produce,
        with both windows below 2^31. */
    predicate Valid() {
      && 50 <= mtu < HALF
      && 1 <= sndWnd < HALF
      && WND_RCV <= rcvWnd < HALF
      && 10 <= interval <= 5000
      && minrto <= RTO_MAX
    }
  }

  /** The sending half: numbered segments awaiting acknowledgement (snd_buf) and fragments not yet
      numbered (snd_queue). */
  datatype Sender = Sender(una: u32, nxt: u32, buf: seq<OutSeg>, queue: seq<Frag>)

  /** The receiving half: out-of-order segments (rcv_buf), segments ready for the user (rcv_queue)
      and acknowledgements owed. */
  datatype Receiver = Receiver(nxt: u32, buf: seq<InSeg>, queue: seq<InSeg>, acks: seq<Ack>)

  /** Clock, round-trip estimation, congestion window, window probing, flush timer. */
  datatype Pacing = Pacing(
    rmtWnd: u32, cwnd: u32, incr: u32, ssthresh: u32,
    srtt: i32, rttval: i32, rto: u32,
    current: u32, tsFlush: u32, updated: bool,
    askSend: bool, askTell: bool, tsProbe: u32, probeWait: u32,
    xmit: u32, state: u32)

  /** IKCPCB */
  datatype Cb = Cb(cfg: Config, snd: Sender, rcv: Receiver, pace: Pacing)

  /** ikcp_create, after the set-up calls. */
  function Created(cfg: Config): (cb: Cb)
  {
    Cb(cfg, Sender(0, 0, [], []), Receiver(0, [], [], []),
       Pacing(WND_RCV, 0, 0, THRESH_INIT, 0, 0, RTO_DEF, 0, 100, false, false, false, 0, 0, 0, 0))
  }


  /** The (frg, payload) pairs of received segments. */
  function Frags(segs: seq<InSeg>): (fs: seq<Frag>)
    ensures |fs| == |segs|
    ensures forall i :: 0 <= i < |segs| ==> fs[i] == segs[i].frag
  {
    seq(|segs|, i requires 0 <= i < |segs| => segs[i].frag)
  }

  /** All payload bytes in order. */
  function Payload(fs: seq<Frag>): (bs: seq<byte>)
  {
    if fs == [] then [] else fs[0].data + Payload(fs[1..])
  }

  function Concat(bufs: seq<seq<byte>>): (bs: seq<byte>)
  {
    if bufs == [] then [] else bufs[0] + Concat(bufs[1..])
  }

  lemma {:induction false} PayloadAppend(a: seq<Frag>, b: seq<Frag>)
    ensures Payload(a + b) == Payload(a) + Payload(b)
  {
    if a == [] {
      assert a + b == b;
    } else {
      assert (a + b)[1..] == a[1..] + b;
      PayloadAppend(a[1..], b);
    }
  }

  lemma {:induction false} ConcatAppend(a: seq<seq<byte>>, b: seq<seq<byte>>)
    ensures Concat(a + b) == Concat(a) + Concat(b)
  {
    if a == [] {
      assert a + b == b;
    } else {
      assert (a + b)[1..] == a[1..] + b;
      ConcatAppend(a[1..], b);
    }
  }
}
