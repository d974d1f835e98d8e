/**
  What a datagram tells a sender beside acknowledging: which segments were skipped, how long a round trip takes, and how
  far the congestion window opens; and the codes ikcp_input returns.
 */
module KcpFeedback {
  import opened Wrap32
  import opened KcpTypes
  import opened KcpWire
  import opened KcpSpec
  import opened KcpInvariants

  // ----- which acknowledgement counts

  /** The acknowledgement at i has a later number and a later timestamp than those before it, and none behind it has a
      later number. */
  predicate Highest(ws: seq<Wire>, i: nat)
  {
    && i < |ws| && ws[i].cmd == CMD_ACK
    && (forall j :: 0 <= j < i && ws[j].cmd == CMD_ACK ==>
          Diff(ws[i].sn, ws[j].sn) > 0 && Diff(ws[i].ts, ws[j].ts) > 0)
    && forall j :: i < j < |ws| && ws[j].cmd == CMD_ACK ==> Diff(ws[j].sn, ws[i].sn) <= 0
  }

  /** Whatever the remembered pair was, an acknowledgement replaces it exactly if its number and its timestamp are
      both later; the first one is always remembered, and other segments change nothing. */
  lemma Remembers(g: Reading, w: Wire)
    ensures var m, m' := g.maxack, ApplyWire(g, w).maxack;
      && (w.cmd != CMD_ACK ==> m' == m)
      && (w.cmd == CMD_ACK && m == NoAck ==> m' == MaxAck(w.sn, w.ts))
      && (w.cmd == CMD_ACK && m.MaxAck? ==>
            m' == if Diff(w.sn, m.sn) > 0 && Diff(w.ts, m.ts) > 0 then MaxAck(w.sn, w.ts) else m)
  {
    hide Diff, UpdateAck, ApplyPush, DropBelow, FindAcked;
  }

  lemma {:induction false} ApplyAllSnoc(g: Reading, ws: seq<Wire>, w: Wire)
    ensures ApplyAll(g, ws + [w]) == ApplyWire(ApplyAll(g, ws), w)
    decreases |ws|
  {
    hide ApplyWire;
    if ws == [] {
      assert ws + [w] == [w] && [w][1..] == [];
      assert ApplyAll(ApplyWire(g, w), []) == ApplyWire(g, w);
    } else {
      assert (ws + [w])[1..] == ws[1..] + [w];
      ApplyAllSnoc(ApplyWire(g, ws[0]), ws[1..], w);
    }
  }

  /** After n segments the remembered pair is that of some acknowledgement among them, and of the highest one from it
      on. */
  lemma {:induction false} RemembersHighest(cb: Cb, ws: seq<Wire>, i: nat, n: nat)
    requires Highest(ws, i) && n <= |ws|
    ensures var m := ApplyAll(Reading(cb, NoAck), ws[..n]).maxack;
      && (i < n ==> m == MaxAck(ws[i].sn, ws[i].ts))
      && (n <= i && m.MaxAck? ==>
            exists j :: 0 <= j < n && ws[j].cmd == CMD_ACK && m == MaxAck(ws[j].sn, ws[j].ts))
    decreases n
  {
    hide ApplyWire, Diff, ApplyAll;
    if n == 0 {
      NothingRead(cb);
      assert ws[..0] == [];
    } else {
      var g := ApplyAll(Reading(cb, NoAck), ws[..n - 1]);
      RemembersHighest(cb, ws, i, n - 1);
      assert ws[..n] == ws[..n - 1] + [ws[n - 1]];
      ApplyAllSnoc(Reading(cb, NoAck), ws[..n - 1], ws[n - 1]);
      Remembers(g, ws[n - 1]);
    }
  }

  lemma NothingRead(cb: Cb)
    ensures ApplyAll(Reading(cb, NoAck), []).maxack == NoAck
  {
  }

  lemma {:induction false} NoAckRead(cb: Cb, ws: seq<Wire>, n: nat)
    requires n <= |ws| && forall j :: 0 <= j < |ws| ==> ws[j].cmd != CMD_ACK
    ensures ApplyAll(Reading(cb, NoAck), ws[..n]).maxack == NoAck
    decreases n
  {
    hide ApplyWire, ApplyAll;
    if n == 0 {
      NothingRead(cb);
      assert ws[..0] == [];
    } else {
      NoAckRead(cb, ws, n - 1);
      assert ws[..n] == ws[..n - 1] + [ws[n - 1]];
      ApplyAllSnoc(Reading(cb, NoAck), ws[..n - 1], ws[n - 1]);
      Remembers(ApplyAll(Reading(cb, NoAck), ws[..n - 1]), ws[n - 1]);
    }
  }

  // ----- which segments were skipped

  /** The segment was sent before the one acknowledged and has a smaller number, and the number is in flight. */
  predicate SkippedBy(s: Sender, seg: OutSeg, sn: u32, ts: u32)
  {
    && Diff(sn, s.una) >= 0 && Diff(sn, s.nxt) < 0
    && Diff(sn, seg.sn) > 0 && Diff(ts, seg.ts) >= 0
  }

  /** The early exit of the loop misses no segment. */
  lemma {:induction false} SkipCountExact(s: Sender, wnd: u32, buf: seq<OutSeg>, sn: u32, ts: u32, i: nat)
    requires OutSorted(s.nxt, wnd, buf) && wnd < HALF && Age(s.nxt, sn) <= wnd && i < |buf|
    ensures SkipCount(buf, sn, ts)[i] ==
      if Diff(sn, buf[i].sn) > 0 && Diff(ts, buf[i].ts) >= 0 then buf[i].(fastack := Wrap(buf[i].fastack + 1))
      else buf[i]
    decreases |buf|
  {
    hide Diff, Wrap, Age;
    DiffByAge(s.nxt, sn, buf[0].sn);
    DiffByAge(s.nxt, sn, buf[i].sn);
    if Diff(sn, buf[0].sn) >= 0 && i > 0 {
      SkipsOn(buf, sn, ts, i);
      OutSortedSuffix(s.nxt, wnd, buf, 1);
      SkipCountExact(s, wnd, buf[1..], sn, ts, i - 1);
    }
  }

  lemma SkipsOn(buf: seq<OutSeg>, sn: u32, ts: u32, i: nat)
    requires 0 < i < |buf| && Diff(sn, buf[0].sn) >= 0
    ensures SkipCount(buf, sn, ts)[i] == SkipCount(buf[1..], sn, ts)[i - 1] && buf[1..][i - 1] == buf[i]
  {
    hide Diff, Wrap;
  }

  lemma InFlight(s: Sender, sn: u32)
    requires Age(s.nxt, s.una) < HALF && Diff(sn, s.una) >= 0 && Diff(sn, s.nxt) < 0
    ensures Age(s.nxt, sn) <= Age(s.nxt, s.una)
  {
    hide Diff, Wrap;
    var d := Diff(sn, s.nxt);
    AgeOfDiff(s.nxt, sn);
    if d > -HALF {
      DiffByAge(s.nxt, sn, s.una);
    } else {
      WrapBack(s.nxt, s.una);
      WrapBack(s.nxt, sn);
      DiffIsExact(s.nxt - HALF, s.nxt - Age(s.nxt, s.una));
    }
  }

  lemma AgeOfDiff(nxt: u32, sn: u32)
    requires Diff(sn, nxt) < 0
    ensures Age(nxt, sn) == 0 - Diff(sn, nxt)
  {
  }

  lemma FastackExact(cfg: Config, s: Sender, sn: u32, ts: u32, i: nat)
    requires cfg.Valid() && SenderOk(cfg, s) && i < |s.buf|
    ensures |ParseFastack(s, sn, ts).buf| == |s.buf|
    ensures ParseFastack(s, sn, ts).buf[i] ==
      if SkippedBy(s, s.buf[i], sn, ts) then s.buf[i].(fastack := Wrap(s.buf[i].fastack + 1)) else s.buf[i]
  {
    hide Diff, Wrap, Age;
    if Diff(sn, s.una) >= 0 && Diff(sn, s.nxt) < 0 {
      InFlight(s, sn);
      SkipCountExact(s, Age(s.nxt, s.una), s.buf, sn, ts, i);
    }
  }

  lemma WireRemoves(g: Reading, w: Wire)
    ensures forall seg :: seg in ApplyWire(g, w).cb.snd.buf ==> seg in g.cb.snd.buf
  {
    hide UpdateAck, ApplyPush, DropBelow, ParseAck;
    var cb := ApplyUna(g.cb, w);
    AckRemoves(cb.snd, w.sn);
  }

  lemma AckRemoves(s: Sender, sn: u32)
    ensures forall seg :: seg in ParseAck(s, sn).buf ==> seg in s.buf
  {
    hide Diff, FindAcked;
  }

  /** Reading takes segments out of snd_buf and changes none of the others. */
  lemma {:induction false} AllRemove(g: Reading, ws: seq<Wire>)
    ensures forall seg :: seg in ApplyAll(g, ws).cb.snd.buf ==> seg in g.cb.snd.buf
    decreases |ws|
  {
    hide ApplyWire;
    if ws != [] {
      WireRemoves(g, ws[0]);
      AllRemove(ApplyWire(g, ws[0]), ws[1..]);
    }
  }

  /** The segment seg was in snd_buf and is still there as seg', counted once more if the acknowledgement skipped
      it. */
  predicate CountedFor(cb: Cb, s': Sender, seg': OutSeg, seg: OutSeg, sn: u32, ts: u32)
  {
    seg in cb.snd.buf && seg' == if SkippedBy(s', seg, sn, ts) then seg.(fastack := Wrap(seg.fastack + 1)) else seg
  }

  /** A datagram read to its end counts one skip for each segment left in snd_buf that was sent no later than the
      segment of the highest acknowledgement and has a smaller number, provided that this number is in flight, and
      changes no other segment that it leaves. */
  lemma InputCountsSkips(cb: Cb, data: seq<byte>, h: nat, i: nat) returns (seg: OutSeg)
    requires CbOk(cb) && Input(cb, data).1 == 0 && i < |Input(cb, data).0.snd.buf|
    requires Highest(Parse(cb.cfg.conv, data).segs, h)
    ensures var s', top := Input(cb, data).0.snd, Parse(cb.cfg.conv, data).segs[h];
      CountedFor(cb, s', s'.buf[i], seg, top.sn, top.ts)
  {
    hide Parse, ApplyAll, Grow, Highest, SkippedBy, ReceiverOk, SenderOk, ParseFastack;
    var ws := Parse(cb.cfg.conv, data).segs;
    var g := ApplyAll(Reading(cb, NoAck), ws);
    HighestInside(ws, h);
    assert ws[..|ws|] == ws;
    RemembersHighest(cb, ws, h, |ws|);
    ApplyAllOk(Reading(cb, NoAck), ws);
    AllRemove(Reading(cb, NoAck), ws);
    FastackSame(g.cb.snd, ws[h].sn, ws[h].ts);
    FastackExact(g.cb.cfg, g.cb.snd, ws[h].sn, ws[h].ts, i);
    seg := g.cb.snd.buf[i];
    SameSkip(g.cb.snd, Input(cb, data).0.snd, seg, ws[h].sn, ws[h].ts);
  }

  lemma HighestInside(ws: seq<Wire>, h: nat)
    requires Highest(ws, h)
    ensures h < |ws|
  {
  }

  lemma FastackSame(s: Sender, sn: u32, ts: u32)
    ensures var s' := ParseFastack(s, sn, ts);
      s'.una == s.una && s'.nxt == s.nxt && |s'.buf| == |s.buf|
  {
    hide Diff;
  }

  lemma SameSkip(s: Sender, s': Sender, seg: OutSeg, sn: u32, ts: u32)
    requires s'.una == s.una && s'.nxt == s.nxt
    ensures SkippedBy(s', seg, sn, ts) <==> SkippedBy(s, seg, sn, ts)
  {
  }

  /** Without an acknowledgement, or when the datagram is malformed, no segment is counted as skipped. */
  lemma NothingSkipped(cb: Cb, data: seq<byte>)
    requires cb.cfg.Valid()
    requires Input(cb, data).1 != 0 || forall w :: w in Parse(cb.cfg.conv, data).segs ==> w.cmd != CMD_ACK
    ensures forall seg :: seg in Input(cb, data).0.snd.buf ==> seg in cb.snd.buf
  {
    hide Parse, ApplyAll, Grow;
    var ws := Parse(cb.cfg.conv, data).segs;
    AllRemove(Reading(cb, NoAck), ws);
    if forall j :: 0 <= j < |ws| ==> ws[j].cmd != CMD_ACK {
      NoAckRead(cb, ws, |ws|);
      assert ws[..|ws|] == ws;
    }
  }

  // ----- the round trip

  /** The estimates after a sample, by section 2 of RFC 6298 as far as whole milliseconds go: the first sample is
      taken as it is, with half of it as its variation; later ones move the smoothed time by an eighth of the
      difference and the variation by a quarter of the gap between them. */
  predicate Smoothed(p: Pacing, q: Pacing, rtt: int)
  {
    if p.srtt == 0 then q.srtt == rtt && 2 * q.rttval <= rtt < 2 * q.rttval + 2
    else
      var gap := if rtt >= p.srtt then rtt - p.srtt else p.srtt - rtt;
      && (8 * q.srtt <= 7 * p.srtt + rtt < 8 * q.srtt + 8 || (q.srtt == 1 && 7 * p.srtt + rtt < 8))
      && 4 * q.rttval <= 3 * p.rttval + gap < 4 * q.rttval + 4
  }

  /** The timeout is the smoothed time and four times the variation, which counts as one interval at least, within the
      lower limit and one minute. */
  predicate TimedBy(cfg: Config, q: Pacing)
  {
    var rto := q.srtt + Max(cfg.interval, 4 * q.rttval);
    && cfg.minrto <= q.rto <= 60000
    && (cfg.minrto <= rto <= 60000 ==> q.rto == rto)
    && (rto < cfg.minrto ==> q.rto == cfg.minrto)
    && (rto > 60000 ==> q.rto == 60000)
  }

  /** Estimates and samples that one day can bring about. */
  predicate Sane(p: Pacing, rtt: int)
  {
    0 <= p.srtt < 0x800_0000 && 0 <= p.rttval < 0x800_0000 && 0 <= rtt < 0x800_0000
  }

  /** An acknowledgement of a timestamp not ahead of the clock is a sample; any other changes neither the estimates
      nor the timeout. */
  lemma AckTimes(g: Reading, w: Wire)
    requires g.cb.cfg.Valid() && Sane(g.cb.pace, Max(0, Diff(g.cb.pace.current, w.ts)))
    ensures var p, q, rtt := g.cb.pace, ApplyWire(g, w).cb.pace, Diff(g.cb.pace.current, w.ts);
      && (w.cmd == CMD_ACK && rtt >= 0 ==> Smoothed(p, q, rtt) && TimedBy(g.cb.cfg, q))
      && (w.cmd != CMD_ACK || rtt < 0 ==> q.srtt == p.srtt && q.rttval == p.rttval && q.rto == p.rto)
      && q.rmtWnd == w.wnd && q.cwnd == p.cwnd && q.ssthresh == p.ssthresh && q.incr == p.incr
  {
    hide Diff, ApplyPush, DropBelow, FindAcked, UpdateAck;
    var p, rtt := g.cb.pace.(rmtWnd := w.wnd), Diff(g.cb.pace.current, w.ts);
    if w.cmd == CMD_ACK && rtt >= 0 { SampleTaken(g.cb.cfg, p, rtt); }
  }

  lemma SampleTaken(cfg: Config, p: Pacing, rtt: i32)
    requires cfg.Valid() && Sane(p, rtt)
    ensures var q := UpdateAck(cfg, p, rtt);
      Smoothed(p, q, rtt) && TimedBy(cfg, q) && q == p.(srtt := q.srtt, rttval := q.rttval, rto := q.rto)
  {
    NoOverflow(p, rtt);
    hide ToI32, Wrap;
    var q := UpdateAck(cfg, p, rtt);
    assert Wrap(4 * q.rttval) == 4 * q.rttval;
    assert forall x: nat :: x < M ==> Wrap(x) == x;
    hide TruncDiv;
  }

  lemma NoOverflow(p: Pacing, rtt: i32)
    requires Sane(p, rtt)
    ensures ToI32(3 * p.rttval) == 3 * p.rttval && ToI32(7 * p.srtt) == 7 * p.srtt
    ensures ToI32(7 * p.srtt + rtt) == 7 * p.srtt + rtt
    ensures forall a: int, b: int :: 0 <= a < HALF && b > 0 ==>
      0 <= TruncDiv(a, b) <= a && ToI32(TruncDiv(a, b)) == TruncDiv(a, b)
  {
    forall a: int, b: int | 0 <= a < HALF && b > 0
      ensures 0 <= TruncDiv(a, b) <= a && ToI32(TruncDiv(a, b)) == TruncDiv(a, b)
    {
      DivWithin(a, b);
    }
  }

  // ----- the congestion window

  /** The fields congestion control works on. */
  predicate SameWindow(p: Pacing, q: Pacing) { q.cwnd == p.cwnd && q.ssthresh == p.ssthresh && q.incr == p.incr }

  lemma {:induction false} AllPace(g: Reading, ws: seq<Wire>)
    ensures SameWindow(g.cb.pace, ApplyAll(g, ws).cb.pace) && ApplyAll(g, ws).cb.cfg == g.cb.cfg
    decreases |ws|
  {
    hide ApplyWire;
    if ws != [] {
      WireWindow(g, ws[0]);
      AllPace(ApplyWire(g, ws[0]), ws[1..]);
    }
  }

  lemma WireWindow(g: Reading, w: Wire)
    ensures SameWindow(g.cb.pace, ApplyWire(g, w).cb.pace)
  {
    hide Diff, ApplyPush, DropBelow, FindAcked;
    SampleAside(g.cb.cfg, g.cb.pace.(rmtWnd := w.wnd), Diff(g.cb.pace.current, w.ts));
    hide UpdateAck;
  }

  lemma SampleAside(cfg: Config, p: Pacing, rtt: i32)
    ensures SameWindow(p, UpdateAck(cfg, p, rtt))
  {
    hide ToI32, TruncDiv, Wrap;
  }

  /** What the window becomes at or beyond the threshold: the credit, of a segment at least, grows by a segment's
      share of it and a sixteenth; when it has reached one segment more than the window, the window becomes the
      number of segments that hold it, within the peer's. */
  predicate Credited(p: Pacing, q: Pacing, mss: int, share: int, n: int)
  {
    var credit := Max(p.incr, mss);
    var more := credit + share + mss / 16;
    && share * credit <= mss * mss < share * credit + credit
    && n * mss - mss < more <= n * mss
    && if more < p.cwnd * mss + mss then q.cwnd == p.cwnd && q.incr == more
       else if n <= q.rmtWnd then q.cwnd == n && q.incr == more
       else q.cwnd == q.rmtWnd && q.incr == q.rmtWnd * mss
  }

  /** Within these bounds no product of the congestion window leaves 32 bits. */
  predicate Moderate(cfg: Config, p: Pacing) { p.cwnd < 0x1_0000 && p.incr < 0x4000_0000 && cfg.mtu < 0x4000 }

  /** One step of the window. */
  predicate Opened(p: Pacing, q: Pacing, mss: int, share: int, n: int)
  {
    && p.cwnd <= q.cwnd <= q.rmtWnd
    && if p.cwnd < p.ssthresh then q.cwnd == p.cwnd + 1 && q.incr == p.incr + mss else Credited(p, q, mss, share, n)
  }

  lemma GrowOpens(cfg: Config, p: Pacing) returns (share: int, n: int)
    requires cfg.Valid() && Moderate(cfg, p) && p.cwnd < p.rmtWnd < 0x1_0000
    ensures Opened(p, Grow(cfg, p), cfg.Mss(), share, n) && Grow(cfg, p).ssthresh == p.ssthresh
    ensures Grow(cfg, p).rmtWnd == p.rmtWnd
  {
    hide Wrap, UDiv;
    var mss: u32 := cfg.Mss();
    Product(p.cwnd + 1, mss);
    Product(p.rmtWnd, mss);
    Product(mss, mss);
    share, n := 0, 0;
    if p.cwnd >= p.ssthresh {
      var credit: u32, square: u32 := Max(p.incr, mss), mss * mss;
      share := UDiv(square, credit);
      SharePerCredit(mss, credit, share);
      var more: u32 := credit + share + mss / 16;
      n := UDiv(more + mss - 1, mss);
      CreditOpens(cfg, p, mss, credit, square, share, more, n);
    }
  }

  lemma Product(a: nat, b: nat)
    requires a <= 0x1_0000 && b < 0x4000
    ensures 0 <= a * b < 0x4000_0000
  {
    MulMonotone(a, 0x1_0000, b);
  }

  /** The share is at most a segment. */
  lemma SharePerCredit(mss: nat, credit: nat, share: nat)
    requires 0 < mss <= credit && share * credit <= mss * mss
    ensures share <= mss
  {
    if share > mss {
      MulMonotone(mss + 1, share, credit);
      MulMonotone(mss, credit, mss);
    }
  }

  lemma CreditOpens(cfg: Config, p: Pacing, mss: u32, credit: u32, square: u32, share: u32, more: u32, n: u32)
    requires cfg.Valid() && Moderate(cfg, p) && p.ssthresh <= p.cwnd < p.rmtWnd < 0x1_0000
    requires mss == cfg.Mss() && credit == Max(p.incr, mss) && square == mss * mss && share == UDiv(square, credit)
    requires more == credit + share + mss / 16 && more + mss - 1 < M && n == UDiv(more + mss - 1, mss)
    ensures Opened(p, Grow(cfg, p), mss, share, n)
  {
    hide UDiv, Grow, Wrap, Opened;
    Product(p.cwnd + 1, mss);
    Product(p.rmtWnd, mss);
    CreditIs(cfg, p, mss, credit, square, share, more, n);
    CreditedBy(p, Grow(cfg, p), mss, credit, share, more, n);
  }

  lemma CreditedBy(p: Pacing, q: Pacing, mss: int, credit: int, share: int, more: int, n: int)
    requires p.ssthresh <= p.cwnd < p.rmtWnd && mss > 0 && credit == Max(p.incr, mss)
    requires share * credit <= mss * mss < share * credit + credit && more == credit + share + mss / 16
    requires n * mss <= more + mss - 1 < n * mss + mss
    requires q.rmtWnd == p.rmtWnd
    requires if (p.cwnd + 1) * mss > more then q.cwnd == p.cwnd && q.incr == more
      else if n <= p.rmtWnd then q.cwnd == n && q.incr == more
      else q.cwnd == p.rmtWnd && q.incr == p.rmtWnd * mss
    ensures Opened(p, q, mss, share, n)
  {
    OneSegmentMore(p.cwnd, n, mss, more);
  }

  lemma OneSegmentMore(cwnd: int, n: int, mss: int, more: int)
    requires mss > 0
    ensures (cwnd + 1) * mss == cwnd * mss + mss
    ensures (cwnd + 1) * mss <= more <= n * mss ==> cwnd < n
  {
    if n <= cwnd { MulMonotone(n, cwnd, mss); }
  }

  lemma CreditIs(cfg: Config, p: Pacing, mss: u32, credit: u32, square: u32, share: u32, more: u32, n: u32)
    requires cfg.Valid() && p.ssthresh <= p.cwnd < p.rmtWnd
    requires mss == cfg.Mss() && credit == Max(p.incr, mss) && square == mss * mss && share == UDiv(square, credit)
    requires more == credit + share + mss / 16 && more + mss - 1 < M && n == UDiv(more + mss - 1, mss)
    requires p.cwnd + 1 < M && 0 <= (p.cwnd + 1) * mss < M && 0 <= p.rmtWnd * mss < M
    ensures Grow(cfg, p) ==
      if (p.cwnd + 1) * mss > more then p.(incr := more)
      else if n <= p.rmtWnd then p.(cwnd := n, incr := more)
      else p.(cwnd := p.rmtWnd, incr := p.rmtWnd * mss)
  {
    hide UDiv, Wrap;
  }

  /** The congestion window opens only when a datagram read to its end has acknowledged something new, and never
      beyond the peer's window: below the threshold by one segment, from there on by credit. */
  lemma InputOpensWindow(cb: Cb, data: seq<byte>) returns (share: int, n: int)
    requires CbOk(cb) && Moderate(cb.cfg, cb.pace) && Input(cb, data).0.pace.rmtWnd < 0x1_0000
    ensures var p, (cb', code) := cb.pace, Input(cb, data);
      var q := cb'.pace;
      && q.ssthresh == p.ssthresh
      && if code == 0 && Diff(cb'.snd.una, cb.snd.una) > 0 && p.cwnd < q.rmtWnd then
           Opened(p, q, cb.cfg.Mss(), share, n)
         else q.cwnd == p.cwnd && q.incr == p.incr
  {
    hide Parse, ApplyAll, Grow, ParseFastack, Opened;
    share, n := 0, 0;
    var ws := Parse(cb.cfg.conv, data).segs;
    var g := ApplyAll(Reading(cb, NoAck), ws);
    AllPace(Reading(cb, NoAck), ws);
    GrowAside(cb.cfg, g.cb.pace);
    if g.cb.pace.cwnd < g.cb.pace.rmtWnd && g.cb.pace.rmtWnd < 0x1_0000 {
      share, n := GrowOpens(cb.cfg, g.cb.pace);
      OpenedFrom(cb.pace, g.cb.pace, Grow(cb.cfg, g.cb.pace), cb.cfg.Mss(), share, n);
    }
  }

  lemma OpenedFrom(p: Pacing, p1: Pacing, q: Pacing, mss: int, share: int, n: int)
    requires SameWindow(p, p1) && Opened(p1, q, mss, share, n)
    ensures Opened(p, q, mss, share, n)
  {
  }

  lemma GrowAside(cfg: Config, p: Pacing)
    requires cfg.Valid()
    ensures Grow(cfg, p).rmtWnd == p.rmtWnd && Grow(cfg, p).ssthresh == p.ssthresh
    ensures p.cwnd >= p.rmtWnd ==> Grow(cfg, p) == p
  {
    hide UDiv, Wrap;
  }

  // ----- codes

  /** The bytes begin with a header that ikcp_input stops at. */
  function StopCode(conv: u32, b: seq<byte>): int
  {
    if |b| < 24 then 0
    else if Little(b[..4]) != conv then -1
    else if Little(b[20..24]) > |b| - 24 || Little(b[20..24]) >= HALF then -2
    else if b[4] !in {81, 82, 83, 84} then -3
    else 0
  }

  /** ikcp_input returns -1 on fewer bytes than a header. Good segments followed by a header of another
      conversation, of a length beyond the end or beyond 31 bits, or of an unknown command give -1, -2 and -3, and
      then the good ones are applied and nothing else; followed by less than a header they give 0. */
  lemma InputCodes(cb: Cb, ws: seq<Wire>, b: seq<byte>)
    requires cb.cfg.Valid() && AllSendable(cb.cfg.conv, ws)
    ensures ws == [] && |b| < 24 ==> Input(cb, EncodeAll(ws) + b) == (cb, -1)
    ensures ws != [] && |b| < 24 ==> Input(cb, EncodeAll(ws) + b).1 == 0
    ensures StopCode(cb.cfg.conv, b) != 0 ==>
      Input(cb, EncodeAll(ws) + b) == (ApplyAll(Reading(cb, NoAck), ws).cb, StopCode(cb.cfg.conv, b))
  {
    hide Little, Parse, ApplyAll, Settle;
    ParseBehind(cb.cfg.conv, ws, b);
    ParseStops(cb.cfg.conv, b);
    assert ws + [] == ws;
    if ws != [] { assert |EncodeAll(ws)| >= 24; }
  }
}
