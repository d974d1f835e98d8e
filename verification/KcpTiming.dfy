/**
  Batching of segments into datagrams, and agreement between ikcp_update and ikcp_check.
 */
module KcpTiming {
  import opened Wrap32
  import opened KcpTypes
  import opened KcpWire
  import opened KcpSpec
  import opened KcpInvariants
  import opened KcpNetwork

  /** The datagrams a flush sends. */
  function FlushDatagrams(cb: Cb): (ds: seq<seq<byte>>)
    requires cb.cfg.Valid()
  {
    Batches(cb.cfg.mtu, Flush(cb).wires, 0, 0)
  }

  /** The segments of the k-th datagram. */
  function Group(cb: Cb, k: nat): (ws: seq<Wire>)
    requires cb.cfg.Valid() && k < |FlushDatagrams(cb)|
  {
    CutsInRange(cb.cfg.mtu, Flush(cb).wires, 0, 0);
    var c := Cuts(cb.cfg.mtu, Flush(cb).wires, 0, 0)[k];
    Flush(cb).wires[c.lo..c.hi]
  }

  /** The datagrams of a flush hold all segments written, each once and in order, and none is empty
      or longer than the mtu. */
  lemma FlushBatches(cb: Cb)
    requires CbOk(cb)
    ensures Tiles(Cuts(cb.cfg.mtu, Flush(cb).wires, 0, 0), 0, |Flush(cb).wires|)
    ensures forall d :: d in FlushDatagrams(cb) ==> 0 < |d| <= cb.cfg.mtu
  {
    hide Flush, SenderOk, ReceiverOk, Encode, Need, EncodeAll;
    var ws := Flush(cb).wires;
    FlushEncodable(cb);
    CutsTile(cb.cfg.mtu, ws, 0, 0);
    CutsInRange(cb.cfg.mtu, ws, 0, 0);
    var cs := Cuts(cb.cfg.mtu, ws, 0, 0);
    forall d | d in FlushDatagrams(cb) ensures 0 < |d| <= cb.cfg.mtu {
      var k :| 0 <= k < |cs| && FlushDatagrams(cb)[k] == d;
      assert cs[k] in cs;
    }
  }

  lemma {:induction false} TilesNext(cs: seq<Span>, lo: nat, hi: nat, k: nat)
    requires Tiles(cs, lo, hi) && k + 1 < |cs|
    ensures cs[k + 1].lo == cs[k].hi < cs[k + 1].hi
    decreases k
  {
    if k > 0 { TilesNext(cs[1..], cs[0].hi, hi, k - 1); }
  }

  /** A datagram is sent only when the next segment would not fit into it: none could have been saved by waiting. */
  lemma FlushFillsDatagrams(cb: Cb, k: nat)
    requires CbOk(cb) && k + 1 < |FlushDatagrams(cb)|
    ensures Group(cb, k + 1) != [] && |FlushDatagrams(cb)[k]| + Need(Group(cb, k + 1)[0]) > cb.cfg.mtu
  {
    hide Flush, SenderOk, ReceiverOk, Encode, Need, EncodeAll;
    var ws := Flush(cb).wires;
    FlushEncodable(cb);
    CutsTile(cb.cfg.mtu, ws, 0, 0);
    CutsInRange(cb.cfg.mtu, ws, 0, 0);
    CutsGreedy(cb.cfg.mtu, ws, 0, 0);
    TilesNext(Cuts(cb.cfg.mtu, ws, 0, 0), 0, |ws|, k);
  }

  /** A peer with the same conv applies exactly the segments of a datagram, in order, with nothing
      left over, and returns 0. */
  lemma PeerReadsBatch(cb: Cb, peer: Cb, k: nat)
    requires CbOk(cb) && peer.cfg.Valid() && peer.cfg.conv == cb.cfg.conv
    requires k < |FlushDatagrams(cb)|
    ensures Parse(peer.cfg.conv, FlushDatagrams(cb)[k]) == Parsed(Group(cb, k), 0)
    ensures var g := ApplyAll(Reading(peer, NoAck), Group(cb, k));
      g.cb.cfg == peer.cfg && Input(peer, FlushDatagrams(cb)[k]) == (Settle(g, peer.snd.una), 0)
  {
    hide Flush, SenderOk, ReceiverOk, Encode, ApplyAll, Settle, Parse, Need, EncodeAll;
    FlushEncodable(cb);
    CutsInRange(cb.cfg.mtu, Flush(cb).wires, 0, 0);
    ParseEncodeAll(cb.cfg.conv, Group(cb, k));
    ApplyAllKeepsConfig(Reading(peer, NoAck), Group(cb, k));
  }

  /** The datagrams with their unbounded numbers are, byte for byte, those the flush sends. */
  lemma PacketsAreDatagrams(e: End)
    requires e.cb.cfg.Valid()
    ensures |Flushing(e).1| == |FlushDatagrams(e.cb)|
    ensures forall k :: 0 <= k < |Flushing(e).1| ==> Flushing(e).1[k].bytes == FlushDatagrams(e.cb)[k]
  {
    hide AdmitCount, Admit, TransmitAll, TallyOf, DataWires, Congest, EncodeAll, WireNos;
    CutsInRange(e.cb.cfg.mtu, Flush(e.cb).wires, 0, 0);
  }

  // ----- retransmission

  lemma {:induction false} DataWiresHold(cb: Cb, p: Pacing, buf: seq<OutSeg>, i: nat)
    requires i < |buf| && Decide(cb.cfg, p, buf[i]) != Keep
    ensures WireOf(cb, Transmit(cb, p, buf[i])) in DataWires(cb, p, buf)
    decreases i
  {
    hide Decide, WireOf, Transmit;
    if i > 0 {
      assert buf[1..][i - 1] == buf[i];
      DataWiresHold(cb, p, buf[1..], i - 1);
    }
  }

  /** The wait before the next transmission of a segment that has just been transmitted. */
  function Delay(cfg: Config, p: Pacing, why: Why, rto: u32): u32
  {
    Wrap(rto + (if why == First && cfg.nodelay == 0 then p.rto / 8 else 0))
  }

  lemma DelayAhead(current: u32, d: u32)
    ensures Diff(current, Wrap(current + d)) < 0 <==> 0 < d <= HALF
  {
    if d <= HALF {
      DiffIsExact(current, current + d);
    } else {
      DiffIsExact(current, current + d - M);
      WrapLess(current + d);
    }
  }

  lemma WrapLess(x: int)
    ensures Wrap(x - M) == Wrap(x)
  {
  }

  /** A flush transmits every segment that is new, timed out or skipped often enough, and afterwards no
      segment is timed out, unless its doubled timeout has left the range the comparison can tell. */
  lemma DueAreSent(cb: Cb, i: nat)
    requires CbOk(cb) && cb.pace.updated && i < |Numbered(cb).buf|
    ensures |Flush(cb).cb.snd.buf| == |Numbered(cb).buf|
    ensures var p, seg, seg' := Probe(cb.pace), Numbered(cb).buf[i], Flush(cb).cb.snd.buf[i];
      var why := Decide(cb.cfg, p, seg);
      && (why != Keep ==> WireOf(cb, seg') in Flush(cb).wires)
      && (why == Keep ==> seg' == seg)
      && (Diff(cb.pace.current, seg'.resendts) < 0 <==> why == Keep || 0 < Delay(cb.cfg, p, why, seg'.rto) <= HALF)
  {
    hide Admit, AdmitCount, SendWindow, Congest, TallyOf, DataWires, WireOf, CbOk, BackedOff, Diff;
    var p, seg := Probe(cb.pace), Numbered(cb).buf[i];
    SameClock(cb.pace);
    Rescheduled(cb, p, seg);
    if Decide(cb.cfg, p, seg) != Keep { DataWiresHold(cb, p, Numbered(cb).buf, i); }
    hide Probe, Decide, Transmit, Delay;
  }

  lemma SameClock(p: Pacing)
    ensures Probe(p).current == p.current
  {
  }

  lemma Rescheduled(cb: Cb, p: Pacing, seg: OutSeg)
    ensures var why, seg' := Decide(cb.cfg, p, seg), Transmit(cb, p, seg);
      && (why == Keep ==> seg' == seg)
      && (Diff(p.current, seg'.resendts) < 0 <==> why == Keep || 0 < Delay(cb.cfg, p, why, seg'.rto) <= HALF)
  {
    hide Diff, Wrap, BackedOff, WndUnused;
    var why, seg' := Decide(cb.cfg, p, seg), Transmit(cb, p, seg);
    if why != Keep {
      WrapPlus(seg'.rto + (if why == First && cb.cfg.nodelay == 0 then p.rto / 8 else 0), p.current);
      DelayAhead(p.current, Delay(cb.cfg, p, why, seg'.rto));
    }
  }

  // ----- the flush timer

  lemma FlushKeepsTimer(cb: Cb)
    requires cb.cfg.Valid()
    ensures var p, q := Flush(cb).cb.pace, cb.pace;
      p.tsFlush == q.tsFlush && p.current == q.current && p.updated == q.updated
  {
    hide Admit, TransmitAll, TallyOf, DataWires, SendWindow, AdmitCount, Resent, AckWires;
  }

  lemma AddMs(t: u32, d: int)
    requires -HALF <= d < HALF
    ensures Diff(Wrap(t + d), t) == d
    ensures d > -HALF ==> Diff(t, Wrap(t + d)) == -d
  {
    hide Diff, Wrap;
    DiffIsExact(t + d, t);
    DiffIsExact(t, t + d);
  }

  lemma DiffStep(t: u32, s: u32, d: int)
    requires -HALF <= Diff(t, s) + d < HALF
    ensures Diff(Wrap(t + d), s) == Diff(t, s) + d
  {
    hide Diff, Wrap;
    var k := Diff(t, s);
    DiffIsExact(s + k + d, s);
    WrapPlus(s + k, d);
  }

  lemma DiffFlip(t: u32, s: u32)
    requires Diff(t, s) > -HALF
    ensures Diff(s, t) == -Diff(t, s)
  {
    DiffIsExact(s, s + Diff(t, s));
  }

  /** After ikcp_update the next flush is 1 to 10000 ms away, and at most `interval` when it flushed. */
  lemma TickArmsTimer(cfg: Config, p: Pacing, current: u32)
    requires cfg.Valid()
    ensures var q := Tick(cfg, p, current);
      && q.updated && q.current == current
      && 1 <= Diff(q.tsFlush, current) <= 10000
      && (FlushDue(p, current) ==> Diff(q.tsFlush, current) <= cfg.interval)
  {
    hide Diff, Wrap, Resync;
    var ts := if p.updated then Resync(p.tsFlush, current) else current;
    AddMs(current, 0);
    AddMs(current, cfg.interval);
    ResyncNear(p.tsFlush, current);
    StepFrom(ts, current, cfg.interval);
  }

  lemma ResyncNear(ts: u32, current: u32)
    ensures -10000 <= Diff(current, Resync(ts, current)) < 10000
  {
    hide Diff;
    AddMs(current, 0);
  }

  lemma StepFrom(ts: u32, current: u32, interval: int)
    requires -10000 <= Diff(current, ts) < 10000 && 0 <= interval <= 5000
    ensures Diff(ts, current) == -Diff(current, ts)
    ensures Diff(Wrap(ts + interval), current) == interval - Diff(current, ts)
    ensures Diff(current, Wrap(ts + interval)) == Diff(current, ts) - interval
  {
    hide Diff, Wrap;
    DiffFlip(current, ts);
    DiffStep(ts, current, interval);
    DiffFlip(Wrap(ts + interval), current);
  }

  lemma UpdateArmsTimer(cb: Cb, current: u32)
    requires cb.cfg.Valid()
    ensures var q := Update(cb, current).cb.pace;
      && q.updated && q.current == current
      && 1 <= Diff(q.tsFlush, current) <= 10000
      && (FlushDue(cb.pace, current) ==> Diff(q.tsFlush, current) <= cb.cfg.interval)
  {
    hide Tick, FlushDue, Flush, Diff;
    TickArmsTimer(cb.cfg, cb.pace, current);
    FlushKeepsTimer(cb.(pace := Tick(cb.cfg, cb.pace, current)));
  }

  /** The timer an update leaves behind when it flushes: one interval on from where it stood, if that is still to
      come, else from now; from now also on the first update, and when the timer is 10 seconds off. */
  function Rearmed(cb: Cb, current: u32): u32
  {
    var late := Diff(current, cb.pace.tsFlush);
    if cb.pace.updated && 0 <= late < cb.cfg.interval then Wrap(cb.pace.tsFlush + cb.cfg.interval)
    else Wrap(current + cb.cfg.interval)
  }

  /** The update at this time flushes: the first one, one at or after the timer, or one 10 seconds before it. */
  predicate FlushesNow(cb: Cb, current: u32)
  {
    !cb.pace.updated || Diff(current, cb.pace.tsFlush) >= 0 || Diff(current, cb.pace.tsFlush) < -10000
  }

  /** An update flushes with the clock and the timer moved on, or sets the clock and does nothing else. */
  lemma UpdateSteps(cb: Cb, current: u32)
    requires cb.cfg.Valid()
    ensures Update(cb, current) ==
      if FlushesNow(cb, current) then
        Flush(cb.(pace := cb.pace.(current := current, updated := true, tsFlush := Rearmed(cb, current))))
      else Flushed(cb.(pace := cb.pace.(current := current)), [])
  {
    hide Flush, Wrap, Diff;
    var late := Diff(current, cb.pace.tsFlush);
    AddMs(current, cb.cfg.interval);
    AddMs(current, 0);
    if 0 <= late < 10000 { StepFrom(cb.pace.tsFlush, current, cb.cfg.interval); }
  }

  /** A run of updates at unbounded times that never go back and are never half the clock apart. Between them anything
      may happen to the control block that leaves the flush timer alone. */
  datatype Ticks = Ticks(before: seq<Cb>, times: seq<int>)
  {
    function After(i: nat): Cb
      requires i < |before| && i < |times| && before[i].cfg.Valid()
    {
      Update(before[i], Wrap(times[i])).cb
    }

    ghost predicate Valid()
    {
      && |before| == |times|
      && (forall i :: 0 <= i < |before| ==> before[i].cfg.Valid() && before[i].cfg == before[0].cfg)
      && forall i :: 0 < i < |before| ==>
           && 0 <= times[i] - times[i - 1] < HALF - 10000
           && before[i].pace.updated && before[i].pace.tsFlush == After(i - 1).pace.tsFlush
    }

    predicate FlushesAt(i: nat)
      requires i < |before| && i < |times|
    {
      FlushesNow(before[i], Wrap(times[i]))
    }

    /** When the flush after update i is due, as an unbounded time. */
    function DueAfter(i: nat): int
      requires i < |before| && i < |times| && before[i].cfg.Valid()
    {
      times[i] + Diff(After(i).pace.tsFlush, Wrap(times[i]))
    }
  }

  lemma DueAfterIs(u: Ticks, i: nat)
    requires u.Valid() && i < |u.before|
    ensures u.times[i] < u.DueAfter(i) <= u.times[i] + 10000
    ensures u.FlushesAt(i) ==> u.DueAfter(i) <= u.times[i] + u.before[0].cfg.interval
    ensures Wrap(u.DueAfter(i)) == u.After(i).pace.tsFlush
  {
    hide Update, Diff, Wrap;
    UpdateArmsTimer(u.before[i], Wrap(u.times[i]));
    FlushesIs(u.before[i], Wrap(u.times[i]));
    WrapPlus(u.times[i], Diff(u.After(i).pace.tsFlush, Wrap(u.times[i])));
  }

  lemma FlushesIs(cb: Cb, current: u32)
    ensures FlushesNow(cb, current) <==> FlushDue(cb.pace, current)
  {
    hide Diff;
    AddMs(current, 0);
  }

  /** The timer does not move back, and a flush moves it on by an interval at least. */
  lemma DueMovesOn(u: Ticks, i: nat)
    requires u.Valid() && 0 < i < |u.before|
    ensures u.DueAfter(i) >= u.DueAfter(i - 1) + if u.FlushesAt(i) then u.before[0].cfg.interval else 0
  {
    hide Update, Diff, Wrap, Flush;
    var cb, t, due := u.before[i], u.times[i], u.DueAfter(i - 1);
    DueAfterIs(u, i - 1);
    DueAfterIs(u, i);
    DiffIsExact(t, due);
    UpdateSteps(cb, Wrap(t));
    var step := cb.cfg.interval;
    var next := if u.FlushesAt(i) then (if t - due < step then due + step else t + step) else due;
    UpdatedTimer(cb, Wrap(t));
    WrapPlus(due, cb.cfg.interval);
    WrapPlus(t, cb.cfg.interval);
    DiffIsExact(next, t);
  }

  lemma UpdatedTimer(cb: Cb, current: u32)
    requires cb.cfg.Valid()
    ensures Update(cb, current).cb.pace.tsFlush ==
      if FlushesNow(cb, current) then Rearmed(cb, current) else cb.pace.tsFlush
  {
    hide Flush, Diff, Wrap, Update;
    UpdateSteps(cb, current);
    FlushKeepsTimer(cb.(pace := cb.pace.(current := current, updated := true, tsFlush := Rearmed(cb, current))));
  }

  /** Reading, sending, flushing and datagrams leave the timer alone. */
  lemma TimerLeftAlone(cb: Cb, data: seq<byte>, len: int)
    requires cb.cfg.Valid()
    ensures forall cb' :: cb' in {Input(cb, data).0, Recv(cb, len).cb, Send(cb, data).cb, Flush(cb).cb} ==>
      cb'.pace.tsFlush == cb.pace.tsFlush && cb'.pace.updated == cb.pace.updated && cb'.cfg == cb.cfg
  {
    hide Parse, Flush, Grow, ApplyAll, ParseFastack, Send, Release;
    FlushKeepsTimer(cb);
    SendAside(cb, data);
    FlushAside(cb);
    AllAside(Reading(cb, NoAck), Parse(cb.cfg.conv, data).segs);
    GrowTimer(cb.cfg, ApplyAll(Reading(cb, NoAck), Parse(cb.cfg.conv, data).segs).cb.pace);
  }

  lemma SendAside(cb: Cb, data: seq<byte>)
    requires cb.cfg.Valid()
    ensures Send(cb, data).cb.pace == cb.pace && Send(cb, data).cb.cfg == cb.cfg
  {
    hide Split, Count, TailRoom, ExtendTail, Send;
    SendCases(cb, data);
  }

  lemma FlushAside(cb: Cb)
    requires cb.cfg.Valid()
    ensures Flush(cb).cb.cfg == cb.cfg
  {
    hide Admit, TransmitAll, TallyOf, DataWires, SendWindow, AdmitCount, Resent, AckWires, Congest, Probe;
  }

  lemma GrowTimer(cfg: Config, p: Pacing)
    requires cfg.Valid()
    ensures Grow(cfg, p).tsFlush == p.tsFlush && Grow(cfg, p).updated == p.updated
  {
    hide UDiv, Wrap;
  }

  lemma {:induction false} AllAside(g: Reading, ws: seq<Wire>)
    ensures var p, p' := g.cb.pace, ApplyAll(g, ws).cb.pace;
      p'.tsFlush == p.tsFlush && p'.updated == p.updated && ApplyAll(g, ws).cb.cfg == g.cb.cfg
    decreases |ws|
  {
    hide ApplyWire;
    if ws != [] {
      WireAside(g, ws[0]);
      AllAside(ApplyWire(g, ws[0]), ws[1..]);
    }
  }

  lemma WireAside(g: Reading, w: Wire)
    ensures var p, p' := g.cb.pace, ApplyWire(g, w).cb.pace;
      p'.tsFlush == p.tsFlush && p'.updated == p.updated
  {
    hide Diff, ApplyPush, DropBelow, FindAcked, ToI32, TruncDiv, Wrap;
  }

  /** How many of the updates from i + 1 to j flush. */
  function FlushCount(u: Ticks, i: nat, j: nat): nat
    requires i <= j < |u.before| && |u.before| == |u.times|
  {
    if i == j then 0 else FlushCount(u, i, j - 1) + if u.FlushesAt(j) then 1 else 0
  }

  lemma {:induction false} DueGrows(u: Ticks, i: nat, j: nat)
    requires u.Valid() && i <= j < |u.before|
    ensures u.DueAfter(j) >= u.DueAfter(i) + FlushCount(u, i, j) * u.before[0].cfg.interval
    decreases j
  {
    hide Ticks.DueAfter, Ticks.FlushesAt;
    if i < j {
      DueGrows(u, i, j - 1);
      DueMovesOn(u, j);
      OneMoreTime(FlushCount(u, i, j - 1), u.before[0].cfg.interval);
    }
  }

  lemma OneMoreTime(m: nat, interval: nat)
    ensures (m + 1) * interval == m * interval + interval
  {
  }

  /** Every flush has an interval of time to itself: each falls into one that begins at or before it, and m flushes
      later the interval begins at least m intervals later. So n flushes in a row take more than n - 2 intervals. */
  lemma OneFlushPerInterval(u: Ticks, i: nat, j: nat)
    requires u.Valid() && i <= j < |u.before| && u.FlushesAt(i)
    ensures var interval, m := u.before[0].cfg.interval, FlushCount(u, i, j);
      && u.DueAfter(i) - interval <= u.times[i] < u.DueAfter(i)
      && u.DueAfter(j) >= u.DueAfter(i) + m * interval
      && (u.FlushesAt(j) && m > 0 ==> u.times[j] - u.times[i] > (m - 1) * interval)
  {
    hide Ticks.DueAfter, Ticks.FlushesAt, Ticks.After, FlushCount;
    DueAfterIs(u, i);
    DueAfterIs(u, j);
    DueGrows(u, i, j);
    var m := FlushCount(u, i, j);
    if m > 0 { OneMoreTime(m - 1, u.before[0].cfg.interval); }
  }

  /** The wait ikcp_check asks for: 0 when something is due now, never more than `interval`. */
  function Wait(cb: Cb, current: u32): (d: u32)
  {
    Wrap(Check(cb, current) - current)
  }

  lemma WaitIs(cb: Cb, current: u32)
    requires cb.cfg.Valid()
    ensures Wait(cb, current) ==
      if FlushDue(cb.pace, current) then 0
      else Min(Min(NextResend(cb.snd.buf, current, 0x7fff_ffff), Diff(Resync(cb.pace.tsFlush, current), current)),
               cb.cfg.interval)
  {
    hide NextResend;
    if !FlushDue(cb.pace, current) {
      var d := Min(Min(NextResend(cb.snd.buf, current, 0x7fff_ffff), Diff(Resync(cb.pace.tsFlush, current), current)),
                   cb.cfg.interval);
      DiffFlip(current, Resync(cb.pace.tsFlush, current));
      WrapPlus(current + d, 0 - current);
    }
  }

  lemma NotDueBefore(p: Pacing, current: u32, d: nat)
    requires !FlushDue(p, current) && d < Diff(p.tsFlush, current)
    ensures !FlushDue(p, Wrap(current + d))
  {
    hide Wrap, Diff;
    NotDueNow(p, current);
    DiffFlip(current, p.tsFlush);
    DiffStep(current, p.tsFlush, d);
  }

  /** Calling ikcp_update at any time before the answer of ikcp_check sends nothing and moves nothing
      but the clock. */
  lemma CheckIsSafe(cb: Cb, current: u32, d: nat)
    requires cb.cfg.Valid() && d < Wait(cb, current)
    ensures Update(cb, Wrap(current + d)) == Flushed(cb.(pace := cb.pace.(current := Wrap(current + d))), [])
    ensures Wait(cb, current) <= cb.cfg.interval
  {
    hide Wait, FlushDue, NextResend;
    WaitIs(cb, current);
    NotDueNow(cb.pace, current);
    NotDueBefore(cb.pace, current, d);
    NotDueNow(cb.pace, Wrap(current + d));
  }

  lemma NotDueNow(p: Pacing, current: u32)
    requires !FlushDue(p, current)
    ensures Resync(p.tsFlush, current) == p.tsFlush && p.updated
    ensures forall cfg: Config :: cfg.Valid() ==> Tick(cfg, p, current) == p.(current := current)
  {
  }

  /** The answer is not early either: at that time the flush timer has run out, or a segment's
      retransmission time has come, or a whole interval has passed. */
  lemma CheckIsTight(cb: Cb, current: u32)
    requires cb.cfg.Valid()
    ensures var t := Check(cb, current);
      || FlushDue(cb.pace, t)
      || (exists i :: 0 <= i < |cb.snd.buf| && Diff(cb.snd.buf[i].resendts, t) <= 0)
      || t == Wrap(current + cb.cfg.interval)
  {
    hide Diff, Wrap, FlushDue, Resync, NextResend;
    var p, r := cb.pace, NextResend(cb.snd.buf, current, 0x7fff_ffff);
    CheckCases(cb, current);
    if !FlushDue(p, current) {
      NotDueNow(p, current);
      if r < 0x7fff_ffff { ResendIsDue(cb.snd.buf, current, 0x7fff_ffff); }
      DueThen(p, current, Diff(p.tsFlush, current));
    }
  }

  lemma CheckCases(cb: Cb, current: u32)
    ensures FlushDue(cb.pace, current) ==> Check(cb, current) == current
    ensures !FlushDue(cb.pace, current) ==>
      && 0 <= Diff(cb.pace.tsFlush, current) <= 10000
      && Check(cb, current)
         == Wrap(current + Min(Min(NextResend(cb.snd.buf, current, 0x7fff_ffff), Diff(cb.pace.tsFlush, current)),
                            cb.cfg.interval))
  {
    hide NextResend, Wrap, Diff;
    AddMs(current, 0);
    if !FlushDue(cb.pace, current) { DiffFlip(current, cb.pace.tsFlush); }
  }

  lemma DueThen(p: Pacing, current: u32, d: int)
    requires d == Diff(p.tsFlush, current) && 0 <= d <= 10000
    ensures FlushDue(p, Wrap(current + d))
  {
    hide Wrap, Diff;
    DiffFlip(p.tsFlush, current);
    DiffStep(current, p.tsFlush, d);
  }

  lemma {:induction false} ResendIsDue(buf: seq<OutSeg>, current: u32, soonest: int)
    requires 0 <= NextResend(buf, current, soonest) < soonest < HALF
    ensures exists i :: 0 <= i < |buf| && Diff(buf[i].resendts, Wrap(current + NextResend(buf, current, soonest))) <= 0
  {
    hide Diff, Wrap;
    if buf != [] {
      var diff, t := Diff(buf[0].resendts, current), Wrap(current + NextResend(buf, current, soonest));
      if diff > 0 && NextResend(buf, current, soonest) < Min(soonest, diff) {
        ResendIsDue(buf[1..], current, Min(soonest, diff));
        var i :| 0 <= i < |buf[1..]| && Diff(buf[1..][i].resendts, t) <= 0;
        assert buf[i + 1] == buf[1..][i];
      } else {
        ReachedAt(buf[0].resendts, current);
        assert Diff(buf[0].resendts, t) <= 0;
      }
    }
  }

  lemma ReachedAt(ts: u32, current: u32)
    ensures var d := Diff(ts, current); Diff(ts, Wrap(current + (if d <= 0 then 0 else d))) <= 0
  {
    var d := Diff(ts, current);
    if d > 0 {
      assert Wrap(current + d) == ts;
    }
  }
}
