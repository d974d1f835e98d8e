/**
  What one flush does, field by field: how many fragments it numbers, which segments it writes, what becomes of their
  timers, and how the congestion window and the probe timer go on.
 */
module KcpSending {
  import opened Wrap32
  import opened KcpTypes
  import opened KcpSpec
  import opened KcpInvariants
  import opened KcpNetwork
  import opened KcpTiming

  // ----- admission

  /** The window of a sender: its own, the peer's, and the congestion window unless that is turned off. */
  function Allowance(cb: Cb): (w: nat)
  {
    var w := Min(cb.cfg.sndWnd, cb.pace.rmtWnd);
    if cb.cfg.nocwnd then w else Min(w, cb.pace.cwnd)
  }

  lemma WindowIs(cb: Cb)
    ensures SendWindow(cb.cfg, Probe(cb.pace)) == Allowance(cb)
  {
  }

  /** The first n fragments of snd_queue have gone to the end of snd_buf, in order and with the next numbers. */
  predicate Moves(s: Sender, s': Sender, n: int)
  {
    && 0 <= n <= |s.queue| && s'.una == s.una && s'.queue == s.queue[n..] && |s'.buf| == |s.buf| + n
    && (forall i :: 0 <= i < |s.buf| ==> s'.buf[i].sn == s.buf[i].sn && s'.buf[i].frag == s.buf[i].frag)
    && forall i :: |s.buf| <= i < |s.buf| + n ==>
         s'.buf[i].frag == s.queue[i - |s.buf|] && s'.buf[i].sn == Wrap(s.nxt + i - |s.buf|)
  }

  /** A flush numbers fragments until snd_queue is empty or the window is full, no fewer and no more. */
  lemma FlushFillsWindow(cb: Cb)
    requires CbOk(cb) && cb.pace.updated
    ensures var s, s' := cb.snd, Flush(cb).cb.snd;
      var a, a' := Age(s.nxt, s.una), Age(s'.nxt, s'.una);
      && a' == Max(a, Min(a + |s.queue|, Allowance(cb)))
      && (s'.queue == [] || a' >= Allowance(cb))
      && Moves(s, s', a' - a)
  {
    assert cb.cfg.Valid();
    hide CbOk, Flush, Numbered, Moves, Age, Allowance, Transmit;
    NumberedFills(cb);
    FlushedAre(cb);
    FlushQueue(cb);
    var n := Age(Numbered(cb).nxt, Numbered(cb).una) as int - Age(cb.snd.nxt, cb.snd.una);
    MovesOn(cb.snd, Numbered(cb), Flush(cb).cb.snd, n);
  }

  lemma NumberedFills(cb: Cb)
    requires CbOk(cb)
    ensures var s, s' := cb.snd, Numbered(cb);
      var a, a' := Age(s.nxt, s.una), Age(s'.nxt, s'.una);
      a' == Max(a, Min(a + |s.queue|, Allowance(cb))) && Moves(s, s', a' - a)
  {
    hide Admit, SenderOk, ReceiverOk, Wrap, Allowance, Probe, Numbered;
    NumberedIs(cb);
    var n := AdmitCount(cb.snd, Allowance(cb));
    AdmittedAre(cb, n);
    AdmitBound(cb, Allowance(cb));
    AdmitSorts(cb, Probe(cb.pace), n);
    assert Moves(cb.snd, Numbered(cb), n);
  }

  lemma MovesOn(s: Sender, s1: Sender, s': Sender, n: int)
    requires Moves(s, s1, n) && s'.una == s1.una && s'.queue == s1.queue && |s'.buf| == |s1.buf|
    requires forall i :: 0 <= i < |s1.buf| ==> s'.buf[i].sn == s1.buf[i].sn && s'.buf[i].frag == s1.buf[i].frag
    ensures Moves(s, s', n)
  {
    hide Wrap;
  }

  lemma NumberedIs(cb: Cb)
    ensures Numbered(cb) == Admit(cb, Probe(cb.pace), AdmitCount(cb.snd, Allowance(cb)))
    ensures Allowance(cb) <= cb.cfg.sndWnd
  {
    WindowIs(cb);
    hide Admit, AdmitCount, Probe, SendWindow;
  }

  lemma AdmittedAre(cb: Cb, n: nat)
    requires n <= |cb.snd.queue|
    ensures var s, s' := cb.snd, Admit(cb, Probe(cb.pace), n);
      && s'.una == s.una && s'.queue == s.queue[n..] && |s'.buf| == |s.buf| + n
      && (forall i :: 0 <= i < |s.buf| ==> s'.buf[i] == s.buf[i])
      && forall i :: |s.buf| <= i < |s.buf| + n ==>
           s'.buf[i].frag == s.queue[i - |s.buf|] && s'.buf[i].sn == Wrap(s.nxt + i - |s.buf|)
  {
    hide Probe, Wrap;
  }

  lemma FlushQueue(cb: Cb)
    requires cb.cfg.Valid() && cb.pace.updated
    ensures var s, s' := Numbered(cb), Flush(cb).cb.snd;
      s'.una == s.una && s'.nxt == s.nxt && s'.queue == s.queue
  {
    hide Congest, TallyOf, Transmit, DataWires, Admit, AdmitCount, SendWindow, Probe, AckWires, ProbeWires;
  }

  lemma FlushedAre(cb: Cb)
    requires cb.cfg.Valid() && cb.pace.updated
    ensures |Flush(cb).cb.snd.buf| == |Numbered(cb).buf|
    ensures forall i :: 0 <= i < |Numbered(cb).buf| ==>
      Flush(cb).cb.snd.buf[i] == Transmit(cb, Probe(cb.pace), Numbered(cb).buf[i])
  {
    hide Congest, TallyOf, Transmit, DataWires, Admit, AdmitCount, SendWindow, Probe, AckWires, ProbeWires;
  }

  // ----- transmission

  predicate Expired(cb: Cb, seg: OutSeg) { Diff(cb.pace.current, seg.resendts) >= 0 }

  /** Later segments were acknowledged often enough, and the segment was not sent too often. */
  predicate Skipped(cb: Cb, seg: OutSeg)
  {
    && seg.fastack >= (if cb.cfg.fastresend > 0 then cb.cfg.fastresend else UINT_MAX)
    && (ToI32(seg.xmit) <= cb.cfg.fastlimit || cb.cfg.fastlimit <= 0)
  }

  /** A segment never sent, with an expired timer, or skipped. */
  predicate Due(cb: Cb, seg: OutSeg) { seg.xmit == 0 || Expired(cb, seg) || Skipped(cb, seg) }

  /** The free part of the receive window. */
  function Free(cb: Cb): u32 { if |cb.rcv.queue| < cb.cfg.rcvWnd then cb.cfg.rcvWnd - |cb.rcv.queue| else 0 }

  /** The extra wait of a first transmission. */
  function Grace(cb: Cb): nat { if cb.cfg.nodelay == 0 then cb.pace.rto / 8 else 0 }

  /** The timeout after one more expiry. */
  function Longer(cb: Cb, rto: u32): u32
  {
    if cb.cfg.nodelay == 0 then Wrap(rto + Max(rto, cb.pace.rto))
    else if cb.cfg.nodelay == 1 then Wrap(rto + TruncDiv(ToI32(rto), 2))
    else Wrap(rto + TruncDiv(ToI32(cb.pace.rto), 2))
  }

  /** A segment as it is written now: with the clock, the free window and the next number expected. */
  predicate Stamped(cb: Cb, seg: OutSeg)
  {
    seg.ts == cb.pace.current && seg.wnd == Free(cb) && seg.una == cb.rcv.nxt
  }

  /** What a flush makes of a segment that was in snd_buf. */
  predicate Treated(cb: Cb, seg: OutSeg, seg': OutSeg)
  {
    && seg'.sn == seg.sn && seg'.frag == seg.frag
    && (!Due(cb, seg) ==> seg' == seg)
    && (Due(cb, seg) ==> Stamped(cb, seg') && seg'.xmit == Wrap(seg.xmit + 1))
    && (seg.xmit == 0 ==>
          seg'.rto == cb.pace.rto && seg'.resendts == Wrap(cb.pace.current + seg'.rto + Grace(cb)) &&
          seg'.fastack == seg.fastack)
    && (seg.xmit != 0 && Expired(cb, seg) ==>
          seg'.rto == Longer(cb, seg.rto) && seg'.resendts == Wrap(cb.pace.current + seg'.rto) &&
          seg'.fastack == seg.fastack)
    && (seg.xmit != 0 && !Expired(cb, seg) && Skipped(cb, seg) ==>
          seg'.rto == seg.rto && seg'.resendts == Wrap(cb.pace.current + seg'.rto) && seg'.fastack == 0)
  }

  lemma TransmitTreats(cb: Cb, seg: OutSeg)
    ensures Treated(cb, seg, Transmit(cb, Probe(cb.pace), seg))
    ensures Due(cb, seg) <==> Decide(cb.cfg, Probe(cb.pace), seg) != Keep
  {
    hide Diff, Wrap;
    SameClock(cb.pace);
    SameRto(cb.pace);
    hide Probe;
  }

  lemma SameRto(p: Pacing)
    ensures Probe(p).rto == p.rto
  {
  }

  /** Every segment is treated by its own fields: left alone, sent again after an expiry or a skip; and every new
      one is sent for the first time. */
  lemma FlushTreatsSegments(cb: Cb, i: nat)
    requires CbOk(cb) && cb.pace.updated && i < |Flush(cb).cb.snd.buf|
    ensures var s, seg' := cb.snd, Flush(cb).cb.snd.buf[i];
      if i < |s.buf| then Treated(cb, s.buf[i], seg')
      else
        i - |s.buf| < |s.queue| &&
        seg' == OutSeg(s.queue[i - |s.buf|], Free(cb), cb.pace.current, Wrap(s.nxt + i - |s.buf|), cb.rcv.nxt,
                       Wrap(cb.pace.current + cb.pace.rto + Grace(cb)), cb.pace.rto, 0, 1)
  {
    hide Congest, TallyOf, DataWires, Probe, SendWindow, SenderOk, ReceiverOk, Wrap, AckWires, ProbeWires, Transmit,
      Diff, Treated;
    var p := Probe(cb.pace);
    var seg := Numbered(cb).buf[i];
    TransmitTreats(cb, seg);
    if i >= |cb.snd.buf| {
      SameClock(cb.pace);
      NewIsSent(cb, i - |cb.snd.buf|);
    }
  }

  lemma NewIsSent(cb: Cb, j: nat)
    requires j < |cb.snd.queue|
    ensures var seg' := Transmit(cb, Probe(cb.pace), NewSeg(cb, Probe(cb.pace), j));
      seg' == OutSeg(cb.snd.queue[j], Free(cb), cb.pace.current, Wrap(cb.snd.nxt + j), cb.rcv.nxt,
                     Wrap(cb.pace.current + cb.pace.rto + Grace(cb)), cb.pace.rto, 0, 1)
  {
    hide Wrap, Diff;
    SameClock(cb.pace);
    SameRto(cb.pace);
    hide Probe;
  }

  /** When a timer has expired the timeout gets longer, unless the sum leaves 32 bits: it at least doubles without
      nodelay and grows by half with it; with nodelay of 2 and more it grows by half the current estimate. */
  lemma TimeoutGrows(cb: Cb, i: nat)
    requires CbOk(cb) && cb.pace.updated && i < |cb.snd.buf| && i < |Flush(cb).cb.snd.buf|
    requires cb.snd.buf[i].xmit != 0 && Expired(cb, cb.snd.buf[i])
    ensures var rto, rto', r := cb.snd.buf[i].rto, Flush(cb).cb.snd.buf[i].rto, cb.pace.rto;
      && (cb.cfg.nodelay == 0 ==> (rto' >= rto <==> rto + Max(rto, r) < M || Max(rto, r) == 0))
      && (cb.cfg.nodelay == 0 && rto + Max(rto, r) < M ==> rto' >= 2 * rto && rto' >= rto + r)
      && (cb.cfg.nodelay == 1 ==> (rto' >= rto <==> rto < HALF || rto >= M - 1))
      && (cb.cfg.nodelay == 1 && rto < HALF ==> 2 * rto' >= 3 * rto - 1)
      && (cb.cfg.nodelay >= 2 && r <= RTO_MAX ==> (rto' >= rto <==> rto + r / 2 < M))
      && (cb.cfg.nodelay >= 2 && r <= RTO_MAX && rto + r / 2 < M ==> 2 * rto' >= 2 * rto + r - 1)
  {
    hide Flush, CbOk, Diff;
    FlushTreatsSegments(cb, i);
    LongerGrows(cb, cb.snd.buf[i].rto);
    hide Longer;
  }

  lemma LongerGrows(cb: Cb, rto: u32)
    ensures var rto', r := Longer(cb, rto), cb.pace.rto;
      && (cb.cfg.nodelay == 0 ==> (rto' >= rto <==> rto + Max(rto, r) < M || Max(rto, r) == 0))
      && (cb.cfg.nodelay == 0 && rto + Max(rto, r) < M ==> rto' >= 2 * rto && rto' >= rto + r)
      && (cb.cfg.nodelay == 1 ==> (rto' >= rto <==> rto < HALF || rto >= M - 1))
      && (cb.cfg.nodelay == 1 && rto < HALF ==> 2 * rto' >= 3 * rto - 1)
      && (cb.cfg.nodelay >= 2 && r <= RTO_MAX ==> (rto' >= rto <==> rto + r / 2 < M))
      && (cb.cfg.nodelay >= 2 && r <= RTO_MAX && rto + r / 2 < M ==> 2 * rto' >= 2 * rto + r - 1)
  {
    HalfOf(rto);
    HalfOf(cb.pace.rto);
    if cb.cfg.nodelay == 0 {
      SumWraps(rto, Max(rto, cb.pace.rto));
    } else {
      SumWraps(rto, if cb.cfg.nodelay == 1 then TruncDiv(ToI32(rto), 2) else TruncDiv(ToI32(cb.pace.rto), 2));
    }
    hide Wrap, ToI32, TruncDiv;
  }

  lemma SumWraps(a: u32, b: int)
    requires -M < b < M
    ensures Wrap(a + b) == if a + b < 0 then a + b + M else if a + b < M then a + b else a + b - M
  {
  }

  /** Half of a word read as signed. */
  lemma HalfOf(x: u32)
    ensures x < HALF ==> TruncDiv(ToI32(x), 2) == x / 2
    ensures x >= HALF ==> TruncDiv(ToI32(x), 2) == -((M - x) / 2)
  {
  }

  // ----- what is written

  /** The segments of snd_buf that a flush writes, by their places: those that are due and the new ones. */
  ghost predicate Picks(cb: Cb, buf: seq<OutSeg>, places: seq<nat>)
  {
    && (forall k :: 0 <= k < |places| ==> places[k] < |buf|)
    && (forall k, l :: 0 <= k < l < |places| ==> places[k] < places[l])
    && forall i :: 0 <= i < |buf| ==> (i in places <==> i >= |cb.snd.buf| || Due(cb, cb.snd.buf[i]))
  }

  /** A PUSH with the fields of a segment. */
  predicate Shows(cb: Cb, w: Wire, seg: OutSeg)
  {
    w == Wire(cb.cfg.conv, CMD_PUSH, seg.frag.frg, seg.wnd % 0x1_0000, seg.ts, seg.sn, seg.una, seg.frag.data)
  }

  /** Behind the acknowledgements and the probes a flush writes exactly the segments that are due and the new ones,
      each once and in the order of snd_buf, as they are after the flush. */
  lemma FlushWritesDue(cb: Cb) returns (places: seq<nat>)
    requires CbOk(cb) && cb.pace.updated
    ensures var ws, buf' := Flush(cb).wires, Flush(cb).cb.snd.buf;
      var n := |ws| - |places|;
      && |cb.rcv.acks| <= n <= |cb.rcv.acks| + 2 && Picks(cb, buf', places)
      && (forall k :: 0 <= k < |places| ==> Shows(cb, ws[n + k], buf'[places[k]]))
      && forall k :: 0 <= k < n ==> ws[k].cmd != CMD_PUSH
  {
    assert cb.cfg.Valid();
    hide Flush, Numbered, CbOk, Transmit, Decide, WireOf, Due, Shows, Probe, DataWires, Picks;
    places := DataPlaces(cb, Probe(cb.pace), Numbered(cb).buf);
    FlushedAre(cb);
    WiresAre(cb);
    PicksDue(cb, places);
    PlacesShow(cb, places);
  }

  lemma PicksDue(cb: Cb, places: seq<nat>)
    requires cb.cfg.Valid() && cb.pace.updated
    requires forall k :: 0 <= k < |places| ==> places[k] < |Numbered(cb).buf|
    requires forall k, l :: 0 <= k < l < |places| ==> places[k] < places[l]
    requires forall i :: 0 <= i < |Numbered(cb).buf| ==>
      (i in places <==> Decide(cb.cfg, Probe(cb.pace), Numbered(cb).buf[i]) != Keep)
    ensures Picks(cb, Flush(cb).cb.snd.buf, places)
  {
    hide Flush, Numbered, Decide, Due, Probe;
    FlushedAre(cb);
    forall i | 0 <= i < |Numbered(cb).buf| ensures i in places <==> i >= |cb.snd.buf| || Due(cb, cb.snd.buf[i]) {
      DueIs(cb, i);
    }
  }

  lemma PlacesShow(cb: Cb, places: seq<nat>)
    requires cb.cfg.Valid() && cb.pace.updated
    requires Placed(cb, Probe(cb.pace), Numbered(cb).buf, places)
    ensures |Flush(cb).cb.snd.buf| == |Numbered(cb).buf| && |places| <= |Flush(cb).wires|
    ensures forall k :: 0 <= k < |places| ==>
      Shows(cb, Flush(cb).wires[|Flush(cb).wires| - |places| + k], Flush(cb).cb.snd.buf[places[k]])
  {
    hide Flush, Numbered, Transmit, WireOf, Shows, Probe, DataWires;
    FlushedAre(cb);
    WiresAre(cb);
    var data, ws := DataWires(cb, Probe(cb.pace), Numbered(cb).buf), Flush(cb).wires;
    forall k | 0 <= k < |places| ensures Shows(cb, ws[|ws| - |places| + k], Flush(cb).cb.snd.buf[places[k]]) {
      assert ws[|ws| - |places| + k] == data[k];
      ShowsIt(cb, Flush(cb).cb.snd.buf[places[k]]);
    }
  }

  lemma WiresAre(cb: Cb)
    requires cb.cfg.Valid() && cb.pace.updated
    ensures var ws, data := Flush(cb).wires, DataWires(cb, Probe(cb.pace), Numbered(cb).buf);
      var n := |ws| - |data|;
      && |cb.rcv.acks| <= n <= |cb.rcv.acks| + 2 && ws[n..] == data && forall k :: 0 <= k < n ==> ws[k].cmd != CMD_PUSH
  {
    hide Congest, TallyOf, Transmit, Admit, AdmitCount, SendWindow, Probe, DataWires, Control;
    NoPushAhead(cb, Probe(cb.pace).askSend, Probe(cb.pace).askTell);
  }

  lemma DueIs(cb: Cb, i: nat)
    requires i < |Numbered(cb).buf|
    ensures Decide(cb.cfg, Probe(cb.pace), Numbered(cb).buf[i]) != Keep <==>
      i >= |cb.snd.buf| || Due(cb, cb.snd.buf[i])
  {
    hide Probe, SendWindow, AdmitCount, Wrap, Diff;
    TransmitTreats(cb, Numbered(cb).buf[i]);
  }

  lemma NoPushAhead(cb: Cb, askSend: bool, askTell: bool)
    ensures var ws := AckWires(cb) + ProbeWires(cb, askSend, askTell);
      forall k :: 0 <= k < |ws| ==> ws[k].cmd != CMD_PUSH
  {
  }

  lemma ShowsIt(cb: Cb, seg: OutSeg)
    ensures Shows(cb, WireOf(cb, seg), seg)
  {
  }

  /** The k-th segment written is the one at the k-th place. */
  predicate Placed(cb: Cb, p: Pacing, buf: seq<OutSeg>, places: seq<nat>)
  {
    && |places| == |DataWires(cb, p, buf)|
    && forall k :: 0 <= k < |places| ==>
         places[k] < |buf| && DataWires(cb, p, buf)[k] == WireOf(cb, Transmit(cb, p, buf[places[k]]))
  }

  lemma {:induction false} DataPlaces(cb: Cb, p: Pacing, buf: seq<OutSeg>) returns (places: seq<nat>)
    ensures Placed(cb, p, buf, places)
    ensures forall k, l :: 0 <= k < l < |places| ==> places[k] < places[l]
    ensures forall i :: 0 <= i < |buf| ==> (i in places <==> Decide(cb.cfg, p, buf[i]) != Keep)
    decreases |buf|
  {
    hide Decide, WireOf, Transmit, Moved, DataWires, Placed;
    if buf == [] {
      NoData(cb, p);
      return [];
    }
    var rest := DataPlaces(cb, p, buf[1..]);
    var due := Decide(cb.cfg, p, buf[0]) != Keep;
    places := Moved(rest, due);
    MovedAt(rest, due);
    forall i | 0 <= i < |buf| ensures i in places <==> Decide(cb.cfg, p, buf[i]) != Keep {
      MovedHolds(rest, due, i);
      assert i > 0 ==> buf[1..][i - 1] == buf[i];
    }
    WiresMoved(cb, p, buf, rest);
    MovedSorted(rest, due);
  }

  lemma NoData(cb: Cb, p: Pacing)
    ensures Placed(cb, p, [], [])
  {
  }

  lemma MovedSorted(places: seq<nat>, due: bool)
    requires forall k, l :: 0 <= k < l < |places| ==> places[k] < places[l]
    ensures var moved := Moved(places, due); forall k, l :: 0 <= k < l < |moved| ==> moved[k] < moved[l]
  {
  }

  /** The places one further on, and 0 in front of them if the first segment is due. */
  function Moved(places: seq<nat>, due: bool): seq<nat>
  {
    (if due then [0] else []) + seq(|places|, k requires 0 <= k < |places| => places[k] + 1)
  }

  lemma MovedHolds(places: seq<nat>, due: bool, i: nat)
    ensures i in Moved(places, due) <==> if i == 0 then due else i - 1 in places
  {
    var d := if due then 1 else 0;
    if i > 0 && i - 1 in places {
      var k :| 0 <= k < |places| && places[k] == i - 1;
      assert Moved(places, due)[d + k] == i;
    }
    if i == 0 && due { assert Moved(places, due)[0] == 0; }
  }

  lemma WiresMoved(cb: Cb, p: Pacing, buf: seq<OutSeg>, rest: seq<nat>)
    requires buf != [] && Placed(cb, p, buf[1..], rest)
    ensures Placed(cb, p, buf, Moved(rest, Decide(cb.cfg, p, buf[0]) != Keep))
  {
    hide DataWires, Decide, WireOf, Transmit, Moved;
    FirstWire(cb, p, buf);
    var places := Moved(rest, Decide(cb.cfg, p, buf[0]) != Keep);
    MovedAt(rest, Decide(cb.cfg, p, buf[0]) != Keep);
    var d := |places| - |rest|;
    forall k | 0 <= k < |places|
      ensures places[k] < |buf| && DataWires(cb, p, buf)[k] == WireOf(cb, Transmit(cb, p, buf[places[k]]))
    {
      if k >= d {
        var l := rest[k - d];
        assert places[d + (k - d)] == l + 1 && l < |buf[1..]|;
        assert buf[1..][l] == buf[places[k]];
      }
    }
  }

  lemma MovedAt(places: seq<nat>, due: bool)
    ensures var moved, d := Moved(places, due), if due then 1 else 0;
      && |moved| == |places| + d && (due ==> moved[0] == 0)
      && forall k :: 0 <= k < |places| ==> moved[d + k] == places[k] + 1
  {
  }

  lemma FirstWire(cb: Cb, p: Pacing, buf: seq<OutSeg>)
    requires buf != []
    ensures DataWires(cb, p, buf) ==
      (if Decide(cb.cfg, p, buf[0]) == Keep then [] else [WireOf(cb, Transmit(cb, p, buf[0]))])
      + DataWires(cb, p, buf[1..])
  {
  }

  /** A closed window is asked about when the probe timer has expired. */
  predicate Asks(cb: Cb)
  {
    var p := cb.pace;
    p.askSend || (p.rmtWnd == 0 && p.probeWait != 0 && Diff(p.current, p.tsProbe) >= 0)
  }

  /** A segment without data, with the free window and the next number expected. */
  predicate IsControl(cb: Cb, w: Wire, cmd: byte)
  {
    w.conv == cb.cfg.conv && w.cmd == cmd && w.frg == 0 && w.wnd == Free(cb) % 0x1_0000 && w.una == cb.rcv.nxt &&
    w.data == []
  }

  /** A flush writes one acknowledgement for each pair owed, with its number and its timestamp, then a WASK if it asks
      and a WINS if it was asked, and owes nothing afterwards. */
  lemma FlushWritesControl(cb: Cb)
    requires cb.cfg.Valid() && cb.pace.updated
    ensures var ws, acks := Flush(cb).wires, cb.rcv.acks;
      var a := |acks|;
      var b := a + if Asks(cb) then 1 else 0;
      var c := b + if cb.pace.askTell then 1 else 0;
      && c <= |ws|
      && (forall k :: 0 <= k < a ==> IsControl(cb, ws[k], CMD_ACK) && ws[k].sn == acks[k].sn && ws[k].ts == acks[k].ts)
      && (Asks(cb) ==> IsControl(cb, ws[a], CMD_WASK))
      && (cb.pace.askTell ==> IsControl(cb, ws[b], CMD_WINS))
      && forall k :: c <= k < |ws| ==> ws[k].cmd == CMD_PUSH
    ensures var cb' := Flush(cb).cb;
      cb'.rcv == cb.rcv.(acks := []) && !cb'.pace.askSend && !cb'.pace.askTell && cb'.cfg == cb.cfg
  {
    hide Congest, TallyOf, SendWindow, TransmitAll, AdmitCount, Admit, DataWires, Diff, Wrap;
    var p := Probe(cb.pace);
    var snd := Admit(cb, p, AdmitCount(cb.snd, SendWindow(cb.cfg, p)));
    DataIsPush(cb, p, snd.buf);
    CongestAside(cb.cfg, p.(askSend := false, askTell := false), TallyOf(cb, p, snd.buf), Wrap(snd.nxt - snd.una),
                 SendWindow(cb.cfg, p));
  }

  lemma {:induction false} DataIsPush(cb: Cb, p: Pacing, buf: seq<OutSeg>)
    ensures forall w :: w in DataWires(cb, p, buf) ==> w.cmd == CMD_PUSH
    decreases |buf|
  {
    hide Decide, Transmit;
    if buf != [] { DataIsPush(cb, p, buf[1..]); }
  }

  /** What congestion control does not touch. */
  lemma CongestAside(cfg: Config, p: Pacing, t: Tally, inflight: u32, window: u32)
    requires cfg.Valid()
    ensures var q := Congest(cfg, p, t, inflight, window);
      q == p.(xmit := q.xmit, state := q.state, ssthresh := q.ssthresh, cwnd := q.cwnd, incr := q.incr)
  {
    hide Wrap, Resent;
  }

  // ----- the probe timer

  /** While the peer's window is closed the wait starts at 7 seconds, and whenever it has passed it gets half as long
      again, up to 2 minutes; the timer is always set a whole wait ahead. An open window stops it. */
  lemma FlushSetsProbe(cb: Cb)
    requires cb.cfg.Valid() && cb.pace.updated && (cb.pace.probeWait == 0 || 7000 <= cb.pace.probeWait <= 120000)
    ensures var p, p' := cb.pace, Flush(cb).cb.pace;
      && (p.rmtWnd != 0 ==> p'.probeWait == 0 && p'.tsProbe == 0)
      && (p.rmtWnd == 0 && p.probeWait == 0 ==> p'.probeWait == 7000)
      && (p.rmtWnd == 0 && p.probeWait != 0 && Diff(p.current, p.tsProbe) >= 0 ==>
            p'.probeWait == Min(120000, p.probeWait + p.probeWait / 2))
      && (p.rmtWnd == 0 && p.probeWait != 0 && Diff(p.current, p.tsProbe) < 0 ==>
            p'.probeWait == p.probeWait && p'.tsProbe == p.tsProbe)
      && (p'.probeWait != p.probeWait && p'.probeWait != 0 ==> Diff(p'.tsProbe, p.current) == p'.probeWait)
      && (p'.probeWait == 0 || 7000 <= p'.probeWait <= 120000)
    ensures Asks(cb) && cb.pace.rmtWnd == 0 && cb.pace.probeWait != 0 && !cb.pace.askSend ==>
      Diff(Flush(cb).cb.pace.tsProbe, cb.pace.current) == Flush(cb).cb.pace.probeWait
  {
    hide Congest, TallyOf, SendWindow, TransmitAll, AdmitCount, Admit, DataWires, Diff, Wrap;
    var p := Probe(cb.pace);
    var snd := Admit(cb, p, AdmitCount(cb.snd, SendWindow(cb.cfg, p)));
    CongestAside(cb.cfg, p.(askSend := false, askTell := false), TallyOf(cb, p, snd.buf), Wrap(snd.nxt - snd.una),
                 SendWindow(cb.cfg, p));
    AddMs(p.current, p.probeWait);
    assert forall x: nat :: x < M ==> Wrap(x) == x;
  }

  // ----- congestion

  /** The places of the segments whose timers have expired. */
  function Losses(cb: Cb): set<nat>
  {
    set i: nat | i < |cb.snd.buf| && cb.snd.buf[i].xmit != 0 && Expired(cb, cb.snd.buf[i])
  }

  ghost predicate AnySkipped(cb: Cb)
  {
    exists i :: 0 <= i < |cb.snd.buf| && cb.snd.buf[i].xmit != 0 && !Expired(cb, cb.snd.buf[i]) &&
      Skipped(cb, cb.snd.buf[i])
  }

  /** Some segment is transmitted as often as the limit. */
  ghost predicate AnyDead(cb: Cb)
    requires cb.cfg.Valid()
  {
    exists i :: 0 <= i < |Flush(cb).cb.snd.buf| && (i < |cb.snd.buf| ==> Due(cb, cb.snd.buf[i])) &&
      Flush(cb).cb.snd.buf[i].xmit >= cb.cfg.deadLink
  }

  /** After a flush: a loss halves the threshold and closes the congestion window to one segment; a skip alone sets
      the threshold to half of what is in flight and the window beyond it; otherwise both stay, and the window is
      never 0. The losses are added up, and a segment sent as often as dead_link marks the connection. */
  predicate Congested(cb: Cb, losses: nat, skipped: bool, dead: bool)
    requires cb.cfg.Valid()
  {
    var p, p', s' := cb.pace, Flush(cb).cb.pace, Flush(cb).cb.snd;
    var mss, beyond := cb.cfg.Mss(), if cb.cfg.fastresend > 0 then cb.cfg.fastresend else UINT_MAX;
    && (losses > 0 ==> p'.ssthresh == Max(2, Allowance(cb) / 2) && p'.cwnd == 1 && p'.incr == mss)
    && (losses == 0 && skipped ==>
          p'.ssthresh == Max(2, Age(s'.nxt, s'.una) / 2) && p'.cwnd == Max(1, Wrap(p'.ssthresh + beyond)) &&
          p'.incr == Wrap(p'.cwnd * mss))
    && (losses == 0 && !skipped ==>
          p'.ssthresh == p.ssthresh && p'.cwnd == Max(1, p.cwnd) && p'.incr == if p.cwnd > 0 then p.incr else mss)
    && p'.xmit == Wrap(p.xmit + losses)
    && p'.state == if dead then UINT_MAX else p.state
  }

  lemma FlushCongests(cb: Cb)
    requires CbOk(cb) && cb.pace.updated
    ensures Congested(cb, |Losses(cb)|, AnySkipped(cb), AnyDead(cb))
  {
    assert cb.cfg.Valid();
    hide CbOk, Congested, AnySkipped, AnyDead, Losses, Counts;
    CongestsBy(cb);
    LossesAre(cb);
    SkippedIs(cb);
    DeadIs(cb);
  }

  /** The tally of a flush. */
  function Counts(cb: Cb): Tally { TallyOf(cb, Probe(cb.pace), Numbered(cb).buf) }

  lemma CongestsBy(cb: Cb)
    requires cb.cfg.Valid() && cb.pace.updated
    ensures Congested(cb, Counts(cb).timeouts, Counts(cb).fasts > 0, Counts(cb).dead)
  {
    hide TallyOf, SendWindow, TransmitAll, AdmitCount, Admit, DataWires, Diff, Wrap, AckWires, ProbeWires;
    WindowIs(cb);
    ProbeAside(cb.pace);
    hide Probe;
  }

  lemma ProbeAside(p: Pacing)
    ensures var q := Probe(p);
      q.ssthresh == p.ssthresh && q.cwnd == p.cwnd && q.incr == p.incr && q.state == p.state && q.xmit == p.xmit
  {
  }

  /** The tally says whether there was a timeout, a fast retransmission, and a segment sent too often. */
  lemma {:induction false} TallyTells(cb: Cb, p: Pacing, buf: seq<OutSeg>)
    ensures var t := TallyOf(cb, p, buf);
      && (t.timeouts > 0 <==> exists i :: 0 <= i < |buf| && Decide(cb.cfg, p, buf[i]) == Timeout)
      && (t.fasts > 0 <==> exists i :: 0 <= i < |buf| && Decide(cb.cfg, p, buf[i]) == Fast)
      && (t.dead <==> exists i :: 0 <= i < |buf| && SentTooOften(cb.cfg, p, buf[i]))
    decreases |buf|
  {
    hide Decide, SentTooOften;
    if buf != [] {
      var init := buf[..|buf| - 1];
      TallyTells(cb, p, init);
      assert forall i :: 0 <= i < |init| ==> init[i] == buf[i];
      TallyLast(cb, p, buf);
    }
  }

  predicate SentTooOften(cfg: Config, p: Pacing, seg: OutSeg)
  {
    Decide(cfg, p, seg) != Keep && Wrap(seg.xmit + 1) >= cfg.deadLink
  }

  lemma TallyLast(cb: Cb, p: Pacing, buf: seq<OutSeg>)
    requires buf != []
    ensures var t, t0, seg := TallyOf(cb, p, buf), TallyOf(cb, p, buf[..|buf| - 1]), buf[|buf| - 1];
      && t.timeouts == t0.timeouts + (if Decide(cb.cfg, p, seg) == Timeout then 1 else 0)
      && t.fasts == t0.fasts + (if Decide(cb.cfg, p, seg) == Fast then 1 else 0)
      && (t.dead <==> t0.dead || SentTooOften(cb.cfg, p, seg))
  {
    hide Decide;
  }

  lemma DecisionIs(cb: Cb, i: nat)
    requires i < |Numbered(cb).buf|
    ensures var why := Decide(cb.cfg, Probe(cb.pace), Numbered(cb).buf[i]);
      if i >= |cb.snd.buf| then why == First
      else
        var seg := cb.snd.buf[i];
        && (why == First <==> seg.xmit == 0)
        && (why == Timeout <==> seg.xmit != 0 && Expired(cb, seg))
        && (why == Fast <==> seg.xmit != 0 && !Expired(cb, seg) && Skipped(cb, seg))
  {
    hide SendWindow, AdmitCount, Wrap, Diff;
    SameClock(cb.pace);
    hide Probe;
  }

  lemma OldOnes(cb: Cb)
    ensures |Numbered(cb).buf| >= |cb.snd.buf|
    ensures forall i :: 0 <= i < |cb.snd.buf| ==> Numbered(cb).buf[i] == cb.snd.buf[i]
  {
    hide SendWindow, AdmitCount, Wrap, Probe, NewSeg;
  }

  function TimedOut(cfg: Config, p: Pacing, buf: seq<OutSeg>): set<nat>
  {
    set i: nat | i < |buf| && Decide(cfg, p, buf[i]) == Timeout
  }

  lemma TimedOutSnoc(cfg: Config, p: Pacing, buf: seq<OutSeg>)
    requires buf != []
    ensures var n := |buf| - 1;
      n !in TimedOut(cfg, p, buf[..n]) &&
      TimedOut(cfg, p, buf) == TimedOut(cfg, p, buf[..n]) + if Decide(cfg, p, buf[n]) == Timeout then {n} else {}
  {
    hide Decide;
  }

  lemma {:induction false} TimeoutsAre(cb: Cb, p: Pacing, buf: seq<OutSeg>)
    ensures TallyOf(cb, p, buf).timeouts == |TimedOut(cb.cfg, p, buf)|
    decreases |buf|
  {
    hide Decide;
    if buf == [] {
      assert TimedOut(cb.cfg, p, buf) == {};
    } else {
      hide TimedOut, TallyOf;
      TimeoutsAre(cb, p, buf[..|buf| - 1]);
      TallyLast(cb, p, buf);
      TimedOutSnoc(cb.cfg, p, buf);
    }
  }

  lemma LossesAre(cb: Cb)
    ensures Counts(cb).timeouts == |Losses(cb)|
  {
    hide Numbered, Expired, Decide, Probe, TallyOf, Skipped;
    var buf, before := Numbered(cb).buf, cb.snd.buf;
    TimeoutsAre(cb, Probe(cb.pace), buf);
    OldOnes(cb);
    forall i | 0 <= i < |buf|
      ensures Decide(cb.cfg, Probe(cb.pace), buf[i]) == Timeout <==>
        i < |before| && before[i].xmit != 0 && Expired(cb, before[i])
    {
      DecisionIs(cb, i);
    }
    assert Losses(cb) == TimedOut(cb.cfg, Probe(cb.pace), buf);
  }

  lemma SkippedIs(cb: Cb)
    ensures Counts(cb).fasts > 0 <==> AnySkipped(cb)
  {
    hide Numbered, Expired, Decide, Probe, TallyOf, Skipped;
    var buf, before := Numbered(cb).buf, cb.snd.buf;
    TallyTells(cb, Probe(cb.pace), buf);
    OldOnes(cb);
    forall i | 0 <= i < |buf|
      ensures Decide(cb.cfg, Probe(cb.pace), buf[i]) == Fast <==>
        i < |before| && before[i].xmit != 0 && !Expired(cb, before[i]) && Skipped(cb, before[i])
    {
      DecisionIs(cb, i);
    }
  }

  lemma DeadIs(cb: Cb)
    requires cb.cfg.Valid() && cb.pace.updated
    ensures Counts(cb).dead <==> AnyDead(cb)
  {
    hide Numbered, Decide, Probe, TallyOf, Due, Flush, SentTooOften;
    var buf := Numbered(cb).buf;
    TallyTells(cb, Probe(cb.pace), buf);
    FlushedAre(cb);
    forall i | 0 <= i < |buf|
      ensures SentTooOften(cb.cfg, Probe(cb.pace), buf[i]) <==>
        (i < |cb.snd.buf| ==> Due(cb, cb.snd.buf[i])) && Flush(cb).cb.snd.buf[i].xmit >= cb.cfg.deadLink
    {
      DueIs(cb, i);
      SentOften(cb, i);
    }
  }

  lemma SentOften(cb: Cb, i: nat)
    requires cb.cfg.Valid() && i < |Numbered(cb).buf|
    ensures var seg := Numbered(cb).buf[i];
      SentTooOften(cb.cfg, Probe(cb.pace), seg) <==>
        Decide(cb.cfg, Probe(cb.pace), seg) != Keep && Transmit(cb, Probe(cb.pace), seg).xmit >= cb.cfg.deadLink
  {
    hide Numbered, Decide, Probe, BackedOff, WndUnused, Wrap;
  }

  // ----- the first flush

  /** A fresh control block with these fragments waiting. */
  function Waiting(cfg: Config, queue: seq<Frag>): Cb { Created(cfg).(snd := Sender(0, 0, [], queue)) }

  /** The same with clock and timer set, as its first update flushes it. */
  function Ticked(cfg: Config, queue: seq<Frag>, current: u32): Cb
  {
    var cb := Waiting(cfg, queue);
    cb.(pace := cb.pace.(current := current, updated := true, tsFlush := Wrap(current + cfg.interval)))
  }

  lemma FirstState(cfg: Config, queue: seq<Frag>, current: u32)
    requires cfg.Valid() && forall i :: 0 <= i < |queue| ==> |queue[i].data| <= cfg.Mss()
    ensures var cb := Ticked(cfg, queue, current);
      && CbOk(cb) && cb.pace.updated && Losses(cb) == {} && Age(cb.snd.nxt, cb.snd.una) == 0
      && Allowance(cb) == if cfg.nocwnd then Min(cfg.sndWnd, 128) else 0
  {
    assert FitsMss(cfg, Waiting(cfg, queue).snd);
  }

  lemma FirstFlush(cfg: Config, queue: seq<Frag>, current: u32)
    requires cfg.Valid()
    ensures Update(Waiting(cfg, queue), current) == Flush(Ticked(cfg, queue, current))
  {
    hide Update, Flush, Diff, Wrap;
    UpdateSteps(Waiting(cfg, queue), current);
  }

  /** The segment of fragment i as it is after its first transmission by a fresh control block. */
  function FirstSent(cfg: Config, f: Frag, i: nat, current: u32): OutSeg
    requires i < M
  {
    OutSeg(f, cfg.rcvWnd, current, i, 0, Wrap(current + 200 + (if cfg.nodelay == 0 then 25 else 0)), 200, 0, 1)
  }

  /** The first update of a fresh control block with these fragments waiting: without congestion control it numbers
      from 0 as many as snd_wnd and the 128 assumed of the peer allow, else none yet; their timeout is 200 ms, an
      eighth more without nodelay; and it leaves a congestion window of one segment and a threshold of two. */
  lemma FirstUpdate(cfg: Config, queue: seq<Frag>, current: u32)
    requires cfg.Valid() && forall i :: 0 <= i < |queue| ==> |queue[i].data| <= cfg.Mss()
    ensures var r := Update(Created(cfg).(snd := Sender(0, 0, [], queue)), current).cb;
      && |r.snd.buf| == (if cfg.nocwnd then Min(|queue|, Min(cfg.sndWnd, 128)) else 0) <= 128
      && (forall i :: 0 <= i < |r.snd.buf| ==> r.snd.buf[i] == FirstSent(cfg, queue[i], i, current))
      && r.pace.cwnd == 1 && r.pace.ssthresh == 2 && r.pace.tsFlush == Wrap(current + cfg.interval)
  {
    var cb := Ticked(cfg, queue, current);
    hide CbOk, Flush, Update, Congested, Losses, Allowance, FirstSent, Age, Wrap, Moves, AnySkipped, AnyDead;
    FirstFlush(cfg, queue, current);
    FirstState(cfg, queue, current);
    FlushKeepsTimer(cb);
    FlushCongests(cb);
    FirstCongested(cb);
    FirstNumbered(cfg, queue, current);
    forall i | 0 <= i < |Flush(cb).cb.snd.buf| ensures Flush(cb).cb.snd.buf[i] == FirstSent(cfg, queue[i], i, current) {
      FirstSegment(cfg, queue, current, i);
    }
  }

  lemma FirstNumbered(cfg: Config, queue: seq<Frag>, current: u32)
    requires cfg.Valid() && forall i :: 0 <= i < |queue| ==> |queue[i].data| <= cfg.Mss()
    ensures |Flush(Ticked(cfg, queue, current)).cb.snd.buf| ==
      if cfg.nocwnd then Min(|queue|, Min(cfg.sndWnd, 128)) else 0
  {
    var cb := Ticked(cfg, queue, current);
    FirstState(cfg, queue, current);
    hide CbOk, Flush, Losses, Allowance, Age;
    FlushFillsWindow(cb);
  }

  lemma FirstSegment(cfg: Config, queue: seq<Frag>, current: u32, i: nat)
    requires cfg.Valid() && forall i :: 0 <= i < |queue| ==> |queue[i].data| <= cfg.Mss()
    requires i < |Flush(Ticked(cfg, queue, current)).cb.snd.buf| && i < |queue| && i < 128
    ensures Flush(Ticked(cfg, queue, current)).cb.snd.buf[i] == FirstSent(cfg, queue[i], i, current)
  {
    var cb := Ticked(cfg, queue, current);
    hide CbOk, Flush, Losses, Allowance, Age, Wrap;
    FirstState(cfg, queue, current);
    FlushTreatsSegments(cb, i);
  }

  lemma FirstCongested(cb: Cb)
    requires cb.cfg.Valid() && cb.snd.buf == [] && cb.pace.cwnd == 0 && Congested(cb, 0, AnySkipped(cb), AnyDead(cb))
    ensures Flush(cb).cb.pace.cwnd == 1 && Flush(cb).cb.pace.ssthresh == cb.pace.ssthresh
  {
    hide Flush;
    assert !AnySkipped(cb);
  }
}
