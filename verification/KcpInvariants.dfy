/**
  What every operation keeps on one endpoint, whatever bytes arrive from the network.
 */
module KcpInvariants {
  import opened Wrap32
  import opened KcpTypes
  import opened KcpWire
  import opened KcpSpec

  /** How far the next number to be given out is past `sn`. */
  function Age(nxt: u32, sn: u32): u32 { Wrap(nxt - sn) }

  /** How far `sn` is past the next number expected. */
  function Ahead(nxt: u32, sn: u32): u32 { Wrap(sn - nxt) }

  /** snd_buf holds distinct numbers, oldest first, none older than `oldest`. */
  ghost predicate OutSorted(nxt: u32, oldest: int, buf: seq<OutSeg>)
  {
    && (forall i :: 0 <= i < |buf| ==> 1 <= Age(nxt, buf[i].sn) <= oldest)
    && (forall i, j :: 0 <= i < j < |buf| ==> Age(nxt, buf[i].sn) > Age(nxt, buf[j].sn))
  }

  ghost predicate FitsMss(cfg: Config, s: Sender)
  {
    && (forall i :: 0 <= i < |s.buf| ==> |s.buf[i].frag.data| <= cfg.Mss())
    && (forall i :: 0 <= i < |s.queue| ==> |s.queue[i].data| <= cfg.Mss())
  }

  /** snd_una is the oldest number still held, or snd_nxt when none is. */
  ghost predicate HeadIsUna(s: Sender) { s.una == if s.buf == [] then s.nxt else s.buf[0].sn }

  /** The sender: snd_buf strictly sorted inside [snd_una, snd_nxt) and starting at snd_una, at most
      snd_wnd numbers in flight, segments no longer than mss. */
  ghost predicate SenderOk(cfg: Config, s: Sender)
  {
    && Age(s.nxt, s.una) <= cfg.sndWnd
    && OutSorted(s.nxt, Age(s.nxt, s.una), s.buf)
    && HeadIsUna(s)
    && FitsMss(cfg, s)
  }

  /** rcv_buf holds distinct numbers in increasing order, all inside the receive window. */
  ghost predicate InSorted(nxt: u32, wnd: u32, buf: seq<InSeg>)
  {
    && (forall i :: 0 <= i < |buf| ==> Ahead(nxt, buf[i].sn) < wnd)
    && (forall i, j :: 0 <= i < j < |buf| ==> Ahead(nxt, buf[i].sn) < Ahead(nxt, buf[j].sn))
  }

  /** rcv_queue holds the numbers just below the next expected one, without a gap. */
  ghost predicate Contiguous(nxt: u32, queue: seq<InSeg>)
  {
    forall i :: 0 <= i < |queue| ==> queue[i].sn == Wrap(nxt - |queue| + i)
  }

  /** The receiver; the next expected segment waits in rcv_buf only while rcv_queue is full. */
  ghost predicate ReceiverOk(cfg: Config, r: Receiver)
  {
    && InSorted(r.nxt, cfg.rcvWnd, r.buf)
    && Contiguous(r.nxt, r.queue)
    && |r.queue| <= cfg.rcvWnd
    && (r.buf != [] && r.buf[0].sn == r.nxt ==> |r.queue| == cfg.rcvWnd)
  }

  ghost predicate CbOk(cb: Cb) { cb.cfg.Valid() && SenderOk(cb.cfg, cb.snd) && ReceiverOk(cb.cfg, cb.rcv) }

  lemma CreatedOk(cfg: Config)
    requires cfg.Valid()
    ensures CbOk(Created(cfg))
  {
  }

  // ----- wrapped distances

  lemma WrapBack(base: u32, x: u32)
    ensures Wrap(base + Ahead(base, x)) == x
    ensures Wrap(base - Age(base, x)) == x
  {
  }

  lemma DiffByAhead(base: u32, x: u32, y: u32)
    requires Ahead(base, x) < HALF && Ahead(base, y) < HALF
    ensures Diff(x, y) == Ahead(base, x) - Ahead(base, y)
    ensures x == y <==> Ahead(base, x) == Ahead(base, y)
  {
    WrapBack(base, x);
    WrapBack(base, y);
    DiffIsExact(base + Ahead(base, x), base + Ahead(base, y));
    hide Diff, Wrap, Ahead;
  }

  lemma DiffByAge(base: u32, x: u32, y: u32)
    requires Age(base, x) < HALF && Age(base, y) < HALF
    ensures Diff(x, y) == Age(base, y) - Age(base, x)
    ensures x == y <==> Age(base, x) == Age(base, y)
  {
    WrapBack(base, x);
    WrapBack(base, y);
    DiffIsExact(base - Age(base, x), base - Age(base, y));
    hide Diff, Wrap, Age;
  }

  lemma AheadShift(nxt: u32, sn: u32)
    requires sn != nxt
    ensures Ahead(Wrap(nxt + 1), sn) == Ahead(nxt, sn) - 1
  {
  }

  /** The window test of ikcp_input and ikcp_parse_data is the one intended. */
  lemma InWindow(nxt: u32, wnd: u32, sn: u32)
    requires wnd < HALF
    ensures Diff(sn, Wrap(nxt + wnd)) < 0 && Diff(sn, nxt) >= 0 <==> Ahead(nxt, sn) < wnd
  {
    hide Diff, Wrap;
    var d := Ahead(nxt, sn);
    WrapBack(nxt, sn);
    AheadRange(nxt, sn);
    if d < HALF {
      DiffIsExact(nxt + d, nxt);
      DiffIsExact(nxt + d, nxt + wnd);
    } else {
      DiffIsExact(nxt + d - M, nxt);
    }
  }

  lemma AheadRange(nxt: u32, sn: u32)
    ensures Wrap(nxt + Ahead(nxt, sn) - M) == sn && Wrap(nxt) == nxt
  {
  }

  // ----- the sender

  lemma ShrinkOk(cfg: Config, s: Sender)
    requires Age(s.nxt, s.una) <= cfg.sndWnd && OutSorted(s.nxt, Age(s.nxt, s.una), s.buf) && FitsMss(cfg, s)
    ensures SenderOk(cfg, Shrink(s))
    ensures Age(s.nxt, Shrink(s).una) <= Age(s.nxt, s.una)
  {
  }

  lemma OutSortedSuffix(nxt: u32, oldest: int, buf: seq<OutSeg>, k: nat)
    requires OutSorted(nxt, oldest, buf) && k <= |buf|
    ensures OutSorted(nxt, oldest, buf[k..])
  {
  }

  lemma OutSortedRemove(nxt: u32, oldest: int, buf: seq<OutSeg>, k: nat)
    requires OutSorted(nxt, oldest, buf) && k < |buf|
    ensures OutSorted(nxt, oldest, buf[..k] + buf[k + 1..])
  {
  }

  lemma UnaKeepsSender(cb: Cb, w: Wire)
    requires SenderOk(cb.cfg, cb.snd)
    ensures SenderOk(cb.cfg, ApplyUna(cb, w).snd)
    ensures Age(cb.snd.nxt, ApplyUna(cb, w).snd.una) <= Age(cb.snd.nxt, cb.snd.una)
  {
    var s := cb.snd;
    var r := DropBelow(s.buf, w.una);
    OutSortedSuffix(s.nxt, Age(s.nxt, s.una), s.buf, |s.buf| - |r|);
    ShrinkOk(cb.cfg, s.(buf := r));
  }

  lemma AckKeepsSender(cfg: Config, s: Sender, sn: u32)
    requires SenderOk(cfg, s)
    ensures SenderOk(cfg, Shrink(ParseAck(s, sn)))
    ensures Age(s.nxt, Shrink(ParseAck(s, sn)).una) <= Age(s.nxt, s.una)
  {
    var k := FindAcked(s.buf, sn, 0);
    if k < |s.buf| { OutSortedRemove(s.nxt, Age(s.nxt, s.una), s.buf, k); }
    ShrinkOk(cfg, ParseAck(s, sn));
  }

  lemma {:induction false} SkipCountSame(buf: seq<OutSeg>, sn: u32, ts: u32)
    ensures forall i :: 0 <= i < |buf| ==>
      SkipCount(buf, sn, ts)[i].sn == buf[i].sn && SkipCount(buf, sn, ts)[i].frag == buf[i].frag
  {
    if buf != [] && Diff(sn, buf[0].sn) >= 0 {
      SkipCountSame(buf[1..], sn, ts);
    }
  }

  lemma FastackKeepsSender(cfg: Config, s: Sender, sn: u32, ts: u32)
    requires SenderOk(cfg, s)
    ensures SenderOk(cfg, ParseFastack(s, sn, ts))
  {
    SkipCountSame(s.buf, sn, ts);
  }

  /** A number the guard of ikcp_parse_ack turns away is not in snd_buf. */
  lemma GuardSkipsNothing(cfg: Config, s: Sender, sn: u32)
    requires cfg.Valid() && SenderOk(cfg, s)
    requires Diff(sn, s.una) < 0 || Diff(sn, s.nxt) >= 0
    ensures forall i :: 0 <= i < |s.buf| ==> s.buf[i].sn != sn
  {
    hide Diff, Wrap;
    forall i | 0 <= i < |s.buf| ensures s.buf[i].sn != sn {
      DiffByAge(s.nxt, s.buf[i].sn, s.una);
      DiffByAge(s.nxt, s.buf[i].sn, s.nxt);
      AgeSelf(s.nxt);
    }
  }

  lemma AgeSelf(nxt: u32)
    ensures Age(nxt, nxt) == 0
  {
  }

  lemma WithoutMembers<T>(xs: seq<T>, k: nat)
    requires k < |xs|
    requires forall i :: 0 <= i < |xs| && i != k ==> xs[i] != xs[k]
    ensures forall x :: x in xs[..k] + xs[k + 1..] <==> x in xs && x != xs[k]
  {
    var r := xs[..k] + xs[k + 1..];
    forall x | x in xs && x != xs[k] ensures x in r {
      var i :| 0 <= i < |xs| && xs[i] == x;
      assert r[if i < k then i else i - 1] == x;
    }
  }

  /** An acknowledgement removes the segment it names and no other, whatever the number. */
  lemma AckRemovesExactly(cfg: Config, s: Sender, sn: u32)
    requires cfg.Valid() && SenderOk(cfg, s)
    ensures forall seg :: seg in ParseAck(s, sn).buf <==> seg in s.buf && seg.sn != sn
  {
    if Diff(sn, s.una) < 0 || Diff(sn, s.nxt) >= 0 {
      GuardSkipsNothing(cfg, s, sn);
    } else {
      var k := FindAcked(s.buf, sn, 0);
      FindsAcked(cfg, s, sn, 0);
      hide FindAcked, Diff, Wrap;
      if k < |s.buf| {
        assert forall i :: 0 <= i < |s.buf| && i != k ==> s.buf[i].sn != s.buf[k].sn;
        WithoutMembers(s.buf, k);
      }
    }
  }

  /** The early exit of the search skips no match. */
  lemma {:induction false} FindsAcked(cfg: Config, s: Sender, sn: u32, i: nat)
    requires cfg.Valid() && SenderOk(cfg, s) && i <= |s.buf|
    ensures FindAcked(s.buf, sn, i) == |s.buf| ==> forall k :: i <= k < |s.buf| ==> s.buf[k].sn != sn
    decreases |s.buf| - i
  {
    if i < |s.buf| && sn != s.buf[i].sn {
      if Diff(sn, s.buf[i].sn) < 0 {
        forall k | i <= k < |s.buf| ensures s.buf[k].sn != sn {
          DiffByAge(s.nxt, s.buf[k].sn, s.buf[i].sn);
        }
      } else {
        FindsAcked(cfg, s, sn, i + 1);
      }
    }
  }

  // ----- the receiver

  ghost predicate Apart(nxt: u32, buf: seq<InSeg>, sn: u32, i: nat)
  {
    && i <= |buf|
    && (forall k :: 0 <= k < i ==> Ahead(nxt, buf[k].sn) < Ahead(nxt, sn))
    && (forall k :: i <= k < |buf| ==> Ahead(nxt, sn) < Ahead(nxt, buf[k].sn))
  }

  /** The backward scan finds the one place that keeps rcv_buf sorted, or the duplicate. */
  lemma {:induction false} LocateFinds(nxt: u32, wnd: u32, buf: seq<InSeg>, sn: u32, i: nat)
    requires InSorted(nxt, wnd, buf) && Ahead(nxt, sn) < wnd < HALF && i <= |buf|
    requires forall k :: i <= k < |buf| ==> Ahead(nxt, sn) < Ahead(nxt, buf[k].sn)
    ensures match Locate(buf, sn, i)
      case Repeat => exists k :: 0 <= k < |buf| && buf[k].sn == sn
      case At(p) => Apart(nxt, buf, sn, p)
  {
    if i > 0 {
      DiffByAhead(nxt, sn, buf[i - 1].sn);
      if Ahead(nxt, sn) < Ahead(nxt, buf[i - 1].sn) { LocateFinds(nxt, wnd, buf, sn, i - 1); }
    }
  }

  lemma InsertedMembers<T>(xs: seq<T>, x: T, p: nat)
    requires p <= |xs|
    ensures forall y :: y in xs[..p] + [x] + xs[p..] <==> y in xs || y == x
  {
    var r := xs[..p] + [x] + xs[p..];
    forall y | y in xs ensures y in r {
      var i :| 0 <= i < |xs| && xs[i] == y;
      assert r[if i < p then i else i + 1] == y;
    }
    assert r[p] == x;
  }

  lemma InsertedSorted(nxt: u32, wnd: u32, buf: seq<InSeg>, seg: InSeg, p: nat)
    requires InSorted(nxt, wnd, buf) && Ahead(nxt, seg.sn) < wnd && Apart(nxt, buf, seg.sn, p)
    ensures InSorted(nxt, wnd, buf[..p] + [seg] + buf[p..])
  {
    hide Ahead;
    var r := buf[..p] + [seg] + buf[p..];
    assert forall i :: 0 <= i < |r| ==> r[i] == if i < p then buf[i] else if i == p then seg else buf[i - 1];
  }

  /** Inserting keeps rcv_buf sorted and duplicate-free: it gains exactly the new number, and a
      segment already held is never replaced. */
  lemma InsertKeeps(nxt: u32, wnd: u32, buf: seq<InSeg>, seg: InSeg)
    requires InSorted(nxt, wnd, buf) && Ahead(nxt, seg.sn) < wnd < HALF
    ensures InSorted(nxt, wnd, Insert(buf, seg))
    ensures forall x :: x in Insert(buf, seg) <==>
      x in buf || (x == seg && forall k :: 0 <= k < |buf| ==> buf[k].sn != seg.sn)
  {
    LocateFinds(nxt, wnd, buf, seg.sn, |buf|);
    hide Locate, Ahead;
    match Locate(buf, seg.sn, |buf|)
    case Repeat =>
    case At(p) =>
      InsertedSorted(nxt, wnd, buf, seg, p);
      InsertedMembers(buf, seg, p);
  }

  lemma MovedSorted(nxt: u32, wnd: u32, buf: seq<InSeg>)
    requires InSorted(nxt, wnd, buf) && buf != [] && buf[0].sn == nxt
    ensures InSorted(Wrap(nxt + 1), wnd, buf[1..])
    ensures forall i :: 1 <= i < |buf| ==> Ahead(Wrap(nxt + 1), buf[i].sn) == Ahead(nxt, buf[i].sn) - 1
  {
    forall i | 1 <= i < |buf| ensures Ahead(Wrap(nxt + 1), buf[i].sn) == Ahead(nxt, buf[i].sn) - 1 {
      AfterHead(nxt, wnd, buf, i);
      AheadShift(nxt, buf[i].sn);
    }
    hide Wrap;
  }

  lemma AfterHead(nxt: u32, wnd: u32, buf: seq<InSeg>, i: nat)
    requires InSorted(nxt, wnd, buf) && 1 <= i < |buf| && buf[0].sn == nxt
    ensures buf[i].sn != nxt
  {
    hide Wrap;
  }

  lemma MovedContiguous(nxt: u32, queue: seq<InSeg>, seg: InSeg)
    requires Contiguous(nxt, queue) && seg.sn == nxt
    ensures Contiguous(Wrap(nxt + 1), queue + [seg])
  {
    var q := queue + [seg];
    forall i | 0 <= i < |q| ensures q[i].sn == Wrap(Wrap(nxt + 1) - |q| + i) {
      NumberShift(nxt, i - |queue|);
    }
    hide Wrap;
  }

  lemma NumberShift(nxt: u32, d: int)
    ensures Wrap(Wrap(nxt + 1) + d - 1) == Wrap(nxt + d)
    ensures Wrap(nxt) == nxt
  {
  }

  /** Moving available segments restores the receiver invariant. */
  lemma {:induction false} ReleaseOk(cfg: Config, r: Receiver)
    requires cfg.Valid() && InSorted(r.nxt, cfg.rcvWnd, r.buf) && Contiguous(r.nxt, r.queue) && |r.queue| <= cfg.rcvWnd
    ensures ReceiverOk(cfg, Release(r, cfg.rcvWnd))
    decreases |r.buf|
  {
    hide InSorted, Contiguous, Wrap;
    if r.buf != [] && r.buf[0].sn == r.nxt && |r.queue| < cfg.rcvWnd {
      MovedSorted(r.nxt, cfg.rcvWnd, r.buf);
      MovedContiguous(r.nxt, r.queue, r.buf[0]);
      ReleaseOk(cfg, r.(nxt := Wrap(r.nxt + 1), buf := r.buf[1..], queue := r.queue + [r.buf[0]]));
    }
  }

  /** Once settled, moving again moves nothing. */
  lemma ReleaseIdle(cfg: Config, r: Receiver)
    requires ReceiverOk(cfg, r)
    ensures Release(r, cfg.rcvWnd) == r
  {
  }

  lemma ParseDataOk(cfg: Config, r: Receiver, seg: InSeg)
    requires cfg.Valid() && ReceiverOk(cfg, r)
    ensures ReceiverOk(cfg, ParseData(r, cfg.rcvWnd, seg))
  {
    hide Diff, Wrap, Ahead, Insert, Release, InSorted, Contiguous;
    InWindow(r.nxt, cfg.rcvWnd, seg.sn);
    if Ahead(r.nxt, seg.sn) < cfg.rcvWnd {
      InsertKeeps(r.nxt, cfg.rcvWnd, r.buf, seg);
      ReleaseOk(cfg, r.(buf := Insert(r.buf, seg)));
    }
  }

  lemma ApplyPushOk(cfg: Config, r: Receiver, w: Wire)
    requires cfg.Valid() && ReceiverOk(cfg, r)
    ensures ReceiverOk(cfg, ApplyPush(r, cfg.rcvWnd, w))
  {
    ParseDataOk(cfg, r.(acks := r.acks + [Ack(w.sn, w.ts)]), InSeg(w.sn, Frag(w.frg, w.data)));
  }

  // ----- whole operations

  /** snd_una has moved forward, by no more than was in flight. */
  ghost predicate UnaAdvanced(s: Sender, s': Sender)
  {
    s'.nxt == s.nxt && Age(s.nxt, s'.una) <= Age(s.nxt, s.una)
  }

  lemma ApplyWireOk(g: Reading, w: Wire)
    requires CbOk(g.cb)
    ensures CbOk(ApplyWire(g, w).cb)
    ensures UnaAdvanced(g.cb.snd, ApplyWire(g, w).cb.snd)
  {
    UnaKeepsSender(g.cb, w);
    var cb := ApplyUna(g.cb, w);
    if w.cmd == CMD_ACK {
      AckKeepsSender(cb.cfg, cb.snd, w.sn);
    } else if w.cmd == CMD_PUSH {
      ApplyPushOk(cb.cfg, cb.rcv, w);
    }
  }

  lemma {:induction false} ApplyAllOk(g: Reading, ws: seq<Wire>)
    requires CbOk(g.cb)
    ensures CbOk(ApplyAll(g, ws).cb)
    ensures UnaAdvanced(g.cb.snd, ApplyAll(g, ws).cb.snd)
    decreases |ws|
  {
    if ws != [] {
      ApplyWireOk(g, ws[0]);
      ApplyAllOk(ApplyWire(g, ws[0]), ws[1..]);
    }
  }

  /** Whatever bytes arrive, both invariants hold afterwards, snd_nxt stays and snd_una never moves back. */
  lemma InputOk(cb: Cb, data: seq<byte>)
    requires CbOk(cb)
    ensures CbOk(Input(cb, data).0)
    ensures UnaAdvanced(cb.snd, Input(cb, data).0.snd)
  {
    if |data| >= OVERHEAD {
      var p := Parse(cb.cfg.conv, data);
      ApplyAllOk(Reading(cb, NoAck), p.segs);
      SettleOk(ApplyAll(Reading(cb, NoAck), p.segs), cb.snd.una);
      hide ApplyAll, Parse, Settle, SenderOk, ReceiverOk, Age;
    }
  }

  lemma SettleOk(g: Reading, prevUna: u32)
    requires CbOk(g.cb)
    ensures CbOk(Settle(g, prevUna))
    ensures Settle(g, prevUna).snd.una == g.cb.snd.una && Settle(g, prevUna).snd.nxt == g.cb.snd.nxt
  {
    if g.maxack.MaxAck? { FastackKeepsSender(g.cb.cfg, g.cb.snd, g.maxack.sn, g.maxack.ts); }
    hide Grow, Diff, SkipCount, SenderOk, ReceiverOk;
  }

  lemma RecvOk(cb: Cb, len: int)
    requires CbOk(cb)
    ensures CbOk(Recv(cb, len).cb)
  {
    var queue := cb.rcv.queue;
    var n := HeadCount(queue);
    if len < 0 {
      ReleaseIdle(cb.cfg, cb.rcv);
    } else {
      var r := cb.rcv.(queue := queue[n..]);
      assert forall i :: 0 <= i < |r.queue| ==> r.queue[i] == queue[n + i];
      ReleaseOk(cb.cfg, r);
    }
  }

  lemma {:induction false} SplitFits(mss: int, stream: bool, data: seq<byte>)
    requires mss > 0 && |data| <= (WND_RCV - 1) * mss
    ensures forall i :: 0 <= i < |Split(mss, stream, data)| ==> |Split(mss, stream, data)[i].data| <= mss
    decreases |data|
  {
    if |data| > mss { SplitFits(mss, stream, data[mss..]); }
  }

  ghost predicate QueueFits(cfg: Config, queue: seq<Frag>)
  {
    forall i :: 0 <= i < |queue| ==> |queue[i].data| <= cfg.Mss()
  }

  lemma TailFits(cfg: Config, queue: seq<Frag>, data: seq<byte>)
    requires cfg.Valid() && QueueFits(cfg, queue)
    ensures QueueFits(cfg, ExtendTail(cfg, queue, data[..TailRoom(cfg, queue, |data|)]))
  {
  }

  lemma SplitQueueFits(cfg: Config, queue: seq<Frag>, rest: seq<byte>)
    requires cfg.Valid() && QueueFits(cfg, queue) && Count(cfg.Mss(), |rest|) < WND_RCV
    ensures |rest| <= (WND_RCV - 1) * cfg.Mss()
    ensures QueueFits(cfg, queue + Split(cfg.Mss(), cfg.stream, rest))
  {
    hide Split, Count;
    CountFits(cfg.Mss(), |rest|);
    SplitFits(cfg.Mss(), cfg.stream, rest);
  }

  lemma SendOk(cb: Cb, data: seq<byte>)
    requires CbOk(cb)
    ensures CbOk(Send(cb, data).cb)
  {
    hide Send, Split, Count, ReceiverOk, OutSorted, Age, ExtendTail, TailRoom;
    var cfg := cb.cfg;
    SendCases(cb, data);
    var extend := TailRoom(cfg, cb.snd.queue, |data|);
    var queue1 := ExtendTail(cfg, cb.snd.queue, data[..extend]);
    TailFits(cfg, cb.snd.queue, data);
    if Count(cfg.Mss(), |data[extend..]|) < WND_RCV { SplitQueueFits(cfg, queue1, data[extend..]); }
  }

  lemma AdmitAge(nxt: u32, n: nat, sn: u32)
    requires Age(nxt, sn) + n < M
    ensures Age(Wrap(nxt + n), sn) == Age(nxt, sn) + n
  {
  }

  /** Ages after n fragments have been numbered. */
  lemma AdmitAges(cb: Cb, p: Pacing, n: nat, i: nat)
    requires n <= |cb.snd.queue| && n < HALF && i < |Admit(cb, p, n).buf|
    requires i < |cb.snd.buf| ==> Age(cb.snd.nxt, cb.snd.buf[i].sn) + n < M
    ensures var s, s' := cb.snd, Admit(cb, p, n);
      Age(s'.nxt, s'.buf[i].sn) == if i < |s.buf| then Age(s.nxt, s.buf[i].sn) + n else n - (i - |s.buf|)
  {
    hide Age, Wrap;
    var s := cb.snd;
    if i < |s.buf| {
      AdmitAge(s.nxt, n, s.buf[i].sn);
    } else {
      NewAge(s.nxt, n, i - |s.buf|);
    }
  }

  lemma AdmitSorts(cb: Cb, p: Pacing, n: nat)
    requires CbOk(cb) && n <= |cb.snd.queue|
    requires n == 0 || Age(cb.snd.nxt, cb.snd.una) + n <= cb.cfg.sndWnd
    ensures var s, s' := cb.snd, Admit(cb, p, n);
      Age(s'.nxt, s'.una) == Age(s.nxt, s.una) + n && OutSorted(s'.nxt, Age(s'.nxt, s'.una), s'.buf)
  {
    hide Age, Wrap, ReceiverOk, NewSeg, FitsMss, OutSorted;
    AdmitAge(cb.snd.nxt, n, cb.snd.una);
    OutSortedWeaker(cb.snd.nxt, Age(cb.snd.nxt, cb.snd.una), M - 1 - n, cb.snd.buf);
    AllAdmitAges(cb, p, n);
    AgesSorted(cb.snd, Admit(cb, p, n), Age(cb.snd.nxt, cb.snd.una), n);
  }

  lemma AllAdmitAges(cb: Cb, p: Pacing, n: nat)
    requires n <= |cb.snd.queue| && n < HALF && OutSorted(cb.snd.nxt, M - 1 - n, cb.snd.buf)
    ensures var s, s' := cb.snd, Admit(cb, p, n);
      forall i :: 0 <= i < |s'.buf| ==>
        Age(s'.nxt, s'.buf[i].sn) == if i < |s.buf| then Age(s.nxt, s.buf[i].sn) + n else n - (i - |s.buf|)
  {
    hide Age, Wrap, NewSeg;
    var s, s' := cb.snd, Admit(cb, p, n);
    forall i | 0 <= i < |s'.buf|
      ensures Age(s'.nxt, s'.buf[i].sn) == if i < |s.buf| then Age(s.nxt, s.buf[i].sn) + n else n - (i - |s.buf|)
    {
      AdmitAges(cb, p, n, i);
    }
  }

  lemma OutSortedWeaker(nxt: u32, oldest: int, more: int, buf: seq<OutSeg>)
    requires OutSorted(nxt, oldest, buf) && oldest <= more
    ensures OutSorted(nxt, more, buf)
  {
    hide Age;
  }

  lemma AgesSorted(s: Sender, s': Sender, oldest: int, n: nat)
    requires OutSorted(s.nxt, oldest, s.buf) && oldest >= 0 && |s'.buf| == |s.buf| + n
    requires forall i :: 0 <= i < |s'.buf| ==>
      Age(s'.nxt, s'.buf[i].sn) == if i < |s.buf| then Age(s.nxt, s.buf[i].sn) + n else n - (i - |s.buf|)
    ensures OutSorted(s'.nxt, oldest + n, s'.buf)
  {
    hide Age;
  }

  lemma NewAge(nxt: u32, n: nat, j: nat)
    requires j < n < M
    ensures Age(Wrap(nxt + n), Wrap(nxt + j)) == n - j
  {
  }

  lemma AdmitBound(cb: Cb, window: u32)
    requires window <= cb.cfg.sndWnd
    ensures var n := AdmitCount(cb.snd, window); n == 0 || Age(cb.snd.nxt, cb.snd.una) + n <= cb.cfg.sndWnd
  {
  }

  lemma AdmitOk(cb: Cb, p: Pacing, window: u32)
    requires CbOk(cb) && window <= cb.cfg.sndWnd
    ensures SenderOk(cb.cfg, Admit(cb, p, AdmitCount(cb.snd, window)))
  {
    var n := AdmitCount(cb.snd, window);
    var s, s' := cb.snd, Admit(cb, p, n);
    AdmitSorts(cb, p, n);
    hide Age, OutSorted;
    if s'.buf != [] && s.buf == [] { assert s'.buf[0].sn == Wrap(s.nxt + 0); }
    assert HeadIsUna(s');
  }

  lemma TransmitKeepsSender(cb: Cb, p: Pacing, s: Sender)
    requires SenderOk(cb.cfg, s)
    ensures SenderOk(cb.cfg, s.(buf := TransmitAll(cb, p, s.buf)))
  {
    hide Transmit, Age;
  }

  lemma FlushOk(cb: Cb)
    requires CbOk(cb)
    ensures CbOk(Flush(cb).cb)
  {
    if cb.pace.updated {
      var p := Probe(cb.pace);
      var n := AdmitCount(cb.snd, SendWindow(cb.cfg, p));
      AdmitOk(cb, p, SendWindow(cb.cfg, p));
      TransmitKeepsSender(cb, p, Admit(cb, p, n));
      hide Admit, Congest, TransmitAll, Probe, TallyOf, SendWindow, SenderOk, AdmitCount, DataWires;
    }
  }

  lemma UpdateOk(cb: Cb, current: u32)
    requires CbOk(cb)
    ensures CbOk(Update(cb, current).cb)
  {
    FlushOk(cb.(pace := Tick(cb.cfg, cb.pace, current)));
  }

  // ----- bounds that follow

  /** Neither buffer can outgrow its window. */
  lemma {:induction false} BuffersBounded(cb: Cb)
    requires CbOk(cb)
    ensures |cb.snd.buf| <= Age(cb.snd.nxt, cb.snd.una) <= cb.cfg.sndWnd
    ensures |cb.rcv.buf| <= cb.cfg.rcvWnd
  {
    var s, r := cb.snd, cb.rcv;
    if s.buf != [] { AgesSpread(s, 0); }
    if r.buf != [] { AheadsSpread(r.nxt, cb.cfg.rcvWnd, r.buf, |r.buf| - 1); }
  }

  lemma {:induction false} AgesSpread(s: Sender, i: nat)
    requires i < |s.buf| && OutSorted(s.nxt, Age(s.nxt, s.una), s.buf)
    ensures Age(s.nxt, s.buf[i].sn) >= |s.buf| - i
    decreases |s.buf| - i
  {
    if i + 1 < |s.buf| { AgesSpread(s, i + 1); }
  }

  lemma {:induction false} AheadsSpread(nxt: u32, wnd: u32, buf: seq<InSeg>, i: nat)
    requires i < |buf| && InSorted(nxt, wnd, buf)
    ensures Ahead(nxt, buf[i].sn) >= i
  {
    if i > 0 { AheadsSpread(nxt, wnd, buf, i - 1); }
  }
}
