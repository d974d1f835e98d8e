/**
  One endpoint against the unbounded history of a connection: `sent` lists every fragment the
  sender has numbered (its index is its unbounded number), `taken` every fragment the user of the
  receiver has read. The 32-bit words of the control block are the wrapped forms of these numbers.
 */
module KcpHistory {
  import opened Wrap32
  import opened KcpTypes
  import opened KcpSpec
  import opened KcpInvariants

  // ----- the sender

  /** The unbounded number of a segment in snd_buf, when n numbers have been given out. */
  function OutNo(n: nat, nxt: u32, sn: u32): int { n - Age(nxt, sn) }

  ghost predicate SentOk(sent: seq<Frag>, s: Sender)
  {
    && s.nxt == Wrap(|sent|)
    && Age(s.nxt, s.una) <= |sent|
    && forall i :: 0 <= i < |s.buf| ==>
         && 0 <= OutNo(|sent|, s.nxt, s.buf[i].sn) < |sent|
         && sent[OutNo(|sent|, s.nxt, s.buf[i].sn)] == s.buf[i].frag
  }

  /** Fragment number k waits in snd_buf for its acknowledgement. */
  ghost predicate Unacked(n: nat, s: Sender, k: int)
  {
    exists i :: 0 <= i < |s.buf| && OutNo(n, s.nxt, s.buf[i].sn) == k
  }

  lemma OutNoWraps(n: nat, nxt: u32, sn: u32)
    requires nxt == Wrap(n)
    ensures Wrap(OutNo(n, nxt, sn)) == sn
  {
  }

  lemma OutDiff(n: nat, nxt: u32, sn: u32, u: int)
    requires nxt == Wrap(n) && -HALF < u - OutNo(n, nxt, sn) < HALF
    ensures Diff(Wrap(u), sn) == u - OutNo(n, nxt, sn)
  {
    OutNoWraps(n, nxt, sn);
    DiffIsExact(u, OutNo(n, nxt, sn));
  }

  /** A cumulative acknowledgement of unbounded number u, read while less than 2^31 away from
      snd_una, removes exactly the segments numbered below u. The test on the head alone keeps a
      stale u from being taken for a number ahead. */
  lemma {:induction false} DropsExactly(n: nat, nxt: u32, oldest: int, buf: seq<OutSeg>, u: int)
    requires nxt == Wrap(n) && OutSorted(nxt, oldest, buf) && oldest < HALF
    requires -HALF < u - (n - oldest) < HALF
    requires u > n - oldest || buf == [] || Age(nxt, buf[0].sn) == oldest
    ensures forall i :: 0 <= i < |buf| ==>
      (i < |buf| - |DropBelow(buf, Wrap(u))| <==> OutNo(n, nxt, buf[i].sn) < u)
  {
    hide Diff, Age, Wrap;
    if buf != [] {
      OutDiff(n, nxt, buf[0].sn, u);
      OutSortedSuffix(nxt, oldest, buf, 1);
      if Diff(Wrap(u), buf[0].sn) > 0 {
        DropsExactly(n, nxt, oldest, buf[1..], u);
        hide OutSorted;
        var d := |buf| - |DropBelow(buf, Wrap(u))|;
        forall i | 0 <= i < |buf| ensures i < d <==> OutNo(n, nxt, buf[i].sn) < u {
          if i > 0 { assert buf[i] == buf[1..][i - 1]; }
        }
      }
    }
  }

  lemma FewerUnacked(sent: seq<Frag>, s: Sender, s': Sender)
    requires SentOk(sent, s) && s'.nxt == s.nxt && Age(s.nxt, s'.una) <= Age(s.nxt, s.una)
    requires forall x :: x in s'.buf ==> x in s.buf
    ensures SentOk(sent, s')
  {
    hide Age, Wrap;
    forall i | 0 <= i < |s'.buf|
      ensures 0 <= OutNo(|sent|, s.nxt, s'.buf[i].sn) < |sent|
        && sent[OutNo(|sent|, s.nxt, s'.buf[i].sn)] == s'.buf[i].frag
    {
      assert s'.buf[i] in s'.buf;
    }
  }

  /** The una field takes out of snd_buf only what lies below it. */
  lemma UnaReleases(cfg: Config, sent: seq<Frag>, s: Sender, u: int)
    requires cfg.Valid() && SenderOk(cfg, s) && SentOk(sent, s)
    requires -HALF < u - OutNo(|sent|, s.nxt, s.una) < HALF
    ensures var s' := Shrink(s.(buf := DropBelow(s.buf, Wrap(u))));
      && SentOk(sent, s')
      && forall k :: Unacked(|sent|, s, k) ==> Unacked(|sent|, s', k) || k < u
  {
    hide DropBelow, Age, Wrap;
    var r := DropBelow(s.buf, Wrap(u));
    DropsExactly(|sent|, s.nxt, Age(s.nxt, s.una), s.buf, u);
    OutSortedSuffix(s.nxt, Age(s.nxt, s.una), s.buf, |s.buf| - |r|);
    ShrinkOk(cfg, s.(buf := r));
    SuffixUnacked(|sent|, s, r, u);
    FewerUnacked(sent, s, Shrink(s.(buf := r)));
  }

  lemma SuffixUnacked(n: nat, s: Sender, r: seq<OutSeg>, u: int)
    requires |r| <= |s.buf| && r == s.buf[|s.buf| - |r|..]
    requires forall i :: 0 <= i < |s.buf| - |r| ==> OutNo(n, s.nxt, s.buf[i].sn) < u
    ensures forall k :: Unacked(n, s, k) ==> Unacked(n, Shrink(s.(buf := r)), k) || k < u
  {
    hide OutNo;
    var s' := Shrink(s.(buf := r));
    forall k | Unacked(n, s, k) && k >= u ensures Unacked(n, s', k) {
      var i :| 0 <= i < |s.buf| && OutNo(n, s.nxt, s.buf[i].sn) == k;
      assert s'.buf[i - (|s.buf| - |r|)] == s.buf[i];
    }
  }

  /** An acknowledgement of unbounded number a, read while less than 2^31 away from snd_una, takes
      out of snd_buf at most fragment a. */
  lemma AckReleases(cfg: Config, sent: seq<Frag>, s: Sender, a: int)
    requires cfg.Valid() && SenderOk(cfg, s) && SentOk(sent, s)
    requires -HALF < a - OutNo(|sent|, s.nxt, s.una) < HALF
    ensures var s' := Shrink(ParseAck(s, Wrap(a)));
      && SentOk(sent, s')
      && forall k :: Unacked(|sent|, s, k) ==> Unacked(|sent|, s', k) || k == a
  {
    var n := |sent|;
    var s' := Shrink(ParseAck(s, Wrap(a)));
    AckRemovesExactly(cfg, s, Wrap(a));
    AckKeepsSender(cfg, s, Wrap(a));
    hide ParseAck, SenderOk, OutNo, Wrap;
    FewerUnacked(sent, s, s');
    forall k | Unacked(n, s, k) && k != a ensures Unacked(n, s', k) {
      var i :| 0 <= i < |s.buf| && OutNo(n, s.nxt, s.buf[i].sn) == k;
      OutNoWraps(n, s.nxt, s.buf[i].sn);
      UnackedNear(cfg, n, s, i);
      if s.buf[i].sn == Wrap(a) { WrapInjective(k, a); }
      assert s.buf[i] in s'.buf;
      var j :| 0 <= j < |s'.buf| && s'.buf[j] == s.buf[i];
      assert OutNo(n, s.nxt, s'.buf[j].sn) == k;
    }
  }

  /** What waits in snd_buf is numbered from snd_una on, within the window. */
  lemma UnackedNear(cfg: Config, n: nat, s: Sender, i: nat)
    requires cfg.Valid() && SenderOk(cfg, s) && i < |s.buf|
    ensures 0 <= OutNo(n, s.nxt, s.buf[i].sn) - OutNo(n, s.nxt, s.una) < HALF
  {
    hide Age;
  }

  lemma AdmitNumbers(sent: seq<Frag>, cb: Cb, p: Pacing, n: nat)
    requires CbOk(cb) && SentOk(sent, cb.snd) && n <= |cb.snd.queue|
    requires n == 0 || Age(cb.snd.nxt, cb.snd.una) + n <= cb.cfg.sndWnd
    ensures var s, s' := cb.snd, Admit(cb, p, n);
      && Age(s'.nxt, s'.una) == Age(s.nxt, s.una) + n
      && forall i :: 0 <= i < |s'.buf| ==>
           OutNo(|sent| + n, s'.nxt, s'.buf[i].sn)
           == if i < |s.buf| then OutNo(|sent|, s.nxt, s.buf[i].sn) else |sent| + (i - |s.buf|)
  {
    hide Age, Wrap, ReceiverOk, NewSeg, FitsMss;
    var s, s' := cb.snd, Admit(cb, p, n);
    AdmitAge(s.nxt, n, s.una);
    forall i | 0 <= i < |s'.buf|
      ensures OutNo(|sent| + n, s'.nxt, s'.buf[i].sn)
        == if i < |s.buf| then OutNo(|sent|, s.nxt, s.buf[i].sn) else |sent| + (i - |s.buf|)
    {
      AdmitAges(cb, p, n, i);
    }
  }

  /** Fragments that get a number are appended to the history and wait in snd_buf. */
  lemma AdmitExtends(sent: seq<Frag>, cb: Cb, p: Pacing, n: nat)
    requires CbOk(cb) && SentOk(sent, cb.snd) && n <= |cb.snd.queue|
    requires n == 0 || Age(cb.snd.nxt, cb.snd.una) + n <= cb.cfg.sndWnd
    ensures var sent', s' := sent + cb.snd.queue[..n], Admit(cb, p, n);
      && SentOk(sent', s')
      && (forall k :: Unacked(|sent|, cb.snd, k) ==> Unacked(|sent'|, s', k))
      && (forall k :: |sent| <= k < |sent'| ==> Unacked(|sent'|, s', k))
  {
    var s, m := cb.snd, |sent|;
    var sent', s' := sent + s.queue[..n], Admit(cb, p, n);
    AdmitNumbers(sent, cb, p, n);
    WrapPlus(m, n);
    hide Age, Wrap, OutNo, CbOk;
    AdmitSentOk(sent, s, s', s.queue[..n]);
    AdmitUnacked(sent, s, s', n, |sent'|);
  }

  lemma AdmitSentOk(sent: seq<Frag>, s: Sender, s': Sender, more: seq<Frag>)
    requires SentOk(sent, s)
    requires |s'.buf| == |s.buf| + |more|
    requires forall i :: 0 <= i < |s'.buf| ==>
      && s'.buf[i].frag == (if i < |s.buf| then s.buf[i].frag else more[i - |s.buf|])
      && OutNo(|sent| + |more|, s'.nxt, s'.buf[i].sn)
         == if i < |s.buf| then OutNo(|sent|, s.nxt, s.buf[i].sn) else |sent| + (i - |s.buf|)
    requires s'.nxt == Wrap(|sent| + |more|) && Age(s'.nxt, s'.una) <= |sent| + |more|
    ensures SentOk(sent + more, s')
  {
    hide Age, Wrap, OutNo;
  }

  lemma AdmitUnacked(sent: seq<Frag>, s: Sender, s': Sender, n: nat, m': nat)
    requires |s'.buf| == |s.buf| + n
    requires m' == |sent| + n
    requires forall i :: 0 <= i < |s'.buf| ==>
      OutNo(m', s'.nxt, s'.buf[i].sn)
      == if i < |s.buf| then OutNo(|sent|, s.nxt, s.buf[i].sn) else |sent| + (i - |s.buf|)
    ensures forall k :: Unacked(|sent|, s, k) ==> Unacked(m', s', k)
    ensures forall k :: |sent| <= k < m' ==> Unacked(m', s', k)
  {
    hide Age, Wrap, OutNo;
    var m := |sent|;
    forall k | Unacked(m, s, k) ensures Unacked(m', s', k) {
      var i :| 0 <= i < |s.buf| && OutNo(m, s.nxt, s.buf[i].sn) == k;
      assert OutNo(m', s'.nxt, s'.buf[i].sn) == k;
    }
    forall k | m <= k < m' ensures Unacked(m', s', k) {
      assert OutNo(m', s'.nxt, s'.buf[|s.buf| + (k - m)].sn) == k;
    }
  }

  // ----- the receiver

  /** How many fragments have been put in order so far. */
  function Expected(taken: seq<Frag>, r: Receiver): nat { |taken| + |r.queue| }

  /** The unbounded number of a segment in rcv_buf. */
  function InNo(taken: seq<Frag>, r: Receiver, sn: u32): nat { Expected(taken, r) + Ahead(r.nxt, sn) }

  /** What the user has read followed by what waits in rcv_queue is a prefix of what was sent; rcv_buf
      holds later fragments, each under its own number. */
  ghost predicate ArrivedOk(taken: seq<Frag>, r: Receiver, sent: seq<Frag>)
  {
    && r.nxt == Wrap(Expected(taken, r))
    && taken + Frags(r.queue) <= sent
    && forall i :: 0 <= i < |r.buf| ==>
         && InNo(taken, r, r.buf[i].sn) < |sent|
         && sent[InNo(taken, r, r.buf[i].sn)] == r.buf[i].frag
  }

  /** Fragment number k has been delivered, or is held in rcv_queue or rcv_buf. */
  ghost predicate Held(taken: seq<Frag>, r: Receiver, k: int)
  {
    k < Expected(taken, r) || exists i :: 0 <= i < |r.buf| && InNo(taken, r, r.buf[i].sn) == k
  }

  ghost predicate HeldKept(taken: seq<Frag>, r: Receiver, taken': seq<Frag>, r': Receiver)
  {
    && Expected(taken, r) <= Expected(taken', r')
    && forall k :: Held(taken, r, k) ==> Held(taken', r', k)
  }

  /** One segment moved from rcv_buf to rcv_queue. */
  function Moved(r: Receiver): Receiver
    requires r.buf != []
  {
    r.(nxt := Wrap(r.nxt + 1), buf := r.buf[1..], queue := r.queue + [r.buf[0]])
  }

  lemma MovedShifts(cfg: Config, taken: seq<Frag>, r: Receiver)
    requires InSorted(r.nxt, cfg.rcvWnd, r.buf) && r.buf != [] && r.buf[0].sn == r.nxt
    ensures Expected(taken, Moved(r)) == Expected(taken, r) + 1
    ensures forall i :: 1 <= i < |r.buf| ==> InNo(taken, Moved(r), r.buf[i].sn) == InNo(taken, r, r.buf[i].sn)
    ensures InNo(taken, r, r.buf[0].sn) == Expected(taken, r)
    ensures InSorted(Moved(r).nxt, cfg.rcvWnd, Moved(r).buf)
  {
    MovedSorted(r.nxt, cfg.rcvWnd, r.buf);
    hide Wrap;
    assert InNo(taken, r, r.buf[0].sn) == Expected(taken, r) by { AheadNone(r.nxt); }
  }

  lemma AheadNone(nxt: u32)
    ensures Ahead(nxt, nxt) == 0
  {
  }

  lemma MovedInOrder(cfg: Config, taken: seq<Frag>, r: Receiver, sent: seq<Frag>)
    requires InSorted(r.nxt, cfg.rcvWnd, r.buf) && r.buf != [] && r.buf[0].sn == r.nxt
    requires ArrivedOk(taken, r, sent)
    ensures ArrivedOk(taken, Moved(r), sent)
  {
    MovedShifts(cfg, taken, r);
    WrapPlus(Expected(taken, r), 1);
    hide Ahead, Wrap, InNo;
    var r', n := Moved(r), Expected(taken, r);
    assert Frags(r'.queue) == Frags(r.queue) + [r.buf[0].frag];
    assert taken + Frags(r'.queue) == (taken + Frags(r.queue)) + [sent[n]];
    assert sent[..n + 1] == sent[..n] + [sent[n]];
  }

  lemma MovedHolds(cfg: Config, taken: seq<Frag>, r: Receiver)
    requires InSorted(r.nxt, cfg.rcvWnd, r.buf) && r.buf != [] && r.buf[0].sn == r.nxt
    ensures HeldKept(taken, r, taken, Moved(r))
  {
    MovedShifts(cfg, taken, r);
    hide InNo;
    var r' := Moved(r);
    forall k | Held(taken, r, k) ensures Held(taken, r', k) {
      if k > Expected(taken, r) {
        var i :| 0 <= i < |r.buf| && InNo(taken, r, r.buf[i].sn) == k;
        assert InNo(taken, r', r'.buf[i - 1].sn) == k;
      }
    }
  }

  /** Moving segments to rcv_queue delivers them in order and loses none. */
  lemma {:induction false} ReleaseDelivers(cfg: Config, taken: seq<Frag>, r: Receiver, sent: seq<Frag>)
    requires InSorted(r.nxt, cfg.rcvWnd, r.buf) && ArrivedOk(taken, r, sent)
    ensures ArrivedOk(taken, Release(r, cfg.rcvWnd), sent)
    ensures HeldKept(taken, r, taken, Release(r, cfg.rcvWnd))
    decreases |r.buf|
  {
    if r.buf != [] && r.buf[0].sn == r.nxt && |r.queue| < cfg.rcvWnd {
      MovedShifts(cfg, taken, r);
      MovedInOrder(cfg, taken, r, sent);
      MovedHolds(cfg, taken, r);
      hide InNo, ArrivedOk, Held;
      ReleaseDelivers(cfg, taken, Moved(r), sent);
    }
  }

  lemma MoreHeld(taken: seq<Frag>, r: Receiver, r': Receiver)
    requires r'.nxt == r.nxt && r'.queue == r.queue
    requires forall x :: x in r.buf ==> x in r'.buf
    ensures HeldKept(taken, r, taken, r')
  {
    hide Ahead;
    forall j | Held(taken, r, j) ensures Held(taken, r', j) {
      if j >= Expected(taken, r) {
        var i :| 0 <= i < |r.buf| && InNo(taken, r, r.buf[i].sn) == j;
        InsertedAt(r, r', i);
      }
    }
  }

  lemma ArrivedAt(taken: seq<Frag>, r: Receiver, sent: seq<Frag>, i: nat, k: nat)
    requires ArrivedOk(taken, r, sent) && i < |r.buf| && k < |sent|
    requires Expected(taken, r) <= k < Expected(taken, r) + M
    ensures r.buf[i].sn == Wrap(k) ==> InNo(taken, r, r.buf[i].sn) == k && r.buf[i] == InSeg(Wrap(k), sent[k])
  {
    AheadOf(taken, r, k);
  }

  /** Inserting an honest segment: it is in the buffer afterwards, whether or not it was before. */
  lemma InsertGains(cfg: Config, taken: seq<Frag>, r: Receiver, sent: seq<Frag>, k: nat)
    requires cfg.Valid() && ReceiverOk(cfg, r) && ArrivedOk(taken, r, sent)
    requires k < |sent| && Expected(taken, r) <= k < Expected(taken, r) + cfg.rcvWnd
    ensures var seg := InSeg(Wrap(k), sent[k]);
      && InSorted(r.nxt, cfg.rcvWnd, Insert(r.buf, seg))
      && forall x :: x in Insert(r.buf, seg) <==> x in r.buf || x == seg
  {
    var seg := InSeg(Wrap(k), sent[k]);
    AheadOf(taken, r, k);
    InsertKeeps(r.nxt, cfg.rcvWnd, r.buf, seg);
    forall i | 0 <= i < |r.buf| ensures r.buf[i].sn == seg.sn ==> r.buf[i] == seg {
      ArrivedAt(taken, r, sent, i, k);
    }
    hide Insert, InSorted, Ahead, Wrap, ArrivedOk, Contiguous;
  }

  lemma ArrivedWith(taken: seq<Frag>, r: Receiver, sent: seq<Frag>, buf: seq<InSeg>, k: nat)
    requires ArrivedOk(taken, r, sent) && k < |sent| && Expected(taken, r) <= k < Expected(taken, r) + M
    requires forall x :: x in buf <==> x in r.buf || x == InSeg(Wrap(k), sent[k])
    ensures ArrivedOk(taken, r.(buf := buf), sent)
    ensures HeldKept(taken, r, taken, r.(buf := buf))
    ensures Held(taken, r.(buf := buf), k)
  {
    var seg, r' := InSeg(Wrap(k), sent[k]), r.(buf := buf);
    AheadOf(taken, r, k);
    hide Ahead, Wrap;
    MoreHeld(taken, r, r');
    hide HeldKept;
    forall i | 0 <= i < |buf|
      ensures InNo(taken, r', buf[i].sn) < |sent| && sent[InNo(taken, r', buf[i].sn)] == buf[i].frag
    {
      assert buf[i] in buf;
    }
    assert seg in buf;
    var i :| 0 <= i < |buf| && buf[i] == seg;
    assert InNo(taken, r', r'.buf[i].sn) == k;
  }

  lemma InsertedAt(r: Receiver, r': Receiver, i: nat)
    requires i < |r.buf| && forall x :: x in r.buf ==> x in r'.buf
    ensures exists j :: 0 <= j < |r'.buf| && r'.buf[j] == r.buf[i]
  {
    assert r.buf[i] in r'.buf;
  }

  lemma AheadOf(taken: seq<Frag>, r: Receiver, k: nat)
    requires r.nxt == Wrap(Expected(taken, r)) && Expected(taken, r) <= k < Expected(taken, r) + M
    ensures Ahead(r.nxt, Wrap(k)) == k - Expected(taken, r)
  {
    WrapOfDifference(k, Expected(taken, r));
  }

  /** Fragment k arrives while less than 2^31 away from the next one expected: what is put in order
      stays a prefix of what was sent, nothing held is lost, and an acknowledgement is recorded only
      for a fragment that is now held. */
  lemma PushArrives(cfg: Config, taken: seq<Frag>, r: Receiver, sent: seq<Frag>, w: Wire, k: nat)
    requires cfg.Valid() && ReceiverOk(cfg, r) && ArrivedOk(taken, r, sent)
    requires k < |sent| && w.sn == Wrap(k) && Frag(w.frg, w.data) == sent[k]
    requires -HALF < k - Expected(taken, r) < HALF
    ensures var r' := ApplyPush(r, cfg.rcvWnd, w);
      && ArrivedOk(taken, r', sent)
      && HeldKept(taken, r, taken, r')
      && (r'.acks == r.acks || (r'.acks == r.acks + [Ack(w.sn, w.ts)] && Held(taken, r', k)))
      && (k < Expected(taken, r) + cfg.rcvWnd ==> Held(taken, r', k))
  {
    var r1 := r.(acks := r.acks + [Ack(w.sn, w.ts)]);
    AcksAside(cfg, taken, r, sent, r1.acks);
    PushCases(taken, r, cfg.rcvWnd, w, k);
    hide ApplyPush, Release, Insert, ReceiverOk, ArrivedOk, Held, HeldKept;
    if Expected(taken, r) <= k < Expected(taken, r) + cfg.rcvWnd {
      PushKeeps(cfg, taken, r1, sent, k);
      HeldKeptTrans(taken, r, taken, r1, taken, ApplyPush(r, cfg.rcvWnd, w));
    }
  }

  /** The two tests on a number, in unbounded terms. */
  lemma PushCases(taken: seq<Frag>, r: Receiver, wnd: u32, w: Wire, k: int)
    requires r.nxt == Wrap(Expected(taken, r)) && w.sn == Wrap(k) && wnd < HALF
    requires -HALF < k - Expected(taken, r) < HALF
    ensures var r1 := r.(acks := r.acks + [Ack(w.sn, w.ts)]);
      ApplyPush(r, wnd, w) ==
      if Expected(taken, r) <= k < Expected(taken, r) + wnd then
        Release(r1.(buf := Insert(r.buf, InSeg(w.sn, Frag(w.frg, w.data)))), wnd)
      else if k < Expected(taken, r) && Diff(w.sn, Wrap(r.nxt + wnd)) < 0 then r1
      else r
  {
    hide Release, Insert, Wrap, Diff, Ahead;
    DiffIsExact(k, Expected(taken, r));
    InWindow(r.nxt, wnd, w.sn);
    if k >= Expected(taken, r) { AheadOf(taken, r, k); }
  }

  lemma AcksAside(cfg: Config, taken: seq<Frag>, r: Receiver, sent: seq<Frag>, acks: seq<Ack>)
    requires ReceiverOk(cfg, r) && ArrivedOk(taken, r, sent)
    ensures ReceiverOk(cfg, r.(acks := acks))
    ensures r.nxt == Wrap(Expected(taken, r))
    ensures ArrivedOk(taken, r.(acks := acks), sent)
    ensures HeldKept(taken, r, taken, r) && HeldKept(taken, r, taken, r.(acks := acks))
    ensures forall k: nat :: k < Expected(taken, r) ==> Held(taken, r.(acks := acks), k)
  {
    hide Ahead, Wrap;
    MoreHeld(taken, r, r.(acks := acks));
  }

  lemma HeldKeptTrans(t0: seq<Frag>, r0: Receiver, t1: seq<Frag>, r1: Receiver, t2: seq<Frag>, r2: Receiver)
    requires HeldKept(t0, r0, t1, r1) && HeldKept(t1, r1, t2, r2)
    ensures HeldKept(t0, r0, t2, r2)
  {
  }

  lemma PushKeeps(cfg: Config, taken: seq<Frag>, r: Receiver, sent: seq<Frag>, k: nat)
    requires cfg.Valid() && ReceiverOk(cfg, r) && ArrivedOk(taken, r, sent)
    requires k < |sent| && Expected(taken, r) <= k < Expected(taken, r) + cfg.rcvWnd
    ensures var r' := Release(r.(buf := Insert(r.buf, InSeg(Wrap(k), sent[k]))), cfg.rcvWnd);
      ArrivedOk(taken, r', sent) && HeldKept(taken, r, taken, r') && Held(taken, r', k)
  {
    var r1 := r.(buf := Insert(r.buf, InSeg(Wrap(k), sent[k])));
    InsertGains(cfg, taken, r, sent, k);
    ArrivedWith(taken, r, sent, r1.buf, k);
    ReleaseDelivers(cfg, taken, r1, sent);
    hide ArrivedOk, Held, InSorted, Insert, Release;
  }

  /** Reading a message from the head of rcv_queue. */
  lemma TakeDelivers(cfg: Config, taken: seq<Frag>, r: Receiver, sent: seq<Frag>, n: nat)
    requires cfg.Valid() && ReceiverOk(cfg, r) && ArrivedOk(taken, r, sent) && n <= |r.queue|
    ensures var taken', r' := taken + Frags(r.queue[..n]), Release(r.(queue := r.queue[n..]), cfg.rcvWnd);
      ArrivedOk(taken', r', sent) && HeldKept(taken, r, taken', r')
  {
    var taken', r1 := taken + Frags(r.queue[..n]), r.(queue := r.queue[n..]);
    assert taken' + Frags(r1.queue) == taken + Frags(r.queue);
    assert Expected(taken', r1) == Expected(taken, r);
    assert forall i :: 0 <= i < |r.buf| ==> InNo(taken', r1, r.buf[i].sn) == InNo(taken, r, r.buf[i].sn);
    assert HeldKept(taken, r, taken', r1);
    ReleaseDelivers(cfg, taken', r1, sent);
    hide ArrivedOk, InNo, Held;
  }
}
