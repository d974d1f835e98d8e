/**
  From fragments back to what the users see: byte streams and messages.
 */
module KcpMessages {
  import opened Wrap32
  import opened KcpTypes
  import opened KcpSpec
  import opened KcpInvariants

  /** The fragments of one message in message mode. */
  function Message(mss: int, buf: seq<byte>): (fs: seq<Frag>)
    requires mss > 0
  {
    if |buf| <= (WND_RCV - 1) * mss then Split(mss, false, buf) else []
  }

  /** The fragments of a list of messages. */
  function Messages(mss: int, bufs: seq<seq<byte>>): (fs: seq<Frag>)
    requires mss > 0
  {
    if bufs == [] then [] else Message(mss, bufs[0]) + Messages(mss, bufs[1..])
  }

  lemma {:induction false} MessagesAppend(mss: int, a: seq<seq<byte>>, b: seq<seq<byte>>)
    requires mss > 0
    ensures Messages(mss, a + b) == Messages(mss, a) + Messages(mss, b)
  {
    hide Message;
    if a == [] {
      assert a + b == b;
    } else {
      assert (a + b)[1..] == a[1..] + b;
      MessagesAppend(mss, a[1..], b);
    }
  }

  lemma MessagesSnoc(mss: int, bufs: seq<seq<byte>>, buf: seq<byte>)
    requires mss > 0
    ensures Messages(mss, bufs + [buf]) == Messages(mss, bufs) + Message(mss, buf)
  {
    hide Message;
    MessagesAppend(mss, bufs, [buf]);
    assert [buf][1..] == [];
    assert Messages(mss, [buf]) == Message(mss, buf) + Messages(mss, []);
  }

  lemma ConcatSnoc(bufs: seq<seq<byte>>, buf: seq<byte>)
    ensures Concat(bufs + [buf]) == Concat(bufs) + buf
  {
    ConcatAppend(bufs, [buf]);
    assert Concat([buf]) == buf + Concat([]);
  }

  lemma PayloadOne(f: Frag)
    ensures Payload([f]) == f.data
  {
    assert Payload([f]) == f.data + Payload([f][1..]);
  }

  /** Cutting a buffer up loses nothing, and fragment numbers count down to 0 in message mode. */
  lemma {:induction false} SplitWhole(mss: int, stream: bool, data: seq<byte>)
    requires mss > 0 && |data| <= (WND_RCV - 1) * mss
    ensures var fs := Split(mss, stream, data);
      && |fs| < WND_RCV && Payload(fs) == data
      && forall i :: 0 <= i < |fs| ==>
           |fs[i].data| <= mss && fs[i].frg == if stream then 0 else |fs| - 1 - i
    decreases |data|
  {
    var fs := Split(mss, stream, data);
    SplitLength(mss, stream, data);
    if |data| <= mss {
      PayloadOne(Frag(0, data));
    } else {
      SplitWhole(mss, stream, data[mss..]);
      assert fs[1..] == Split(mss, stream, data[mss..]);
      assert data == data[..mss] + data[mss..];
    }
  }

  // ----- sending

  /** All but the last waiting segment are full. */
  ghost predicate Streamed(mss: int, queue: seq<Frag>)
  {
    forall i :: 0 <= i < |queue| - 1 ==> |queue[i].data| == mss
  }

  lemma {:induction false} SplitFull(mss: int, data: seq<byte>)
    requires mss > 0 && |data| <= (WND_RCV - 1) * mss
    ensures Streamed(mss, Split(mss, true, data))
    decreases |data|
  {
    if |data| > mss { SplitFull(mss, data[mss..]); }
  }

  lemma PayloadSnoc(fs: seq<Frag>, f: Frag)
    ensures Payload(fs + [f]) == Payload(fs) + f.data
  {
    PayloadAppend(fs, [f]);
    PayloadOne(f);
  }

  lemma TailPayload(cfg: Config, queue: seq<Frag>, more: seq<byte>)
    requires more != [] ==> TailOpen(cfg, queue)
    ensures Payload(ExtendTail(cfg, queue, more)) == Payload(queue) + more
  {
    hide Payload;
    if TailOpen(cfg, queue) {
      var init, tail := queue[..|queue| - 1], queue[|queue| - 1];
      assert queue == init + [tail];
      PayloadSnoc(init, tail);
      PayloadSnoc(init, Frag(0, tail.data + more));
    }
  }

  /** What ikcp_send does to the bytes waiting in snd_queue: it appends the first `code` bytes of the
      buffer, or nothing when it refuses. */
  lemma SendAppends(cb: Cb, data: seq<byte>)
    requires CbOk(cb)
    ensures var r := Send(cb, data);
      && (r.code == -2 || 0 <= r.code <= |data|)
      && Payload(r.cb.snd.queue) == Payload(cb.snd.queue) + (if r.code < 0 then [] else data[..r.code])
      && (r.code < 0 ==> r.cb == cb)
      && r.cb.(snd := r.cb.snd.(queue := cb.snd.queue)) == cb
  {
    hide Send, Split, Count, CbOk, ExtendTail, TailRoom;
    var cfg := cb.cfg;
    assert cfg.Valid() by { CbValid(cb); }
    SendCases(cb, data);
    var extend := TailRoom(cfg, cb.snd.queue, |data|);
    var queue1 := ExtendTail(cfg, cb.snd.queue, data[..extend]);
    var rest := data[extend..];
    TailPayload(cfg, cb.snd.queue, data[..extend]);
    if Count(cfg.Mss(), |rest|) < WND_RCV {
      CountFits(cfg.Mss(), |rest|);
      SplitWhole(cfg.Mss(), cfg.stream, rest);
      PayloadAppend(queue1, Split(cfg.Mss(), cfg.stream, rest));
      assert data == data[..extend] + rest;
      assert data[..|data|] == data;
    }
  }

  lemma {:induction false} SplitSizes(mss: int, stream: bool, data: seq<byte>)
    requires mss > 0 && |data| <= (WND_RCV - 1) * mss
    ensures var fs := Split(mss, stream, data);
      && (forall i :: 0 <= i < |fs| - 1 ==> |fs[i].data| == mss)
      && (data != [] ==> fs[|fs| - 1].data != [])
    decreases |data|
  {
    if |data| > mss {
      var rest := Split(mss, stream, data[mss..]);
      SplitSizes(mss, stream, data[mss..]);
      var fs := Split(mss, stream, data);
      assert forall i :: 1 <= i < |fs| ==> fs[i] == rest[i - 1];
    }
  }

  /** A buffer that message mode takes becomes segments behind those waiting: each but the last fills a datagram
      together with its header, the last is empty only if the buffer is, and their fragment numbers count down to
      0. */
  lemma SendCuts(cb: Cb, data: seq<byte>)
    requires CbOk(cb) && !cb.cfg.stream && Send(cb, data).code >= 0
    ensures var queue, queue' := cb.snd.queue, Send(cb, data).cb.snd.queue;
      var n := |queue'| - |queue|;
      && n > 0 && queue'[..|queue|] == queue
      && forall i :: |queue| <= i < |queue'| ==>
           && queue'[i].frg == |queue'| - 1 - i
           && (i < |queue'| - 1 ==> 24 + |queue'[i].data| == cb.cfg.mtu)
           && (i == |queue'| - 1 ==> 24 + |queue'[i].data| <= cb.cfg.mtu && (data != [] ==> queue'[i].data != []))
  {
    hide Send, Split, Count, CbOk, ExtendTail;
    CbValid(cb);
    SendCases(cb, data);
    SendRefuses(cb, data);
    CountFits(cb.cfg.Mss(), |data|);
    assert data[0..] == data;
    SplitWhole(cb.cfg.Mss(), false, data);
    SplitSizes(cb.cfg.Mss(), false, data);
  }

  lemma CbValid(cb: Cb)
    requires CbOk(cb)
    ensures cb.cfg.Valid()
  {
  }

  /** Stream mode refuses a buffer only when it could not take a single byte; message mode refuses
      exactly the buffers of 128 fragments or more, and takes any other whole. */
  lemma SendRefuses(cb: Cb, data: seq<byte>)
    requires CbOk(cb)
    ensures var r := Send(cb, data);
      if cb.cfg.stream then
        r.code == -2 <==> TailRoom(cb.cfg, cb.snd.queue, |data|) == 0 && |data| > (WND_RCV - 1) * cb.cfg.Mss()
      else r.code == if |data| > (WND_RCV - 1) * cb.cfg.Mss() then -2 else |data|
  {
    hide Split, Count, ExtendTail, SenderOk, ReceiverOk;
    var extend := TailRoom(cb.cfg, cb.snd.queue, |data|);
    CountFits(cb.cfg.Mss(), |data[extend..]|);
    if extend == 0 { assert data[extend..] == data; }
    if data == [] { assert data[extend..] == []; }
  }

  /** Stream mode keeps every waiting segment but the last one full. */
  lemma SendKeepsStreamed(cb: Cb, data: seq<byte>)
    requires CbOk(cb) && cb.cfg.stream && Streamed(cb.cfg.Mss(), cb.snd.queue)
    ensures Streamed(cb.cfg.Mss(), Send(cb, data).cb.snd.queue)
  {
    hide Split, Count, ReceiverOk, OutSorted, Age;
    var cfg, queue := cb.cfg, cb.snd.queue;
    var extend := TailRoom(cfg, queue, |data|);
    var queue1 := ExtendTail(cfg, queue, data[..extend]);
    var rest := data[extend..];
    if rest != [] && Count(cfg.Mss(), |rest|) < WND_RCV {
      CountFits(cfg.Mss(), |rest|);
      SplitFull(cfg.Mss(), rest);
      assert queue != [] ==> |queue1[|queue1| - 1].data| == cfg.Mss();
    }
  }

  // ----- receiving

  /** In message mode the fragments at the head of rcv_queue are the beginning of the next message;
      once they are all there, the merge loop takes exactly them and yields the message. */
  lemma HeadIsMessage(mss: int, r: Receiver, bufs: seq<seq<byte>>)
    requires mss > 0 && r.queue != [] && Frags(r.queue) <= Messages(mss, bufs)
    requires forall i :: 0 <= i < |bufs| ==> |bufs[i]| <= (WND_RCV - 1) * mss
    ensures bufs != [] && r.queue[0].frag.frg == |Message(mss, bufs[0])| - 1
    ensures PeekSize(r) >= 0 <==> |r.queue| >= |Message(mss, bufs[0])|
    ensures PeekSize(r) >= 0 ==> var n := HeadCount(r.queue);
      Frags(r.queue[..n]) == Message(mss, bufs[0]) && Payload(Frags(r.queue[..n])) == bufs[0]
  {
    hide Split;
    var m := Message(mss, bufs[0]);
    SplitWhole(mss, false, bufs[0]);
    var n := HeadCount(r.queue);
    forall i | 0 <= i < |r.queue| && i < |m| ensures r.queue[i].frag == m[i] {
      assert Frags(r.queue)[i] == Messages(mss, bufs)[i];
    }
    if |r.queue| >= |m| {
      assert r.queue[|m| - 1].frag.frg == 0;
      assert n == |m|;
      assert Frags(r.queue[..n]) == m;
    }
  }

  /** The assertion in ikcp_recv: what the merge loop copies is as long as ikcp_peeksize said. */
  lemma RecvMatchesPeek(cb: Cb, len: int)
    ensures var r := Recv(cb, len);
      r.code >= 0 ==> r.code == PeekSize(cb.rcv) == |r.data| && |r.data| <= (if len < 0 then -len else len)
  {
    var q := cb.rcv.queue;
    if q != [] && q[0].frag.frg == 0 {
      assert HeadCount(q) == 1;
      assert Frags(q[..1]) == [q[0].frag];
      PayloadOne(q[0].frag);
    }
    hide Release;
  }

  /** The first n segments of the queue are a whole message: none but the last has the fragment number 0. */
  predicate HeadEnds(queue: seq<InSeg>, n: nat)
  {
    && 0 < n <= |queue|
    && (forall i :: 0 <= i < n - 1 ==> queue[i].frag.frg != 0)
    && (n < |queue| ==> queue[n - 1].frag.frg == 0)
  }

  /** What ikcp_recv answers: -1 when nothing waits, -2 while the head says that fragments are missing, -3 when the
      buffer is too small, always without a change; else the message, which it takes out unless it only looks. It
      has the new window told exactly when the queue was full and no longer is. */
  lemma RecvReports(cb: Cb, len: int) returns (n: nat)
    requires CbOk(cb)
    ensures var queue, r := cb.rcv.queue, Recv(cb, len);
      if queue == [] then r == Received(cb, -1, [])
      else if |queue| <= queue[0].frag.frg then r == Received(cb, -2, [])
      else
        HeadEnds(queue, n) &&
        var message, queue' := Payload(Frags(queue[..n])), r.cb.rcv.queue;
        if |message| > (if len < 0 then -len else len) then r == Received(cb, -3, [])
        else
          && r.code == |message| && r.data == message
          && (if len < 0 then r.cb.rcv == cb.rcv else queue[n..] <= queue' && r.cb.rcv.acks == cb.rcv.acks)
          && r.cb.snd == cb.snd && r.cb.cfg == cb.cfg
          && r.cb.pace == cb.pace.(askTell := cb.pace.askTell ||
                                              (|queue| >= cb.cfg.rcvWnd && |queue'| < cb.cfg.rcvWnd))
  {
    hide Release, SenderOk, ReceiverOk, InSorted, Contiguous;
    var queue := cb.rcv.queue;
    n := HeadCount(queue);
    RecvMatchesPeek(cb, len);
    if queue != [] {
      ReleaseAppends(cb.rcv.(queue := queue[n..]), cb.cfg.rcvWnd);
      ReleaseIdle(cb.cfg, cb.rcv);
      PeekIs(cb.rcv);
    }
  }

  lemma PeekIs(r: Receiver)
    requires r.queue != []
    ensures PeekSize(r) ==
      if |r.queue| <= r.queue[0].frag.frg then -1 else |Payload(Frags(r.queue[..HeadCount(r.queue)]))|
  {
    if r.queue[0].frag.frg == 0 {
      assert HeadCount(r.queue) == 1;
      assert Frags(r.queue[..1]) == [r.queue[0].frag];
      PayloadOne(r.queue[0].frag);
    }
  }

  lemma {:induction false} ReleaseAppends(r: Receiver, wnd: u32)
    ensures r.queue <= Release(r, wnd).queue
    decreases |r.buf|
  {
    if r.buf != [] && r.buf[0].sn == r.nxt && |r.queue| < wnd {
      ReleaseAppends(r.(nxt := Wrap(r.nxt + 1), buf := r.buf[1..], queue := r.queue + [r.buf[0]]), wnd);
    }
  }
}
