/**
  The 24-byte little-endian segment header, datagrams as concatenations of segments, the receive
  loop's view of a datagram, and the greedy batching of segments into datagrams of at most mtu bytes.
 */
module KcpWire {
  import opened Wrap32
  import opened KcpTypes

  function Encode16(w: u16): (bs: seq<byte>)
    ensures |bs| == 2
  {
    [w % 0x100, w / 0x100]
  }

  function Decode16(bs: seq<byte>): u16
    requires |bs| >= 2
  {
    bs[0] as int + bs[1] as int * 0x100
  }

  function Encode32(l: u32): (bs: seq<byte>)
    ensures |bs| == 4
  {
    [l % 0x100, l / 0x100 % 0x100, l / 0x1_0000 % 0x100, l / 0x100_0000]
  }

  function Decode32(bs: seq<byte>): u32
    requires |bs| >= 4
  {
    bs[0] as int + 0x100 * bs[1] as int + 0x1_0000 * bs[2] as int + 0x100_0000 * bs[3] as int
  }

  /** ikcp_encode_seg */
  function Header(w: Wire): (bs: seq<byte>)
    ensures |bs| == OVERHEAD
  {
    Encode32(w.conv) + [w.cmd, w.frg] + Encode16(w.wnd) + Encode32(w.ts) + Encode32(w.sn)
    + Encode32(w.una) + Encode32(Wrap(|w.data|))
  }

  function Encode(w: Wire): (bs: seq<byte>)
    ensures |bs| == Need(w)
  {
    Header(w) + w.data
  }

  /** Bytes a segment takes on the wire. */
  function Need(w: Wire): nat { OVERHEAD + |w.data| }

  function Size(ws: seq<Wire>): (n: nat)
    ensures ws == [] ==> n == 0
    ensures ws != [] ==> n >= OVERHEAD
  {
    if ws == [] then 0 else Need(ws[0]) + Size(ws[1..])
  }

  function EncodeAll(ws: seq<Wire>): (bs: seq<byte>)
    ensures |bs| == Size(ws)
  {
    if ws == [] then [] else Encode(ws[0]) + EncodeAll(ws[1..])
  }

  predicate KnownCmd(cmd: byte) { cmd == CMD_PUSH || cmd == CMD_ACK || cmd == CMD_WASK || cmd == CMD_WINS }

  /** The six header fields and the length field read from the first 24 bytes. */
  function DecodeHeader(bs: seq<byte>): (h: (Wire, u32))
    requires |bs| >= OVERHEAD
    ensures h.0.data == []
  {
    (Wire(Decode32(bs), bs[4], bs[5], Decode16(bs[6..]), Decode32(bs[8..]), Decode32(bs[12..]), Decode32(bs[16..]), []),
     Decode32(bs[20..]))
  }

  /** The segments the loop of ikcp_input works through before it stops, and the code it stops with. */
  datatype Parsed = Parsed(segs: seq<Wire>, code: int)

  function Parse(conv: u32, bs: seq<byte>): (p: Parsed)
    decreases |bs|
  {
    if |bs| < OVERHEAD then Parsed([], 0)
    else
      var (w, len) := DecodeHeader(bs);
      if w.conv != conv then Parsed([], -1)
      else if |bs| - OVERHEAD < len || len >= HALF then Parsed([], -2)
      else if !KnownCmd(w.cmd) then Parsed([], -3)
      else
        var rest := Parse(conv, bs[OVERHEAD + len..]);
        Parsed([w.(data := bs[OVERHEAD..OVERHEAD + len])] + rest.segs, rest.code)
  }

  // ----- encoding then parsing

  /** The length fits in a non-negative int. */
  predicate Encodable(w: Wire) { |w.data| < HALF }

  lemma Word16RoundTrip(w: u16)
    ensures Decode16(Encode16(w)) == w
  {
  }

  lemma Word32RoundTrip(l: u32)
    ensures Decode32(Encode32(l)) == l
  {
    var a, b := l / 0x100, l / 0x1_0000;
    assert a / 0x100 == b;
    assert b / 0x100 == l / 0x100_0000;
  }

  lemma HeaderRoundTrip(w: Wire, tail: seq<byte>)
    requires Encodable(w)
    ensures DecodeHeader(Header(w) + tail) == (w.(data := []), |w.data|)
  {
    var bs := Header(w) + tail;
    assert bs[0..4] == Encode32(w.conv);
    assert bs[6..8] == Encode16(w.wnd);
    assert bs[8..12] == Encode32(w.ts);
    assert bs[12..16] == Encode32(w.sn);
    assert bs[16..20] == Encode32(w.una);
    assert bs[20..24] == Encode32(Wrap(|w.data|));
    Word32RoundTrip(w.conv);
    Word16RoundTrip(w.wnd);
    Word32RoundTrip(w.ts);
    Word32RoundTrip(w.sn);
    Word32RoundTrip(w.una);
    Word32RoundTrip(|w.data|);
    Prefix32(bs, 0); Prefix32(bs, 8); Prefix32(bs, 12); Prefix32(bs, 16); Prefix32(bs, 20);
    assert Decode16(bs[6..]) == Decode16(bs[6..8]);
    assert bs[4] == w.cmd && bs[5] == w.frg;
  }

  lemma Prefix32(bs: seq<byte>, i: nat)
    requires i + 4 <= |bs|
    ensures Decode32(bs[i..]) == Decode32(bs[i..i + 4])
  {
  }

  /** A segment this connection can put on the wire. */
  predicate Sendable(conv: u32, w: Wire) { Encodable(w) && w.conv == conv && KnownCmd(w.cmd) }

  ghost predicate AllSendable(conv: u32, ws: seq<Wire>) { forall i :: 0 <= i < |ws| ==> Sendable(conv, ws[i]) }

  /** One turn of the receive loop on an encoded segment consumes exactly that segment. */
  lemma ParseStep(conv: u32, w: Wire, rest: seq<byte>)
    requires Sendable(conv, w)
    ensures Parse(conv, Encode(w) + rest)
         == Parsed([w] + Parse(conv, rest).segs, Parse(conv, rest).code)
  {
    var bs, tail := Encode(w) + rest, w.data + rest;
    assert bs == Header(w) + tail;
    HeaderRoundTrip(w, tail);
    hide Header, DecodeHeader;
    var len := |w.data|;
    assert bs[OVERHEAD..OVERHEAD + len] == w.data;
    assert bs[OVERHEAD + len..] == rest;
    assert w.(data := []).(data := w.data) == w;
  }

  /** A peer with the same conv works through exactly the encoded segments, in order, and
      nothing is left over. */
  lemma {:induction false} ParseEncodeAll(conv: u32, ws: seq<Wire>)
    requires AllSendable(conv, ws)
    ensures Parse(conv, EncodeAll(ws)) == Parsed(ws, 0)
  {
    hide Encode, Parse, Sendable;
    if ws == [] {
      ParseNothing(conv);
    } else {
      ParseStep(conv, ws[0], EncodeAll(ws[1..]));
      ParseEncodeAll(conv, ws[1..]);
      assert [ws[0]] + ws[1..] == ws;
    }
  }

  lemma ParseNothing(conv: u32)
    ensures Parse(conv, []) == Parsed([], 0)
  {
  }

  /** The number that bytes stand for, the least significant first. */
  function Little(bs: seq<byte>): (n: nat) { if bs == [] then 0 else bs[0] as int + 0x100 * Little(bs[1..]) }

  lemma LittleIs(bs: seq<byte>)
    ensures |bs| == 2 ==> Little(bs) == Decode16(bs)
    ensures |bs| == 4 ==> Little(bs) == Decode32(bs)
  {
    if |bs| == 2 {
      assert Little(bs[1..][1..]) == 0;
    } else if |bs| == 4 {
      var three := bs[1..];
      assert Little(three[1..][1..][1..]) == 0;
      assert Little(three[1..][1..]) == bs[3];
    }
  }

  /** The header, byte by byte: conv, cmd, frg, wnd, ts, sn, una and the length, the least significant byte first. */
  lemma HeaderLayout(w: Wire)
    requires Encodable(w)
    ensures var b := Encode(w);
      && |b| == 24 + |w.data| && b[24..] == w.data
      && Little(b[..4]) == w.conv && b[4] == w.cmd && b[5] == w.frg && Little(b[6..8]) == w.wnd
      && Little(b[8..12]) == w.ts && Little(b[12..16]) == w.sn && Little(b[16..20]) == w.una
      && Little(b[20..24]) == |w.data|
  {
    var b := Encode(w);
    assert b[..4] == Encode32(w.conv);
    assert b[6..8] == Encode16(w.wnd);
    assert b[8..12] == Encode32(w.ts);
    assert b[12..16] == Encode32(w.sn);
    assert b[16..20] == Encode32(w.una);
    assert b[20..24] == Encode32(|w.data|);
    LittleWord(w.conv);
    LittleWord(w.ts);
    LittleWord(w.sn);
    LittleWord(w.una);
    LittleWord(|w.data|);
    LittleIs(Encode16(w.wnd));
    Word16RoundTrip(w.wnd);
    hide Encode32, Encode, Header, Encode16, Little;
  }

  lemma LittleWord(l: u32)
    ensures Little(Encode32(l)) == l
  {
    LittleIs(Encode32(l));
    Word32RoundTrip(l);
  }

  /** Behind good segments the receive loop stops at what comes next as if it stood alone. */
  lemma {:induction false} ParseBehind(conv: u32, ws: seq<Wire>, rest: seq<byte>)
    requires AllSendable(conv, ws)
    ensures var p := Parse(conv, rest); Parse(conv, EncodeAll(ws) + rest) == Parsed(ws + p.segs, p.code)
    decreases |ws|
  {
    hide Encode, Parse, Sendable;
    var p := Parse(conv, rest);
    if ws == [] {
      assert EncodeAll(ws) + rest == rest;
      assert ws + p.segs == p.segs;
    } else {
      var tail := EncodeAll(ws[1..]) + rest;
      assert EncodeAll(ws) + rest == Encode(ws[0]) + tail;
      ParseStep(conv, ws[0], tail);
      ParseBehind(conv, ws[1..], rest);
      assert [ws[0]] + (ws[1..] + p.segs) == ws + p.segs;
    }
  }

  /** What stops it: fewer bytes than a header, without an error; another conversation, -1; a length beyond the end
      of the datagram or beyond 31 bits, -2; an unknown command, -3. Nothing of what stands there is applied. */
  lemma ParseStops(conv: u32, b: seq<byte>)
    ensures var p := Parse(conv, b);
      if |b| < 24 then p == Parsed([], 0)
      else
        var len := Little(b[20..24]);
        if Little(b[..4]) != conv then p == Parsed([], -1)
        else if len > |b| - 24 || len >= HALF then p == Parsed([], -2)
        else if b[4] !in {81, 82, 83, 84} then p == Parsed([], -3)
        else p.segs != [] && |p.segs[0].data| == len
  {
    if |b| >= 24 {
      LittleIs(b[..4]);
      LittleIs(b[20..24]);
      Prefix32(b, 0);
      Prefix32(b, 20);
      assert b[0..] == b && b[0..4] == b[..4];
    }
    hide Little;
  }

  lemma {:induction false} EncodeAllAppend(a: seq<Wire>, b: seq<Wire>)
    ensures EncodeAll(a + b) == EncodeAll(a) + EncodeAll(b)
  {
    hide Encode, Header;
    if a == [] {
      assert a + b == b;
    } else {
      assert (a + b)[1..] == a[1..] + b;
      EncodeAllAppend(a[1..], b);
    }
  }

  // ----- batching

  /** Half-open intervals of indices into a list of segments: one interval, one datagram. */
  datatype Span = Span(lo: nat, hi: nat)

  /**
    The datagrams ikcp_flush makes of `ws`, while segments lo..i sit in its buffer and segments
    from i on are still to come: the buffer is sent when the next segment would overrun the mtu.
   */
  function Cuts(mtu: nat, ws: seq<Wire>, lo: nat, i: nat): (cs: seq<Span>)
    requires lo <= i <= |ws|
    decreases |ws| - i
  {
    if i == |ws| then (if lo < i then [Span(lo, i)] else [])
    else if lo < i && Size(ws[lo..i]) + Need(ws[i]) > mtu then [Span(lo, i)] + Cuts(mtu, ws, i, i + 1)
    else Cuts(mtu, ws, lo, i + 1)
  }

  /** Consecutive, non-empty intervals that cover lo..hi. */
  ghost predicate Tiles(cs: seq<Span>, lo: nat, hi: nat)
  {
    if cs == [] then lo == hi
    else cs[0].lo == lo && lo < cs[0].hi <= hi && Tiles(cs[1..], cs[0].hi, hi)
  }

  lemma {:induction false} SizeAppend(a: seq<Wire>, b: seq<Wire>)
    ensures Size(a + b) == Size(a) + Size(b)
  {
    if a == [] {
      assert a + b == b;
    } else {
      assert (a + b)[1..] == a[1..] + b;
      SizeAppend(a[1..], b);
    }
  }

  lemma SizeGrow(ws: seq<Wire>, lo: nat, i: nat)
    requires lo <= i < |ws|
    ensures Size(ws[lo..i + 1]) == Size(ws[lo..i]) + Need(ws[i])
  {
    assert ws[lo..i + 1] == ws[lo..i] + [ws[i]];
    SizeAppend(ws[lo..i], [ws[i]]);
  }

  /** No interval is empty, begins before lo or is longer than the mtu. */
  predicate Within(mtu: nat, ws: seq<Wire>, lo: nat, cs: seq<Span>)
  {
    forall c :: c in cs ==> lo <= c.lo < c.hi <= |ws| && Size(ws[c.lo..c.hi]) <= mtu
  }

  lemma WithinCons(mtu: nat, ws: seq<Wire>, lo: nat, i: nat, rest: seq<Span>)
    requires lo < i <= |ws| && Size(ws[lo..i]) <= mtu && Within(mtu, ws, i, rest)
    ensures Within(mtu, ws, lo, [Span(lo, i)] + rest)
  {
    hide Size;
  }

  /** Every segment goes out exactly once and in order, no datagram is empty, and none is longer
      than the mtu. */
  lemma {:induction false} CutsTile(mtu: nat, ws: seq<Wire>, lo: nat, i: nat)
    requires lo <= i <= |ws|
    requires lo == i ==> lo == |ws| || lo == 0
    requires forall k :: 0 <= k < |ws| ==> Need(ws[k]) <= mtu
    requires Size(ws[lo..i]) <= mtu
    ensures Tiles(Cuts(mtu, ws, lo, i), lo, |ws|)
    ensures Within(mtu, ws, lo, Cuts(mtu, ws, lo, i))
    decreases |ws| - i
  {
    hide Size, Need, Within;
    Nothing(mtu, ws, i);
    if i == |ws| {
      if lo < i {
        WithinCons(mtu, ws, lo, i, []);
        assert [Span(lo, i)] + [] == [Span(lo, i)];
      }
    } else if lo < i && Size(ws[lo..i]) + Need(ws[i]) > mtu {
      SizeGrow(ws, i, i);
      var rest := Cuts(mtu, ws, i, i + 1);
      CutsTile(mtu, ws, i, i + 1);
      WithinCons(mtu, ws, lo, i, rest);
      TilesCons(lo, i, |ws|, rest);
    } else {
      SizeGrow(ws, lo, i);
      CutsTile(mtu, ws, lo, i + 1);
    }
  }

  lemma Nothing(mtu: nat, ws: seq<Wire>, i: nat)
    requires i <= |ws|
    ensures Size(ws[i..i]) == 0 && Within(mtu, ws, i, [])
  {
  }

  lemma TilesCons(lo: nat, i: nat, hi: nat, rest: seq<Span>)
    requires lo < i <= hi && Tiles(rest, i, hi)
    ensures Tiles([Span(lo, i)] + rest, lo, hi)
  {
    assert ([Span(lo, i)] + rest)[1..] == rest;
  }

  /** A datagram is closed only when the next segment would not have fitted. */
  predicate Greedy(mtu: nat, ws: seq<Wire>, cs: seq<Span>)
  {
    forall k :: 0 <= k < |cs| - 1 ==>
      cs[k].lo <= cs[k].hi < |ws| && Size(ws[cs[k].lo..cs[k].hi]) + Need(ws[cs[k].hi]) > mtu
  }

  /** Every datagram but the last is as full as its next segment lets it be. */
  lemma {:induction false} CutsGreedy(mtu: nat, ws: seq<Wire>, lo: nat, i: nat)
    requires lo <= i <= |ws|
    ensures Greedy(mtu, ws, Cuts(mtu, ws, lo, i))
    decreases |ws| - i
  {
    hide Size, Need;
    if i < |ws| {
      if lo < i && Size(ws[lo..i]) + Need(ws[i]) > mtu {
        CutsGreedy(mtu, ws, i, i + 1);
        GreedyCons(mtu, ws, Span(lo, i), Cuts(mtu, ws, i, i + 1));
      } else {
        CutsGreedy(mtu, ws, lo, i + 1);
      }
    }
  }

  lemma GreedyCons(mtu: nat, ws: seq<Wire>, c: Span, cs: seq<Span>)
    requires Greedy(mtu, ws, cs)
    requires c.lo <= c.hi < |ws| && Size(ws[c.lo..c.hi]) + Need(ws[c.hi]) > mtu
    ensures Greedy(mtu, ws, [c] + cs)
  {
    hide Size, Need;
  }

  /** The datagrams as bytes. */
  function Datagrams(ws: seq<Wire>, cs: seq<Span>): (ds: seq<seq<byte>>)
    requires forall k :: 0 <= k < |cs| ==> cs[k].lo <= cs[k].hi <= |ws|
    ensures |ds| == |cs|
    ensures forall k :: 0 <= k < |cs| ==> ds[k] == EncodeAll(ws[cs[k].lo..cs[k].hi])
  {
    seq(|cs|, k requires 0 <= k < |cs| => EncodeAll(ws[cs[k].lo..cs[k].hi]))
  }

  lemma {:induction false} CutsInRange(mtu: nat, ws: seq<Wire>, lo: nat, i: nat)
    requires lo <= i <= |ws|
    ensures forall k :: 0 <= k < |Cuts(mtu, ws, lo, i)| ==>
      Cuts(mtu, ws, lo, i)[k].lo < Cuts(mtu, ws, lo, i)[k].hi <= |ws|
    decreases |ws| - i
  {
    if i < |ws| {
      if lo < i && Size(ws[lo..i]) + Need(ws[i]) > mtu {
        CutsInRange(mtu, ws, i, i + 1);
      } else {
        CutsInRange(mtu, ws, lo, i + 1);
      }
    }
  }

  /** The datagrams still to be sent when segments lo..i sit in the buffer. */
  function Batches(mtu: nat, ws: seq<Wire>, lo: nat, i: nat): (ds: seq<seq<byte>>)
    requires lo <= i <= |ws|
  {
    CutsInRange(mtu, ws, lo, i);
    Datagrams(ws, Cuts(mtu, ws, lo, i))
  }

  lemma BatchesStep(mtu: nat, ws: seq<Wire>, lo: nat, i: nat)
    requires lo <= i <= |ws|
    ensures Batches(mtu, ws, lo, i) ==
      if i == |ws| then (if lo < i then [EncodeAll(ws[lo..i])] else [])
      else if lo < i && Size(ws[lo..i]) + Need(ws[i]) > mtu then [EncodeAll(ws[lo..i])] + Batches(mtu, ws, i, i + 1)
      else Batches(mtu, ws, lo, i + 1)
  {
    hide Encode, Need, EncodeAll;
    CutsInRange(mtu, ws, lo, i);
    if i < |ws| {
      CutsInRange(mtu, ws, i, i + 1);
      CutsInRange(mtu, ws, lo, i + 1);
    }
  }

  lemma EncodeNext(ws: seq<Wire>, lo: nat, i: nat)
    requires lo <= i < |ws|
    ensures EncodeAll(ws[lo..i + 1]) == EncodeAll(ws[lo..i]) + Encode(ws[i])
  {
    hide Encode;
    assert ws[lo..i + 1] == ws[lo..i] + [ws[i]];
    EncodeAllAppend(ws[lo..i], [ws[i]]);
    assert EncodeAll([ws[i]]) == Encode(ws[i]) + EncodeAll([ws[i]][1..]);
  }
}
