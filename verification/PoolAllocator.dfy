/**
  RapidJSON's MemoryPoolAllocator: blocks are cut from the head of a list of chunks one behind the other,
  and the last one can grow in place.
 */
module PoolAllocator {
  import opened JsonText
  import opened Wrap32

  /** A chunk: its memory behind the header, and how much of it is used. */
  datatype Chunk = Chunk(data: array<byte>, size: nat)

  /** A block: a pointer into the memory of a chunk, and its length. */
  datatype Block = Block(data: array<byte>, at: nat, len: nat)

  /** RAPIDJSON_ALIGN on a 64-bit platform. */
  function Align(x: nat): (y: nat)
    ensures x <= y < x + 8 && y % 8 == 0
  {
    (x + 7) / 8 * 8
  }

  predicate InArray(b: Block) { b.at + b.len <= b.data.Length }

  /** The bytes a block holds. */
  ghost function Bytes(b: Block): (bs: seq<byte>)
    requires InArray(b)
    reads b.data
    ensures |bs| == b.len
  {
    b.data[b.at..b.at + b.len]
  }

  predicate Apart(a: Block, b: Block)
  {
    a.data != b.data || a.at + a.len <= b.at || b.at + b.len <= a.at
  }

  predicate Inside(b: Block, c: Chunk) { b.len > 0 && b.data == c.data && b.at + b.len <= c.size }

  predicate HasChunk(chunks: seq<Chunk>, b: Block) { exists i :: 0 <= i < |chunks| && Inside(b, chunks[i]) }

  predicate ChunksOk(chunks: seq<Chunk>)
  {
    && (forall i :: 0 <= i < |chunks| ==> chunks[i].size <= chunks[i].data.Length)
    && (forall i, j :: 0 <= i < j < |chunks| ==> chunks[i].data != chunks[j].data)
  }

  predicate BlocksOk(chunks: seq<Chunk>, live: seq<Block>)
  {
    && (forall i :: 0 <= i < |live| ==> HasChunk(chunks, live[i]))
    && (forall i, j :: 0 <= i < j < |live| ==> Apart(live[i], live[j]))
  }

  function Used(chunks: seq<Chunk>): nat
  {
    if chunks == [] then 0 else chunks[0].size + Used(chunks[1..])
  }

  function Total(chunks: seq<Chunk>): nat
  {
    if chunks == [] then 0 else chunks[0].data.Length + Total(chunks[1..])
  }

  lemma {:induction false} UsedWithinTotal(chunks: seq<Chunk>)
    requires ChunksOk(chunks)
    ensures Used(chunks) <= Total(chunks)
    decreases |chunks|
  {
    if chunks != [] {
      assert forall i :: 0 <= i < |chunks[1..]| ==> chunks[1..][i] == chunks[i + 1];
      UsedWithinTotal(chunks[1..]);
    }
  }

  // ----- what using up memory at the end of the head chunk keeps

  /** The head chunk with n more bytes used. */
  function Extended(chunks: seq<Chunk>, n: nat): seq<Chunk>
    requires chunks != []
  {
    [Chunk(chunks[0].data, chunks[0].size + n)] + chunks[1..]
  }

  lemma {:induction false} ExtendedOk(chunks: seq<Chunk>, n: nat, live: seq<Block>)
    requires chunks != [] && ChunksOk(chunks) && BlocksOk(chunks, live) && chunks[0].size + n <= chunks[0].data.Length
    ensures ChunksOk(Extended(chunks, n)) && BlocksOk(Extended(chunks, n), live)
    ensures Used(Extended(chunks, n)) == Used(chunks) + n && Total(Extended(chunks, n)) == Total(chunks)
  {
    var chunks' := Extended(chunks, n);
    assert forall i :: 0 <= i < |chunks| ==> chunks'[i].data == chunks[i].data && chunks'[i].size >= chunks[i].size;
    forall i | 0 <= i < |live| ensures HasChunk(chunks', live[i]) {
      var k :| 0 <= k < |chunks| && Inside(live[i], chunks[k]);
      assert Inside(live[i], chunks'[k]);
    }
    assert chunks'[1..] == chunks[1..];
  }

  /** Memory beyond what the head chunk uses belongs to no block. */
  lemma {:induction false} Beyond(chunks: seq<Chunk>, live: seq<Block>, b: Block)
    requires chunks != [] && ChunksOk(chunks) && BlocksOk(chunks, live)
    requires b.data == chunks[0].data && b.at >= chunks[0].size
    ensures forall i :: 0 <= i < |live| ==> Apart(live[i], b)
  {
    forall i | 0 <= i < |live| ensures Apart(live[i], b) {
      var k :| 0 <= k < |chunks| && Inside(live[i], chunks[k]);
      if k > 0 { assert chunks[0].data != chunks[k].data; }
    }
  }

  /** A block cut from the end of the head chunk. */
  lemma {:induction false} CutOk(chunks: seq<Chunk>, n: nat, live: seq<Block>)
    requires n > 0 && chunks != [] && ChunksOk(chunks) && BlocksOk(chunks, live)
    requires chunks[0].size + n <= chunks[0].data.Length
    ensures BlocksOk(Extended(chunks, n), live + [Block(chunks[0].data, chunks[0].size, n)])
  {
    var b := Block(chunks[0].data, chunks[0].size, n);
    var chunks' := Extended(chunks, n);
    ExtendedOk(chunks, n, live);
    Beyond(chunks, live, b);
    assert Inside(b, chunks'[0]);
    var live' := live + [b];
    forall i | 0 <= i < |live'| ensures HasChunk(chunks', live'[i]) {
      if i < |live| { assert HasChunk(chunks', live[i]); }
    }
  }

  /** The last block of the head chunk grown in place: it still overlaps no other. */
  lemma {:induction false} GrowOk(chunks: seq<Chunk>, n: nat, live: seq<Block>, k: nat)
    requires chunks != [] && ChunksOk(chunks) && BlocksOk(chunks, live) && chunks[0].size + n <= chunks[0].data.Length
    requires k < |live| && live[k].data == chunks[0].data && live[k].at + live[k].len == chunks[0].size
    ensures BlocksOk(Extended(chunks, n), live[k := live[k].(len := live[k].len + n)])
  {
    var chunks' := Extended(chunks, n);
    var grown := live[k].(len := live[k].len + n);
    var live' := live[k := grown];
    ExtendedOk(chunks, n, live);
    Beyond(chunks, live, Block(chunks[0].data, chunks[0].size, n));
    assert Inside(grown, chunks'[0]);
    forall i, j | 0 <= i < j < |live'| ensures Apart(live'[i], live'[j]) {
      assert Apart(live[i], live[j]);
      assert Apart(live[i], Block(chunks[0].data, chunks[0].size, n))
        && Apart(live[j], Block(chunks[0].data, chunks[0].size, n));
    }
    forall i | 0 <= i < |live'| ensures HasChunk(chunks', live'[i]) {
      if i != k { assert HasChunk(chunks', live[i]); }
    }
  }

  /** A block moved: the new one takes the place of the old. */
  lemma {:induction false} MoveOk(chunks: seq<Chunk>, live: seq<Block>, b: Block, k: nat)
    requires BlocksOk(chunks, live + [b]) && k < |live|
    ensures BlocksOk(chunks, live[k := b])
  {
    var all, live' := live + [b], live[k := b];
    forall i, j | 0 <= i < j < |live'| ensures Apart(live'[i], live'[j]) {
      assert Apart(all[i], all[j]);
      assert i < |live| ==> Apart(all[i], all[|live|]);
      assert Apart(all[j], all[|live|]);
    }
    forall i | 0 <= i < |live'| ensures HasChunk(chunks, live'[i]) {
      assert HasChunk(chunks, all[if i == k then |live| else i]);
    }
  }

  lemma {:induction false} PrependOk(chunks: seq<Chunk>, c: Chunk, live: seq<Block>)
    requires ChunksOk(chunks) && BlocksOk(chunks, live) && c.size == 0
    requires forall i :: 0 <= i < |chunks| ==> chunks[i].data != c.data
    ensures ChunksOk([c] + chunks) && BlocksOk([c] + chunks, live)
    ensures Used([c] + chunks) == Used(chunks) && Total([c] + chunks) == Total(chunks) + c.data.Length
  {
    var chunks' := [c] + chunks;
    assert chunks'[1..] == chunks;
    forall i | 0 <= i < |live| ensures HasChunk(chunks', live[i]) {
      var k :| 0 <= k < |chunks| && Inside(live[i], chunks[k]);
      assert Inside(live[i], chunks'[k + 1]);
    }
  }

  /** The head chunk has n bytes left. */
  predicate HasRoom(chunks: seq<Chunk>, n: nat) { chunks != [] && chunks[0].size + n <= chunks[0].data.Length }

  /** Where a block of n bytes goes: right behind what the head chunk uses if there is room; else to the beginning
      of a new chunk, of the usual capacity or as large as the block if that is more. */
  predicate Allocated(before: seq<Chunk>, after: seq<Chunk>, n: nat, chunkCapacity: nat, b: Block)
  {
    if HasRoom(before, n) then
      && after == [Chunk(before[0].data, before[0].size + n)] + before[1..]
      && b == Block(before[0].data, before[0].size, n)
    else
      && |after| == |before| + 1 && after[1..] == before
      && after[0].size == n && after[0].data.Length == Max(chunkCapacity, n) && b == Block(after[0].data, 0, n)
  }

  /** The block is the last of the head chunk, by the size the caller gives, and can grow in place. */
  predicate GrowsInPlace(chunks: seq<Chunk>, b: Block, originalSize: nat, newSize: nat)
  {
    && Align(originalSize) < Align(newSize) && HasRoom(chunks, Align(newSize) - Align(originalSize))
    && b.data == chunks[0].data && b.at + Align(originalSize) == chunks[0].size
  }

  /** What becomes of a block: it stays when it need not grow, grows in place when it can, and is allocated anew
      else. */
  predicate Resized(before: seq<Chunk>, after: seq<Chunk>, b: Block, originalSize: nat, newSize: nat,
                    chunkCapacity: nat, b': Block)
  {
    if Align(newSize) <= Align(originalSize) then b' == b && after == before
    else if GrowsInPlace(before, b, originalSize, newSize) then
      && b' == b.(len := Align(newSize))
      && after == [Chunk(before[0].data, before[0].size + Align(newSize) - Align(originalSize))] + before[1..]
    else Allocated(before, after, Align(newSize), chunkCapacity, b')
  }

  class MemoryPoolAllocator {
    const chunkCapacity: nat
    const userBuffer: bool           // the last chunk is the buffer of the user
    var chunks: seq<Chunk>           // from chunkHead_ on
    ghost var live: seq<Block>       // the blocks handed out

    ghost predicate Valid()
      reads this
    {
      ChunksOk(chunks) && BlocksOk(chunks, live)
    }

    ghost function Memory(): set<object>
      reads this
    {
      set i | 0 <= i < |chunks| :: chunks[i].data
    }

    constructor (chunkCapacity: nat)
      ensures Valid() && chunks == [] && live == [] && this.chunkCapacity == chunkCapacity && !userBuffer
    {
      this.chunkCapacity, userBuffer, chunks, live := chunkCapacity, false, [], [];
    }

    constructor FromBuffer(buffer: array<byte>, chunkCapacity: nat)
      ensures Valid() && chunks == [Chunk(buffer, 0)] && live == [] && this.chunkCapacity == chunkCapacity && userBuffer
    {
      this.chunkCapacity, userBuffer, chunks, live := chunkCapacity, true, [Chunk(buffer, 0)], [];
    }

    /** AddChunk; `granted` says whether the base allocator has the memory. */
    method AddChunk(capacity: nat, granted: bool) returns (ok: bool)
      requires Valid()
      modifies `chunks
      ensures Valid() && ok == granted
      ensures !ok ==> chunks == old(chunks)
      ensures ok ==> |chunks| == |old(chunks)| + 1 && chunks[1..] == old(chunks)
      ensures ok ==> chunks[0].size == 0 && chunks[0].data.Length == capacity && fresh(chunks[0].data)
      ensures Used(chunks) == old(Used(chunks))
    {
      if !granted { return false; }
      var data := new byte[capacity];
      PrependOk(chunks, Chunk(data, 0), live);
      chunks := [Chunk(data, 0)] + chunks;
      ok := true;
    }

    /** Malloc: a block of the aligned size that overlaps no live one, or nothing. */
    method Malloc(size: nat, granted: bool) returns (p: Option<Block>)
      requires Valid()
      modifies this
      ensures Valid()
      ensures size == 0 ==> p == None && chunks == old(chunks)
      ensures p == None ==> live == old(live) && Used(chunks) == old(Used(chunks))
      ensures p.Some? ==> p.value.len == Align(size) && live == old(live) + [p.value]
      ensures p.Some? ==> Used(chunks) == old(Used(chunks)) + Align(size)
      ensures p.Some? ==> p.value.data in old(Memory()) || fresh(p.value.data)
      ensures p.Some? <==> size > 0 && (granted || HasRoom(old(chunks), Align(size)))
      ensures p == None ==> chunks == old(chunks)
      ensures p.Some? ==> Allocated(old(chunks), chunks, Align(size), chunkCapacity, p.value)
      ensures forall d :: d in old(Memory()) ==> d in Memory()
    {
      if size == 0 { return None; }
      var n := Align(size);
      if |chunks| == 0 || chunks[0].size + n > chunks[0].data.Length {
        var ok := AddChunk(if chunkCapacity > n then chunkCapacity else n, granted);
        if !ok { return None; }
        MemoryGrows(old(chunks), chunks);
      }
      var b := Block(chunks[0].data, chunks[0].size, n);
      CutOk(chunks, n, live);
      ExtendedOk(chunks, n, live);
      chunks := Extended(chunks, n);
      live := live + [b];
      p := Some(b);
    }

    /** Realloc: a live block stays where it is, grows in place or moves, and keeps the bytes the caller says it
        has; a null pointer gets a new block. No other block is touched. The original size may be anything the
        block has room for: after a shrinking Realloc, which leaves the block as it is, it is less than the
        block. `k` is the place of the original in the list of live blocks. */
    method Realloc(original: Option<Block>, originalSize: nat, newSize: nat, granted: bool, ghost k: nat)
        returns (p: Option<Block>)
      requires Valid()
      requires original.Some? ==> k < |live| && live[k] == original.value && Align(originalSize) <= original.value.len
      modifies this, Memory()
      ensures Valid()
      ensures newSize == 0 ==> p == None
      ensures newSize > 0 && granted ==> p.Some?
      ensures p == None ==> live == old(live) && chunks == old(chunks)
      ensures original.Some? && p.Some? ==>
        Resized(old(chunks), chunks, original.value, originalSize, newSize, chunkCapacity, p.value)
      ensures p.Some? && original.None? ==> Allocated(old(chunks), chunks, Align(newSize), chunkCapacity, p.value)
      ensures p.Some? && original.None? ==> live == old(live) + [p.value] && p.value.len == Align(newSize)
      ensures p.Some? && original.Some? ==>
        && live == old(live)[k := p.value]
        && if Align(newSize) <= Align(originalSize) then p == original else p.value.len == Align(newSize)
      ensures forall i :: 0 <= i < |old(live)| && (original.Some? ==> i != k) ==>
        live[i] == old(live[i]) && Bytes(live[i]) == old(Bytes(live[i]))
      ensures original.Some? ==>
        && Align(originalSize) <= |Bytes(live[k])|
        && Bytes(live[k])[..Align(originalSize)] == old(Bytes(original.value))[..Align(originalSize)]
    {
      hide ChunksOk, BlocksOk, HasChunk, Used, Align;
      InBounds(chunks, live);
      if original == None {
        p := Malloc(newSize, granted);
        InBounds(chunks, live);
      } else {
        p := Resize(original.value, originalSize, newSize, granted, k);
        InBounds(chunks, live);
      }
    }

    /** Realloc of a live block. */
    method Resize(b: Block, originalSize: nat, newSize: nat, granted: bool, ghost k: nat) returns (p: Option<Block>)
      requires Valid() && k < |live| && live[k] == b && Align(originalSize) <= b.len
      modifies this, Memory()
      ensures Valid()
      ensures newSize == 0 ==> p == None
      ensures p == None ==> live == old(live) && chunks == old(chunks)
      ensures p.Some? ==> live == old(live)[k := p.value]
      ensures p.Some? ==> Resized(old(chunks), chunks, b, originalSize, newSize, chunkCapacity, p.value)
      ensures p.Some? ==>
        if Align(newSize) <= Align(originalSize) then p.value == b else p.value.len == Align(newSize)
      ensures newSize > 0 && granted ==> p.Some?
      ensures forall i :: 0 <= i < |live| && i != k ==> Bytes(live[i]) == old(Bytes(live[i]))
      ensures Align(originalSize) <= |Bytes(live[k])|
      ensures Bytes(live[k])[..Align(originalSize)] == old(Bytes(b))[..Align(originalSize)]
    {
      hide ChunksOk, BlocksOk, Used, Align;
      p := None;
      InBounds(chunks, live);
      if newSize == 0 { return; }
      var o, n := Align(originalSize), Align(newSize);
      if o >= n { return Some(b); }
      EndsWithin(chunks, live, k);
      var increment := n - o;
      if b.data == chunks[0].data && b.at + o == chunks[0].size
        && chunks[0].size + increment <= chunks[0].data.Length {
        Grow(b, increment, k);
        return Some(b.(len := n));
      }
      p := Move(b, o, newSize, granted, k);
    }

    /** The last block of the head chunk grows into the memory behind it. */
    method Grow(b: Block, increment: nat, ghost k: nat)
      requires Valid() && k < |live| && live[k] == b && chunks != [] && b.data == chunks[0].data
      requires b.at + b.len == chunks[0].size && chunks[0].size + increment <= chunks[0].data.Length
      modifies this
      ensures Valid() && live == old(live)[k := b.(len := b.len + increment)]
      ensures Used(chunks) == old(Used(chunks)) + increment && chunks == Extended(old(chunks), increment)
      ensures forall i :: 0 <= i < |live| && i != k ==> Bytes(live[i]) == old(Bytes(live[i]))
      ensures b.len <= |Bytes(live[k])| && Bytes(live[k])[..b.len] == old(Bytes(b))
    {
      hide ChunksOk, BlocksOk, HasChunk, Used, Extended;
      InBounds(chunks, live);
      GrowOk(chunks, increment, live, k);
      ExtendedOk(chunks, increment, live);
      ghost var before := live;
      chunks := Extended(chunks, increment);
      live := before[k := b.(len := b.len + increment)];
      InBounds(chunks, live);
      GrowsOver(before, live, k, b, increment);
    }

    /** The end of Realloc: a new block is allocated, the first n bytes are copied, the original is not freed. */
    method Move(b: Block, n: nat, newSize: nat, granted: bool, ghost k: nat) returns (p: Option<Block>)
      requires Valid() && k < |live| && live[k] == b && 0 < newSize && n <= b.len && n < Align(newSize)
      modifies this, Memory()
      ensures Valid()
      ensures p == None ==> live == old(live) && chunks == old(chunks)
      ensures p.Some? ==> live == old(live)[k := p.value] && p.value.len == Align(newSize)
      ensures p.Some? ==> Allocated(old(chunks), chunks, Align(newSize), chunkCapacity, p.value)
      ensures granted ==> p.Some?
      ensures forall i :: 0 <= i < |live| && i != k ==> Bytes(live[i]) == old(Bytes(live[i]))
      ensures n <= |Bytes(live[k])| && Bytes(live[k])[..n] == old(Bytes(b))[..n]
    {
      hide ChunksOk, BlocksOk, HasChunk, Used, Align, InArray, Bytes;
      InBounds(chunks, live);
      p := Malloc(newSize, granted);
      if p == None { return; }
      ghost var before := live[..|live| - 1];
      Moved(chunks, before, live, p.value, k);
      InBounds(chunks, live);
      assert live[|live| - 1] == p.value;
      hide Apart;
      assert before == old(live);
      Copy(b, n, p.value, before);
      live := before[k := p.value];
      InBounds(chunks, live);
    }

    /** memcpy of n bytes between blocks that do not overlap: it changes no other block. */
    method Copy(from: Block, n: nat, to: Block, ghost others: seq<Block>)
      requires InArray(from) && InArray(to) && n <= from.len && n <= to.len && Apart(from, to)
      requires forall i :: 0 <= i < |others| ==> InArray(others[i]) && Apart(others[i], to)
      modifies to.data
      ensures Bytes(to)[..n] == old(Bytes(from))[..n]
      ensures forall i :: 0 <= i < |others| ==> Bytes(others[i]) == old(Bytes(others[i]))
    {
      forall j | 0 <= j < n {
        to.data[to.at + j] := from.data[from.at + j];
      }
      assert forall j :: 0 <= j < n ==> Bytes(to)[j] == old(Bytes(from))[j];
      forall i | 0 <= i < |others| ensures Bytes(others[i]) == old(Bytes(others[i])) {
        var c := others[i];
        assert forall j :: c.at <= j < c.at + c.len ==> c.data[j] == old(c.data[j]);
      }
    }

    /** Size */
    method Size() returns (size: nat)
      requires Valid()
      ensures size == Used(chunks) <= Total(chunks)
    {
      UsedWithinTotal(chunks);
      size := 0;
      var i := 0;
      while i < |chunks|
        invariant 0 <= i <= |chunks| && size + Used(chunks[i..]) == Used(chunks)
      {
        assert chunks[i..][0] == chunks[i] && chunks[i..][1..] == chunks[i + 1..];
        size := size + chunks[i].size;
        i := i + 1;
      }
    }

    /** Capacity */
    method Capacity() returns (capacity: nat)
      ensures capacity == Total(chunks)
    {
      capacity := 0;
      var i := 0;
      while i < |chunks|
        invariant 0 <= i <= |chunks| && capacity + Total(chunks[i..]) == Total(chunks)
      {
        assert chunks[i..][0] == chunks[i] && chunks[i..][1..] == chunks[i + 1..];
        capacity := capacity + chunks[i].data.Length;
        i := i + 1;
      }
    }
  }

  lemma {:induction false} Moved(chunks: seq<Chunk>, before: seq<Block>, live: seq<Block>, b: Block, k: nat)
    requires ChunksOk(chunks) && BlocksOk(chunks, live) && live == before + [b] && k < |before|
    ensures BlocksOk(chunks, before[k := b])
    ensures forall i :: 0 <= i < |before| ==> Apart(before[i], b)
  {
    MoveOk(chunks, before, b, k);
    forall i | 0 <= i < |before| ensures Apart(before[i], b) {
      assert Apart(live[i], live[|before|]);
    }
  }

  /** A block that has grown still begins with what it held, and no other block holds anything else. */
  lemma GrowsOver(before: seq<Block>, live: seq<Block>, k: nat, b: Block, increment: nat)
    requires k < |before| && before[k] == b && live == before[k := b.(len := b.len + increment)]
    requires forall i :: 0 <= i < |before| ==> InArray(before[i]) && InArray(live[i])
    ensures forall i :: 0 <= i < |live| && i != k ==> Bytes(live[i]) == Bytes(before[i])
    ensures b.len <= |Bytes(live[k])| && Bytes(live[k])[..b.len] == Bytes(b)
  {
  }

  /** A live block of the head chunk ends at or before what the chunk uses. */
  lemma {:induction false} EndsWithin(chunks: seq<Chunk>, live: seq<Block>, k: nat)
    requires ChunksOk(chunks) && BlocksOk(chunks, live) && k < |live|
    ensures chunks != [] && (live[k].data == chunks[0].data ==> live[k].at + live[k].len <= chunks[0].size)
  {
    assert HasChunk(chunks, live[k]);
    var i :| 0 <= i < |chunks| && Inside(live[k], chunks[i]);
    if i > 0 { assert chunks[0].data != chunks[i].data; }
  }

  lemma {:induction false} InBounds(chunks: seq<Chunk>, live: seq<Block>)
    requires ChunksOk(chunks) && BlocksOk(chunks, live)
    ensures forall i :: 0 <= i < |live| ==> InArray(live[i])
    ensures live != [] ==> chunks != []
  {
    forall i | 0 <= i < |live| ensures InArray(live[i]) {
      assert HasChunk(chunks, live[i]);
    }
    if live != [] { assert HasChunk(chunks, live[0]); }
  }

  lemma {:induction false} MemoryGrows(chunks: seq<Chunk>, chunks': seq<Chunk>)
    requires chunks' != [] && chunks'[1..] == chunks
    ensures forall i :: 0 <= i < |chunks| ==> chunks'[i + 1].data == chunks[i].data
  {
  }
}
