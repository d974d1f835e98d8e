/**
  The in-situ string stream: one buffer with a read cursor and a write cursor behind it. A plain string
  stream is the same without the writing.
 */
module JsonStream {
  import opened Wrap32
  import JsonText

  class InsituStringStream {
    const buf: array<byte>
    var src: nat
    var dst: nat

    /** The write cursor never passes the read cursor. */
    ghost predicate Valid()
      reads this
    {
      dst <= src <= buf.Length
    }

    constructor (buf: array<byte>)
      ensures Valid() && this.buf == buf && src == 0
    {
      this.buf, src, dst := buf, 0, 0;
    }

    /** What has not been read still is what the text held. */
    ghost predicate Unread(t: JsonText.Text)
      reads this, buf
    {
      buf.Length == |t| && forall k :: src <= k < |t| ==> buf[k] == t[k]
    }

    function Peek(): (c: byte)
      reads this, buf
      ensures forall t :: Unread(t) ==> c == JsonText.Peek(t, src)
    {
      if src < buf.Length then buf[src] else 0
    }

    method Take() returns (c: byte)
      requires Valid() && src < buf.Length
      modifies this`src
      ensures Valid() && src == old(src) + 1 && c == old(Peek())
      ensures forall t :: old(Unread(t)) ==> Unread(t)
    {
      c := buf[src];
      src := src + 1;
    }

    method PutBegin() returns (head: nat)
      requires Valid()
      modifies this`dst
      ensures Valid() && head == dst == src
      ensures forall t :: old(Unread(t)) ==> Unread(t)
    {
      dst := src;
      head := dst;
    }

    /** Writing behind the read cursor changes nothing unread. */
    method Put(c: byte)
      requires Valid() && dst < src
      modifies this`dst, buf
      ensures Valid() && dst == old(dst) + 1
      ensures buf[..] == old(buf[..])[old(dst) := c]
      ensures forall t :: old(Unread(t)) ==> Unread(t)
    {
      buf[dst] := c;
      dst := dst + 1;
    }

    method PutEnd(head: nat) returns (len: nat)
      requires Valid() && head <= dst
      ensures len == dst - head
    {
      len := dst - head;
    }
  }
}
