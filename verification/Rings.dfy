/** Power-of-two ring buffers: the index macros of circ_buf.h and the two-segment copies of
    circ_buf.c. */
module Rings {
  import opened Arithmetic
  import opened Bytes

  // ---- the macros; & (size - 1) is the remainder modulo a power of two, for negative numbers too ----

  function Cnt(head: int, tail: int, n: int): int
    requires 0 < n
  {
    (head - tail) % n
  }

  function Space(head: int, tail: int, n: int): int
    requires 0 < n
  {
    Cnt(tail, head + 1, n)
  }

  function CntToEnd(head: int, tail: int, n: int): int
    requires 0 < n
  {
    var end := n - tail;
    var m := (head + end) % n;
    if m < end then m else end
  }

  function SpaceToEnd(head: int, tail: int, n: int): int
    requires 0 < n
  {
    var end := n - 1 - head;
    var m := (end + tail) % n;
    if m <= end then m else end + 1
  }

  lemma ModIs(x: int, n: int)
    requires 0 < n && -n <= x < 2 * n
    ensures x % n == if x < 0 then x + n else if x < n then x else x - n
  {
  }

  /** What the macros compute on indices of a ring: the count and the free space add up to one less
      than the size, and the -to-end forms cut them off at the end of the buffer. */
  lemma Macros(head: int, tail: int, n: int)
    requires 0 <= head < n && 0 <= tail < n
    ensures Cnt(head, tail, n) == (if tail <= head then head - tail else head - tail + n)
    ensures Space(head, tail, n) == n - 1 - Cnt(head, tail, n)
    ensures CntToEnd(head, tail, n) == Min(Cnt(head, tail, n), n - tail)
    ensures SpaceToEnd(head, tail, n) == Min(Space(head, tail, n), n - head)
  {
    ModIs(head - tail, n);
    ModIs(tail - head - 1, n);
    ModIs(head + n - tail, n);
    ModIs(n - 1 - head + tail, n);
  }

  // ---- contents ----

  /** The slot k places after i. */
  function Slot(i: nat, k: nat, n: nat): (j: nat)
    requires i < n && k <= n
    ensures j < n
  {
    if i + k < n then i + k else i + k - n
  }

  lemma SlotIs(i: nat, k: nat, n: nat)
    requires i < n && k <= n
    ensures Slot(i, k, n) == (i + k) % n
  {
    ModIs(i + k, n);
  }

  /** The cnt elements from tail on. */
  function Stored(buf: seq<byte>, tail: nat, cnt: nat): (s: seq<byte>)
    requires tail < |buf| && cnt <= |buf|
    ensures |s| == cnt && forall k {:trigger s[k]} :: 0 <= k < cnt ==> s[k] == buf[Slot(tail, k, |buf|)]
  {
    seq(cnt, k requires 0 <= k < cnt => buf[Slot(tail, k, |buf|)])
  }

  lemma SlotAgain(i: nat, j: nat, k: nat, n: nat)
    requires i < n && j + k <= n
    ensures Slot(Slot(i, j, n), k, n) == Slot(i, j + k, n)
  {
  }

  /** Consuming k elements. */
  lemma StoredDrop(buf: seq<byte>, tail: nat, cnt: nat, k: nat)
    requires tail < |buf| && k <= cnt <= |buf|
    ensures Stored(buf, Slot(tail, k, |buf|), cnt - k) == Stored(buf, tail, cnt)[k..]
  {
    hide Slot;
    forall h {:trigger Stored(buf, Slot(tail, k, |buf|), cnt - k)[h]} | 0 <= h < cnt - k
      ensures Stored(buf, Slot(tail, k, |buf|), cnt - k)[h] == Stored(buf, tail, cnt)[k + h]
    {
      SlotAgain(tail, k, h, |buf|);
    }
  }

  /** data lies in the free slots behind the cnt elements in use. */
  ghost predicate Written(buf: seq<byte>, tail: nat, cnt: nat, data: seq<byte>)
    requires tail < |buf|
  {
    cnt + |data| < |buf| && forall k :: 0 <= k < |data| ==> buf[Slot(tail, cnt + k, |buf|)] == data[k]
  }

  /** Publishing what was written behind the contents. */
  lemma StoredAppend(buf: seq<byte>, tail: nat, cnt: nat, data: seq<byte>)
    requires tail < |buf| && Written(buf, tail, cnt, data)
    ensures Stored(buf, tail, cnt + |data|) == Stored(buf, tail, cnt) + data
  {
    hide Slot;
    forall k | 0 <= k < cnt + |data|
      ensures Stored(buf, tail, cnt + |data|)[k] == (Stored(buf, tail, cnt) + data)[k]
    {
      if cnt <= k {
        assert buf[Slot(tail, cnt + (k - cnt), |buf|)] == data[k - cnt];
      }
    }
  }

  // ---- circ_buf.c ----

  class CircBuf {
    const buf: array<byte>
    var head: nat
    var tail: nat

    constructor (size: nat)
      requires 1 < size
      ensures Valid() && fresh(buf) && buf.Length == size && Contents() == []
    {
      buf := new byte[size](_ => 0);
      head := 0;
      tail := 0;
    }

    ghost predicate Valid()
      reads this
    {
      1 < buf.Length && head < buf.Length && tail < buf.Length
    }

    ghost function Count(): (c: nat)
      requires Valid()
      reads this
      ensures c < buf.Length
    {
      Cnt(head, tail, buf.Length)
    }

    ghost function Contents(): (s: seq<byte>)
      requires Valid()
      reads this, buf
      ensures |s| == Count()
    {
      Stored(buf[..], tail, Count())
    }
  }

  /** memcpy of data to the slots from at on, which do not wrap. */
  method CopyIn(buf: array<byte>, at: nat, data: seq<byte>)
    requires at + |data| <= buf.Length
    modifies buf
    ensures buf[..] == old(buf[..at]) + data + old(buf[at + |data|..])
    ensures buf[at..at + |data|] == data
    ensures forall j :: 0 <= j < at || at + |data| <= j < buf.Length ==> buf[j] == old(buf[j])
  {
    var k := 0;
    while k < |data|
      invariant k <= |data|
      invariant buf[..at + k] == old(buf[..at]) + data[..k] && buf[at + k..] == old(buf[at + k..])
    {
      buf[at + k] := data[k];
      k := k + 1;
    }
    assert buf[..] == buf[..at + k] + buf[at + k..];
  }

  /** Writing behind the contents keeps them. */
  lemma WriteBehind(before: seq<byte>, after: seq<byte>, tail: nat, cnt: nat, at: nat, data: seq<byte>)
    requires tail < |before| && cnt + |data| < |before| && at + |data| <= |before| && at == Slot(tail, cnt, |before|)
    requires after == before[..at] + data + before[at + |data|..]
    ensures Stored(after, tail, cnt) == Stored(before, tail, cnt) && Written(after, tail, cnt, data)
  {
    forall k | 0 <= k < cnt
      ensures Stored(after, tail, cnt)[k] == Stored(before, tail, cnt)[k]
    {
      var j := Slot(tail, k, |before|);
      assert j < at || at + |data| <= j;
    }
    forall k | 0 <= k < |data|
      ensures after[Slot(tail, cnt + k, |before|)] == data[k]
    {
      assert Slot(tail, cnt + k, |before|) == at + k;
    }
  }

  /** Append data, which does not wrap, and move the head behind it. */
  method Append(ring: CircBuf, data: seq<byte>)
    requires ring.Valid() && |data| <= SpaceToEnd(ring.head, ring.tail, ring.buf.Length)
    modifies ring.buf, ring`head
    ensures ring.Valid() && ring.Contents() == old(ring.Contents()) + data
    ensures ring.head == Slot(old(ring.head), |data|, ring.buf.Length)
    ensures ring.Count() == old(ring.Count()) + |data|
  {
    hide Cnt, Space, SpaceToEnd, CntToEnd, Stored;
    Macros(ring.head, ring.tail, ring.buf.Length);
    ghost var before, cnt := ring.buf[..], ring.Count();
    SlotIs(ring.head, |data|, ring.buf.Length);
    CopyIn(ring.buf, ring.head, data);
    WriteBehind(before, ring.buf[..], ring.tail, cnt, ring.head, data);
    StoredAppend(ring.buf[..], ring.tail, cnt, data);
    ring.head := (ring.head + |data|) % ring.buf.Length;
    Macros(ring.head, ring.tail, ring.buf.Length);
  }

  /** produce_item */
  method ProduceItem(ring: CircBuf, data: seq<byte>, count: nat) returns (len: nat)
    requires ring.Valid() && count <= |data|
    modifies ring.buf, ring`head
    ensures ring.Valid() && len == Min(count, old(ring.buf.Length - 1 - ring.Count()))
    ensures ring.Contents() == old(ring.Contents()) + data[..len]
  {
    hide Cnt, Space, SpaceToEnd, CntToEnd, CircBuf.Contents;
    Macros(ring.head, ring.tail, ring.buf.Length);
    len := 0;
    var size := Space(ring.head, ring.tail, ring.buf.Length);
    if size >= 1 {
      var left := if count <= size then count else size;
      len := left;
      var toEnd := SpaceToEnd(ring.head, ring.tail, ring.buf.Length);
      if left > toEnd {
        Append(ring, data[..toEnd]);
        left := left - toEnd;
        Macros(ring.head, ring.tail, ring.buf.Length);
      } else {
        toEnd := 0;
      }
      Append(ring, data[toEnd..toEnd + left]);
      assert data[..len] == data[..toEnd] + data[toEnd..len];
    }
  }

  /** Copy out the first k elements, which do not wrap, and move the tail behind them. */
  method Remove(ring: CircBuf, out: array<byte>, at: nat, k: nat)
    requires ring.Valid() && k <= CntToEnd(ring.head, ring.tail, ring.buf.Length)
    requires at + k <= out.Length && out != ring.buf
    modifies out, ring`tail
    ensures ring.Valid() && k <= |old(ring.Contents())| && ring.Contents() == old(ring.Contents())[k..]
    ensures ring.tail == Slot(old(ring.tail), k, ring.buf.Length) && ring.Count() == old(ring.Count()) - k
    ensures out[at..at + k] == old(ring.Contents())[..k]
    ensures forall j :: 0 <= j < at || at + k <= j < out.Length ==> out[j] == old(out[j])
  {
    hide Cnt, Space, SpaceToEnd, CntToEnd;
    Macros(ring.head, ring.tail, ring.buf.Length);
    ghost var cnt := ring.Count();
    SlotIs(ring.tail, k, ring.buf.Length);
    CopyIn(out, at, ring.buf[ring.tail..ring.tail + k]);
    assert ring.buf[ring.tail..ring.tail + k] == ring.Contents()[..k];
    StoredDrop(ring.buf[..], ring.tail, cnt, k);
    ring.tail := (ring.tail + k) % ring.buf.Length;
    Macros(ring.head, ring.tail, ring.buf.Length);
  }

  lemma TwoParts(s: seq<byte>, t: seq<byte>, i: nat)
    requires i <= |t| <= |s| && t[..i] == s[..i] && t[i..] == s[i..][..|t| - i]
    ensures t == s[..|t|] && s[i..][|t| - i..] == s[|t|..]
  {
    assert t == t[..i] + t[i..];
  }

  /** consume_item */
  method ConsumeItem(ring: CircBuf, out: array<byte>, count: nat) returns (len: nat)
    requires ring.Valid() && count <= out.Length && out != ring.buf
    modifies out, ring`tail
    ensures ring.Valid() && len == Min(count, old(ring.Count()))
    ensures out[..len] == old(ring.Contents())[..len] && forall j :: len <= j < out.Length ==> out[j] == old(out[j])
    ensures ring.Contents() == old(ring.Contents())[len..]
  {
    hide Cnt, Space, SpaceToEnd, CntToEnd, CircBuf.Contents;
    Macros(ring.head, ring.tail, ring.buf.Length);
    len := 0;
    ghost var s := ring.Contents();
    var size := Cnt(ring.head, ring.tail, ring.buf.Length);
    if size >= 1 {
      var left := if count <= size then count else size;
      len := left;
      var toEnd := CntToEnd(ring.head, ring.tail, ring.buf.Length);
      if left > toEnd {
        Remove(ring, out, 0, toEnd);
        left := left - toEnd;
        Macros(ring.head, ring.tail, ring.buf.Length);
      } else {
        toEnd := 0;
      }
      Remove(ring, out, toEnd, left);
      TwoParts(s, out[..len], toEnd);
    }
  }

  /** Consuming what was produced returns it: on an empty ring that has the room. */
  method ProduceThenConsume(ring: CircBuf, data: seq<byte>, out: array<byte>) returns (len: nat)
    requires ring.Valid() && ring.Contents() == [] && |data| < ring.buf.Length
    requires |data| <= out.Length && out != ring.buf
    modifies ring, ring.buf, out
    ensures len == |data| && out[..len] == data && ring.Valid() && ring.Contents() == []
  {
    var k := ProduceItem(ring, data, |data|);
    len := ConsumeItem(ring, out, |data|);
  }
}
