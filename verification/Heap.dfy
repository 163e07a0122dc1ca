/** The boot loader's heap: sixteen slots linked in address order, allocation at the end only. */
module Heap {
  const SLOTS: nat := 16
  const NULL: int := -1

  datatype Block = Block(addr: nat, size: nat)

  // ---- what the heap is: its blocks in address order ----

  /** Blocks follow each other without overlap, and only the last can be empty. */
  ghost predicate Ordered(c: seq<Block>) {
    && 0 < |c| <= SLOTS && (forall k :: 0 <= k < |c| ==> 0 < c[k].addr)
    && forall k :: 0 <= k < |c| - 1 ==> 0 < c[k].size && c[k].addr + c[k].size <= c[k + 1].addr
  }

  function Last(c: seq<Block>): Block
    requires 0 < |c|
  {
    c[|c| - 1]
  }

  function Without<T>(s: seq<T>, k: nat): (r: seq<T>)
    requires k < |s|
    ensures |r| == |s| - 1 && forall j :: 0 <= j < |r| ==> r[j] == s[if j < k then j else j + 1]
  {
    s[..k] + s[k + 1..]
  }

  /** __Heap_Alloc: the blocks after it. */
  function Allocated(c: seq<Block>, size: nat): seq<Block>
    requires 0 < |c|
  {
    if Last(c).size == 0 then c[..|c| - 1] + [Block(Last(c).addr, size)]
    else if |c| < SLOTS then c + [Block(Last(c).addr + Last(c).size, size)]
    else c
  }

  /** The address __Heap_Alloc returns, 0 for none. */
  function Address(c: seq<Block>): nat
    requires 0 < |c|
  {
    if Last(c).size == 0 then Last(c).addr
    else if |c| < SLOTS then Last(c).addr + Last(c).size
    else 0
  }

  /** The place of the block at addr, searched from the end, or -1. */
  function Find(c: seq<Block>, addr: nat): (k: int)
    ensures -1 <= k < |c| && (0 <= k ==> c[k].addr == addr)
    ensures forall j :: k < j < |c| ==> c[j].addr != addr
  {
    if |c| == 0 then -1 else if Last(c).addr == addr then |c| - 1 else Find(c[..|c| - 1], addr)
  }

  /** __Heap_Free: the blocks after it; the only block stays as an empty one. */
  function Freed(c: seq<Block>, addr: nat): seq<Block>
    requires 0 < |c|
  {
    var k := Find(c, addr);
    if k < 0 then c
    else if |c| == 1 then [Block(addr, 0)]
    else Without(c, k)
  }

  ghost predicate Disjoint(a: Block, b: Block) {
    a.addr + a.size <= b.addr || b.addr + b.size <= a.addr
  }

  /** Whatever is live is apart from everything else that is. */
  lemma {:induction false} OrderedDisjoint(c: seq<Block>, i: nat, j: nat)
    requires Ordered(c) && i < j < |c|
    ensures c[i].addr < c[j].addr && c[i].addr + c[i].size <= c[j].addr && Disjoint(c[i], c[j])
    decreases j
  {
    if i < j - 1 {
      OrderedDisjoint(c, i, j - 1);
    }
  }

  lemma AllocKeepsOrder(c: seq<Block>, size: nat)
    requires Ordered(c)
    ensures Ordered(Allocated(c, size))
  {
  }

  lemma FreeKeepsOrder(c: seq<Block>, addr: nat)
    requires Ordered(c)
    ensures Ordered(Freed(c, addr))
  {
    var k := Find(c, addr);
    var d := Freed(c, addr);
    if 0 <= k && |c| > 1 {
      forall i | 0 <= i < |d| - 1
        ensures 0 < d[i].size && d[i].addr + d[i].size <= d[i + 1].addr
      {
        if i == k - 1 {
          OrderedDisjoint(c, k - 1, k + 1);
        }
      }
    }
  }

  datatype Action = Alloc(size: nat) | Free(addr: nat)

  function Step(c: seq<Block>, a: Action): seq<Block>
    requires 0 < |c|
  {
    match a
    case Alloc(size) => Allocated(c, size)
    case Free(addr) => Freed(c, addr)
  }

  ghost function Run(c: seq<Block>, actions: seq<Action>): (d: seq<Block>)
    requires Ordered(c)
    ensures Ordered(d)
    decreases |actions|
  {
    if actions == [] then c
    else
      AllocKeepsOrder(c, if actions[0].Alloc? then actions[0].size else 0);
      FreeKeepsOrder(c, if actions[0].Free? then actions[0].addr else 0);
      Run(Step(c, actions[0]), actions[1..])
  }

  /** After any run of allocations and frees from a fresh heap the blocks are pairwise disjoint. */
  lemma RunsStayDisjoint(base: nat, actions: seq<Action>, i: nat, j: nat)
    requires 0 < base && i < j < |Run([Block(base, 0)], actions)|
    ensures var d := Run([Block(base, 0)], actions); Disjoint(d[i], d[j]) && d[i].addr < d[j].addr
  {
    OrderedDisjoint(Run([Block(base, 0)], actions), i, j);
  }

  /** An allocation returns a block of the requested size that no live block overlaps, and keeps all
      of them; it lies right behind the last block, and is refused exactly when all slots are taken by
      blocks that are not empty. */
  lemma AllocIsFresh(c: seq<Block>, size: nat)
    requires Ordered(c)
    ensures Address(c) == 0 <==> |c| == 16 && 0 < c[15].size
    ensures Address(c) == 0 ==> Allocated(c, size) == c
    ensures Address(c) != 0 ==> Address(c) == c[|c| - 1].addr + c[|c| - 1].size
    ensures Address(c) != 0 ==> Last(Allocated(c, size)) == Block(Address(c), size)
    ensures forall b :: b in Allocated(c, size) ==> b in c || b == Block(Address(c), size)
    ensures forall b :: b in c && 0 < b.size ==> b in Allocated(c, size)
    ensures Address(c) != 0 ==> forall b :: b in c && 0 < b.size ==> Disjoint(b, Block(Address(c), size))
  {
    var d := Allocated(c, size);
    forall b | b in c && 0 < b.size
      ensures b in d && (Address(c) != 0 ==> Disjoint(b, Block(Address(c), size)))
    {
      var k :| 0 <= k < |c| && c[k] == b;
      assert k < |c| - 1 || 0 < Last(c).size;
      assert d[k] == b;
      if k < |c| - 1 {
        OrderedDisjoint(c, k, |c| - 1);
      }
    }
  }

  lemma FreedIs(c: seq<Block>, k: nat)
    requires Ordered(c) && k < |c|
    ensures Freed(c, c[k].addr) == if |c| == 1 then [Block(c[k].addr, 0)] else Without(c, k)
  {
    FindExact(c, k);
  }

  /** What is left after a free: the blocks at any other address, or an empty block when there was no
      other; an address where no block starts changes nothing. */
  lemma FreeTakesOne(c: seq<Block>, addr: nat)
    requires Ordered(c)
    ensures (forall b :: b in c ==> b.addr != addr) ==> Freed(c, addr) == c
    ensures 1 < |c| ==> forall b :: b in Freed(c, addr) <==> b in c && b.addr != addr
    ensures 1 == |c| && c[0].addr == addr ==> Freed(c, addr) == [Block(addr, 0)]
  {
    var k := Find(c, addr);
    if 0 <= k && 1 < |c| {
      hide Ordered, Find;
      forall b
        ensures b in Without(c, k) <==> b in c && b.addr != addr
      {
        LeftOver(c, k, b);
      }
    }
  }

  lemma LeftOver(c: seq<Block>, k: nat, b: Block)
    requires Ordered(c) && k < |c|
    ensures b in Without(c, k) <==> b in c && b.addr != c[k].addr
  {
    hide Ordered;
    if b in Without(c, k) {
      var j :| 0 <= j < |c| - 1 && Without(c, k)[j] == b;
      var i := if j < k then j else j + 1;
      assert c[i] == b;
      OrderedDisjoint(c, if i < k then i else k, if i < k then k else i);
    }
    if b in c && b.addr != c[k].addr {
      var i :| 0 <= i < |c| && c[i] == b;
      assert Without(c, k)[if i < k then i else i - 1] == b;
    }
  }

  /** Freeing a block leaves every other block as it was. */
  lemma FreeKeepsOthers(c: seq<Block>, k: nat, j: nat)
    requires Ordered(c) && k < |c| && j < |c| && j != k
    ensures c[j] in Freed(c, c[k].addr)
  {
    FreedIs(c, k);
    assert Freed(c, c[k].addr)[if j < k then j else j - 1] == c[j];
  }

  /** Nothing of a freed block stays live. */
  lemma FreeRemoves(c: seq<Block>, k: nat, j: nat)
    requires Ordered(c) && k < |c| && j < |Freed(c, c[k].addr)| && 0 < Freed(c, c[k].addr)[j].size
    ensures var b := Freed(c, c[k].addr)[j]; b in c && Disjoint(b, c[k])
  {
    FreedIs(c, k);
    if |c| > 1 {
      var i := if j < k then j else j + 1;
      assert c[i] == Freed(c, c[k].addr)[j];
      OrderedDisjoint(c, if i < k then i else k, if i < k then k else i);
    }
  }

  lemma FindExact(c: seq<Block>, k: nat)
    requires Ordered(c) && k < |c|
    ensures Find(c, c[k].addr) == k
  {
    var f := Find(c, c[k].addr);
    if k < f {
      OrderedDisjoint(c, k, f);
    }
  }

  /** Freeing what has just been allocated restores the heap, unless it was the empty rest of it. */
  lemma FreeUndoesAlloc(c: seq<Block>, size: nat)
    requires Ordered(c) && Address(c) != 0
    ensures 0 < Last(c).size ==> Freed(Allocated(c, size), Address(c)) == c
    ensures Last(c).size == 0 && |c| == 1 ==> Freed(Allocated(c, size), Address(c)) == c
  {
    var d := Allocated(c, size);
    AllocKeepsOrder(c, size);
    FindExact(d, |d| - 1);
  }

  // ---- the slot table ----

  /** A slot; next and prev are slot numbers, and buf is 0 in a free slot. */
  datatype Slot = Slot(next: int, prev: int, buf: nat, size: nat)

  const FREE: Slot := Slot(NULL, NULL, 0, 0)

  function PrevIn(chain: seq<nat>, k: nat): int
    requires k < |chain|
  {
    if k == 0 then NULL else chain[k - 1]
  }

  function NextIn(chain: seq<nat>, k: nat): int
    requires k < |chain|
  {
    if k == |chain| - 1 then NULL else chain[k + 1]
  }

  /** The links of the k-th slot of the chain lead to its neighbours. */
  ghost predicate SlotLinked(t: seq<Slot>, chain: seq<nat>, k: nat)
    requires k < |chain|
  {
    chain[k] < |t| && t[chain[k]].prev == PrevIn(chain, k) && t[chain[k]].next == NextIn(chain, k)
  }

  ghost predicate Distinct(chain: seq<nat>) {
    forall j, k :: 0 <= j < k < |chain| ==> chain[j] != chain[k]
  }

  ghost predicate RestFree(t: seq<Slot>, chain: seq<nat>) {
    forall s: nat :: s < |t| && s !in chain ==> t[s] == FREE
  }

  ghost predicate Inside(t: seq<Slot>, chain: seq<nat>) {
    forall k :: 0 <= k < |chain| ==> chain[k] < |t|
  }

  /** The slots in use, in address order: their links follow the chain in both directions, and every
      other slot is free. */
  ghost predicate Linked(t: seq<Slot>, tail: nat, chain: seq<nat>) {
    && |t| == SLOTS && 0 < |chain| && tail == chain[|chain| - 1] && Inside(t, chain)
    && (forall k :: 0 <= k < |chain| ==> SlotLinked(t, chain, k))
    && Distinct(chain) && RestFree(t, chain)
  }

  ghost function BlocksOf(t: seq<Slot>, chain: seq<nat>): (c: seq<Block>)
    requires Inside(t, chain)
    ensures |c| == |chain|
    ensures forall k :: 0 <= k < |c| ==> c[k] == Block(t[chain[k]].buf, t[chain[k]].size)
  {
    seq(|chain|, k requires 0 <= k < |chain| => Block(t[chain[k]].buf, t[chain[k]].size))
  }

  /** The links of slot t[i] when a new one is put behind the tail. */
  function Append(t: seq<Slot>, tail: nat, i: nat, size: nat): seq<Slot>
    requires tail < |t| && i < |t|
  {
    var u := t[i := Slot(NULL, tail, t[tail].buf + t[tail].size, size)];
    u[tail := u[tail].(next := i)]
  }

  /** What appending does to the slots in use. */
  lemma AppendSlots(t: seq<Slot>, tail: nat, chain: seq<nat>, i: nat, size: nat, k: nat)
    requires Linked(t, tail, chain) && i < SLOTS && i !in chain && k < |chain|
    ensures tail < SLOTS && chain[k] < SLOTS && chain[k] != i
    ensures var u := Append(t, tail, i, size);
      && |u| == SLOTS && u[i] == Slot(NULL, tail, t[tail].buf + t[tail].size, size)
      && u[chain[k]] == if k == |chain| - 1 then t[chain[k]].(next := i) else t[chain[k]]
  {
    assert chain[k] in chain && tail in chain;
    assert SlotLinked(t, chain, k) && SlotLinked(t, chain, |chain| - 1);
  }

  lemma AppendLinks(t: seq<Slot>, tail: nat, chain: seq<nat>, i: nat, size: nat)
    requires Linked(t, tail, chain) && i < SLOTS && i !in chain
    ensures tail < SLOTS && Linked(Append(t, tail, i, size), i, chain + [i])
  {
    AppendSlots(t, tail, chain, i, size, |chain| - 1);
    var u, ch := Append(t, tail, i, size), chain + [i];
    forall k | 0 <= k < |ch|
      ensures SlotLinked(u, ch, k)
    {
      if k < |chain| {
        AppendSlots(t, tail, chain, i, size, k);
        assert SlotLinked(t, chain, k);
      }
    }
    forall s: nat | s < SLOTS && s !in ch
      ensures u[s] == FREE
    {
      assert s !in chain && s != i && tail in ch;
    }
    forall j, k | 0 <= j < k < |ch|
      ensures ch[j] != ch[k]
    {
      assert chain[j] in chain;
    }
  }

  lemma AppendBlocks(t: seq<Slot>, tail: nat, chain: seq<nat>, i: nat, size: nat)
    requires Linked(t, tail, chain) && i < SLOTS && i !in chain
    ensures tail < SLOTS && Linked(Append(t, tail, i, size), i, chain + [i])
    ensures BlocksOf(Append(t, tail, i, size), chain + [i]) ==
            BlocksOf(t, chain) + [Block(t[tail].buf + t[tail].size, size)]
  {
    AppendLinks(t, tail, chain, i, size);
    hide Append;
    var u, ch := Append(t, tail, i, size), chain + [i];
    forall k | 0 <= k < |ch|
      ensures BlocksOf(u, ch)[k] == (BlocksOf(t, chain) + [Block(t[tail].buf + t[tail].size, size)])[k]
    {
      AppendSlots(t, tail, chain, i, size, if k < |chain| then k else 0);
    }
  }

  lemma {:induction false} DistinctShort(s: seq<nat>, n: nat)
    requires forall k :: 0 <= k < |s| ==> s[k] < n
    requires forall j, k :: 0 <= j < k < |s| ==> s[j] != s[k]
    ensures |s| <= n
  {
    if 0 < |s| {
      assert s[0] < n;
      if n - 1 in s {
        var k :| 0 <= k < |s| && s[k] == n - 1;
        DistinctShort(Without(s, k), n - 1);
      } else {
        DistinctShort(s, n - 1);
      }
    }
  }

  lemma {:induction false} CoversLong(s: seq<nat>, n: nat)
    requires forall i: nat :: i < n ==> i in s
    ensures n <= |s|
  {
    if n > 0 {
      var m: nat := n - 1;
      assert m in s;
      var k :| 0 <= k < |s| && s[k] == m;
      var t := Without(s, k);
      forall i: nat | i < n - 1
        ensures i in t
      {
        assert i in s;
        var j :| 0 <= j < |s| && s[j] == i;
        assert t[if j < k then j else j - 1] == i;
      }
      CoversLong(t, n - 1);
    }
  }

  /** Taking slot b, which is not the tail, out of the list. */
  function Unlink(t: seq<Slot>, b: nat): seq<Slot>
    requires b < |t| && 0 <= t[b].next < |t| && NULL <= t[b].prev < |t|
  {
    var u := if t[b].prev != NULL then t[t[b].prev := t[t[b].prev].(next := t[b].next)] else t;
    var v := u[u[b].next := u[u[b].next].(prev := u[b].prev)];
    v[b := FREE]
  }

  lemma Neighbours(t: seq<Slot>, tail: nat, chain: seq<nat>, k: nat)
    requires Linked(t, tail, chain) && k < |chain|
    ensures t[chain[k]].next == NextIn(chain, k) && t[chain[k]].prev == PrevIn(chain, k)
    ensures k < |chain| - 1 ==> 0 <= t[chain[k]].next < |t|
    ensures NULL <= t[chain[k]].prev < |t|
  {
    assert SlotLinked(t, chain, k);
  }

  /** What unlinking does to the slots that stay. */
  lemma UnlinkSlots(t: seq<Slot>, tail: nat, chain: seq<nat>, k: nat, j: nat)
    requires Linked(t, tail, chain) && k < |chain| - 1 && j < |chain| && j != k
    requires 0 <= t[chain[k]].next < |t| && NULL <= t[chain[k]].prev < |t|
    ensures |Unlink(t, chain[k])| == SLOTS
    ensures Unlink(t, chain[k])[chain[j]] ==
            if j == k - 1 then t[chain[j]].(next := chain[k + 1])
            else if j == k + 1 then t[chain[j]].(prev := PrevIn(chain, k))
            else t[chain[j]]
  {
    Neighbours(t, tail, chain, k);
    Apart(chain, j, k);
    Apart(chain, j, k + 1);
    Apart(chain, k, k + 1);
    if 0 < k {
      Apart(chain, j, k - 1);
      Apart(chain, k, k - 1);
    }
  }

  lemma Apart(chain: seq<nat>, j: nat, k: nat)
    requires Distinct(chain) && j < |chain| && k < |chain|
    ensures j != k ==> chain[j] != chain[k]
  {
  }

  lemma UnlinkFree(t: seq<Slot>, tail: nat, chain: seq<nat>, k: nat, s: nat)
    requires Linked(t, tail, chain) && k < |chain| - 1 && s < SLOTS && (s !in chain || s == chain[k])
    requires 0 <= t[chain[k]].next < |t| && NULL <= t[chain[k]].prev < |t|
    ensures |Unlink(t, chain[k])| == SLOTS && Unlink(t, chain[k])[s] == FREE
  {
    Neighbours(t, tail, chain, k);
    assert chain[k + 1] in chain && (0 < k ==> chain[k - 1] in chain);
  }

  lemma UnlinkLinks(t: seq<Slot>, tail: nat, chain: seq<nat>, k: nat)
    requires Linked(t, tail, chain) && k < |chain| - 1
    requires 0 <= t[chain[k]].next < |t| && NULL <= t[chain[k]].prev < |t|
    ensures Linked(Unlink(t, chain[k]), tail, Without(chain, k))
  {
    hide Unlink, Without;
    UnlinkSlots(t, tail, chain, k, k + 1);
    var u, ch := Unlink(t, chain[k]), Without(chain, k);
    forall j | 0 <= j < |ch|
      ensures SlotLinked(u, ch, j)
    {
      var i := if j < k then j else j + 1;
      UnlinkSlots(t, tail, chain, k, i);
      Neighbours(t, tail, chain, i);
    }
    forall s: nat | s < SLOTS && s !in ch
      ensures u[s] == FREE
    {
      if s in chain && s != chain[k] {
        StaysIn(chain, k, s);
      }
      UnlinkFree(t, tail, chain, k, s);
    }
    WithoutDistinct(chain, k);
  }

  lemma StaysIn(chain: seq<nat>, k: nat, s: nat)
    requires k < |chain| && s in chain && s != chain[k]
    ensures s in Without(chain, k)
  {
    var j :| 0 <= j < |chain| && chain[j] == s;
    assert Without(chain, k)[if j < k then j else j - 1] == s;
  }

  lemma WithoutDistinct(chain: seq<nat>, k: nat)
    requires Distinct(chain) && k < |chain|
    ensures Distinct(Without(chain, k))
  {
  }

  lemma UnlinkBlocks(t: seq<Slot>, tail: nat, chain: seq<nat>, k: nat)
    requires Linked(t, tail, chain) && k < |chain| - 1
    requires 0 <= t[chain[k]].next < |t| && NULL <= t[chain[k]].prev < |t|
    ensures Linked(Unlink(t, chain[k]), tail, Without(chain, k))
    ensures BlocksOf(Unlink(t, chain[k]), Without(chain, k)) == Without(BlocksOf(t, chain), k)
  {
    UnlinkLinks(t, tail, chain, k);
    hide Unlink, Without;
    var u, ch := Unlink(t, chain[k]), Without(chain, k);
    forall j | 0 <= j < |ch|
      ensures BlocksOf(u, ch)[j] == Without(BlocksOf(t, chain), k)[j]
    {
      UnlinkSlots(t, tail, chain, k, if j < k then j else j + 1);
    }
  }

  /** Taking the tail off the list. */
  function DropTail(t: seq<Slot>, b: nat): seq<Slot>
    requires b < |t| && 0 <= t[b].prev < |t|
  {
    t[t[b].prev := t[t[b].prev].(next := NULL)][b := FREE]
  }

  lemma DropTailSlots(t: seq<Slot>, tail: nat, chain: seq<nat>, j: nat)
    requires Linked(t, tail, chain) && j < |chain| - 1 && 0 <= t[tail].prev < |t|
    ensures |DropTail(t, tail)| == SLOTS && t[tail].prev == chain[|chain| - 2]
    ensures DropTail(t, tail)[chain[j]] == if j == |chain| - 2 then t[chain[j]].(next := NULL) else t[chain[j]]
  {
    Neighbours(t, tail, chain, |chain| - 1);
    Apart(chain, j, |chain| - 1);
    if j < |chain| - 2 {
      Apart(chain, j, |chain| - 2);
    }
  }

  lemma DropTailFree(t: seq<Slot>, tail: nat, chain: seq<nat>, s: nat)
    requires Linked(t, tail, chain) && 1 < |chain| && s < SLOTS && (s !in chain || s == tail)
    requires 0 <= t[tail].prev < |t|
    ensures |DropTail(t, tail)| == SLOTS && DropTail(t, tail)[s] == FREE
  {
    Neighbours(t, tail, chain, |chain| - 1);
    assert chain[|chain| - 2] in chain;
  }

  lemma DropTailLinks(t: seq<Slot>, tail: nat, chain: seq<nat>)
    requires Linked(t, tail, chain) && 1 < |chain| && 0 <= t[tail].prev < |t|
    ensures Linked(DropTail(t, tail), chain[|chain| - 2], chain[..|chain| - 1])
  {
    hide DropTail;
    var u, ch, n := DropTail(t, tail), chain[..|chain| - 1], |chain| - 1;
    DropTailSlots(t, tail, chain, 0);
    forall j | 0 <= j < n
      ensures SlotLinked(u, ch, j)
    {
      DropTailSlots(t, tail, chain, j);
      Neighbours(t, tail, chain, j);
    }
    forall s: nat | s < SLOTS && s !in ch
      ensures u[s] == FREE
    {
      assert chain == ch + [tail];
      DropTailFree(t, tail, chain, s);
    }
  }

  lemma DropTailBlocks(t: seq<Slot>, tail: nat, chain: seq<nat>)
    requires Linked(t, tail, chain) && 1 < |chain| && 0 <= t[tail].prev < |t|
    ensures Linked(DropTail(t, tail), chain[|chain| - 2], chain[..|chain| - 1])
    ensures BlocksOf(DropTail(t, tail), chain[..|chain| - 1]) == BlocksOf(t, chain)[..|chain| - 1]
  {
    DropTailLinks(t, tail, chain);
    hide DropTail;
    var u, ch, n := DropTail(t, tail), chain[..|chain| - 1], |chain| - 1;
    forall j | 0 <= j < n
      ensures BlocksOf(u, ch)[j] == BlocksOf(t, chain)[j]
    {
      DropTailSlots(t, tail, chain, j);
    }
  }

  /** Changing the size of a slot, or emptying it, keeps the links. */
  lemma ResizeLinks(t: seq<Slot>, tail: nat, chain: seq<nat>, size: nat)
    requires Linked(t, tail, chain)
    ensures Linked(t[tail := t[tail].(size := size)], tail, chain)
  {
    var u := t[tail := t[tail].(size := size)];
    forall k | 0 <= k < |chain|
      ensures SlotLinked(u, chain, k)
    {
      assert SlotLinked(t, chain, k);
    }
    assert tail in chain;
  }

  lemma Resize(t: seq<Slot>, tail: nat, chain: seq<nat>, size: nat)
    requires Linked(t, tail, chain)
    ensures Linked(t[tail := t[tail].(size := size)], tail, chain)
    ensures BlocksOf(t[tail := t[tail].(size := size)], chain) ==
            BlocksOf(t, chain)[..|chain| - 1] + [Block(t[tail].buf, size)]
  {
    ResizeLinks(t, tail, chain, size);
    var u := t[tail := t[tail].(size := size)];
    forall k | 0 <= k < |chain| - 1
      ensures u[chain[k]] == t[chain[k]]
    {
      Apart(chain, k, |chain| - 1);
    }
  }

  /** A slot has a buffer exactly when it is in use. */
  lemma UsedSlot(t: seq<Slot>, tail: nat, chain: seq<nat>, i: nat)
    requires Linked(t, tail, chain) && Ordered(BlocksOf(t, chain)) && i < SLOTS
    ensures t[i].buf != 0 <==> i in chain
  {
    if i in chain {
      var k :| 0 <= k < |chain| && chain[k] == i;
      assert BlocksOf(t, chain)[k].addr != 0;
    }
  }

  lemma TailBlock(t: seq<Slot>, tail: nat, chain: seq<nat>)
    requires Linked(t, tail, chain)
    ensures |t| == SLOTS && tail < SLOTS && 0 < |chain|
    ensures |BlocksOf(t, chain)| == |chain| && Last(BlocksOf(t, chain)) == Block(t[tail].buf, t[tail].size)
  {
  }

  lemma ChainShape(t: seq<Slot>, tail: nat, chain: seq<nat>)
    requires Linked(t, tail, chain)
    ensures |t| == SLOTS && 0 < |chain| && tail == chain[|chain| - 1] && Inside(t, chain) && Distinct(chain)
    ensures |BlocksOf(t, chain)| == |chain|
  {
  }

  lemma BlockAt(t: seq<Slot>, chain: seq<nat>, k: nat)
    requires Inside(t, chain) && k < |chain|
    ensures BlocksOf(t, chain)[k] == Block(t[chain[k]].buf, t[chain[k]].size)
  {
  }

  lemma {:induction false} FindIs(c: seq<Block>, k: nat, addr: nat)
    requires k < |c| && c[k].addr == addr && forall j :: k < j < |c| ==> c[j].addr != addr
    ensures Find(c, addr) == k
  {
    assert Find(c, addr) >= k;
  }

  lemma FindNone(c: seq<Block>, addr: nat)
    requires forall j :: 0 <= j < |c| ==> c[j].addr != addr
    ensures Find(c, addr) == -1
  {
  }

  lemma RoomFor(t: seq<Slot>, tail: nat, chain: seq<nat>, i: nat)
    requires Linked(t, tail, chain) && i < SLOTS && i !in chain
    ensures |chain| < SLOTS
  {
    DistinctShort(chain + [i], SLOTS);
  }

  lemma AppendIs(t: seq<Slot>, tail: nat, chain: seq<nat>, i: nat, size: nat)
    requires Linked(t, tail, chain) && i < SLOTS && i !in chain
    ensures i != tail && |Append(t, tail, i, size)| == SLOTS
    ensures Append(t, tail, i, size) ==
            t[i := Slot(NULL, tail, t[tail].buf + t[tail].size, size)][tail := t[tail].(next := i)]
  {
    assert tail in chain;
  }

  class Table {
    const slots: array<Slot>
    var tail: nat
    /** The slots in use, in address order. */
    ghost var chain: seq<nat>

    ghost function Blocks(): seq<Block>
      requires Linked(slots[..], tail, chain)
      reads this, slots
    {
      BlocksOf(slots[..], chain)
    }

    ghost predicate Valid()
      reads this, slots
    {
      Linked(slots[..], tail, chain) && Ordered(Blocks())
    }

    /** __Heap_ProvideMemory */
    constructor (base: nat)
      requires 0 < base
      ensures Valid() && Blocks() == [Block(base, 0)] && fresh(slots)
    {
      slots := new Slot[SLOTS](_ => FREE);
      tail := 0;
      chain := [0];
      new;
      slots[0] := slots[0].(buf := base);
      assert slots[..][0] == Slot(NULL, NULL, base, 0);
    }

    /** The first free slot, or SLOTS. */
    method FirstFree() returns (i: nat)
      requires Valid()
      ensures i <= SLOTS && (forall s: nat :: s < i ==> s in chain) && (i < SLOTS ==> i !in chain)
    {
      hide BlocksOf;
      i := 0;
      while i < SLOTS
        invariant i <= SLOTS && forall s: nat :: s < i ==> s in chain
      {
        UsedSlot(slots[..], tail, chain, i);
        if slots[i].buf == 0 {
          break;
        }
        i := i + 1;
      }
    }

    /** __Heap_Alloc */
    method Alloc(size: nat) returns (r: nat)
      requires Valid()
      modifies this, slots
      ensures Valid() && Blocks() == Allocated(old(Blocks()), size) && r == Address(old(Blocks()))
    {
      hide BlocksOf, Append, Linked, Ordered;
      AllocKeepsOrder(Blocks(), size);
      TailBlock(slots[..], tail, chain);
      if slots[tail].size == 0 {
        Resize(slots[..], tail, chain, size);
        slots[tail] := slots[tail].(size := size);
        return slots[tail].buf;
      }
      var i := FirstFree();
      if i == SLOTS {
        CoversLong(chain, SLOTS);
        return 0;
      }
      RoomFor(slots[..], tail, chain, i);
      AppendTail(i, size);
      return slots[tail].buf;
    }

    method AppendTail(i: nat, size: nat)
      requires Valid() && i < SLOTS && i !in chain && tail < SLOTS && slots.Length == SLOTS
      modifies this, slots
      ensures Linked(slots[..], tail, chain)
      ensures Blocks() == old(Blocks()) + [Block(old(slots[tail].buf + slots[tail].size), size)]
      ensures tail == i && slots[tail].buf == old(slots[tail].buf + slots[tail].size)
    {
      hide BlocksOf, Linked, Ordered;
      ghost var t := slots[..];
      AppendBlocks(t, tail, chain, i, size);
      AppendIs(t, tail, chain, i, size);
      slots[i] := Slot(NULL, tail, slots[tail].buf + slots[tail].size, size);
      slots[tail] := slots[tail].(next := i);
      assert slots[..] == Append(t, tail, i, size);
      tail := i;
      chain := chain + [i];
    }

    /** The search of __Heap_Free, from the tail back. */
    method FindSlot(buffer: nat) returns (block: int, ghost k: int)
      requires Valid()
      ensures Linked(slots[..], tail, chain) && k == Find(Blocks(), buffer)
      ensures if k < 0 then block == NULL else k < |chain| && block == chain[k]
    {
      hide BlocksOf, Linked, Ordered, Find;
      ChainShape(slots[..], tail, chain);
      k := |chain| - 1;
      block := tail;
      while block != NULL
        invariant -1 <= k < |chain| && block == if k < 0 then NULL else chain[k]
        invariant forall j :: k < j < |chain| ==> Blocks()[j].addr != buffer
        decreases k
      {
        Neighbours(slots[..], tail, chain, k);
        BlockAt(slots[..], chain, k);
        if slots[block].buf == buffer {
          FindIs(Blocks(), k, buffer);
          return;
        }
        block := slots[block].prev;
        k := k - 1;
      }
      FindNone(Blocks(), buffer);
    }

    /** __Heap_Free */
    method Free(buffer: nat)
      requires Valid()
      modifies this, slots
      ensures Valid() && Blocks() == Freed(old(Blocks()), buffer)
    {
      hide BlocksOf, Linked, Ordered;
      FreeKeepsOrder(Blocks(), buffer);
      ChainShape(slots[..], tail, chain);
      var block;
      ghost var k;
      block, k := FindSlot(buffer);
      if block != NULL {
        BlockAt(slots[..], chain, k);
        FreeSlot(block, k);
      }
    }

    /** The three ways to free slot block, which is the k-th of the chain. */
    method FreeSlot(block: nat, ghost k: nat)
      requires Valid() && k < |chain| && block == chain[k] && tail < SLOTS && block < SLOTS && slots.Length == SLOTS
      modifies this, slots
      ensures Linked(slots[..], tail, chain)
      ensures Blocks() == if |old(chain)| == 1 then [Block(old(slots[block].buf), 0)] else Without(old(Blocks()), k)
    {
      hide BlocksOf, Linked, Ordered;
      ghost var t := slots[..];
      Neighbours(t, tail, chain, k);
      ChainShape(t, tail, chain);
      if block == tail {
        if slots[block].prev != NULL {
          DropTailBlocks(t, tail, chain);
          var p := slots[block].prev;
          slots[p] := slots[p].(next := NULL);
          slots[block] := FREE;
          assert slots[..] == DropTail(t, block);
          tail := p;
          chain := chain[..|chain| - 1];
        } else {
          Resize(t, tail, chain, 0);
          slots[block] := Slot(NULL, NULL, slots[block].buf, 0);
        }
      } else {
        UnlinkBlocks(t, tail, chain, k);
        UnlinkInPlace(block);
        chain := Without(chain, k);
      }
    }

    method UnlinkInPlace(block: nat)
      requires block < slots.Length && 0 <= slots[block].next < slots.Length && NULL <= slots[block].prev < slots.Length
      modifies slots
      ensures slots[..] == Unlink(old(slots[..]), block)
    {
      if slots[block].prev != NULL {
        var p := slots[block].prev;
        slots[p] := slots[p].(next := slots[block].next);
      }
      var n := slots[block].next;
      slots[n] := slots[n].(prev := slots[block].prev);
      slots[block] := FREE;
    }
  }
}
