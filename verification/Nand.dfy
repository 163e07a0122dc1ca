/** The K9F2G08 driver over a modelled flash: page access, bad-block markers, and the erase, write
    and read walks that skip bad blocks.  The device is an array of pages; programming clears bits,
    erasing sets them, and an erase may fail and leave anything behind. */
module Nand {
  import opened Arithmetic
  import opened Bytes

  const PAGE_SIZE: nat := 2048
  const SPARE_SIZE: nat := 64
  const BLOCK_SIZE: nat := 131072
  const BLOCK_PAGES: nat := 64
  /** The bad-block marker is the first octet of the spare area. */
  const MARKER: nat := 2048

  // ---- the device ----

  /** Bitwise and. */
  function And(x: nat, y: nat): (z: nat)
    ensures z <= x && z <= y
  {
    if x == 0 || y == 0 then 0 else 2 * And(x / 2, y / 2) + if x % 2 == 1 && y % 2 == 1 then 1 else 0
  }

  /** Each bit of the result is set exactly when it is set in both. */
  lemma {:induction false} AndBit(x: nat, y: nat, j: nat)
    ensures (And(x, y) / Pow(2, j)) % 2 == 1 <==> (x / Pow(2, j)) % 2 == 1 && (y / Pow(2, j)) % 2 == 1
    decreases j
  {
    if j == 0 {
      AndLowest(x, y);
    } else {
      AndBit(x / 2, y / 2, j - 1);
      hide And;
      BitOfHalf(x, j);
      BitOfHalf(y, j);
      BitOfHalf(And(x, y), j);
      AndHalves(x, y);
    }
  }

  lemma AndLowest(x: nat, y: nat)
    ensures (And(x, y) / Pow(2, 0)) % 2 == 1 <==> (x / Pow(2, 0)) % 2 == 1 && (y / Pow(2, 0)) % 2 == 1
  {
    PowStep(2, 0);
    hide Pow;
    assert And(x, y) / 1 == And(x, y) && x / 1 == x && y / 1 == y;
  }

  lemma BitOfHalf(x: nat, j: nat)
    requires 0 < j
    ensures ((x / 2) / Pow(2, j - 1)) % 2 == (x / Pow(2, j)) % 2
  {
    PowStep(2, j - 1);
    hide Pow;
    DivDiv(x, 2, Pow(2, j - 1));
  }

  lemma AndHalves(x: nat, y: nat)
    ensures And(x, y) / 2 == And(x / 2, y / 2)
  {
  }

  lemma AndOnes(y: byte)
    ensures And(0xFF, y) == y
  {
    AndAllOnes(8, y);
  }

  function OnesBelow(k: nat): nat { if k == 0 then 0 else 2 * OnesBelow(k - 1) + 1 }

  lemma {:induction false} AndAllOnes(k: nat, y: nat)
    requires y <= OnesBelow(k)
    ensures And(OnesBelow(k), y) == y
  {
    if y > 0 {
      AndAllOnes(k - 1, y / 2);
    }
  }

  /** A page after programming d at offset: bits can only be cleared. */
  function Programmed(p: seq<byte>, offset: nat, d: seq<byte>): (q: seq<byte>)
    requires offset + |d| <= |p|
    ensures |q| == |p|
    ensures forall i :: 0 <= i < |p| ==> q[i] == if offset <= i < offset + |d| then And(p[i], d[i - offset]) else p[i]
  {
    seq(|p|, i requires 0 <= i < |p| => if offset <= i < offset + |d| then And(p[i], d[i - offset]) else p[i])
  }

  class Flash {
    const blocks: nat
    /** The pages, main and spare area. */
    var cells: seq<seq<byte>>
    /** The blocks whose erase fails, and what it leaves in page p at offset o. */
    const fails: set<nat>
    const wreck: (nat, nat) -> byte

    constructor (cells: seq<seq<byte>>, blocks: nat, fails: set<nat>, wreck: (nat, nat) -> byte)
      requires Shaped(cells, blocks)
      ensures Valid() && this.cells == cells && this.blocks == blocks && this.fails == fails && this.wreck == wreck
    {
      this.cells, this.blocks, this.fails, this.wreck := cells, blocks, fails, wreck;
    }

    ghost predicate Valid()
      reads this
    {
      Shaped(cells, blocks)
    }
  }

  predicate Shaped(cells: seq<seq<byte>>, blocks: nat) {
    |cells| == BLOCK_PAGES * blocks && forall p :: 0 <= p < |cells| ==> |cells[p]| == PAGE_SIZE + SPARE_SIZE
  }

  // ---- pages ----

  /** nand_read_page */
  method ReadPage(f: Flash, page: nat, offset: nat, size: nat) returns (data: seq<byte>)
    requires f.Valid() && page < |f.cells| && offset <= PAGE_SIZE + SPARE_SIZE
    ensures data == f.cells[page][offset..Min(offset + size, PAGE_SIZE + SPARE_SIZE)]
  {
    var bytes := if PAGE_SIZE + SPARE_SIZE - offset >= size then size else PAGE_SIZE + SPARE_SIZE - offset;
    data := [];
    while |data| < bytes
      invariant |data| <= bytes && data == f.cells[page][offset..offset + |data|]
    {
      data := data + [f.cells[page][offset + |data|]];
    }
  }

  /** nand_write_page, the program operation succeeding */
  method WritePage(f: Flash, page: nat, offset: nat, data: seq<byte>) returns (bytes: nat)
    requires f.Valid() && page < |f.cells| && offset <= PAGE_SIZE + SPARE_SIZE
    modifies f`cells
    ensures f.Valid() && bytes == Min(|data|, PAGE_SIZE + SPARE_SIZE - offset)
    ensures f.cells == old(f.cells)[page := Programmed(old(f.cells[page]), offset, data[..bytes])]
  {
    bytes := if PAGE_SIZE + SPARE_SIZE - offset > |data| then |data| else PAGE_SIZE + SPARE_SIZE - offset;
    var p := f.cells[page];
    ghost var q := p;
    var i := 0;
    while i < bytes
      invariant i <= bytes && |p| == |q|
      invariant forall k :: 0 <= k < |q| ==>
                  p[k] == if offset <= k < offset + i then And(q[k], data[k - offset]) else q[k]
    {
      p := p[offset + i := And(p[offset + i], data[i])];
      i := i + 1;
    }
    assert p == Programmed(q, offset, data[..bytes]);
    f.cells := f.cells[page := p];
  }

  // ---- bad blocks ----

  /** Block b carries a bad-block marker. */
  predicate Marked(cells: seq<seq<byte>>, b: nat)
    requires BLOCK_PAGES * b < |cells| && |cells[BLOCK_PAGES * b]| == PAGE_SIZE + SPARE_SIZE
  {
    cells[BLOCK_PAGES * b][MARKER] != 0xFF
  }

  /** is_bad_block */
  method IsBadBlock(f: Flash, addr: nat) returns (bad: bool)
    requires f.Valid() && addr / BLOCK_SIZE < f.blocks
    ensures bad == Marked(f.cells, addr / BLOCK_SIZE)
  {
    var blockStart := addr - addr % BLOCK_SIZE;
    var page := blockStart / PAGE_SIZE;
    assert page == BLOCK_PAGES * (addr / BLOCK_SIZE);
    var data := ReadPage(f, page, MARKER, 1);
    bad := data[0] != 0xFF;
  }

  /** mark_bad_block */
  method MarkBadBlock(f: Flash, addr: nat)
    requires f.Valid() && addr / BLOCK_SIZE < f.blocks
    modifies f`cells
    ensures f.Valid() && Marked(f.cells, addr / BLOCK_SIZE)
    ensures var p := 64 * (addr / 131072); f.cells == old(f.cells)[p := Programmed(old(f.cells)[p], 2048, [0xEE])]
  {
    var blockStart := addr - addr % BLOCK_SIZE;
    var page := blockStart / PAGE_SIZE;
    assert page == BLOCK_PAGES * (addr / BLOCK_SIZE);
    var data: seq<byte> := [0xEE];
    var ret := WritePage(f, page, MARKER, data);
    assert data[..1] == data;
  }

  ghost predicate ErasedPage(p: seq<byte>) {
    forall o :: 0 <= o < |p| ==> p[o] == 0xFF
  }

  /** A block whose erase failed: what the device has left, but for the marker. */
  ghost predicate Wrecked(f: Flash, cells: seq<seq<byte>>, b: nat)
    requires Shaped(cells, f.blocks) && b < f.blocks
  {
    forall p, o :: 64 * b <= p < 64 * b + 64 && 0 <= o < 2112 ==>
      cells[p][o] == if p == 64 * b && o == 2048 then And(f.wreck(p, o), 0xEE) else f.wreck(p, o)
  }

  lemma WreckedIsMarked(f: Flash, cells: seq<seq<byte>>, b: nat)
    requires Shaped(cells, f.blocks) && b < f.blocks && Wrecked(f, cells, b)
    ensures Marked(cells, b)
  {
    hide And;
    assert cells[64 * b][2048] == And(f.wreck(64 * b, 2048), 0xEE);
  }

  /** What an attempt to erase block b does to it. */
  ghost predicate Attempted(f: Flash, cells: seq<seq<byte>>, b: nat)
    requires Shaped(cells, f.blocks) && b < f.blocks
  {
    if b in f.fails then Wrecked(f, cells, b)
    else forall p :: BLOCK_PAGES * b <= p < BLOCK_PAGES * b + BLOCK_PAGES ==> ErasedPage(cells[p])
  }

  /** Two states agree outside block b. */
  ghost predicate SameBut(cells: seq<seq<byte>>, before: seq<seq<byte>>, b: nat) {
    |cells| == |before| && forall p :: 0 <= p < |cells| && !(BLOCK_PAGES * b <= p < BLOCK_PAGES * b + BLOCK_PAGES) ==>
      cells[p] == before[p]
  }

  /** What a failing erase leaves in a block. */
  ghost predicate Left(f: Flash, cells: seq<seq<byte>>, b: nat)
    requires Shaped(cells, f.blocks) && b < f.blocks
  {
    forall p, o :: 64 * b <= p < 64 * b + 64 && 0 <= o < 2112 ==> cells[p][o] == f.wreck(p, o)
  }

  /** nand_erase_block */
  method EraseBlock(f: Flash, b: nat) returns (ret: int)
    requires f.Valid() && b < f.blocks
    modifies f`cells
    ensures f.Valid() && ret == (if b in f.fails then -1 else 0) && Attempted(f, f.cells, b)
    ensures SameBut(f.cells, old(f.cells), b)
  {
    hide And;
    f.cells := AfterErase(f, b);
    if b in f.fails {
      MarkBadBlock(f, b * BLOCK_SIZE);
      return -1;
    }
    return 0;
  }

  /** What the device makes of an erase command. */
  function AfterErase(f: Flash, b: nat): (cells: seq<seq<byte>>)
    requires Shaped(f.cells, f.blocks) && b < f.blocks
    reads f
    ensures Shaped(cells, f.blocks) && SameBut(cells, f.cells, b)
    ensures b !in f.fails ==> Attempted(f, cells, b)
    ensures b in f.fails ==> Left(f, cells, b)
  {
    var first := BLOCK_PAGES * b;
    seq(|f.cells|, p requires 0 <= p < |f.cells| reads f =>
      if !(first <= p < first + BLOCK_PAGES) then f.cells[p]
      else seq(PAGE_SIZE + SPARE_SIZE, o requires 0 <= o => if b in f.fails then f.wreck(p, o) else 0xFF))
  }

  // ---- the walk over good blocks ----

  /** The first good block from b on, or the number of blocks. */
  function Next(bad: seq<bool>, b: nat): (r: nat)
    requires b <= |bad|
    ensures b <= r <= |bad| && (r < |bad| ==> !bad[r]) && forall k :: b <= k < r ==> bad[k]
    decreases |bad| - b
  {
    if b == |bad| || !bad[b] then b else Next(bad, b + 1)
  }

  /** The block n good blocks behind block first. */
  function Walk(bad: seq<bool>, first: nat, n: nat): (r: nat)
    requires first <= |bad|
    ensures first <= r <= |bad|
  {
    if n == 0 then first
    else
      var p := Walk(bad, first, n - 1);
      if p == |bad| then p else Next(bad, p + 1)
  }

  /** A walk that has not ended passes its blocks in strictly increasing order. */
  lemma {:induction false} WalkIncreases(bad: seq<bool>, first: nat, n: nat, m: nat)
    requires first <= |bad| && n < m && Walk(bad, first, m) < |bad|
    ensures Walk(bad, first, n) < Walk(bad, first, m)
    decreases m
  {
    if n < m - 1 {
      WalkIncreases(bad, first, n, m - 1);
    }
  }

  lemma WalkStep(bad: seq<bool>, first: nat, n: nat)
    requires first <= |bad| && Walk(bad, first, n) < |bad|
    ensures Walk(bad, first, n + 1) == Next(bad, Walk(bad, first, n) + 1)
  {
  }

  /** The block a transfer from page start on begins with: the marker of a block that is entered in
      the middle is not looked at. */
  function FirstBlock(bad: seq<bool>, start: nat): (b: nat)
    requires start / BLOCK_PAGES <= |bad|
    ensures b <= |bad|
  {
    if start % BLOCK_PAGES == 0 then Next(bad, start / BLOCK_PAGES) else start / BLOCK_PAGES
  }

  /** The page of the flash that holds page k of the data, for a transfer that starts at page start:
      bad blocks are skipped whenever the walk enters a block. */
  function PageOf(bad: seq<bool>, start: nat, k: nat): nat
    requires start / BLOCK_PAGES <= |bad|
  {
    var x := start % BLOCK_PAGES + k;
    Walk(bad, FirstBlock(bad, start), x / BLOCK_PAGES) * BLOCK_PAGES + x % BLOCK_PAGES
  }

  /** The walk stands at page pg with k pages behind it, possibly in front of bad blocks. */
  ghost predicate StandsAt(bad: seq<bool>, start: nat, k: nat, pg: nat)
    requires start / BLOCK_PAGES <= |bad|
  {
    if (start % BLOCK_PAGES + k) % BLOCK_PAGES == 0 then
      && pg % BLOCK_PAGES == 0 && pg / BLOCK_PAGES <= |bad|
      && BLOCK_PAGES * Next(bad, pg / BLOCK_PAGES) == PageOf(bad, start, k)
    else pg % BLOCK_PAGES != 0 && pg == PageOf(bad, start, k)
  }

  lemma WalkStarts(bad: seq<bool>, start: nat)
    requires start / BLOCK_PAGES <= |bad|
    ensures StandsAt(bad, start, 0, start)
  {
  }

  /** Page k of the data has a place on the device. */
  ghost predicate Fits(bad: seq<bool>, start: nat, k: nat)
    requires start / BLOCK_PAGES <= |bad|
  {
    PageOf(bad, start, k) < BLOCK_PAGES * |bad|
  }

  /** A bad block is skipped, and in front of anything else the walk is where the data belongs. */
  lemma WalkSkips(bad: seq<bool>, start: nat, k: nat, pg: nat)
    requires start / BLOCK_PAGES <= |bad| && StandsAt(bad, start, k, pg) && Fits(bad, start, k)
    ensures pg <= PageOf(bad, start, k) && pg / BLOCK_PAGES < |bad|
    ensures if pg % BLOCK_PAGES == 0 && bad[pg / BLOCK_PAGES] then StandsAt(bad, start, k, pg + BLOCK_PAGES)
            else pg == PageOf(bad, start, k)
  {
    hide Walk, PageOf;
  }

  lemma WalkAdvances(bad: seq<bool>, start: nat, k: nat)
    requires start / BLOCK_PAGES <= |bad| && Fits(bad, start, k)
    ensures StandsAt(bad, start, k + 1, PageOf(bad, start, k) + 1)
  {
    hide Walk, Next, FirstBlock;
    var first, x := FirstBlock(bad, start), start % BLOCK_PAGES + k;
    WalkStep(bad, first, x / BLOCK_PAGES);
  }

  /** The pages of a transfer are distinct, and ordered as the data is. */
  lemma PagesIncrease(bad: seq<bool>, start: nat, i: nat, k: nat)
    requires start / BLOCK_PAGES <= |bad| && i < k && Fits(bad, start, k)
    ensures Fits(bad, start, i) && PageOf(bad, start, i) < PageOf(bad, start, k)
  {
    hide Walk, Next, FirstBlock;
    var first, off := FirstBlock(bad, start), start % BLOCK_PAGES;
    if (off + i) / BLOCK_PAGES < (off + k) / BLOCK_PAGES {
      WalkIncreases(bad, first, (off + i) / BLOCK_PAGES, (off + k) / BLOCK_PAGES);
    }
  }

  // ---- nand_write and nand_read ----

  /** The pages that size octets take. */
  function Pages(size: nat): (n: nat)
    ensures size <= 2048 * n < size + 2048
  {
    (size + PAGE_SIZE - 1) / PAGE_SIZE
  }

  /** Page k of the data. */
  function Chunk(data: seq<byte>, k: nat): (c: seq<byte>)
    requires k < Pages(|data|)
    ensures |c| <= PAGE_SIZE
  {
    data[k * PAGE_SIZE..Min((k + 1) * PAGE_SIZE, |data|)]
  }

  /** Which blocks carry a marker. */
  function Markers(cells: seq<seq<byte>>, blocks: nat): (bad: seq<bool>)
    requires Shaped(cells, blocks)
    ensures |bad| == blocks && forall b :: 0 <= b < blocks ==> bad[b] == Marked(cells, b)
  {
    seq(blocks, b requires 0 <= b < blocks => Marked(cells, b))
  }

  /** A transfer of size octets from page start on ends before the device does. */
  ghost predicate Room(bad: seq<bool>, start: nat, size: nat) {
    start / BLOCK_PAGES <= |bad| && (0 < size ==> Fits(bad, start, Pages(size) - 1))
  }

  /** Page i of data is programmed into its place. */
  ghost predicate Placed(cells: seq<seq<byte>>, before: seq<seq<byte>>, bad: seq<bool>, start: nat,
          data: seq<byte>, i: nat)
    requires start / BLOCK_PAGES <= |bad| && i < Pages(|data|)
    requires Shaped(cells, |bad|) && Shaped(before, |bad|)
  {
    var pg := PageOf(bad, start, i);
    Fits(bad, start, i) && cells[pg] == Programmed(before[pg], 0, Chunk(data, i))
  }

  /** The first k pages of data are programmed into their places, and nothing else has changed. */
  ghost predicate Stored(cells: seq<seq<byte>>, before: seq<seq<byte>>, bad: seq<bool>, start: nat,
          data: seq<byte>, k: nat)
    requires Room(bad, start, |data|) && k <= Pages(|data|)
    requires Shaped(cells, |bad|) && Shaped(before, |bad|)
  {
    && (forall i :: 0 <= i < k ==> Placed(cells, before, bad, start, data, i))
    && (forall p :: 0 <= p < |cells| && (forall i :: 0 <= i < k ==> p != PageOf(bad, start, i)) ==> cells[p] == before[p])
  }

  /** Octet by octet: octet i of the data is programmed into octet i mod 2048 of the page that the walk
      gives its page. */
  lemma StoredOctet(cells: seq<seq<byte>>, before: seq<seq<byte>>, bad: seq<bool>, start: nat, data: seq<byte>, i: nat)
    requires Room(bad, start, |data|) && Shaped(cells, |bad|) && Shaped(before, |bad|) && i < |data|
    requires Stored(cells, before, bad, start, data, Pages(|data|))
    ensures var pg := PageOf(bad, start, i / 2048);
      && pg < |cells| == |before| && i % 2048 < |cells[pg]| == |before[pg]|
      && cells[pg][i % 2048] == And(before[pg][i % 2048], data[i])
  {
    hide PageOf, And;
    assert Placed(cells, before, bad, start, data, i / 2048);
    assert Chunk(data, i / 2048)[i % 2048] == data[i];
  }

  lemma FitsAll(bad: seq<bool>, start: nat, size: nat, k: nat)
    requires Room(bad, start, size) && k < Pages(size)
    ensures Fits(bad, start, k)
  {
    if k < Pages(size) - 1 {
      PagesIncrease(bad, start, k, Pages(size) - 1);
    }
  }

  lemma StoreNext(cells: seq<seq<byte>>, before: seq<seq<byte>>, bad: seq<bool>, start: nat, data: seq<byte>, k: nat)
    requires Room(bad, start, |data|) && k < Pages(|data|)
    requires Shaped(cells, |bad|) && Shaped(before, |bad|) && Stored(cells, before, bad, start, data, k)
    ensures Fits(bad, start, k)
    ensures var pg := PageOf(bad, start, k);
      var cells' := cells[pg := Programmed(cells[pg], 0, Chunk(data, k))];
      Shaped(cells', |bad|) && Stored(cells', before, bad, start, data, k + 1)
  {
    hide PageOf, Programmed, Chunk;
    FitsAll(bad, start, |data|, k);
    var pg := PageOf(bad, start, k);
    forall i | 0 <= i < k
      ensures Fits(bad, start, i) && PageOf(bad, start, i) < pg
    {
      PagesIncrease(bad, start, i, k);
    }
    assert cells[pg] == before[pg];
    var cells' := cells[pg := Programmed(cells[pg], 0, Chunk(data, k))];
    forall i | 0 <= i < k + 1
      ensures Placed(cells', before, bad, start, data, i)
    {
      if i < k {
        assert Placed(cells, before, bad, start, data, i);
      }
    }
    forall p | 0 <= p < |cells| && forall i :: 0 <= i < k + 1 ==> p != PageOf(bad, start, i)
      ensures cells'[p] == before[p]
    {
      assert p != PageOf(bad, start, k);
    }
  }

  lemma MarkersKept(cells: seq<seq<byte>>, blocks: nat, pg: nat, d: seq<byte>)
    requires Shaped(cells, blocks) && pg < |cells| && |d| <= PAGE_SIZE
    ensures Shaped(cells[pg := Programmed(cells[pg], 0, d)], blocks)
    ensures Markers(cells[pg := Programmed(cells[pg], 0, d)], blocks) == Markers(cells, blocks)
  {
  }

  /** The length of the last transfer of a walk over size octets. */
  function LastChunk(size: nat): (n: nat)
    ensures n <= 2048 && n <= size && (size - n) % 2048 == 0 && (0 < size ==> 0 < n)
  {
    if size == 0 then 0 else if size % PAGE_SIZE == 0 then PAGE_SIZE else size % PAGE_SIZE
  }

  /** How far a walk has come: k pages of size octets are done and left are to come. */
  ghost predicate Progress(size: nat, left: nat, k: nat, bytes: nat) {
    && k <= Pages(size) && left == size - Min(size, k * PAGE_SIZE) && (left == 0 ==> k == Pages(size))
    && (k == Pages(size) ==> left == 0) && bytes == LastChunk(size - left)
  }

  lemma ProgressNext(size: nat, left: nat, k: nat, bytes: nat, chunk: nat)
    requires Progress(size, left, k, bytes) && 0 < left
    requires chunk == if PAGE_SIZE <= left then PAGE_SIZE else size % PAGE_SIZE
    ensures k < Pages(size) && chunk == Min(left, PAGE_SIZE) && size - left == k * PAGE_SIZE
    ensures Progress(size, left - chunk, k + 1, chunk)
  {
  }

  /** nand_write: page k of the data is programmed into the page that the walk gives it, nothing else
      is touched, and the markers stay.  The result is the length of the last chunk. */
  method Write(f: Flash, startAddr: nat, size: nat, buf: seq<byte>) returns (ret: int)
    requires f.Valid() && size == |buf| && Room(Markers(f.cells, f.blocks), startAddr / PAGE_SIZE, size)
    modifies f`cells
    ensures f.Valid()
    ensures startAddr % PAGE_SIZE != 0 ==> ret == -1 && f.cells == old(f.cells)
    ensures startAddr % PAGE_SIZE == 0 ==> ret == LastChunk(size)
    ensures Markers(f.cells, f.blocks) == old(Markers(f.cells, f.blocks))
    ensures startAddr % PAGE_SIZE == 0 ==>
              Stored(f.cells, old(f.cells), Markers(f.cells, f.blocks), startAddr / PAGE_SIZE, buf, Pages(size))
  {
    hide PageOf, Programmed, StandsAt, Stored, Chunk, Progress, Markers, Shaped, Room, LastChunk;
    if startAddr % PAGE_SIZE != 0 {
      return -1;
    }
    ghost var start, before, bad, k := startAddr / PAGE_SIZE, f.cells, Markers(f.cells, f.blocks), 0;
    ghost var pg := start;
    var left: nat, addr: nat, bytes: nat := size, startAddr, 0;
    RoomFacts(bad, start, size);
    WalkStarts(bad, start);
    StoreFirst(before, bad, start, buf);
    ProgressFirst(size);
    while left > 0
      invariant f.Valid() && Markers(f.cells, f.blocks) == bad
      invariant Progress(size, left, k, bytes) && k <= Pages(size) && Stored(f.cells, before, bad, start, buf, k)
      invariant left > 0 ==> addr == pg * PAGE_SIZE && StandsAt(bad, start, k, pg)
      decreases left, BLOCK_PAGES * f.blocks - pg
    {
      ProgressNext(size, left, k, bytes, if PAGE_SIZE <= left then PAGE_SIZE else size % PAGE_SIZE);
      FitsAll(bad, start, size, k);
      WalkSkips(bad, start, k, pg);
      DeviceSize(f);
      var skip := AtBadBlock(f, addr, pg);
      if skip {
        addr := addr + BLOCK_SIZE;
        pg := pg + BLOCK_PAGES;
        continue;
      }
      StoreNext(f.cells, before, bad, start, buf, k);
      MarkersKept(f.cells, f.blocks, pg, Chunk(buf, k));
      WalkAdvances(bad, start, k);
      bytes := WriteChunk(f, addr, left, size, buf, pg, k);
      addr := addr + bytes;
      left := left - bytes;
      k := k + 1;
      pg := pg + 1;
    }
    ProgressDone(size, k, bytes);
    return bytes;
  }

  lemma DeviceSize(f: Flash)
    requires f.Valid()
    ensures |f.cells| == BLOCK_PAGES * f.blocks
  {
  }

  lemma RoomFacts(bad: seq<bool>, start: nat, size: nat)
    requires Room(bad, start, size)
    ensures start / BLOCK_PAGES <= |bad|
  {
  }

  /** The check in front of every page: a bad block is noticed where the walk enters it. */
  method AtBadBlock(f: Flash, addr: nat, ghost pg: nat) returns (skip: bool)
    requires f.Valid() && addr == pg * PAGE_SIZE && pg / BLOCK_PAGES < f.blocks
    ensures skip == (pg % BLOCK_PAGES == 0 && Markers(f.cells, f.blocks)[pg / BLOCK_PAGES])
  {
    hide Shaped, Marked;
    skip := false;
    if addr % BLOCK_SIZE == 0 {
      skip := IsBadBlock(f, addr);
    }
  }

  /** One transfer of nand_write. */
  method WriteChunk(f: Flash, addr: nat, left: nat, size: nat, buf: seq<byte>, ghost pg: nat, ghost k: nat)
    returns (bytes: nat)
    requires f.Valid() && addr == pg * PAGE_SIZE && pg < |f.cells| && k < Pages(size)
    requires size == |buf| && size - left == k * PAGE_SIZE && 0 < left <= size
    modifies f`cells
    ensures f.Valid() && f.cells == old(f.cells)[pg := Programmed(old(f.cells[pg]), 0, Chunk(buf, k))]
    ensures bytes == if PAGE_SIZE <= left then PAGE_SIZE else size % PAGE_SIZE
  {
    hide Programmed, Shaped;
    assert size % PAGE_SIZE == left % PAGE_SIZE;
    if left >= PAGE_SIZE {
      bytes := WritePage(f, addr / PAGE_SIZE, addr % PAGE_SIZE, buf[size - left..size - left + PAGE_SIZE]);
    } else {
      bytes := WritePage(f, addr / PAGE_SIZE, addr % PAGE_SIZE, buf[size - left..size - left + size % PAGE_SIZE]);
    }
    assert buf[size - left..size - left + bytes][..bytes] == Chunk(buf, k);
  }

  lemma StoreFirst(cells: seq<seq<byte>>, bad: seq<bool>, start: nat, data: seq<byte>)
    requires Room(bad, start, |data|) && Shaped(cells, |bad|)
    ensures Stored(cells, cells, bad, start, data, 0)
  {
  }

  lemma ProgressFirst(size: nat)
    ensures Progress(size, size, 0, 0)
  {
  }

  lemma ProgressDone(size: nat, k: nat, bytes: nat)
    requires Progress(size, 0, k, bytes)
    ensures k == Pages(size) && bytes == LastChunk(size)
  {
  }

  /** nand_read: page k of the result is what the page that the walk gives it holds. */
  method Read(f: Flash, startAddr: nat, size: nat) returns (ret: int, buf: seq<byte>)
    requires f.Valid() && Room(Markers(f.cells, f.blocks), startAddr / PAGE_SIZE, size)
    ensures startAddr % PAGE_SIZE != 0 ==> ret == -1 && buf == []
    ensures startAddr % PAGE_SIZE == 0 ==> ret == LastChunk(size) && |buf| == size
    ensures startAddr % PAGE_SIZE == 0 ==>
              Loaded(f.cells, Markers(f.cells, f.blocks), startAddr / PAGE_SIZE, buf, Pages(size))
  {
    hide PageOf, StandsAt, Loaded, Chunk, Progress, Markers, Shaped, Room, LastChunk;
    buf := [];
    if startAddr % PAGE_SIZE != 0 {
      return -1, buf;
    }
    ghost var start, bad, k := startAddr / PAGE_SIZE, Markers(f.cells, f.blocks), 0;
    ghost var pg := start;
    var left: nat, addr: nat, bytes: nat := size, startAddr, 0;
    RoomFacts(bad, start, size);
    WalkStarts(bad, start);
    LoadFirst(f.cells, bad, start);
    ProgressFirst(size);
    while left > 0
      invariant Progress(size, left, k, bytes) && k <= Pages(size)
      invariant |buf| == size - left && k == Pages(|buf|) && Loaded(f.cells, bad, start, buf, k)
      invariant left > 0 ==> addr == pg * PAGE_SIZE && StandsAt(bad, start, k, pg)
      decreases left, BLOCK_PAGES * f.blocks - pg
    {
      ProgressNext(size, left, k, bytes, if PAGE_SIZE <= left then PAGE_SIZE else size % PAGE_SIZE);
      FitsAll(bad, start, size, k);
      WalkSkips(bad, start, k, pg);
      DeviceSize(f);
      var skip := AtBadBlock(f, addr, pg);
      if skip {
        addr := addr + BLOCK_SIZE;
        pg := pg + BLOCK_PAGES;
        continue;
      }
      WalkAdvances(bad, start, k);
      var data := ReadChunk(f, addr, left, size, pg);
      LoadNext(f.cells, bad, start, buf, k, data);
      bytes := |data|;
      addr := addr + bytes;
      buf := buf + data;
      left := left - bytes;
      k := k + 1;
      pg := pg + 1;
    }
    ProgressDone(size, k, bytes);
    return bytes, buf;
  }

  /** One transfer of nand_read. */
  method ReadChunk(f: Flash, addr: nat, left: nat, size: nat, ghost pg: nat) returns (data: seq<byte>)
    requires f.Valid() && addr == pg * PAGE_SIZE && pg < |f.cells| && 0 < left
    ensures |data| == (if PAGE_SIZE <= left then PAGE_SIZE else size % PAGE_SIZE) && data == f.cells[pg][..|data|]
  {
    if left >= PAGE_SIZE {
      data := ReadPage(f, addr / PAGE_SIZE, addr % PAGE_SIZE, PAGE_SIZE);
    } else {
      data := ReadPage(f, addr / PAGE_SIZE, addr % PAGE_SIZE, size % PAGE_SIZE);
    }
  }

  /** Page i of data is what its place holds. */
  ghost predicate Held(cells: seq<seq<byte>>, bad: seq<bool>, start: nat, data: seq<byte>, i: nat)
    requires start / BLOCK_PAGES <= |bad| && i < Pages(|data|) && Shaped(cells, |bad|)
  {
    Fits(bad, start, i) && Chunk(data, i) == cells[PageOf(bad, start, i)][..|Chunk(data, i)|]
  }

  ghost predicate Loaded(cells: seq<seq<byte>>, bad: seq<bool>, start: nat, data: seq<byte>, k: nat)
    requires start / BLOCK_PAGES <= |bad| && k <= Pages(|data|) && Shaped(cells, |bad|)
  {
    forall i :: 0 <= i < k ==> Held(cells, bad, start, data, i)
  }

  lemma LoadedOctet(cells: seq<seq<byte>>, bad: seq<bool>, start: nat, data: seq<byte>, i: nat)
    requires start / BLOCK_PAGES <= |bad| && Shaped(cells, |bad|) && i < |data|
    requires Loaded(cells, bad, start, data, Pages(|data|))
    ensures var pg := PageOf(bad, start, i / 2048);
      pg < |cells| && i % 2048 < |cells[pg]| && data[i] == cells[pg][i % 2048]
  {
    hide PageOf;
    assert Held(cells, bad, start, data, i / 2048);
    assert Chunk(data, i / 2048)[i % 2048] == data[i];
  }

  lemma LoadFirst(cells: seq<seq<byte>>, bad: seq<bool>, start: nat)
    requires start / BLOCK_PAGES <= |bad| && Shaped(cells, |bad|)
    ensures Loaded(cells, bad, start, [], 0)
  {
  }

  lemma LoadNext(cells: seq<seq<byte>>, bad: seq<bool>, start: nat, buf: seq<byte>, k: nat, data: seq<byte>)
    requires start / BLOCK_PAGES <= |bad| && Shaped(cells, |bad|) && |buf| == k * PAGE_SIZE
    requires Loaded(cells, bad, start, buf, k) && Fits(bad, start, k)
    requires 0 < |data| <= PAGE_SIZE && data == cells[PageOf(bad, start, k)][..|data|]
    ensures Pages(|buf + data|) == k + 1 && Loaded(cells, bad, start, buf + data, k + 1)
  {
    hide PageOf;
    var buf' := buf + data;
    forall i | 0 <= i < k + 1
      ensures Held(cells, bad, start, buf', i)
    {
      if i < k {
        assert Held(cells, bad, start, buf, i);
        assert Chunk(buf', i) == Chunk(buf, i);
      } else {
        assert Chunk(buf', i) == data;
      }
    }
  }

  // ---- nand_erase ----

  /** The good blocks from lo on and below hi. */
  function Good(bad: seq<bool>, lo: nat, hi: nat): nat
    requires lo <= hi <= |bad|
    decreases hi
  {
    if lo == hi then 0 else Good(bad, lo, hi - 1) + if bad[hi - 1] then 0 else 1
  }

  lemma {:induction false} GoodSplit(bad: seq<bool>, lo: nat, mid: nat, hi: nat)
    requires lo <= mid <= hi <= |bad|
    ensures Good(bad, lo, hi) == Good(bad, lo, mid) + Good(bad, mid, hi)
    decreases hi
  {
    if mid < hi {
      GoodSplit(bad, lo, mid, hi - 1);
    }
  }

  lemma {:induction false} NoneGood(bad: seq<bool>, lo: nat, hi: nat)
    requires lo <= hi <= |bad| && forall k :: lo <= k < hi ==> bad[k]
    ensures Good(bad, lo, hi) == 0
    decreases hi
  {
    if lo < hi {
      NoneGood(bad, lo, hi - 1);
    }
  }

  /** The n-th block of a walk is a good one with n - 1 good ones between it and the first. */
  lemma {:induction false} WalkCounts(bad: seq<bool>, first: nat, n: nat)
    requires first <= |bad| && Walk(bad, first, n) < |bad|
    ensures first < |bad| && Good(bad, first + 1, Walk(bad, first, n) + 1) == n
    ensures 0 < n ==> !bad[Walk(bad, first, n)]
    decreases n
  {
    if 0 < n {
      var p, r := Walk(bad, first, n - 1), Walk(bad, first, n);
      WalkCounts(bad, first, n - 1);
      GoodSplit(bad, first + 1, p + 1, r + 1);
      NoneGood(bad, p + 1, r);
    }
  }

  /** The place of page k of a transfer: at the same distance from the start of a block as it is from the
      start of the first block of the transfer, with as many good blocks before its own as the data
      fills. */
  lemma PlaceCounts(bad: seq<bool>, start: nat, k: nat)
    requires start / 64 <= |bad| && Fits(bad, start, k)
    ensures var pg := PageOf(bad, start, k); var b := pg / 64;
      && pg % 64 == (start % 64 + k) % 64 && start / 64 <= b < |bad|
      && if start % 64 == 0 then !bad[b] && Good(bad, start / 64, b) == k / 64
         else Good(bad, start / 64 + 1, b + 1) == (start % 64 + k) / 64
              && (0 < (start % 64 + k) / 64 ==> !bad[b])
  {
    hide Walk, Next, Good;
    var first, n := FirstBlock(bad, start), (start % 64 + k) / 64;
    var b := Walk(bad, first, n);
    WalkCounts(bad, first, n);
    if start % 64 == 0 {
      var b0 := start / 64;
      AlignedCounts(bad, b0, n);
    }
  }

  lemma AlignedCounts(bad: seq<bool>, b: nat, n: nat)
    requires b <= |bad| && Walk(bad, Next(bad, b), n) < |bad|
    ensures !bad[Walk(bad, Next(bad, b), n)] && Good(bad, b, Walk(bad, Next(bad, b), n)) == n
  {
    hide Walk, Next;
    var first := Next(bad, b);
    var r := Walk(bad, first, n);
    WalkCounts(bad, first, n);
    NoneGood(bad, b, first);
    GoodSplit(bad, b, first, r + 1);
    GoodSplit(bad, first, first + 1, r + 1);
    WalkIsFirst(bad, first);
  }

  lemma WalkIsFirst(bad: seq<bool>, first: nat)
    requires first <= |bad|
    ensures Walk(bad, first, 0) == first
  {
  }

  /** Which blocks fail to erase. */
  function Faults(f: Flash): (bad: seq<bool>)
    ensures |bad| == f.blocks && forall b :: 0 <= b < f.blocks ==> bad[b] == (b in f.fails)
  {
    seq(f.blocks, b requires 0 <= b < f.blocks => b in f.fails)
  }

  /** The block behind the n-th good one from first on. */
  function EndBlock(bad: seq<bool>, b: nat, n: nat): nat
    requires b <= |bad|
  {
    if n == 0 then b else Walk(bad, Next(bad, b), n - 1) + 1
  }

  /** An erase ends right behind the n-th good block. */
  lemma EndCounts(bad: seq<bool>, b: nat, n: nat)
    requires b <= |bad| && EndBlock(bad, b, n) <= |bad|
    ensures b <= EndBlock(bad, b, n) && Good(bad, b, EndBlock(bad, b, n)) == n
    ensures 0 < n ==> b < EndBlock(bad, b, n) && !bad[EndBlock(bad, b, n) - 1]
  {
    hide Walk, Next;
    if 0 < n {
      AlignedCounts(bad, b, n - 1);
    }
  }

  /** The blocks from b0 to end have been tried, and nothing else has changed. */
  ghost predicate Tried(f: Flash, cells: seq<seq<byte>>, before: seq<seq<byte>>, b0: nat, end: nat)
    requires Shaped(cells, f.blocks) && Shaped(before, f.blocks) && end <= f.blocks
  {
    && (forall b :: b0 <= b < end ==> Attempted(f, cells, b))
    && (forall p :: 0 <= p < |cells| && !(BLOCK_PAGES * b0 <= p < BLOCK_PAGES * end) ==> cells[p] == before[p])
  }

  lemma TryNext(f: Flash, cells': seq<seq<byte>>, cells: seq<seq<byte>>, before: seq<seq<byte>>, b0: nat, b: nat)
    requires Shaped(cells, f.blocks) && Shaped(cells', f.blocks) && Shaped(before, f.blocks) && b0 <= b < f.blocks
    requires Tried(f, cells, before, b0, b) && SameBut(cells', cells, b) && Attempted(f, cells', b)
    ensures Tried(f, cells', before, b0, b + 1)
  {
    forall c | b0 <= c < b
      ensures Attempted(f, cells', c)
    {
      assert Attempted(f, cells, c);
    }
  }

  /** nand_erase with SKIP_BAD_BLOCK: from the start block on, every block is tried until as many as
      asked for have been erased; the others are marked. */
  method Erase(f: Flash, startAddr: nat, size: nat) returns (ret: int)
    requires f.Valid() && startAddr / BLOCK_SIZE <= f.blocks
    requires EndBlock(Faults(f), startAddr / BLOCK_SIZE, size / BLOCK_SIZE) <= f.blocks
    modifies f`cells
    ensures f.Valid()
    ensures ret == if startAddr % BLOCK_SIZE != 0 || size % BLOCK_SIZE != 0 then -1 else 0
    ensures ret != 0 ==> f.cells == old(f.cells)
    ensures ret == 0 ==>
              var b0 := startAddr / BLOCK_SIZE;
              Tried(f, f.cells, old(f.cells), b0, EndBlock(Faults(f), b0, size / BLOCK_SIZE))
  {
    if startAddr % BLOCK_SIZE != 0 || size % BLOCK_SIZE != 0 {
      return -1;
    }
    hide Walk, Next, Tried, Attempted, EndBlock, Shaped, EraseStands, SameBut, Faults;
    ghost var bad, b0, n, good, before := Faults(f), startAddr / BLOCK_SIZE, size / BLOCK_SIZE, 0, f.cells;
    EraseStarts(f, bad, b0, n);
    var addr, size' := startAddr, size;
    ghost var i := b0;
    while addr < startAddr + size'
      invariant f.Valid() && addr == i * BLOCK_SIZE && b0 <= i <= f.blocks
      invariant startAddr + size' - addr == (n - good) * BLOCK_SIZE && good <= n
      invariant EraseStands(bad, b0, i, good, n) && Tried(f, f.cells, before, b0, i)
      decreases n - good, f.blocks - i
    {
      EraseAdvances(f, b0, i, good, n);
      var r := TryBlock(f, addr, before, b0, i);
      addr := addr + BLOCK_SIZE;
      i := i + 1;
      if r < 0 {
        size' := size' + BLOCK_SIZE;
        continue;
      }
      good := good + 1;
    }
    EraseEnds(bad, b0, i, good, n);
    return 0;
  }

  method TryBlock(f: Flash, addr: nat, ghost before: seq<seq<byte>>, ghost b0: nat, ghost b: nat) returns (r: int)
    requires f.Valid() && Shaped(before, f.blocks) && addr == b * BLOCK_SIZE && b0 <= b < f.blocks
    requires Tried(f, f.cells, before, b0, b)
    modifies f`cells
    ensures f.Valid() && r == (if b in f.fails then -1 else 0) && Tried(f, f.cells, before, b0, b + 1)
  {
    hide Tried, Attempted, Shaped, SameBut;
    ghost var cells := f.cells;
    r := EraseBlock(f, addr / BLOCK_SIZE);
    TryNext(f, f.cells, cells, before, b0, b);
  }

  lemma EraseEnds(bad: seq<bool>, b0: nat, b: nat, good: nat, n: nat)
    requires b0 <= |bad| && b <= |bad| && good >= n && EraseStands(bad, b0, b, good, n)
    ensures b == EndBlock(bad, b0, n)
  {
  }

  /** The erase walk stands at block b with good blocks of n erased. */
  ghost predicate EraseStands(bad: seq<bool>, b0: nat, b: nat, good: nat, n: nat)
    requires b0 <= |bad| && b <= |bad|
  {
    if good < n then Next(bad, b) == Walk(bad, Next(bad, b0), good) else b == EndBlock(bad, b0, n)
  }

  lemma EraseStarts(f: Flash, bad: seq<bool>, b0: nat, n: nat)
    requires f.Valid() && b0 <= |bad| == f.blocks
    ensures Tried(f, f.cells, f.cells, b0, b0) && EraseStands(bad, b0, b0, 0, n)
  {
  }

  lemma EraseAdvances(f: Flash, b0: nat, b: nat, good: nat, n: nat)
    requires b0 <= f.blocks && b <= f.blocks && good < n && EndBlock(Faults(f), b0, n) <= f.blocks
    requires EraseStands(Faults(f), b0, b, good, n)
    ensures b < f.blocks && EraseStands(Faults(f), b0, b + 1, if b in f.fails then good else good + 1, n)
  {
    hide Faults;
    EraseWalkAdvances(Faults(f), b0, b, good, n);
  }

  lemma EraseWalkAdvances(bad: seq<bool>, b0: nat, b: nat, good: nat, n: nat)
    requires b0 <= |bad| && b <= |bad| && good < n && EndBlock(bad, b0, n) <= |bad|
    requires EraseStands(bad, b0, b, good, n)
    ensures b < |bad| && EraseStands(bad, b0, b + 1, if bad[b] then good else good + 1, n)
  {
    var first := Next(bad, b0);
    hide Walk;
    if good < n - 1 {
      WalkIncreases(bad, first, good, n - 1);
      WalkStep(bad, first, good);
    }
    NextSkips(bad, b);
  }

  lemma NextSkips(bad: seq<bool>, b: nat)
    requires b <= |bad|
    ensures b < |bad| ==> Next(bad, b) == if bad[b] then Next(bad, b + 1) else b
  {
  }

  // ---- erase, write, read ----

  /** Marker maps that agree up to block end lead the same way up to there. */
  lemma {:induction false} NextAgrees(bad: seq<bool>, other: seq<bool>, b: nat, end: nat)
    requires |bad| == |other| && b <= |bad| && Next(bad, b) < end <= |bad|
    requires forall c :: b <= c < end ==> bad[c] == other[c]
    ensures Next(other, b) == Next(bad, b)
    decreases |bad| - b
  {
    if bad[b] {
      NextAgrees(bad, other, b + 1, end);
    }
  }

  lemma {:induction false} WalkAgrees(bad: seq<bool>, other: seq<bool>, b: nat, n: nat, end: nat)
    requires |bad| == |other| && b <= |bad| && Walk(bad, Next(bad, b), n) < end <= |bad|
    requires forall c :: b <= c < end ==> bad[c] == other[c]
    ensures Walk(other, Next(other, b), n) == Walk(bad, Next(bad, b), n)
    decreases n
  {
    if n == 0 {
      NextAgrees(bad, other, b, end);
    } else {
      WalkIncreases(bad, Next(bad, b), n - 1, n);
      WalkAgrees(bad, other, b, n - 1, end);
      NextAgrees(bad, other, Walk(bad, Next(bad, b), n - 1) + 1, end);
    }
  }

  lemma {:induction false} WalkIsGood(bad: seq<bool>, b: nat, n: nat)
    requires b <= |bad| && Walk(bad, Next(bad, b), n) < |bad|
    ensures !bad[Walk(bad, Next(bad, b), n)]
  {
  }

  /** After the erase, the walk over the markers is the walk over the blocks that did not fail: page k
      has a place, in an erased block. */
  lemma ErasedPlace(f: Flash, before: seq<seq<byte>>, b0: nat, n: nat, k: nat)
    requires f.Valid() && Shaped(before, f.blocks) && b0 <= f.blocks && k / BLOCK_PAGES < n
    requires EndBlock(Faults(f), b0, n) <= f.blocks
    requires Tried(f, f.cells, before, b0, EndBlock(Faults(f), b0, n))
    ensures var bad := Markers(f.cells, f.blocks); var pg := PageOf(bad, BLOCK_PAGES * b0, k);
      && Fits(bad, BLOCK_PAGES * b0, k) && pg / BLOCK_PAGES !in f.fails && ErasedPage(f.cells[pg])
  {
    hide Next, Walk, Faults, Markers, EndBlock, Marked, PageOf;
    var bad := Markers(f.cells, f.blocks);
    MarkersAgree(f, before, b0, EndBlock(Faults(f), b0, n));
    var b := PlaceBlock(Faults(f), bad, b0, n, k);
    assert b !in f.fails by {
      FaultIs(f, b);
    }
    assert Attempted(f, f.cells, b);
    ErasedIn(f, b, PageOf(bad, BLOCK_PAGES * b0, k));
  }

  lemma FaultIs(f: Flash, b: nat)
    requires b < f.blocks
    ensures Faults(f)[b] == (b in f.fails)
  {
  }

  lemma ErasedIn(f: Flash, b: nat, pg: nat)
    requires f.Valid() && b < f.blocks && Attempted(f, f.cells, b) && b !in f.fails && pg / BLOCK_PAGES == b
    ensures pg < |f.cells| && ErasedPage(f.cells[pg])
  {
  }

  lemma MarkersAgree(f: Flash, before: seq<seq<byte>>, b0: nat, end: nat)
    requires f.Valid() && Shaped(before, f.blocks) && end <= f.blocks && Tried(f, f.cells, before, b0, end)
    ensures forall c :: b0 <= c < end ==> Faults(f)[c] == Markers(f.cells, f.blocks)[c]
  {
    forall c | b0 <= c < end
      ensures Faults(f)[c] == Markers(f.cells, f.blocks)[c]
    {
      MarkerTells(f, c);
    }
  }

  /** The block of page k, which is a good one in front of the end. */
  lemma PlaceBlock(faults: seq<bool>, bad: seq<bool>, b0: nat, n: nat, k: nat) returns (b: nat)
    requires |faults| == |bad| && b0 <= |bad| && k / BLOCK_PAGES < n && EndBlock(faults, b0, n) <= |bad|
    requires forall c :: b0 <= c < EndBlock(faults, b0, n) ==> faults[c] == bad[c]
    ensures b0 <= b < EndBlock(faults, b0, n) && !faults[b]
    ensures PageOf(bad, BLOCK_PAGES * b0, k) / BLOCK_PAGES == b && Fits(bad, BLOCK_PAGES * b0, k)
  {
    hide Next, Walk;
    var first, m := Next(faults, b0), k / BLOCK_PAGES;
    if m < n - 1 {
      WalkIncreases(faults, first, m, n - 1);
    }
    b := Walk(faults, first, m);
    WalkAgrees(faults, bad, b0, m, EndBlock(faults, b0, n));
    WalkIsGood(faults, b0, m);
    AlignedPlace(bad, b0, k);
  }

  lemma AlignedPlace(bad: seq<bool>, b0: nat, k: nat)
    requires b0 <= |bad|
    ensures PageOf(bad, BLOCK_PAGES * b0, k) ==
            Walk(bad, Next(bad, b0), k / BLOCK_PAGES) * BLOCK_PAGES + k % BLOCK_PAGES
  {
    hide Next, Walk;
  }

  lemma MarkerTells(f: Flash, b: nat)
    requires f.Valid() && b < f.blocks && Attempted(f, f.cells, b)
    ensures Marked(f.cells, b) == (b in f.fails)
  {
    if b !in f.fails {
      assert ErasedPage(f.cells[BLOCK_PAGES * b]);
    } else {
      WreckedIsMarked(f, f.cells, b);
    }
  }

  lemma ProgramErased(p: seq<byte>, d: seq<byte>)
    requires |d| <= |p| && ErasedPage(p)
    ensures Programmed(p, 0, d)[..|d|] == d
  {
    forall i | 0 <= i < |d|
      ensures And(p[i], d[i]) == d[i]
    {
      AndOnes(d[i]);
    }
  }

  lemma {:induction false} ChunksDecide(s: seq<byte>, t: seq<byte>)
    requires |s| == |t| && forall k :: 0 <= k < Pages(|s|) ==> Chunk(s, k) == Chunk(t, k)
    ensures s == t
  {
    forall i | 0 <= i < |s|
      ensures s[i] == t[i]
    {
      var k := i / PAGE_SIZE;
      assert Chunk(s, k)[i % PAGE_SIZE] == s[i];
    }
  }

  /** What was written to erased places is read back. */
  lemma WrittenIsRead(cells: seq<seq<byte>>, before: seq<seq<byte>>, bad: seq<bool>, start: nat,
          data: seq<byte>, buf: seq<byte>)
    requires Room(bad, start, |data|) && Shaped(cells, |bad|) && Shaped(before, |bad|) && |buf| == |data|
    requires forall k :: 0 <= k < Pages(|data|) ==> Fits(bad, start, k) && ErasedPage(before[PageOf(bad, start, k)])
    requires Stored(cells, before, bad, start, data, Pages(|data|)) && Loaded(cells, bad, start, buf, Pages(|buf|))
    ensures buf == data
  {
    hide Programmed, Chunk, PageOf, ErasedPage;
    forall k | 0 <= k < Pages(|data|)
      ensures Chunk(buf, k) == Chunk(data, k)
    {
      assert Placed(cells, before, bad, start, data, k) && Held(cells, bad, start, buf, k);
      ProgramErased(before[PageOf(bad, start, k)], Chunk(data, k));
      ChunkLength(buf, data, k);
    }
    ChunksDecide(buf, data);
  }

  lemma ChunkLength(s: seq<byte>, t: seq<byte>, k: nat)
    requires |s| == |t| && k < Pages(|s|)
    ensures |Chunk(s, k)| == |Chunk(t, k)|
  {
  }

  /** Storing an image the way the boot loader does, one block more than it needs erased, and loading
      it again returns it, whichever blocks fail to erase; the failed blocks are marked. */
  method StoreAndLoad(f: Flash, startAddr: nat, data: seq<byte>) returns (buf: seq<byte>)
    requires f.Valid() && startAddr % BLOCK_SIZE == 0 && startAddr / BLOCK_SIZE <= f.blocks
    requires EndBlock(Faults(f), startAddr / BLOCK_SIZE, |data| / BLOCK_SIZE + 1) <= f.blocks
    modifies f`cells
    ensures f.Valid() && buf == data
    ensures var b0 := startAddr / BLOCK_SIZE;
      forall b :: b0 <= b < EndBlock(Faults(f), b0, |data| / BLOCK_SIZE + 1) ==> Marked(f.cells, b) == (b in f.fails)
  {
    hide Faults, EndBlock, Tried, Stored, Loaded, Room, Markers, PageOf, Shaped, ErasedPage, Attempted;
    ghost var b0, n, before := startAddr / BLOCK_SIZE, |data| / BLOCK_SIZE + 1, f.cells;
    var eraseSize := (|data| / BLOCK_SIZE + 1) * BLOCK_SIZE;
    assert eraseSize / BLOCK_SIZE == n;
    var ret := Erase(f, startAddr, eraseSize);
    ghost var erased, bad := f.cells, Markers(f.cells, f.blocks);
    ErasedPlaces(f, before, b0, n, |data|);
    MarkersTell(f, before, b0, EndBlock(Faults(f), b0, n));
    assert startAddr / PAGE_SIZE == BLOCK_PAGES * b0;
    ret := Write(f, startAddr, |data|, data);
    ret, buf := Read(f, startAddr, |data|);
    WrittenIsRead(f.cells, erased, bad, startAddr / PAGE_SIZE, data, buf);
    MarkersSame(erased, f.cells, f.blocks);
  }

  lemma ErasedPlaces(f: Flash, before: seq<seq<byte>>, b0: nat, n: nat, size: nat)
    requires f.Valid() && Shaped(before, f.blocks) && b0 <= f.blocks && n == size / BLOCK_SIZE + 1
    requires EndBlock(Faults(f), b0, n) <= f.blocks && Tried(f, f.cells, before, b0, EndBlock(Faults(f), b0, n))
    ensures var bad := Markers(f.cells, f.blocks); var start := BLOCK_PAGES * b0;
      && Room(bad, start, size)
      && forall k :: 0 <= k < Pages(size) ==> Fits(bad, start, k) && ErasedPage(f.cells[PageOf(bad, start, k)])
  {
    hide Faults, EndBlock, Tried, Markers, PageOf, ErasedPage, Shaped;
    forall k | 0 <= k < Pages(size)
      ensures Fits(Markers(f.cells, f.blocks), BLOCK_PAGES * b0, k)
      ensures PageOf(Markers(f.cells, f.blocks), BLOCK_PAGES * b0, k) < |f.cells|
      ensures ErasedPage(f.cells[PageOf(Markers(f.cells, f.blocks), BLOCK_PAGES * b0, k)])
    {
      ErasedPlace(f, before, b0, n, k);
      DeviceSize(f);
    }
  }

  lemma MarkersTell(f: Flash, before: seq<seq<byte>>, b0: nat, end: nat)
    requires f.Valid() && Shaped(before, f.blocks) && end <= f.blocks && Tried(f, f.cells, before, b0, end)
    ensures forall b :: b0 <= b < end ==> Marked(f.cells, b) == (b in f.fails)
  {
    forall b | b0 <= b < end
      ensures Marked(f.cells, b) == (b in f.fails)
    {
      MarkerTells(f, b);
    }
  }

  lemma MarkersSame(cells: seq<seq<byte>>, cells': seq<seq<byte>>, blocks: nat)
    requires Shaped(cells, blocks) && Shaped(cells', blocks) && Markers(cells, blocks) == Markers(cells', blocks)
    ensures forall b :: 0 <= b < blocks ==> Marked(cells, b) == Marked(cells', b)
  {
    forall b | 0 <= b < blocks
      ensures Marked(cells, b) == Marked(cells', b)
    {
      assert Markers(cells, blocks)[b] == Markers(cells', blocks)[b];
    }
  }
}
