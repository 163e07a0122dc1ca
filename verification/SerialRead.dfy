/** The receive ring of the GPIO serial driver as a state machine: the sampling interrupt stores octets
    while gstty_read empties the ring one memory access at a time. */
module SerialRead {
  import opened Arithmetic
  import opened Bytes
  import opened Rings
  import opened SerialTx

  /** Where gstty_read is: outside, between its two reads of the ring, or copying octets of the first of
      two segments or of the last one; user is what it has put into the caller's buffer. */
  datatype Reader =
    | Outside
    | Counted(count: nat, size: int)
    | Front(len: nat, toEnd: nat, user: seq<byte>)
    | Back(len: nat, toEnd: nat, user: seq<byte>)
    | Returned(user: seq<byte>)

  /** The ring, the reader, and two histories: the octets stored and the octets whose tail update has
      happened. */
  datatype RxState = RxState(buf: seq<byte>, head: nat, tail: nat, reader: Reader, stored: seq<byte>, taken: seq<byte>)

  /** A call of gstty_read, one step of it, or a complete octet from the sampling interrupt. */
  datatype RxAction = Read(count: nat) | ReaderStep | Octet(ch: byte)

  function Held(s: RxState): int { Cnt(s.head, s.tail, CIRC_BUF_SIZE) }

  ghost predicate RxRingOk(s: RxState) {
    && |s.buf| == CIRC_BUF_SIZE && s.head < CIRC_BUF_SIZE && s.tail < CIRC_BUF_SIZE
    && 0 <= Held(s) < CIRC_BUF_SIZE && s.stored == s.taken + Stored(s.buf, s.tail, Held(s))
  }

  /** What gstty_read has measured and copied is still right, whatever has arrived since. */
  ghost predicate ReaderOk(s: RxState)
    requires RxRingOk(s)
  {
    match s.reader
    case Outside => true
    case Counted(count, size) => 0 < count && 0 <= size <= Held(s)
    case Front(len, toEnd, user) =>
      && |user| <= toEnd < len <= Held(s) && s.tail + toEnd == CIRC_BUF_SIZE
      && user == Stored(s.buf, s.tail, Held(s))[..|user|]
    case Back(len, toEnd, user) =>
      && toEnd <= |user| <= len && len - toEnd <= Held(s) && s.tail + (len - toEnd) <= CIRC_BUF_SIZE
      && EndsWith(s.taken, user[..toEnd]) && user[toEnd..] == Stored(s.buf, s.tail, Held(s))[..|user| - toEnd]
    case Returned(user) => EndsWith(s.taken, user)
  }

  ghost predicate RxInv(s: RxState) { RxRingOk(s) && ReaderOk(s) }

  /** The end of rxdtc_interrupt_handler: an octet is stored unless the ring is full. */
  function Store(s: RxState, ch: byte): RxState
    requires s.head < |s.buf|
  {
    if Space(s.head, s.tail, CIRC_BUF_SIZE) >= 1 then
      s.(buf := s.buf[s.head := ch], head := (s.head + 1) % CIRC_BUF_SIZE, stored := s.stored + [ch])
    else s
  }

  /** A tail update over k octets. */
  ghost function Release(s: RxState, k: nat): RxState
    requires RxRingOk(s) && k <= Held(s)
  {
    s.(tail := (s.tail + k) % CIRC_BUF_SIZE, taken := s.taken + Stored(s.buf, s.tail, Held(s))[..k])
  }

  ghost function ReaderNext(s: RxState): RxState
    requires RxInv(s)
  {
    match s.reader
    case Outside => s
    case Counted(count, size) =>
      if size < 1 then s.(reader := Returned([]))
      else
        var len := if size <= count then size else count;
        var toEnd := CntToEnd(s.head, s.tail, CIRC_BUF_SIZE);
        Macros(s.head, s.tail, CIRC_BUF_SIZE);
        if len > toEnd then s.(reader := Front(len, toEnd, [])) else s.(reader := Back(len, 0, []))
    case Front(len, toEnd, user) =>
      if |user| < toEnd then s.(reader := Front(len, toEnd, user + [s.buf[s.tail + |user|]]))
      else Release(s, toEnd).(reader := Back(len, toEnd, user))
    case Back(len, toEnd, user) =>
      if |user| < len then s.(reader := Back(len, toEnd, user + [s.buf[s.tail + (|user| - toEnd)]]))
      else Release(s, len - toEnd).(reader := Returned(user))
    case Returned(user) => s.(reader := Outside)
  }

  ghost function RxNext(s: RxState, a: RxAction): RxState
    requires RxInv(s)
  {
    match a
    case Read(count) =>
      if s.reader.Outside? && 0 < count then
        s.(reader := Counted(count, Cnt(s.head, s.tail, CIRC_BUF_SIZE)))
      else s
    case ReaderStep => ReaderNext(s)
    case Octet(ch) => Store(s, ch)
  }

  // ---- every step keeps the invariant ----

  /** Storing an octet appends it to the contents, which stay. */
  lemma StoreKeepsInv(s: RxState, ch: byte)
    requires RxInv(s)
    ensures RxInv(Store(s, ch))
  {
    hide Cnt, Space, Stored, Slot, Written;
    var t := Store(s, ch);
    HeadSlot(s.head, s.tail, CIRC_BUF_SIZE);
    if Space(s.head, s.tail, CIRC_BUF_SIZE) >= 1 {
      HeadMoves(s.head, s.tail, 1, CIRC_BUF_SIZE);
      assert t.buf == s.buf[..s.head] + [ch] + s.buf[s.head + 1..];
      WriteBehind(s.buf, t.buf, s.tail, Held(s), s.head, [ch]);
      StoredAppend(t.buf, s.tail, Held(s), [ch]);
      assert t.stored == s.taken + (Stored(s.buf, s.tail, Held(s)) + [ch]);
    }
  }

  lemma TailBy(head: nat, tail: nat, k: nat, n: nat)
    requires head < n && tail < n && k <= Cnt(head, tail, n)
    ensures k <= n && (tail + k) % n == Slot(tail, k, n) && Cnt(head, (tail + k) % n, n) == Cnt(head, tail, n) - k
  {
    hide Cnt;
    Macros(head, tail, n);
    SlotIs(tail, k, n);
    Macros(head, (tail + k) % n, n);
  }

  /** A tail update hands the oldest octets over. */
  lemma ReleaseKeepsRing(s: RxState, k: nat)
    requires RxRingOk(s) && k <= Held(s)
    ensures var t := Release(s, k);
      RxRingOk(t) && Held(t) == Held(s) - k && Stored(t.buf, t.tail, Held(t)) == Stored(s.buf, s.tail, Held(s))[k..]
  {
    hide Cnt, Stored, Slot;
    TailBy(s.head, s.tail, k, CIRC_BUF_SIZE);
    StoredDrop(s.buf, s.tail, Held(s), k);
    var all := Stored(s.buf, s.tail, Held(s));
    assert s.taken + all == (s.taken + all[..k]) + all[k..];
  }

  /** The octet at tail + k, before the end of the buffer, is the k-th of the contents. */
  lemma NextOctet(s: RxState, k: nat)
    requires RxRingOk(s) && k < Held(s) && s.tail + k < CIRC_BUF_SIZE
    ensures s.buf[s.tail + k] == Stored(s.buf, s.tail, Held(s))[k]
  {
    assert Slot(s.tail, k, CIRC_BUF_SIZE) == s.tail + k;
  }

  lemma ReaderKeepsInv(s: RxState)
    requires RxInv(s)
    ensures RxInv(ReaderNext(s))
  {
    hide Cnt, CntToEnd, Stored;
    match s.reader
    case Outside =>
    case Counted(count, size) =>
      Macros(s.head, s.tail, CIRC_BUF_SIZE);
      assert s.taken[|s.taken|..] == [];
    case Front(len, toEnd, user) =>
      if |user| < toEnd {
        NextOctet(s, |user|);
      } else {
        FrontDone(s);
      }
    case Back(len, toEnd, user) =>
      if |user| < len {
        BackCopied(s);
      } else {
        BackDone(s);
      }
    case Returned(user) =>
  }

  lemma FrontDone(s: RxState)
    requires RxInv(s) && s.reader.Front? && |s.reader.user| == s.reader.toEnd
    ensures RxInv(ReaderNext(s))
  {
    hide Cnt, CntToEnd, Stored;
    var toEnd, user := s.reader.toEnd, s.reader.user;
    ReleaseKeepsRing(s, toEnd);
    Macros(s.head, s.tail, CIRC_BUF_SIZE);
    assert user[..toEnd] == user && user[toEnd..] == [];
    assert EndsWith(s.taken + user, user);
  }

  lemma BackCopied(s: RxState)
    requires RxInv(s) && s.reader.Back? && |s.reader.user| < s.reader.len
    ensures RxInv(ReaderNext(s))
  {
    hide Cnt, CntToEnd, Stored;
    var toEnd, user := s.reader.toEnd, s.reader.user;
    NextOctet(s, |user| - toEnd);
    var more := user + [s.buf[s.tail + (|user| - toEnd)]];
    assert more[..toEnd] == user[..toEnd] && more[toEnd..] == user[toEnd..] + [s.buf[s.tail + (|user| - toEnd)]];
  }

  lemma BackDone(s: RxState)
    requires RxInv(s) && s.reader.Back? && |s.reader.user| == s.reader.len
    ensures RxInv(ReaderNext(s))
  {
    hide Cnt, CntToEnd, Stored;
    var toEnd, user := s.reader.toEnd, s.reader.user;
    ReleaseKeepsRing(s, |user| - toEnd);
    EndsWithBoth(s.taken, user[..toEnd], user[toEnd..]);
    assert user == user[..toEnd] + user[toEnd..];
  }

  lemma EndsWithBoth(s: seq<byte>, t: seq<byte>, u: seq<byte>)
    requires EndsWith(s, t)
    ensures EndsWith(s + u, t + u)
  {
    var k := |s| - |t|;
    assert (s + u)[k..] == s[k..] + u;
  }

  lemma RxNextKeepsInv(s: RxState, a: RxAction)
    requires RxInv(s)
    ensures RxInv(RxNext(s, a))
  {
    hide Cnt, Stored, Store, ReaderNext;
    match a
    case Read(count) =>
    case ReaderStep => ReaderKeepsInv(s);
    case Octet(ch) => StoreKeepsInv(s, ch);
  }

  ghost function RxRun(s: RxState, actions: seq<RxAction>): (t: RxState)
    requires RxInv(s)
    ensures RxInv(t)
    decreases |actions|
  {
    if actions == [] then s
    else
      RxNextKeepsInv(s, actions[0]);
      RxRun(RxNext(s, actions[0]), actions[1..])
  }

  /** An empty ring nobody reads. */
  ghost predicate RxInit(s: RxState) {
    |s.buf| == CIRC_BUF_SIZE && s.head == 0 && s.tail == 0 && s.reader == Outside && s.stored == [] && s.taken == []
  }

  /** In every interleaving of reads and arriving octets, the octets handed over and those still in the
      ring are the octets stored, each once and in order, and a read that returns has put the last
      octets handed over into the caller's buffer. */
  lemma ReadOnceInOrder(s: RxState, actions: seq<RxAction>)
    requires RxInit(s)
    ensures RxInv(s)
    ensures var t := RxRun(s, actions);
      && RxRingOk(t) && t.stored == t.taken + Stored(t.buf, t.tail, Held(t))
      && (t.reader.Returned? ==> EndsWith(t.taken, t.reader.user))
  {
    assert Stored(s.buf, 0, 0) == [];
    var t := RxRun(s, actions);
    assert RxInv(t);
  }

  // ---- what a read takes ----

  /** A read of len octets that started when n were taken is where it should be. */
  ghost predicate Reading(s: RxState, n: nat, len: int) {
    match s.reader
    case Outside => |s.taken| == n + len
    case Counted(count, size) => len == Min(count, size) && |s.taken| == n
    case Front(l, toEnd, user) => l == len && |s.taken| == n
    case Back(l, toEnd, user) => l == len && |s.taken| == n + toEnd
    case Returned(user) => |user| == len && |s.taken| == n + len
  }

  lemma ReadingGoesOn(s: RxState, a: RxAction, n: nat, len: int)
    requires RxInv(s) && Reading(s, n, len) && !a.Read?
    ensures Reading(RxNext(s, a), n, len) && s.stored <= RxNext(s, a).stored
  {
    hide Cnt, Space, CntToEnd, Stored;
  }

  lemma {:induction false} ReadingRuns(s: RxState, actions: seq<RxAction>, n: nat, len: int)
    requires RxInv(s) && Reading(s, n, len) && forall a :: a in actions ==> !a.Read?
    ensures Reading(RxRun(s, actions), n, len) && s.stored <= RxRun(s, actions).stored
    decreases |actions|
  {
    hide RxInv, Reading, RxNext;
    if actions != [] {
      RxNextKeepsInv(s, actions[0]);
      ReadingGoesOn(s, actions[0], n, len);
      ReadingRuns(RxNext(s, actions[0]), actions[1..], n, len);
    }
  }

  /** The accesses the reader has left before it is back at its caller. */
  function ReadingLeft(r: Reader): int {
    match r
    case Outside => 0
    case Counted(count, size) => count + 4
    case Front(len, toEnd, user) => len - |user| + 3
    case Back(len, toEnd, user) => len - |user| + 2
    case Returned(user) => 1
  }

  lemma ReadingGoesDown(s: RxState, a: RxAction)
    requires RxInv(s) && !a.Read?
    ensures 0 <= ReadingLeft(s.reader) && (ReadingLeft(s.reader) == 0 <==> s.reader.Outside?)
    ensures ReadingLeft(RxNext(s, a).reader) <= ReadingLeft(s.reader)
    ensures a == ReaderStep && !s.reader.Outside? ==> ReadingLeft(RxNext(s, a).reader) < ReadingLeft(s.reader)
  {
    hide Cnt, Space, CntToEnd, Stored;
  }

  /** After count + 4 accesses of its own at most, whatever arrives between them, a read is over. */
  lemma {:induction false} ReadEnds(s: RxState, actions: seq<RxAction>)
    requires RxInv(s) && forall a :: a in actions ==> !a.Read?
    requires ReadingLeft(s.reader) <= multiset(actions)[ReaderStep]
    ensures RxRun(s, actions).reader == Outside
    decreases |actions|
  {
    hide RxInv, RxNext, ReadingLeft;
    if actions == [] {
      ReadingGoesDown(s, ReaderStep);
    } else {
      assert actions == [actions[0]] + actions[1..];
      RxNextKeepsInv(s, actions[0]);
      ReadingGoesDown(s, actions[0]);
      ReadingGoesDown(RxNext(s, actions[0]), ReaderStep);
      ReadEnds(RxNext(s, actions[0]), actions[1..]);
    }
  }

  /** A read takes as many octets as there are when it is called, or as many as it asks for: whatever
      arrives between its steps, it returns that many, the oldest ones, and they leave the ring. */
  lemma ReadTakes(s: RxState, count: nat, actions: seq<RxAction>)
    requires RxInv(s) && s.reader == Outside && 0 < count && forall a :: a in actions ==> !a.Read?
    ensures var held := Cnt(s.head, s.tail, 4096);
      var len := if held <= count then held else count;
      var t := RxRun(s, [Read(count)] + actions);
      && 0 <= len <= held == |s.stored| - |s.taken| && s.taken <= s.stored
      && (t.reader.Returned? ==> t.reader.user == s.stored[|s.taken|..|s.taken| + len])
      && (t.reader.Returned? || t.reader.Outside? ==> t.taken == s.stored[..|s.taken| + len])
  {
    hide Cnt, Stored;
    var all := [Read(count)] + actions;
    assert all[0] == Read(count) && all[1..] == actions;
    RxNextKeepsInv(s, Read(count));
    var n, len := |s.taken|, Min(count, Held(s));
    ReadingRuns(RxNext(s, Read(count)), actions, n, len);
    var t := RxRun(s, all);
    TakenIsOldest(s, t, len);
  }

  lemma TakenIsOldest(s: RxState, t: RxState, len: nat)
    requires RxInv(s) && RxInv(t) && s.stored <= t.stored && |s.taken| + len <= |s.stored|
    requires Reading(t, |s.taken|, len)
    ensures t.reader.Returned? ==> t.reader.user == s.stored[|s.taken|..|s.taken| + len]
    ensures t.reader.Returned? || t.reader.Outside? ==> t.taken == s.stored[..|s.taken| + len]
  {
    hide Cnt, Stored;
    if t.reader.Returned? || t.reader.Outside? {
      assert t.taken == t.stored[..|t.taken|];
    }
  }
}
