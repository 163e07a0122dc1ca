/** The whole driver with its line looped back: writer, transmit ring, line, receiver, receive ring and
    reader, every part at its own pace. */
module SerialLink {
  import opened Bytes
  import opened Rings
  import opened SerialTx
  import opened SerialRx
  import opened SerialRead

  /** Both sides, the octets that calls of gstty_write have taken over, and whether an octet was
      complete while the receive ring was full. */
  datatype Link = Link(tx: State, rx: RxState, written: seq<byte>, overrun: bool)

  /** A step of the transmit side, a call of gstty_read, or one step of it. */
  datatype LinkAction = Transmit(a: Action) | ReadCall(count: nat) | ReadOn

  // ---- what a step of the transmitter lets the receiver hear ----

  /** A step of the transmit side sends at most more. */
  lemma SentGrows(s: State, a: Action)
    requires Inv(s)
    ensures Inv(Next(s, a)) && 0 <= Sent(s) <= Sent(Next(s, a)) <= |Next(s, a).published|
    ensures s.published[..Sent(s)] == Next(s, a).published[..Sent(s)]
  {
    hide Wave, Frame, Stored, Cnt, Space, WriterNext, Tick, LineOk, WriterOk;
    NextKeepsInv(s, a);
    RingHolds(Next(s, a));
    match a
    case Write(data) =>
    case WriterStep => WriterSendsNothing(s);
    case Signal =>
    case TxTick => TickKeepsRing(s);
  }

  lemma RingHolds(s: State)
    requires RingOk(s)
    ensures 0 <= Sent(s) <= |s.published|
  {
    hide Cnt, Stored;
    Macros(s.head, s.tail, CIRC_BUF_SIZE);
  }

  lemma WriterSendsNothing(s: State)
    requires Inv(s)
    ensures Sent(WriterNext(s)) == Sent(s) <= |s.published| && s.published <= WriterNext(s).published
  {
    hide Wave, Frame, Stored, Cnt, Space, SpaceToEnd, LineOk;
    RingHolds(s);
    Macros(s.head, s.tail, CIRC_BUF_SIZE);
    match s.writer
    case Idle =>
    case Sized(data, size) =>
    case First(data, len, toEnd, copied) =>
      if copied == toEnd {
        PublishKeepsRing(s, data[..toEnd]);
      }
    case Second(data, len, toEnd, copied) =>
      if toEnd + copied == len {
        PublishKeepsRing(s, data[toEnd..len]);
      }
    case Waiting(data, len) =>
  }

  /** The octets that become complete with a step. */
  ghost function Arriving(s: State, a: Action, h: nat, late: nat -> nat): seq<byte>
    requires Inv(s) && Prompt(late, h)
  {
    SentGrows(s, a);
    HeardIsSent(s, h, late);
    HeardIsSent(Next(s, a), h, late);
    Heard(Next(s, a).line, h, late)[|Heard(s.line, h, late)|..]
  }

  /** The receiver never takes back what it has heard. */
  lemma HeardGrows(s: State, a: Action, h: nat, late: nat -> nat)
    requires Inv(s) && Prompt(late, h)
    ensures Inv(Next(s, a)) && 0 < h
    ensures Heard(Next(s, a).line, h, late) == Heard(s.line, h, late) + Arriving(s, a, h, late)
  {
    hide Heard, Next, Stored, Wave, Frame, Cnt;
    SentGrows(s, a);
    HeardIsSent(s, h, late);
    HeardIsSent(Next(s, a), h, late);
    var t := Next(s, a);
    assert t.published[..Sent(t)][..Sent(s)] == s.published[..Sent(s)];
  }

  // ---- arriving octets and the receive ring ----

  /** Whether all octets of s find room. */
  ghost predicate Fits(r: RxState, s: seq<byte>)
    requires r.head < |r.buf| == CIRC_BUF_SIZE
    decreases |s|
  {
    s == [] || (Space(r.head, r.tail, CIRC_BUF_SIZE) >= 1 && Fits(Store(r, s[0]), s[1..]))
  }

  /** rxdtc_interrupt_handler for each octet of s. */
  ghost function StoreAll(r: RxState, s: seq<byte>): (t: RxState)
    requires RxInv(r)
    ensures RxInv(t)
    decreases |s|
  {
    if s == [] then r
    else
      StoreKeepsInv(r, s[0]);
      StoreAll(Store(r, s[0]), s[1..])
  }

  /** What finds room is stored, and only that. */
  lemma {:induction false} StoredIfFits(r: RxState, s: seq<byte>)
    requires RxInv(r)
    ensures |StoreAll(r, s).stored| <= |r.stored| + |s|
    ensures Fits(r, s) ==> StoreAll(r, s).stored == r.stored + s
    ensures !Fits(r, s) ==> |StoreAll(r, s).stored| < |r.stored| + |s|
    decreases |s|
  {
    hide Space, Stored, Cnt, ReaderOk;
    if s != [] {
      StoreKeepsInv(r, s[0]);
      StoredIfFits(Store(r, s[0]), s[1..]);
      assert (r.stored + [s[0]]) + s[1..] == r.stored + s;
    } else {
      assert r.stored + s == r.stored;
    }
  }

  // ---- whole runs ----

  /** What is stored is what has been sent, unless the receive ring has overrun. */
  ghost predicate LinkInv(l: Link, h: nat, late: nat -> nat) {
    && 0 < h && Inv(l.tx) && RxInv(l.rx) && l.written == l.tx.published + Outstanding(l.tx)
    && if l.overrun then |l.rx.stored| < |Heard(l.tx.line, h, late)|
       else l.rx.stored == Heard(l.tx.line, h, late)
  }

  ghost function LinkNext(l: Link, a: LinkAction, h: nat, late: nat -> nat): Link
    requires LinkInv(l, h, late) && Prompt(late, h)
  {
    match a
    case Transmit(x) =>
      var more := Arriving(l.tx, x, h, late);
      Link(Next(l.tx, x), StoreAll(l.rx, more), l.written + Taken(l.tx, x), l.overrun || !Fits(l.rx, more))
    case ReadCall(count) => l.(rx := RxNext(l.rx, Read(count)))
    case ReadOn => l.(rx := RxNext(l.rx, ReaderStep))
  }

  lemma LinkKeepsInv(l: Link, a: LinkAction, h: nat, late: nat -> nat)
    requires LinkInv(l, h, late) && Prompt(late, h)
    ensures LinkInv(LinkNext(l, a, h, late), h, late)
  {
    hide Heard, Inv, RxInv, Next, RxNext, Arriving, Fits, StoreAll, Taken, Outstanding;
    match a
    case Transmit(x) =>
      NothingLost(l.tx, x);
      HeardGrows(l.tx, x, h, late);
      StoredIfFits(l.rx, Arriving(l.tx, x, h, late));
    case ReadCall(count) => ReadingStoresNothing(l.rx, Read(count));
    case ReadOn => ReadingStoresNothing(l.rx, ReaderStep);
  }

  lemma ReadingStoresNothing(r: RxState, a: RxAction)
    requires RxInv(r) && !a.Octet?
    ensures RxInv(RxNext(r, a)) && RxNext(r, a).stored == r.stored
  {
    hide Cnt, Stored, CntToEnd;
    RxNextKeepsInv(r, a);
  }

  ghost function LinkRun(l: Link, actions: seq<LinkAction>, h: nat, late: nat -> nat): (t: Link)
    requires LinkInv(l, h, late) && Prompt(late, h)
    ensures LinkInv(t, h, late)
    decreases |actions|
  {
    if actions == [] then l
    else
      LinkKeepsInv(l, actions[0], h, late);
      LinkRun(LinkNext(l, actions[0], h, late), actions[1..], h, late)
  }

  lemma LinkStarts(s: State, r: RxState, h: nat, late: nat -> nat)
    requires Init(s) && RxInit(r) && Prompt(late, h)
    ensures LinkInv(Link(s, r, [], false), h, late)
  {
    hide Heard;
    InitInv(s);
    HeardIsSent(s, h, late);
    assert Stored(r.buf, 0, 0) == [];
  }

  /** End to end: whatever is written and read in whatever interleaving, the octets that gstty_read has
      handed over, those in the receive ring and those in the transmit ring are the octets published so
      far, each once and in order, exactly as long as the receive ring has never been full when an
      octet was complete.  Published are the octets that the calls of gstty_write have taken over, all of
      them when no call is copying; and a read that returns holds the last octets handed over. */
  lemma EndToEnd(s: State, r: RxState, actions: seq<LinkAction>, h: nat, late: nat -> nat)
    requires Init(s) && RxInit(r) && Prompt(late, h)
    ensures LinkInv(Link(s, r, [], false), h, late)
    ensures var t := LinkRun(Link(s, r, [], false), actions, h, late);
      && RingOk(t.tx) && RxRingOk(t.rx)
      && (!t.overrun <==> t.tx.published == t.rx.taken + Stored(t.rx.buf, t.rx.tail, Held(t.rx))
                                            + Stored(t.tx.buf, t.tx.tail, InRing(t.tx)))
      && t.tx.published <= t.written
      && (t.tx.writer.Idle? || t.tx.writer.Waiting? ==> t.tx.published == t.written)
      && (t.rx.reader.Returned? ==> EndsWith(t.rx.taken, t.rx.reader.user))
  {
    hide Heard, Stored, Cnt, LinkRun, LineOk, WriterOk, Outstanding;
    LinkStarts(s, r, h, late);
    var t := LinkRun(Link(s, r, [], false), actions, h, late);
    HeardIsSent(t.tx, h, late);
    RingHolds(t.tx);
    NoneOutstanding(t.tx);
    Extends(t.tx.published, Outstanding(t.tx));
    assert t.tx.published == t.tx.published[..Sent(t.tx)] + t.tx.published[Sent(t.tx)..];
    if t.overrun {
      assert |t.rx.stored| < Sent(t.tx);
    }
  }
}
