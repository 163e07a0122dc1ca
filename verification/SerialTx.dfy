/** The transmit side of the GPIO serial driver as a state machine: gstty_write fills the ring one
    memory access at a time, and the bit-clock interrupt may strike between any two of them. */
module SerialTx {
  import opened Arithmetic
  import opened Bytes
  import opened Rings

  const CIRC_BUF_SIZE: nat := 4096
  const START_BIT: nat := 0
  const STOP_BIT: nat := 9

  /** Where gstty_write is: outside, between its two reads of the ring, copying octets of the first
      of two segments, copying octets of the last segment, or waiting for the ring to drain. */
  datatype Writer =
    | Idle
    | Sized(data: seq<byte>, size: int)
    | First(data: seq<byte>, len: nat, toEnd: nat, copied: nat)
    | Second(data: seq<byte>, len: nat, toEnd: nat, copied: nat)
    | Waiting(data: seq<byte>, len: nat)

  /** The ring, the statics of the interrupt handler, the level of the pin, the writer, and the
      history: the level after every clock tick, the octets whose head update has happened, and the
      idle ticks in front of each frame. */
  datatype State = State(
    buf: seq<byte>, head: nat, tail: nat,
    cycle: nat, bits: seq<int>, inByte: bool, pin: int,
    writer: Writer,
    line: seq<int>, published: seq<byte>, gaps: seq<nat>, gap: nat)

  /** A call of gstty_write, one step of it, a signal, or a tick of the bit clock. */
  datatype Action = Write(input: seq<byte>) | WriterStep | Signal | TxTick

  // ---- frames ----

  /** Bit j of an octet. */
  function DataBit(b: byte, j: nat): int { (b / Pow(2, j)) % 2 }

  /** Start bit, eight data bits from the lowest on, stop bit. */
  function Frame(b: byte): (f: seq<int>)
    ensures |f| == 10 && f[0] == 0 && f[9] == 1
    ensures forall j :: 0 <= j < 8 ==> f[j + 1] == DataBit(b, j)
  {
    [0] + seq(8, j requires 0 <= j < 8 => DataBit(b, j)) + [1]
  }

  /** A frame of ten levels carries its octet with the lowest bit first. */
  lemma FrameIs(b: byte)
    ensures var f := Frame(b);
      && |f| == 10 && f[0] == 0 && f[9] == 1 && (forall j :: 1 <= j <= 8 ==> f[j] == 0 || f[j] == 1)
      && b == f[1] + 2 * f[2] + 4 * f[3] + 8 * f[4] + 16 * f[5] + 32 * f[6] + 64 * f[7] + 128 * f[8]
  {
    LowBits(b);
    HighBits(b);
    Binary(b);
    hide DataBit;
    var f := Frame(b);
    assert f[1] == DataBit(b, 0) && f[2] == DataBit(b, 1) && f[3] == DataBit(b, 2) && f[4] == DataBit(b, 3);
    assert f[5] == DataBit(b, 4) && f[6] == DataBit(b, 5) && f[7] == DataBit(b, 6) && f[8] == DataBit(b, 7);
  }

  lemma LowBits(b: byte)
    ensures DataBit(b, 0) == b % 2 && DataBit(b, 1) == (b / 2) % 2
    ensures DataBit(b, 2) == (b / 4) % 2 && DataBit(b, 3) == (b / 8) % 2
  {
    assert Pow(2, 0) == 1 && Pow(2, 1) == 2 && Pow(2, 2) == 4 && Pow(2, 3) == 8;
    hide Pow;
  }

  lemma HighBits(b: byte)
    ensures DataBit(b, 4) == (b / 16) % 2 && DataBit(b, 5) == (b / 32) % 2
    ensures DataBit(b, 6) == (b / 64) % 2 && DataBit(b, 7) == (b / 128) % 2
  {
    assert Pow(2, 4) == 16 && Pow(2, 5) == 32 && Pow(2, 6) == 64 && Pow(2, 7) == 128;
    hide Pow;
  }

  lemma Binary(b: byte)
    ensures b == b % 2 + 2 * ((b / 2) % 2) + 4 * ((b / 4) % 2) + 8 * ((b / 8) % 2) +
                 16 * ((b / 16) % 2) + 32 * ((b / 32) % 2) + 64 * ((b / 64) % 2) + 128 * ((b / 128) % 2)
  {
    Halves(b, 1);
    Halves(b, 2);
    Halves(b, 4);
    Halves(b, 8);
    Halves(b, 16);
    Halves(b, 32);
    Halves(b, 64);
    Halves(b, 128);
  }

  lemma Halves(b: nat, w: nat)
    requires 0 < w
    ensures b / w == (b / w) % 2 + 2 * (b / (w * 2))
  {
    DivDiv(b, w, 2);
  }

  function Idling(n: nat): (s: seq<int>)
    ensures |s| == n && forall i :: 0 <= i < n ==> s[i] == 1
  {
    seq(n, _ => 1)
  }

  /** The line with the frames of bytes on it, each behind its idle ticks. */
  function Wave(gaps: seq<nat>, bytes: seq<byte>): seq<int>
    requires |gaps| == |bytes|
  {
    if |bytes| == 0 then []
    else
      var n := |bytes| - 1;
      Wave(gaps[..n], bytes[..n]) + Idling(gaps[n]) + Frame(bytes[n])
  }

  // ---- what every reachable state satisfies ----

  function InRing(s: State): int { Cnt(s.head, s.tail, CIRC_BUF_SIZE) }

  /** How many octets have been sent completely. */
  function Sent(s: State): int { |s.published| - InRing(s) }

  /** The octets in the ring are the published ones that are not sent yet. */
  ghost predicate RingOk(s: State) {
    && |s.buf| == CIRC_BUF_SIZE && s.head < CIRC_BUF_SIZE && s.tail < CIRC_BUF_SIZE
    && 0 <= Sent(s) && Stored(s.buf, s.tail, InRing(s)) == s.published[Sent(s)..]
  }

  /** The line carries the sent octets, each once and in order, and what has been sent of the next. */
  ghost predicate LineOk(s: State)
    requires RingOk(s)
  {
    && |s.gaps| == Sent(s) && (forall k :: 0 <= k < |s.gaps| ==> 1 <= s.gaps[k])
    && if s.inByte then
         && 0 < InRing(s) && s.cycle <= STOP_BIT && s.bits == Frame(s.published[Sent(s)]) && 1 <= s.gap
         && s.line == Wave(s.gaps, s.published[..Sent(s)]) + Idling(s.gap) + s.bits[..s.cycle]
       else
         s.pin == 1 && s.line == Wave(s.gaps, s.published[..Sent(s)]) + Idling(s.gap)
  }

  ghost predicate EndsWith(s: seq<byte>, t: seq<byte>) {
    |t| <= |s| && s[|s| - |t|..] == t
  }

  /** What gstty_write has measured and copied is still right, wherever the tail has moved since. */
  ghost predicate WriterOk(s: State)
    requires RingOk(s)
  {
    match s.writer
    case Idle => true
    case Sized(data, size) => 0 < |data| && 0 <= size <= Space(s.head, s.tail, CIRC_BUF_SIZE)
    case First(data, len, toEnd, copied) =>
      && copied <= toEnd < len <= |data| && s.head + toEnd == CIRC_BUF_SIZE
      && len <= Space(s.head, s.tail, CIRC_BUF_SIZE)
      && s.buf[s.head..s.head + copied] == data[..copied]
    case Second(data, len, toEnd, copied) =>
      && toEnd + copied <= len <= |data| && s.head + (len - toEnd) <= CIRC_BUF_SIZE
      && len - toEnd <= Space(s.head, s.tail, CIRC_BUF_SIZE)
      && s.buf[s.head..s.head + copied] == data[toEnd..toEnd + copied]
      && EndsWith(s.published, data[..toEnd])
    case Waiting(data, len) => len <= |data| && EndsWith(s.published, data[..len])
  }

  ghost predicate Inv(s: State) {
    RingOk(s) && LineOk(s) && WriterOk(s)
  }

  // ---- the bit clock interrupt ----

  /** txdtc_interrupt_handler */
  function Tick(s: State): State
    requires |s.buf| == CIRC_BUF_SIZE && s.tail < CIRC_BUF_SIZE && (s.inByte ==> s.cycle < |s.bits|)
  {
    if s.inByte then
      var pin := s.bits[s.cycle];
      if s.cycle == STOP_BIT then
        s.(pin := pin, line := s.line + [pin], cycle := s.cycle + 1,
           tail := (s.tail + 1) % CIRC_BUF_SIZE, inByte := false, gaps := s.gaps + [s.gap], gap := 0)
      else
        s.(pin := pin, line := s.line + [pin], cycle := s.cycle + 1)
    else
      var s' := s.(line := s.line + [s.pin], gap := s.gap + 1);
      if InRing(s) > 0 then s'.(bits := Frame(s.buf[s.tail]), inByte := true, cycle := START_BIT)
      else if s.cycle > STOP_BIT then s'.(cycle := 0)
      else s'
  }

  // ---- gstty_write, one access at a time ----

  function Publish(s: State, data: seq<byte>): State {
    s.(head := (s.head + |data|) % CIRC_BUF_SIZE, published := s.published + data)
  }

  ghost function WriterNext(s: State): State
    requires RingOk(s) && WriterOk(s)
  {
    match s.writer
    case Idle => s
    case Sized(data, size) =>
      if size < 1 then s.(writer := Waiting(data, 0))
      else
        var len := if |data| <= size then |data| else size;
        var toEnd := SpaceToEnd(s.head, s.tail, CIRC_BUF_SIZE);
        if len > toEnd then
          Macros(s.head, s.tail, CIRC_BUF_SIZE);
          s.(writer := First(data, len, toEnd, 0))
        else s.(writer := Second(data, len, 0, 0))
    case First(data, len, toEnd, copied) =>
      if copied < toEnd then
        s.(buf := s.buf[s.head + copied := data[copied]], writer := First(data, len, toEnd, copied + 1))
      else
        Publish(s, data[..toEnd]).(writer := Second(data, len, toEnd, 0))
    case Second(data, len, toEnd, copied) =>
      if toEnd + copied < len then
        s.(buf := s.buf[s.head + copied := data[toEnd + copied]], writer := Second(data, len, toEnd, copied + 1))
      else
        Publish(s, data[toEnd..len]).(writer := Waiting(data, len))
    case Waiting(data, len) =>
      if InRing(s) >= 1 then s else s.(writer := Idle)
  }

  ghost function Next(s: State, a: Action): State
    requires Inv(s)
  {
    match a
    case Write(data) =>
      if s.writer.Idle? && 0 < |data| then s.(writer := Sized(data, Space(s.head, s.tail, CIRC_BUF_SIZE))) else s
    case WriterStep => WriterNext(s)
    case Signal => if s.writer.Waiting? then s.(writer := Idle) else s
    case TxTick => Tick(s)
  }

  // ---- every step keeps the invariant ----

  lemma WriteBeyond(s: State, k: nat, v: byte)
    requires RingOk(s) && s.head + k < CIRC_BUF_SIZE && k < Space(s.head, s.tail, CIRC_BUF_SIZE)
    ensures RingOk(s.(buf := s.buf[s.head + k := v]))
  {
    hide Cnt, Space;
    Macros(s.head, s.tail, CIRC_BUF_SIZE);
    var cnt := InRing(s);
    var buf' := s.buf[s.head + k := v];
    forall i | 0 <= i < cnt
      ensures Stored(buf', s.tail, cnt)[i] == Stored(s.buf, s.tail, cnt)[i]
    {
      assert Slot(s.tail, i, CIRC_BUF_SIZE) != s.head + k;
    }
    assert Stored(buf', s.tail, cnt) == Stored(s.buf, s.tail, cnt);
  }

  lemma HeadMoves(head: nat, tail: nat, k: nat, n: nat)
    requires head < n && tail < n && head + k <= n && k <= Space(head, tail, n)
    ensures var h := (head + k) % n;
      0 <= h < n && Cnt(h, tail, n) == Cnt(head, tail, n) + k && Space(h, tail, n) == Space(head, tail, n) - k
  {
    hide Cnt, Space;
    ModIs(head + k, n);
    Macros(head, tail, n);
    Macros((head + k) % n, tail, n);
  }

  lemma BehindHead(buf: seq<byte>, head: nat, tail: nat, cnt: nat, data: seq<byte>)
    requires head < |buf| && tail < |buf| && head + |data| <= |buf| && cnt + |data| < |buf|
    requires head == Slot(tail, cnt, |buf|) && buf[head..head + |data|] == data
    ensures Written(buf, tail, cnt, data)
  {
    forall k | 0 <= k < |data|
      ensures buf[Slot(tail, cnt + k, |buf|)] == data[k]
    {
      assert Slot(tail, cnt + k, |buf|) == head + k;
      assert buf[head..head + |data|][k] == data[k];
    }
  }

  /** A head update makes the octets behind the head part of the contents. */
  lemma PublishKeepsRing(s: State, data: seq<byte>)
    requires RingOk(s) && s.head + |data| <= CIRC_BUF_SIZE && |data| <= Space(s.head, s.tail, CIRC_BUF_SIZE)
    requires s.buf[s.head..s.head + |data|] == data
    ensures var t := Publish(s, data);
      RingOk(t) && Sent(t) == Sent(s) && InRing(t) == InRing(s) + |data|
      && Space(t.head, t.tail, CIRC_BUF_SIZE) == Space(s.head, s.tail, CIRC_BUF_SIZE) - |data|
  {
    hide Cnt, Space, Slot, Written, Stored;
    var t, cnt := Publish(s, data), InRing(s);
    HeadMoves(s.head, s.tail, |data|, CIRC_BUF_SIZE);
    HeadSlot(s.head, s.tail, CIRC_BUF_SIZE);
    BehindHead(s.buf, s.head, s.tail, cnt, data);
    StoredAppend(s.buf, s.tail, cnt, data);
    assert t.published[Sent(t)..] == s.published[Sent(s)..] + data;
  }

  lemma HeadSlot(head: nat, tail: nat, n: nat)
    requires head < n && tail < n
    ensures 0 <= Cnt(head, tail, n) < n && head == Slot(tail, Cnt(head, tail, n), n)
    ensures Space(head, tail, n) == n - 1 - Cnt(head, tail, n)
  {
    hide Cnt, Space;
    Macros(head, tail, n);
  }

  lemma PublishKeepsLine(s: State, data: seq<byte>)
    requires RingOk(s) && LineOk(s) && RingOk(Publish(s, data)) && Sent(Publish(s, data)) == Sent(s)
    requires InRing(s) <= InRing(Publish(s, data))
    ensures LineOk(Publish(s, data))
  {
    hide Wave, Frame, Stored;
    var t := Publish(s, data);
    assert t.published[..Sent(t)] == s.published[..Sent(s)];
  }

  lemma WriterKeepsInv(s: State)
    requires Inv(s)
    ensures Inv(WriterNext(s))
  {
    hide RingOk, LineOk, Space;
    match s.writer
    case Idle =>
    case Sized(data, size) => Measured(s);
    case First(data, len, toEnd, copied) =>
      if copied < toEnd {
        FirstCopied(s);
      } else {
        FirstPublished(s);
      }
    case Second(data, len, toEnd, copied) =>
      if toEnd + copied < len {
        SecondCopied(s);
      } else {
        SecondPublished(s);
      }
    case Waiting(data, len) => Drained(s);
  }

  /** The tail may have moved between the two reads: then the space has only grown. */
  lemma Measured(s: State)
    requires Inv(s) && s.writer.Sized?
    ensures Inv(WriterNext(s))
  {
    hide Wave, Frame, Stored, Cnt, Space, SpaceToEnd;
    Macros(s.head, s.tail, CIRC_BUF_SIZE);
    assert s.writer.data[..0] == [];
    assert s.buf[s.head..s.head + 0] == [];
    assert s.published[|s.published|..] == [];
  }

  lemma FirstCopied(s: State)
    requires Inv(s) && s.writer.First? && s.writer.copied < s.writer.toEnd
    ensures Inv(WriterNext(s))
  {
    hide Wave, Frame, Stored, Cnt, Space, SpaceToEnd;
    var data, copied := s.writer.data, s.writer.copied;
    WriteBeyond(s, copied, data[copied]);
    assert WriterNext(s).buf[s.head..s.head + (copied + 1)] == s.buf[s.head..s.head + copied] + [data[copied]];
  }

  lemma SecondCopied(s: State)
    requires Inv(s) && s.writer.Second? && s.writer.toEnd + s.writer.copied < s.writer.len
    ensures Inv(WriterNext(s))
  {
    hide Wave, Frame, Stored, Cnt, Space, SpaceToEnd;
    var data, toEnd, copied := s.writer.data, s.writer.toEnd, s.writer.copied;
    WriteBeyond(s, copied, data[toEnd + copied]);
    var part := s.buf[s.head..s.head + copied] + [data[toEnd + copied]];
    assert WriterNext(s).buf[s.head..s.head + (copied + 1)] == part;
    assert data[toEnd..toEnd + (copied + 1)] == part;
  }

  lemma Drained(s: State)
    requires Inv(s) && s.writer.Waiting?
    ensures Inv(WriterNext(s))
  {
    hide Wave, Frame, Stored, Cnt, Space;
  }

  lemma FirstPublished(s: State)
    requires Inv(s) && s.writer.First? && s.writer.copied == s.writer.toEnd
    ensures Inv(WriterNext(s))
  {
    hide Wave, Frame, Stored, Cnt, Space, SpaceToEnd;
    Macros(s.head, s.tail, CIRC_BUF_SIZE);
    var part := s.writer.data[..s.writer.toEnd];
    PublishKeepsRing(s, part);
    PublishKeepsLine(s, part);
  }

  lemma SecondPublished(s: State)
    requires Inv(s) && s.writer.Second? && s.writer.toEnd + s.writer.copied == s.writer.len
    ensures Inv(WriterNext(s))
  {
    hide Wave, Frame, Stored, Cnt, Space, SpaceToEnd;
    var data, toEnd, len := s.writer.data, s.writer.toEnd, s.writer.len;
    var part := data[toEnd..len];
    PublishKeepsRing(s, part);
    PublishKeepsLine(s, part);
    assert data[..len] == data[..toEnd] + part;
  }

  lemma WaveSnoc(gaps: seq<nat>, bytes: seq<byte>, g: nat, b: byte)
    requires |gaps| == |bytes|
    ensures Wave(gaps + [g], bytes + [b]) == Wave(gaps, bytes) + Idling(g) + Frame(b)
  {
    hide Frame;
    assert (gaps + [g])[..|bytes|] == gaps && (bytes + [b])[..|bytes|] == bytes;
  }

  lemma TailMoves(head: nat, tail: nat, n: nat)
    requires head < n && tail < n && 0 < Cnt(head, tail, n)
    ensures (tail + 1) % n == Slot(tail, 1, n) && Cnt(head, (tail + 1) % n, n) == Cnt(head, tail, n) - 1
    ensures Space(head, (tail + 1) % n, n) == Space(head, tail, n) + 1
  {
    hide Cnt, Space;
    Macros(head, tail, n);
    SlotIs(tail, 1, n);
    Macros(head, (tail + 1) % n, n);
  }

  /** The tail moves over the octet that has been sent. */
  lemma TickKeepsRing(s: State)
    requires Inv(s)
    ensures RingOk(Tick(s)) && Tick(s).published == s.published
    ensures Sent(Tick(s)) == Sent(s) + if s.inByte && s.cycle == STOP_BIT then 1 else 0
    ensures Space(s.head, s.tail, CIRC_BUF_SIZE) <= Space(s.head, Tick(s).tail, CIRC_BUF_SIZE)
  {
    hide Wave, Frame, Cnt, Space, Stored, Slot;
    var t := Tick(s);
    HeadSlot(s.head, s.tail, CIRC_BUF_SIZE);
    if s.inByte && s.cycle == STOP_BIT {
      TailMoves(s.head, s.tail, CIRC_BUF_SIZE);
      StoredDrop(s.buf, s.tail, InRing(s), 1);
      assert s.published[Sent(s)..][1..] == s.published[Sent(t)..];
    }
  }

  lemma TickKeepsLine(s: State)
    requires Inv(s) && RingOk(Tick(s))
    requires Sent(Tick(s)) == Sent(s) + if s.inByte && s.cycle == STOP_BIT then 1 else 0
    ensures LineOk(Tick(s))
  {
    hide Wave, Cnt, Space;
    Macros(s.head, s.tail, CIRC_BUF_SIZE);
    var t := Tick(s);
    if s.inByte {
      assert s.bits[..s.cycle] + [s.bits[s.cycle]] == s.bits[..s.cycle + 1];
      if s.cycle == STOP_BIT {
        var b := s.published[Sent(s)];
        WaveSnoc(s.gaps, s.published[..Sent(s)], s.gap, b);
        assert s.published[..Sent(s)] + [b] == t.published[..Sent(t)];
        assert s.bits[..10] == Frame(b) && Idling(0) == [];
      }
    } else {
      assert Idling(s.gap) + [1] == Idling(s.gap + 1);
      if InRing(s) > 0 {
        assert Stored(s.buf, s.tail, InRing(s))[0] == s.published[Sent(s)];
        assert t.bits[..0] == [];
      }
    }
  }

  lemma TickKeepsInv(s: State)
    requires Inv(s)
    ensures Inv(Tick(s))
  {
    hide Wave, Frame, Stored, Cnt, Space, SpaceToEnd, LineOk;
    TickKeepsRing(s);
    TickKeepsLine(s);
  }

  lemma NextKeepsInv(s: State, a: Action)
    requires Inv(s)
    ensures Inv(Next(s, a))
  {
    hide Wave, Frame, Stored, Cnt, Space, WriterNext, Tick;
    match a
    case Write(data) => HeadSlot(s.head, s.tail, CIRC_BUF_SIZE);
    case WriterStep => WriterKeepsInv(s);
    case Signal =>
    case TxTick => TickKeepsInv(s);
  }

  // ---- whole runs ----

  /** The driver after gstty_open: both indices zero, nothing on its way, the pin high. */
  ghost predicate Init(s: State) {
    && |s.buf| == CIRC_BUF_SIZE && s.head == 0 && s.tail == 0 && s.cycle == 0 && !s.inByte && s.pin == 1
    && s.writer == Idle && s.line == [] && s.published == [] && s.gaps == [] && s.gap == 0
  }

  ghost function Run(s: State, actions: seq<Action>): (t: State)
    requires Inv(s)
    ensures Inv(t)
    decreases |actions|
  {
    if actions == [] then s
    else
      NextKeepsInv(s, actions[0]);
      Run(Next(s, actions[0]), actions[1..])
  }

  lemma InitInv(s: State)
    requires Init(s)
    ensures Inv(s)
  {
    assert Idling(0) == [];
    assert Stored(s.buf, 0, 0) == s.published[0..];
  }

  /** In every interleaving of writes and ticks, what went over the line and what is still in the
      ring make up the octets published so far, in order and each once. */
  lemma SentOnceInOrder(s: State, actions: seq<Action>)
    requires Init(s)
    ensures Inv(s)
    ensures var t := Run(s, actions);
      && RingOk(t) && LineOk(t)
      && t.published == t.published[..Sent(t)] + Stored(t.buf, t.tail, InRing(t))
      && Wave(t.gaps, t.published[..Sent(t)]) <= t.line
      && |t.line| - |Wave(t.gaps, t.published[..Sent(t)])| < t.gap + 10
  {
    hide Wave, Frame, Stored, Cnt;
    InitInv(s);
    var t := Run(s, actions);
    assert t.published == t.published[..Sent(t)] + t.published[Sent(t)..];
  }

  /** A write that has not been interrupted has published the first len octets of its data, and
      when it returns everything published so far is on the line. */
  lemma WriteReturns(s: State)
    requires Inv(s) && s.writer.Waiting?
    ensures EndsWith(s.published, s.writer.data[..s.writer.len])
    ensures WriterNext(s).writer == Idle <==> InRing(s) == 0
    ensures WriterNext(s).writer == Idle ==> Wave(s.gaps, s.published) + Idling(s.gap) == s.line
  {
    hide Wave, Frame, Stored, Space;
    Macros(s.head, s.tail, CIRC_BUF_SIZE);
    if WriterNext(s).writer == Idle {
      assert s.published[..Sent(s)] == s.published;
    }
  }

  // ---- how much of a write is taken ----

  /** The octets a step takes over from the caller: those of a new write that the ring has room for. */
  ghost function Taken(s: State, a: Action): seq<byte>
    requires Inv(s)
  {
    HeadSlot(s.head, s.tail, CIRC_BUF_SIZE);
    if a.Write? && s.writer.Idle? then a.input[..Min(|a.input|, Space(s.head, s.tail, CIRC_BUF_SIZE))] else []
  }

  /** The octets the writer has taken over and not published yet. */
  ghost function Outstanding(s: State): seq<byte>
    requires Inv(s)
  {
    match s.writer
    case Idle => []
    case Sized(data, size) => data[..Min(|data|, size)]
    case First(data, len, toEnd, copied) => data[..len]
    case Second(data, len, toEnd, copied) => data[toEnd..len]
    case Waiting(data, len) => []
  }

  /** No step loses or invents an octet of a write. */
  lemma NothingLost(s: State, a: Action)
    requires Inv(s)
    ensures Inv(Next(s, a))
    ensures Next(s, a).published + Outstanding(Next(s, a)) == s.published + Outstanding(s) + Taken(s, a)
  {
    hide RingOk, LineOk, WriterOk, Wave, Cnt, Space, Tick, WriterNext, Outstanding;
    NextKeepsInv(s, a);
    match a
    case Write(data) => WriteTaken(s, data);
    case WriterStep => WriterLosesNothing(s);
    case Signal => SignalPublishesNothing(s);
    case TxTick => TickPublishesNothing(s);
  }

  lemma TickPublishesNothing(s: State)
    requires Inv(s)
    ensures Inv(Tick(s)) && Tick(s).published == s.published && Outstanding(Tick(s)) == Outstanding(s)
  {
    TickKeepsInv(s);
    hide Inv, Wave, Frame, Cnt;
    assert Tick(s).writer == s.writer;
  }

  lemma SignalPublishesNothing(s: State)
    requires Inv(s)
    ensures Inv(Next(s, Signal)) && Next(s, Signal).published == s.published
    ensures Outstanding(Next(s, Signal)) == Outstanding(s)
  {
    NextKeepsInv(s, Signal);
    hide Inv;
  }

  lemma WriteTaken(s: State, data: seq<byte>)
    requires Inv(s)
    ensures Inv(Next(s, Write(data))) && Next(s, Write(data)).published == s.published
    ensures Outstanding(Next(s, Write(data))) == Outstanding(s) + Taken(s, Write(data))
  {
    HeadSlot(s.head, s.tail, CIRC_BUF_SIZE);
    NextKeepsInv(s, Write(data));
    hide Inv, Space;
  }

  lemma WriterLosesNothing(s: State)
    requires Inv(s)
    ensures Inv(WriterNext(s))
    ensures WriterNext(s).published + Outstanding(WriterNext(s)) == s.published + Outstanding(s)
  {
    hide RingOk, LineOk, Wave, Frame, Stored, Cnt, Space, SpaceToEnd;
    WriterKeepsInv(s);
    if s.writer.First? && s.writer.copied == s.writer.toEnd {
      Cut(s.published, s.writer.data, s.writer.toEnd, s.writer.len);
    } else if s.writer.Sized? && 0 < s.writer.size {
      var len := Min(|s.writer.data|, s.writer.size);
      assert s.writer.data[0..len] == s.writer.data[..len];
    }
  }

  lemma Cut(s: seq<byte>, data: seq<byte>, i: nat, j: nat)
    requires i <= j <= |data|
    ensures (s + data[..i]) + data[i..j] == s + data[..j]
  {
  }

  /** The octets that a run takes over. */
  ghost function TakenBy(s: State, actions: seq<Action>): seq<byte>
    requires Inv(s)
    decreases |actions|
  {
    if actions == [] then []
    else
      NextKeepsInv(s, actions[0]);
      Taken(s, actions[0]) + TakenBy(Next(s, actions[0]), actions[1..])
  }

  /** In every interleaving, what was published before and what the writes of the run have taken over is
      published, except for what the write that is under way has still to publish. */
  lemma {:induction false} PublishedIsTaken(s: State, actions: seq<Action>)
    requires Inv(s)
    ensures var t := Run(s, actions);
      t.published + Outstanding(t) == s.published + Outstanding(s) + TakenBy(s, actions)
    decreases |actions|
  {
    hide Inv, Next, Taken, Outstanding;
    if actions != [] {
      NothingLost(s, actions[0]);
      PublishedIsTaken(Next(s, actions[0]), actions[1..]);
    }
  }

  /** The data of the write that is under way, and what it will return. */
  ghost function Returning(w: Writer): (seq<byte>, int)
    requires !w.Idle?
  {
    match w
    case Sized(data, size) => (data, Min(|data|, size))
    case First(data, len, toEnd, copied) => (data, len)
    case Second(data, len, toEnd, copied) => (data, len)
    case Waiting(data, len) => (data, len)
  }

  /** Without another write nothing more is taken over, and a write under way keeps what it will return. */
  lemma {:induction false} OneWriteOnly(s: State, actions: seq<Action>)
    requires Inv(s) && forall a :: a in actions ==> !a.Write?
    ensures TakenBy(s, actions) == []
    ensures var w := Run(s, actions).writer;
      w.Idle? || (!s.writer.Idle? && Returning(w) == Returning(s.writer))
    decreases |actions|
  {
    hide Inv, Tick, SpaceToEnd, Cnt, Space;
    if actions != [] {
      NextKeepsInv(s, actions[0]);
      WriterStays(s, actions[0]);
      OneWriteOnly(Next(s, actions[0]), actions[1..]);
    }
  }

  lemma WriterStays(s: State, a: Action)
    requires Inv(s) && !a.Write?
    ensures var w := Next(s, a).writer; w.Idle? || (!s.writer.Idle? && Returning(w) == Returning(s.writer))
  {
    hide RingOk, LineOk, Wave, Frame, Stored, Cnt, Space, SpaceToEnd;
  }

  /** A write takes the octets that the ring has room for when it is called, or all of them: whatever
      comes between its steps, that many are published when the writer waits, and that is what it
      returns. */
  lemma WriteTakes(s: State, data: seq<byte>, actions: seq<Action>)
    requires Inv(s) && s.writer == Idle && 0 < |data| && forall a :: a in actions ==> !a.Write?
    ensures var room := Space(s.head, s.tail, 4096);
      var len := if |data| <= room then |data| else room;
      var t := Run(s, [Write(data)] + actions);
      && 0 <= len && s.published <= t.published <= s.published + data[..len]
      && (t.writer.Idle? || t.writer.Waiting? ==> t.published == s.published + data[..len])
      && (t.writer.Waiting? ==> t.writer.data == data && t.writer.len == len)
  {
    WriteStarts(s, data);
    hide Inv, Wave, Space, Next, Taken, Outstanding;
    var all := [Write(data)] + actions;
    assert all[0] == Write(data) && all[1..] == actions;
    OneWriteOnly(Next(s, Write(data)), actions);
    PublishedIsTaken(s, all);
    PublishedGrows(s, all);
    NoneOutstanding(s);
    NoneOutstanding(Run(s, all));
    Extends(Run(s, all).published, Outstanding(Run(s, all)));
    assert s.published + [] == s.published;
  }

  lemma Extends(s: seq<byte>, t: seq<byte>)
    ensures s <= s + t && (t == [] ==> s + t == s)
  {
  }

  lemma WriteStarts(s: State, data: seq<byte>)
    requires Inv(s) && s.writer == Idle && 0 < |data|
    ensures var room := Space(s.head, s.tail, 4096);
      var len := if |data| <= room then |data| else room;
      var t := Next(s, Write(data));
      && Inv(t) && 0 <= room && !t.writer.Idle? && Returning(t.writer) == (data, len)
      && Taken(s, Write(data)) == data[..len]
  {
    HeadSlot(s.head, s.tail, CIRC_BUF_SIZE);
    hide RingOk, LineOk, Wave, Space;
    NextKeepsInv(s, Write(data));
  }

  lemma NoneOutstanding(s: State)
    requires Inv(s)
    ensures s.writer.Idle? || s.writer.Waiting? ==> Outstanding(s) == []
  {
    hide RingOk, LineOk, Wave, Space;
  }

  /** The accesses the writer has left before it waits. */
  function WorkLeft(w: Writer): int {
    match w
    case Idle => 0
    case Sized(data, size) => |data| + 3
    case First(data, len, toEnd, copied) => len - copied + 2
    case Second(data, len, toEnd, copied) => len - toEnd - copied + 1
    case Waiting(data, len) => 0
  }

  lemma WorkGoesDown(s: State, a: Action)
    requires Inv(s) && !a.Write?
    ensures 0 <= WorkLeft(s.writer) && (WorkLeft(s.writer) == 0 <==> s.writer.Idle? || s.writer.Waiting?)
    ensures WorkLeft(Next(s, a).writer) <= WorkLeft(s.writer)
    ensures a == WriterStep && 0 < WorkLeft(s.writer) ==> WorkLeft(Next(s, a).writer) < WorkLeft(s.writer)
  {
    hide RingOk, LineOk, Wave, Frame, Stored, Cnt, Space, SpaceToEnd;
  }

  /** After |data| + 3 accesses of its own at most, whatever comes between them, a write waits or is done. */
  lemma {:induction false} WriteEnds(s: State, actions: seq<Action>)
    requires Inv(s) && forall a :: a in actions ==> !a.Write?
    requires WorkLeft(s.writer) <= multiset(actions)[WriterStep]
    ensures Run(s, actions).writer.Idle? || Run(s, actions).writer.Waiting?
    decreases |actions|
  {
    hide Inv, Next, WorkLeft;
    if actions == [] {
      WorkGoesDown(s, TxTick);
    } else {
      assert actions == [actions[0]] + actions[1..];
      NextKeepsInv(s, actions[0]);
      WorkGoesDown(s, actions[0]);
      WorkGoesDown(Next(s, actions[0]), TxTick);
      WriteEnds(Next(s, actions[0]), actions[1..]);
    }
  }

  lemma {:induction false} PublishedGrows(s: State, actions: seq<Action>)
    requires Inv(s)
    ensures s.published <= Run(s, actions).published
    decreases |actions|
  {
    hide Inv;
    if actions != [] {
      NextKeepsInv(s, actions[0]);
      NextPublishes(s, actions[0]);
      PublishedGrows(Next(s, actions[0]), actions[1..]);
    }
  }

  lemma NextPublishes(s: State, a: Action)
    requires Inv(s)
    ensures s.published <= Next(s, a).published
  {
    hide RingOk, LineOk, Wave, Frame, Stored, Cnt, Space, SpaceToEnd;
  }

  // ---- progress ----

  /** The ticks it takes to send everything that is in the ring: eleven for each octet. */
  function TicksLeft(s: State): int {
    11 * InRing(s) - if s.inByte then s.cycle + 1 else 0
  }

  lemma TickCounts(s: State)
    requires Inv(s) && 0 < InRing(s)
    ensures 0 < TicksLeft(s) && TicksLeft(Tick(s)) == TicksLeft(s) - 1
  {
    hide Wave, Frame, Stored, Cnt;
    TickKeepsRing(s);
  }

  /** The clock alone sends everything: after TicksLeft ticks the ring is empty. */
  lemma {:induction false} ClockDrains(s: State, n: nat)
    requires Inv(s) && n == TicksLeft(s)
    ensures InRing(Run(s, Ticks(n))) == 0 && Run(s, Ticks(n)).published == s.published
    decreases n
  {
    hide Wave, Frame, Stored, Cnt, Tick;
    if 0 < InRing(s) {
      TickCounts(s);
      TickKeepsRing(s);
      TickKeepsInv(s);
      assert Ticks(n)[1..] == Ticks(n - 1);
      ClockDrains(Tick(s), n - 1);
    }
  }

  function Ticks(n: nat): (a: seq<Action>)
    ensures |a| == n && forall i :: 0 <= i < n ==> a[i] == TxTick
  {
    seq(n, _ => TxTick)
  }
}
