/** The receive side of the GPIO serial driver, and the loopback of the transmitter's line into it.
    Time is counted in units of which 2 * h make a bit: the transmitter sets the pin at every
    multiple of 2 * h, the receiver samples every h units after it has noticed a falling edge, which
    takes it less than h units. */
module SerialRx {
  import opened Arithmetic
  import opened Bytes
  import opened Rings
  import opened SerialTx

  /** The statics of the sampling handler, whether the sampling clock runs and the pin interrupt is
      enabled, and the octets handed to the receive ring. */
  datatype Rx = Rx(i: nat, ch: byte, clocked: bool, armed: bool, received: seq<byte>)

  /** ch |= status << k, in eight bits. */
  function OrBit(ch: byte, status: int, k: nat): (r: byte)
    ensures 8 <= k || status == 0 || DataBit(ch, k) == 1 ==> r == ch
  {
    if 8 <= k || status == 0 || DataBit(ch, k) == 1 then ch
    else
      BitRoom(ch, k);
      ch + Pow(2, k)
  }

  lemma EvenRoom(x: nat, d: nat, w: nat)
    requires 0 < d && x < (2 * w) * d && (x / d) % 2 == 0
    ensures x + d < (2 * w) * d
  {
    DivLess(x, d, 2 * w);
    var q, r := x / d, x % d;
    assert x == q * d + r;
    MulMono(q + 2, 2 * w, d);
  }

  lemma BitRoom(ch: byte, k: nat)
    requires k < 8 && DataBit(ch, k) != 1
    ensures 0 <= ch + Pow(2, k) < 256
  {
    Powers();
    hide Pow;
    PowStep(2, 7 - k);
    PowAdd(2, 8 - k, k);
    EvenRoom(ch, Pow(2, k), Pow(2, 7 - k));
  }

  lemma DoubleMod(x: nat, d: nat)
    requires 0 < d
    ensures x % (2 * d) == x % d + ((x / d) % 2) * d
    ensures 0 <= x % d && (x % d) / d == 0
  {
    var q, r := x / d, x % d;
    HalfQuotient(q, d);
    ModHalf(x, d, q, r);
    DivModUnique(r, d, 0, r);
  }

  lemma HalfQuotient(q: int, d: int)
    ensures q * d == (q / 2) * (2 * d) + (q % 2) * d
  {
    var half, bit := q / 2, q % 2;
    assert q == 2 * half + bit;
    MulAssoc(half, 2, d);
  }

  lemma ModHalf(x: nat, d: nat, q: int, r: int)
    requires 0 < d && x == q * d + r && 0 <= r < d && q * d == (q / 2) * (2 * d) + (q % 2) * d
    ensures x % (2 * d) == r + (q % 2) * d
  {
    DivModUnique(x, 2 * d, q / 2, (q % 2) * d + r);
  }

  lemma Powers()
    ensures Pow(2, 0) == 1 && Pow(2, 1) == 2 && Pow(2, 2) == 4 && Pow(2, 3) == 8
    ensures Pow(2, 4) == 16 && Pow(2, 5) == 32 && Pow(2, 6) == 64 && Pow(2, 7) == 128 && Pow(2, 8) == 256
  {
  }

  /** rxdtc_interrupt_handler, sampling the level status */
  function Sample(r: Rx, status: int): Rx {
    var ch := if r.i % 2 == 0 && r.i != 0 then OrBit(r.ch, status, (r.i - 1) / 2) else r.ch;
    if r.i == 18 then Rx(0, 0, false, true, r.received + [ch]) else r.(i := r.i + 1, ch := ch)
  }

  /** rxdpin_intterupt_handler, reading the level status */
  function PinEdge(r: Rx, status: int): Rx {
    if status == 1 then r else r.(armed := false, clocked := true)
  }

  // ---- the line over time ----

  /** The tick whose level the line has at time t. */
  function TickAt(t: nat, h: nat): nat
    requires 0 < h
  {
    MulMono(1, 2 * h, t + 1);
    DivLess(t, 2 * h, t + 1);
    t / (2 * h)
  }

  /** The time of sample j after an edge at tick k that was noticed e units late. */
  function SampleTime(k: nat, e: nat, j: nat, h: nat): nat {
    MulNonNegative(2 * h, k);
    MulNonNegative(j + 1, h);
    2 * h * k + e + (j + 1) * h
  }

  /** The samples from number r.i on, until the handler stops its clock or the line ends. */
  function Samples(r: Rx, line: seq<int>, k: nat, e: nat, h: nat): Rx
    requires 0 < h && r.clocked && r.i <= 18
    decreases 18 - r.i
  {
    var tick := TickAt(SampleTime(k, e, r.i, h), h);
    if |line| <= tick then r
    else
      var r' := Sample(r, line[tick]);
      if r'.clocked then Samples(r', line, k, e, h) else r'
  }

  function Before(line: seq<int>, k: nat): int
    requires k <= |line|
  {
    if k == 0 then 1 else line[k - 1]
  }

  /** The receiver from tick k on, waiting for an edge; late(k) is how late an edge at tick k is
      noticed.  Only edges after the pin interrupt is enabled again count. */
  function Receive(r: Rx, line: seq<int>, k: nat, h: nat, late: nat -> nat): Rx
    requires 0 < h && r.armed && !r.clocked && r.i == 0
    decreases |line| - k
  {
    if |line| <= k then r
    else if line[k] == Before(line, k) then Receive(r, line, k + 1, h, late)
    else
      var r1 := PinEdge(r, line[k]);
      if !r1.clocked then Receive(r1, line, k + 1, h, late)
      else
        var r2 := Samples(r1, line, k, late(k), h);
        if r2.clocked then r2
        else
          SamplesStop(r1, line, k, late(k), h);
          var again := TickAt(SampleTime(k, late(k), 18, h), h) + 1;
          if again <= k then r2 else Receive(r2, line, again, h, late)
  }

  lemma {:induction false} SamplesStop(r: Rx, line: seq<int>, k: nat, e: nat, h: nat)
    requires 0 < h && r.clocked && !r.armed && r.i <= 18
    ensures var r' := Samples(r, line, k, e, h);
      if r'.clocked then r'.received == r.received && !r'.armed
      else r'.armed && r'.i == 0 && |r'.received| == |r.received| + 1
    decreases 18 - r.i
  {
    hide TickAt, SampleTime;
    var tick := TickAt(SampleTime(k, e, r.i, h), h);
    if tick < |line| {
      var r' := Sample(r, line[tick]);
      if r'.clocked {
        SamplesStop(r', line, k, e, h);
      }
    }
  }

  /** Sample j falls into the bit j / 2 ticks after the edge, rounded up. */
  lemma SampleTick(k: nat, e: nat, j: nat, h: nat)
    requires e < h
    ensures TickAt(SampleTime(k, e, j, h), h) == k + (j + 1) / 2
  {
    var q := (j + 1) / 2;
    var x := 2 * h;
    if j % 2 == 0 {
      assert j + 1 == 2 * q + 1;
      assert (j + 1) * h == q * x + h by {
        assert (2 * q + 1) * h == 2 * (q * h) + h;
        MulAssoc(q, 2, h);
      }
      assert SampleTime(k, e, j, h) == (k + q) * x + (e + h);
      DivModUnique(SampleTime(k, e, j, h), x, k + q, e + h);
    } else {
      assert j + 1 == 2 * q;
      assert (j + 1) * h == q * x by {
        MulAssoc(q, 2, h);
      }
      assert SampleTime(k, e, j, h) == (k + q) * x + e;
      DivModUnique(SampleTime(k, e, j, h), x, k + q, e);
    }
  }

  // ---- one frame ----

  /** The data bits that the samples before number i have recorded. */
  function BitsDone(i: nat): nat { if i <= 2 then 0 else if 18 <= i then 8 else (i - 1) / 2 }

  lemma ModBelow(x: nat, d: int)
    requires 0 < d
    ensures 0 <= x % d <= x
  {
    MulMono(1, d, x + 1);
    DivLess(x, d, x + 1);
    MulNonNegative(x / d, d);
  }

  /** The k lowest bits of b. */
  function LowPart(b: byte, k: nat): byte {
    ModBelow(b, Pow(2, k));
    b % Pow(2, k)
  }

  lemma LowBits(b: byte, k: nat)
    ensures LowPart(b, k + 1) == LowPart(b, k) + DataBit(b, k) * Pow(2, k)
    ensures DataBit(LowPart(b, k), k) == 0
  {
    PowStep(2, k);
    hide Pow;
    DoubleMod(b, Pow(2, k));
  }

  /** What sample i of a frame does to the octet under construction. */
  lemma SampleBit(b: byte, i: nat)
    requires 2 <= i <= 16 && i % 2 == 0
    ensures var k := (i - 1) / 2; OrBit(LowPart(b, k), Frame(b)[i / 2], k) == LowPart(b, k + 1)
  {
    hide Pow, LowPart, DataBit;
    var k := (i - 1) / 2;
    LowBits(b, k);
    assert Frame(b)[k + 1] == DataBit(b, k);
    DataBitIs(b, k);
  }

  lemma DataBitIs(b: byte, k: nat)
    ensures DataBit(b, k) == 0 || DataBit(b, k) == 1
  {
  }

  /** One sample before the last. */
  lemma SampleStep(r: Rx, b: byte)
    requires r.clocked && r.i < 18 && r.ch == LowPart(b, BitsDone(r.i))
    ensures Sample(r, Frame(b)[(r.i + 1) / 2]) == r.(i := r.i + 1, ch := LowPart(b, BitsDone(r.i + 1)))
  {
    hide LowPart, Frame, OrBit;
    if r.i % 2 == 0 && r.i != 0 {
      SampleBit(b, r.i);
    }
  }

  lemma WholeOctet(b: byte)
    ensures LowPart(b, 8) == b && LowPart(b, 0) == 0
  {
    Powers();
  }

  /** Ticks 2, 4, ..., 16 record the data bits and tick 18, in the stop bit, adds nothing. */
  lemma {:induction false} SamplesOfFrame(r: Rx, line: seq<int>, k: nat, e: nat, h: nat, b: byte)
    requires e < h && k + 10 <= |line| && line[k..k + 10] == Frame(b)
    requires r.clocked && !r.armed && r.i <= 18 && r.ch == LowPart(b, BitsDone(r.i))
    ensures Samples(r, line, k, e, h) == Rx(0, 0, false, true, r.received + [b])
    decreases 18 - r.i
  {
    hide TickAt, SampleTime, LowPart, Frame, OrBit;
    SampleTick(k, e, r.i, h);
    assert line[k..k + 10][(r.i + 1) / 2] == line[k + (r.i + 1) / 2];
    if r.i < 18 {
      SampleStep(r, b);
      SamplesOfFrame(Sample(r, Frame(b)[(r.i + 1) / 2]), line, k, e, h, b);
    } else {
      WholeOctet(b);
    }
  }

  /** The receiver sleeps through an idle line. */
  lemma {:induction false} SkipIdle(r: Rx, line: seq<int>, k: nat, m: nat, h: nat, late: nat -> nat)
    requires 0 < h && r.armed && !r.clocked && r.i == 0
    requires k <= m <= |line| && Before(line, k) == 1 && forall i :: k <= i < m ==> line[i] == 1
    ensures Receive(r, line, k, h, late) == Receive(r, line, m, h, late)
    ensures Before(line, m) == 1
    decreases m - k
  {
    if k < m {
      SkipIdle(r, line, k + 1, m, h, late);
    }
  }

  /** A frame is received as its octet, and the pin interrupt is enabled again before the bit clock
      can start the next one. */
  lemma FrameReceived(r: Rx, line: seq<int>, k: nat, h: nat, late: nat -> nat, b: byte)
    requires r.armed && !r.clocked && r.i == 0 && r.ch == 0 && late(k) < h
    requires k + 10 <= |line| && Before(line, k) == 1 && line[k..k + 10] == Frame(b)
    ensures Receive(r, line, k, h, late) ==
            Receive(Rx(0, 0, false, true, r.received + [b]), line, k + 10, h, late)
    ensures Before(line, k + 10) == 1
  {
    hide TickAt, SampleTime, Samples;
    assert line[k..k + 10][0] == line[k] && line[k..k + 10][9] == line[k + 9];
    var r1 := PinEdge(r, line[k]);
    hide LowPart;
    WholeOctet(b);
    SamplesOfFrame(r1, line, k, late(k), h, b);
    SampleTick(k, late(k), 18, h);
  }

  lemma {:induction false} SamplesRunOut(r: Rx, line: seq<int>, k: nat, e: nat, h: nat)
    requires e < h && r.clocked && r.i <= 18 && |line| <= k + 9
    ensures Samples(r, line, k, e, h).clocked && Samples(r, line, k, e, h).received == r.received
    decreases 18 - r.i
  {
    hide TickAt, SampleTime;
    SampleTick(k, e, r.i, h);
    var tick := k + (r.i + 1) / 2;
    if tick < |line| {
      SamplesRunOut(Sample(r, line[tick]), line, k, e, h);
    }
  }

  /** A frame whose stop bit is still to come yields nothing yet. */
  lemma FrameInProgress(r: Rx, line: seq<int>, k: nat, h: nat, late: nat -> nat, b: byte)
    requires r.armed && !r.clocked && r.i == 0 && late(k) < h
    requires k <= |line| <= k + 9 && Before(line, k) == 1 && line[k..] == Frame(b)[..|line| - k]
    ensures Receive(r, line, k, h, late).received == r.received
  {
    hide TickAt, SampleTime, Samples;
    if k < |line| {
      assert line[k..][0] == line[k];
      SamplesRunOut(PinEdge(r, line[k]), line, k, late(k), h);
    }
  }

  ghost predicate Prompt(late: nat -> nat, h: nat) {
    forall k :: late(k) < h
  }

  lemma PartsOf(a: seq<int>, b: seq<int>, c: seq<int>, line: seq<int>)
    requires a + b + c <= line
    ensures a <= line && line[|a|..|a| + |b|] == b && line[|a| + |b|..|a| + |b| + |c|] == c
  {
    assert line == a + b + c + line[|a + b + c|..];
  }

  /** What the last octet of a wave puts on the line. */
  lemma LastFrame(gaps: seq<nat>, bytes: seq<byte>, line: seq<int>)
    requires 0 < |gaps| == |bytes| && Wave(gaps, bytes) <= line
    ensures var n := |bytes| - 1;
      var w := Wave(gaps[..n], bytes[..n]);
      var k := |w| + gaps[n];
      && w <= line && k + 10 == |Wave(gaps, bytes)| && line[k..k + 10] == Frame(bytes[n])
      && forall i :: |w| <= i < k ==> line[i] == 1
  {
    hide Frame;
    var n := |bytes| - 1;
    var w := Wave(gaps[..n], bytes[..n]);
    PartsOf(w, Idling(gaps[n]), Frame(bytes[n]), line);
    forall i | |w| <= i < |w| + gaps[n]
      ensures line[i] == 1
    {
      assert line[|w|..|w| + gaps[n]][i - |w|] == 1;
    }
  }

  /** Every complete frame on the line arrives, in order, whatever the edges' latencies. */
  lemma {:induction false} WaveReceived(gaps: seq<nat>, bytes: seq<byte>, line: seq<int>, h: nat, late: nat -> nat)
    requires |gaps| == |bytes| && Wave(gaps, bytes) <= line && Prompt(late, h)
    requires forall k :: 0 <= k < |gaps| ==> 1 <= gaps[k]
    ensures 0 < h && Receive(Rx(0, 0, false, true, []), line, 0, h, late) ==
                     Receive(Rx(0, 0, false, true, bytes), line, |Wave(gaps, bytes)|, h, late)
    ensures Before(line, |Wave(gaps, bytes)|) == 1
    decreases |bytes|
  {
    hide Receive, Frame;
    assert late(0) < h;
    if |bytes| > 0 {
      hide Wave, Before;
      var n := |bytes| - 1;
      LastFrame(gaps, bytes, line);
      WaveReceived(gaps[..n], bytes[..n], line, h, late);
      var p := |Wave(gaps[..n], bytes[..n])|;
      var r := Rx(0, 0, false, true, bytes[..n]);
      SkipIdle(r, line, p, p + gaps[n], h, late);
      FrameReceived(r, line, p + gaps[n], h, late, bytes[n]);
      assert bytes[..n] + [bytes[n]] == bytes;
    }
  }

  /** What a receiver listening to a line from its start has received. */
  function Heard(line: seq<int>, h: nat, late: nat -> nat): seq<byte>
    requires 0 < h
  {
    Receive(Rx(0, 0, false, true, []), line, 0, h, late).received
  }

  /** In every state the transmitter can be in, the receiver has received the octets that are sent. */
  lemma HeardIsSent(t: State, h: nat, late: nat -> nat)
    requires Inv(t) && Prompt(late, h)
    ensures 0 < h && Heard(t.line, h, late) == t.published[..Sent(t)]
  {
    hide Receive, Wave, Frame, Stored;
    var bytes := t.published[..Sent(t)];
    var p := |Wave(t.gaps, bytes)|;
    var k := p + t.gap;
    WaveReceived(t.gaps, bytes, t.line, h, late);
    var r := Rx(0, 0, false, true, bytes);
    forall i | p <= i < k
      ensures t.line[i] == 1
    {
      assert t.line[i] == Idling(t.gap)[i - p];
    }
    SkipIdle(r, t.line, p, k, h, late);
    LoopbackRest(t, r, k, h, late);
  }

  /** Loopback: after any run of the transmitter, whatever its writes and their interleaving with the
      clock, a receiver on its line has received exactly the octets that have been sent. */
  lemma Loopback(s: State, actions: seq<Action>, h: nat, late: nat -> nat)
    requires Init(s) && Prompt(late, h)
    ensures Inv(s) && 0 < h
    ensures var t := Run(s, actions); RingOk(t) && Heard(t.line, h, late) == t.published[..Sent(t)]
  {
    hide Heard, Stored;
    InitInv(s);
    HeardIsSent(Run(s, actions), h, late);
  }

  lemma LoopbackRest(t: State, r: Rx, k: nat, h: nat, late: nat -> nat)
    requires Inv(t) && Prompt(late, h) && 0 < h && r.armed && !r.clocked && r.i == 0
    requires k == |Wave(t.gaps, t.published[..Sent(t)])| + t.gap && k <= |t.line| && Before(t.line, k) == 1
    ensures Receive(r, t.line, k, h, late).received == r.received
  {
    hide Wave, Frame, Stored, Cnt;
    assert late(k) < h;
    if t.inByte {
      FrameInProgress(r, t.line, k, h, late, t.published[Sent(t)]);
    }
  }
}
