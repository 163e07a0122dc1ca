/** The interrupt handlers of the GPIO serial driver on its static variables. */
module SerialDriver {
  import opened Bytes
  import opened Rings
  import opened SerialTx
  import opened SerialRx

  class Gstty {
    const txBuf: array<byte>
    var txHead: nat
    var txTail: nat
    var cycle: nat
    const bits: array<int>
    var inByte: bool
    var sendOver: bool
    var txd: int

    const rxRing: CircBuf
    var i: nat
    var ch: byte
    var rxClock: bool
    var pinIrq: bool

    /** The driver after it is loaded and opened. */
    constructor ()
      ensures fresh(txBuf) && fresh(bits) && fresh(rxRing) && fresh(rxRing.buf)
      ensures SendsAs(State(txBuf[..], 0, 0, 0, [], false, 1, Idle, [], [], [], 0))
      ensures ReceivesAs(Rx(0, 0, false, true, [])) && rxRing.Valid() && rxRing.Contents() == []
      ensures rxRing.buf.Length == CIRC_BUF_SIZE && txBuf.Length == CIRC_BUF_SIZE && !sendOver
    {
      txBuf := new byte[CIRC_BUF_SIZE](_ => 0);
      txHead, txTail, cycle, inByte, sendOver, txd := 0, 0, 0, false, false, 1;
      bits := new int[10];
      rxRing := new CircBuf(CIRC_BUF_SIZE);
      i, ch, rxClock, pinIrq := 0, 0, false, true;
    }

    /** The transmit variables are those of state s. */
    ghost predicate SendsAs(s: State)
      reads this, txBuf, bits
    {
      && txBuf[..] == s.buf && txHead == s.head && txTail == s.tail && cycle == s.cycle && txd == s.pin
      && inByte == s.inByte && bits.Length == 10 && (inByte ==> bits[..] == s.bits)
    }

    /** The receive variables are those of r. */
    ghost predicate ReceivesAs(r: Rx)
      reads this
    {
      i == r.i && ch == r.ch && rxClock == r.clocked && pinIrq == r.armed
    }

    /** txdtc_interrupt_handler is the tick of the transmitter. */
    method TxdtcInterrupt(ghost s: State)
      requires SendsAs(s) && Inv(s)
      modifies this`cycle, this`inByte, this`txTail, this`txd, this`sendOver, bits
      ensures SendsAs(Tick(s))
      ensures sendOver == if s.inByte then old(sendOver) else if InRing(s) > 0 then false
                          else old(sendOver) || s.cycle > STOP_BIT
    {
      hide Wave, Stored, Cnt;
      Macros(txHead, txTail, CIRC_BUF_SIZE);
      if inByte {
        txd := bits[cycle];
        if STOP_BIT == cycle {
          txTail := (txTail + 1) % CIRC_BUF_SIZE;
          inByte := false;
        }
        cycle := cycle + 1;
      } else if Cnt(txHead, txTail, CIRC_BUF_SIZE) > 0 {
        PrepareBits(txBuf[txTail]);
        inByte := true;
        cycle := START_BIT;
        sendOver := false;
      } else if cycle > STOP_BIT {
        cycle := 0;
        inByte := false;
        sendOver := true;
      }
    }

    method PrepareBits(b: byte)
      requires bits.Length == 10
      modifies bits
      ensures bits[..] == Frame(b)
    {
      hide DataBit;
      bits[START_BIT] := 0;
      var j := 0;
      while j < 8
        invariant j <= 8 && bits[0] == 0
        invariant forall k :: 0 <= k < j ==> bits[k + 1] == DataBit(b, k)
      {
        bits[j + START_BIT + 1] := DataBit(b, j);
        j := j + 1;
      }
      bits[STOP_BIT] := 1;
      forall k | 0 <= k < 10
        ensures bits[k] == Frame(b)[k]
      {
        if 1 <= k <= 8 {
          assert bits[(k - 1) + 1] == DataBit(b, k - 1) && Frame(b)[(k - 1) + 1] == DataBit(b, k - 1);
        }
      }
    }

    /** rxdtc_interrupt_handler is a sample of the receiver; a complete octet goes to the ring unless
        the ring is full. */
    method RxdtcInterrupt(status: int, ghost r: Rx)
      requires ReceivesAs(r) && rxRing.Valid()
      modifies this`i, this`ch, this`rxClock, this`pinIrq, rxRing`head, rxRing.buf
      ensures ReceivesAs(Sample(r, status)) && rxRing.Valid()
      ensures var full := old(rxRing.Count()) == rxRing.buf.Length - 1;
        rxRing.Contents() ==
          old(rxRing.Contents()) + if full then [] else Sample(r, status).received[|r.received|..]
    {
      hide Cnt, Space, SpaceToEnd, OrBit;
      if !(i % 2 != 0 || i == 0) {
        ch := OrBit(ch, status, (i - 1) / 2);
      }
      if i == 18 {
        rxClock := false;
        pinIrq := true;
        StoreOctet(ch);
        i, ch := 0, 0;
        return;
      }
      i := i + 1;
    }

    method StoreOctet(c: byte)
      requires rxRing.Valid()
      modifies rxRing`head, rxRing.buf
      ensures rxRing.Valid() && rxRing.Contents() ==
              old(rxRing.Contents()) + if old(rxRing.Count()) == rxRing.buf.Length - 1 then [] else [c]
    {
      hide Cnt, Space, SpaceToEnd, Stored;
      Macros(rxRing.head, rxRing.tail, rxRing.buf.Length);
      if Space(rxRing.head, rxRing.tail, rxRing.buf.Length) >= 1 {
        Append(rxRing, [c]);
      }
    }

    /** rxdpin_intterupt_handler reacts to falling edges only. */
    method RxdpinInterrupt(status: int, ghost r: Rx)
      requires ReceivesAs(r)
      modifies this`rxClock, this`pinIrq
      ensures ReceivesAs(PinEdge(r, status))
    {
      if 1 == status {
        return;
      }
      pinIrq := false;
      rxClock := true;
    }
  }
}
