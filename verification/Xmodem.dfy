/** The Xmodem receiver of the boot loader over a byte stream. */
module Xmodem {
  import opened Bytes

  const SOH: byte := 0x01
  const EOT: byte := 0x04
  const ACK: byte := 0x06
  const NAK: byte := 0x15
  const CAN: byte := 0x18
  const EOF: byte := 0x1A

  const BLOCK: nat := 128

  /** The image received and the replies sent. */
  datatype Got = Got(image: seq<byte>, sent: seq<byte>)

  /** The end of a transfer: complete, aborted, or a stream that is not finished, and what was received
      and sent until then. */
  datatype Outcome = Done(got: Got) | Aborted(got: Got) | Starved(got: Got)

  function Sum(s: seq<byte>): byte {
    if |s| == 0 then 0 else (Sum(s[..|s| - 1]) + s[|s| - 1]) % 256
  }

  /** Block numbers count modulo 256. */
  function Succ(n: byte): byte { if n == 255 then 0 else n + 1 }

  // ---- the receiver as a parser ----

  /** A packet behind its start of header, received for block number n. */
  datatype Packet = Accepted(data: seq<byte>) | Rejected(used: nat) | Cut

  /** xmodem_read_block: number, complement, 128 octets, checksum; the first mismatch ends it. */
  function ReadPacket(s: seq<byte>, n: byte): (p: Packet)
    ensures p.Accepted? ==> |p.data| == BLOCK && BLOCK + 3 <= |s|
    ensures p.Rejected? ==> p.used <= |s|
  {
    if |s| < 1 then Cut
    else if s[0] != n then Rejected(1)
    else if |s| < 2 then Cut
    else if s[1] != 255 - n then Rejected(2)
    else if |s| < BLOCK + 3 then Cut
    else if s[BLOCK + 2] != Sum(s[2..BLOCK + 2]) then Rejected(BLOCK + 3)
    else Accepted(s[2..BLOCK + 2])
  }

  /** xmodem_recv from stream s on, with the next block number n and the image received so far. */
  function Receive(s: seq<byte>, n: byte, receiving: bool, got: Got): Outcome
    decreases |s|
  {
    if |s| == 0 then Starved(got)
    else if s[0] == EOT then Done(got.(sent := got.sent + [ACK]))
    else if s[0] == CAN then Aborted(got)
    else if s[0] == SOH then
      match ReadPacket(s[1..], n)
      case Cut => Starved(got)
      case Rejected(used) => Receive(s[1 + used..], n, true, got.(sent := got.sent + [NAK]))
      case Accepted(data) => Receive(s[BLOCK + 4..], Succ(n), true, Got(got.image + data, got.sent + [ACK]))
    else if receiving then Aborted(got)
    else Receive(s[1..], n, receiving, got)
  }

  // ---- what a complete transfer looks like ----

  /** The pieces of a transfer: noise before the first packet, packets that are accepted, and packets
      rejected for their number, its complement or their checksum. */
  datatype Piece =
    | Noise(b: byte)
    | Good(data: seq<byte>)
    | WrongNumber(b: byte)
    | WrongComplement(b: byte)
    | WrongSum(data: seq<byte>, b: byte)

  predicate PieceOk(x: Piece, n: byte, receiving: bool) {
    match x
    case Noise(b) => !receiving && b != EOT && b != CAN && b != SOH
    case Good(data) => |data| == BLOCK
    case WrongNumber(b) => b != n
    case WrongComplement(b) => b != 255 - n
    case WrongSum(data, b) => |data| == BLOCK && b != Sum(data)
  }

  function Framed(x: Piece, n: byte): seq<byte> {
    match x
    case Noise(b) => [b]
    case Good(data) => [SOH, n, 255 - n] + data + [Sum(data)]
    case WrongNumber(b) => [SOH, b]
    case WrongComplement(b) => [SOH, n, b]
    case WrongSum(data, b) => [SOH, n, 255 - n] + data + [b]
  }

  function Following(x: Piece, n: byte): byte { if x.Good? then Succ(n) else n }

  /** The octets of a transfer, its numbered blocks counting up from n with every accepted one. */
  function Stream(pieces: seq<Piece>, n: byte): seq<byte> {
    if |pieces| == 0 then [EOT]
    else Framed(pieces[0], n) + Stream(pieces[1..], Following(pieces[0], n))
  }

  predicate AllOk(pieces: seq<Piece>, n: byte, receiving: bool) {
    |pieces| == 0 ||
    (PieceOk(pieces[0], n, receiving) && AllOk(pieces[1..], Following(pieces[0], n), receiving || !pieces[0].Noise?))
  }

  /** What a piece contributes to the image, and how it is answered. */
  function Contribution(x: Piece): seq<byte> { if x.Good? then x.data else [] }

  function Reply(x: Piece): seq<byte> { if x.Good? then [ACK] else if x.Noise? then [] else [NAK] }

  function After(got: Got, x: Piece): Got { Got(got.image + Contribution(x), got.sent + Reply(x)) }

  /** The data of the accepted blocks in order. */
  function Image(pieces: seq<Piece>): seq<byte> {
    if |pieces| == 0 then [] else Contribution(pieces[0]) + Image(pieces[1..])
  }

  /** An ACK for each accepted block, a NAK for each rejected one, and an ACK for the end. */
  function Replies(pieces: seq<Piece>): seq<byte> {
    if |pieces| == 0 then [ACK] else Reply(pieces[0]) + Replies(pieces[1..])
  }

  /** Every well-formed transfer is received as the accepted blocks in order: rejected packets and
      noise contribute nothing, and each packet is answered as it deserves. */
  lemma {:induction false} ReceivesStream(pieces: seq<Piece>, n: byte, receiving: bool, got: Got, rest: seq<byte>)
    requires AllOk(pieces, n, receiving)
    ensures Receive(Stream(pieces, n) + rest, n, receiving, got) ==
            Done(Got(got.image + Image(pieces), got.sent + Replies(pieces)))
    decreases |pieces|
  {
    hide Sum, Receive, Framed, PieceOk;
    if |pieces| == 0 {
      EndReceived(n, receiving, got, rest);
      assert got.image + Image(pieces) == got.image;
    } else {
      var x, more := pieces[0], pieces[1..];
      assert pieces == [x] + more;
      StreamCons(x, more, n, receiving, rest);
      PieceReceived(x, n, receiving, got, Stream(more, Following(x, n)) + rest);
      ReceivesStream(more, Following(x, n), receiving || !x.Noise?, After(got, x), rest);
      ConcatThree(got.image, Contribution(x), Image(more));
      ConcatThree(got.sent, Reply(x), Replies(more));
    }
  }

  lemma EndReceived(n: byte, receiving: bool, got: Got, rest: seq<byte>)
    ensures Receive([EOT] + rest, n, receiving, got) == Done(got.(sent := got.sent + [ACK]))
  {
  }

  lemma PieceReceived(x: Piece, n: byte, receiving: bool, got: Got, more: seq<byte>)
    requires PieceOk(x, n, receiving)
    ensures Receive(Framed(x, n) + more, n, receiving, got) ==
            Receive(more, Following(x, n), receiving || !x.Noise?, After(got, x))
  {
    hide Sum;
    var s := Framed(x, n) + more;
    assert s[|Framed(x, n)|..] == more;
    assert got.image + [] == got.image && got.sent + [] == got.sent;
    if x.Good? || x.WrongSum? {
      FramedParts(x, n, more);
      PacketParts(s);
    }
  }

  lemma FramedParts(x: Piece, n: byte, more: seq<byte>)
    requires (x.Good? || x.WrongSum?) && |x.data| == BLOCK
    ensures var s := Framed(x, n) + more;
      && |Framed(x, n)| == BLOCK + 4 && s[0] == SOH && s[1] == n && s[2] == 255 - n
      && s[3..BLOCK + 3] == x.data && s[BLOCK + 3] == if x.Good? then Sum(x.data) else x.b
  {
    hide Sum;
    var f := [SOH, n, 255 - n];
    var last := if x.Good? then Sum(x.data) else x.b;
    assert Framed(x, n) == f + x.data + [last];
    assert (Framed(x, n) + more)[3..BLOCK + 3] == x.data;
  }

  // ---- transfers that are given up ----

  /** The octets of pieces without an end. */
  function Body(pieces: seq<Piece>, n: byte): seq<byte> {
    if |pieces| == 0 then [] else Framed(pieces[0], n) + Body(pieces[1..], Following(pieces[0], n))
  }

  function Answers(pieces: seq<Piece>): seq<byte> {
    if |pieces| == 0 then [] else Reply(pieces[0]) + Answers(pieces[1..])
  }

  /** Whether a packet has been seen. */
  predicate Begun(pieces: seq<Piece>, receiving: bool) {
    if |pieces| == 0 then receiving else Begun(pieces[1..], receiving || !pieces[0].Noise?)
  }

  /** A cancel, or after the first packet any octet that starts nothing, ends the transfer: every packet
      before it has been answered, and nothing else is sent. */
  lemma {:induction false} GivesUp(pieces: seq<Piece>, n: byte, receiving: bool, got: Got, b: byte, rest: seq<byte>)
    requires AllOk(pieces, n, receiving)
    requires b == 0x18 || (Begun(pieces, receiving) && b != 0x01 && b != 0x04)
    ensures Receive(Body(pieces, n) + ([b] + rest), n, receiving, got) ==
            Aborted(Got(got.image + Image(pieces), got.sent + Answers(pieces)))
    decreases |pieces|
  {
    hide Sum, Framed, PieceOk;
    if |pieces| == 0 {
      assert Body(pieces, n) + ([b] + rest) == [b] + rest;
      assert got.image + Image(pieces) == got.image && got.sent + Answers(pieces) == got.sent;
    } else {
      hide Receive;
      var x, more := pieces[0], pieces[1..];
      ConcatThree(Framed(x, n), Body(more, Following(x, n)), [b] + rest);
      PieceReceived(x, n, receiving, got, Body(more, Following(x, n)) + ([b] + rest));
      GivesUp(more, Following(x, n), receiving || !x.Noise?, After(got, x), b, rest);
      ConcatThree(got.image, Contribution(x), Image(more));
      ConcatThree(got.sent, Reply(x), Answers(more));
    }
  }

  // ---- the octets on the wire ----

  function Total(s: seq<byte>): nat {
    if |s| == 0 then 0 else s[0] + Total(s[1..])
  }

  lemma {:induction false} TotalSnoc(s: seq<byte>, b: byte)
    ensures Total(s + [b]) == Total(s) + b
  {
    if |s| > 0 {
      assert (s + [b])[1..] == s[1..] + [b];
      TotalSnoc(s[1..], b);
    }
  }

  /** The checksum is the sum of the octets modulo 256. */
  lemma {:induction false} SumIsTotal(s: seq<byte>)
    ensures Sum(s) == Total(s) % 256
    decreases |s|
  {
    if |s| > 0 {
      var t := s[..|s| - 1];
      SumIsTotal(t);
      TotalSnoc(t, s[|s| - 1]);
      assert t + [s[|s| - 1]] == s;
      hide Total;
      AddModulo(Total(t), s[|s| - 1]);
    }
  }

  lemma AddModulo(x: nat, b: nat)
    ensures (x % 256 + b) % 256 == (x + b) % 256
  {
  }

  /** A good packet is start of header, number, complement, data and checksum, and is acknowledged; any
      other packet is refused; the number of the next good one is one more. */
  lemma OnTheWire(x: Piece, n: byte)
    ensures x.Good? ==> Framed(x, n) == [0x01, n, 255 - n] + x.data + [Total(x.data) % 256] && Reply(x) == [0x06]
    ensures x.WrongSum? ==> Framed(x, n) == [0x01, n, 255 - n] + x.data + [x.b]
    ensures x.WrongNumber? ==> Framed(x, n) == [0x01, x.b]
    ensures x.WrongComplement? ==> Framed(x, n) == [0x01, n, x.b]
    ensures x.WrongSum? || x.WrongNumber? || x.WrongComplement? ==> Reply(x) == [0x15]
    ensures x.Noise? ==> Framed(x, n) == [x.b] && Reply(x) == []
    ensures Following(x, n) == if x.Good? then (n + 1) % 256 else n
    ensures Stream([], n) == [0x04] && Replies([]) == [0x06]
  {
    if x.Good? {
      SumIsTotal(x.data);
    }
    hide Sum;
  }

  /** The piece at the front of a stream that is received to its end. */
  function FirstPiece(s: seq<byte>, n: byte): Piece
    requires 0 < |s| && (s[0] == SOH ==> !ReadPacket(s[1..], n).Cut?)
  {
    if s[0] != SOH then Noise(s[0])
    else
      match ReadPacket(s[1..], n)
      case Accepted(data) => Good(data)
      case Rejected(used) =>
        if used == 1 then WrongNumber(s[1])
        else if used == 2 then WrongComplement(s[2])
        else WrongSum(s[3..BLOCK + 3], s[BLOCK + 3])
  }

  /** Conversely, whatever is received is the accepted blocks of a well-formed transfer. */
  lemma {:induction false} ReceivedIsStream(s: seq<byte>, n: byte, receiving: bool, got: Got)
    returns (pieces: seq<Piece>, rest: seq<byte>)
    requires Receive(s, n, receiving, got).Done?
    ensures AllOk(pieces, n, receiving) && s == Stream(pieces, n) + rest
    ensures Receive(s, n, receiving, got) == Done(Got(got.image + Image(pieces), got.sent + Replies(pieces)))
    decreases |s|
  {
    hide Sum;
    if s[0] == EOT {
      pieces, rest := [], s[1..];
      assert s == [EOT] + rest;
      assert got.image + Image(pieces) == got.image;
    } else {
      var x := FirstPiece(s, n);
      FirstPieceIs(s, n, receiving, got);
      hide Sum, Receive, Framed, PieceOk, FirstPiece;
      var k := |Framed(x, n)|;
      assert s == Framed(x, n) + s[k..];
      PieceReceived(x, n, receiving, got, s[k..]);
      var more;
      more, rest := ReceivedIsStream(s[k..], Following(x, n), receiving || !x.Noise?, After(got, x));
      pieces := [x] + more;
      StreamCons(x, more, n, receiving, rest);
      ConcatThree(got.image, Contribution(x), Image(more));
      ConcatThree(got.sent, Reply(x), Replies(more));
    }
  }

  lemma ConcatThree(a: seq<byte>, b: seq<byte>, c: seq<byte>)
    ensures (a + b) + c == a + (b + c)
  {
  }

  lemma StreamCons(x: Piece, more: seq<Piece>, n: byte, receiving: bool, rest: seq<byte>)
    requires PieceOk(x, n, receiving) && AllOk(more, Following(x, n), receiving || !x.Noise?)
    ensures AllOk([x] + more, n, receiving) && Image([x] + more) == Contribution(x) + Image(more)
    ensures Replies([x] + more) == Reply(x) + Replies(more)
    ensures Stream([x] + more, n) + rest == Framed(x, n) + (Stream(more, Following(x, n)) + rest)
  {
    hide Framed, PieceOk, Following, Contribution, Reply;
    var l := [x] + more;
    assert l[0] == x && l[1..] == more;
    ConcatThree(Framed(x, n), Stream(more, Following(x, n)), rest);
  }

  lemma FirstPieceIs(s: seq<byte>, n: byte, receiving: bool, got: Got)
    requires Receive(s, n, receiving, got).Done? && s[0] != EOT
    ensures s[0] == SOH ==> !ReadPacket(s[1..], n).Cut?
    ensures var x := FirstPiece(s, n); PieceOk(x, n, receiving) && 0 < |Framed(x, n)| && Framed(x, n) <= s
  {
    hide Sum, ReadPacket;
    if s[0] == SOH {
      PacketPiece(s, n, receiving);
    }
  }

  lemma PacketPiece(s: seq<byte>, n: byte, receiving: bool)
    requires 0 < |s| && s[0] == SOH && !ReadPacket(s[1..], n).Cut?
    ensures var x := FirstPiece(s, n); PieceOk(x, n, receiving) && 0 < |Framed(x, n)| && Framed(x, n) <= s
  {
    hide Sum;
    if BLOCK + 4 <= |s| {
      PacketParts(s);
    }
  }

  lemma PacketParts(s: seq<byte>)
    requires BLOCK + 4 <= |s|
    ensures s[1..][2..BLOCK + 2] == s[3..BLOCK + 3] && s[1..][BLOCK + 2] == s[BLOCK + 3]
    ensures [s[0], s[1], s[2]] + s[3..BLOCK + 3] + [s[BLOCK + 3]] <= s
  {
  }

  // ---- the padding at the end ----

  /** The length of the run of end-of-file octets at the end. */
  function Run(s: seq<byte>): (k: nat)
    ensures k <= |s| && forall i :: |s| - k <= i < |s| ==> s[i] == EOF
    ensures k < |s| ==> s[|s| - k - 1] != EOF
  {
    if |s| == 0 || s[|s| - 1] != EOF then 0 else 1 + Run(s[..|s| - 1])
  }

  /** What the padding of an image is: a run of at least three end-of-file octets. */
  function Padding(image: seq<byte>): nat { if Run(image) < 3 then 0 else Run(image) }

  /** What the code takes off: it looks at the memory in front of the buffer as well. */
  function Dropped(front: seq<byte>, image: seq<byte>): nat {
    if |image| == 0 || Run(front + image) < 3 then 0 else Run(front + image)
  }

  lemma RunConcat(front: seq<byte>, image: seq<byte>)
    ensures Run(front + image) == if Run(image) < |image| then Run(image) else |image| + Run(front)
  {
    var k := if Run(image) < |image| then Run(image) else |image| + Run(front);
    RunIs(front + image, k);
  }

  lemma {:induction false} RunIs(s: seq<byte>, k: nat)
    requires k <= |s| && (forall i :: |s| - k <= i < |s| ==> s[i] == EOF) && (k < |s| ==> s[|s| - k - 1] != EOF)
    ensures Run(s) == k
    decreases k
  {
    if 0 < k {
      RunIs(s[..|s| - 1], k - 1);
    }
  }

  /** The code takes off exactly the padding, except from an image of nothing but end-of-file octets
      behind one more of them. */
  lemma DropsThePadding(front: seq<byte>, image: seq<byte>)
    requires |image| == 0 || 3 <= |image|
    ensures Dropped(front, image) == Padding(image) <==> !(0 < |image| && Run(image) == |image| && 0 < Run(front))
  {
    RunConcat(front, image);
  }

  function Fill(n: nat): (s: seq<byte>)
    ensures |s| == n && forall i :: 0 <= i < n ==> s[i] == EOF
  {
    seq(n, _ => EOF)
  }

  /** The end-of-file octets that fill the last block of a file. */
  function PadLength(size: nat): nat { if size % BLOCK == 0 then 0 else BLOCK - size % BLOCK }

  /** The packets of a file, its last block padded. */
  function Packets(data: seq<byte>): seq<Piece>
    requires |data| % BLOCK == 0
  {
    if |data| == 0 then [] else [Good(data[..BLOCK])] + Packets(data[BLOCK..])
  }

  lemma {:induction false} PacketsCarry(data: seq<byte>, n: byte, receiving: bool)
    requires |data| % BLOCK == 0
    ensures AllOk(Packets(data), n, receiving) && Image(Packets(data)) == data
    decreases |data|
  {
    if |data| > 0 {
      PacketsCarry(data[BLOCK..], Succ(n), true);
      assert Packets(data)[1..] == Packets(data[BLOCK..]);
      assert data == data[..BLOCK] + data[BLOCK..];
    }
  }

  /** The least number of end-of-file octets that fills the last block. */
  function Padded(data: seq<byte>): (s: seq<byte>)
    ensures |s| % 128 == 0 && |data| <= |s| < |data| + 128
    ensures s[..|data|] == data && forall i :: |data| <= i < |s| ==> s[i] == 0x1A
  {
    data + Fill(PadLength(|data|))
  }

  lemma PaddedRun(front: seq<byte>, data: seq<byte>)
    requires 0 < |data| && data[|data| - 1] != EOF
    ensures Dropped(front, Padded(data)) == if PadLength(|data|) < 3 then 0 else PadLength(|data|)
  {
    RunIs(Padded(data), PadLength(|data|));
    RunConcat(front, Padded(data));
  }

  lemma PaddedReceived(data: seq<byte>, rest: seq<byte>)
    ensures var r := Receive(Stream(Packets(Padded(data)), 1) + rest, 1, false, Got([], []));
      r.Done? && r.got.image == Padded(data)
  {
    hide Receive, Stream, Packets;
    PacketsCarry(Padded(data), 1, false);
    ReceivesStream(Packets(Padded(data)), 1, false, Got([], []), rest);
    assert [] + Image(Packets(Padded(data))) == Padded(data);
  }

  /** A file that does not end in an end-of-file octet is received as it was sent if and only if its
      last block is full or needs at least three octets of padding. */
  lemma FileRoundTrip(data: seq<byte>, front: seq<byte>, rest: seq<byte>)
    requires 0 < |data| && data[|data| - 1] != EOF
    ensures var r := Receive(Stream(Packets(Padded(data)), 1) + rest, 1, false, Got([], []));
      r.Done? && Dropped(front, r.got.image) <= |r.got.image| &&
      (r.got.image[..|r.got.image| - Dropped(front, r.got.image)] == data <==> |data| % 128 !in {126, 127})
  {
    PaddedReceived(data, rest);
    PaddedRun(front, data);
    hide Receive, Stream, Packets, Dropped, Run;
    assert Padded(data)[..|data|] == data;
  }

  // ---- xmodem_recv ----

  /** xmodem_read_block at p of the stream, into the memory at pos: the octets used and the verdict;
      cut says that the stream ended before. */
  method ReadBlock(input: seq<byte>, p: nat, n: byte, mem: array<byte>, pos: nat) returns (r: int, q: nat, cut: bool)
    requires p <= |input| && pos + BLOCK <= mem.Length
    modifies mem
    ensures forall i :: 0 <= i < pos ==> mem[i] == old(mem[i])
    ensures match ReadPacket(input[p..], n)
            case Cut => cut
            case Rejected(used) => !cut && r == -1 && q == p + used
            case Accepted(data) => !cut && r == BLOCK && q == p + BLOCK + 3 && mem[pos..pos + BLOCK] == data
  {
    hide Sum;
    r, q, cut := -1, p, false;
    if |input| <= q {
      return -1, q, true;
    }
    q := q + 1;
    if input[p] != n {
      return;
    }
    if |input| <= q {
      return -1, q, true;
    }
    q := q + 1;
    if input[p + 1] != 255 - n {
      return;
    }
    var sum;
    sum, q, cut := ReadData(input, q, mem, pos);
    if cut || |input| <= q {
      return -1, q, true;
    }
    assert input[p..][2..BLOCK + 2] == input[p + 2..p + 2 + BLOCK];
    q := q + 1;
    if input[q - 1] != sum {
      return;
    }
    r := BLOCK;
  }

  /** The data loop of xmodem_read_block. */
  method ReadData(input: seq<byte>, p: nat, mem: array<byte>, pos: nat) returns (sum: byte, q: nat, cut: bool)
    requires p <= |input| && pos + BLOCK <= mem.Length
    modifies mem
    ensures forall i :: 0 <= i < pos ==> mem[i] == old(mem[i])
    ensures cut <==> |input| < p + BLOCK
    ensures !cut ==> q == p + BLOCK && mem[pos..pos + BLOCK] == input[p..q] && sum == Sum(input[p..q])
  {
    hide Sum;
    EmptySum();
    assert input[p..p] == [];
    sum, q, cut := 0, p, false;
    var i := 0;
    while i < BLOCK
      invariant i <= BLOCK && q == p + i <= |input|
      invariant mem[pos..pos + i] == input[p..q] && sum == Sum(input[p..q])
      invariant forall k :: 0 <= k < pos ==> mem[k] == old(mem[k])
    {
      if |input| <= q {
        return sum, q, true;
      }
      mem[pos + i] := input[q];
      SumNext(input[p..q], input[q]);
      assert input[p..q] + [input[q]] == input[p..q + 1];
      sum := (sum + input[q]) % 256;
      i, q := i + 1, q + 1;
    }
  }

  lemma EmptySum()
    ensures Sum([]) == 0
  {
  }

  lemma SumNext(s: seq<byte>, b: byte)
    ensures Sum(s + [b]) == (Sum(s) + b) % 256
  {
    assert (s + [b])[..|s|] == s;
  }

  /** Run at the end of the memory up to pos, at least three octets long or not. */
  lemma LastThree(s: seq<byte>)
    requires 3 <= |s|
    ensures 3 <= Run(s) <==> s[|s| - 1] == EOF && s[|s| - 2] == EOF && s[|s| - 3] == EOF
  {
    assert Run(s) < 3 ==> s[|s| - Run(s) - 1] != EOF;
  }

  /** The end of xmodem_recv: how many octets to take off. */
  method CountPadding(mem: array<byte>, start: nat, pos: nat) returns (cnt: nat)
    requires 3 <= start <= pos <= mem.Length && exists i :: 0 <= i < start && mem[i] != EOF
    ensures cnt == Dropped(mem[..start], mem[start..pos])
  {
    ghost var s := mem[..pos];
    assert s == mem[..start] + mem[start..pos];
    cnt := 0;
    LastThree(s);
    if mem[pos - 1] == EOF && mem[pos - 2] == EOF && mem[pos - 3] == EOF {
      while pos - start != 0 && mem[pos - cnt - 1] == EOF
        invariant cnt < pos && (pos == start ==> cnt == 0) && forall i :: pos - cnt <= i < pos ==> mem[i] == EOF
        decreases pos - cnt
      {
        cnt := cnt + 1;
      }
      if pos != start {
        RunIs(s, cnt);
      }
    }
  }

  /** xmodem_recv into the memory from start on. */
  method Recv(input: seq<byte>, mem: array<byte>, start: nat) returns (r: int, sent: seq<byte>, starved: bool)
    requires 3 <= start && start + |input| + BLOCK <= mem.Length
    requires exists i :: 0 <= i < start && mem[i] != EOF
    modifies mem
    ensures forall i :: 0 <= i < start ==> mem[i] == old(mem[i])
    ensures starved <==> Receive(input, 1, false, Got([], [])).Starved?
    ensures sent == Receive(input, 1, false, Got([], [])).got.sent
    ensures Receive(input, 1, false, Got([], [])).Aborted? ==> r == -1
    ensures Receive(input, 1, false, Got([], [])).Done? ==>
              Delivered(Receive(input, 1, false, Got([], [])).got, mem[..], start, r, sent)
  {
    hide Receive, Sum, Dropped, ReadPacket;
    ghost var all := Receive(input, 1, false, Got([], []));
    ghost var got := Got([], []);
    var p, n: byte, receiving, pos := 0, 1, false, start;
    r, sent, starved := -1, [], false;
    assert input[0..] == input;
    while p < |input|
      invariant p <= |input| && start <= pos <= start + p && r == -1 && !starved
      invariant forall i :: 0 <= i < start ==> mem[i] == old(mem[i])
      invariant all == Receive(input[p..], n, receiving, got)
      invariant mem[start..pos] == got.image && sent == got.sent
      decreases |input| - p
    {
      var c := input[p];
      ReceiveStep(input, p, n, receiving, got);
      p := p + 1;
      if c == EOT {
        sent := sent + [ACK];
        var cnt := CountPadding(mem, start, pos);
        r := pos - start - cnt;
        assert mem[..start] == mem[..][..start];
        return;
      } else if c == CAN {
        return;
      } else if c == SOH {
        receiving := true;
        var size, q, cut := ReadBlock(input, p, n, mem, pos);
        if cut {
          return -1, sent, true;
        }
        if size < 0 {
          sent := sent + [NAK];
          got := got.(sent := got.sent + [NAK]);
        } else {
          n := Succ(n);
          assert mem[start..pos + size] == mem[start..pos] + mem[pos..pos + size];
          got := Got(got.image + mem[pos..pos + size], got.sent + [ACK]);
          pos := pos + size;
          sent := sent + [ACK];
        }
        p := q;
      } else if receiving {
        return;
      }
    }
    EmptyStarves(input[p..], n, receiving, got);
    starved := true;
  }

  /** A completed transfer: the image is in memory, the replies are out, and the result is the size
      without what the code takes for padding. */
  ghost predicate Delivered(got: Got, mem: seq<byte>, start: nat, r: int, sent: seq<byte>) {
    && start + |got.image| <= |mem| && mem[start..start + |got.image|] == got.image && sent == got.sent
    && r == |got.image| - Dropped(mem[..start], got.image)
  }

  lemma EmptyStarves(s: seq<byte>, n: byte, receiving: bool, got: Got)
    requires |s| == 0
    ensures Receive(s, n, receiving, got) == Starved(got)
  {
  }

  /** One command of the stream. */
  lemma ReceiveStep(input: seq<byte>, p: nat, n: byte, receiving: bool, got: Got)
    requires p < |input|
    ensures var all := Receive(input[p..], n, receiving, got);
      if input[p] == EOT then all == Done(got.(sent := got.sent + [ACK]))
      else if input[p] == CAN then all == Aborted(got)
      else if input[p] == SOH then
        match ReadPacket(input[p + 1..], n)
        case Cut => all == Starved(got)
        case Rejected(used) => all == Receive(input[p + 1 + used..], n, true, got.(sent := got.sent + [NAK]))
        case Accepted(data) =>
          all == Receive(input[p + 1 + BLOCK + 3..], Succ(n), true, Got(got.image + data, got.sent + [ACK]))
      else if receiving then all == Aborted(got)
      else all == Receive(input[p + 1..], n, receiving, got)
  {
    hide Sum;
    var s := input[p..];
    assert s[1..] == input[p + 1..];
    match ReadPacket(s[1..], n)
    case Cut =>
    case Rejected(used) => assert s[1 + used..] == input[p + 1 + used..];
    case Accepted(data) => assert s[BLOCK + 4..] == input[p + 1 + BLOCK + 3..];
  }
}
