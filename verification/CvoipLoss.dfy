/** Corrupt packets on a link of two drivers, neither of which asks for a repetition (drv_dect_cosic_drv_cvoip.c). */
module CvoipLoss {
  import opened Cvoip
  import opened CvoipRuns
  import opened CvoipLink

  // ----- no NACK comes from the two functions -----

  datatype Event = Sends | Receives(p: seq<Byte>)

  /** In the course of these events, as far as the driver can go, no NACK is sent. */
  predicate SendsNoNack(d: Dev, events: seq<Event>)
    decreases |events|
  {
    events != [] ==>
      match events[0]
      case Sends =>
        WellFormed(d) ==> TxStep(d).1 != [] && IsAck(TxStep(d).1[0]) && SendsNoNack(TxStep(d).0, events[1..])
      case Receives(p) =>
        |p| == PACKET && |d.rxBuf.cmd| == COMMAND && RxFits(d, p) ==> SendsNoNack(RxStep(d, p), events[1..])
  }

  lemma SendKeepsAck(d: Dev)
    requires WellFormed(d) && IsAck(d.tx.h0)
    ensures |TxStep(d).1| == PACKET && IsAck(TxStep(d).1[0]) && IsAck(TxStep(d).0.tx.h0)
  {
    if Sending(d) {
      var b := d.txBuf;
      var num, last, size := NumberAt(b.index), LastAt(b.index, b.len), SizeAt(b.index, b.len);
      FinishAcknowledges(Advance(d), MakeH0(size, last, num), MakeH1(num, 0), b.cmd[b.index..b.index + size]);
    } else if !SendsDummy(d) {
      FinishAcknowledges(d, 0, 0, []);
      FinishAcknowledges(d.(tx := d.tx.(state := TransOver)), 0, 0, []);
    }
  }

  lemma ReceiveKeepsAck(d: Dev, p: seq<Byte>)
    requires |p| == PACKET && |d.rxBuf.cmd| == COMMAND && RxFits(d, p) && IsAck(d.tx.h0)
    ensures IsAck(RxStep(d, p).tx.h0)
  {}

  /** A driver that is not told to refuse the transfer never sends a NACK, whatever it receives. */
  lemma {:induction false} NeverNacks(d: Dev, events: seq<Event>)
    requires IsAck(d.tx.h0)
    ensures SendsNoNack(d, events)
    decreases |events|
  {
    if events != [] {
      match events[0]
      case Sends =>
        if WellFormed(d) {
          SendKeepsAck(d);
          NeverNacks(TxStep(d).0, events[1..]);
        }
      case Receives(p) =>
        if |p| == PACKET && |d.rxBuf.cmd| == COMMAND && RxFits(d, p) {
          ReceiveKeepsAck(d, p);
          NeverNacks(RxStep(d, p), events[1..]);
        }
    }
  }

  // ----- a packet lost on the way -----

  /** The bytes of the first i packets without those of packet k. */
  function Without(cmd: seq<Byte>, len: Byte, k: nat, i: nat): (s: seq<Byte>)
    requires |cmd| == COMMAND && 1 <= k <= i <= PacketCount(len)
    ensures |s| <= len
  {
    PieceNotEmpty(len, k);
    cmd[..PAYLOAD * (k - 1)] + if i == k then [] else cmd[PAYLOAD * k..BytesIn(len, i)]
  }

  lemma WithoutNext(cmd: seq<Byte>, len: Byte, k: nat, i: nat)
    requires |cmd| == COMMAND && 1 <= k <= i < PacketCount(len)
    ensures Without(cmd, len, k, i) + Piece(cmd, len, i + 1) == Without(cmd, len, k, i + 1)
    ensures |Without(cmd, len, k, i)| + PieceLen(len, i + 1) <= 255
  {
    PieceNotEmpty(len, i + 1);
    var front, from := cmd[..PAYLOAD * (k - 1)], PAYLOAD * i;
    assert Piece(cmd, len, i + 1) == cmd[from..BytesIn(len, i + 1)];
    if i == k {
      assert front + [] == front;
    } else {
      assert cmd[PAYLOAD * k..from] + cmd[from..BytesIn(len, i + 1)] == cmd[PAYLOAD * k..BytesIn(len, i + 1)];
    }
  }

  /** The receiver of a command that has missed packet k and awaits number `num`, after i packets. */
  predicate Lacking(b: Dev, cmd: seq<Byte>, len: Byte, k: nat, num: nat, i: nat) {
    && |cmd| == COMMAND && 1 <= k <= i <= PacketCount(len) && (num == 0 || num == k)
    && HoldsBytes(b, Without(cmd, len, k, i)) && b.rx.num == num
    && Answering(b) && SeqNum(b.rx.h0, b.rx.h1) == (if i == k then 0 else i)
    && b.rx.state == if num == 0 && i == PacketCount(len) && i > k then LastPacket else InProgress
  }

  /** Number k stays awaited once it has passed. */
  lemma LaterNumberIsNotAwaited(b: Dev, p: seq<Byte>, cmd: seq<Byte>, len: Byte, k: nat)
    requires Carries(p, cmd, len, k) && 0 <= b.rx.num < k
    ensures RxNote(b, p[0], p[1]).rx.num == b.rx.num
  {
    PieceNotEmpty(len, k);
    SignedNumber(p[0], p[1]);
  }

  lemma LackingTakes(b: Dev, p: seq<Byte>, cmd: seq<Byte>, len: Byte, k: nat, num: nat, i: nat)
    requires Lacking(b, cmd, len, k, num, i) && i < PacketCount(len)
    requires Carries(p, cmd, len, i + 1) && IsAck(p[0]) && NackIndex(p[1]) == 0
    ensures RxFits(b, p) && Lacking(RxStep(b, p), cmd, len, k, num, i + 1)
  {
    WithoutNext(cmd, len, k, i);
    AppendsPiece(b, p, cmd, len, i + 1, Without(cmd, len, k, i));
    LaterNumberIsNotAwaited(b, p, cmd, len, i + 1);
    PieceNotEmpty(len, i + 1);
    assert RxStep(b, p).txBuf == b.txBuf && RxStep(b, p).tx.h0 == 0;
  }

  lemma StillLacking(b: Dev, b': Dev, cmd: seq<Byte>, len: Byte, k: nat, num: nat, i: nat)
    requires Lacking(b, cmd, len, k, num, i) && b'.txBuf == b.txBuf && b'.rxBuf == b.rxBuf && IsAck(b'.tx.h0)
    requires b'.rx == b.rx
    ensures Lacking(b', cmd, len, k, num, i)
  {}

  /** The number a receiver with packet k missing acknowledges after i packets. */
  function Answer(k: nat, i: nat): nat {
    if i == k then 0 else i
  }

  lemma LackingAnswers(b: Dev, cmd: seq<Byte>, len: Byte, k: nat, num: nat, i: nat)
    requires Lacking(b, cmd, len, k, num, i) && i < PacketCount(len)
    ensures WellFormed(b) && Acknowledges(Send(b).1, Answer(k, i)) && Lacking(Send(b).0, cmd, len, k, num, i)
  {
    Answers(b);
    StillLacking(b, Send(b).0, cmd, len, k, num, i);
  }

  lemma SenderHearsAnswer(a: Dev, q: seq<Byte>, cmd: seq<Byte>, len: Byte, k: nat, i: nat)
    requires SenderAt(a, cmd, len, i + 1) && !a.dummy && 1 <= k <= i && Acknowledges(q, Answer(k, i))
    ensures RxFits(a, q) && SenderAt(RxStep(a, q), cmd, len, i + 1)
  {
    if i == k {
      SenderHearsDummy(a, q, cmd, len, i + 1);
    } else {
      SenderHearsNumber(a, q, cmd, len, i);
    }
  }

  /** A cycle in which the next packet arrives, although an earlier one is missing. */
  lemma LackingCycle(a: Dev, b: Dev, cmd: seq<Byte>, len: Byte, k: nat, num: nat, i: nat)
    requires SenderAt(a, cmd, len, i) && Lacking(b, cmd, len, k, num, i) && i < PacketCount(len)
    ensures CanCycle(a, b)
    ensures SenderAt(Cycle(a, b).0, cmd, len, i + 1) && Lacking(Cycle(a, b).1, cmd, len, k, num, i + 1)
  {
    SenderSends(a, cmd, len, i);
    LackingAnswers(b, cmd, len, k, num, i);
    SenderHearsAnswer(Send(a).0, Send(b).1, cmd, len, k, i);
    LackingTakes(Send(b).0, Send(a).1, cmd, len, k, num, i);
  }

  /** What both sides have in the end. */
  predicate LostFor(a: Dev, b: Dev, cmd: seq<Byte>, len: Byte, k: nat, num: nat) {
    && |cmd| == COMMAND && 1 <= k <= PacketCount(len)
    && Over(a) && HoldsBytes(b, Without(cmd, len, k, PacketCount(len)))
    && (b.rx.state == TransOver <==> num == 0 || k == PacketCount(len))
  }

  /** The last cycle when the lost packet was not the last one: the sender takes the command for delivered. */
  lemma LackingEnds(a: Dev, b: Dev, cmd: seq<Byte>, len: Byte, k: nat, num: nat)
    requires SenderAt(a, cmd, len, PacketCount(len)) && Lacking(b, cmd, len, k, num, PacketCount(len))
    requires k < PacketCount(len)
    ensures CanCycle(a, b) && LostFor(Cycle(a, b).0, Cycle(a, b).1, cmd, len, k, num)
  {
    Answers(b);
    DummyAcknowledgesNothing();
    SenderEnds(a, Send(b).1, cmd, len);
    assert RxStep(Send(b).0, Zeros(PACKET)) == RxDummy(Send(b).0);
  }

  lemma DummyEnds(d: Dev)
    requires |d.rxBuf.cmd| == COMMAND && d.dummy
    ensures RxFits(d, Zeros(PACKET)) && Over(RxStep(d, Zeros(PACKET))) && RxStep(d, Zeros(PACKET)).rxBuf == d.rxBuf
  {
    DummyAcknowledgesNothing();
    assert RxStep(d, Zeros(PACKET)) == RxDummy(d);
  }

  lemma SenderSendsDummy(a: Dev, cmd: seq<Byte>, len: Byte)
    requires SenderAt(a, cmd, len, PacketCount(len))
    ensures WellFormed(a) && Send(a).1 == Zeros(PACKET) && Send(a).0.dummy && Send(a).0.rxBuf == a.rxBuf
  {}

  /** The last cycle when the last packet was lost: both send dummies and take the transaction for over. */
  lemma LastLost(a: Dev, b: Dev, cmd: seq<Byte>, len: Byte, num: nat)
    requires SenderAt(a, cmd, len, PacketCount(len)) && Lacking(b, cmd, len, PacketCount(len), num, PacketCount(len))
    ensures CanCycle(a, b) && LostFor(Cycle(a, b).0, Cycle(a, b).1, cmd, len, PacketCount(len), num)
  {
    SenderSendsDummy(a, cmd, len);
    Answers(b);
    DummyEnds(Send(a).0);
    DummyEnds(Send(b).0);
  }

  /** n cycles without further corruption; the run ends where one cannot go on (it never does below). */
  function Cycles(a: Dev, b: Dev, n: nat): (Dev, Dev)
    decreases n
  {
    if n == 0 || !CanCycle(a, b) then (a, b) else Cycles(Cycle(a, b).0, Cycle(a, b).1, n - 1)
  }

  lemma {:induction false} LossStays(end: (Dev, Dev), a: Dev, b: Dev, cmd: seq<Byte>, len: Byte,
                                     k: nat, num: nat, i: nat)
    requires SenderAt(a, cmd, len, i) && Lacking(b, cmd, len, k, num, i)
    requires end == Cycles(a, b, PacketCount(len) - i + 1)
    ensures LostFor(end.0, end.1, cmd, len, k, num)
    decreases PacketCount(len) - i
  {
    if i < PacketCount(len) {
      LackingCycle(a, b, cmd, len, k, num, i);
      LossStays(end, Cycle(a, b).0, Cycle(a, b).1, cmd, len, k, num, i + 1);
    } else if k < PacketCount(len) {
      LackingEnds(a, b, cmd, len, k, num);
    } else {
      LastLost(a, b, cmd, len, num);
    }
  }

  /** A reception under way after k packets: the header received last, if any, was not that of a last packet. */
  predicate MidCommand(b: Dev, k: nat) {
    b.rx.state == InProgress && (IsLast(b.rx.h0) ==> k == 0)
  }

  /** The number awaited after a corrupt packet k; none if nothing came before it. */
  function Awaited(b: Dev, k: nat): nat {
    if IsLast(b.rx.h0) then 0 else k
  }

  /** What a driver with no numbered packet out notes of a corrupt one: which number it expects next. */
  predicate Noted(b: Dev, b': Dev) {
    && b'.txBuf == b.txBuf && b'.rxBuf == b.rxBuf && b'.tx.h0 == b.tx.h0
    && b'.rx == if IsLast(b.rx.h0) then b.rx else b.rx.(num := SeqNum(b.rx.h0, b.rx.h1) + 1, h0 := 0, h1 := 0)
  }

  lemma CorruptNoted(b: Dev, p: seq<Byte>)
    requires SeqNum(b.tx.h0, b.tx.h1) == 0 && |b.rxBuf.cmd| == COMMAND && |p| == PACKET && !CrcValid(p)
    ensures RxFits(b, p) && Noted(b, RxStep(b, p))
  {
    assert RxStep(b, p) == RxCorrupt(b);
  }

  lemma NothingStored(b: Dev, b': Dev, cmd: seq<Byte>, len: Byte, k: nat, num: nat)
    requires 1 <= k <= PacketCount(len) && ReceiverAt(b, cmd, len, k - 1) && (num == 0 || num == k)
    requires b'.txBuf == b.txBuf && b'.rxBuf == b.rxBuf && IsAck(b'.tx.h0)
    requires PayloadLen(b'.rx.h0) == 0 && SeqNum(b'.rx.h0, b'.rx.h1) == 0
    requires b'.rx.num == num && b'.rx.state == InProgress
    ensures Lacking(b', cmd, len, k, num, k)
  {
    var from := PAYLOAD * (k - 1);
    assert BytesIn(len, k - 1) == from && cmd[..from] + [] == cmd[..from];
  }

  /** Packet k is corrupt on arrival: nothing is stored, and its number awaited unless no packet came before it. */
  lemma CorruptArrives(b: Dev, b': Dev, cmd: seq<Byte>, len: Byte, k: nat)
    requires 1 <= k <= PacketCount(len) && ReceiverAt(b, cmd, len, k - 1) && MidCommand(b, k - 1) && Noted(b, b')
    ensures Lacking(b', cmd, len, k, Awaited(b, k), k)
  {
    if IsLast(b.rx.h0) {
      NothingStored(b, b', cmd, len, k, 0);
    } else {
      assert b'.rx.h0 == 0 && b'.rx.h1 == 0 && b'.rx.num == k;
      NothingStored(b, b', cmd, len, k, k);
    }
  }

  /** An answer leaves the receiver where it is, with no numbered packet out. */
  lemma ReceiverWaits(b: Dev, cmd: seq<Byte>, len: Byte, k: nat)
    requires ReceiverAt(b, cmd, len, k) && k < PacketCount(len) && b.rx.state == InProgress
    ensures WellFormed(b) && Acknowledges(Send(b).1, k)
    ensures var b' := Send(b).0; ReceiverAt(b', cmd, len, k) && b'.rx == b.rx && SeqNum(b'.tx.h0, b'.tx.h1) == 0
  {
    Answers(b);
    StillReceiver(b, Send(b).0, cmd, len, k);
  }

  /** Cycles without corruption keep it so up to the last packet. */
  lemma MidCommandStays(a: Dev, b: Dev, cmd: seq<Byte>, len: Byte, k: nat)
    requires LinkAt(a, b, cmd, len, k) && k + 1 < PacketCount(len) && MidCommand(b, k)
    ensures CanCycle(a, b) && LinkAt(Cycle(a, b).0, Cycle(a, b).1, cmd, len, k + 1)
    ensures MidCommand(Cycle(a, b).1, k + 1)
  {
    CycleMovesOn(a, b, cmd, len, k);
    SenderSends(a, cmd, len, k);
    ReceiverWaits(b, cmd, len, k);
    var b', p := Send(b).0, Send(a).1;
    TakesPiece(b', p, cmd, len, k + 1);
    assert RxStep(b', p).rx.h0 == p[0];
  }

  lemma AnsweredIsHit(b: Dev, p: seq<Byte>, cmd: seq<Byte>, len: Byte, k: nat)
    requires 1 <= k <= PacketCount(len) && ReceiverAt(b, cmd, len, k - 1) && MidCommand(b, k - 1)
    requires |p| == PACKET && !CrcValid(p) && SeqNum(b.tx.h0, b.tx.h1) == 0
    ensures RxFits(b, p) && Lacking(RxStep(b, p), cmd, len, k, Awaited(b, k), k)
  {
    CorruptNoted(b, p);
    CorruptArrives(b, RxStep(b, p), cmd, len, k);
  }

  lemma SameAwaited(b: Dev, b': Dev, k: nat)
    requires b'.rx == b.rx
    ensures Awaited(b', k) == Awaited(b, k)
  {}

  lemma ReceiverIsHit(b: Dev, p: seq<Byte>, cmd: seq<Byte>, len: Byte, k: nat) returns (b': Dev, q: seq<Byte>)
    requires 1 <= k <= PacketCount(len) && ReceiverAt(b, cmd, len, k - 1) && MidCommand(b, k - 1)
    requires |p| == PACKET && !CrcValid(p)
    ensures WellFormed(b) && (b', q) == Send(b) && Acknowledges(q, k - 1)
    ensures |b'.rxBuf.cmd| == COMMAND && RxFits(b', p)
    ensures Lacking(RxStep(b', p), cmd, len, k, Awaited(b, k), k)
  {
    ReceiverWaits(b, cmd, len, k - 1);
    b', q := Send(b).0, Send(b).1;
    SameAwaited(b, b', k);
    AnsweredIsHit(b', p, cmd, len, k);
  }

  lemma SenderGoesOn(a: Dev, q: seq<Byte>, cmd: seq<Byte>, len: Byte, k: nat)
    requires SenderAt(a, cmd, len, k) && k < PacketCount(len) && Acknowledges(q, k)
    ensures WellFormed(a) && |Send(a).0.rxBuf.cmd| == COMMAND && RxFits(Send(a).0, q)
    ensures SenderAt(RxStep(Send(a).0, q), cmd, len, k + 1)
  {
    SenderSends(a, cmd, len, k);
    SenderHears(Send(a).0, q, cmd, len, k);
  }

  /** The two drivers when packet k, and nothing else, was corrupt on arrival. */
  ghost predicate AfterCorrupt(a: Dev, b: Dev, p: seq<Byte>, a1: Dev, b1: Dev) {
    && WellFormed(a) && WellFormed(b) && |p| == PACKET && |Send(b).1| == PACKET
    && |Send(a).0.rxBuf.cmd| == |Send(b).0.rxBuf.cmd| == COMMAND
    && RxFits(Send(a).0, Send(b).1) && RxFits(Send(b).0, p)
    && a1 == RxStep(Send(a).0, Send(b).1) && b1 == RxStep(Send(b).0, p)
  }

  lemma LossBegins(a: Dev, b: Dev, p: seq<Byte>, cmd: seq<Byte>, len: Byte, k: nat) returns (a1: Dev, b1: Dev)
    requires 1 <= k <= PacketCount(len) && LinkAt(a, b, cmd, len, k - 1) && MidCommand(b, k - 1)
    requires |p| == PACKET && !CrcValid(p)
    ensures AfterCorrupt(a, b, p, a1, b1)
    ensures SenderAt(a1, cmd, len, k) && Lacking(b1, cmd, len, k, Awaited(b, k), k)
  {
    assert SenderAt(a, cmd, len, k - 1) && ReceiverAt(b, cmd, len, k - 1);
    var b', q := ReceiverIsHit(b, p, cmd, len, k);
    SenderGoesOn(a, q, cmd, len, k - 1);
    a1, b1 := RxStep(Send(a).0, q), RxStep(b', p);
  }

  /**
   * A packet that is corrupt on arrival is lost: the other side is not asked to repeat it, sends the rest and takes the
   * command for delivered. The receiver ends up without the bytes of this packet, and notices by not coming to an end
   * unless the packet was the last one, or the first one after a cleared header.
   */
  lemma CorruptPacketIsLost(a: Dev, b: Dev, p: seq<Byte>, cmd: seq<Byte>, len: Byte, k: nat)
      returns (a1: Dev, b1: Dev)
    requires 1 <= k <= PacketCount(len) && LinkAt(a, b, cmd, len, k - 1) && MidCommand(b, k - 1)
    requires |p| == PACKET && !CrcValid(p)
    ensures AfterCorrupt(a, b, p, a1, b1)
    ensures var (a', b') := Cycles(a1, b1, PacketCount(len) - k + 1);
            && Over(a') && HoldsBytes(b', Without(cmd, len, k, PacketCount(len)))
            && (b'.rx.state == TransOver <==> k == PacketCount(len) || IsLast(b.rx.h0))
  {
    a1, b1 := LossBegins(a, b, p, cmd, len, k);
    LossStays(Cycles(a1, b1, PacketCount(len) - k + 1), a1, b1, cmd, len, k, Awaited(b, k), k);
  }

  // ----- a repetition nobody asked for -----

  lemma SenderStepsBack(a: Dev, q: seq<Byte>, cmd: seq<Byte>, len: Byte, k: nat)
    requires 2 <= k <= PacketCount(len) && SenderAt(a, cmd, len, k - 1) && |q| == PACKET && !CrcValid(q)
    ensures WellFormed(a) && |Send(a).0.rxBuf.cmd| == COMMAND && RxFits(Send(a).0, q)
    ensures Carries(Send(a).1, cmd, len, k) && IsAck(Send(a).1[0]) && NackIndex(Send(a).1[1]) == 0
    ensures ReadyAt(RxStep(Send(a).0, q), cmd, len, k - 1)
  {
    SenderSends(a, cmd, len, k - 1);
    SendsPacket(a.(dummy := false), cmd, len, k);
    CorruptStepsBack(Send(a).0, q, cmd, len, k);
  }

  lemma SendsAgain(a: Dev, cmd: seq<Byte>, len: Byte, k: nat)
    requires ReadyAt(a, cmd, len, k)
    ensures WellFormed(a) && Carries(Send(a).1, cmd, len, k)
  {
    ReadyIsWellFormed(a.(dummy := false), cmd, len, k);
    SendsPacket(a.(dummy := false), cmd, len, k);
  }

  lemma AppendsRepeat(b: Dev, p: seq<Byte>, cmd: seq<Byte>, len: Byte, i: nat, k: nat)
    requires ReceiverAt(b, cmd, len, i) && Carries(p, cmd, len, k) && BytesIn(len, i) + PieceLen(len, k) <= 255
    ensures WellFormed(b) && |Send(b).0.rxBuf.cmd| == COMMAND && RxFits(Send(b).0, p)
    ensures HoldsBytes(RxStep(Send(b).0, p), cmd[..BytesIn(len, i)] + Piece(cmd, len, k))
  {
    Answers(b);
    AppendsPiece(Send(b).0, p, cmd, len, k, cmd[..BytesIn(len, i)]);
  }

  /** The two drivers one cycle later, when the sender was sent `q` instead of the receiver's answer. */
  ghost predicate AfterCorruptAnswer(a: Dev, b: Dev, q: seq<Byte>, a1: Dev, b1: Dev) {
    && WellFormed(a) && WellFormed(b) && |q| == PACKET && |Send(a).1| == PACKET
    && |Send(a).0.rxBuf.cmd| == |Send(b).0.rxBuf.cmd| == COMMAND
    && RxFits(Send(a).0, q) && RxFits(Send(b).0, Send(a).1)
    && a1 == RxStep(Send(a).0, q) && b1 == RxStep(Send(b).0, Send(a).1)
  }

  /**
   * The answer to packet k is corrupt: the sender goes back and sends packet k - 1 once more, and the receiver, which
   * has it already, appends it to what it has.
   */
  lemma CorruptAnswerDuplicates(a: Dev, b: Dev, q: seq<Byte>, cmd: seq<Byte>, len: Byte, k: nat)
      returns (a1: Dev, b1: Dev)
    requires 2 <= k <= PacketCount(len) && LinkAt(a, b, cmd, len, k - 1)
    requires |q| == PACKET && !CrcValid(q) && BytesIn(len, k) + PAYLOAD <= 255
    ensures AfterCorruptAnswer(a, b, q, a1, b1)
    ensures WellFormed(a1) && WellFormed(b1) && Carries(Send(a1).1, cmd, len, k - 1)
    ensures |Send(b1).0.rxBuf.cmd| == COMMAND && RxFits(Send(b1).0, Send(a1).1)
    ensures HoldsBytes(RxStep(Send(b1).0, Send(a1).1), cmd[..BytesIn(len, k)] + Piece(cmd, len, k - 1))
  {
    SenderStepsBack(a, q, cmd, len, k);
    ReceiverSends(b, cmd, len, k - 1);
    ReceiverTakes(Send(b).0, Send(a).1, cmd, len, k - 1);
    a1, b1 := RxStep(Send(a).0, q), RxStep(Send(b).0, Send(a).1);
    SendsAgain(a1, cmd, len, k - 1);
    AppendsRepeat(b1, Send(a1).1, cmd, len, k, k - 1);
  }
}
