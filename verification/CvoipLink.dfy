/** Two drivers on one link: in every cycle each prepares a packet, and each handles what the other has sent. */
module CvoipLink {
  import opened Cvoip
  import opened CvoipRuns
  import opened CvoipDriver

  /** A cycle up to the transfer: the flag of an earlier dummy is cleared and a packet is prepared. */
  function Send(d: Dev): (Dev, seq<Byte>)
    requires WellFormed(d)
  {
    TxStep(d.(dummy := false))
  }

  // ----- the sender and the receiver of a command after k packets -----

  /** Packets 1 to k are out; the next one is due, or the last acknowledgement is awaited. */
  predicate SenderAt(a: Dev, cmd: seq<Byte>, len: Byte, k: nat) {
    && len > 0 && k <= PacketCount(len) && |cmd| == COMMAND
    && |a.txBuf.cmd| == COMMAND && |a.rxBuf.cmd| == COMMAND
    && (k < PacketCount(len) ==> ReadyAt(a, cmd, len, k + 1))
    && (k == PacketCount(len) ==> a.tx.state == LastPacket && a.lastTxSeq == k)
    && IsAck(a.tx.h0) && PayloadLen(a.rx.h0) == 0 && SeqNum(a.rx.h0, a.rx.h1) == 0
  }

  /** Packets 1 to k are stored, and k is still to be acknowledged. */
  predicate ReceiverAt(b: Dev, cmd: seq<Byte>, len: Byte, k: nat) {
    && len > 0 && k <= PacketCount(len)
    && Holds(b, cmd, BytesIn(len, k)) && |b.txBuf.cmd| == COMMAND && b.txBuf.len == 0
    && IsAck(b.tx.h0) && SeqNum(b.rx.h0, b.rx.h1) == k && (PayloadLen(b.rx.h0) == 0 <==> k == 0)
    && (k == PacketCount(len) ==> b.rx.state == LastPacket)
  }

  /** A packet that only acknowledges number k; for 0 it is the dummy packet. */
  predicate Acknowledges(p: seq<Byte>, k: nat) {
    |p| == PACKET && CrcValid(p) && p[0] == 0 && p[1] == k < 32
  }

  lemma {:induction false} SumOfZeros(n: nat)
    ensures Sum(Zeros(n)) == 0
  {
    if n > 0 {
      assert Zeros(n)[..n - 1] == Zeros(n - 1);
      SumOfZeros(n - 1);
    }
  }

  lemma DummyAcknowledgesNothing()
    ensures Acknowledges(Zeros(PACKET), 0)
  {
    SumOfZeros(PACKET);
  }

  /** Without a NACK to pass on, a packet acknowledges the number received last. */
  lemma FinishAcknowledges(d: Dev, h0: Byte, h1: Byte, payload: seq<Byte>)
    requires |payload| <= PAYLOAD && IsAck(h0) && h1 % 32 == 0 && IsAck(d.tx.h0)
    ensures var (d', p) := Finish(d, h0, h1, payload);
            && |p| == PACKET && p[0] == d'.tx.h0 && p[1] == d'.tx.h1 && CrcValid(p)
            && p[0] == h0 && NackIndex(p[1]) == SeqNum(d.rx.h0, d.rx.h1)
            && d'.rx == d.rx.(state := if d.rx.state == LastPacket then TransOver else d.rx.state)
            && d'.dummy == d.dummy
  {
    FieldsOfH1(h1 / 32, SeqNum(d.rx.h0, d.rx.h1), h1 + SeqNum(d.rx.h0, d.rx.h1));
  }

  // ----- a cycle of the sender -----

  lemma SenderSends(a: Dev, cmd: seq<Byte>, len: Byte, k: nat)
    requires SenderAt(a, cmd, len, k) && k < PacketCount(len)
    ensures WellFormed(a)
    ensures var (a', p) := Send(a);
            && Carries(p, cmd, len, k + 1) && IsAck(p[0]) && NackIndex(p[1]) == 0
            && SenderAt(a', cmd, len, k + 1) && !a'.dummy
  {
    var d := a.(dummy := false);
    ReadyIsWellFormed(d, cmd, len, k + 1);
    SendsPacket(d, cmd, len, k + 1);
    SenderAcknowledges(d, cmd, len, k + 1);
  }

  lemma SenderAcknowledges(d: Dev, cmd: seq<Byte>, len: Byte, k: nat)
    requires ReadyAt(d, cmd, len, k) && IsAck(d.tx.h0) && SeqNum(d.rx.h0, d.rx.h1) == 0
    ensures WellFormed(d)
    ensures var (d', p) := TxStep(d);
            && |p| == PACKET && IsAck(p[0]) && NackIndex(p[1]) == 0 && d'.tx.h0 == p[0]
            && d'.rx.h0 == d.rx.h0 && d'.rx.h1 == d.rx.h1 && d'.dummy == d.dummy && |d'.txBuf.cmd| == COMMAND
  {
    var size, last := PieceLen(len, k), k == PacketCount(len);
    SendsPiece(d, cmd, len, k);
    AdvancesTo(d, cmd, len, k);
    HeaderFields(size, last, k, 0);
    FinishAcknowledges(Advance(d), MakeH0(size, last, k), MakeH1(k, 0),
                       cmd[PAYLOAD * (k - 1)..PAYLOAD * (k - 1) + size]);
  }

  /** Clearing the number fields of a stored header leaves no number and keeps the length. */
  lemma DummyKeepsHeader(h0: Byte, h1: Byte)
    ensures SeqNum(h0 - h0 % 4, h1 % 32) == 0 && PayloadLen(h0 - h0 % 4) == PayloadLen(h0)
  {}

  lemma SenderHearsDummy(a: Dev, q: seq<Byte>, cmd: seq<Byte>, len: Byte, k: nat)
    requires SenderAt(a, cmd, len, k) && !a.dummy && Acknowledges(q, 0)
    ensures RxFits(a, q) && SenderAt(RxStep(a, q), cmd, len, k)
  {
    DummyKeepsHeader(a.rx.h0, a.rx.h1);
    assert RxStep(a, q) == RxDummy(a);
    assert RxDummy(a).tx == a.tx;
  }

  lemma AcknowledgedNumber(h1: Byte, k: nat)
    requires h1 == k < 32
    ensures SeqNum(0, h1) == 0 && PayloadLen(0) == 0 && IsAck(0) && NackIndex(h1) == k
  {}

  lemma SenderHearsNumber(a: Dev, q: seq<Byte>, cmd: seq<Byte>, len: Byte, k: nat)
    requires SenderAt(a, cmd, len, k + 1) && Acknowledges(q, k) && k > 0
    ensures RxFits(a, q) && SenderAt(RxStep(a, q), cmd, len, k + 1)
  {
    AcknowledgedNumber(q[1], k);
    var noted := RxNote(a, q[0], q[1]);
    assert RxAck(noted, q[0], q[1]) == noted;
    assert RxStep(a, q) == RxClose(noted, q[0], q[1], true);
  }

  /** The acknowledgement of the packet before does not disturb the transmission. */
  lemma SenderHears(a: Dev, q: seq<Byte>, cmd: seq<Byte>, len: Byte, k: nat)
    requires SenderAt(a, cmd, len, k + 1) && !a.dummy && Acknowledges(q, k)
    ensures RxFits(a, q) && SenderAt(RxStep(a, q), cmd, len, k + 1)
  {
    if k == 0 {
      SenderHearsDummy(a, q, cmd, len, 1);
    } else {
      SenderHearsNumber(a, q, cmd, len, k);
    }
  }

  // ----- a cycle of the receiver -----

  /** A driver with nothing to send answers with the number received last, and with a dummy if there is none. */
  predicate Answering(b: Dev) {
    && |b.txBuf.cmd| == COMMAND && |b.rxBuf.cmd| == COMMAND && b.txBuf.len == 0 && IsAck(b.tx.h0)
    && (PayloadLen(b.rx.h0) == 0 <==> SeqNum(b.rx.h0, b.rx.h1) == 0)
  }

  lemma Answers(b: Dev)
    requires Answering(b)
    ensures WellFormed(b)
    ensures var (b', q), k := Send(b), SeqNum(b.rx.h0, b.rx.h1);
            && Acknowledges(q, k) && (k == 0 ==> q == Zeros(PACKET)) && (b'.dummy <==> k == 0)
            && b'.txBuf == b.txBuf && b'.rxBuf == b.rxBuf && IsAck(b'.tx.h0) && SeqNum(b'.tx.h0, b'.tx.h1) == 0
            && b'.rx == b.rx.(state := if k > 0 && b.rx.state == LastPacket then TransOver else b.rx.state)
            && (k > 0 && b'.rx.state == TransOver ==> b'.tx.state == TransOver)
  {
    var d := b.(dummy := false);
    if SeqNum(b.rx.h0, b.rx.h1) == 0 {
      DummyAcknowledgesNothing();
    } else {
      var over := d.rx.state == TransOver || d.rx.state == LastPacket;
      FinishAcknowledges(if over then d.(tx := d.tx.(state := TransOver)) else d, 0, 0, []);
    }
  }

  lemma StillReceiver(b: Dev, b': Dev, cmd: seq<Byte>, len: Byte, k: nat)
    requires ReceiverAt(b, cmd, len, k) && b'.txBuf == b.txBuf && b'.rxBuf == b.rxBuf && IsAck(b'.tx.h0)
    requires b'.rx == b.rx.(state := b'.rx.state) && k < PacketCount(len)
    ensures ReceiverAt(b', cmd, len, k)
  {}

  lemma ReceiverSends(b: Dev, cmd: seq<Byte>, len: Byte, k: nat)
    requires ReceiverAt(b, cmd, len, k) && k < PacketCount(len)
    ensures WellFormed(b)
    ensures var (b', q) := Send(b); Acknowledges(q, k) && ReceiverAt(b', cmd, len, k)
  {
    Answers(b);
    StillReceiver(b, Send(b).0, cmd, len, k);
  }

  lemma ReceiverTakes(b: Dev, p: seq<Byte>, cmd: seq<Byte>, len: Byte, k: nat)
    requires ReceiverAt(b, cmd, len, k) && k < PacketCount(len)
    requires Carries(p, cmd, len, k + 1) && IsAck(p[0]) && NackIndex(p[1]) == 0
    ensures RxFits(b, p) && ReceiverAt(RxStep(b, p), cmd, len, k + 1)
  {
    ReceivesPacket(b, p, cmd, len, k + 1);
    PieceNotEmpty(len, k + 1);
  }

  // ----- the last cycle -----

  predicate Over(d: Dev) {
    d.tx.state == TransOver && d.rx.state == TransOver
  }

  /** When the last packet is out the sender has nothing but a dummy left, and hears the acknowledgement. */
  lemma SenderEnds(a: Dev, q: seq<Byte>, cmd: seq<Byte>, len: Byte)
    requires SenderAt(a, cmd, len, PacketCount(len)) && Acknowledges(q, PacketCount(len))
    ensures WellFormed(a) && Send(a).1 == Zeros(PACKET) && |Send(a).0.rxBuf.cmd| == COMMAND && RxFits(Send(a).0, q)
    ensures Over(RxStep(Send(a).0, q))
  {
    var n, sent := PacketCount(len), Send(a).0;
    AcknowledgedNumber(q[1], n);
    assert n > 0 && sent.tx.state == LastPacket && sent.lastTxSeq == n;
    var heard := RxAck(RxNote(sent, q[0], q[1]), q[0], q[1]);
    assert heard.tx.state == TransOver && heard.lastTxSeq == n;
    assert RxStep(sent, q) == RxClose(heard, q[0], q[1], true);
  }

  /** The receiver acknowledges the last packet, ends, and takes no harm from the dummy. */
  lemma ReceiverEnds(b: Dev, cmd: seq<Byte>, len: Byte)
    requires ReceiverAt(b, cmd, len, PacketCount(len))
    ensures WellFormed(b) && Acknowledges(Send(b).1, PacketCount(len))
    ensures |Send(b).0.rxBuf.cmd| == COMMAND && RxFits(Send(b).0, Zeros(PACKET))
    ensures var b' := RxStep(Send(b).0, Zeros(PACKET)); Over(b') && Stored(b', cmd, len)
  {
    Answers(b);
    DummyAcknowledgesNothing();
  }

  // ----- whole commands -----

  /** After k cycles of a command, or after its last cycle. */
  predicate LinkAt(a: Dev, b: Dev, cmd: seq<Byte>, len: Byte, k: nat) {
    if k <= PacketCount(len) then SenderAt(a, cmd, len, k) && ReceiverAt(b, cmd, len, k)
    else Over(a) && Over(b) && Stored(b, cmd, len)
  }

  /** Both sides can go through a cycle. */
  predicate CanCycle(a: Dev, b: Dev) {
    && WellFormed(a) && WellFormed(b)
    && |Send(a).0.rxBuf.cmd| == |Send(b).0.rxBuf.cmd| == COMMAND && |Send(a).1| == |Send(b).1| == PACKET
    && RxFits(Send(a).0, Send(b).1) && RxFits(Send(b).0, Send(a).1)
  }

  /** Each handles what the other has sent in the same cycle. */
  function Cycle(a: Dev, b: Dev): (Dev, Dev)
    requires CanCycle(a, b)
  {
    (RxStep(Send(a).0, Send(b).1), RxStep(Send(b).0, Send(a).1))
  }

  /** Every cycle moves the command one packet on; one more cycle after the last packet ends it on both sides. */
  lemma CycleMovesOn(a: Dev, b: Dev, cmd: seq<Byte>, len: Byte, k: nat)
    requires k <= PacketCount(len) && LinkAt(a, b, cmd, len, k)
    ensures CanCycle(a, b)
    ensures var (a', b') := Cycle(a, b); LinkAt(a', b', cmd, len, k + 1)
  {
    if k < PacketCount(len) {
      SenderSends(a, cmd, len, k);
      ReceiverSends(b, cmd, len, k);
      SenderHears(Send(a).0, Send(b).1, cmd, len, k);
      ReceiverTakes(Send(b).0, Send(a).1, cmd, len, k);
    } else {
      ReceiverEnds(b, cmd, len);
      SenderEnds(a, Send(b).1, cmd, len);
    }
  }

  /** The two drivers share no memory with each other or with the packet buffers. */
  predicate Linked(a: Driver, b: Driver, p: array<Byte>, q: array<Byte>) {
    && a != b && a.Separate() && b.Separate() && {a.txCmd, a.rxCmd} !! {b.txCmd, b.rxCmd}
    && p.Length == q.Length == PACKET && p != q && {p, q} !! {a.txCmd, a.rxCmd, b.txCmd, b.rxCmd}
  }

  method CycleDrivers(a: Driver, b: Driver, p: array<Byte>, q: array<Byte>)
    requires Linked(a, b, p, q) && CanCycle(a.View(), b.View())
    modifies a, a.rxCmd, b, b.rxCmd, p, q
    ensures (a.View(), b.View()) == Cycle(old(a.View()), old(b.View()))
  {
    a.StartCycle(p);
    b.StartCycle(q);
    a.HandleRxData(q);
    b.HandleRxData(p);
  }

  /** A command from driver to driver: the receive buffer of `b` ends up with the command that `a` had to send. */
  method SendCommand(a: Driver, b: Driver)
    requires a != b && {a.txCmd, a.rxCmd} !! {b.txCmd, b.rxCmd} && a.Separate() && b.Separate()
    requires LinkAt(a.View(), b.View(), a.txCmd[..], a.txLen, 0)
    modifies a, a.rxCmd, b, b.rxCmd
    ensures b.rxLen == old(a.txLen) && b.rxCmd[..b.rxLen] == old(a.txCmd[..])[..b.rxLen]
    ensures Over(a.View()) && Over(b.View())
  {
    var p, q := new Byte[PACKET](_ => 0), new Byte[PACKET](_ => 0);
    ghost var cmd, len, k := a.txCmd[..], a.txLen, 0;
    while !(a.tx.state == TransOver && a.rx.state == TransOver)
      invariant Linked(a, b, p, q) && k <= PacketCount(len) + 1
      invariant LinkAt(a.View(), b.View(), cmd, len, k)
      decreases PacketCount(len) + 1 - k
    {
      CycleMovesOn(a.View(), b.View(), cmd, len, k);
      CycleDrivers(a, b, p, q);
      k := k + 1;
    }
  }
}
