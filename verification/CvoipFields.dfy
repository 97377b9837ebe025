/** One cycle of the CVoIP driver, told field by field (prepare_tx_buffer and HandleRxData). */
module CvoipFields {
  import opened Cvoip
  import opened CvoipRuns

  // ----- header bytes -----

  /** The header bytes of the protocol: length in the upper half, then the NACK and more flags, then the number. */
  lemma HeaderBytes()
    ensures MakeH0(13, false, 1) == 0xD4 && MakeH1(1, 5) == 0x25
    ensures MakeH0(7, true, 20) == 0x72 && MakeH1(20, 0) == 0x80
    ensures !IsAck(0x08) && IsAck(0xF7) && !IsLast(0x04) && IsLast(0xFB)
    ensures SeqNum(0x03, 0xE0) == 31 && NackIndex(0x1F) == 31 && PayloadLen(0xDF) == 13
  {}

  // ----- prepare_tx_buffer -----

  /** A call that has neither a piece of a command nor anything to acknowledge or refuse. */
  predicate Idles(d: Dev) {
    && !(d.tx.state == InProgress && d.txBuf.len > 0)
    && PayloadLen(d.rx.h0) == 0 && IsAck(d.tx.h0)
    && (d.tx.state == LastPacket || d.tx.state == TransOver || SeqNum(d.rx.h0, d.rx.h1) == 0)
  }

  lemma IdleCall(d: Dev)
    requires WellFormed(d) && Idles(d)
    ensures TxStep(d) == (d.(tx := Header(0, 0, d.tx.num, d.tx.state), dummy := true), Zeros(PACKET))
  {}

  /** What every other call leaves alone. */
  predicate TxLeaves(d: Dev, d': Dev) {
    && d'.rx.h0 == d.rx.h0 && d'.rx.h1 == d.rx.h1 && d'.rx.num == d.rx.num && d'.rxBuf == d.rxBuf
    && d'.txBuf.cmd == d.txBuf.cmd && d'.txBuf.len == d.txBuf.len && d'.dummy == d.dummy
  }

  /** The acknowledgement part of a packet: the number received last, refused if a NACK is due, and what follows. */
  predicate Acknowledges(d: Dev, d': Dev, p: seq<Byte>)
    requires |p| == PACKET
  {
    var ack := SeqNum(d.rx.h0, d.rx.h1);
    var nack := !IsAck(d.tx.h0) && ack != 0;
    && NackIndex(p[1]) == ack && (IsAck(p[0]) <==> !nack)
    && d'.tx.h0 == p[0] && d'.tx.h1 == p[1]
    && d'.rx.state == (if !nack && d.rx.state == LastPacket then TransOver else d.rx.state)
    && d'.lastTxSeq == if d'.tx.state == LastPacket then SeqNum(p[0], p[1]) else d.lastTxSeq
  }

  lemma FinishAcknowledges(d0: Dev, d: Dev, h0: Byte, h1: Byte, payload: seq<Byte>)
    requires |payload| <= PAYLOAD && IsAck(h0) && h1 % 32 == 0
    requires d0.rx == d.rx && d0.tx.h0 == d.tx.h0 && d0.lastTxSeq == d.lastTxSeq
    ensures var (d', p) := Finish(d, h0, h1, payload);
            Acknowledges(d0, d', p) && d'.tx.state == d.tx.state && d'.tx.num == d.tx.num && d'.txBuf == d.txBuf
    ensures TxLeaves(d, Finish(d, h0, h1, payload).0)
  {
    var ack := SeqNum(d.rx.h0, d.rx.h1);
    FieldsOfH1(h1 / 32, ack, h1 + ack);
    NackFlag(h0);
  }

  /** A call with a piece: which piece goes out, and when it was the last. */
  lemma PieceCall(d: Dev)
    requires WellFormed(d) && d.tx.state == InProgress && d.txBuf.len > 0
    ensures var (d', p) := TxStep(d); var from, last := d.txBuf.index, d.txBuf.index + 13 >= d.txBuf.len;
      && Acknowledges(d, d', p) && TxLeaves(d, d')
      && SeqNum(p[0], p[1]) == from / 13 + 1 == d'.tx.num && (IsLast(p[0]) <==> last)
      && PayloadLen(p[0]) == (if last then d.txBuf.len - from else 13)
      && p[2..2 + PayloadLen(p[0])] == d.txBuf.cmd[from..from + PayloadLen(p[0])]
      && d'.tx.state == (if last then LastPacket else InProgress)
      && d'.txBuf.index == if last then from else from + 13
  {
    var b := d.txBuf;
    var num, last, size := NumberAt(b.index), LastAt(b.index, b.len), SizeAt(b.index, b.len);
    var payload := b.cmd[b.index..b.index + size];
    HeaderFields(size, last, num, 0);
    FinishKeepsFields(Advance(d), MakeH0(size, last, num), MakeH1(num, 0), payload);
    FinishAcknowledges(d, Advance(d), MakeH0(size, last, num), MakeH1(num, 0), payload);
    var p := TxStep(d).1;
    assert p[2..2 + size] == payload;
  }

  lemma NoNumber(h0: Byte, ack: nat)
    requires h0 % 8 == 0 && ack < 32
    ensures SeqNum(h0, ack) == 0
  {}

  /** The common end of all packets but dummies, in terms of its header bytes. */
  lemma FinishBytes(d: Dev, h0: Byte, h1: Byte, payload: seq<Byte>)
    requires |payload| <= PAYLOAD && IsAck(h0) && h1 % 32 == 0
    ensures var (d', p) := Finish(d, h0, h1, payload); var ack := SeqNum(d.rx.h0, d.rx.h1);
      var nack := !IsAck(d.tx.h0) && ack != 0;
      && h1 + ack < 256 && (nack ==> h0 + 8 < 256)
      && p == Packet(if nack then h0 + 8 else h0, h1 + ack, payload)
      && TxLeaves(d, d') && d'.tx == d.tx.(h0 := p[0], h1 := p[1]) && d'.txBuf == d.txBuf
      && d'.rx.state == (if !nack && d.rx.state == LastPacket then TransOver else d.rx.state)
      && d'.lastTxSeq == if d'.tx.state == LastPacket then SeqNum(p[0], p[1]) else d.lastTxSeq
  {
    FieldsOfH1(h1 / 32, SeqNum(d.rx.h0, d.rx.h1), h1 + SeqNum(d.rx.h0, d.rx.h1));
  }

  /** The state in which such a call finishes its packet. */
  function Concluded(d: Dev): Dev {
    if (d.txBuf.len == 0 || d.tx.state == LastPacket) && (d.rx.state == TransOver || d.rx.state == LastPacket)
    then d.(tx := d.tx.(state := TransOver)) else d
  }

  lemma AnswerIsFinish(d: Dev)
    requires WellFormed(d) && !(d.tx.state == InProgress && d.txBuf.len > 0) && !Idles(d)
    ensures IsAck(0) && TxStep(d) == Finish(Concluded(d), 0, 0, [])
  {}

  lemma AnswerHasNoNumber(d: Dev)
    requires WellFormed(d) && !(d.tx.state == InProgress && d.txBuf.len > 0) && !Idles(d)
    ensures var p := TxStep(d).1; SeqNum(p[0], p[1]) == 0
  {
    AnswerIsFinish(d);
    FinishBytes(Concluded(d), 0, 0, []);
    NoNumber(0x00, SeqNum(d.rx.h0, d.rx.h1));
    NoNumber(0x08, SeqNum(d.rx.h0, d.rx.h1));
  }

  /** A call without a piece that acknowledges or refuses; a transmission or reception that is over ends here. */
  lemma AnswerCall(d: Dev)
    requires WellFormed(d) && !(d.tx.state == InProgress && d.txBuf.len > 0) && !Idles(d)
    ensures var (d', p) := TxStep(d); var ack := SeqNum(d.rx.h0, d.rx.h1);
      var nack := !IsAck(d.tx.h0) && ack != 0;
      && p == Packet(if nack then 0x08 else 0x00, ack, [])
      && TxLeaves(d, d') && d'.tx.h0 == p[0] && d'.tx.h1 == p[1] && d'.tx.num == d.tx.num && d'.txBuf == d.txBuf
      && d'.rx.state == (if !nack && d.rx.state == LastPacket then TransOver else d.rx.state)
      && d'.tx.state == Concluded(d).tx.state
      && d'.lastTxSeq == if d'.tx.state == LastPacket then SeqNum(p[0], p[1]) else d.lastTxSeq
  {
    AnswerIsFinish(d);
    FinishBytes(Concluded(d), 0, 0, []);
  }

  // ----- HandleRxData -----

  /** What a received packet never touches. */
  predicate RxLeaves(d: Dev, d': Dev) {
    d'.txBuf.cmd == d.txBuf.cmd && d'.txBuf.len == d.txBuf.len && d'.tx.h1 == d.tx.h1 && d'.lastTxSeq == d.lastTxSeq &&
    d'.dummy == d.dummy
  }

  /** A corrupt packet: the sender goes back before the last packet sent, and the receiver waits for the next one. */
  lemma CorruptPacket(d: Dev, p: seq<Byte>)
    requires |p| == PACKET && |d.rxBuf.cmd| == COMMAND && !CrcValid(p)
    ensures var d', back, more := RxStep(d, p), d.tx.num != 1 && SeqNum(d.tx.h0, d.tx.h1) != 0, !IsLast(d.rx.h0);
      && RxLeaves(d, d') && d'.rxBuf == d.rxBuf && d'.tx.h0 == d.tx.h0 && d'.rx.state == d.rx.state
      && d'.tx.state == (if d.tx.state == LastPacket then InProgress else d.tx.state)
      && d'.txBuf.index == (if back then (d.tx.num - 2) * 13 % 256 else d.txBuf.index)
      && d'.tx.num == (if back then 0 else d.tx.num)
      && (if more then d'.rx.h0 == d'.rx.h1 == 0 && d'.rx.num == SeqNum(d.rx.h0, d.rx.h1) + 1 else d'.rx == d.rx)
  {}

  /** A dummy: no NACK is due any more, the number received last is forgotten, and two dummies end everything. */
  lemma DummyPacket(d: Dev, p: seq<Byte>)
    requires |p| == PACKET && |d.rxBuf.cmd| == COMMAND && RxFits(d, p)
    requires CrcValid(p) && PayloadLen(p[0]) == 0 && NackIndex(p[1]) == 0
    ensures var d' := RxStep(d, p);
      && RxLeaves(d, d') && d'.rxBuf == d.rxBuf && d'.txBuf == d.txBuf && d'.tx.num == d.tx.num && d'.rx.num == d.rx.num
      && IsAck(d'.tx.h0) && d'.tx.h0 / 16 == d.tx.h0 / 16 && d'.tx.h0 % 8 == d.tx.h0 % 8
      && SeqNum(d'.rx.h0, d'.rx.h1) == 0 && d'.rx.h0 / 4 == d.rx.h0 / 4 && NackIndex(d'.rx.h1) == NackIndex(d.rx.h1)
      && d'.tx.state == (if d.dummy then TransOver else d.tx.state)
      && d'.rx.state == (if d.dummy then TransOver else d.rx.state)
  {
    ClearBits(d.tx.h0);
  }

  lemma ClearBits(h: Byte)
    ensures !IsAck(h) ==> h >= 8 && IsAck(h - 8) && (h - 8) / 16 == h / 16 && (h - 8) % 8 == h % 8
  {
    assert h == 16 * (h / 16) + 8 * (h / 8 % 2) + h % 8;
  }

  /** Any other valid packet, on the sending side: a first NACK is obeyed, the acknowledged last packet ends it. */
  lemma PacketAtSender(d: Dev, p: seq<Byte>)
    requires |p| == PACKET && |d.rxBuf.cmd| == COMMAND && RxFits(d, p)
    requires CrcValid(p) && (PayloadLen(p[0]) != 0 || NackIndex(p[1]) != 0)
    ensures var d', ack := RxStep(d, p), NackIndex(p[1]);
      var obeyed := (d.tx.state == InProgress || d.tx.state == LastPacket) && !IsAck(p[0]) && IsAck(d.rx.h0);
      && RxLeaves(d, d') && d'.tx.num == d.tx.num && d'.tx.h0 == 0
      && d'.txBuf.index == (if obeyed then (ack - 1) * 13 % 256 else d.txBuf.index)
      && d'.tx.state ==
         if obeyed then InProgress
         else if d.tx.state == LastPacket && ack != 0 && ack == d.lastTxSeq then TransOver
         else d.tx.state
  {}

  /** And on the receiving side: the payload is appended, the header is kept, and the reception may end. */
  lemma PacketAtReceiver(d: Dev, p: seq<Byte>)
    requires |p| == PACKET && |d.rxBuf.cmd| == COMMAND && RxFits(d, p)
    requires CrcValid(p) && (PayloadLen(p[0]) != 0 || NackIndex(p[1]) != 0)
    ensures var d', n, b := RxStep(d, p), PayloadLen(p[0]), d.rxBuf;
      var acked := IsAck(p[0]) || ((d.tx.state == InProgress || d.tx.state == LastPacket) && !IsAck(d.rx.h0));
      && (n == 0 ==> d'.rxBuf == b)
      && (n != 0 ==>
            && CopyFits(d, n)
            && d'.rxBuf == Buffer(CopyAt(b.cmd, b.index, p[2..2 + n]), (b.len + n) % 256, (b.index + n) % 256))
      && d'.rx.num == (if (if n != 0 then SignedIndex(p[0], p[1]) else 0) == d.rx.num then 0 else d.rx.num)
      && d'.rx.h1 == p[1] && d'.rx.h0 == (if acked && !IsAck(p[0]) then p[0] - 8 else p[0])
      && d'.rx.state ==
         if acked && n == 0 && NackIndex(p[1]) == d.lastTxSeq then TransOver
         else if n != 0 && IsLast(p[0]) && d'.rx.num == 0 then LastPacket
         else d.rx.state
  {}

  /**
   * While the last packet waits for its acknowledgement, a call that only acknowledges forgets its number, and the
   * acknowledgement that then arrives does not end the transmission.
   */
  lemma AnswerForgetsLastPacket(d: Dev, q: seq<Byte>)
    requires WellFormed(d) && d.tx.state == LastPacket && !Idles(d)
    requires d.rx.state == IdleState || d.rx.state == InProgress
    requires |q| == PACKET && RxFits(TxStep(d).0, q) && CrcValid(q) && IsAck(q[0])
    requires PayloadLen(q[0]) != 0 || NackIndex(q[1]) != 0
    ensures TxStep(d).0.lastTxSeq == 0
    ensures RxStep(TxStep(d).0, q).tx.state == LastPacket
  {
    AnswerCall(d);
    AnswerHasNoNumber(d);
    PacketAtSender(TxStep(d).0, q);
  }
}
