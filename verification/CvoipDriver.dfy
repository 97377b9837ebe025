/** The driver's own form: global headers and byte buffers updated in place (drv_dect_cosic_drv_cvoip.c). */
module CvoipDriver {
  import opened Cvoip

  class Driver {
    var tx: Header
    var rx: Header
    const txCmd: array<Byte>
    var txLen: Byte
    var txIndex: Byte
    const rxCmd: array<Byte>
    var rxLen: Byte
    var rxIndex: Byte
    var lastTxSeq: nat
    var dummy: bool

    constructor ()
      ensures Valid() && fresh(txCmd) && fresh(rxCmd)
      ensures View() == Dev(Header(0, 0, 0, IdleState), Header(0, 0, 0, IdleState),
                            Buffer(Zeros(COMMAND), 0, 0), Buffer(Zeros(COMMAND), 0, 0), 0, false)
    {
      tx, rx := Header(0, 0, 0, IdleState), Header(0, 0, 0, IdleState);
      txCmd, rxCmd := new Byte[COMMAND](_ => 0), new Byte[COMMAND](_ => 0);
      txLen, txIndex, rxLen, rxIndex, lastTxSeq, dummy := 0, 0, 0, 0, 0, false;
      new;
      assert txCmd[..] == Zeros(COMMAND) && rxCmd[..] == Zeros(COMMAND);
    }

    predicate Separate() {
      txCmd.Length == COMMAND && rxCmd.Length == COMMAND && txCmd != rxCmd
    }

    function View(): Dev
      reads this, txCmd, rxCmd
    {
      Dev(tx, rx, Buffer(txCmd[..], txLen, txIndex), Buffer(rxCmd[..], rxLen, rxIndex), lastTxSeq, dummy)
    }

    predicate Valid()
      reads this, txCmd, rxCmd
    {
      Separate() && WellFormed(View())
    }

    /** The checksum closes a packet whose header and payload are in place. */
    static method SealPacket(buf: array<Byte>, ghost payload: seq<Byte>)
      requires buf.Length == PACKET && |payload| <= PAYLOAD
      requires buf[2..15] == payload + Zeros(PAYLOAD - |payload|)
      modifies buf
      ensures buf[..] == Packet(old(buf[0]), old(buf[1]), payload)
    {
      ghost var body := [buf[0], buf[1]] + payload + Zeros(PAYLOAD - |payload|);
      assert buf[..15] == [buf[0], buf[1]] + buf[2..15];
      assert [buf[0], buf[1]] + buf[2..15] == body;
      ComputeCrc(buf);
      assert buf[..] == buf[..15] + [buf[15]];
    }

    /** Acknowledgement and NACK flag; an acknowledged last packet ends the reception. */
    method AcknowledgeHeader(buf: array<Byte>)
      requires buf.Length == PACKET && IsAck(buf[0]) && buf[1] % 32 == 0
      modifies `rx, buf
      ensures buf[0] == AckedH0(old(View()), old(buf[0]), old(buf[1])) && buf[1] == AckedH1(old(View()), old(buf[1]))
      ensures rx == AckedRx(old(View()), old(buf[1]))
      ensures forall i | 2 <= i < PACKET :: buf[i] == old(buf[i])
    {
      buf[1] := buf[1] + SeqNum(rx.h0, rx.h1);
      if !IsAck(tx.h0) && buf[1] % 32 != 0 {
        buf[0] := buf[0] + 8;
      } else if rx.state == LastPacket {
        rx := rx.(state := TransOver);
      }
    }

    /** The common end of prepare_tx_buffer: header, checksum, and the header kept for later. */
    method FinishPacket(buf: array<Byte>, ghost payload: seq<Byte>)
      requires Separate() && buf.Length == PACKET && buf != txCmd && buf != rxCmd && |payload| <= PAYLOAD
      requires IsAck(buf[0]) && buf[1] % 32 == 0
      requires buf[2..15] == payload + Zeros(PAYLOAD - |payload|)
      modifies `tx, `rx, `lastTxSeq, buf
      ensures (View(), buf[..]) == Finish(old(View()), old(buf[0]), old(buf[1]), payload)
    {
      AcknowledgeHeader(buf);
      assert buf[2..15] == old(buf[2..15]);
      tx := tx.(h0 := buf[0], h1 := buf[1]);
      SealPacket(buf, payload);
      if tx.state == LastPacket {
        lastTxSeq := SeqNum(tx.h0, tx.h1);
      }
    }

    /** Copying `size` bytes of the command into a cleared buffer. */
    static method LoadPayload(cmd: array<Byte>, index: nat, size: nat, buf: array<Byte>)
      requires buf.Length == PACKET && buf != cmd && index + size <= cmd.Length && size <= PAYLOAD
      requires buf[..] == Zeros(PACKET)
      modifies buf
      ensures buf[2..15] == cmd[index..index + size] + Zeros(PAYLOAD - size)
    {
      CopyBytes(cmd, index, size, buf, 2);
      assert buf[2..15] == buf[..][2..15];
    }

    method AdvancePosition()
      requires Valid() && Sending(View())
      modifies `tx, `txIndex
      ensures View() == Advance(old(View()))
    {
      var num := NumberAt(txIndex);
      if LastAt(txIndex, txLen) {
        tx := tx.(state := LastPacket);
      } else {
        txIndex := txIndex + PAYLOAD;
      }
      tx := tx.(num := num);
    }

    /** The part of prepare_tx_buffer that takes the next piece of the command. */
    method SendPiece(buf: array<Byte>)
      requires Valid() && Sending(View()) && buf.Length == PACKET && buf != txCmd && buf != rxCmd
      requires buf[..] == Zeros(PACKET)
      modifies `tx, `txIndex, `rx, `lastTxSeq, buf
      ensures (View(), buf[..]) == TxStep(old(View()))
    {
      var num, last, size := NumberAt(txIndex), LastAt(txIndex, txLen), SizeAt(txIndex, txLen);
      ghost var payload := txCmd[..][txIndex..txIndex + size];
      ghost var step := Finish(Advance(View()), MakeH0(size, last, num), MakeH1(num, 0), payload);
      assert step == TxStep(View());
      LoadPayload(txCmd, txIndex, size, buf);
      buf[0], buf[1] := MakeH0(size, last, num), MakeH1(num, 0);
      assert buf[2..15] == payload + Zeros(PAYLOAD - size);
      AdvancePosition();
      FinishPacket(buf, payload);
      assert (View(), buf[..]) == step;
    }

    /** prepare_tx_buffer; the caller clears the buffer before every call. */
    method PrepareTxBuffer(buf: array<Byte>)
      requires Valid() && buf.Length == PACKET && buf != txCmd && buf != rxCmd
      requires buf[..] == Zeros(PACKET)
      modifies this, buf
      ensures (View(), buf[..]) == TxStep(old(View()))
    {
      if tx.state == InProgress && txLen > 0 {
        SendPiece(buf);
      } else if SendsDummy(View()) {
        tx := tx.(h0 := 0, h1 := 0);
        dummy := true;
      } else {
        if (txLen == 0 || tx.state == LastPacket) && (rx.state == TransOver || rx.state == LastPacket) {
          tx := tx.(state := TransOver);
        }
        assert buf[2..15] == [] + Zeros(PAYLOAD);
        FinishPacket(buf, []);
      }
    }

    /** A cycle up to the transfer: it forgets the dummy of the last one and clears the buffer. */
    method StartCycle(buf: array<Byte>)
      requires Valid() && buf.Length == PACKET && buf != txCmd && buf != rxCmd
      modifies this, buf
      ensures (View(), buf[..]) == TxStep(old(View()).(dummy := false))
    {
      ghost var start := View().(dummy := false);
      dummy := false;
      forall i | 0 <= i < PACKET {
        buf[i] := 0;
      }
      assert buf[..] == Zeros(PACKET);
      assert View() == start;
      PrepareTxBuffer(buf);
    }

    method CorruptReceived()
      requires Separate()
      modifies this
      ensures View() == RxCorrupt(old(View()))
    {
      if tx.state == LastPacket {
        tx := tx.(state := InProgress);
      }
      if tx.num != 1 && SeqNum(tx.h0, tx.h1) != 0 {
        txIndex := (tx.num - 2) * PAYLOAD % 256;
        tx := tx.(num := 0);
      }
      if !IsLast(rx.h0) {
        rx := rx.(num := SeqNum(rx.h0, rx.h1) + 1, h0 := 0, h1 := 0);
      }
    }

    method DummyReceived()
      requires Separate()
      modifies this
      ensures View() == RxDummy(old(View()))
    {
      if !IsAck(tx.h0) {
        tx := tx.(h0 := tx.h0 - 8);
      }
      rx := rx.(h0 := rx.h0 - rx.h0 % 4, h1 := rx.h1 % 32);
      if dummy {
        tx := tx.(state := TransOver);
        rx := rx.(state := TransOver);
      }
    }

    /** Obeying a NACK, or taking note of an acknowledgement; the result stands for ACK_RCVD afterwards. */
    method ActOnAck(h0: Byte, h1: Byte) returns (acked: bool)
      requires Separate()
      modifies `tx, `txIndex
      ensures View() == RxAck(old(View()), h0, h1)
      ensures acked == Acked(old(View()), h0)
    {
      acked := IsAck(h0);
      if tx.state == InProgress || tx.state == LastPacket {
        if !acked && IsAck(rx.h0) {
          txIndex := (NackIndex(h1) - 1) * PAYLOAD % 256;
          if tx.state == LastPacket {
            tx := tx.(state := InProgress);
          }
        } else {
          acked := true;
          if tx.state == LastPacket && NackIndex(h1) != 0 && lastTxSeq == NackIndex(h1) {
            tx := tx.(state := TransOver);
          }
        }
      }
    }

    /** Copying a payload behind what has been received so far. */
    method StorePayload(buf: array<Byte>)
      requires Separate() && buf.Length == PACKET && buf != txCmd && buf != rxCmd
      requires CopyFits(View(), PayloadLen(buf[0]))
      modifies `rx, `rxIndex, `rxLen, rxCmd
      ensures View() == RxPayload(old(View()), buf[..])
    {
      var n := PayloadLen(buf[0]);
      CopyBytes(buf, 2, n, rxCmd, rxIndex);
      assert buf[2..2 + n] == buf[..][2..2 + n];
      rxIndex := (rxIndex + n) % 256;
      rxLen := (rxLen + n) % 256;
      if IsLast(buf[0]) && rx.num == 0 {
        rx := rx.(state := LastPacket);
      }
    }

    method NoteIndex(h0: Byte, h1: Byte)
      requires Separate()
      modifies `rx
      ensures View() == RxNote(old(View()), h0, h1)
    {
      var index := if PayloadLen(h0) != 0 then SignedIndex(h0, h1) else 0;
      if index == rx.num {
        rx := rx.(num := 0);
      }
    }

    method CloseReceive(h0: Byte, h1: Byte, acked: bool)
      requires Separate()
      modifies `rx, `tx
      ensures View() == RxClose(old(View()), h0, h1, acked)
    {
      rx := rx.(h0 := if acked && !IsAck(h0) then h0 - 8 else h0, h1 := h1);
      tx := tx.(h0 := 0);
      if acked && lastTxSeq == NackIndex(h1) && PayloadLen(h0) == 0 {
        rx := rx.(state := TransOver);
      }
    }

    /** HandleRxData. */
    method HandleRxData(buf: array<Byte>)
      requires Separate() && buf.Length == PACKET && buf != txCmd && buf != rxCmd
      requires RxFits(View(), buf[..])
      modifies this, rxCmd
      ensures Separate()
      ensures View() == RxStep(old(View()), buf[..])
    {
      var ok := IsCrcValid(buf);
      if !ok {
        CorruptReceived();
        return;
      }
      var nackIndex, hasPayload := NackIndex(buf[1]), PayloadLen(buf[0]) != 0;
      if !hasPayload && nackIndex == 0 {
        DummyReceived();
        return;
      }
      NoteIndex(buf[0], buf[1]);
      var acked := ActOnAck(buf[0], buf[1]);
      if hasPayload {
        StorePayload(buf);
      }
      CloseReceive(buf[0], buf[1], acked);
    }
  }
}
