/** Whole commands over the CVoIP link: segmentation, reassembly, retransmission. */
module CvoipRuns {
  import opened Cvoip

  function PacketCount(len: Byte): nat {
    (len + PAYLOAD - 1) / PAYLOAD
  }

  function PieceLen(len: Byte, k: nat): (n: nat)
    requires 1 <= k <= PacketCount(len)
    ensures n <= PAYLOAD && PAYLOAD * (k - 1) + n <= len && PAYLOAD * (k - 1) < len
  {
    if k < PacketCount(len) then PAYLOAD else len - PAYLOAD * (k - 1)
  }

  /** `p` is packet number k of the command: number, length, last flag, payload and checksum. */
  predicate Carries(p: seq<Byte>, cmd: seq<Byte>, len: Byte, k: nat) {
    && |p| == PACKET && |cmd| == COMMAND && 1 <= k <= PacketCount(len)
    && SeqNum(p[0], p[1]) == k
    && (IsLast(p[0]) <==> k == PacketCount(len))
    && PayloadLen(p[0]) == PieceLen(len, k)
    && p[2..2 + PieceLen(len, k)] == cmd[PAYLOAD * (k - 1)..PAYLOAD * (k - 1) + PieceLen(len, k)]
    && CrcValid(p)
  }

  /** The command being sent, ready at packet k. */
  predicate ReadyAt(d: Dev, cmd: seq<Byte>, len: Byte, k: nat) {
    && |cmd| == COMMAND && |d.rxBuf.cmd| == COMMAND && 1 <= k <= PacketCount(len)
    && d.tx.state == InProgress && d.txBuf == Buffer(cmd, len, PAYLOAD * (k - 1))
  }

  lemma ReadyIsWellFormed(d: Dev, cmd: seq<Byte>, len: Byte, k: nat)
    requires ReadyAt(d, cmd, len, k)
    ensures WellFormed(d) && Sending(d)
  {}

  lemma FieldsOfH0(size: nat, more: nat, hi: nat, h0: Byte)
    requires size <= PAYLOAD && more < 2 && hi < 4 && h0 == 16 * size + 4 * more + hi
    ensures h0 / 16 == size && h0 / 8 == 2 * size && h0 / 4 == 4 * size + more && h0 % 4 == hi
  {}

  lemma FieldsOfH1(lo: nat, ack: nat, h1: Byte)
    requires lo < 8 && ack < 32 && h1 == 32 * lo + ack
    ensures h1 / 32 == lo && h1 % 32 == ack
  {}

  lemma HeaderFields(size: nat, last: bool, k: nat, ack: nat)
    requires size <= PAYLOAD && k < 32 && ack < 32
    ensures SeqNum(MakeH0(size, last, k), MakeH1(k, ack)) == k
    ensures PayloadLen(MakeH0(size, last, k)) == size
    ensures IsLast(MakeH0(size, last, k)) == last && IsAck(MakeH0(size, last, k))
    ensures NackIndex(MakeH1(k, ack)) == ack
  {
    FieldsOfH0(size, if last then 0 else 1, k / 8, MakeH0(size, last, k));
    FieldsOfH1(k % 8, ack, MakeH1(k, ack));
  }

  /** The upper half of a header byte, and its lower half with bit 3 clear or set. */
  lemma Halves(hi: nat, lo: nat, h: Byte)
    requires lo < 8 && h == 16 * hi + lo
    ensures h / 16 == hi && h / 4 == 4 * hi + lo / 4 && h % 4 == lo % 4
    ensures h + 8 < 256 && (h + 8) / 16 == hi && (h + 8) / 8 == 2 * hi + 1
    ensures (h + 8) / 4 == 4 * hi + 2 + lo / 4 && (h + 8) % 4 == lo % 4
  {}

  lemma NackFlag(h0: Byte)
    requires IsAck(h0)
    ensures h0 + 8 < 256 && !IsAck(h0 + 8)
    ensures PayloadLen(h0 + 8) == PayloadLen(h0) && IsLast(h0 + 8) == IsLast(h0) && (h0 + 8) % 4 == h0 % 4
  {
    assert h0 / 8 == 2 * (h0 / 16) + h0 % 16 / 8;
    Halves(h0 / 16, h0 % 16, h0);
  }

  /** Acknowledging and passing on a NACK leave the other header fields alone. */
  lemma FinishKeepsFields(d: Dev, h0: Byte, h1: Byte, payload: seq<Byte>)
    requires |payload| <= PAYLOAD && IsAck(h0) && h1 % 32 == 0
    ensures var (d', p) := Finish(d, h0, h1, payload);
            && p == Packet(d'.tx.h0, d'.tx.h1, payload)
            && PayloadLen(d'.tx.h0) == PayloadLen(h0) && IsLast(d'.tx.h0) == IsLast(h0)
            && SeqNum(d'.tx.h0, d'.tx.h1) == SeqNum(h0, h1)
            && d'.tx.state == d.tx.state && d'.txBuf == d.txBuf && d'.rxBuf == d.rxBuf
            && d'.rx.num == d.rx.num && d'.rx.h0 == d.rx.h0 && d'.tx.num == d.tx.num
            && (d.tx.state == LastPacket ==> d'.lastTxSeq == SeqNum(h0, h1))
  {
    var ack := SeqNum(d.rx.h0, d.rx.h1);
    FieldsOfH1(h1 / 32, ack, h1 + ack);
    NackFlag(h0);
  }

  lemma PacketCarries(h0: Byte, h1: Byte, cmd: seq<Byte>, len: Byte, k: nat)
    requires |cmd| == COMMAND && 1 <= k <= PacketCount(len)
    requires SeqNum(h0, h1) == k && (IsLast(h0) <==> k == PacketCount(len)) && PayloadLen(h0) == PieceLen(len, k)
    ensures Carries(Packet(h0, h1, cmd[PAYLOAD * (k - 1)..PAYLOAD * (k - 1) + PieceLen(len, k)]), cmd, len, k)
  {
    var payload := cmd[PAYLOAD * (k - 1)..PAYLOAD * (k - 1) + PieceLen(len, k)];
    var p := Packet(h0, h1, payload);
    assert p[2..2 + |payload|] == payload;
  }

  lemma PieceAt(index: Byte, len: Byte, k: nat)
    requires 1 <= k <= PacketCount(len) && index == PAYLOAD * (k - 1)
    ensures index < len && NumberAt(index) == k
    ensures (LastAt(index, len) <==> k == PacketCount(len)) && SizeAt(index, len) == PieceLen(len, k)
  {}

  /** The call is the common end of prepare_tx_buffer, for the piece at packet k. */
  lemma SendsPiece(d: Dev, cmd: seq<Byte>, len: Byte, k: nat)
    requires ReadyAt(d, cmd, len, k)
    ensures WellFormed(d) && Sending(d)
    ensures PieceLen(len, k) <= PAYLOAD && PAYLOAD * (k - 1) + PieceLen(len, k) <= COMMAND
    ensures TxStep(d) == Finish(Advance(d), MakeH0(PieceLen(len, k), k == PacketCount(len), k), MakeH1(k, 0),
                                cmd[PAYLOAD * (k - 1)..PAYLOAD * (k - 1) + PieceLen(len, k)])
  {
    ReadyIsWellFormed(d, cmd, len, k);
    PieceAt(d.txBuf.index, len, k);
    HeaderFields(PieceLen(len, k), k == PacketCount(len), k, 0);
  }

  lemma AdvancesTo(d: Dev, cmd: seq<Byte>, len: Byte, k: nat)
    requires ReadyAt(d, cmd, len, k)
    ensures WellFormed(d) && Sending(d)
    ensures k < PacketCount(len) ==> ReadyAt(Advance(d), cmd, len, k + 1)
    ensures k == PacketCount(len) ==> Advance(d).tx.state == LastPacket && Advance(d).txBuf == d.txBuf
    ensures Advance(d).rxBuf == d.rxBuf && Advance(d).rx == d.rx && Advance(d).tx.num == k
  {
    PieceAt(d.txBuf.index, len, k);
  }

  /** One call sends packet k and moves on to k + 1, or waits for the last acknowledgement. */
  lemma SendsPacket(d: Dev, cmd: seq<Byte>, len: Byte, k: nat)
    requires ReadyAt(d, cmd, len, k)
    ensures WellFormed(d)
    ensures Carries(TxStep(d).1, cmd, len, k)
    ensures k < PacketCount(len) ==> ReadyAt(TxStep(d).0, cmd, len, k + 1)
    ensures k == PacketCount(len) ==>
              TxStep(d).0.tx.state == LastPacket && TxStep(d).0.lastTxSeq == k && TxStep(d).0.txBuf == d.txBuf
    ensures TxStep(d).0.rxBuf == d.rxBuf && TxStep(d).0.rx.num == d.rx.num && TxStep(d).0.rx.h0 == d.rx.h0
    ensures TxStep(d).0.tx.num == k && SeqNum(TxStep(d).0.tx.h0, TxStep(d).0.tx.h1) == k
  {
    SendsPiece(d, cmd, len, k);
    AdvancesTo(d, cmd, len, k);
    var size, last := PieceLen(len, k), k == PacketCount(len);
    var payload := cmd[PAYLOAD * (k - 1)..PAYLOAD * (k - 1) + size];
    HeaderFields(size, last, k, 0);
    FinishKeepsFields(Advance(d), MakeH0(size, last, k), MakeH1(k, 0), payload);
    PacketCarries(TxStep(d).0.tx.h0, TxStep(d).0.tx.h1, cmd, len, k);
  }

  /** The packets of n further calls. */
  function TxRun(d: Dev, cmd: seq<Byte>, len: Byte, k: nat): (r: (Dev, seq<seq<Byte>>))
    requires ReadyAt(d, cmd, len, k)
    ensures |r.1| == PacketCount(len) - k + 1
    decreases PacketCount(len) - k
  {
    SendsPacket(d, cmd, len, k);
    var (d', p) := TxStep(d);
    if k == PacketCount(len) then (d', [p])
    else
      var (d'', ps) := TxRun(d', cmd, len, k + 1);
      (d'', [p] + ps)
  }

  predicate PacketAt(ps: seq<seq<Byte>>, cmd: seq<Byte>, len: Byte, k: nat, j: nat)
    requires j < |ps|
  {
    Carries(ps[j], cmd, len, k + j)
  }

  /** `ps` are the packets from number k to the last, in order. */
  predicate CarriesFrom(ps: seq<seq<Byte>>, cmd: seq<Byte>, len: Byte, k: nat) {
    1 <= k <= PacketCount(len) && |ps| == PacketCount(len) - k + 1 &&
    forall j {:trigger PacketAt(ps, cmd, len, k, j)} | 0 <= j < |ps| :: PacketAt(ps, cmd, len, k, j)
  }

  lemma TxRunStep(d: Dev, cmd: seq<Byte>, len: Byte, k: nat)
    requires ReadyAt(d, cmd, len, k)
    ensures WellFormed(d)
    ensures k == PacketCount(len) ==> TxRun(d, cmd, len, k) == (TxStep(d).0, [TxStep(d).1])
    ensures k < PacketCount(len) ==>
              && ReadyAt(TxStep(d).0, cmd, len, k + 1)
              && var rest := TxRun(TxStep(d).0, cmd, len, k + 1);
                 TxRun(d, cmd, len, k) == (rest.0, [TxStep(d).1] + rest.1)
  {
    SendsPacket(d, cmd, len, k);
  }

  /** What a finished run has done: packets k to the last in order, and the last acknowledgement is awaited. */
  predicate Segmented(r: (Dev, seq<seq<Byte>>), cmd: seq<Byte>, len: Byte, k: nat) {
    CarriesFrom(r.1, cmd, len, k) && r.0.tx.state == LastPacket && r.0.lastTxSeq == PacketCount(len)
  }

  lemma SegmentedLast(d: Dev, p: seq<Byte>, cmd: seq<Byte>, len: Byte, k: nat)
    requires k == PacketCount(len) && Carries(p, cmd, len, k)
    requires d.tx.state == LastPacket && d.lastTxSeq == k
    ensures Segmented((d, [p]), cmd, len, k)
  {
    assert PacketAt([p], cmd, len, k, 0);
  }

  /** From packet k on, every packet of the command is sent once, in order, and then the last one is awaited. */
  lemma {:induction false} CommandSegmented(d: Dev, cmd: seq<Byte>, len: Byte, k: nat)
    requires ReadyAt(d, cmd, len, k)
    ensures Segmented(TxRun(d, cmd, len, k), cmd, len, k)
    decreases PacketCount(len) - k
  {
    SendsPacket(d, cmd, len, k);
    TxRunStep(d, cmd, len, k);
    if k < PacketCount(len) {
      CommandSegmented(TxStep(d).0, cmd, len, k + 1);
      CarriesMore(TxStep(d).1, TxRun(TxStep(d).0, cmd, len, k + 1).1, cmd, len, k);
    } else {
      SegmentedLast(TxStep(d).0, TxStep(d).1, cmd, len, k);
    }
  }

  lemma CarriesMore(p: seq<Byte>, ps: seq<seq<Byte>>, cmd: seq<Byte>, len: Byte, k: nat)
    requires Carries(p, cmd, len, k) && k < PacketCount(len) && CarriesFrom(ps, cmd, len, k + 1)
    ensures CarriesFrom([p] + ps, cmd, len, k)
  {
    forall j | 0 <= j < |[p] + ps| ensures PacketAt([p] + ps, cmd, len, k, j) {
      if j > 0 {
        assert PacketAt(ps, cmd, len, k + 1, j - 1);
      }
    }
  }

  // ----- reassembly -----

  /** The number of bytes in the first k packets. */
  function BytesIn(len: Byte, k: nat): nat {
    if k < PacketCount(len) then PAYLOAD * k else len
  }

  /** What has been received so far. */
  predicate HoldsBytes(r: Dev, bytes: seq<Byte>) {
    && |r.rxBuf.cmd| == COMMAND && |bytes| <= 255
    && r.rxBuf.len == r.rxBuf.index == |bytes| && r.rxBuf.cmd[..|bytes|] == bytes
  }

  /** The receive buffer holds the first n bytes of the command. */
  predicate Stored(r: Dev, cmd: seq<Byte>, n: nat) {
    |cmd| == COMMAND && n <= 255 && HoldsBytes(r, cmd[..n])
  }

  /** It does, and the receiver waits for no retransmission. */
  predicate Holds(r: Dev, cmd: seq<Byte>, n: nat) {
    Stored(r, cmd, n) && r.rx.num == 0
  }

  lemma PieceNotEmpty(len: Byte, k: nat)
    requires 1 <= k <= PacketCount(len)
    ensures 0 < PieceLen(len, k) && PAYLOAD * (k - 1) + PieceLen(len, k) <= 255
  {}

  function Piece(cmd: seq<Byte>, len: Byte, k: nat): (s: seq<Byte>)
    requires |cmd| == COMMAND && 1 <= k <= PacketCount(len)
    ensures |s| == PieceLen(len, k)
  {
    cmd[PAYLOAD * (k - 1)..PAYLOAD * (k - 1) + PieceLen(len, k)]
  }

  /** The copy of a piece behind what is there. */
  lemma StoresPiece(r: Dev, p: seq<Byte>, cmd: seq<Byte>, len: Byte, k: nat, bytes: seq<Byte>)
    requires Carries(p, cmd, len, k) && HoldsBytes(r, bytes) && |bytes| + PieceLen(len, k) <= 255
    ensures PayloadLen(p[0]) != 0 && CopyFits(r, PayloadLen(p[0]))
    ensures HoldsBytes(RxPayload(r, p), bytes + Piece(cmd, len, k))
  {
    PieceNotEmpty(len, k);
    var piece, n := Piece(cmd, len, k), |bytes|;
    assert p[2..2 + PieceLen(len, k)] == piece;
    assert CopyAt(r.rxBuf.cmd, n, piece)[..n + |piece|] == bytes + piece;
  }

  /** Whatever has been received before, and whatever its number, a packet is appended. */
  lemma AppendsPiece(r: Dev, p: seq<Byte>, cmd: seq<Byte>, len: Byte, k: nat, bytes: seq<Byte>)
    requires Carries(p, cmd, len, k) && HoldsBytes(r, bytes) && |bytes| + PieceLen(len, k) <= 255
    ensures RxFits(r, p) && HoldsBytes(RxStep(r, p), bytes + Piece(cmd, len, k))
    ensures RxStep(r, p).rx.num == RxNote(r, p[0], p[1]).rx.num
    ensures RxStep(r, p).rx.state ==
            if k == PacketCount(len) && RxStep(r, p).rx.num == 0 then LastPacket else r.rx.state
  {
    var noted := RxAck(RxNote(r, p[0], p[1]), p[0], p[1]);
    assert noted.rxBuf == r.rxBuf;
    StoresPiece(noted, p, cmd, len, k, bytes);
    assert RxStep(r, p) == RxClose(RxPayload(noted, p), p[0], p[1], Acked(RxNote(r, p[0], p[1]), p[0]));
  }

  /** In particular a packet that has been stored already is stored a second time. */
  lemma RepeatIsAppended(r: Dev, p: seq<Byte>, cmd: seq<Byte>, len: Byte, k: nat)
    requires Carries(p, cmd, len, k) && Stored(r, cmd, BytesIn(len, k)) && BytesIn(len, k) + PieceLen(len, k) <= 255
    ensures RxFits(r, p) && HoldsBytes(RxStep(r, p), cmd[..BytesIn(len, k)] + Piece(cmd, len, k))
  {
    AppendsPiece(r, p, cmd, len, k, cmd[..BytesIn(len, k)]);
  }

  /** What receiving packet k in its turn changes on the receiving side. */
  lemma TakesPiece(r: Dev, p: seq<Byte>, cmd: seq<Byte>, len: Byte, k: nat)
    requires Carries(p, cmd, len, k) && Stored(r, cmd, PAYLOAD * (k - 1))
    ensures RxFits(r, p) && Stored(RxStep(r, p), cmd, PAYLOAD * (k - 1) + PieceLen(len, k))
    ensures RxStep(r, p).rx.num == RxNote(r, p[0], p[1]).rx.num
    ensures RxStep(r, p).rx.state ==
            if k == PacketCount(len) && RxStep(r, p).rx.num == 0 then LastPacket else r.rx.state
  {
    PieceNotEmpty(len, k);
    var from := PAYLOAD * (k - 1);
    AppendsPiece(r, p, cmd, len, k, cmd[..from]);
    assert cmd[..from] + Piece(cmd, len, k) == cmd[..from + PieceLen(len, k)];
  }

  lemma ReceivesPacket(r: Dev, p: seq<Byte>, cmd: seq<Byte>, len: Byte, k: nat)
    requires Carries(p, cmd, len, k) && Holds(r, cmd, PAYLOAD * (k - 1))
    ensures RxFits(r, p)
    ensures k < PacketCount(len) ==> Holds(RxStep(r, p), cmd, PAYLOAD * k) && RxStep(r, p).rx.state == r.rx.state
    ensures k == PacketCount(len) ==> Holds(RxStep(r, p), cmd, len) && RxStep(r, p).rx.state == LastPacket
  {
    TakesPiece(r, p, cmd, len, k);
  }

  predicate AllPackets(ps: seq<seq<Byte>>) {
    forall p | p in ps :: |p| == PACKET
  }

  /** Feeding packets in order; a packet that would not fit the buffer ends the run (it never does below). */
  function RxRun(r: Dev, ps: seq<seq<Byte>>): Dev
    requires |r.rxBuf.cmd| == COMMAND && AllPackets(ps)
    decreases |ps|
  {
    if ps == [] || !RxFits(r, ps[0]) then r
    else
      RxKeepsSize(r, ps[0]);
      RxRun(RxStep(r, ps[0]), ps[1..])
  }

  lemma RxKeepsSize(r: Dev, p: seq<Byte>)
    requires |p| == PACKET && |r.rxBuf.cmd| == COMMAND && RxFits(r, p)
    ensures |RxStep(r, p).rxBuf.cmd| == COMMAND
  {}

  lemma CarriesRest(ps: seq<seq<Byte>>, cmd: seq<Byte>, len: Byte, k: nat)
    requires CarriesFrom(ps, cmd, len, k) && k < PacketCount(len)
    ensures CarriesFrom(ps[1..], cmd, len, k + 1)
  {
    var rest, next := ps[1..], k + 1;
    forall j | 0 <= j < |rest| ensures PacketAt(rest, cmd, len, next, j) {
      assert PacketAt(ps, cmd, len, k, j + 1);
    }
  }

  /** The first packet is taken in, and the run goes on with the others. */
  lemma ReceivesFirst(r: Dev, ps: seq<seq<Byte>>, cmd: seq<Byte>, len: Byte, k: nat) returns (r': Dev)
    requires CarriesFrom(ps, cmd, len, k) && AllPackets(ps) && Holds(r, cmd, PAYLOAD * (k - 1))
    ensures |r'.rxBuf.cmd| == COMMAND && AllPackets(ps[1..]) && RxRun(r, ps) == RxRun(r', ps[1..])
    ensures k < PacketCount(len) ==> Holds(r', cmd, PAYLOAD * k)
    ensures k == PacketCount(len) ==> Holds(r', cmd, len) && r'.rx.state == LastPacket
  {
    assert PacketAt(ps, cmd, len, k, 0);
    ReceivesPacket(r, ps[0], cmd, len, k);
    RxKeepsSize(r, ps[0]);
    r' := RxStep(r, ps[0]);
  }

  lemma {:induction false} ReassembledIn(end: Dev, r: Dev, ps: seq<seq<Byte>>, cmd: seq<Byte>, len: Byte, k: nat)
    requires CarriesFrom(ps, cmd, len, k) && AllPackets(ps) && Holds(r, cmd, PAYLOAD * (k - 1))
    requires end == RxRun(r, ps)
    ensures Holds(end, cmd, len) && end.rx.state == LastPacket
    decreases PacketCount(len) - k
  {
    var r' := ReceivesFirst(r, ps, cmd, len, k);
    if k < PacketCount(len) {
      CarriesRest(ps, cmd, len, k);
      ReassembledIn(end, r', ps[1..], cmd, len, k + 1);
    } else {
      assert ps[1..] == [];
    }
  }

  lemma CommandReassembled(r: Dev, ps: seq<seq<Byte>>, cmd: seq<Byte>, len: Byte, k: nat)
    requires CarriesFrom(ps, cmd, len, k) && AllPackets(ps) && Holds(r, cmd, PAYLOAD * (k - 1))
    ensures Holds(RxRun(r, ps), cmd, len) && RxRun(r, ps).rx.state == LastPacket
  {
    ReassembledIn(RxRun(r, ps), r, ps, cmd, len, k);
  }

  /** What one driver sends, another one rebuilds, for every command of 1 to 255 bytes. */
  lemma SentCommandIsRebuilt(d: Dev, r: Dev, cmd: seq<Byte>, len: Byte)
    requires ReadyAt(d, cmd, len, 1) && Holds(r, cmd, 0)
    ensures AllPackets(TxRun(d, cmd, len, 1).1)
    ensures Holds(RxRun(r, TxRun(d, cmd, len, 1).1), cmd, len)
    ensures RxRun(r, TxRun(d, cmd, len, 1).1).rx.state == LastPacket
  {
    var ps := TxRun(d, cmd, len, 1).1;
    CommandSegmented(d, cmd, len, 1);
    forall p | p in ps ensures |p| == PACKET {
      var j :| 0 <= j < |ps| && ps[j] == p;
      assert PacketAt(ps, cmd, len, 1, j);
    }
    CommandReassembled(r, ps, cmd, len, 1);
  }

  // ----- retransmission -----

  /** The transmission of a command is under way or waits for the last acknowledgement. */
  predicate Transmitting(d: Dev, cmd: seq<Byte>, len: Byte) {
    |cmd| == COMMAND && |d.rxBuf.cmd| == COMMAND && TxActive(d) && d.txBuf.cmd == cmd && d.txBuf.len == len
  }

  predicate IsNackOf(p: seq<Byte>, k: nat) {
    |p| == PACKET && CrcValid(p) && !IsAck(p[0]) && NackIndex(p[1]) == k
  }

  /** A NACK that does not follow another one takes the transmission back to the packet it names. */
  lemma NackRewinds(d: Dev, p: seq<Byte>, cmd: seq<Byte>, len: Byte, k: nat)
    requires Transmitting(d, cmd, len) && IsNackOf(p, k) && RxFits(d, p)
    requires 1 <= k <= PacketCount(len) && IsAck(d.rx.h0)
    ensures ReadyAt(RxStep(d, p), cmd, len, k)
    ensures !IsAck(RxStep(d, p).rx.h0)
  {
    assert PAYLOAD * (k - 1) < len by { var n := PieceLen(len, k); }
    assert (NackIndex(p[1]) - 1) * PAYLOAD % 256 == PAYLOAD * (k - 1);
  }

  /** After such a NACK packets k to the last are sent again, each with its old number, length, flag and payload. */
  lemma NackRepeats(d: Dev, p: seq<Byte>, cmd: seq<Byte>, len: Byte, k: nat)
    requires Transmitting(d, cmd, len) && IsNackOf(p, k) && RxFits(d, p)
    requires 1 <= k <= PacketCount(len) && IsAck(d.rx.h0)
    ensures ReadyAt(RxStep(d, p), cmd, len, k)
    ensures CarriesFrom(TxRun(RxStep(d, p), cmd, len, k).1, cmd, len, k)
  {
    NackRewinds(d, p, cmd, len, k);
    CommandSegmented(RxStep(d, p), cmd, len, k);
  }

  lemma LowBits(a: nat, b: nat, c: nat, h: Byte)
    requires b < 2 && c < 4 && h == 8 * a + 4 * b + c
    ensures h % 8 == 4 * b + c && h / 4 == 2 * a + b && h / 4 % 2 == b && h % 4 == c
  {}

  lemma NumberDigits(h0: Byte, h1: Byte)
    ensures h0 % 4 == SeqNum(h0, h1) / 8 && h1 / 32 == SeqNum(h0, h1) % 8
  {}

  lemma LowBitsOf(h: Byte)
    ensures h % 8 == 4 * (h / 4 % 2) + h % 4
  {
    LowBits(h / 8, h % 8 / 4, h % 8 % 4, h);
  }

  lemma SameFields(a0: Byte, a1: Byte, b0: Byte, b1: Byte)
    requires SeqNum(a0, a1) == SeqNum(b0, b1) && (IsLast(a0) <==> IsLast(b0))
    ensures a0 % 8 == b0 % 8 && a1 / 32 == b1 / 32
  {
    NumberDigits(a0, a1);
    NumberDigits(b0, b1);
    LowBitsOf(a0);
    LowBitsOf(b0);
  }

  /** Two packets with the same number of the same command differ at most in the acknowledgement and checksum. */
  lemma SameNumberSamePacket(p: seq<Byte>, q: seq<Byte>, cmd: seq<Byte>, len: Byte, k: nat)
    requires Carries(p, cmd, len, k) && Carries(q, cmd, len, k)
    ensures p[0] / 16 == q[0] / 16 && p[0] % 8 == q[0] % 8 && p[1] / 32 == q[1] / 32
    ensures p[2..2 + PayloadLen(p[0])] == q[2..2 + PayloadLen(q[0])]
  {
    SameFields(p[0], p[1], q[0], q[1]);
  }

  /**
   * A NACK ends a transmission if and only if it carries the number of the last packet, that packet is out, and the
   * packet heard before was a NACK too: then it is taken for an acknowledgement.
   */
  lemma NackEndsIff(d: Dev, p: seq<Byte>)
    requires TxActive(d) && |p| == PACKET && |d.rxBuf.cmd| == COMMAND && RxFits(d, p) && CrcValid(p) && !IsAck(p[0])
    requires PayloadLen(p[0]) != 0 || NackIndex(p[1]) != 0
    ensures RxStep(d, p).tx.state == TransOver <==>
            d.tx.state == LastPacket && !IsAck(d.rx.h0) && NackIndex(p[1]) == d.lastTxSeq != 0
  {
    var noted := RxNote(d, p[0], p[1]);
    assert RxStep(d, p).tx.state == RxAck(noted, p[0], p[1]).tx.state;
  }

  /** The second of two NACKs in a row for the last packet is taken for its acknowledgement. */
  lemma SecondNackOfLastEndsTransmission(d: Dev, p: seq<Byte>, cmd: seq<Byte>, len: Byte)
    requires Transmitting(d, cmd, len) && len > 0 && IsNackOf(p, PacketCount(len)) && PayloadLen(p[0]) == 0
    requires IsAck(d.rx.h0)
    ensures WellFormed(RxStep(d, p)) && |TxStep(RxStep(d, p)).0.rxBuf.cmd| == COMMAND
    ensures RxStep(TxStep(RxStep(d, p)).0, p).tx.state == TransOver
  {
    var n := PacketCount(len);
    NackRewinds(d, p, cmd, len, n);
    SendsPacket(RxStep(d, p), cmd, len, n);
  }

  /** A packet whose checksum fails makes the sender go back to the packet before the last one it sent. */
  lemma CorruptStepsBack(d: Dev, p: seq<Byte>, cmd: seq<Byte>, len: Byte, k: nat)
    requires Transmitting(d, cmd, len) && |p| == PACKET && !CrcValid(p)
    requires 2 <= k <= PacketCount(len) && d.tx.num == k && SeqNum(d.tx.h0, d.tx.h1) == k
    ensures ReadyAt(RxStep(d, p), cmd, len, k - 1)
  {
    assert PAYLOAD * (k - 1) < len by { var n := PieceLen(len, k); }
    assert (d.tx.num - 2) * PAYLOAD % 256 == PAYLOAD * (k - 2);
  }

  /** The number of a packet as the receiver computes it. */
  lemma SignedNumber(h0: Byte, h1: Byte)
    ensures var k := SeqNum(h0, h1); SignedIndex(h0, h1) == if k % 8 < 4 then k else k % 8 - 8
  {
    assert SeqNum(h0, h1) % 8 == h1 / 32;
  }

  /**
   * A retransmission that is waited for is recognised if and only if bit 2 of its number is clear: the index is
   * computed from a signed byte without a mask, unlike the one remembered.
   */
  lemma RetransmissionRecognisedIff(d: Dev, p: seq<Byte>)
    requires |p| == PACKET && |d.rxBuf.cmd| == COMMAND && RxFits(d, p) && CrcValid(p)
    requires PayloadLen(p[0]) != 0 && d.rx.num == SeqNum(p[0], p[1]) && d.rx.num != 0
    ensures RxStep(d, p).rx.num == 0 <==> SeqNum(p[0], p[1]) % 8 < 4
    ensures IsLast(p[0]) && d.rx.state == InProgress ==>
              (RxStep(d, p).rx.state == LastPacket <==> SeqNum(p[0], p[1]) % 8 < 4)
  {
    SignedNumber(p[0], p[1]);
    var noted := RxNote(d, p[0], p[1]);
    assert noted.rx.num == if SeqNum(p[0], p[1]) % 8 < 4 then 0 else d.rx.num;
    assert RxStep(d, p) == RxClose(RxPayload(RxAck(noted, p[0], p[1]), p), p[0], p[1], Acked(noted, p[0]));
  }

  // ----- a corrupt packet on the receiving side -----

  /** Any packet in turn is stored; only the awaited one, correctly numbered, ends the waiting. */
  lemma ReceivesAwaiting(r: Dev, p: seq<Byte>, cmd: seq<Byte>, len: Byte, k: nat)
    requires Carries(p, cmd, len, k) && Stored(r, cmd, PAYLOAD * (k - 1)) && 1 <= r.rx.num <= k
    ensures RxFits(r, p)
    ensures Stored(RxStep(r, p), cmd, PAYLOAD * (k - 1) + PieceLen(len, k))
    ensures RxStep(r, p).rx.num == if k == r.rx.num && k % 8 < 4 then 0 else r.rx.num
    ensures RxStep(r, p).rx.state ==
            if k == PacketCount(len) && RxStep(r, p).rx.num == 0 then LastPacket else r.rx.state
  {
    TakesPiece(r, p, cmd, len, k);
    PieceNotEmpty(len, k);
    SignedNumber(p[0], p[1]);
  }

  lemma FirstOf(r: Dev, ps: seq<seq<Byte>>)
    requires |r.rxBuf.cmd| == COMMAND && AllPackets(ps) && ps != [] && RxFits(r, ps[0])
    ensures |RxStep(r, ps[0]).rxBuf.cmd| == COMMAND && AllPackets(ps[1..])
    ensures RxRun(r, ps) == RxRun(RxStep(r, ps[0]), ps[1..])
  {
    RxKeepsSize(r, ps[0]);
  }

  /** What is fed after the first packet. */
  lemma RestOf(r: Dev, ps: seq<seq<Byte>>, cmd: seq<Byte>, len: Byte, k: nat) returns (r': Dev)
    requires CarriesFrom(ps, cmd, len, k) && AllPackets(ps) && Stored(r, cmd, PAYLOAD * (k - 1)) && 1 <= r.rx.num <= k
    ensures |r'.rxBuf.cmd| == COMMAND && AllPackets(ps[1..]) && RxRun(r, ps) == RxRun(r', ps[1..])
    ensures Stored(r', cmd, BytesIn(len, k))
    ensures r'.rx.num == if k == r.rx.num && k % 8 < 4 then 0 else r.rx.num
    ensures r'.rx.state == if k == PacketCount(len) && r'.rx.num == 0 then LastPacket else r.rx.state
    ensures if k < PacketCount(len) then CarriesFrom(ps[1..], cmd, len, k + 1) else ps[1..] == []
  {
    assert PacketAt(ps, cmd, len, k, 0);
    ReceivesAwaiting(r, ps[0], cmd, len, k);
    FirstOf(r, ps);
    r' := RxStep(r, ps[0]);
    if k < PacketCount(len) {
      CarriesRest(ps, cmd, len, k);
    }
  }

  /** A packet that has been missed keeps the receiver waiting to the end, although the command is complete. */
  lemma {:induction false} WaitsForEver(end: Dev, r: Dev, ps: seq<seq<Byte>>, cmd: seq<Byte>, len: Byte, k: nat)
    requires CarriesFrom(ps, cmd, len, k) && AllPackets(ps) && Stored(r, cmd, PAYLOAD * (k - 1))
    requires 1 <= r.rx.num <= k && (r.rx.num == k ==> k % 8 >= 4)
    requires end == RxRun(r, ps)
    ensures Stored(end, cmd, len) && end.rx.state == r.rx.state
    decreases PacketCount(len) - k
  {
    var r' := RestOf(r, ps, cmd, len, k);
    if k < PacketCount(len) {
      WaitsForEver(end, r', ps[1..], cmd, len, k + 1);
    } else {
      assert ps[1..] == [];
    }
  }

  /** The awaited packet ends the waiting and the others complete the command. */
  lemma Recovers(r: Dev, ps: seq<seq<Byte>>, cmd: seq<Byte>, len: Byte, k: nat)
    requires CarriesFrom(ps, cmd, len, k) && AllPackets(ps) && Stored(r, cmd, PAYLOAD * (k - 1))
    requires r.rx.num == k && k % 8 < 4
    ensures Stored(RxRun(r, ps), cmd, len) && RxRun(r, ps).rx.state == LastPacket
  {
    var r' := RestOf(r, ps, cmd, len, k);
    if k < PacketCount(len) {
      CommandReassembled(r', ps[1..], cmd, len, k + 1);
    }
  }

  /**
   * After packet k a corrupt one arrives, and the peer repeats from k + 1 on. The whole command is stored in any case,
   * but the receiver takes it as complete if and only if bit 2 of the number k + 1 is clear.
   */
  lemma CorruptionRecoveredIff(r: Dev, p: seq<Byte>, ps: seq<seq<Byte>>, cmd: seq<Byte>, len: Byte, k: nat)
    requires Holds(r, cmd, PAYLOAD * k) && 1 <= k < PacketCount(len) && r.rx.state != LastPacket
    requires SeqNum(r.rx.h0, r.rx.h1) == k && !IsLast(r.rx.h0)
    requires |p| == PACKET && !CrcValid(p) && CarriesFrom(ps, cmd, len, k + 1) && AllPackets(ps)
    ensures |RxStep(r, p).rxBuf.cmd| == COMMAND
    ensures Stored(RxRun(RxStep(r, p), ps), cmd, len)
    ensures RxRun(RxStep(r, p), ps).rx.state == LastPacket <==> (k + 1) % 8 < 4
  {
    var r' := RxStep(r, p);
    assert r'.rx.num == k + 1 && r'.rx.state == r.rx.state && Stored(r', cmd, PAYLOAD * k);
    if (k + 1) % 8 < 4 {
      Recovers(r', ps, cmd, len, k + 1);
    } else {
      WaitsForEver(RxRun(r', ps), r', ps, cmd, len, k + 1);
    }
  }
}
