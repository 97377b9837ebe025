/**
 * Sub-packet framing of the CVoIP driver, full-duplex build (drv_dect_cosic_drv_cvoip.c).
 * One transmit and one receive buffer; bytes are numbers below 256, header fields are taken apart by division.
 */
module Cvoip {

  type Byte = b: int | 0 <= b < 256

  const PAYLOAD := 13
  const PACKET := 16
  const COMMAND := 256

  datatype TransState = IdleState | InProgress | LastPacket | TransOver

  // ----- header fields -----

  function SeqNum(h0: Byte, h1: Byte): (n: nat)
    ensures n < 32
  {
    h0 % 4 * 8 + h1 / 32
  }

  function PayloadLen(h0: Byte): nat {
    h0 / 16
  }

  predicate IsAck(h0: Byte) {
    h0 / 8 % 2 == 0
  }

  predicate IsLast(h0: Byte) {
    h0 / 4 % 2 == 0
  }

  function NackIndex(h1: Byte): nat {
    h1 % 32
  }

  /** The sequence number as HandleRxData computes it: `char` is signed, so bit 7 of h1 is extended upwards. */
  function SignedIndex(h0: Byte, h1: Byte): int {
    if h1 < 128 then h0 % 4 * 8 + h1 / 32 else h1 / 32 - 8
  }

  function MakeH0(len: nat, last: bool, num: nat): (h: Byte)
    requires len <= PAYLOAD
    ensures IsAck(h)
  {
    len * 16 + (if last then 0 else 4) + num / 8 % 4
  }

  function MakeH1(num: nat, ack: nat): (h: Byte)
    requires ack < 32
    ensures h % 32 == ack
  {
    num % 8 * 32 + ack
  }

  // ----- checksum -----

  function Sum(s: seq<Byte>): nat {
    if s == [] then 0 else Sum(s[..|s| - 1]) + s[|s| - 1]
  }

  function Crc(s: seq<Byte>): Byte {
    (256 - Sum(s) % 256) % 256
  }

  predicate CrcValid(p: seq<Byte>) {
    Sum(p) % 256 == 0
  }

  /** compute_crc: adds up the first fifteen bytes and stores the negated sum behind them. */
  method ComputeCrc(buf: array<Byte>)
    requires buf.Length == PACKET
    modifies buf
    ensures buf[..15] == old(buf[..15]) && buf[15] == Crc(old(buf[..15]))
  {
    var crc: Byte := 0;
    var i := 0;
    while i < PACKET - 1
      invariant 0 <= i <= 15 && crc == Sum(buf[..i]) % 256
    {
      assert buf[..i + 1][..i] == buf[..i];
      crc := (crc + buf[i]) % 256;
      i := i + 1;
    }
    buf[15] := (256 - crc) % 256;
  }

  /** IsCrcValid. */
  method IsCrcValid(buf: array<Byte>) returns (ok: bool)
    requires buf.Length == PACKET
    ensures ok == CrcValid(buf[..])
  {
    var crc: Byte := 0;
    var i := 0;
    while i < PACKET
      invariant 0 <= i <= 16 && crc == Sum(buf[..i]) % 256
    {
      assert buf[..i + 1][..i] == buf[..i];
      crc := (crc + buf[i]) % 256;
      i := i + 1;
    }
    assert buf[..16] == buf[..];
    ok := crc == 0;
  }

  lemma CrcCloses(s: seq<Byte>)
    ensures CrcValid(s + [Crc(s)])
  {
    var p := s + [Crc(s)];
    assert p[..|p| - 1] == s;
  }

  lemma {:induction false} SumUpdate(s: seq<Byte>, i: nat, b: Byte)
    requires i < |s|
    ensures Sum(s[i := b]) + s[i] == Sum(s) + b
  {
    var n := |s| - 1;
    if i < n {
      assert s[i := b][..n] == s[..n][i := b];
      SumUpdate(s[..n], i, b);
    } else {
      assert s[i := b][..n] == s[..n];
    }
  }

  /** A valid packet stops being valid when any one byte changes. */
  lemma CrcDetectsOneByte(p: seq<Byte>, i: nat, b: Byte)
    requires CrcValid(p) && i < |p| && b != p[i]
    ensures !CrcValid(p[i := b])
  {
    SumUpdate(p, i, b);
  }

  // ----- driver state -----

  /** TxHdr or RxHdr: two header bytes, a packet number and the transaction state. */
  datatype Header = Header(h0: Byte, h1: Byte, num: Byte, state: TransState)

  datatype Buffer = Buffer(cmd: seq<Byte>, len: Byte, index: Byte)

  datatype Dev = Dev(tx: Header, rx: Header, txBuf: Buffer, rxBuf: Buffer, lastTxSeq: nat, dummy: bool)

  predicate Sending(d: Dev) {
    d.tx.state == InProgress && d.txBuf.len > 0
  }

  /** Buffers have their full size, and a command being sent is not yet used up. */
  predicate WellFormed(d: Dev) {
    |d.txBuf.cmd| == COMMAND && |d.rxBuf.cmd| == COMMAND && (Sending(d) ==> d.txBuf.index < d.txBuf.len)
  }

  function Zeros(n: nat): (s: seq<Byte>)
    ensures |s| == n && forall i | 0 <= i < n :: s[i] == 0
  {
    seq(n, _ => 0)
  }

  function Packet(h0: Byte, h1: Byte, payload: seq<Byte>): (p: seq<Byte>)
    requires |payload| <= PAYLOAD
    ensures |p| == PACKET && CrcValid(p)
  {
    var body := [h0, h1] + payload + Zeros(PAYLOAD - |payload|);
    CrcCloses(body);
    body + [Crc(body)]
  }

  // ----- prepare_tx_buffer -----

  function NumberAt(index: Byte): nat {
    index / PAYLOAD + 1
  }

  predicate LastAt(index: Byte, len: Byte) {
    index + PAYLOAD >= len
  }

  function SizeAt(index: Byte, len: Byte): (n: nat)
    requires index < len
    ensures n <= PAYLOAD && index + n <= len
  {
    if LastAt(index, len) then len - index else PAYLOAD
  }

  /** Nothing to send and nothing to acknowledge. */
  predicate SendsDummy(d: Dev) {
    && PayloadLen(d.rx.h0) == 0
    && (d.tx.state == LastPacket || d.tx.state == TransOver || SeqNum(d.rx.h0, d.rx.h1) == 0)
    && IsAck(d.tx.h0)
  }

  /** Every packet acknowledges the number received last. */
  function AckedH1(d: Dev, h1: Byte): Byte
    requires h1 % 32 == 0
  {
    h1 + SeqNum(d.rx.h0, d.rx.h1)
  }

  /** A NACK that is due is passed on if there is a number to refuse. */
  predicate PassesNack(d: Dev, h1: Byte)
    requires h1 % 32 == 0
  {
    !IsAck(d.tx.h0) && AckedH1(d, h1) % 32 != 0
  }

  function AckedH0(d: Dev, h0: Byte, h1: Byte): Byte
    requires IsAck(h0) && h1 % 32 == 0
  {
    if PassesNack(d, h1) then h0 + 8 else h0
  }

  /** Acknowledging the last packet ends the reception. */
  function AckedRx(d: Dev, h1: Byte): Header
    requires h1 % 32 == 0
  {
    if !PassesNack(d, h1) && d.rx.state == LastPacket then d.rx.(state := TransOver) else d.rx
  }

  /** The common end of prepare_tx_buffer: the packet is completed and its header kept. */
  function Finish(d: Dev, h0: Byte, h1: Byte, payload: seq<Byte>): (Dev, seq<Byte>)
    requires |payload| <= PAYLOAD && IsAck(h0) && h1 % 32 == 0
  {
    var h0', h1' := AckedH0(d, h0, h1), AckedH1(d, h1);
    (d.(tx := d.tx.(h0 := h0', h1 := h1'), rx := AckedRx(d, h1),
        lastTxSeq := if d.tx.state == LastPacket then SeqNum(h0', h1') else d.lastTxSeq),
     Packet(h0', h1', payload))
  }

  /** The position after the current piece; the last piece ends the transmission instead of moving on. */
  function Advance(d: Dev): Dev
    requires Sending(d) && d.txBuf.index < d.txBuf.len
  {
    var b, num := d.txBuf, NumberAt(d.txBuf.index);
    if LastAt(b.index, b.len) then d.(tx := d.tx.(num := num, state := LastPacket))
    else d.(tx := d.tx.(num := num), txBuf := b.(index := b.index + PAYLOAD))
  }

  /** prepare_tx_buffer on a cleared buffer. */
  function TxStep(d: Dev): (Dev, seq<Byte>)
    requires WellFormed(d)
  {
    if Sending(d) then
      var b := d.txBuf;
      var num, last, size := NumberAt(b.index), LastAt(b.index, b.len), SizeAt(b.index, b.len);
      Finish(Advance(d), MakeH0(size, last, num), MakeH1(num, 0), b.cmd[b.index..b.index + size])
    else if SendsDummy(d) then
      (d.(tx := d.tx.(h0 := 0, h1 := 0), dummy := true), Zeros(PACKET))
    else
      var over := (d.txBuf.len == 0 || d.tx.state == LastPacket) &&
                  (d.rx.state == TransOver || d.rx.state == LastPacket);
      Finish(if over then d.(tx := d.tx.(state := TransOver)) else d, 0, 0, [])
  }

  // ----- HandleRxData -----

  /** A packet that fails its checksum: step back one packet, and remember which one the peer has to repeat. */
  function RxCorrupt(d: Dev): Dev {
    var d1 := if d.tx.state == LastPacket then d.(tx := d.tx.(state := InProgress)) else d;
    var d2 :=
      if d1.tx.num != 1 && SeqNum(d1.tx.h0, d1.tx.h1) != 0 then
        d1.(txBuf := d1.txBuf.(index := (d1.tx.num - 2) * PAYLOAD % 256), tx := d1.tx.(num := 0))
      else d1;
    if !IsLast(d2.rx.h0) then
      d2.(rx := d2.rx.(num := SeqNum(d2.rx.h0, d2.rx.h1) + 1, h0 := 0, h1 := 0))
    else d2
  }

  /** A packet without payload and acknowledgement. */
  function RxDummy(d: Dev): Dev {
    var tx := if IsAck(d.tx.h0) then d.tx else d.tx.(h0 := d.tx.h0 - 8);
    var rx := d.rx.(h0 := d.rx.h0 - d.rx.h0 % 4, h1 := d.rx.h1 % 32);
    if d.dummy then d.(tx := tx.(state := TransOver), rx := rx.(state := TransOver)) else d.(tx := tx, rx := rx)
  }

  predicate TxActive(d: Dev) {
    d.tx.state == InProgress || d.tx.state == LastPacket
  }

  /** A NACK that does not directly follow another one is obeyed. */
  predicate Obeyed(d: Dev, h0: Byte) {
    TxActive(d) && !IsAck(h0) && IsAck(d.rx.h0)
  }

  /** The sending side's reaction to an acknowledgement field. */
  function RxAck(d: Dev, h0: Byte, h1: Byte): Dev {
    if Obeyed(d, h0) then
      d.(txBuf := d.txBuf.(index := (NackIndex(h1) - 1) * PAYLOAD % 256), tx := d.tx.(state := InProgress))
    else if d.tx.state == LastPacket && NackIndex(h1) != 0 && d.lastTxSeq == NackIndex(h1) then
      d.(tx := d.tx.(state := TransOver))
    else d
  }

  /** Bytes copied over others from position `at` on. */
  function CopyAt(to: seq<Byte>, at: nat, bytes: seq<Byte>): (r: seq<Byte>)
    requires at + |bytes| <= |to|
    ensures |r| == |to|
  {
    to[..at] + bytes + to[at + |bytes|..]
  }

  /** memcpy between two arrays. */
  method CopyBytes(from: array<Byte>, start: nat, n: nat, to: array<Byte>, at: nat)
    requires from != to && start + n <= from.Length && at + n <= to.Length
    modifies to
    ensures to[..] == CopyAt(old(to[..]), at, from[start..start + n])
  {
    forall i | 0 <= i < n {
      to[at + i] := from[start + i];
    }
    ghost var bytes, r := from[start..start + n], CopyAt(old(to[..]), at, from[start..start + n]);
    forall k | 0 <= k < to.Length ensures to[..][k] == r[k] {
      if at <= k < at + n {
        assert to[at + (k - at)] == bytes[k - at];
      }
    }
  }

  /** The copy stays within the received packet and the receive buffer. */
  predicate CopyFits(d: Dev, n: nat) {
    n <= PACKET - 2 && d.rxBuf.index + n <= COMMAND
  }

  /** The payload is appended to the receive buffer; position and length are single bytes. */
  function RxPayload(d: Dev, p: seq<Byte>): (d': Dev)
    requires |p| == PACKET && |d.rxBuf.cmd| == COMMAND && CopyFits(d, PayloadLen(p[0]))
    ensures |d'.rxBuf.cmd| == COMMAND
  {
    var b, n := d.rxBuf, PayloadLen(p[0]);
    var state := if IsLast(p[0]) && d.rx.num == 0 then LastPacket else d.rx.state;
    d.(rxBuf := Buffer(CopyAt(b.cmd, b.index, p[2..2 + n]), (b.len + n) % 256, (b.index + n) % 256),
       rx := d.rx.(state := state))
  }

  predicate RxFits(d: Dev, p: seq<Byte>)
    requires |p| == PACKET
  {
    CrcValid(p) && PayloadLen(p[0]) != 0 ==> CopyFits(d, PayloadLen(p[0]))
  }

  /** A retransmission that was waited for has arrived, if the index computed for it agrees. */
  function RxNote(d: Dev, h0: Byte, h1: Byte): Dev {
    var index := if PayloadLen(h0) != 0 then SignedIndex(h0, h1) else 0;
    if index == d.rx.num then d.(rx := d.rx.(num := 0)) else d
  }

  /** What counts as acknowledged: an ACK, or a NACK that is not obeyed while sending. */
  predicate Acked(d: Dev, h0: Byte) {
    IsAck(h0) || (TxActive(d) && !IsAck(d.rx.h0))
  }

  function RxStore(d: Dev, p: seq<Byte>): Dev
    requires |p| == PACKET && |d.rxBuf.cmd| == COMMAND
    requires PayloadLen(p[0]) != 0 ==> CopyFits(d, PayloadLen(p[0]))
  {
    if PayloadLen(p[0]) != 0 then RxPayload(d, p) else d
  }

  /** The received header is stored and the next packet will be an acknowledgement. */
  function RxClose(d: Dev, h0: Byte, h1: Byte, acked: bool): Dev {
    var over := acked && d.lastTxSeq == NackIndex(h1) && PayloadLen(h0) == 0;
    d.(rx := d.rx.(h0 := if acked && !IsAck(h0) then h0 - 8 else h0, h1 := h1,
                   state := if over then TransOver else d.rx.state),
       tx := d.tx.(h0 := 0))
  }

  /** HandleRxData. */
  function RxStep(d: Dev, p: seq<Byte>): Dev
    requires |p| == PACKET && |d.rxBuf.cmd| == COMMAND && RxFits(d, p)
  {
    var h0, h1 := p[0], p[1];
    if !CrcValid(p) then RxCorrupt(d)
    else if PayloadLen(h0) == 0 && NackIndex(h1) == 0 then RxDummy(d)
    else RxClose(RxStore(RxAck(RxNote(d, h0, h1), h0, h1), p), h0, h1, Acked(d, h0))
  }
}
