/** Request frames: the fixed frames of the command catalogue and the two
    builders that assemble the sale and cancellation frames in a buffer. A
    frame is STX, a four-digit command code, optional PIPE-separated fields,
    ETX and one checksum byte. */
module Codec {
  import opened Bytes

  /** A request and what the terminal's answer is expected to look like. */
  datatype Message = Message(payload: seq<byte>, payloadSize: nat, responseSize: nat, retries: nat)

  /** Every command of this protocol version is tried three times. */
  const Retries: nat := 3

  const CloseFrame: seq<byte> := [STX, 0x30, 0x35, 0x30, 0x30, PIPE, PIPE, ETX, 0x06]
  const GetTotalsFrame: seq<byte> := [STX, 0x30, 0x37, 0x30, 0x30, PIPE, PIPE, ETX, 0x04]
  const LoadKeysFrame: seq<byte> := [STX, 0x30, 0x38, 0x30, 0x30, ETX, 0x0B]
  const PollFrame: seq<byte> := [STX, 0x30, 0x31, 0x30, 0x30, ETX, 0x02]
  const ChangeToNormalFrame: seq<byte> := [STX, 0x30, 0x33, 0x30, 0x30, ETX, 0x00]
  const LastSaleFrame: seq<byte> := [STX, 0x30, 0x32, 0x35, 0x30, PIPE, ETX, 0x78]

  const CloseMessage: Message := Message(CloseFrame, 9, 33, Retries)
  const GetTotalsMessage: Message := Message(GetTotalsFrame, 9, 24, Retries)
  const LoadKeysMessage: Message := Message(LoadKeysFrame, 7, 32, Retries)
  const PollMessage: Message := Message(PollFrame, 7, 1, Retries)
  const ChangeToNormalMessage: Message := Message(ChangeToNormalFrame, 7, 1, Retries)
  /** Built inside last_sale, with the payload size taken from the frame itself. */
  const LastSaleMessage: Message := Message(LastSaleFrame, |LastSaleFrame|, 146, Retries)

  /** A complete frame: STX first, ETX just before the last byte, and the last
      byte the checksum of the rest. */
  predicate Sealed(frame: seq<byte>)
  {
    |frame| >= 3 && frame[0] == STX && frame[|frame| - 2] == ETX && frame[|frame| - 1] == Lrc(frame)
  }

  predicate WellFormed(m: Message)
  {
    Sealed(m.payload) && |m.payload| == m.payloadSize && m.retries == Retries
  }

  /** Every fixed frame of the catalogue is sealed and as long as its message declares. */
  lemma StaticCatalogWellFormed()
    ensures WellFormed(CloseMessage) && WellFormed(GetTotalsMessage) && WellFormed(LoadKeysMessage)
    ensures WellFormed(PollMessage) && WellFormed(ChangeToNormalMessage) && WellFormed(LastSaleMessage)
    ensures CloseMessage.payloadSize == 9 && GetTotalsMessage.payloadSize == 9
    ensures LoadKeysMessage.payloadSize == 7 && PollMessage.payloadSize == 7
    ensures ChangeToNormalMessage.payloadSize == 7 && LastSaleMessage.payloadSize == 8
  {
    CloseSealed();
    GetTotalsSealed();
    LoadKeysSealed();
    PollSealed();
    ChangeToNormalSealed();
    LastSaleSealed();
  }

  lemma CloseSealed()
    ensures Sealed(CloseFrame)
  {
    assert CloseFrame[1..8] == [0x30, 0x35, 0x30, 0x30, 0x7C, 0x7C, 0x03];
    XorSteps(CloseFrame[1..8]);
    assert Xor(CloseFrame[1..8][..1]) == 0x30;
    assert Xor(CloseFrame[1..8][..2]) == 0x05;
    assert Xor(CloseFrame[1..8][..3]) == 0x35;
    assert Xor(CloseFrame[1..8][..4]) == 0x05;
    assert Xor(CloseFrame[1..8][..5]) == 0x79;
    assert Xor(CloseFrame[1..8][..6]) == 0x05;
    assert Xor(CloseFrame[1..8][..7]) == 0x06;
  }

  lemma GetTotalsSealed()
    ensures Sealed(GetTotalsFrame)
  {
    assert GetTotalsFrame[1..8] == [0x30, 0x37, 0x30, 0x30, 0x7C, 0x7C, 0x03];
    XorSteps(GetTotalsFrame[1..8]);
    assert Xor(GetTotalsFrame[1..8][..1]) == 0x30;
    assert Xor(GetTotalsFrame[1..8][..2]) == 0x07;
    assert Xor(GetTotalsFrame[1..8][..3]) == 0x37;
    assert Xor(GetTotalsFrame[1..8][..4]) == 0x07;
    assert Xor(GetTotalsFrame[1..8][..5]) == 0x7B;
    assert Xor(GetTotalsFrame[1..8][..6]) == 0x07;
    assert Xor(GetTotalsFrame[1..8][..7]) == 0x04;
  }

  lemma LoadKeysSealed()
    ensures Sealed(LoadKeysFrame)
  {
    assert LoadKeysFrame[1..6] == [0x30, 0x38, 0x30, 0x30, 0x03];
    XorSteps(LoadKeysFrame[1..6]);
    assert Xor(LoadKeysFrame[1..6][..1]) == 0x30;
    assert Xor(LoadKeysFrame[1..6][..2]) == 0x08;
    assert Xor(LoadKeysFrame[1..6][..3]) == 0x38;
    assert Xor(LoadKeysFrame[1..6][..4]) == 0x08;
    assert Xor(LoadKeysFrame[1..6][..5]) == 0x0B;
  }

  lemma PollSealed()
    ensures Sealed(PollFrame)
  {
    assert PollFrame[1..6] == [0x30, 0x31, 0x30, 0x30, 0x03];
    XorSteps(PollFrame[1..6]);
    assert Xor(PollFrame[1..6][..1]) == 0x30;
    assert Xor(PollFrame[1..6][..2]) == 0x01;
    assert Xor(PollFrame[1..6][..3]) == 0x31;
    assert Xor(PollFrame[1..6][..4]) == 0x01;
    assert Xor(PollFrame[1..6][..5]) == 0x02;
  }

  lemma ChangeToNormalSealed()
    ensures Sealed(ChangeToNormalFrame)
  {
    assert ChangeToNormalFrame[1..6] == [0x30, 0x33, 0x30, 0x30, 0x03];
    XorSteps(ChangeToNormalFrame[1..6]);
    assert Xor(ChangeToNormalFrame[1..6][..1]) == 0x30;
    assert Xor(ChangeToNormalFrame[1..6][..2]) == 0x03;
    assert Xor(ChangeToNormalFrame[1..6][..3]) == 0x33;
    assert Xor(ChangeToNormalFrame[1..6][..4]) == 0x03;
    assert Xor(ChangeToNormalFrame[1..6][..5]) == 0x00;
  }

  lemma LastSaleSealed()
    ensures Sealed(LastSaleFrame)
  {
    assert LastSaleFrame[1..7] == [0x30, 0x32, 0x35, 0x30, 0x7C, 0x03];
    XorSteps(LastSaleFrame[1..7]);
    assert Xor(LastSaleFrame[1..7][..1]) == 0x30;
    assert Xor(LastSaleFrame[1..7][..2]) == 0x02;
    assert Xor(LastSaleFrame[1..7][..3]) == 0x37;
    assert Xor(LastSaleFrame[1..7][..4]) == 0x07;
    assert Xor(LastSaleFrame[1..7][..5]) == 0x7B;
    assert Xor(LastSaleFrame[1..7][..6]) == 0x78;
  }

  // ---------------------------------------------------------------------
  // Building a frame in a buffer

  /** strcat(buf, piece), where len is the length of the C string buf holds. */
  method StrCat(buf: array<byte>, len: nat, piece: seq<byte>) returns (newLen: nat)
    requires len + |piece| <= buf.Length
    modifies buf
    ensures newLen == len + |piece|
    ensures buf[..newLen] == old(buf[..len]) + piece
  {
    var k := 0;
    while k < |piece|
      invariant 0 <= k <= |piece|
      invariant buf[..len + k] == old(buf[..len]) + piece[..k]
    {
      buf[len + k] := piece[k];
      k := k + 1;
    }
    newLen := len + k;
  }

  /** The frame with its placeholder byte replaced by its checksum. */
  function Seal(fields: seq<byte>): seq<byte>
    requires |fields| >= 2
  {
    fields[..|fields| - 1] + [Lrc(fields)]
  }

  /** Sealing rewrites the last byte only, and a frame that starts with STX
      and has ETX before its placeholder comes out sealed. */
  lemma SealRewritesOnlyLastByte(fields: seq<byte>)
    requires |fields| >= 3 && fields[0] == STX && fields[|fields| - 2] == ETX
    ensures |Seal(fields)| == |fields|
    ensures Seal(fields)[..|fields| - 1] == fields[..|fields| - 1]
    ensures Sealed(Seal(fields))
  {
    var r := Seal(fields);
    assert r[1..|r| - 1] == fields[1..|fields| - 1];
  }

  /** Writes the checksum over the placeholder: calculate_lrc over the whole
      buffer, then buf[strlen(buf) - 1] := lrc. */
  method WriteChecksum(msg: array<byte>)
    requires msg.Length >= 2 && NUL !in msg[..]
    modifies msg
    ensures msg[..] == Seal(old(msg[..]))
  {
    var lrc := Lrc(msg[..]);
    assert forall i :: 0 <= i < msg.Length ==> msg[..][i] != NUL;
    var n := ScanStrLen(msg);
    msg[n - 1] := lrc;
  }

  /** ASCII '0' or '1' for a boolean flag, as send_messages + '0'. */
  function FlagDigit(b: bool): byte
  {
    if b then 0x31 else ZERO
  }

  const SaleOperation: seq<byte> := [STX, 0x30, 0x32, 0x30, 0x30]
  const CancellationOperation: seq<byte> := [STX, 0x31, 0x32, 0x30, 0x30]

  /** The sale frame as strcat assembles it, checksum placeholder included. */
  function SaleFields(amount: int, ticket: int, sendMessages: bool): seq<byte>
    requires FitsWidth(amount, 9) && FitsWidth(ticket, 6)
  {
    SaleOperation + [PIPE] + FormatDecimal(amount, 9) + [PIPE] + FormatDecimal(ticket, 6)
      + [PIPE, PIPE, PIPE, FlagDigit(sendMessages), ETX, ZERO]
  }

  function SaleMessage(amount: int, ticket: int, sendMessages: bool): Message
    requires FitsWidth(amount, 9) && FitsWidth(ticket, 6)
  {
    Message(Seal(SaleFields(amount, ticket, sendMessages)), 28, 146, Retries)
  }

  /** The cancellation frame as strcat assembles it, placeholder included. */
  function CancellationFields(transactionId: int): seq<byte>
    requires FitsWidth(transactionId, 6)
  {
    CancellationOperation + [PIPE] + FormatDecimal(transactionId, 6) + [PIPE, ETX, ZERO]
  }

  function CancellationMessage(transactionId: int): Message
    requires FitsWidth(transactionId, 6)
  {
    Message(Seal(CancellationFields(transactionId)), 15, 46, Retries)
  }

  lemma FormatDecimalNoNul(n: int, width: nat)
    requires FitsWidth(n, width)
    ensures NUL !in FormatDecimal(n, width)
  {
    var r := FormatDecimal(n, width);
    if n < 0 {
      DigitsHaveNoNul(r[1..]);
      assert r == [r[0]] + r[1..];
    } else {
      DigitsHaveNoNul(r);
    }
  }

  lemma SaleFieldsHaveNoNul(amount: int, ticket: int, sendMessages: bool)
    requires FitsWidth(amount, 9) && FitsWidth(ticket, 6)
    ensures NUL !in SaleFields(amount, ticket, sendMessages)
  {
    FormatDecimalNoNul(amount, 9);
    FormatDecimalNoNul(ticket, 6);
  }

  lemma CancellationFieldsHaveNoNul(transactionId: int)
    requires FitsWidth(transactionId, 6)
    ensures NUL !in CancellationFields(transactionId)
  {
    FormatDecimalNoNul(transactionId, 6);
  }

  /** The pieces of a frame laid end to end. */
  function Concat(pieces: seq<seq<byte>>): seq<byte>
  {
    if pieces == [] then [] else Concat(pieces[..|pieces| - 1]) + pieces[|pieces| - 1]
  }

  /** One strcat per piece, in order, starting from an empty C string. */
  method StrCatEach(buf: array<byte>, pieces: seq<seq<byte>>) returns (len: nat)
    requires |Concat(pieces)| <= buf.Length
    modifies buf
    ensures len == |Concat(pieces)| && buf[..len] == Concat(pieces)
  {
    len := 0;
    var k := 0;
    while k < |pieces|
      invariant 0 <= k <= |pieces|
      invariant len == |Concat(pieces[..k])| <= buf.Length
      invariant buf[..len] == Concat(pieces[..k])
      invariant |Concat(pieces[..k])| + |Concat(pieces[k..])| == |Concat(pieces)|
    {
      assert pieces[..k + 1][..k] == pieces[..k];
      ConcatSplit(pieces, k + 1);
      ConcatSplit(pieces[k..], 1);
      assert pieces[k..][..1] == [pieces[k]];
      assert pieces[k..][1..] == pieces[k + 1..];
      assert Concat([pieces[k]]) == pieces[k] by { assert [pieces[k]][..0] == []; }
      len := StrCat(buf, len, pieces[k]);
      k := k + 1;
    }
    assert pieces[..k] == pieces;
  }

  lemma {:induction false} ConcatSplit(pieces: seq<seq<byte>>, k: nat)
    requires k <= |pieces|
    ensures Concat(pieces) == Concat(pieces[..k]) + Concat(pieces[k..])
    decreases |pieces|
  {
    if k < |pieces| {
      var n := |pieces| - 1;
      assert pieces[..n][..k] == pieces[..k];
      ConcatSplit(pieces[..n], k);
      assert pieces[k..][..|pieces[k..]| - 1] == pieces[..n][k..];
    } else {
      assert pieces[..k] == pieces;
      assert pieces[k..] == [];
    }
  }

  /** The eleven pieces prepare_sale_message strcats, in order. */
  function SalePieces(amount: int, ticket: int, sendMessages: bool): seq<seq<byte>>
    requires FitsWidth(amount, 9) && FitsWidth(ticket, 6)
  {
    [SaleOperation, [PIPE], FormatDecimal(amount, 9), [PIPE], FormatDecimal(ticket, 6),
     [PIPE], [PIPE], [PIPE], [FlagDigit(sendMessages)], [ETX], [ZERO]]
  }

  lemma SalePiecesConcat(amount: int, ticket: int, sendMessages: bool)
    requires FitsWidth(amount, 9) && FitsWidth(ticket, 6)
    ensures Concat(SalePieces(amount, ticket, sendMessages)) == SaleFields(amount, ticket, sendMessages)
  {
    var ps := SalePieces(amount, ticket, sendMessages);
    ConcatSplit(ps, 5);
    SalePiecesHead(amount, ticket, sendMessages);
    SalePiecesTail(amount, ticket, sendMessages);
  }

  /** The three empty fields, the flag, ETX and the placeholder: the last six
      pieces. */
  lemma SalePiecesTail(amount: int, ticket: int, sendMessages: bool)
    requires FitsWidth(amount, 9) && FitsWidth(ticket, 6)
    ensures Concat(SalePieces(amount, ticket, sendMessages)[5..])
         == [PIPE, PIPE, PIPE, FlagDigit(sendMessages), ETX, ZERO]
  {
    var t := SalePieces(amount, ticket, sendMessages)[5..];
    ConcatSingletons(t, [PIPE, PIPE, PIPE, FlagDigit(sendMessages), ETX, ZERO]);
  }

  /** Pieces of one byte each concatenate to those bytes. */
  lemma {:induction false} ConcatSingletons(pieces: seq<seq<byte>>, bytes: seq<byte>)
    requires |pieces| == |bytes|
    requires forall i :: 0 <= i < |pieces| ==> pieces[i] == [bytes[i]]
    ensures Concat(pieces) == bytes
  {
    if pieces != [] {
      var n := |pieces| - 1;
      ConcatSingletons(pieces[..n], bytes[..n]);
      assert bytes == bytes[..n] + [bytes[n]];
    }
  }

  /** The operation code, the amount and the ticket: the first five pieces. */
  lemma SalePiecesHead(amount: int, ticket: int, sendMessages: bool)
    requires FitsWidth(amount, 9) && FitsWidth(ticket, 6)
    ensures Concat(SalePieces(amount, ticket, sendMessages)[..5])
         == SaleOperation + [PIPE] + FormatDecimal(amount, 9) + [PIPE] + FormatDecimal(ticket, 6)
  {
    var ps := SalePieces(amount, ticket, sendMessages);
    assert ps[..0] == [];
    ConcatStep(ps, 1);
    ConcatStep(ps, 2);
    ConcatStep(ps, 3);
    ConcatStep(ps, 4);
    ConcatStep(ps, 5);
  }

  /** Concat of the first i pieces is that of the first i - 1 and then the
      i-th one. */
  lemma ConcatStep(pieces: seq<seq<byte>>, i: nat)
    requires 0 < i <= |pieces|
    ensures Concat(pieces[..i]) == Concat(pieces[..i - 1]) + pieces[i - 1]
  {
    assert pieces[..i][..i - 1] == pieces[..i - 1];
  }

  /** The eleven strcat calls of prepare_sale_message, into an empty buffer. */
  method AppendSaleFields(msg: array<byte>, amount: int, ticket: int, sendMessages: bool)
    requires FitsWidth(amount, 9) && FitsWidth(ticket, 6) && msg.Length == 28
    modifies msg
    ensures msg[..] == SaleFields(amount, ticket, sendMessages)
  {
    SalePiecesConcat(amount, ticket, sendMessages);
    var len := StrCatEach(msg, SalePieces(amount, ticket, sendMessages));
    assert msg[..] == msg[..len];
  }

  /** prepare_sale_message: the fields strcat'ed into a 28-byte buffer, then
      the placeholder overwritten with the checksum. */
  method PrepareSaleMessage(amount: int, ticket: int, sendMessages: bool) returns (m: Message)
    requires FitsWidth(amount, 9) && FitsWidth(ticket, 6)
    ensures m == SaleMessage(amount, ticket, sendMessages)
  {
    var msg := new byte[28];
    AppendSaleFields(msg, amount, ticket, sendMessages);
    SaleFieldsHaveNoNul(amount, ticket, sendMessages);
    WriteChecksum(msg);
    m := Message(msg[..], 28, 146, Retries);
  }

  /** prepare_cancellation_message: the same assembly into a 15-byte buffer. */
  method PrepareCancellationMessage(transactionId: int) returns (m: Message)
    requires FitsWidth(transactionId, 6)
    ensures m == CancellationMessage(transactionId)
  {
    var msg := new byte[15];
    var len := 0;
    len := StrCat(msg, len, CancellationOperation);
    len := StrCat(msg, len, [PIPE]);
    len := StrCat(msg, len, FormatDecimal(transactionId, 6));
    len := StrCat(msg, len, [PIPE]);
    len := StrCat(msg, len, [ETX]);
    len := StrCat(msg, len, [ZERO]);
    assert msg[..] == msg[..len] == CancellationFields(transactionId);
    CancellationFieldsHaveNoNul(transactionId);
    WriteChecksum(msg);
    m := Message(msg[..], 15, 46, Retries);
  }

  /** Where each field of the unsealed sale frame sits. */
  lemma SaleFieldOffsets(amount: int, ticket: int, sendMessages: bool)
    requires FitsWidth(amount, 9) && FitsWidth(ticket, 6)
    ensures var f := SaleFields(amount, ticket, sendMessages);
      |f| == 28 && f[..5] == SaleOperation && f[5] == PIPE
      && f[6..15] == FormatDecimal(amount, 9) && f[15] == PIPE
      && f[16..22] == FormatDecimal(ticket, 6)
      && f[22] == PIPE && f[23] == PIPE && f[24] == PIPE
      && f[25] == FlagDigit(sendMessages) && f[26] == ETX
  {
    var a := SaleOperation + [PIPE];
    var b := a + FormatDecimal(amount, 9);
    var c := b + [PIPE];
    var d := c + FormatDecimal(ticket, 6);
    var f := d + [PIPE, PIPE, PIPE, FlagDigit(sendMessages), ETX, ZERO];
    assert f == SaleFields(amount, ticket, sendMessages);
    assert f[..5] == a[..5] == SaleOperation;
    assert f[6..15] == b[6..15] == FormatDecimal(amount, 9);
    assert f[16..22] == d[16..22] == FormatDecimal(ticket, 6);
  }

  /** Layout of the sale frame: STX "0200" | amount(9) | ticket(6) | | | flag
      ETX checksum, 28 bytes, and both numbers read back by strtol. */
  lemma SaleFrameLayout(amount: int, ticket: int, sendMessages: bool)
    requires FitsWidth(amount, 9) && FitsWidth(ticket, 6)
    ensures var m := SaleMessage(amount, ticket, sendMessages);
      var p := m.payload;
      WellFormed(m) && |p| == 28 && m.responseSize == 146
      && p[..5] == SaleOperation && p[5] == PIPE
      && p[6..15] == FormatDecimal(amount, 9) && p[15] == PIPE
      && p[16..22] == FormatDecimal(ticket, 6)
      && p[22] == PIPE && p[23] == PIPE && p[24] == PIPE
      && p[25] == FlagDigit(sendMessages) && p[26] == ETX
      && p[..27] == SaleFields(amount, ticket, sendMessages)[..27]
      && StrToL(p[6..15]) == amount && StrToL(p[16..22]) == ticket
  {
    var f := SaleFields(amount, ticket, sendMessages);
    SaleFieldOffsets(amount, ticket, sendMessages);
    SealRewritesOnlyLastByte(f);
    var p := Seal(f);
    assert p[..27] == f[..27];
    assert p[..5] == f[..5];
    assert p[6..15] == f[6..15];
    assert p[16..22] == f[16..22];
    FormatDecimalRoundTrip(amount, 9);
    FormatDecimalRoundTrip(ticket, 6);
  }

  /** Layout of the cancellation frame: STX "1200" | id(6) | ETX checksum. */
  lemma CancellationFrameLayout(transactionId: int)
    requires FitsWidth(transactionId, 6)
    ensures var m := CancellationMessage(transactionId);
      var p := m.payload;
      WellFormed(m) && |p| == 15 && m.responseSize == 46
      && p[..5] == CancellationOperation && p[5] == PIPE
      && p[6..12] == FormatDecimal(transactionId, 6)
      && p[12] == PIPE && p[13] == ETX
      && p[..14] == CancellationFields(transactionId)[..14]
      && StrToL(p[6..12]) == transactionId
  {
    var f := CancellationFields(transactionId);
    CancellationFieldOffsets(transactionId);
    SealRewritesOnlyLastByte(f);
    var p := Seal(f);
    assert p[..14] == f[..14];
    assert p[..5] == f[..5];
    assert p[6..12] == f[6..12];
    FormatDecimalRoundTrip(transactionId, 6);
  }

  /** Where each field of the unsealed cancellation frame sits. */
  lemma CancellationFieldOffsets(transactionId: int)
    requires FitsWidth(transactionId, 6)
    ensures var f := CancellationFields(transactionId);
      |f| == 15 && f[..5] == CancellationOperation && f[5] == PIPE
      && f[6..12] == FormatDecimal(transactionId, 6)
      && f[12] == PIPE && f[13] == ETX
  {
    var a := CancellationOperation + [PIPE];
    var b := a + FormatDecimal(transactionId, 6);
    var f := b + [PIPE, ETX, ZERO];
    assert f == CancellationFields(transactionId);
    assert f[..5] == a[..5] == CancellationOperation;
    assert f[6..12] == b[6..12] == FormatDecimal(transactionId, 6);
  }
}
