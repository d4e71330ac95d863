/** The commands of the POS library: each one runs the handshake of its
    message with the response policy its source loop hard-codes, and turns
    the outcome into the value the C function returns. A command whose
    response loop would poll for ever once the terminal stays silent is
    given the outcome Hangs. */
module Commands {
  import opened Bytes
  import opened Codec
  import opened Decoders
  import opened Transport
  import opened Engine

  /** What a command call comes to: a returned value, or no return at all. */
  datatype Outcome<T> = Returned(value: T) | Hangs

  /** sale, last_sale and cancellation return a char pointer: either the
      buffer holding the terminal's answer, or a fixed error text. */
  datatype RawReply = Frame(bytes: seq<byte>) | Refused(text: string)

  // The poll test and the reply ACK size of each response loop.
  const SalePolicy: Policy := Policy(MoreThan(65), RecordActual)
  const LastSalePolicy: Policy := Policy(MoreThan(0), RecordActual)
  const ClosePolicy: Policy := Policy(MoreThan(0), AckDeclared)
  const LoadKeysPolicy: Policy := Policy(Exactly(32), AckDeclared)
  const GetTotalsPolicy: Policy := Policy(MoreThan(10), AckActual)
  const CancellationPolicy: Policy := Policy(MoreThan(0), RecordActual)

  const SaleRefusal: string := "Unable to request sale\n"
  const LastSaleRefusal: string := "Unable to request last sale\n"
  const CancellationRefusal: string := "Unable to request Cancellation\n"

  // ---------------------------------------------------------------------
  // From a handshake to a return value

  /** The answer buffer when the response was accepted, the error text when
      the request was not acknowledged or the response loop ran out of
      attempts. */
  function TextReply(x: Exchanged, refusal: string): (r: Outcome<RawReply>)
    ensures r == Hangs <==> x == Sent(Diverged)
    ensures r.Returned? && r.value.Frame? <==> x.Sent? && x.answer.Answered?
    ensures r.Returned? && r.value.Frame? ==> r.value.bytes == x.answer.buffer
    ensures r.Returned? && r.value.Refused? ==> r.value.text == refusal
  {
    match x
    case Unsent => Returned(Refused(refusal))
    case Sent(Answered(b, _)) => Returned(Frame(b))
    case Sent(Exhausted) => Returned(Refused(refusal))
    case Sent(Diverged) => Hangs
  }

  /** close and load_keys: the decoded record when the response was
      accepted. Otherwise the C function returns a record it never filled
      in, which has no defined value: None. */
  function BaseReply(x: Exchanged): (r: Outcome<Option<BaseResponse>>)
    requires x.Sent? && x.answer.Answered? ==> |x.answer.buffer| >= 30
    ensures r == Hangs <==> x == Sent(Diverged)
    ensures r.Returned? ==> (r.value.Some? <==> x.Sent? && x.answer.Answered?)
    ensures r.Returned? && r.value.Some? ==> r.value.value.initialized == Ok
    ensures x.Sent? && x.answer.Answered? ==> r == Returned(Some(ParseLoadKeysCloseResponse(x.answer.buffer)))
  {
    match x
    case Unsent => Returned(None)
    case Sent(Answered(b, _)) => Returned(Some(ParseLoadKeysCloseResponse(b)))
    case Sent(Exhausted) => Returned(None)
    case Sent(Diverged) => Hangs
  }

  /** get_totals: the decoded record when the response was accepted;
      otherwise the record it allocated and only marked NOK. */
  function TotalsReply(x: Exchanged): (r: Outcome<TotalsResponse>)
    ensures r == Hangs <==> x == Sent(Diverged)
    ensures r.Returned? ==> (r.value.initialized == Ok <==> x.Sent? && x.answer.Answered?)
    ensures r.Returned? && r.value.initialized == Nok ==> r.value == Unassigned
    ensures x.Sent? && x.answer.Answered? ==> r == Returned(TotalsRecord(x.answer.buffer))
  {
    match x
    case Unsent => Returned(Unassigned)
    case Sent(Answered(b, _)) => Returned(TotalsRecord(b))
    case Sent(Exhausted) => Returned(Unassigned)
    case Sent(Diverged) => Hangs
  }

  function StatusOf(ok: bool): Status
  {
    if ok then Ok else Nok
  }

  // ---------------------------------------------------------------------
  // The commands, as functions of the script and the port state

  function SaleCommand(sc: Script, st: PortState, amount: int, ticket: int, sendMessages: bool): Step<Outcome<RawReply>>
    requires FitsWidth(amount, 9) && FitsWidth(ticket, 6)
  {
    var x := Exchange(sc, st, SaleMessage(amount, ticket, sendMessages), SalePolicy);
    Step(TextReply(x.result, SaleRefusal), x.next)
  }

  function LastSaleCommand(sc: Script, st: PortState): Step<Outcome<RawReply>>
  {
    var x := Exchange(sc, st, LastSaleMessage, LastSalePolicy);
    Step(TextReply(x.result, LastSaleRefusal), x.next)
  }

  function CancellationCommand(sc: Script, st: PortState, transactionId: int): Step<Outcome<RawReply>>
    requires FitsWidth(transactionId, 6)
  {
    var x := Exchange(sc, st, CancellationMessage(transactionId), CancellationPolicy);
    Step(TextReply(x.result, CancellationRefusal), x.next)
  }

  function CloseCommand(sc: Script, st: PortState): Step<Outcome<Option<BaseResponse>>>
  {
    var x := Exchange(sc, st, CloseMessage, ClosePolicy);
    Step(BaseReply(x.result), x.next)
  }

  function LoadKeysCommand(sc: Script, st: PortState): Step<Outcome<Option<BaseResponse>>>
  {
    var x := Exchange(sc, st, LoadKeysMessage, LoadKeysPolicy);
    Step(BaseReply(x.result), x.next)
  }

  function GetTotalsCommand(sc: Script, st: PortState): Step<Outcome<TotalsResponse>>
  {
    var x := Exchange(sc, st, GetTotalsMessage, GetTotalsPolicy);
    Step(TotalsReply(x.result), x.next)
  }

  /** poll and set_normal_mode only send: OK once an attempt is acknowledged. */
  function SendOnly(sc: Script, st: PortState, m: Message): Step<Status>
  {
    var out := Send(sc, st, m.payload, m.retries, 0);
    Step(StatusOf(out.ok), out.next)
  }

  // ---------------------------------------------------------------------
  // The commands on the open port

  method Sale(port: Port, amount: int, ticket: int, sendMessages: bool) returns (r: Outcome<RawReply>)
    requires FitsWidth(amount, 9) && FitsWidth(ticket, 6)
    modifies port
    ensures Step(r, port.state) == SaleCommand(port.script, old(port.state), amount, ticket, sendMessages)
  {
    var m := PrepareSaleMessage(amount, ticket, sendMessages);
    var x := Run(port, m, SalePolicy);
    r := TextReply(x, SaleRefusal);
  }

  method LastSale(port: Port) returns (r: Outcome<RawReply>)
    modifies port
    ensures Step(r, port.state) == LastSaleCommand(port.script, old(port.state))
  {
    var x := Run(port, LastSaleMessage, LastSalePolicy);
    r := TextReply(x, LastSaleRefusal);
  }

  method Cancellation(port: Port, transactionId: int) returns (r: Outcome<RawReply>)
    requires FitsWidth(transactionId, 6)
    modifies port
    ensures Step(r, port.state) == CancellationCommand(port.script, old(port.state), transactionId)
  {
    var m := PrepareCancellationMessage(transactionId);
    var x := Run(port, m, CancellationPolicy);
    r := TextReply(x, CancellationRefusal);
  }

  method Close(port: Port) returns (r: Outcome<Option<BaseResponse>>)
    modifies port
    ensures Step(r, port.state) == CloseCommand(port.script, old(port.state))
  {
    var x := Run(port, CloseMessage, ClosePolicy);
    r := BaseReply(x);
  }

  method LoadKeys(port: Port) returns (r: Outcome<Option<BaseResponse>>)
    modifies port
    ensures Step(r, port.state) == LoadKeysCommand(port.script, old(port.state))
  {
    var x := Run(port, LoadKeysMessage, LoadKeysPolicy);
    r := BaseReply(x);
  }

  method GetTotals(port: Port) returns (r: Outcome<TotalsResponse>)
    modifies port
    ensures Step(r, port.state) == GetTotalsCommand(port.script, old(port.state))
  {
    var x := Run(port, GetTotalsMessage, GetTotalsPolicy);
    if x.Sent? && x.answer.Answered? {
      var totals := ParseGetTotalsResponse(x.answer.buffer);
      r := Returned(totals);
    } else if x == Sent(Diverged) {
      r := Hangs;
    } else {
      r := Returned(Unassigned);
    }
  }

  method Poll(port: Port) returns (status: Status)
    modifies port
    ensures Step(status, port.state) == SendOnly(port.script, old(port.state), PollMessage)
  {
    var ok, _ := SendPhase(port, PollMessage.payload, PollMessage.retries);
    status := StatusOf(ok);
  }

  method SetNormalMode(port: Port) returns (status: Status)
    modifies port
    ensures Step(status, port.state) == SendOnly(port.script, old(port.state), ChangeToNormalMessage)
  {
    var ok, _ := SendPhase(port, ChangeToNormalMessage.payload, ChangeToNormalMessage.retries);
    status := StatusOf(ok);
  }

  // ---------------------------------------------------------------------
  // What the commands promise

  /** poll and set_normal_mode only write their frame and read ACKs, an
      ACK exactly after each successful write; they report OK exactly when
      the last call read an ACK, which follows a successful write, and
      report NOK only after writing the frame three times. */
  lemma SendOnlyTrace(sc: Script, st: PortState, m: Message)
    requires m == PollMessage || m == ChangeToNormalMessage
    ensures var r := SendOnly(sc, st, m);
      st.log <= r.next.log &&
      var d := Since(st, r.next.log);
      SendCalls(m.payload, d) && AckGated(m.payload, d) && (r.value == Ok <==> EndsAcked(d))
      && (r.value == Ok ==> |d| >= 2 && d[|d| - 2] == Wrote(m.payload, true))
      && (r.value == Nok ==> WriteCount(d) == 3)
      && WriteCount(d) <= 3
  {
    SendTrace(sc, st, m.payload, m.retries, 0);
    SendAttempts(sc, st, m.payload, m.retries, 0);
  }

  /** A terminal with no ACK left to give: every command fails without
      waiting for a response. */
  lemma SilentTerminalOutcomes(sc: Script, st: PortState, amount: int, ticket: int, sendMessages: bool, transactionId: int)
    requires |sc.acks| <= st.at.a
    requires FitsWidth(amount, 9) && FitsWidth(ticket, 6) && FitsWidth(transactionId, 6)
    ensures SaleCommand(sc, st, amount, ticket, sendMessages).value == Returned(Refused(SaleRefusal))
    ensures LastSaleCommand(sc, st).value == Returned(Refused(LastSaleRefusal))
    ensures CancellationCommand(sc, st, transactionId).value == Returned(Refused(CancellationRefusal))
    ensures CloseCommand(sc, st).value == Returned(None)
    ensures LoadKeysCommand(sc, st).value == Returned(None)
    ensures GetTotalsCommand(sc, st).value == Returned(Unassigned)
    ensures SendOnly(sc, st, PollMessage).value == Nok
    ensures SendOnly(sc, st, ChangeToNormalMessage).value == Nok
  {
    SilentExchange(sc, st, SaleMessage(amount, ticket, sendMessages), SalePolicy);
    SilentExchange(sc, st, LastSaleMessage, LastSalePolicy);
    SilentExchange(sc, st, CancellationMessage(transactionId), CancellationPolicy);
    SilentExchange(sc, st, CloseMessage, ClosePolicy);
    SilentExchange(sc, st, LoadKeysMessage, LoadKeysPolicy);
    SilentExchange(sc, st, GetTotalsMessage, GetTotalsPolicy);
    SilentTerminal(sc, st, PollFrame, Retries, 0);
    SilentTerminal(sc, st, ChangeToNormalFrame, Retries, 0);
  }

  /** Over a command's handshake, a call is a read exactly when the call
      before it was a poll whose result passed the command's threshold: no
      read without such a poll, and no such poll left unread unless it was
      the last call. */
  lemma ReadsFollowPassingPolls(sc: Script, st: PortState, m: Message, pol: Policy)
    ensures var x := Exchange(sc, st, m, pol);
      st.log <= x.next.log &&
      forall i :: |st.log| < i < |x.next.log| ==>
        (x.next.log[i].ReadInto? <==> x.next.log[i - 1].Polled? && Passes(pol.threshold, x.next.log[i - 1].waiting))
  {
    ExchangeGated(sc, st, m, pol);
    var l := Exchange(sc, st, m, pol).next.log;
    forall i | |st.log| < i < |l|
      ensures l[i].ReadInto? <==> l[i - 1].Polled? && Passes(pol.threshold, l[i - 1].waiting)
    {
      assert Follows(pol.threshold, l[i - 1], l[i]);
    }
  }

  /** A sale reads right after each poll that found more than 65 bytes waiting, and at no other time. */
  lemma SaleReadsWait(sc: Script, st: PortState, amount: int, ticket: int, sendMessages: bool)
    requires FitsWidth(amount, 9) && FitsWidth(ticket, 6)
    ensures var r := SaleCommand(sc, st, amount, ticket, sendMessages);
      st.log <= r.next.log &&
      forall i :: |st.log| < i < |r.next.log| ==>
        (r.next.log[i].ReadInto? <==> r.next.log[i - 1].Polled? && r.next.log[i - 1].waiting > 65)
  {
    ReadsFollowPassingPolls(sc, st, SaleMessage(amount, ticket, sendMessages), SalePolicy);
  }

  /** last_sale reads right after each poll that found some byte waiting, and at no other time. */
  lemma LastSaleReadsWait(sc: Script, st: PortState)
    ensures var r := LastSaleCommand(sc, st);
      st.log <= r.next.log &&
      forall i :: |st.log| < i < |r.next.log| ==>
        (r.next.log[i].ReadInto? <==> r.next.log[i - 1].Polled? && r.next.log[i - 1].waiting > 0)
  {
    ReadsFollowPassingPolls(sc, st, LastSaleMessage, LastSalePolicy);
  }

  /** cancellation reads right after each poll that found some byte waiting, and at no other time. */
  lemma CancellationReadsWait(sc: Script, st: PortState, transactionId: int)
    requires FitsWidth(transactionId, 6)
    ensures var r := CancellationCommand(sc, st, transactionId);
      st.log <= r.next.log &&
      forall i :: |st.log| < i < |r.next.log| ==>
        (r.next.log[i].ReadInto? <==> r.next.log[i - 1].Polled? && r.next.log[i - 1].waiting > 0)
  {
    ReadsFollowPassingPolls(sc, st, CancellationMessage(transactionId), CancellationPolicy);
  }

  /** close reads right after each poll that found some byte waiting, and at no other time. */
  lemma CloseReadsWait(sc: Script, st: PortState)
    ensures var r := CloseCommand(sc, st);
      st.log <= r.next.log &&
      forall i :: |st.log| < i < |r.next.log| ==>
        (r.next.log[i].ReadInto? <==> r.next.log[i - 1].Polled? && r.next.log[i - 1].waiting > 0)
  {
    ReadsFollowPassingPolls(sc, st, CloseMessage, ClosePolicy);
  }

  /** load_keys reads right after each poll that found exactly 32 bytes waiting, and at no other time. */
  lemma LoadKeysReadsWait(sc: Script, st: PortState)
    ensures var r := LoadKeysCommand(sc, st);
      st.log <= r.next.log &&
      forall i :: |st.log| < i < |r.next.log| ==> (r.next.log[i].ReadInto? <==> r.next.log[i - 1] == Polled(32))
  {
    ReadsFollowPassingPolls(sc, st, LoadKeysMessage, LoadKeysPolicy);
  }

  /** get_totals reads right after each poll that found more than 10 bytes waiting, and at no other time. */
  lemma GetTotalsReadsWait(sc: Script, st: PortState)
    ensures var r := GetTotalsCommand(sc, st);
      st.log <= r.next.log &&
      forall i :: |st.log| < i < |r.next.log| ==>
        (r.next.log[i].ReadInto? <==> r.next.log[i - 1].Polled? && r.next.log[i - 1].waiting > 10)
  {
    ReadsFollowPassingPolls(sc, st, GetTotalsMessage, GetTotalsPolicy);
  }

  // ---------------------------------------------------------------------
  // What the commands hand back

  /** The read whose reply ACK the terminal accepted: the call before the
      last one of an answered handshake. */
  function AcceptedRead(d: seq<Call>): Call
    requires |d| >= 2
  {
    d[|d| - 2]
  }

  /** sale, last_sale and cancellation hand back the buffer their accepted
      read filled: every byte that read delivered, up to the size it asked
      for and the buffer's length, is at its place in the returned frame. */
  lemma FrameHoldsAcceptedRead(sc: Script, st: PortState, m: Message, pol: Policy, refusal: string)
    ensures var x := Exchange(sc, st, m, pol);
      |st.log| <= |x.next.log| &&
      var d := x.next.log[|st.log|..];
      var r := TextReply(x.result, refusal);
      r.Returned? && r.value.Frame? ==>
        |d| >= 2 && AcceptedRead(d).ReadInto? && |r.value.bytes| == m.responseSize &&
        forall i :: 0 <= i < m.responseSize && i < |AcceptedRead(d).data| && i < AcceptedRead(d).limit ==>
          r.value.bytes[i] == AcceptedRead(d).data[i]
  {
    ExchangeAnswer(sc, st, m, pol);
  }

  /** A close or load_keys answer with digits in its four fixed fields. */
  predicate DigitFields(data: seq<byte>)
  {
    |data| >= 30 && AllDigits(data[1..5]) && AllDigits(data[6..8]) && AllDigits(data[9..21]) && AllDigits(data[22..30])
  }

  /** The record those digits stand for. */
  function FieldsOf(data: seq<byte>): BaseResponse
    requires DigitFields(data)
  {
    BaseResponse(DecimalValue(data[1..5]), DecimalValue(data[6..8]), DecimalValue(data[9..21]), DecimalValue(data[22..30]), Ok)
  }

  /** A buffer whose first 30 bytes are data's decodes as data does. */
  lemma DecodesAsDelivered(buffer: seq<byte>, data: seq<byte>)
    requires |buffer| >= 30 && DigitFields(data)
    requires forall i :: 0 <= i < 30 ==> buffer[i] == data[i]
    ensures ParseLoadKeysCloseResponse(buffer) == FieldsOf(data)
  {
    assert buffer[1..5] == data[1..5] && buffer[6..8] == data[6..8];
    assert buffer[9..21] == data[9..21] && buffer[22..30] == data[22..30];
    FixedOffsetDecode(buffer);
  }

  /** An answered close decodes what its accepted read delivered: when that
      read brought digits in the four fixed fields, close returns their
      decimal values, marked OK. */
  lemma CloseDecodesAnswer(sc: Script, st: PortState)
    ensures var x := Exchange(sc, st, CloseMessage, ClosePolicy);
      |st.log| <= |x.next.log| &&
      var d := x.next.log[|st.log|..];
      x.result.Sent? && x.result.answer.Answered? ==>
        |d| >= 2 && AcceptedRead(d).ReadInto? &&
        (DigitFields(AcceptedRead(d).data) ==> CloseCommand(sc, st).value == Returned(Some(FieldsOf(AcceptedRead(d).data))))
  {
    var x := Exchange(sc, st, CloseMessage, ClosePolicy);
    ExchangeAnswer(sc, st, CloseMessage, ClosePolicy);
    CloseReadSize(sc, st);
    if x.result.Sent? && x.result.answer.Answered? {
      var d := x.next.log[|st.log|..];
      assert AcceptedRead(d) == x.next.log[|st.log| + |d| - 2];
      if DigitFields(AcceptedRead(d).data) {
        DecodesAsDelivered(x.result.answer.buffer, AcceptedRead(d).data);
      }
    }
  }

  /** An answered load_keys decodes what its accepted read delivered: when
      that read brought digits in the four fixed fields, load_keys returns
      their decimal values, marked OK. */
  lemma LoadKeysDecodesAnswer(sc: Script, st: PortState)
    ensures var x := Exchange(sc, st, LoadKeysMessage, LoadKeysPolicy);
      |st.log| <= |x.next.log| &&
      var d := x.next.log[|st.log|..];
      x.result.Sent? && x.result.answer.Answered? ==>
        |d| >= 2 && AcceptedRead(d).ReadInto? &&
        (DigitFields(AcceptedRead(d).data) ==> LoadKeysCommand(sc, st).value == Returned(Some(FieldsOf(AcceptedRead(d).data))))
  {
    var x := Exchange(sc, st, LoadKeysMessage, LoadKeysPolicy);
    ExchangeAnswer(sc, st, LoadKeysMessage, LoadKeysPolicy);
    LoadKeysReadSize(sc, st);
    if x.result.Sent? && x.result.answer.Answered? {
      var d := x.next.log[|st.log|..];
      assert AcceptedRead(d) == x.next.log[|st.log| + |d| - 2];
      if DigitFields(AcceptedRead(d).data) {
        DecodesAsDelivered(x.result.answer.buffer, AcceptedRead(d).data);
      }
    }
  }

  /** An answered get_totals decodes what its accepted read delivered: when
      that read filled the whole 24-byte buffer with STX and four
      PIPE-terminated digit figures (and no NUL after them), get_totals
      returns their decimal values, marked OK. */
  lemma GetTotalsDecodesAnswer(sc: Script, st: PortState, a: seq<byte>, b: seq<byte>, c: seq<byte>, e: seq<byte>, rest: seq<byte>)
    requires AllDigits(a) && AllDigits(b) && AllDigits(c) && AllDigits(e) && NUL !in rest
    ensures var x := Exchange(sc, st, GetTotalsMessage, GetTotalsPolicy);
      |st.log| <= |x.next.log| &&
      var d := x.next.log[|st.log|..];
      x.result.Sent? && x.result.answer.Answered? ==>
        |d| >= 2 && AcceptedRead(d).ReadInto? &&
        var layout := [STX] + a + [PIPE] + b + [PIPE] + c + [PIPE] + e + [PIPE] + rest;
        (|layout| == 24 && layout <= AcceptedRead(d).data ==>
           GetTotalsCommand(sc, st).value
             == Returned(TotalsResponse(Some(DecimalValue(a)), Some(DecimalValue(b)), Some(DecimalValue(c)), Some(DecimalValue(e)), Ok)))
  {
    var x := Exchange(sc, st, GetTotalsMessage, GetTotalsPolicy);
    ExchangeAnswer(sc, st, GetTotalsMessage, GetTotalsPolicy);
    GetTotalsReadSize(sc, st);
    var layout := [STX] + a + [PIPE] + b + [PIPE] + c + [PIPE] + e + [PIPE] + rest;
    if x.result.Sent? && x.result.answer.Answered? {
      var d := x.next.log[|st.log|..];
      assert AcceptedRead(d) == x.next.log[|st.log| + |d| - 2];
      if |layout| == 24 && layout <= AcceptedRead(d).data {
        assert x.result.answer.buffer == layout;
        DigitsExclude(a, PIPE);
        DigitsExclude(b, PIPE);
        DigitsExclude(c, PIPE);
        DigitsExclude(e, PIPE);
        DigitsExclude(a, NUL);
        DigitsExclude(b, NUL);
        DigitsExclude(c, NUL);
        DigitsExclude(e, NUL);
        TotalsFromPipes(a, b, c, e, rest);
        StrToLDigits(a);
        StrToLDigits(b);
        StrToLDigits(c);
        StrToLDigits(e);
      }
    }
  }

  predicate EndsWith(log: seq<Call>, c: Call)
  {
    log != [] && log[|log| - 1] == c
  }

  /** A sale's accepted reply ACK acknowledges the bytes the read returned. */
  lemma SaleAckSize(sc: Script, st: PortState, amount: int, ticket: int, sendMessages: bool)
    requires FitsWidth(amount, 9) && FitsWidth(ticket, 6)
    ensures var x := Exchange(sc, st, SaleMessage(amount, ticket, sendMessages), SalePolicy);
      x.result.Sent? && x.result.answer.Answered? ==>
        EndsWith(x.next.log, Replied(x.result.answer.count as nat, true))
  {
    ExchangeAckSize(sc, st, SaleMessage(amount, ticket, sendMessages), SalePolicy);
  }

  /** last_sale's accepted reply ACK acknowledges the bytes the read returned. */
  lemma LastSaleAckSize(sc: Script, st: PortState)
    ensures var x := Exchange(sc, st, LastSaleMessage, LastSalePolicy);
      x.result.Sent? && x.result.answer.Answered? ==>
        EndsWith(x.next.log, Replied(x.result.answer.count as nat, true))
  {
    ExchangeAckSize(sc, st, LastSaleMessage, LastSalePolicy);
  }

  /** cancellation's accepted reply ACK acknowledges the bytes the read returned. */
  lemma CancellationAckSize(sc: Script, st: PortState, transactionId: int)
    requires FitsWidth(transactionId, 6)
    ensures var x := Exchange(sc, st, CancellationMessage(transactionId), CancellationPolicy);
      x.result.Sent? && x.result.answer.Answered? ==>
        EndsWith(x.next.log, Replied(x.result.answer.count as nat, true))
  {
    ExchangeAckSize(sc, st, CancellationMessage(transactionId), CancellationPolicy);
  }

  /** close's accepted reply ACK acknowledges the declared 33 bytes, whatever was read. */
  lemma CloseAckSize(sc: Script, st: PortState)
    ensures var x := Exchange(sc, st, CloseMessage, ClosePolicy);
      x.result.Sent? && x.result.answer.Answered? ==> EndsWith(x.next.log, Replied(33, true))
  {
    ExchangeAckSize(sc, st, CloseMessage, ClosePolicy);
  }

  /** load_keys' accepted reply ACK acknowledges the declared 32 bytes, whatever was read. */
  lemma LoadKeysAckSize(sc: Script, st: PortState)
    ensures var x := Exchange(sc, st, LoadKeysMessage, LoadKeysPolicy);
      x.result.Sent? && x.result.answer.Answered? ==> EndsWith(x.next.log, Replied(32, true))
  {
    ExchangeAckSize(sc, st, LoadKeysMessage, LoadKeysPolicy);
  }

  /** get_totals' accepted reply ACK acknowledges the bytes the read returned. */
  lemma GetTotalsAckSize(sc: Script, st: PortState)
    ensures var x := Exchange(sc, st, GetTotalsMessage, GetTotalsPolicy);
      x.result.Sent? && x.result.answer.Answered? ==>
        EndsWith(x.next.log, Replied(x.result.answer.count as nat, true))
  {
    ExchangeAckSize(sc, st, GetTotalsMessage, GetTotalsPolicy);
  }

  /** close always asks read_bytes for its declared 33 bytes. */
  lemma CloseReadSize(sc: Script, st: PortState)
    ensures var x := Exchange(sc, st, CloseMessage, ClosePolicy);
      forall i :: |st.log| <= i < |x.next.log| && x.next.log[i].ReadInto? ==> x.next.log[i].limit == 33
  {
    DeclaredReads(sc, st, CloseMessage, ClosePolicy);
  }

  /** load_keys always asks read_bytes for its declared 32 bytes. */
  lemma LoadKeysReadSize(sc: Script, st: PortState)
    ensures var x := Exchange(sc, st, LoadKeysMessage, LoadKeysPolicy);
      forall i :: |st.log| <= i < |x.next.log| && x.next.log[i].ReadInto? ==> x.next.log[i].limit == 32
  {
    DeclaredReads(sc, st, LoadKeysMessage, LoadKeysPolicy);
  }

  /** get_totals always asks read_bytes for its declared 24 bytes: the count
      it acknowledges is never stored back. */
  lemma GetTotalsReadSize(sc: Script, st: PortState)
    ensures var x := Exchange(sc, st, GetTotalsMessage, GetTotalsPolicy);
      forall i :: |st.log| <= i < |x.next.log| && x.next.log[i].ReadInto? ==> x.next.log[i].limit == 24
  {
    DeclaredReads(sc, st, GetTotalsMessage, GetTotalsPolicy);
  }

  /** Without recording the read count, every read of a handshake asks for
      the message's declared responseSize. */
  lemma DeclaredReads(sc: Script, st: PortState, m: Message, pol: Policy)
    requires pol.ackSize != RecordActual
    ensures var x := Exchange(sc, st, m, pol);
      forall i :: |st.log| <= i < |x.next.log| && x.next.log[i].ReadInto? ==> x.next.log[i].limit == m.responseSize
  {
    ExchangeLimits(sc, st, m, pol);
    var x := Exchange(sc, st, m, pol);
    var d := x.next.log[|st.log|..];
    KeptLimitsAt(pol, m.responseSize, d);
    forall i | |st.log| <= i < |x.next.log| && x.next.log[i].ReadInto?
      ensures x.next.log[i].limit == m.responseSize
    {
      assert x.next.log[i] == d[i - |st.log|];
      FixedLimit(pol, m.responseSize, d[..i - |st.log|]);
    }
  }

  /** sale, last_sale and cancellation: each read asks for the declared
      responseSize until a read returns bytes, and from then on for the
      count of the last read that did. */
  lemma RecordedReadSizes(sc: Script, st: PortState, m: Message, pol: Policy)
    requires pol.ackSize == RecordActual
    ensures var x := Exchange(sc, st, m, pol);
      |st.log| <= |x.next.log| &&
      var d := x.next.log[|st.log|..];
      forall i :: 0 <= i < |d| && d[i].ReadInto? ==> d[i].limit == LimitAfter(pol, m.responseSize, d[..i])
  {
    ExchangeLimits(sc, st, m, pol);
    KeptLimitsAt(pol, m.responseSize, Exchange(sc, st, m, pol).next.log[|st.log|..]);
  }

  /** Each read of calls whose limits were kept under RecordActual asks for
      the count of the last earlier read that returned bytes, or for the
      declared size before any did. */
  lemma StoredBackSizes(pol: Policy, declared: nat, d: seq<Call>)
    requires pol.ackSize == RecordActual
    requires forall i :: 0 <= i < |d| && d[i].ReadInto? ==> d[i].limit == LimitAfter(pol, declared, d[..i])
    ensures forall i :: 0 <= i < |d| && d[i].ReadInto? ==> d[i].limit == LastCount(declared, d[..i])
  {
    forall i | 0 <= i < |d| && d[i].ReadInto?
      ensures d[i].limit == LastCount(declared, d[..i])
    {
      RecordedIsLastCount(pol, declared, d[..i]);
    }
  }

  /** A sale stores each read count back into responseSize: its first read
      asks for the declared 146 bytes, every later one for the count of the
      last read that returned bytes. */
  lemma SaleReadSizes(sc: Script, st: PortState, amount: int, ticket: int, sendMessages: bool)
    requires FitsWidth(amount, 9) && FitsWidth(ticket, 6)
    ensures var x := Exchange(sc, st, SaleMessage(amount, ticket, sendMessages), SalePolicy);
      |st.log| <= |x.next.log| &&
      var d := x.next.log[|st.log|..];
      forall i :: 0 <= i < |d| && d[i].ReadInto? ==> d[i].limit == LastCount(146, d[..i])
  {
    var m := SaleMessage(amount, ticket, sendMessages);
    RecordedReadSizes(sc, st, m, SalePolicy);
    StoredBackSizes(SalePolicy, 146, Exchange(sc, st, m, SalePolicy).next.log[|st.log|..]);
  }

  /** last_sale stores each read count back: its reads ask for the declared
      146 bytes until a read returns bytes, then for that read's count. */
  lemma LastSaleReadSizes(sc: Script, st: PortState)
    ensures var x := Exchange(sc, st, LastSaleMessage, LastSalePolicy);
      |st.log| <= |x.next.log| &&
      var d := x.next.log[|st.log|..];
      forall i :: 0 <= i < |d| && d[i].ReadInto? ==> d[i].limit == LastCount(146, d[..i])
  {
    RecordedReadSizes(sc, st, LastSaleMessage, LastSalePolicy);
    StoredBackSizes(LastSalePolicy, 146, Exchange(sc, st, LastSaleMessage, LastSalePolicy).next.log[|st.log|..]);
  }

  /** cancellation stores each read count back: its reads ask for the
      declared 46 bytes until a read returns bytes, then for that read's count. */
  lemma CancellationReadSizes(sc: Script, st: PortState, transactionId: int)
    requires FitsWidth(transactionId, 6)
    ensures var x := Exchange(sc, st, CancellationMessage(transactionId), CancellationPolicy);
      |st.log| <= |x.next.log| &&
      var d := x.next.log[|st.log|..];
      forall i :: 0 <= i < |d| && d[i].ReadInto? ==> d[i].limit == LastCount(46, d[..i])
  {
    var m := CancellationMessage(transactionId);
    RecordedReadSizes(sc, st, m, CancellationPolicy);
    StoredBackSizes(CancellationPolicy, 46, Exchange(sc, st, m, CancellationPolicy).next.log[|st.log|..]);
  }

  /** The size in force after a read that returned bytes is its count,
      until the next read that returns bytes. */
  lemma {:induction false} RecordedLimit(pol: Policy, declared: nat, d: seq<Call>, limit: nat, count: int, data: seq<byte>, rest: seq<Call>)
    requires pol.ackSize == RecordActual && count > 0
    requires forall i :: 0 <= i < |rest| ==> !(rest[i].ReadInto? && rest[i].count > 0)
    ensures LimitAfter(pol, declared, d + [ReadInto(limit, count, data)] + rest) == count
    decreases |rest|
  {
    var e := d + [ReadInto(limit, count, data)];
    if rest == [] {
      assert e + rest == e;
      assert e[..|e| - 1] == d;
    } else {
      var rest' := rest[..|rest| - 1];
      assert (e + rest)[..|e + rest| - 1] == e + rest';
      assert (e + rest)[|e + rest| - 1] == rest[|rest| - 1];
      RecordedLimit(pol, declared, d, limit, count, data, rest');
    }
  }
}
