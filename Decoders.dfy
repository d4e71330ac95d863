/** Response decoders: fixed-offset fields for the close and load-keys
    answers, and a PIPE tokenizer for the totals answer. */
module Decoders {
  import opened Bytes

  datatype Option<T> = None | Some(value: T)

  /** TBK_OK / TBK_NOK. */
  datatype Status = Ok | Nok

  /** Where a fixed-width field sits in a response. */
  datatype ParamInfo = ParamInfo(index: nat, length: nat)

  const FunctionInfo: ParamInfo := ParamInfo(1, 4)
  const ResponseCodeInfo: ParamInfo := ParamInfo(6, 2)
  const CommerceCodeInfo: ParamInfo := ParamInfo(9, 12)
  const TerminalIdInfo: ParamInfo := ParamInfo(22, 8)

  /** The answer to close and load_keys. */
  datatype BaseResponse = BaseResponse(
    functionCode: int, responseCode: int, commerceCode: int, terminalId: int, initialized: Status)

  /** The answer to get_totals. A field the tokenizer never reaches keeps
      whatever the freshly allocated record held: None here. */
  datatype TotalsResponse = TotalsResponse(
    functionCode: Option<int>, responseCode: Option<int>, txCount: Option<int>, txTotal: Option<int>,
    initialized: Status)

  // ---------------------------------------------------------------------
  // Fixed offsets

  /** What substring(buf, info) yields: the bytes buf[index .. index + length),
      with any NUL among them dropped by strcat. */
  function FieldText(buf: seq<byte>, info: ParamInfo): seq<byte>
    requires info.index + info.length <= |buf|
  {
    WithoutNul(buf[info.index..info.index + info.length])
  }

  /** substring: appends buf[i] for each i of the field, one strcat at a time. */
  method Substring(buf: seq<byte>, info: ParamInfo) returns (r: seq<byte>)
    requires info.index + info.length <= |buf|
    ensures r == FieldText(buf, info)
  {
    r := [];
    var limit := info.index + info.length;
    var i := info.index;
    while i < limit
      invariant info.index <= i <= limit
      invariant r == WithoutNul(buf[info.index..i])
    {
      assert buf[info.index..i + 1][..i - info.index] == buf[info.index..i];
      if buf[i] != NUL {
        r := r + [buf[i]];
      }
      i := i + 1;
    }
  }

  /** A field of only digits comes out of substring unchanged. */
  lemma SubstringOfDigits(buf: seq<byte>, info: ParamInfo)
    requires info.index + info.length <= |buf|
    requires AllDigits(buf[info.index..info.index + info.length])
    ensures FieldText(buf, info) == buf[info.index..info.index + info.length]
  {
    DigitsHaveNoNul(buf[info.index..info.index + info.length]);
    WithoutNulIdentity(buf[info.index..info.index + info.length]);
  }

  function FieldValue(buf: seq<byte>, info: ParamInfo): int
    requires info.index + info.length <= |buf|
  {
    StrToL(FieldText(buf, info))
  }

  /** parse_load_keys_close_response: four fixed-offset fields through strtol,
      then the record marked initialised. The source reads up to offset 29
      without checking, so the buffer must hold 30 bytes. */
  function ParseLoadKeysCloseResponse(buf: seq<byte>): BaseResponse
    requires |buf| >= 30
  {
    BaseResponse(
      FieldValue(buf, FunctionInfo),
      FieldValue(buf, ResponseCodeInfo),
      FieldValue(buf, CommerceCodeInfo),
      FieldValue(buf, TerminalIdInfo),
      Ok)
  }

  lemma FieldOfDigits(buf: seq<byte>, info: ParamInfo)
    requires info.index + info.length <= |buf|
    requires AllDigits(buf[info.index..info.index + info.length])
    ensures FieldValue(buf, info) == DecimalValue(buf[info.index..info.index + info.length])
  {
    SubstringOfDigits(buf, info);
    StrToLDigits(buf[info.index..info.index + info.length]);
  }

  /** With digit-only fields, each field is the decimal value of its bytes at
      offsets 1..4, 6..7, 9..20 and 22..29, and the record is marked OK. */
  lemma FixedOffsetDecode(buf: seq<byte>)
    requires |buf| >= 30
    requires AllDigits(buf[1..5]) && AllDigits(buf[6..8]) && AllDigits(buf[9..21]) && AllDigits(buf[22..30])
    ensures var r := ParseLoadKeysCloseResponse(buf);
      r.functionCode == DecimalValue(buf[1..5]) && r.responseCode == DecimalValue(buf[6..8])
      && r.commerceCode == DecimalValue(buf[9..21]) && r.terminalId == DecimalValue(buf[22..30])
      && r.initialized == Ok
  {
    FieldOfDigits(buf, FunctionInfo);
    FieldOfDigits(buf, ResponseCodeInfo);
    FieldOfDigits(buf, CommerceCodeInfo);
    FieldOfDigits(buf, TerminalIdInfo);
  }

  /** A close answer laid out with PIPE between the fields decodes to the
      numbers that were written into it. */
  lemma FixedOffsetRoundTrip(fn: nat, code: nat, commerce: nat, terminal: nat, tail: seq<byte>)
    requires fn < Pow10(4) && code < Pow10(2) && commerce < Pow10(12) && terminal < Pow10(8)
    ensures var buf := [STX] + ZeroPad(fn, 4) + [PIPE] + ZeroPad(code, 2) + [PIPE]
                        + ZeroPad(commerce, 12) + [PIPE] + ZeroPad(terminal, 8) + tail;
      |buf| >= 30 && ParseLoadKeysCloseResponse(buf) == BaseResponse(fn, code, commerce, terminal, Ok)
  {
    var a := [STX] + ZeroPad(fn, 4);
    var b := a + [PIPE] + ZeroPad(code, 2);
    var c := b + [PIPE] + ZeroPad(commerce, 12);
    var d := c + [PIPE] + ZeroPad(terminal, 8);
    var buf := d + tail;
    assert buf[1..5] == a[1..5] == ZeroPad(fn, 4);
    assert buf[6..8] == b[6..8] == ZeroPad(code, 2);
    assert buf[9..21] == c[9..21] == ZeroPad(commerce, 12);
    assert buf[22..30] == d[22..30] == ZeroPad(terminal, 8);
    FixedOffsetDecode(buf);
    ZeroPadRoundTrip(fn, 4);
    ZeroPadRoundTrip(code, 2);
    ZeroPadRoundTrip(commerce, 12);
    ZeroPadRoundTrip(terminal, 8);
  }

  // ---------------------------------------------------------------------
  // PIPE tokens

  /** The PIPE-terminated tokens of s, in order of appearance. */
  function Tokens(s: seq<byte>): seq<seq<byte>>
  {
    if s == [] then []
    else if s[|s| - 1] == PIPE then Tokens(s[..|s| - 1]) + [Pending(s[..|s| - 1])]
    else Tokens(s[..|s| - 1])
  }

  /** The bytes after the last PIPE of s: a token not yet terminated. */
  function Pending(s: seq<byte>): seq<byte>
  {
    if s == [] then []
    else if s[|s| - 1] == PIPE then []
    else Pending(s[..|s| - 1]) + [s[|s| - 1]]
  }

  /** Each token followed by its PIPE, laid end to end. */
  function Terminated(tokens: seq<seq<byte>>): seq<byte>
  {
    if tokens == [] then [] else Terminated(tokens[..|tokens| - 1]) + tokens[|tokens| - 1] + [PIPE]
  }

  /** Tokenizing loses nothing: the tokens, each with its PIPE, followed by
      the unterminated rest give back the input; and no token holds a PIPE.
      Since no part holds a PIPE, this fixes the tokens uniquely. */
  lemma TokensReassemble(s: seq<byte>)
    ensures Terminated(Tokens(s)) + Pending(s) == s
    ensures PIPE !in Pending(s)
    ensures forall k :: 0 <= k < |Tokens(s)| ==> PIPE !in Tokens(s)[k]
  {
    TokensRejoin(s);
    PendingHasNoPipe(s);
    TokensHaveNoPipe(s);
  }

  lemma {:induction false} TokensRejoin(s: seq<byte>)
    ensures Terminated(Tokens(s)) + Pending(s) == s
  {
    if s != [] {
      var init, last := s[..|s| - 1], s[|s| - 1];
      assert s == init + [last];
      TokensRejoin(init);
      if last == PIPE {
        var ts := Tokens(init) + [Pending(init)];
        assert ts[..|ts| - 1] == Tokens(init);
        assert Terminated(ts) == Terminated(Tokens(init)) + Pending(init) + [PIPE];
      } else {
        assert Pending(s) == Pending(init) + [last];
        assert Terminated(Tokens(s)) + Pending(s) == (Terminated(Tokens(init)) + Pending(init)) + [last];
      }
    }
  }

  lemma {:induction false} PendingHasNoPipe(s: seq<byte>)
    ensures PIPE !in Pending(s)
  {
    if s != [] && s[|s| - 1] != PIPE {
      PendingHasNoPipe(s[..|s| - 1]);
    }
  }

  lemma {:induction false} TokensHaveNoPipe(s: seq<byte>)
    ensures forall k :: 0 <= k < |Tokens(s)| ==> PIPE !in Tokens(s)[k]
  {
    if s != [] {
      var init := s[..|s| - 1];
      TokensHaveNoPipe(init);
      if s[|s| - 1] == PIPE {
        PendingHasNoPipe(init);
      }
    }
  }

  /** Text with no PIPE is all pending and yields no token. */
  lemma {:induction false} NoPipeNoTokens(s: seq<byte>)
    requires PIPE !in s
    ensures Tokens(s) == [] && Pending(s) == s
  {
    if s != [] {
      assert s[|s| - 1] in s;
      NoPipeNoTokens(s[..|s| - 1]);
    }
  }

  /** A token terminated by the first PIPE comes first. */
  lemma {:induction false} TokensAfterFirstPipe(a: seq<byte>, b: seq<byte>)
    requires PIPE !in a
    ensures Tokens(a + [PIPE] + b) == [a] + Tokens(b)
    ensures Pending(a + [PIPE] + b) == Pending(b)
    decreases |b|
  {
    var s := a + [PIPE] + b;
    if b == [] {
      assert s[..|s| - 1] == a;
      NoPipeNoTokens(a);
    } else {
      var bInit := b[..|b| - 1];
      assert s[..|s| - 1] == a + [PIPE] + bInit;
      TokensAfterFirstPipe(a, bInit);
    }
  }

  /** One more byte: a PIPE closes the pending token, any other byte extends it. */
  lemma TokensStep(s: seq<byte>, b: byte)
    ensures Tokens(s + [b]) == if b == PIPE then Tokens(s) + [Pending(s)] else Tokens(s)
    ensures Pending(s + [b]) == if b == PIPE then [] else Pending(s) + [b]
  {
    assert (s + [b])[..|s|] == s;
  }

  /** The k-th token converted by strtol, if there are that many. */
  function TokenValue(tokens: seq<seq<byte>>, k: nat): Option<int>
  {
    if k < |tokens| then Some(StrToL(tokens[k])) else None
  }

  /** The record with the first four tokens assigned, in order. */
  function AssignTokens(tokens: seq<seq<byte>>, status: Status): TotalsResponse
  {
    TotalsResponse(TokenValue(tokens, 0), TokenValue(tokens, 1), TokenValue(tokens, 2),
                   TokenValue(tokens, 3), status)
  }

  /** The switch on the token count: the n-th token found (from 1) goes to
      function, response code, transaction count, total; later ones nowhere. */
  function AssignField(r: TotalsResponse, found: nat, word: seq<byte>): (r': TotalsResponse)
    ensures r'.initialized == r.initialized
  {
    match found
    case 1 => r.(functionCode := Some(StrToL(word)))
    case 2 => r.(responseCode := Some(StrToL(word)))
    case 3 => r.(txCount := Some(StrToL(word)))
    case 4 => r.(txTotal := Some(StrToL(word)))
    case _ => r
  }

  /** A freshly allocated record: no field assigned, not yet marked. */
  const Unassigned: TotalsResponse := TotalsResponse(None, None, None, None, Nok)

  /** The record after the switch has run on each token in turn. */
  function AssignAll(tokens: seq<seq<byte>>): TotalsResponse
  {
    if tokens == [] then Unassigned
    else AssignField(AssignAll(tokens[..|tokens| - 1]), |tokens|, tokens[|tokens| - 1])
  }

  lemma AssignAllStep(tokens: seq<seq<byte>>, word: seq<byte>)
    ensures AssignAll(tokens + [word]) == AssignField(AssignAll(tokens), |tokens| + 1, word)
  {
    assert (tokens + [word])[..|tokens|] == tokens;
  }

  /** Running the switch token by token fills exactly the first four fields,
      each from the token of its position, and leaves the rest unassigned. */
  lemma {:induction false} AssignAllFirstFour(tokens: seq<seq<byte>>)
    ensures AssignAll(tokens) == AssignTokens(tokens, Nok)
  {
    if tokens != [] {
      var init := tokens[..|tokens| - 1];
      AssignAllFirstFour(init);
      forall k: nat | k < |init|
        ensures TokenValue(tokens, k) == TokenValue(init, k)
      {
        assert tokens[k] == init[k];
      }
    }
  }

  /** The bytes the tokenizer scans: from offset 1 (past STX) to strlen. */
  function ScanRange(buf: seq<byte>): seq<byte>
  {
    if StrLen(buf) <= 1 then [] else buf[1..StrLen(buf)]
  }

  /** The totals record parse_get_totals_response builds from buf: the
      PIPE-terminated tokens between STX and the terminator assigned in
      order, then the record marked OK. */
  function TotalsRecord(buf: seq<byte>): TotalsResponse
  {
    AssignAll(Tokens(ScanRange(buf))).(initialized := Ok)
  }

  /** The scan up to x: the tokens and the pending token of the bytes
      between STX and x, and the current token starting at initPos; n is
      the length of the C string in buf. */
  ghost predicate Scanned(buf: seq<byte>, n: nat, initPos: nat, length: nat, x: nat,
                          tokens: seq<seq<byte>>, pending: seq<byte>)
  {
    1 <= initPos && initPos + length == x && (x <= n || x == 1)
    && if |buf| == 0 then tokens == [] && pending == [] && length == 0
       else x <= |buf| && tokens == Tokens(buf[1..x]) && pending == Pending(buf[1..x])
            && buf[initPos..x] == pending
  }

  /** At a PIPE the current token is complete and a new, empty one starts
      after the PIPE. */
  lemma PipeStep(buf: seq<byte>, n: nat, initPos: nat, length: nat, x: nat,
                 tokens: seq<seq<byte>>, pending: seq<byte>)
    requires Scanned(buf, n, initPos, length, x, tokens, pending)
    requires x < n <= |buf| && buf[x] == PIPE
    ensures initPos + length <= |buf|
    ensures var word := buf[initPos..initPos + length];
      word == pending && Scanned(buf, n, x + 1, 0, x + 1, tokens + [word], [])
  {
    assert buf[1..x + 1] == buf[1..x] + [buf[x]];
    TokensStep(buf[1..x], buf[x]);
  }

  /** Any other byte extends the current token. */
  lemma ByteStep(buf: seq<byte>, n: nat, initPos: nat, length: nat, x: nat,
                 tokens: seq<seq<byte>>, pending: seq<byte>)
    requires Scanned(buf, n, initPos, length, x, tokens, pending)
    requires x < n <= |buf| && buf[x] != PIPE
    ensures Scanned(buf, n, initPos, length + 1, x + 1, tokens, pending + [buf[x]])
  {
    assert buf[1..x + 1] == buf[1..x] + [buf[x]];
    assert buf[initPos..x + 1] == buf[initPos..x] + [buf[x]];
    TokensStep(buf[1..x], buf[x]);
  }

  /** At the terminator every token has been scanned. */
  lemma ScanDone(buf: seq<byte>, n: nat, initPos: nat, length: nat, x: nat,
                 tokens: seq<seq<byte>>, pending: seq<byte>)
    requires Scanned(buf, n, initPos, length, x, tokens, pending)
    requires n == StrLen(buf) && x >= n
    ensures tokens == Tokens(ScanRange(buf))
  {
  }

  /** parse_get_totals_response: counts the length of the current token and,
      at each PIPE, hands it to strtol and assigns it to the field that
      matches how many tokens were found so far; then marks the record OK. */
  method ParseGetTotalsResponse(buf: seq<byte>) returns (r: TotalsResponse)
    ensures r == TotalsRecord(buf)
  {
    var n := StrLen(buf);
    r := Unassigned;
    var initPos, length, found := 1, 0, 0;
    var x := initPos;
    ghost var tokens: seq<seq<byte>> := [];
    ghost var pending: seq<byte> := [];
    while x < n
      invariant Scanned(buf, n, initPos, length, x, tokens, pending)
      invariant found == |tokens| && r == AssignAll(tokens)
    {
      if buf[x] == PIPE {
        PipeStep(buf, n, initPos, length, x, tokens, pending);
        var word := buf[initPos..initPos + length];
        AssignAllStep(tokens, word);
        tokens := tokens + [word];
        pending := [];
        found := found + 1;
        initPos := x + 1;
        length := 0;
        r := AssignField(r, found, word);
      } else {
        ByteStep(buf, n, initPos, length, x, tokens, pending);
        pending := pending + [buf[x]];
        length := length + 1;
      }
      x := x + 1;
    }
    ScanDone(buf, n, initPos, length, x, tokens, pending);
    r := r.(initialized := Ok);
  }

  /** The decoded totals record: the k-th PIPE-terminated token after STX,
      through strtol, fills the k-th of function, response code, transaction
      count and total; fields with no token remain unassigned. */
  lemma TotalsDecode(buf: seq<byte>)
    ensures TotalsRecord(buf) == AssignTokens(Tokens(ScanRange(buf)), Ok)
  {
    AssignAllFirstFour(Tokens(ScanRange(buf)));
  }

  /** The first four PIPE-terminated tokens after STX become function,
      response code, transaction count and total, in that order; whatever
      follows the fourth PIPE is never assigned. */
  lemma TotalsFromPipes(a: seq<byte>, b: seq<byte>, c: seq<byte>, d: seq<byte>, rest: seq<byte>)
    requires PIPE !in a && PIPE !in b && PIPE !in c && PIPE !in d
    requires NUL !in a && NUL !in b && NUL !in c && NUL !in d && NUL !in rest
    ensures var buf := [STX] + a + [PIPE] + b + [PIPE] + c + [PIPE] + d + [PIPE] + rest;
      TotalsRecord(buf)
        == TotalsResponse(Some(StrToL(a)), Some(StrToL(b)), Some(StrToL(c)), Some(StrToL(d)), Ok)
  {
    var t3 := d + [PIPE] + rest;
    var t2 := c + [PIPE] + t3;
    var t1 := b + [PIPE] + t2;
    var t0 := a + [PIPE] + t1;
    FlattenFourTokens(a, b, c, d, rest);
    assert NUL !in t0;
    ScanRangeAfterStx(t0);
    TokensAfterFirstPipe(d, rest);
    TokensAfterFirstPipe(c, t3);
    TokensAfterFirstPipe(b, t2);
    TokensAfterFirstPipe(a, t1);
    assert Tokens(t0) == [a, b, c, d] + Tokens(rest);
    TotalsDecode([STX] + t0);
  }

  lemma FlattenFourTokens(a: seq<byte>, b: seq<byte>, c: seq<byte>, d: seq<byte>, rest: seq<byte>)
    ensures [STX] + a + [PIPE] + b + [PIPE] + c + [PIPE] + d + [PIPE] + rest
         == [STX] + (a + [PIPE] + (b + [PIPE] + (c + [PIPE] + (d + [PIPE] + rest))))
  {
  }

  /** Past the STX, a buffer with no NUL is scanned to its end. */
  lemma ScanRangeAfterStx(body: seq<byte>)
    requires NUL !in body
    ensures ScanRange([STX] + body) == body
  {
    var buf := [STX] + body;
    assert NUL !in buf;
    StrLenNoNul(buf);
  }

  /** Only PIPE-terminated tokens are assigned: with three PIPEs the total
      keeps its unassigned value whatever follows the third one. */
  lemma UnterminatedTokenIgnored(a: seq<byte>, b: seq<byte>, c: seq<byte>, rest: seq<byte>)
    requires PIPE !in a && PIPE !in b && PIPE !in c && PIPE !in rest
    requires NUL !in a && NUL !in b && NUL !in c && NUL !in rest
    ensures var buf := [STX] + a + [PIPE] + b + [PIPE] + c + [PIPE] + rest;
      TotalsRecord(buf)
        == TotalsResponse(Some(StrToL(a)), Some(StrToL(b)), Some(StrToL(c)), None, Ok)
  {
    var t2 := c + [PIPE] + rest;
    var t1 := b + [PIPE] + t2;
    var t0 := a + [PIPE] + t1;
    assert [STX] + a + [PIPE] + b + [PIPE] + c + [PIPE] + rest == [STX] + t0;
    assert NUL !in t0;
    ScanRangeAfterStx(t0);
    NoPipeNoTokens(rest);
    TokensAfterFirstPipe(c, rest);
    TokensAfterFirstPipe(b, t2);
    TokensAfterFirstPipe(a, t1);
    assert Tokens(t0) == [a, b, c];
    TotalsDecode([STX] + t0);
  }

  /** Three PIPE-terminated padded figures and a fourth closed by ETX
      instead of PIPE, as in STX "0700|00|0005|0001234500" ETX: the fourth
      figure is never assigned. */
  lemma TotalsOfPaddedFigures(fn: nat, code: nat, count: nat, total: nat)
    requires fn < Pow10(4) && code < Pow10(2) && count < Pow10(4)
    ensures var buf := [STX] + ZeroPad(fn, 4) + [PIPE] + ZeroPad(code, 2) + [PIPE] + ZeroPad(count, 4) + [PIPE]
                        + ZeroPad(total, 10) + [ETX];
      TotalsRecord(buf) == TotalsResponse(Some(fn), Some(code), Some(count), None, Ok)
  {
    var a, b, c, figure := ZeroPad(fn, 4), ZeroPad(code, 2), ZeroPad(count, 4), ZeroPad(total, 10);
    DigitsExclude(a, PIPE);
    DigitsExclude(b, PIPE);
    DigitsExclude(c, PIPE);
    DigitsExclude(figure, PIPE);
    DigitsExclude(a, NUL);
    DigitsExclude(b, NUL);
    DigitsExclude(c, NUL);
    DigitsExclude(figure, NUL);
    UnterminatedTokenIgnored(a, b, c, figure + [ETX]);
    assert [STX] + a + [PIPE] + b + [PIPE] + c + [PIPE] + (figure + [ETX])
        == [STX] + a + [PIPE] + b + [PIPE] + c + [PIPE] + figure + [ETX];
    StrToLDigits(a);
    ZeroPadRoundTrip(fn, 4);
    StrToLDigits(b);
    ZeroPadRoundTrip(code, 2);
    StrToLDigits(c);
    ZeroPadRoundTrip(count, 4);
  }

  lemma DigitsExclude(s: seq<byte>, x: byte)
    requires AllDigits(s) && !IsDigit(x)
    ensures x !in s
  {
    assert forall i :: 0 <= i < |s| ==> s[i] != x;
  }
}
