# Transbank POS serial protocol — host side

This project models the host side of the Transbank point-of-sale serial
protocol, as implemented in `src/transbank.c`, and proves properties of
that model. The library drives a payment terminal with framed requests.
Each frame is STX, a four-digit command code, optional PIPE-separated
fields, ETX and a one-byte LRC. Every command runs the same handshake:

- a send phase that writes the request and waits for the terminal's ACK,
  at most three times;
- once acknowledged, a response phase that polls the number of bytes
  waiting, reads when a per-command threshold is met, acknowledges the
  answer and counts failed attempts.

The answer is either handed back raw (sale, last sale, cancellation) or
decoded into a record (close, load keys, totals).

Modules, in dependency order:

- `Bytes`: the delimiters, the LRC (exclusive-or of every byte after STX up
  to and including ETX), zero-padded decimal fields (`sprintf("%0Nd")`) and
  their reading by `strtol`, and `strlen`.
- `Codec`: the `Message` descriptor, the six fixed frames and their
  descriptors, and `prepare_sale_message` / `prepare_cancellation_message`
  as methods that `strcat` into an array and then overwrite the placeholder
  with the checksum.
- `Decoders`: `substring` (a loop), `parse_load_keys_close_response`
  (fixed offsets) and `parse_get_totals_response` (a loop that tokenizes on
  PIPE), each with a specification function and lemmas.
- `Transport`: the five foreign transport calls (`write_message`,
  `read_ack`, `sp_input_waiting`, `read_bytes`, `reply_ack`) as a `Port`
  class. Each call draws its outcome from its own scripted queue and is
  recorded in a log of calls, so that the retry logic can be stated over
  traces. A read's log entry keeps the size asked for, the count returned
  and the bytes delivered.
- `Engine`: the send phase and the response phase. Each is a specification
  function over the script and a loop method proved equal to it. The
  per-command differences are captured by a `Policy`:
  - the poll threshold: `> n`, or `== n`;
  - the reply ACK size: the read count stored back into `responseSize`,
    the read count alone, or the declared size.
- `Commands`: the eight commands as methods on a `Port`. Each is proved
  equal to a specification function. Lemmas state, per command, the
  threshold (both ways: a read exactly after a passing poll), the read
  sizes, the ACK sizes, what the returned buffer or record holds in terms
  of the accepted read's bytes, and the failure results.

Edge cases the model keeps as the code has them:

- `substring` drops NUL bytes, because `strcat` of an empty string
  appends nothing.
- The totals tokenizer assigns only PIPE-terminated tokens. A totals answer
  whose last figure is closed by ETX instead of PIPE, such as
  STX `0700|00|0005|0001234500` ETX, never sets `txTotal`
  (`Decoders.TotalsOfPaddedFigures`).
- sale, last_sale and cancellation store the read count into the
  message's `responseSize` before acknowledging. It is the size later
  reads then ask for (`Commands.RecordedReadSizes`).
- get_totals acknowledges the read count but never stores it. close and
  load_keys acknowledge their declared sizes.
- A poll that does not pass the threshold costs no attempt. When the
  script has no polls left and the last result did not pass, the C loop
  would spin for ever. The model reports that as `Diverged`, and the
  command's outcome as `Hangs`.

The LRC is fixed by the six literal frames. For each one, the last byte is
the exclusive-or of bytes 1 to len-2, so STX is not covered. The model
follows that rule (`Codec.StaticCatalogWellFormed`).

## Model

| member | source | states |
|---|---|---|
| Codec.StaticCatalogWellFormed | src/transbank.c:12-48 | each of the six fixed frames starts with STX, has ETX before its last byte and ends with the LRC of the bytes between; its length is the declared payloadSize 9/9/7/7/7/8, and retries is 3 |
| Codec.CloseSealed | src/transbank.c:12 | the close frame's last byte 0x06 is its LRC |
| Codec.GetTotalsSealed | src/transbank.c:13 | the totals frame's last byte 0x04 is its LRC |
| Codec.LoadKeysSealed | src/transbank.c:14 | the load-keys frame's last byte 0x0B is its LRC |
| Codec.PollSealed | src/transbank.c:15 | the poll frame's last byte 0x02 is its LRC |
| Codec.ChangeToNormalSealed | src/transbank.c:16 | the normal-mode frame's last byte 0x00 is its LRC |
| Codec.LastSaleSealed | src/transbank.c:17 | the last-sale frame's last byte 0x78 is its LRC |
| Bytes.XorUpdate | src/transbank.c:192 | replacing one byte changes the exclusive-or by exactly the old and the new byte |
| Bytes.LrcDetectsSingleByteChange | src/transbank.c:192 | changing any one byte the checksum covers changes the checksum |
| Bytes.LrcSwapUndetected | src/transbank.c:192 | swapping two covered bytes leaves the checksum unchanged (an exclusive-or collision) |
| Bytes.LrcIgnoresEnds | src/transbank.c:192 | the leading STX byte and the checksum slot do not affect the checksum |
| Bytes.ZeroPadRoundTrip | src/transbank.c:169-173 | the digits of a zero-padded field read back as the number written, for any number that fits the width |
| Bytes.FormatDecimalRoundTrip | src/transbank.c:169-173 | `strtol` reads back exactly the value `sprintf("%0Nd")` wrote, negative values included |
| Bytes.StrToLDigits | src/transbank.c:102-105 | on a digits-only field, strtol gives its plain decimal value |
| Bytes.StrLenIsTerminator | src/transbank.c:193 | strlen is the only length with no NUL before it and a NUL (or the end of the buffer) at it |
| Bytes.ScanStrLen | src/transbank.c:193 | the array scan returns strlen of the buffer: no NUL before it, a NUL at it unless at the end |
| Bytes.WithoutNulIdentity | src/transbank.c:85-89 | appending a NUL-free field one byte at a time reproduces it |
| Codec.StrCat | src/transbank.c:180 | strcat writes the piece right after the current string, leaving earlier bytes as they were |
| Codec.StrCatEach | src/transbank.c:180-190 | successive strcats leave the concatenation of the pieces at the start of the buffer |
| Codec.SalePiecesConcat | src/transbank.c:180-190 | the eleven strcat pieces of the sale frame concatenate to its field layout |
| Codec.AppendSaleFields | src/transbank.c:177-190 | the 28-byte buffer holds the sale fields followed by the '0' placeholder |
| Codec.WriteChecksum | src/transbank.c:192-193 | overwriting the byte at strlen-1 with the LRC of the buffer seals it |
| Codec.SealRewritesOnlyLastByte | src/transbank.c:192-193 | sealing keeps the length and every byte but the last, and yields a sealed frame |
| Codec.SaleFieldsHaveNoNul | src/transbank.c:193 | the assembled sale frame has no NUL, so strlen finds its placeholder |
| Codec.PrepareSaleMessage | src/transbank.c:162-202 | the returned message is the sealed sale frame with payloadSize 28, responseSize 146 and retries 3 |
| Codec.SaleFieldOffsets | src/transbank.c:180-190 | where each sale field sits: code at 0-4, amount at 6-14, ticket at 16-21, three PIPEs, flag at 25, ETX at 26 |
| Codec.SaleFrameLayout | src/transbank.c:164-199 | the sale message is well formed, 28 bytes: STX "0200" PIPE amount(9) PIPE ticket(6) PIPE PIPE PIPE flag ETX LRC; only the last byte differs from the fields; strtol reads amount and ticket back |
| Codec.CancellationFieldsHaveNoNul | src/transbank.c:578 | the assembled cancellation frame has no NUL, so strlen finds its placeholder |
| Codec.PrepareCancellationMessage | src/transbank.c:554-587 | the returned message is the sealed cancellation frame with payloadSize 15, responseSize 46 and retries 3 |
| Codec.CancellationFieldOffsets | src/transbank.c:570-575 | where each cancellation field sits: code at 0-4, PIPE, id at 6-11, PIPE, ETX at 13 |
| Codec.CancellationFrameLayout | src/transbank.c:556-585 | the cancellation message is well formed, 15 bytes: STX "1200" PIPE id(6) PIPE ETX LRC; only the last byte differs from the fields; strtol reads the id back |
| Decoders.Substring | src/transbank.c:76-91 | the loop yields the bytes buf[index .. index+length) with NULs dropped |
| Decoders.SubstringOfDigits | src/transbank.c:76-91 | a digits-only field comes out of substring unchanged |
| Decoders.FieldOfDigits | src/transbank.c:102-105 | a digits-only field decodes to its decimal value |
| Decoders.FixedOffsetDecode | src/transbank.c:93-109 | with digit fields, function, response code, commerce code and terminal id are the values of bytes 1-4, 6-7, 9-20 and 22-29, and the record is marked OK |
| Decoders.FixedOffsetRoundTrip | src/transbank.c:95-108 | a close/load-keys answer laid out with zero-padded fields decodes to exactly the numbers written into it |
| Decoders.TokensReassemble | src/transbank.c:117-156 | tokenizing loses nothing: the tokens, each with its PIPE, then the unterminated rest, give back the input; no token holds a PIPE |
| Decoders.TokensAfterFirstPipe | src/transbank.c:119-127 | the text before the first PIPE is the first token |
| Decoders.NoPipeNoTokens | src/transbank.c:155 | text with no PIPE yields no token |
| Decoders.AssignAllFirstFour | src/transbank.c:130-150 | running the switch token by token fills exactly the first four fields from the tokens in their positions and leaves the others unassigned |
| Decoders.PipeStep | src/transbank.c:119-127 | at a PIPE, the bytes from init_pos of the given length are the completed token, and the scan invariant holds for an empty token after the PIPE |
| Decoders.ByteStep | src/transbank.c:155 | any other byte extends the current token and keeps the scan invariant |
| Decoders.ParseGetTotalsResponse | src/transbank.c:111-160 | the loop returns the record of the PIPE-terminated tokens between STX and strlen, assigned in order, marked OK |
| Decoders.TotalsDecode | src/transbank.c:116-158 | the k-th terminated token, read by strtol, fills the k-th field for k = 1..4; missing tokens leave fields unassigned |
| Decoders.TotalsFromPipes | src/transbank.c:116-158 | four PIPE-terminated tokens become function, response code, count and total, whatever follows the fourth PIPE |
| Decoders.UnterminatedTokenIgnored | src/transbank.c:117-156 | with three PIPEs the total stays unassigned, whatever follows the third |
| Decoders.TotalsOfPaddedFigures | src/transbank.c:116-158 | STX fn(4) PIPE code(2) PIPE count(4) PIPE total(10) ETX decodes to fn, code and count, with the total never assigned |
| Transport.Overlay | src/transbank.c:237 | read_bytes keeps the buffer's length; each position below both the size asked for and the count of bytes delivered holds the delivered byte, every other position keeps its old byte |
| Transport.Port.WriteMessage | src/transbank.c:213 | the port's new state is that of write_message on the script |
| Transport.Port.ReceiveAck | src/transbank.c:216 | the port's new state is that of read_ack on the script |
| Transport.Port.Waiting | src/transbank.c:232 | the port's new state is that of sp_input_waiting on the script |
| Transport.Port.Read | src/transbank.c:237 | the port's new state and the filled buffer are those of read_bytes on the script |
| Transport.Port.Reply | src/transbank.c:241 | the port's new state is that of reply_ack on the script |
| Engine.SendPhase | src/transbank.c:211-224 | the do-while send loop ends in the state and with the outcome and failed-attempt count of the send specification |
| Engine.AttemptTrace | src/transbank.c:213-222 | one attempt writes the frame once and reads an ACK only if that write succeeded (its calls are a failed write alone, or a successful write then one ACK read); it succeeds exactly when both the write and the ACK read succeeded |
| Engine.SendTrace | src/transbank.c:211-224 | the send phase only writes the frame and reads ACKs; it opens with a write, an ACK is read exactly right after each successful write (`AckGated`); it succeeds exactly when its last call read an ACK, which then follows a successful write, and no earlier call did |
| Engine.SendAttempts | src/transbank.c:211-224 | one write per attempt; failure comes only after exactly `retries` failed attempts, success with fewer |
| Engine.SendLeavesResponseQueues | src/transbank.c:211-224 | the send phase consumes no poll, read or reply ACK |
| Engine.SilentTerminal | src/transbank.c:211-224 | with no ACK left to read, the send phase fails |
| Engine.Iterate | src/transbank.c:235-255 | one pass keeps the buffer's length; it either leaves tries unchanged (a poll below the threshold) or adds one; an accepted pass read a positive count |
| Engine.Respond | src/transbank.c:233-257 | the response loop never lowers tries; it gives up exactly when tries reaches `retries`; an answer has the buffer's length and a positive count; divergence only once the polls are used up |
| Engine.ResponsePhase | src/transbank.c:226-257 | the response loop method ends in the state and with the answer and try count of the response specification, starting from a fresh buffer, tries 0 and the declared responseSize |
| Engine.IterateTrace | src/transbank.c:235-255 | the calls one pass makes: a read and an accepted reply at the declared or recorded size; or only reads and rejected replies, one failure per counted try, none unless the poll passed |
| Engine.RespondTrace | src/transbank.c:233-257 | the response loop only polls, reads and replies; it answers exactly when its last call was an accepted reply ACK, with none accepted before |
| Engine.PassTrace | src/transbank.c:235-256 | a pass that answers makes a read and an accepted reply ACK; any other pass with its closing poll makes only polls, reads and rejected reply ACKs |
| Engine.RespondFailures | src/transbank.c:235-257 | the tries the loop counts are exactly its empty reads and rejected reply ACKs; polls cost nothing |
| Engine.IterateFailures | src/transbank.c:237-252 | one pass adds one failed attempt for each empty read or rejected reply ACK it makes, and nothing else |
| Engine.RespondFailuresFrom | src/transbank.c:233-257 | over the loop, failures logged minus tries counted never changes |
| Engine.ResponsesFailures | src/transbank.c:228-257 | the response phase counts from 0; its final count is the number of empty reads and rejected reply ACKs, at most `retries`, and it gives up exactly when the count reaches `retries` |
| Engine.ResponsesTrace | src/transbank.c:232-257 | the response phase opens with a poll, then only polls, reads and replies, and answers exactly when its last call is an accepted reply ACK |
| Engine.GatedPass | src/transbank.c:235-256 | within one pass, a call is a read exactly when the call before it is a poll that passed, and a reply ACK exactly when the call before it is a read that returned bytes |
| Engine.RespondGated | src/transbank.c:233-257 | the same two-way gating holds over the whole response loop |
| Engine.AnsweredAckSize | src/transbank.c:237-245 | an answered loop ends with the accepted reply ACK of the size its policy names |
| Engine.Exchange | src/transbank.c:211-258 | a command's handshake: an answer has the declared responseSize as its buffer length and a positive count; divergence only once the polls are used up |
| Engine.Run | src/transbank.c:209-258 | the two phases on the port end in the state and with the result of the handshake specification |
| Engine.ExchangeTrace | src/transbank.c:211-258 | the handshake's calls split into send calls (each ACK read right after a successful write) and response calls; a response phase happens exactly when the send phase's last call read an ACK; it opens with a poll and answers exactly when it ends with an accepted reply ACK |
| Engine.ExchangeGated | src/transbank.c:211-257 | over the whole handshake, a call is a read exactly when it follows a poll that passed the threshold, and a reply ACK exactly when it follows a read that returned bytes |
| Engine.ExchangeAckSize | src/transbank.c:237-245 | an answered handshake ends with the accepted reply ACK of the size the policy names |
| Engine.SilentExchange | src/transbank.c:211-226 | with no ACK left to read, the request is never acknowledged and no response is waited for |
| Engine.ExchangeLimits | src/transbank.c:237-241 | every read of a handshake asks for the responseSize in force when it is made |
| Engine.KeptLimitsAt | src/transbank.c:237 | each read asked for the responseSize in force after the calls before it |
| Engine.FixedLimit | src/transbank.c:365 | unless the read count is stored back, the responseSize stays the declared one |
| Engine.RecordedIsLastCount | src/transbank.c:240 | when the read count is stored back, the responseSize in force is the count of the last read that returned bytes, or the declared size before any |
| Engine.PassLimits | src/transbank.c:237-254 | a pass and its closing poll keep every read at the size in force and hand the next pass the size now in force |
| Engine.Filled | src/transbank.c:229-237 | the buffer after a sequence of reads keeps its length |
| Engine.IterateFill | src/transbank.c:237-244 | a pass keeps the buffer equal to what the reads so far laid over the fresh one; a pass that answers does so with its own read's count and the bytes that read laid over that buffer |
| Engine.RespondFill | src/transbank.c:233-257 | an answer of the response loop carries the count of the read whose reply ACK was accepted, and the buffer that read filled |
| Engine.ExchangeAnswer | src/transbank.c:229-245 | an answered handshake ends with a read and its accepted reply ACK; the answer carries that read's count and the buffer it filled, starting from the fresh buffer of the declared responseSize with the earlier reads laid over it |
| Commands.TextReply | src/transbank.c:242-263 | sale, last_sale and cancellation return the answer buffer exactly when the answer was accepted, the command's error text when it was not, and hang exactly when polling diverged |
| Commands.BaseReply | src/transbank.c:368-387 | close and load_keys return a record exactly when the answer was accepted: the fixed-offset decoding of the answer buffer, marked OK; otherwise no defined record; they hang exactly when polling diverged |
| Commands.TotalsReply | src/transbank.c:499-551 | get_totals' record is marked OK exactly when the answer was accepted, and is then the tokenized record of the answer buffer; otherwise it is the fresh NOK record with nothing assigned |
| Commands.Sale | src/transbank.c:204-264 | sale on the port: builds the frame, runs the handshake with threshold > 65 and the read count stored back, and returns the buffer or "Unable to request sale\n" |
| Commands.LastSale | src/transbank.c:266-332 | last_sale with its 8-byte frame, responseSize 146, threshold > 0 and the read count stored back |
| Commands.Cancellation | src/transbank.c:589-649 | cancellation with threshold > 0, the read count stored back, and "Unable to request Cancellation\n" on failure |
| Commands.Close | src/transbank.c:334-388 | close with threshold > 0, the declared 33 bytes acknowledged, and the parsed record on success |
| Commands.LoadKeys | src/transbank.c:390-444 | load_keys with threshold == 32, the declared 32 bytes acknowledged, and the parsed record on success |
| Commands.GetTotals | src/transbank.c:494-552 | get_totals with threshold > 10, the read count acknowledged, and the tokenized record or the NOK record |
| Commands.Poll | src/transbank.c:446-462 | poll is OK exactly when the send phase succeeds |
| Commands.SetNormalMode | src/transbank.c:464-480 | set_normal_mode is OK exactly when the send phase succeeds |
| Commands.SendOnlyTrace | src/transbank.c:446-480 | poll and set_normal_mode only write their frame and read ACKs, never read a response; an ACK is read exactly right after each successful write; OK exactly when the last call read an ACK, which follows a successful write; NOK only after three writes; never more than three |
| Commands.SilentTerminalOutcomes | src/transbank.c:204-649 | with no ACK left to read, all eight commands fail: the three error texts, no record for close and load_keys, the NOK totals record, NOK for poll and set_normal_mode |
| Commands.ReadsFollowPassingPolls | src/transbank.c:232-257 | in a command's handshake a call is a read exactly when the call before it is a poll whose result passed the command's threshold |
| Commands.SaleReadsWait | src/transbank.c:235-237 | a sale reads right after every poll that found more than 65 bytes, and at no other time |
| Commands.LastSaleReadsWait | src/transbank.c:301-303 | last_sale reads right after every poll that found some byte, and at no other time |
| Commands.CancellationReadsWait | src/transbank.c:620-622 | cancellation reads right after every poll that found some byte, and at no other time |
| Commands.CloseReadsWait | src/transbank.c:363-365 | close reads right after every poll that found some byte, and at no other time |
| Commands.LoadKeysReadsWait | src/transbank.c:419-421 | load_keys reads right after every poll that found exactly 32 bytes, and at no other time |
| Commands.GetTotalsReadsWait | src/transbank.c:526-528 | get_totals reads right after every poll that found more than 10 bytes, and at no other time |
| Commands.SaleAckSize | src/transbank.c:240-241 | a sale's accepted reply ACK acknowledges the count the read returned |
| Commands.LastSaleAckSize | src/transbank.c:307-308 | last_sale's accepted reply ACK acknowledges the count the read returned |
| Commands.CancellationAckSize | src/transbank.c:625-626 | cancellation's accepted reply ACK acknowledges the count the read returned |
| Commands.CloseAckSize | src/transbank.c:368 | close's accepted reply ACK acknowledges the declared 33 bytes |
| Commands.LoadKeysAckSize | src/transbank.c:424 | load_keys' accepted reply ACK acknowledges the declared 32 bytes |
| Commands.GetTotalsAckSize | src/transbank.c:531 | get_totals' accepted reply ACK acknowledges the count the read returned |
| Commands.CloseReadSize | src/transbank.c:365 | every close read asks for 33 bytes |
| Commands.LoadKeysReadSize | src/transbank.c:421 | every load_keys read asks for 32 bytes |
| Commands.GetTotalsReadSize | src/transbank.c:528 | every get_totals read asks for 24 bytes |
| Commands.DeclaredReads | src/transbank.c:365-368 | when the read count is not stored back, every read asks for the declared responseSize |
| Commands.RecordedReadSizes | src/transbank.c:237-240 | sale, last_sale and cancellation: each read asks for the responseSize in force, the count of the last read that returned bytes, or the declared size before any |
| Commands.RecordedLimit | src/transbank.c:240 | after a read that returned bytes, the size in force is its count until another read returns bytes |
| Commands.StoredBackSizes | src/transbank.c:237-240 | with the count stored back, each read asks for the count of the last earlier read that returned bytes, or the declared size before any |
| Commands.SaleReadSizes | src/transbank.c:237-240 | a sale's first read asks for the declared 146 bytes, each later one for the count of the last read that returned bytes |
| Commands.LastSaleReadSizes | src/transbank.c:303-307 | last_sale's reads ask for the declared 146 bytes until a read returns bytes, then for the count of the last one that did |
| Commands.CancellationReadSizes | src/transbank.c:622-625 | cancellation's reads ask for the declared 46 bytes until a read returns bytes, then for the count of the last one that did |
| Commands.FrameHoldsAcceptedRead | src/transbank.c:237-244 | the frame sale, last_sale and cancellation return is the whole response buffer, and holds each byte the accepted read delivered, up to the size asked for |
| Commands.DecodesAsDelivered | src/transbank.c:93-109 | a buffer whose first 30 bytes are a digit-field answer decodes to that answer's values |
| Commands.CloseDecodesAnswer | src/transbank.c:365-371 | an answered close whose accepted read brought digits in the four fields returns their decimal values, marked OK |
| Commands.LoadKeysDecodesAnswer | src/transbank.c:421-427 | an answered load_keys whose accepted read brought digits in the four fields returns their decimal values, marked OK |
| Commands.GetTotalsDecodesAnswer | src/transbank.c:528-534 | an answered get_totals whose accepted read filled the 24-byte buffer with STX and four PIPE-terminated digit figures returns their decimal values, marked OK |

## Left out

- `configure_port`, `open_port` and `close_port`: libserialport set-up and tear-down, not protocol logic.
- The bodies of `write_message`, `read_ack`, `sp_input_waiting`, `read_bytes`, `reply_ack` and `calculate_lrc`: the code behind `transbank_serial_utils.h` is not part of this model. The transport is a script of outcomes, one queue per call; a used-up queue fails. The LRC is the exclusive-or rule that all six literal frames satisfy.
- The buffer pointer that `reply_ack` receives is not recorded in the log, only the size.
- Memory: malloc, leaks, `memset(…, sizeof(&ret))`, and the 28- and 15-byte buffers that leave no room for strcat's terminator. Buffers are byte sequences. The read buffer starts as zeros, where C leaves its contents unspecified.
- Bytes.StrLen: when a buffer holds no NUL, the model stops at its end; C's `strlen` would read past the buffer, and parse_get_totals_response can do that on a 24-byte answer.
- Bytes.StrToL: does not model overflow clamping, `errno`, or the narrowing of the result to `long`/`int`; the fixed-offset fields are at most 12 digits (`commerceCode`, read with `strtoll`), but a totals token can be up to 22 digits, and such long tokens are read as their unbounded decimal value rather than clamped.
- Codec.PrepareSaleMessage: requires the amount to fit 9 characters and the ticket 6. Larger values overflow the C string buffers, which is undefined behaviour with no defined frame to model. The same holds for Codec.PrepareCancellationMessage with the id.
- Commands.BaseReply: on failure, close returns an uninitialized malloc'd record and load_keys dereferences an uninitialized pointer. Neither has a defined value, so the model returns None.
- Commands.Close and Commands.LoadKeys require nothing of the answer's length. `parse_load_keys_close_response` reads up to offset 29 without checking, and the buffer always holds the declared 33 or 32 bytes.
- Engine.Respond: its own contract fixes only the answer's length and count sign; which bytes the answer holds is stated by Engine.RespondFill, over the log of reads.
- Engine.Exchange: likewise, its own contract fixes only the answer's length; the bytes and the count are stated by Engine.ExchangeAnswer.
- Engine.ResponsePhase: when the waits script is used up and the last poll did not pass, the C loop polls for ever. The model stops with `Diverged`, and the command's outcome is `Hangs`. The script bounds the model where the source does not terminate.
- The command functions' `int` arguments and `long` conversions are unbounded integers, limited only by the field widths above.
