/** The serial port as the protocol sees it. The five transport calls
    (write_message, read_ack, sp_input_waiting, read_bytes, reply_ack) are
    foreign code; here each one draws its outcome from its own scripted
    queue, and every call is recorded in a log, so the retry logic above it
    can be stated over traces. */
module Transport {
  import opened Bytes

  /** What one read_bytes call returns and the bytes it delivers. */
  datatype Reading = Reading(count: int, data: seq<byte>)

  /** The outcomes the port will produce, call by call. Once a queue is used
      up the call fails: writes and acks fail, no byte is waiting, a read
      returns 0 and a reply ack fails. */
  datatype Script = Script(
    writes: seq<bool>, acks: seq<bool>, waits: seq<int>, incoming: seq<Reading>, replies: seq<bool>)

  /** How far each queue has been consumed. */
  datatype Cursor = Cursor(w: nat, a: nat, p: nat, r: nat, y: nat)

  const Start: Cursor := Cursor(0, 0, 0, 0, 0)

  /** One transport call with its arguments and outcome. */
  datatype Call =
    | Wrote(frame: seq<byte>, ok: bool)
    | AckRead(ok: bool)
    | Polled(waiting: int)
    | ReadInto(limit: nat, count: int, data: seq<byte>)
    | Replied(size: nat, ok: bool)

  datatype PortState = PortState(at: Cursor, log: seq<Call>)

  datatype Step<T> = Step(value: T, next: PortState)

  /** The answer of read_bytes: its return value and the buffer afterwards. */
  datatype Received = Received(count: int, buffer: seq<byte>)

  function At<T>(s: seq<T>, i: nat, none: T): T
  {
    if i < |s| then s[i] else none
  }

  /** write_message: sends the frame; true for TBK_OK. */
  function Write(sc: Script, st: PortState, frame: seq<byte>): Step<bool>
  {
    var ok := At(sc.writes, st.at.w, false);
    Step(ok, PortState(st.at.(w := st.at.w + 1), st.log + [Wrote(frame, ok)]))
  }

  /** read_ack: waits for the terminal's ACK; true for TBK_OK. */
  function ReadAck(sc: Script, st: PortState): Step<bool>
  {
    var ok := At(sc.acks, st.at.a, false);
    Step(ok, PortState(st.at.(a := st.at.a + 1), st.log + [AckRead(ok)]))
  }

  /** sp_input_waiting: the number of bytes waiting, or a negative error code. */
  function InputWaiting(sc: Script, st: PortState): Step<int>
  {
    var n := At(sc.waits, st.at.p, 0);
    Step(n, PortState(st.at.(p := st.at.p + 1), st.log + [Polled(n)]))
  }

  /** The buffer after the first bytes of data have been written into it: at
      most `limit` of them and never past its end. */
  function Overlay(buf: seq<byte>, data: seq<byte>, limit: nat): (r: seq<byte>)
    ensures |r| == |buf|
    ensures forall i :: 0 <= i < |buf| ==> r[i] == if i < |data| && i < limit then data[i] else buf[i]
  {
    var k := if |data| < limit then |data| else limit;
    var k' := if k < |buf| then k else |buf|;
    data[..k'] + buf[k'..]
  }

  /** The reading the next read_bytes call gets. */
  function Incoming(sc: Script, st: PortState): Reading
  {
    At(sc.incoming, st.at.r, Reading(0, []))
  }

  /** read_bytes: reads into buf, asking for at most `limit` bytes (the
      message's responseSize at the time of the call). The log keeps the
      bytes the terminal delivered. */
  function ReadBytes(sc: Script, st: PortState, buf: seq<byte>, limit: nat): Step<Received>
  {
    var rd := Incoming(sc, st);
    Step(Received(rd.count, Overlay(buf, rd.data, limit)),
         PortState(st.at.(r := st.at.r + 1), st.log + [ReadInto(limit, rd.count, rd.data)]))
  }

  /** reply_ack: acknowledges `size` bytes of the answer; true for TBK_OK. */
  function ReplyAck(sc: Script, st: PortState, size: nat): Step<bool>
  {
    var ok := At(sc.replies, st.at.y, false);
    Step(ok, PortState(st.at.(y := st.at.y + 1), st.log + [Replied(size, ok)]))
  }

  /** The open port: the scripted outcomes it will produce and how far it has
      got through them. */
  class Port {
    const script: Script
    var state: PortState

    constructor(script: Script)
      ensures this.script == script && state == PortState(Start, [])
    {
      this.script := script;
      state := PortState(Start, []);
    }

    method WriteMessage(frame: seq<byte>) returns (ok: bool)
      modifies this
      ensures Step(ok, state) == Write(script, old(state), frame)
    {
      var s := Write(script, state, frame);
      ok, state := s.value, s.next;
    }

    method ReceiveAck() returns (ok: bool)
      modifies this
      ensures Step(ok, state) == ReadAck(script, old(state))
    {
      var s := ReadAck(script, state);
      ok, state := s.value, s.next;
    }

    method Waiting() returns (n: int)
      modifies this
      ensures Step(n, state) == InputWaiting(script, old(state))
    {
      var s := InputWaiting(script, state);
      n, state := s.value, s.next;
    }

    method Read(buf: seq<byte>, limit: nat) returns (count: int, filled: seq<byte>)
      modifies this
      ensures Step(Received(count, filled), state) == ReadBytes(script, old(state), buf, limit)
    {
      var s := ReadBytes(script, state, buf, limit);
      count, filled, state := s.value.count, s.value.buffer, s.next;
    }

    method Reply(size: nat) returns (ok: bool)
      modifies this
      ensures Step(ok, state) == ReplyAck(script, old(state), size)
    {
      var s := ReplyAck(script, state, size);
      ok, state := s.value, s.next;
    }
  }
}
