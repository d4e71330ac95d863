/** The handshake every command runs: a send phase that writes the request
    and waits for the terminal's ACK, at most `retries` times; then, once
    the request is acknowledged, a response phase that polls the port, reads
    when enough bytes are waiting, acknowledges the answer and counts the
    failed attempts. Each phase is a specification function over the
    scripted port and a loop method proved equal to it; the lemmas state
    what the phases do in terms of the calls they make. */
module Engine {
  import opened Bytes
  import opened Transport
  import opened Codec

  type Positive = n: nat | n > 0 witness 1

  /** When a poll's result lets the response loop read. */
  datatype Threshold = MoreThan(bound: nat) | Exactly(count: Positive)

  /** The size handed to reply_ack: the read count, after it has replaced
      the message's responseSize (RecordActual); the read count alone
      (AckActual); or the declared responseSize (AckDeclared). */
  datatype AckSize = RecordActual | AckActual | AckDeclared

  datatype Policy = Policy(threshold: Threshold, ackSize: AckSize)

  predicate Passes(t: Threshold, waiting: int)
  {
    match t
    case MoreThan(bound) => waiting > bound
    case Exactly(count) => waiting == count
  }

  // ---------------------------------------------------------------------
  // Send phase

  datatype SendOut = SendOut(ok: bool, tries: nat, next: PortState)

  /** One attempt: write the frame and, if that worked, read the ACK. */
  function Attempt(sc: Script, st: PortState, frame: seq<byte>): Step<bool>
  {
    var w := Write(sc, st, frame);
    if w.value then ReadAck(sc, w.next) else w
  }

  /** The send loop from a count of `tries` failed attempts: stops at the
      first acknowledged attempt, or once `retries` attempts have failed. */
  function Send(sc: Script, st: PortState, frame: seq<byte>, retries: nat, tries: nat): SendOut
    requires tries <= retries
    decreases retries - tries
  {
    var at := Attempt(sc, st, frame);
    if at.value then SendOut(true, tries, at.next)
    else if tries + 1 < retries then Send(sc, at.next, frame, retries, tries + 1)
    else SendOut(false, tries + 1, at.next)
  }

  method SendPhase(port: Port, frame: seq<byte>, retries: nat) returns (ok: bool, tries: nat)
    modifies port
    ensures SendOut(ok, tries, port.state) == Send(port.script, old(port.state), frame, retries, 0)
  {
    tries := 0;
    ghost var goal := Send(port.script, port.state, frame, retries, 0);
    while true
      invariant tries <= retries
      invariant Send(port.script, port.state, frame, retries, tries) == goal
      decreases retries - tries
    {
      ok := port.WriteMessage(frame);
      if ok {
        ok := port.ReceiveAck();
        if ok {
          return;
        }
      }
      tries := tries + 1;
      if tries >= retries {
        return;
      }
    }
  }

  // ---------------------------------------------------------------------
  // Response phase

  datatype Answer = Answered(buffer: seq<byte>, count: int) | Exhausted | Diverged

  datatype ResponseOut = ResponseOut(answer: Answer, tries: nat, next: PortState)

  /** The response loop's variables at the top of its body: the last poll
      result, the failed attempts, the responseSize in force and the buffer. */
  datatype Loop = Loop(wait: int, tries: nat, limit: nat, buf: seq<byte>, st: PortState)

  /** What one pass of the body leaves: an accepted answer; a stall (nothing
      passes and nothing more will be waiting); or the variables for the
      poll that ends the pass. */
  datatype Iteration =
    | Accept(buffer: seq<byte>, count: int, next: PortState)
    | Stall
    | Again(tries: nat, limit: nat, buf: seq<byte>, st: PortState)

  function AckedSize(pol: Policy, declared: nat, count: nat): nat
  {
    if pol.ackSize == AckDeclared then declared else count
  }

  function NextLimit(pol: Policy, limit: nat, count: nat): nat
  {
    if pol.ackSize == RecordActual then count else limit
  }

  /** The polls left in the script. */
  function Unpolled(sc: Script, st: PortState): nat
  {
    if st.at.p < |sc.waits| then |sc.waits| - st.at.p else 0
  }

  /** One pass of the body, up to the poll that ends it. A poll below the
      threshold once the polls are used up would repeat for ever: that is a
      stall. */
  function Iterate(sc: Script, pol: Policy, declared: nat, s: Loop): (it: Iteration)
    ensures it.Again? ==> |it.buf| == |s.buf|
    ensures it.Again? ==>
              it.tries == s.tries + 1 || (it.tries == s.tries && it.st == s.st && s.st.at.p < |sc.waits|)
    ensures it.Accept? ==> |it.buffer| == |s.buf| && it.count > 0
  {
    if Passes(pol.threshold, s.wait) then
      var rd := ReadBytes(sc, s.st, s.buf, s.limit);
      var n := rd.value.count;
      if n > 0 then
        var rp := ReplyAck(sc, rd.next, AckedSize(pol, declared, n));
        if rp.value then Accept(rd.value.buffer, n, rp.next)
        else Again(s.tries + 1, NextLimit(pol, s.limit, n), rd.value.buffer, rp.next)
      else Again(s.tries + 1, s.limit, rd.value.buffer, rd.next)
    else if s.st.at.p >= |sc.waits| then Stall
    else Again(s.tries, s.limit, s.buf, s.st)
  }

  /** The response loop: body, poll, and go round again while fewer than
      `retries` attempts have failed. */
  function Respond(sc: Script, pol: Policy, declared: nat, retries: nat, s: Loop): (out: ResponseOut)
    requires s.tries <= retries
    decreases retries - s.tries, Unpolled(sc, s.st)
    ensures out.answer.Answered? ==> |out.answer.buffer| == |s.buf| && out.answer.count > 0
    ensures s.tries <= out.tries
    ensures out.answer.Exhausted? ==> retries <= out.tries
    ensures s.tries < retries ==> out.tries <= retries
    ensures s.tries < retries ==> (out.answer.Exhausted? <==> out.tries == retries)
    ensures out.answer.Diverged? ==> |sc.waits| <= out.next.at.p
  {
    match Iterate(sc, pol, declared, s)
    case Accept(b, n, st) => ResponseOut(Answered(b, n), s.tries, st)
    case Stall => ResponseOut(Diverged, s.tries, s.st)
    case Again(t, l, b, st) =>
      var w := InputWaiting(sc, st);
      if t < retries then Respond(sc, pol, declared, retries, Loop(w.value, t, l, b, w.next))
      else ResponseOut(Exhausted, t, w.next)
  }

  /** The phase: the first poll, then the loop with no failed attempt, the
      declared responseSize in force and a fresh buffer of that size. */
  function Responses(sc: Script, st: PortState, pol: Policy, declared: nat, retries: nat): ResponseOut
  {
    var w := InputWaiting(sc, st);
    Respond(sc, pol, declared, retries, Loop(w.value, 0, declared, Zeros(declared), w.next))
  }

  /** The buffer malloc hands out; C leaves its contents unspecified. */
  function Zeros(n: nat): (r: seq<byte>)
    ensures |r| == n
  {
    seq(n, _ => 0)
  }

  method ResponsePhase(port: Port, pol: Policy, declared: nat, retries: nat) returns (answer: Answer, tries: nat)
    modifies port
    ensures ResponseOut(answer, tries, port.state) == Responses(port.script, old(port.state), pol, declared, retries)
  {
    var wait := port.Waiting();
    tries := 0;
    var limit: nat := declared;
    var buf := Zeros(declared);
    ghost var goal := Respond(port.script, pol, declared, retries, Loop(wait, tries, limit, buf, port.state));
    while true
      invariant tries <= retries
      invariant Respond(port.script, pol, declared, retries, Loop(wait, tries, limit, buf, port.state)) == goal
      decreases retries - tries, Unpolled(port.script, port.state)
    {
      ghost var before := Loop(wait, tries, limit, buf, port.state);
      if Passes(pol.threshold, wait) {
        var n;
        n, buf := port.Read(buf, limit);
        if n > 0 {
          var size: nat;
          if pol.ackSize == RecordActual {
            limit := n;
            size := limit;
          } else if pol.ackSize == AckActual {
            size := n;
          } else {
            size := declared;
          }
          var ok := port.Reply(size);
          if ok {
            answer := Answered(buf, n);
            return;
          }
          tries := tries + 1;
        } else {
          tries := tries + 1;
        }
      } else if port.state.at.p >= |port.script.waits| {
        answer := Diverged;
        return;
      }
      assert Iterate(port.script, pol, declared, before) == Again(tries, limit, buf, port.state);
      wait := port.Waiting();
      if tries >= retries {
        answer := Exhausted;
        return;
      }
    }
  }

  // ---------------------------------------------------------------------
  // What the phases do, stated over the calls they make

  /** The calls made since state `st`, when st's log is a prefix of `log`. */
  function Since(st: PortState, log: seq<Call>): seq<Call>
    requires st.log <= log
  {
    log[|st.log|..]
  }

  lemma SuffixAfter(a: seq<Call>, e: seq<Call>, c: seq<Call>)
    requires a + e <= c
    ensures a <= c && c[|a|..] == e + c[|a| + |e|..]
  {
    assert c[|a|..] == c[|a|..|a| + |e|] + c[|a| + |e|..];
    assert c[|a|..|a| + |e|] == (a + e)[|a|..] == e;
  }

  predicate SendCall(frame: seq<byte>, c: Call)
  {
    (c.Wrote? && c.frame == frame) || c.AckRead?
  }

  function WriteCount(d: seq<Call>): nat
  {
    if d == [] then 0 else WriteCount(d[..|d| - 1]) + (if d[|d| - 1].Wrote? then 1 else 0)
  }

  lemma {:induction false} WriteCountAppend(a: seq<Call>, b: seq<Call>)
    ensures WriteCount(a + b) == WriteCount(a) + WriteCount(b)
    decreases |b|
  {
    if b != [] {
      assert (a + b)[..|a + b| - 1] == a + b[..|b| - 1];
      assert (a + b)[|a + b| - 1] == b[|b| - 1];
      WriteCountAppend(a, b[..|b| - 1]);
    } else {
      assert a + b == a;
    }
  }

  predicate SendCalls(frame: seq<byte>, d: seq<Call>)
  {
    forall i :: 0 <= i < |d| ==> SendCall(frame, d[i])
  }

  /** No call but possibly the last read an ACK. */
  predicate AckOnlyLast(d: seq<Call>)
  {
    forall i :: 0 <= i < |d| - 1 ==> d[i] != AckRead(true)
  }

  predicate EndsAcked(d: seq<Call>)
  {
    d != [] && d[|d| - 1] == AckRead(true)
  }

  /** ACK reads are gated on writes: the calls open with a write, an ACK
      is read exactly right after a write that succeeded, and no
      successful write is left without its ACK read. */
  predicate AckGated(frame: seq<byte>, d: seq<Call>)
  {
    d != [] && d[0].Wrote? && d[|d| - 1] != Wrote(frame, true)
    && forall i :: 0 < i < |d| ==> (d[i].AckRead? <==> d[i - 1] == Wrote(frame, true))
  }

  lemma AckGatedAppend(frame: seq<byte>, e: seq<Call>, d: seq<Call>)
    requires AckGated(frame, e) && AckGated(frame, d)
    ensures AckGated(frame, e + d)
  {
    var l := e + d;
    assert l[|l| - 1] == d[|d| - 1];
    forall i | 0 < i < |l|
      ensures l[i].AckRead? <==> l[i - 1] == Wrote(frame, true)
    {
      if i < |e| {
        assert l[i] == e[i] && l[i - 1] == e[i - 1];
      } else if i == |e| {
        assert l[i] == d[0] && l[i - 1] == e[|e| - 1];
      } else {
        assert l[i] == d[i - |e|] && l[i - 1] == d[i - 1 - |e|];
      }
    }
  }

  lemma SendCallsAppend(frame: seq<byte>, e: seq<Call>, d: seq<Call>)
    requires SendCalls(frame, e) && SendCalls(frame, d)
    requires AckRead(true) !in e && AckOnlyLast(d) && d != []
    ensures SendCalls(frame, e + d) && AckOnlyLast(e + d)
    ensures EndsAcked(e + d) == EndsAcked(d)
  {
    assert (e + d)[|e + d| - 1] == d[|d| - 1];
    forall i | 0 <= i < |e + d| - 1
      ensures (e + d)[i] != AckRead(true)
    {
      if i < |e| {
        assert (e + d)[i] == e[i];
      } else {
        assert (e + d)[i] == d[i - |e|];
      }
    }
  }

  /** One attempt writes the frame once and, only if that worked, reads
      one ACK; it succeeds exactly when both the write and the ACK read
      did. */
  lemma AttemptTrace(sc: Script, st: PortState, frame: seq<byte>)
    ensures var at := Attempt(sc, st, frame);
      st.log <= at.next.log &&
      var e := Since(st, at.next.log);
      e != [] && SendCalls(frame, e) && AckOnlyLast(e) && (at.value <==> EndsAcked(e))
      && (!at.value ==> AckRead(true) !in e) && WriteCount(e) == 1
      && (e == [Wrote(frame, false)] || (|e| == 2 && e[0] == Wrote(frame, true) && e[1].AckRead?))
      && (at.value <==> e == [Wrote(frame, true), AckRead(true)])
      && AckGated(frame, e)
  {
    var at := Attempt(sc, st, frame);
    var e := at.next.log[|st.log|..];
    assert at.next.log == st.log + e;
    assert e == [Wrote(frame, false)] || e == [Wrote(frame, true), AckRead(at.value)];
    SmallCounts(Wrote(frame, at.value), AckRead(at.value));
  }

  /** The send phase only writes the frame and reads ACKs, each ACK right
      after a successful write and after every successful write; it
      succeeds exactly when its last call read an ACK, which then follows
      a successful write, and no earlier call did (it stops at the first
      acknowledged attempt). */
  lemma {:induction false} SendTrace(sc: Script, st: PortState, frame: seq<byte>, retries: nat, tries: nat)
    requires tries <= retries
    ensures var out := Send(sc, st, frame, retries, tries);
      st.log <= out.next.log &&
      var d := Since(st, out.next.log);
      d != [] && SendCalls(frame, d) && AckOnlyLast(d) && (out.ok <==> EndsAcked(d))
      && AckGated(frame, d)
      && (out.ok ==> |d| >= 2 && d[|d| - 2] == Wrote(frame, true))
    decreases retries - tries
  {
    var at := Attempt(sc, st, frame);
    AttemptTrace(sc, st, frame);
    if !at.value && tries + 1 < retries {
      var e := Since(st, at.next.log);
      var out := Send(sc, at.next, frame, retries, tries + 1);
      SendTrace(sc, at.next, frame, retries, tries + 1);
      SuffixAfter(st.log, e, out.next.log);
      var d' := Since(at.next, out.next.log);
      assert Since(st, out.next.log) == e + d';
      SendCallsAppend(frame, e, d');
      AckGatedAppend(frame, e, d');
    }
  }

  /** One write per attempt: as many as the failed attempts, plus the one
      acknowledged; the phase gives up only after `retries` failures, and
      succeeds with fewer. */
  lemma {:induction false} SendAttempts(sc: Script, st: PortState, frame: seq<byte>, retries: nat, tries: nat)
    requires tries < retries
    ensures var out := Send(sc, st, frame, retries, tries);
      st.log <= out.next.log
      && WriteCount(Since(st, out.next.log)) == out.tries - tries + (if out.ok then 1 else 0)
      && (out.ok ==> out.tries < retries)
      && (!out.ok ==> out.tries == retries)
    decreases retries - tries
  {
    var at := Attempt(sc, st, frame);
    AttemptTrace(sc, st, frame);
    if !at.value && tries + 1 < retries {
      var e := Since(st, at.next.log);
      var out := Send(sc, at.next, frame, retries, tries + 1);
      SendAttempts(sc, at.next, frame, retries, tries + 1);
      SuffixAfter(st.log, e, out.next.log);
      var d' := Since(at.next, out.next.log);
      assert Since(st, out.next.log) == e + d';
      WriteCountAppend(e, d');
    }
  }

  /** The send phase leaves the response queues untouched. */
  lemma {:induction false} SendLeavesResponseQueues(sc: Script, st: PortState, frame: seq<byte>, retries: nat, tries: nat)
    requires tries <= retries
    ensures var out := Send(sc, st, frame, retries, tries);
      out.next.at.p == st.at.p && out.next.at.r == st.at.r && out.next.at.y == st.at.y
    decreases retries - tries
  {
    var at := Attempt(sc, st, frame);
    if !at.value && tries + 1 < retries {
      SendLeavesResponseQueues(sc, at.next, frame, retries, tries + 1);
    }
  }

  predicate ResponseCall(c: Call)
  {
    c.Polled? || c.ReadInto? || c.Replied?
  }

  /** A failed attempt: a read that got nothing, or a rejected reply ACK. */
  predicate Fails(c: Call)
  {
    (c.ReadInto? && c.count <= 0) || (c.Replied? && !c.ok)
  }

  function Failures(d: seq<Call>): nat
  {
    if d == [] then 0 else Failures(d[..|d| - 1]) + (if Fails(d[|d| - 1]) then 1 else 0)
  }

  lemma {:induction false} FailuresAppend(a: seq<Call>, b: seq<Call>)
    ensures Failures(a + b) == Failures(a) + Failures(b)
    decreases |b|
  {
    if b != [] {
      assert (a + b)[..|a + b| - 1] == a + b[..|b| - 1];
      assert (a + b)[|a + b| - 1] == b[|b| - 1];
      FailuresAppend(a, b[..|b| - 1]);
    } else {
      assert a + b == a;
    }
  }

  lemma SmallCounts(x: Call, y: Call)
    ensures WriteCount([x]) == (if x.Wrote? then 1 else 0)
    ensures WriteCount([x, y]) == (if x.Wrote? then 1 else 0) + (if y.Wrote? then 1 else 0)
    ensures Failures([x]) == (if Fails(x) then 1 else 0)
    ensures Failures([x, y]) == (if Fails(x) then 1 else 0) + (if Fails(y) then 1 else 0)
  {
    assert [x, y][..1] == [x];
    assert [x][..0] == [];
  }

  lemma PollCostsNothing(e: seq<Call>, waiting: int)
    ensures Failures(e + [Polled(waiting)]) == Failures(e)
  {
    assert (e + [Polled(waiting)])[..|e|] == e;
  }

  /** The calls one pass of the body makes before its closing poll. */
  lemma IterateTrace(sc: Script, pol: Policy, declared: nat, s: Loop)
    ensures var it := Iterate(sc, pol, declared, s);
      (it.Accept? ==>
         it.next.log == s.st.log + [ReadInto(s.limit, it.count, Incoming(sc, s.st).data), Replied(AckedSize(pol, declared, it.count), true)]
         && Failures(it.next.log[|s.st.log|..]) == 0)
      && (it.Stall? ==> !Passes(pol.threshold, s.wait))
      && (it.Again? ==> s.st.log <= it.st.log && IterationCalls(pol, s, it.tries, it.st.log[|s.st.log|..]))
  {
    if Passes(pol.threshold, s.wait) {
      var rd := ReadBytes(sc, s.st, s.buf, s.limit);
      var n := rd.value.count;
      var r := ReadInto(s.limit, n, Incoming(sc, s.st).data);
      SmallCounts(r, r);
      assert rd.next.log[|s.st.log|..] == [r];
      if n > 0 {
        var rp := ReplyAck(sc, rd.next, AckedSize(pol, declared, n));
        SmallCounts(r, Replied(AckedSize(pol, declared, n), rp.value));
        assert rp.next.log[|s.st.log|..] == [r, Replied(AckedSize(pol, declared, n), rp.value)];
      }
    } else {
      assert s.st.log[|s.st.log|..] == [];
    }
  }

  /** The calls of a pass that did not answer: only reads and rejected
      replies, none unless the last poll passed, starting with the read, and
      one failed attempt for each failure among them. */
  predicate IterationCalls(pol: Policy, s: Loop, tries: nat, e: seq<Call>)
  {
    (forall i :: 0 <= i < |e| ==> ResponseCall(e[i]) && !(e[i].Replied? && e[i].ok))
    && Failures(e) == tries as int - s.tries
    && (e != [] <==> Passes(pol.threshold, s.wait))
    && (e != [] ==> e[0].ReadInto?)
  }

  predicate ResponseCalls(d: seq<Call>)
  {
    forall i :: 0 <= i < |d| ==> ResponseCall(d[i])
  }

  predicate Accepts(c: Call)
  {
    c.Replied? && c.ok
  }

  /** No call but possibly the last is an accepted reply ACK. */
  predicate AcceptOnlyLast(d: seq<Call>)
  {
    forall i :: 0 <= i < |d| - 1 ==> !Accepts(d[i])
  }

  predicate EndsAccepted(d: seq<Call>)
  {
    d != [] && Accepts(d[|d| - 1])
  }

  lemma ResponseCallsAppend(e: seq<Call>, d: seq<Call>)
    requires ResponseCalls(e) && ResponseCalls(d)
    requires (forall i :: 0 <= i < |e| ==> !Accepts(e[i])) && AcceptOnlyLast(d)
    ensures ResponseCalls(e + d) && AcceptOnlyLast(e + d)
    ensures d != [] ==> EndsAccepted(e + d) == EndsAccepted(d)
    ensures d == [] ==> !EndsAccepted(e + d)
  {
    if d != [] {
      assert (e + d)[|e + d| - 1] == d[|d| - 1];
    } else {
      assert e + d == e;
    }
    forall i | 0 <= i < |e + d|
      ensures ResponseCall((e + d)[i]) && (i < |e + d| - 1 ==> !Accepts((e + d)[i]))
    {
      if i < |e| {
        assert (e + d)[i] == e[i];
      } else {
        assert (e + d)[i] == d[i - |e|];
      }
    }
  }

  /** What the response loop does: it only polls, reads and replies, and it
      answers exactly when its last call was an accepted reply ACK, with no
      accepted one before. */
  lemma {:induction false} RespondTrace(sc: Script, pol: Policy, declared: nat, retries: nat, s: Loop)
    requires s.tries <= retries
    ensures var out := Respond(sc, pol, declared, retries, s);
      s.st.log <= out.next.log &&
      var d := Since(s.st, out.next.log);
      ResponseCalls(d) && AcceptOnlyLast(d) && (out.answer.Answered? <==> EndsAccepted(d))
    decreases retries - s.tries, Unpolled(sc, s.st)
  {
    var out := Respond(sc, pol, declared, retries, s);
    var it := Iterate(sc, pol, declared, s);
    PassTrace(sc, pol, declared, s);
    if it.Stall? {
      assert Since(s.st, out.next.log) == [];
    } else if it.Again? {
      var w := InputWaiting(sc, it.st);
      var e := Since(s.st, w.next.log);
      if it.tries < retries {
        var s' := Loop(w.value, it.tries, it.limit, it.buf, w.next);
        assert out == Respond(sc, pol, declared, retries, s');
        RespondTrace(sc, pol, declared, retries, s');
        SuffixAfter(s.st.log, e, out.next.log);
        var d' := Since(w.next, out.next.log);
        assert Since(s.st, out.next.log) == e + d';
        ResponseCallsAppend(e, d');
      } else {
        assert out.next == w.next;
        ResponseCallsAppend(e, []);
      }
    }
  }

  /** The calls of a pass and its closing poll: an answering pass makes a
      read and an accepted reply ACK; any other makes only polls, reads and
      rejected reply ACKs. */
  lemma PassTrace(sc: Script, pol: Policy, declared: nat, s: Loop)
    ensures var it := Iterate(sc, pol, declared, s);
      (it.Accept? ==>
         s.st.log <= it.next.log &&
         var d := Since(s.st, it.next.log);
         ResponseCalls(d) && AcceptOnlyLast(d) && EndsAccepted(d))
      && (it.Again? ==>
            var w := InputWaiting(sc, it.st);
            s.st.log <= w.next.log &&
            var e := Since(s.st, w.next.log);
            ResponseCalls(e) && forall i :: 0 <= i < |e| ==> !Accepts(e[i]))
  {
    IterateTrace(sc, pol, declared, s);
    var it := Iterate(sc, pol, declared, s);
    if it.Accept? {
      var d := Since(s.st, it.next.log);
      assert d == [ReadInto(s.limit, it.count, Incoming(sc, s.st).data), Replied(AckedSize(pol, declared, it.count), true)];
    } else if it.Again? {
      var w := InputWaiting(sc, it.st);
      var e := it.st.log[|s.st.log|..] + [Polled(w.value)];
      assert w.next.log == s.st.log + e;
      assert Since(s.st, w.next.log) == e;
      assert forall i :: 0 <= i < |e| ==> ResponseCall(e[i]) && !Accepts(e[i]);
    }
  }

  /** The failed attempts the loop counts are exactly the empty reads and
      rejected reply ACKs it made: a poll below the threshold costs nothing. */
  lemma {:induction false} RespondFailures(sc: Script, pol: Policy, declared: nat, retries: nat, s: Loop)
    requires s.tries <= retries
    ensures var out := Respond(sc, pol, declared, retries, s);
      s.st.log <= out.next.log && Failures(Since(s.st, out.next.log)) == out.tries - s.tries
  {
    assert s.st.log[|s.st.log|..] == [];
    RespondFailuresFrom(sc, pol, declared, retries, s, |s.st.log|);
    var out := Respond(sc, pol, declared, retries, s);
    RespondTrace(sc, pol, declared, retries, s);
  }

  lemma FailuresStep(d: seq<Call>, c: Call)
    ensures Failures(d + [c]) == Failures(d) + if Fails(c) then 1 else 0
  {
    assert (d + [c])[..|d + [c]| - 1] == d;
  }

  /** A pass adds to the failures logged since position k exactly what it
      adds to the count of failed attempts. */
  lemma IterateFailures(sc: Script, pol: Policy, declared: nat, s: Loop, k: nat)
    requires k <= |s.st.log|
    ensures var it := Iterate(sc, pol, declared, s);
      (it.Accept? ==> k <= |it.next.log| && Failures(it.next.log[k..]) == Failures(s.st.log[k..]))
      && (it.Again? ==> k <= |it.st.log| && Failures(it.st.log[k..]) - it.tries == Failures(s.st.log[k..]) - s.tries)
  {
    var d := s.st.log[k..];
    if Passes(pol.threshold, s.wait) {
      var rd := ReadBytes(sc, s.st, s.buf, s.limit);
      var n := rd.value.count;
      var r := ReadInto(s.limit, n, Incoming(sc, s.st).data);
      SliceAppend(s.st.log, r, k);
      FailuresStep(d, r);
      if n > 0 {
        var rp := ReplyAck(sc, rd.next, AckedSize(pol, declared, n));
        var y := Replied(AckedSize(pol, declared, n), rp.value);
        SliceAppend(rd.next.log, y, k);
        FailuresStep(d + [r], y);
      }
    }
  }

  lemma {:induction false} RespondFailuresFrom(sc: Script, pol: Policy, declared: nat, retries: nat, s: Loop, k: nat)
    requires s.tries <= retries && k <= |s.st.log|
    ensures var out := Respond(sc, pol, declared, retries, s);
      k <= |out.next.log| && Failures(out.next.log[k..]) - out.tries == Failures(s.st.log[k..]) - s.tries
    decreases retries - s.tries, Unpolled(sc, s.st)
  {
    var it := Iterate(sc, pol, declared, s);
    IterateFailures(sc, pol, declared, s, k);
    if it.Again? {
      var w := InputWaiting(sc, it.st);
      SliceAppend(it.st.log, Polled(w.value), k);
      FailuresStep(it.st.log[k..], Polled(w.value));
      if it.tries < retries {
        var s' := Loop(w.value, it.tries, it.limit, it.buf, w.next);
        assert Respond(sc, pol, declared, retries, s) == Respond(sc, pol, declared, retries, s');
        RespondFailuresFrom(sc, pol, declared, retries, s', k);
      }
    }
  }

  /** Each call is the one the call before it leads to: a read exactly when
      the call before was a poll that passed the threshold, a reply ACK
      exactly when it was a read that returned bytes. */
  predicate Follows(t: Threshold, x: Call, y: Call)
  {
    (y.ReadInto? <==> x.Polled? && Passes(t, x.waiting))
    && (y.Replied? <==> x.ReadInto? && x.count > 0)
  }

  /** Every call of the log from position k on is allowed by the one before it. */
  predicate GatedFrom(t: Threshold, log: seq<Call>, k: nat)
  {
    forall i :: k <= i < |log| - 1 ==> Follows(t, log[i], log[i + 1])
  }

  lemma GatedExtend(t: Threshold, a: seq<Call>, b: seq<Call>, k: nat, j: nat)
    requires a <= b && k <= j < |a|
    requires GatedFrom(t, a, k) && GatedFrom(t, b, j)
    ensures GatedFrom(t, b, k)
  {
    forall i | k <= i < |b| - 1
      ensures Follows(t, b[i], b[i + 1])
    {
      if i < j {
        assert b[i] == a[i] && b[i + 1] == a[i + 1];
      }
    }
  }

  /** The calls of one pass, from the poll that opens it to the poll that
      closes it, respect the gating. */
  lemma GatedPass(sc: Script, pol: Policy, declared: nat, s: Loop, closing: int)
    requires s.st.log != [] && s.st.log[|s.st.log| - 1] == Polled(s.wait)
    ensures var it := Iterate(sc, pol, declared, s);
      (it.Accept? ==> GatedFrom(pol.threshold, it.next.log, |s.st.log| - 1))
      && (it.Again? ==>
            (s.st.log <= it.st.log && GatedFrom(pol.threshold, it.st.log + [Polled(closing)], |s.st.log| - 1)))
  {
    var k := |s.st.log|;
    if Passes(pol.threshold, s.wait) {
      var rd := ReadBytes(sc, s.st, s.buf, s.limit);
      var n := rd.value.count;
      if n > 0 {
        var rp := ReplyAck(sc, rd.next, AckedSize(pol, declared, n));
        assert rp.next.log[k - 1] == Polled(s.wait) && rp.next.log[k] == ReadInto(s.limit, n, Incoming(sc, s.st).data);
      } else {
        var l := rd.next.log + [Polled(closing)];
        assert l[k - 1] == Polled(s.wait) && l[k] == ReadInto(s.limit, n, Incoming(sc, s.st).data);
      }
    }
  }

  /** From the poll that opened the current pass on, no read happens unless
      the poll just before it passed the threshold, and no reply ACK unless
      the read just before it returned bytes. */
  lemma {:induction false} RespondGated(sc: Script, pol: Policy, declared: nat, retries: nat, s: Loop)
    requires s.tries <= retries
    requires s.st.log != [] && s.st.log[|s.st.log| - 1] == Polled(s.wait)
    ensures var out := Respond(sc, pol, declared, retries, s);
      s.st.log <= out.next.log && GatedFrom(pol.threshold, out.next.log, |s.st.log| - 1)
    decreases retries - s.tries, Unpolled(sc, s.st)
  {
    GatedPass(sc, pol, declared, s, 0);
    match Iterate(sc, pol, declared, s)
    case Accept(b, n, st) =>
    case Stall =>
    case Again(t, l, b, st) =>
      var w := InputWaiting(sc, st);
      GatedPass(sc, pol, declared, s, w.value);
      if t < retries {
        assert Respond(sc, pol, declared, retries, s) == Respond(sc, pol, declared, retries, Loop(w.value, t, l, b, w.next));
        RespondGated(sc, pol, declared, retries, Loop(w.value, t, l, b, w.next));
        var out := Respond(sc, pol, declared, retries, s);
        GatedExtend(pol.threshold, w.next.log, out.next.log, |s.st.log| - 1, |w.next.log| - 1);
      }
  }

  /** The answer is the one whose reply ACK was accepted, acknowledged with
      the size the policy names: the read count, or the declared size. */
  lemma {:induction false} AnsweredAckSize(sc: Script, pol: Policy, declared: nat, retries: nat, s: Loop)
    requires s.tries <= retries
    ensures var out := Respond(sc, pol, declared, retries, s);
      out.answer.Answered? ==>
        out.next.log != [] && out.next.log[|out.next.log| - 1] == Replied(AckedSize(pol, declared, out.answer.count), true)
    decreases retries - s.tries, Unpolled(sc, s.st)
  {
    IterateTrace(sc, pol, declared, s);
    match Iterate(sc, pol, declared, s)
    case Accept(b, n, st) =>
    case Stall =>
    case Again(t, l, b, st) =>
      var w := InputWaiting(sc, st);
      if t < retries {
        assert Respond(sc, pol, declared, retries, s) == Respond(sc, pol, declared, retries, Loop(w.value, t, l, b, w.next));
        AnsweredAckSize(sc, pol, declared, retries, Loop(w.value, t, l, b, w.next));
      }
  }

  /** A terminal that has no ACK left to give: every attempt fails, so the
      send phase fails, after `retries` attempts. */
  lemma {:induction false} SilentTerminal(sc: Script, st: PortState, frame: seq<byte>, retries: nat, tries: nat)
    requires tries <= retries && |sc.acks| <= st.at.a
    ensures !Send(sc, st, frame, retries, tries).ok
    decreases retries - tries
  {
    var at := Attempt(sc, st, frame);
    if tries + 1 < retries {
      SilentTerminal(sc, at.next, frame, retries, tries + 1);
    }
  }

  // ---------------------------------------------------------------------
  // Both phases

  datatype Exchanged = Unsent | Sent(answer: Answer)

  datatype ExchangeOut = ExchangeOut(result: Exchanged, next: PortState)

  /** A command's handshake: the send phase with the message's frame and
      retries, then, if the request was acknowledged, the response phase
      with its responseSize. */
  function Exchange(sc: Script, st: PortState, m: Message, pol: Policy): (x: ExchangeOut)
    ensures x.result.Sent? && x.result.answer.Answered? ==>
      |x.result.answer.buffer| == m.responseSize && x.result.answer.count > 0
    ensures x.result == Sent(Diverged) ==> |sc.waits| <= x.next.at.p
  {
    var snd := Send(sc, st, m.payload, m.retries, 0);
    if !snd.ok then ExchangeOut(Unsent, snd.next)
    else
      var out := Responses(sc, snd.next, pol, m.responseSize, m.retries);
      ExchangeOut(Sent(out.answer), out.next)
  }

  method Run(port: Port, m: Message, pol: Policy) returns (result: Exchanged)
    modifies port
    ensures ExchangeOut(result, port.state) == Exchange(port.script, old(port.state), m, pol)
  {
    var sent, _ := SendPhase(port, m.payload, m.retries);
    if !sent {
      return Unsent;
    }
    var answer, _ := ResponsePhase(port, pol, m.responseSize, m.retries);
    result := Sent(answer);
  }

  /** The response phase opens with a poll, then only polls, reads and
      replies; it answers exactly when its last call was an accepted reply
      ACK, with no accepted one before. */
  lemma ResponsesTrace(sc: Script, st: PortState, pol: Policy, declared: nat, retries: nat)
    ensures var out := Responses(sc, st, pol, declared, retries);
      st.log <= out.next.log &&
      var d := Since(st, out.next.log);
      d != [] && d[0].Polled? && ResponseCalls(d) && AcceptOnlyLast(d)
      && (out.answer.Answered? <==> EndsAccepted(d))
  {
    var w := InputWaiting(sc, st);
    var s := Loop(w.value, 0, declared, Zeros(declared), w.next);
    RespondTrace(sc, pol, declared, retries, s);
    var out := Respond(sc, pol, declared, retries, s);
    var e := [Polled(w.value)];
    var d' := Since(w.next, out.next.log);
    SuffixAfter(st.log, e, out.next.log);
    assert Since(st, out.next.log) == e + d';
    ResponseCallsAppend(e, d');
    assert (e + d')[0] == Polled(w.value);
  }

  /** The response phase starts counting from zero, and the count it ends
      with is the number of empty reads and rejected reply ACKs it made; it
      gives up exactly when that number reaches `retries`. */
  lemma ResponsesFailures(sc: Script, st: PortState, pol: Policy, declared: nat, retries: nat)
    requires retries > 0
    ensures var out := Responses(sc, st, pol, declared, retries);
      st.log <= out.next.log
      && Failures(Since(st, out.next.log)) == out.tries <= retries
      && (out.answer.Exhausted? <==> out.tries == retries)
  {
    var w := InputWaiting(sc, st);
    var s := Loop(w.value, 0, declared, Zeros(declared), w.next);
    RespondFailures(sc, pol, declared, retries, s);
    var out := Respond(sc, pol, declared, retries, s);
    var e := [Polled(w.value)];
    SuffixAfter(st.log, e, out.next.log);
    assert Since(st, out.next.log) == e + Since(w.next, out.next.log);
    FailuresAppend(e, Since(w.next, out.next.log));
    SmallCounts(Polled(w.value), Polled(w.value));
  }

  /** How one handshake's calls split: the send phase's writes and ACK
      reads, then the response phase's calls. */
  predicate Handshake(frame: seq<byte>, result: Exchanged, sent: seq<Call>, answered: seq<Call>)
  {
    SendCalls(frame, sent) && AckOnlyLast(sent) && AckGated(frame, sent)
    && (result.Sent? <==> EndsAcked(sent))
    && (result.Unsent? ==> answered == [])
    && (result.Sent? ==>
          answered != [] && answered[0].Polled? && ResponseCalls(answered) && AcceptOnlyLast(answered)
          && (result.answer.Answered? <==> EndsAccepted(answered)))
  }

  /** The handshake's calls: first the send phase's writes and ACK reads,
      then, only if the last of those read an ACK, the response phase,
      opening with a poll and answering exactly when it ends with an
      accepted reply ACK. */
  lemma ExchangeTrace(sc: Script, st: PortState, m: Message, pol: Policy)
    ensures var x := Exchange(sc, st, m, pol);
      st.log <= x.next.log &&
      exists k :: |st.log| < k <= |x.next.log| &&
        Handshake(m.payload, x.result, x.next.log[|st.log|..k], x.next.log[k..])
  {
    var snd := Send(sc, st, m.payload, m.retries, 0);
    SendTrace(sc, st, m.payload, m.retries, 0);
    var k := |snd.next.log|;
    var x := Exchange(sc, st, m, pol);
    var sent := Since(st, snd.next.log);
    if snd.ok {
      ResponsesTrace(sc, snd.next, pol, m.responseSize, m.retries);
      var answered := Since(snd.next, x.next.log);
      SuffixAfter(st.log, sent, x.next.log);
      assert x.next.log[|st.log|..k] == sent;
      assert Handshake(m.payload, x.result, sent, answered);
    } else {
      assert x.next.log[|st.log|..k] == sent;
      assert Handshake(m.payload, x.result, sent, []);
    }
  }

  /** The send phase makes no read and no reply, so it never breaks the gating. */
  lemma SendGated(t: Threshold, frame: seq<byte>, log: seq<Call>, k: nat)
    requires k <= |log| && SendCalls(frame, log[k..])
    ensures GatedFrom(t, log, k)
  {
    forall i | k <= i < |log| - 1
      ensures Follows(t, log[i], log[i + 1])
    {
      assert log[i + 1] == log[k..][i + 1 - k];
    }
  }

  /** A poll may follow any call but a passing poll or a read that returned bytes. */
  lemma GatedPoll(t: Threshold, log: seq<Call>, k: nat, waiting: int)
    requires GatedFrom(t, log, k)
    requires k < |log| ==> var c := log[|log| - 1]; !(c.Polled? && Passes(t, c.waiting)) && !(c.ReadInto? && c.count > 0)
    ensures GatedFrom(t, log + [Polled(waiting)], k)
  {
    var l := log + [Polled(waiting)];
    forall i | k <= i < |l| - 1
      ensures Follows(t, l[i], l[i + 1])
    {
      if i + 1 < |log| {
        assert l[i] == log[i] && l[i + 1] == log[i + 1];
      }
    }
  }

  /** Over a whole handshake, a read only happens right after a poll that
      passed the command's threshold, and a reply ACK only right after a
      read that returned bytes. */
  lemma ExchangeGated(sc: Script, st: PortState, m: Message, pol: Policy)
    ensures var x := Exchange(sc, st, m, pol);
      st.log <= x.next.log && GatedFrom(pol.threshold, x.next.log, |st.log|)
  {
    var snd := Send(sc, st, m.payload, m.retries, 0);
    SendTrace(sc, st, m.payload, m.retries, 0);
    SendGated(pol.threshold, m.payload, snd.next.log, |st.log|);
    if snd.ok {
      var w := InputWaiting(sc, snd.next);
      GatedPoll(pol.threshold, snd.next.log, |st.log|, w.value);
      var s := Loop(w.value, 0, m.responseSize, Zeros(m.responseSize), w.next);
      RespondGated(sc, pol, m.responseSize, m.retries, s);
      var out := Respond(sc, pol, m.responseSize, m.retries, s);
      GatedExtend(pol.threshold, w.next.log, out.next.log, |st.log|, |w.next.log| - 1);
    }
  }

  /** An answered handshake ends with the accepted reply ACK, sized as the
      policy says. */
  lemma ExchangeAckSize(sc: Script, st: PortState, m: Message, pol: Policy)
    ensures var x := Exchange(sc, st, m, pol);
      x.result.Sent? && x.result.answer.Answered? ==>
        x.next.log != [] && x.next.log[|x.next.log| - 1] == Replied(AckedSize(pol, m.responseSize, x.result.answer.count), true)
  {
    var snd := Send(sc, st, m.payload, m.retries, 0);
    if snd.ok {
      var w := InputWaiting(sc, snd.next);
      AnsweredAckSize(sc, pol, m.responseSize, m.retries, Loop(w.value, 0, m.responseSize, Zeros(m.responseSize), w.next));
    }
  }

  /** With no ACK left in the script the request is never acknowledged and
      no response is waited for. */
  lemma SilentExchange(sc: Script, st: PortState, m: Message, pol: Policy)
    requires |sc.acks| <= st.at.a
    ensures Exchange(sc, st, m, pol).result == Unsent
  {
    SilentTerminal(sc, st, m.payload, m.retries, 0);
  }

  // ---------------------------------------------------------------------
  // The bytes of the answer

  /** The buffer after the reads among calls d, each laying the bytes it
      delivered over what the earlier ones left in buf. */
  function Filled(buf: seq<byte>, d: seq<Call>): (r: seq<byte>)
    ensures |r| == |buf|
  {
    if d == [] then buf
    else
      var b := Filled(buf, d[..|d| - 1]);
      var c := d[|d| - 1];
      if c.ReadInto? then Overlay(b, c.data, c.limit) else b
  }

  lemma FilledStep(buf: seq<byte>, d: seq<Call>, c: Call)
    ensures Filled(buf, d + [c]) == if c.ReadInto? then Overlay(Filled(buf, d), c.data, c.limit) else Filled(buf, d)
  {
    assert (d + [c])[..|d + [c]| - 1] == d;
  }

  /** Calls d end with a read and the accepted reply ACK right after it; the
      answer carries that read's count, and its buffer is what that read
      laid over the buffer the earlier reads of d left in buf. */
  predicate AnsweredBy(buf: seq<byte>, d: seq<Call>, answer: Answer)
  {
    answer.Answered? && |d| >= 2 && d[|d| - 2].ReadInto? && Accepts(d[|d| - 1])
    && answer.count == d[|d| - 2].count
    && answer.buffer == Overlay(Filled(buf, d[..|d| - 2]), d[|d| - 2].data, d[|d| - 2].limit)
  }

  /** A pass keeps the buffer equal to what the reads since position k of
      the log left in buf; a pass that answers does so with its own read. */
  lemma IterateFill(sc: Script, pol: Policy, declared: nat, s: Loop, k: nat, buf: seq<byte>)
    requires k <= |s.st.log| && s.buf == Filled(buf, s.st.log[k..])
    ensures var it := Iterate(sc, pol, declared, s);
      (it.Accept? ==> k <= |it.next.log| && AnsweredBy(buf, it.next.log[k..], Answered(it.buffer, it.count)))
      && (it.Again? ==> k <= |it.st.log| && it.buf == Filled(buf, it.st.log[k..]))
  {
    var d := s.st.log[k..];
    if Passes(pol.threshold, s.wait) {
      var rd := ReadBytes(sc, s.st, s.buf, s.limit);
      var n := rd.value.count;
      var r := ReadInto(s.limit, n, Incoming(sc, s.st).data);
      SliceAppend(s.st.log, r, k);
      FilledStep(buf, d, r);
      if n > 0 {
        var rp := ReplyAck(sc, rd.next, AckedSize(pol, declared, n));
        var y := Replied(AckedSize(pol, declared, n), rp.value);
        SliceAppend(rd.next.log, y, k);
        FilledStep(buf, d + [r], y);
        var e := d + [r] + [y];
        assert e[..|e| - 2] == d && e[|e| - 2] == r && e[|e| - 1] == y;
      }
    }
  }

  lemma {:induction false} RespondFill(sc: Script, pol: Policy, declared: nat, retries: nat, s: Loop, k: nat, buf: seq<byte>)
    requires s.tries <= retries && k <= |s.st.log| && s.buf == Filled(buf, s.st.log[k..])
    ensures var out := Respond(sc, pol, declared, retries, s);
      k <= |out.next.log| && (out.answer.Answered? ==> AnsweredBy(buf, out.next.log[k..], out.answer))
    decreases retries - s.tries, Unpolled(sc, s.st)
  {
    var it := Iterate(sc, pol, declared, s);
    IterateFill(sc, pol, declared, s, k, buf);
    if it.Again? {
      var w := InputWaiting(sc, it.st);
      SliceAppend(it.st.log, Polled(w.value), k);
      FilledStep(buf, it.st.log[k..], Polled(w.value));
      if it.tries < retries {
        assert Respond(sc, pol, declared, retries, s) == Respond(sc, pol, declared, retries, Loop(w.value, it.tries, it.limit, it.buf, w.next));
        RespondFill(sc, pol, declared, retries, Loop(w.value, it.tries, it.limit, it.buf, w.next), k, buf);
      }
    }
  }

  /** Calls that include no read leave the buffer as it was. */
  lemma {:induction false} NoReadsKeepBuffer(buf: seq<byte>, d: seq<Call>)
    requires forall i :: 0 <= i < |d| ==> !d[i].ReadInto?
    ensures Filled(buf, d) == buf
  {
    if d != [] {
      NoReadsKeepBuffer(buf, d[..|d| - 1]);
    }
  }

  /** An answered handshake hands back the buffer its accepted read filled:
      the calls end with that read and the accepted reply ACK, the answer
      carries the read's count, and its buffer is the fresh one of
      responseSize bytes with the handshake's earlier reads and then the
      accepted one laid over it. */
  lemma ExchangeAnswer(sc: Script, st: PortState, m: Message, pol: Policy)
    ensures var x := Exchange(sc, st, m, pol);
      |st.log| <= |x.next.log| &&
      (x.result.Sent? && x.result.answer.Answered? ==>
         AnsweredBy(Zeros(m.responseSize), x.next.log[|st.log|..], x.result.answer))
  {
    var snd := Send(sc, st, m.payload, m.retries, 0);
    SendTrace(sc, st, m.payload, m.retries, 0);
    if snd.ok {
      var e := Since(st, snd.next.log);
      var w := InputWaiting(sc, snd.next);
      SliceAppend(snd.next.log, Polled(w.value), |st.log|);
      NoReadsKeepBuffer(Zeros(m.responseSize), e + [Polled(w.value)]);
      var s := Loop(w.value, 0, m.responseSize, Zeros(m.responseSize), w.next);
      RespondFill(sc, pol, m.responseSize, m.retries, s, |st.log|, Zeros(m.responseSize));
    }
  }

  // ---------------------------------------------------------------------
  // The responseSize each read asks for

  /** The responseSize in force after the calls d of a handshake: the
      declared one, except that under RecordActual each read that returned
      bytes replaces it with its count. */
  function LimitAfter(pol: Policy, declared: nat, d: seq<Call>): nat
  {
    if d == [] then declared
    else
      var c := d[|d| - 1];
      if pol.ackSize == RecordActual && c.ReadInto? && c.count > 0 then c.count as nat
      else LimitAfter(pol, declared, d[..|d| - 1])
  }

  /** Every read of d asked for the responseSize in force when it was made. */
  predicate LimitsKept(pol: Policy, declared: nat, d: seq<Call>)
    decreases |d|
  {
    d == [] ||
      (LimitsKept(pol, declared, d[..|d| - 1])
       && (d[|d| - 1].ReadInto? ==> d[|d| - 1].limit == LimitAfter(pol, declared, d[..|d| - 1])))
  }

  lemma LimitsStep(pol: Policy, declared: nat, d: seq<Call>, c: Call)
    ensures LimitsKept(pol, declared, d + [c])
      == (LimitsKept(pol, declared, d) && (c.ReadInto? ==> c.limit == LimitAfter(pol, declared, d)))
    ensures LimitAfter(pol, declared, d + [c])
      == if pol.ackSize == RecordActual && c.ReadInto? && c.count > 0 then c.count as nat
         else LimitAfter(pol, declared, d)
  {
    assert (d + [c])[..|d + [c]| - 1] == d;
  }

  /** A pass asks for the responseSize in force and leaves the one the next
      pass must use; the calls are counted from position k of the log. */
  lemma IterateLimits(sc: Script, pol: Policy, declared: nat, s: Loop, k: nat)
    requires k <= |s.st.log|
    requires LimitsKept(pol, declared, s.st.log[k..]) && s.limit == LimitAfter(pol, declared, s.st.log[k..])
    ensures var it := Iterate(sc, pol, declared, s);
      (it.Accept? ==> k <= |it.next.log| && LimitsKept(pol, declared, it.next.log[k..]))
      && (it.Again? ==>
            (k <= |it.st.log| && LimitsKept(pol, declared, it.st.log[k..])
             && it.limit == LimitAfter(pol, declared, it.st.log[k..])))
  {
    var d := s.st.log[k..];
    if Passes(pol.threshold, s.wait) {
      var rd := ReadBytes(sc, s.st, s.buf, s.limit);
      var n := rd.value.count;
      var r := ReadInto(s.limit, n, Incoming(sc, s.st).data);
      SliceAppend(s.st.log, r, k);
      ReadLimits(pol, declared, d, s.limit, n, r.data);
      if n > 0 {
        var rp := ReplyAck(sc, rd.next, AckedSize(pol, declared, n));
        var y := Replied(AckedSize(pol, declared, n), rp.value);
        SliceAppend(rd.next.log, y, k);
        QuietLimits(pol, declared, d + [r], y);
      }
    }
  }

  /** A pass and the poll that closes it keep the limits, and leave the
      responseSize the next pass uses. */
  lemma PassLimits(sc: Script, pol: Policy, declared: nat, s: Loop, k: nat)
    requires k <= |s.st.log|
    requires LimitsKept(pol, declared, s.st.log[k..]) && s.limit == LimitAfter(pol, declared, s.st.log[k..])
    ensures var it := Iterate(sc, pol, declared, s);
      (it.Accept? ==> k <= |it.next.log| && LimitsKept(pol, declared, it.next.log[k..]))
      && (it.Again? ==>
            var w := InputWaiting(sc, it.st);
            k <= |w.next.log| && LimitsKept(pol, declared, w.next.log[k..])
            && it.limit == LimitAfter(pol, declared, w.next.log[k..])
            && k <= |it.st.log| && LimitsKept(pol, declared, it.st.log[k..]))
  {
    var it := Iterate(sc, pol, declared, s);
    IterateLimits(sc, pol, declared, s, k);
    if it.Again? {
      var w := InputWaiting(sc, it.st);
      SliceAppend(it.st.log, Polled(w.value), k);
      QuietLimits(pol, declared, it.st.log[k..], Polled(w.value));
    }
  }

  /** A read asks for the size in force, and leaves the next one. */
  lemma ReadLimits(pol: Policy, declared: nat, d: seq<Call>, limit: nat, n: int, data: seq<byte>)
    requires LimitsKept(pol, declared, d) && limit == LimitAfter(pol, declared, d)
    ensures LimitsKept(pol, declared, d + [ReadInto(limit, n, data)])
    ensures LimitAfter(pol, declared, d + [ReadInto(limit, n, data)]) == if n > 0 then NextLimit(pol, limit, n) else limit
  {
    LimitsStep(pol, declared, d, ReadInto(limit, n, data));
  }

  /** A call that is not a read changes nothing. */
  lemma QuietLimits(pol: Policy, declared: nat, d: seq<Call>, c: Call)
    requires !c.ReadInto? && LimitsKept(pol, declared, d)
    ensures LimitsKept(pol, declared, d + [c]) && LimitAfter(pol, declared, d + [c]) == LimitAfter(pol, declared, d)
  {
    LimitsStep(pol, declared, d, c);
  }

  lemma SliceAppend(log: seq<Call>, c: Call, k: nat)
    requires k <= |log|
    ensures (log + [c])[k..] == log[k..] + [c]
  {
  }

  lemma {:induction false} RespondLimits(sc: Script, pol: Policy, declared: nat, retries: nat, s: Loop, k: nat)
    requires s.tries <= retries && k <= |s.st.log|
    requires LimitsKept(pol, declared, s.st.log[k..]) && s.limit == LimitAfter(pol, declared, s.st.log[k..])
    ensures var out := Respond(sc, pol, declared, retries, s);
      k <= |out.next.log| && LimitsKept(pol, declared, out.next.log[k..])
    decreases retries - s.tries, Unpolled(sc, s.st)
  {
    var it := Iterate(sc, pol, declared, s);
    PassLimits(sc, pol, declared, s, k);
    if it.Again? && it.tries < retries {
      var w := InputWaiting(sc, it.st);
      assert Respond(sc, pol, declared, retries, s) == Respond(sc, pol, declared, retries, Loop(w.value, it.tries, it.limit, it.buf, w.next));
      RespondLimits(sc, pol, declared, retries, Loop(w.value, it.tries, it.limit, it.buf, w.next), k);
    }
  }

  /** Calls that include no read keep the declared responseSize. */
  lemma {:induction false} NoReadsKeepLimit(pol: Policy, declared: nat, d: seq<Call>)
    requires forall i :: 0 <= i < |d| ==> !d[i].ReadInto?
    ensures LimitsKept(pol, declared, d) && LimitAfter(pol, declared, d) == declared
  {
    if d != [] {
      NoReadsKeepLimit(pol, declared, d[..|d| - 1]);
    }
  }

  /** Over a whole handshake each read asks for the responseSize in force. */
  lemma ExchangeLimits(sc: Script, st: PortState, m: Message, pol: Policy)
    ensures var x := Exchange(sc, st, m, pol);
      |st.log| <= |x.next.log| && LimitsKept(pol, m.responseSize, x.next.log[|st.log|..])
  {
    var snd := Send(sc, st, m.payload, m.retries, 0);
    SendTrace(sc, st, m.payload, m.retries, 0);
    var e := Since(st, snd.next.log);
    if snd.ok {
      var w := InputWaiting(sc, snd.next);
      SliceAppend(snd.next.log, Polled(w.value), |st.log|);
      NoReadsKeepLimit(pol, m.responseSize, e + [Polled(w.value)]);
      var s := Loop(w.value, 0, m.responseSize, Zeros(m.responseSize), w.next);
      RespondLimits(sc, pol, m.responseSize, m.retries, s, |st.log|);
    } else {
      NoReadsKeepLimit(pol, m.responseSize, e);
    }
  }

  /** Each read of calls whose limits were kept asked for the responseSize
      in force just before it. */
  lemma {:induction false} KeptLimitsAt(pol: Policy, declared: nat, d: seq<Call>)
    requires LimitsKept(pol, declared, d)
    ensures forall i :: 0 <= i < |d| && d[i].ReadInto? ==> d[i].limit == LimitAfter(pol, declared, d[..i])
  {
    if d != [] {
      var d' := d[..|d| - 1];
      KeptLimitsAt(pol, declared, d');
      assert forall i :: 0 <= i < |d'| ==> d[i] == d'[i] && d[..i] == d'[..i];
    }
  }

  /** The count of the last read among d that returned bytes, or the
      declared size when none did. */
  function LastCount(declared: nat, d: seq<Call>): nat
  {
    if d == [] then declared
    else if d[|d| - 1].ReadInto? && d[|d| - 1].count > 0 then d[|d| - 1].count as nat
    else LastCount(declared, d[..|d| - 1])
  }

  /** With RecordActual the responseSize in force is the last count stored back. */
  lemma {:induction false} RecordedIsLastCount(pol: Policy, declared: nat, d: seq<Call>)
    requires pol.ackSize == RecordActual
    ensures LimitAfter(pol, declared, d) == LastCount(declared, d)
  {
    if d != [] {
      RecordedIsLastCount(pol, declared, d[..|d| - 1]);
    }
  }

  /** Without RecordActual the responseSize never changes. */
  lemma {:induction false} FixedLimit(pol: Policy, declared: nat, d: seq<Call>)
    requires pol.ackSize != RecordActual
    ensures LimitAfter(pol, declared, d) == declared
  {
    if d != [] {
      FixedLimit(pol, declared, d[..|d| - 1]);
    }
  }
}
