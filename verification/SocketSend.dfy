/** A whole send, poll after poll, with interrupts and any other calls in between. */
module SocketSend {
  import opened Bytes
  import opened Lines
  import opened Urc
  import opened Transmit
  import opened Dialogue
  import opened Socket
  import opened SocketRuns
  import opened SocketHistory
  import opened SocketCalls

  /** What the modem must receive for a payload. */
  function CommandText(buf: seq<byte>): seq<byte> {
    "AT+QISEND=0," + Decimal(|buf|) + "\r\n"
  }

  function WholeSend(buf: seq<byte>): seq<byte> {
    CommandText(buf) + buf + ['\U{1A}']
  }

  /** A prompt was consumed at or after position `from` and before position `to`. */
  ghost predicate PromptTaken(s: seq<byte>, from: nat, to: nat) {
    exists p | from <= p < to :: p < |s| && s[p] == '>'
  }

  /**
   Progress of a send that started in state s0 with an empty transmitter: the command accepted
   and no payload byte; or all of it, after the prompt.
   */
  ghost predicate Progress(s0: Sys, buf: seq<byte>, s: Sys) {
    var sent, wire := s.link.tx.All(), s0.link.tx.wire;
    && Within(s, Sending) && s.state == Connected && NoResidue(s.link.tx)
    && s0.link.taken <= s.link.taken
    && if s.step == 0 then sent == wire + CommandText(buf)
       else s.step == 1 && sent == wire + WholeSend(buf)
            && PromptTaken(s.link.received, s0.link.taken, s.link.taken)
  }

  /** Every send poll passes this buffer; other calls are free. */
  predicate SameBuffer(es: seq<Event>, buf: seq<byte>) {
    forall i | 0 <= i < |es| :: es[i].Send? ==> es[i].buf == buf
  }

  /** A run within the send of this buffer. */
  ghost predicate Sends(s: Sys, es: seq<Event>, buf: seq<byte>) {
    Feasible(s, es) && Stays(s, es, Sending) && SameBuffer(es, buf)
  }

  lemma SendInitAccepts(l: Link, buf: seq<byte>)
    requires SendInit(l, |buf|).code == 0
    ensures var r := SendInit(l, |buf|);
            r.link == l.(tx := r.link.tx) && r.link.tx.All() == l.tx.All() + CommandText(buf) && r.link.tx.ongoing
  {
    ShortCommands(|buf|);
    CommandAccepted(l.tx, SendCommand(|buf|));
  }

  lemma AppendAll(t: Tx, data: seq<byte>)
    ensures Append(t, data).ok ==> Append(t, data).tx.All() == t.All() + data && !Append(t, data).tx.ongoing
  {
    assert t.wire + (t.queued + data) == t.wire + t.queued + data;
  }

  /** The payload goes out only when a poll consumes the prompt, and then at once. */
  lemma PromptStep(l: Link, buf: seq<byte>)
    requires l.Ok() && NoResidue(l.tx)
    ensures var r := SendContinue(l, 0, buf);
            && r.code != 0 && r.link.Ok() && l.taken <= r.link.taken && r.link.received == l.received
            && (r.code > 0 && r.step == 0 ==> r.link.tx == l.tx)
            && (r.code > 0 && r.step != 0 ==>
                  && r.step == 1 && r.link.tx.All() == l.tx.All() + buf + [CTRL_Z] && r.link.tx.ongoing
                  && PromptTaken(l.received, l.taken, r.link.taken))
  {
    var b := Bol(l.received, l.taken);
    SendContinueOk(l, 0, buf);
    if b < |l.received| && l.received[b] == '>' {
      AppendAll(l.tx, buf);
      AppendAll(Append(l.tx, buf).tx, [CTRL_Z]);
      assert PromptTaken(l.received, l.taken, b + 1);
    }
  }

  lemma SentTable(line: seq<byte>)
    ensures Lookup(SENT, line, -1) == if line == "SEND OK" then 0 else if line == " " then 1 else -1
  {
    var rest := SENT[1..];
    assert rest == [Response(" ", 1)] && rest[1..] == [];
    assert Lookup(rest, line, -1) == if line == " " then 1 else -1;
  }

  /** The send ends with success only by consuming a line SEND OK. */
  lemma ConfirmStep(l: Link, buf: seq<byte>)
    requires l.Ok()
    ensures var r := SendContinue(l, 1, buf);
            && r.step == 1 && r.link == l.(taken := r.link.taken) && r.link.Ok() && l.taken <= r.link.taken
            && (r.code == 0 ==> NextLine(l.received, l.taken, "SEND OK", r.link.taken))
  {
    var b := Bol(l.received, l.taken);
    var e := Eol(l.received, b);
    SentTable(l.received[b..e]);
    LineAt(l.received, l.taken);
  }

  lemma PromptStaysTaken(s: seq<byte>, t: seq<byte>, from: nat, to: nat, to': nat)
    requires PromptTaken(s, from, to) && to <= to'
    ensures PromptTaken(s + t, from, to')
  {
    var p :| from <= p < to && p < |s| && s[p] == '>';
    assert (s + t)[p] == '>';
  }

  /** The send does not see bytes that come, go or are drained. */
  lemma ProgressStays(s0: Sys, buf: seq<byte>, s: Sys, s': Sys, t: seq<byte>)
    requires Progress(s0, buf, s) && s' == s.(link := s'.link) && s'.link.Ok()
    requires s'.link.received == s.link.received + t && s.link.taken <= s'.link.taken
    requires s'.link.tx.All() == s.link.tx.All() && NoResidue(s'.link.tx)
    ensures Progress(s0, buf, s')
  {
    if s.step == 1 { PromptStaysTaken(s.link.received, t, s0.link.taken, s.link.taken, s'.link.taken); }
  }

  lemma InterruptKeepsProgress(s0: Sys, buf: seq<byte>, s: Sys, e: Event)
    requires Progress(s0, buf, s) && Enabled(s, e) && IsInterrupt(e)
    ensures Progress(s0, buf, Step(s, e).sys)
  {
    if e.TxDone? {
      assert s.link.received + [] == s.link.received;
      CompleteKeepsAll(s.link.tx);
      ProgressStays(s0, buf, s, Step(s, e).sys, []);
    } else {
      ProgressStays(s0, buf, s, Step(s, e).sys, [e.b]);
    }
  }

  /** A first poll that is accepted begins the send. */
  lemma FirstStep(s0: Sys, buf: seq<byte>)
    requires s0.Ok() && s0.used && s0.state == Connected && s0.op == NoOp
    requires !s0.link.tx.ongoing && s0.link.tx.queued == [] && NetSend(s0, buf).code == InProgress
    ensures Progress(s0, buf, NetSend(s0, buf).sys) && |buf| <= 1460
  {
    assert s0.link.tx.wire + [] == s0.link.tx.wire;
    SendInitAccepts(s0.link, buf);
  }

  lemma PromptKeepsProgress(s0: Sys, buf: seq<byte>, s: Sys)
    requires Progress(s0, buf, s) && s.step == 0 && |buf| <= 1460 && Within(NetSend(s, buf).sys, Sending)
    ensures Progress(s0, buf, NetSend(s, buf).sys)
  {
    PromptStep(s.link, buf);
    var s' := NetSend(s, buf).sys;
    if s'.step == 1 {
      assert s0.link.tx.wire + CommandText(buf) + buf + [CTRL_Z] == s0.link.tx.wire + WholeSend(buf);
      assert s.link.received + [] == s.link.received;
    }
  }

  lemma ConfirmKeepsProgress(s0: Sys, buf: seq<byte>, s: Sys)
    requires Progress(s0, buf, s) && s.step == 1 && |buf| <= 1460 && Within(NetSend(s, buf).sys, Sending)
    ensures Progress(s0, buf, NetSend(s, buf).sys)
  {
    ConfirmStep(s.link, buf);
    assert s.link.received + [] == s.link.received;
    ProgressStays(s0, buf, s, NetSend(s, buf).sys, []);
  }

  /** A close that is refused flushes what has been received and leaves the transmitter as it was. */
  lemma CloseKeepsProgress(s0: Sys, buf: seq<byte>, s: Sys)
    requires Progress(s0, buf, s) && Within(NetShutdown(s).sys, Sending)
    ensures Progress(s0, buf, NetShutdown(s).sys)
  {
    CloseInitExact(s.link);
    assert s.link.received + [] == s.link.received;
    ProgressStays(s0, buf, s, NetShutdown(s).sys, []);
  }

  lemma StepKeepsProgress(s0: Sys, buf: seq<byte>, s: Sys, e: Event)
    requires Progress(s0, buf, s) && |buf| <= 1460 && Enabled(s, e) && (e.Send? ==> e.buf == buf)
    requires Within(Step(s, e).sys, Sending)
    ensures Progress(s0, buf, Step(s, e).sys)
  {
    if IsInterrupt(e) {
      InterruptKeepsProgress(s0, buf, s, e);
    } else {
      match e
      case Send(_) =>
        if s.step == 0 {
          PromptKeepsProgress(s0, buf, s);
        } else {
          ConfirmKeepsProgress(s0, buf, s);
        }
      case Shutdown => CloseKeepsProgress(s0, buf, s);
      case Close => CloseKeepsProgress(s0, buf, s);
      case _ =>
    }
  }

  /**
   As long as a send is in progress, no payload byte is handed to the transmitter before a
   prompt has been consumed, whatever else is called in between.
   */
  lemma {:induction false} PayloadAfterPrompt(s0: Sys, buf: seq<byte>, s: Sys, es: seq<Event>)
    requires Progress(s0, buf, s) && |buf| <= 1460 && Sends(s, es, buf)
    ensures Progress(s0, buf, Run(s, es))
    decreases |es|
  {
    if es == [] {
    } else {
      assert Stays(Step(s, es[0]).sys, es[1..], Sending);
      StepKeepsProgress(s0, buf, s, es[0]);
      PayloadAfterPrompt(s0, buf, Step(s, es[0]).sys, es[1..]);
    }
  }

  /**
   Send correctness. On a connected idle socket with an empty idle transmitter, let a first
   poll begin a send and further polls with the same buffer end it with 0, anything else
   happening in between. Then exactly the command with the decimal length, the buffer and
   Ctrl-Z were handed over or are queued behind what was sent before; a prompt was consumed
   after the first poll and a line SEND OK after the prompt; the count returned is the length
   of the buffer.
   */
  lemma SendCorrect(s0: Sys, buf: seq<byte>, es: seq<Event>)
    requires s0.Ok() && s0.used && s0.state == Connected && s0.op == NoOp
    requires !s0.link.tx.ongoing && s0.link.tx.queued == []
    requires NetSend(s0, buf).code == InProgress && Sends(NetSend(s0, buf).sys, es, buf)
    requires var s := Run(NetSend(s0, buf).sys, es); s.Ok() && NetSend(s, buf).code == Done
    ensures var s := Run(NetSend(s0, buf).sys, es);
            var r := NetSend(s, buf);
            && r.sys.link.tx.All() == s0.link.tx.wire + WholeSend(buf)
            && r.sent == Some(|buf|) && |buf| <= 1460
            && PromptTaken(s.link.received, s0.link.taken, s.link.taken)
            && NextLine(s.link.received, s.link.taken, "SEND OK", r.sys.link.taken)
  {
    FirstStep(s0, buf);
    var s1 := NetSend(s0, buf).sys;
    PayloadAfterPrompt(s0, buf, s1, es);
    var s := Run(s1, es);
    PromptStep(s.link, buf);
    ConfirmStep(s.link, buf);
  }

  /** And the completion interrupts then put exactly these bytes on the wire. */
  lemma {:induction false} SendReachesWire(t: Tx)
    requires NoResidue(t)
    ensures Completions(t, |t.queued| + 1) == Tx(t.All(), [], false)
    decreases |t.queued|
  {
    if !t.ongoing {
      assert t.wire + [] == t.wire;
    } else if t.queued == [] {
      assert Completions(Complete(t), 0) == Complete(t);
      assert t.wire + [] == t.wire;
    } else {
      CompleteKeepsAll(t);
      SendReachesWire(Complete(t));
    }
  }

  // ---- a send that succeeds ------------------------------------------------------------------

  lemma SendsConcat(s: Sys, es: seq<Event>, fs: seq<Event>, buf: seq<byte>)
    requires Sends(s, es, buf) && Sends(Run(s, es), fs, buf)
    ensures Sends(s, es + fs, buf) && Run(s, es + fs) == Run(Run(s, es), fs)
  {
    RunConcat(s, es, fs);
    StaysConcat(s, es, fs, Sending);
  }

  lemma {:induction false} InterruptsStay(s: Sys, es: seq<Event>, op: Op)
    requires Within(s, op) && Feasible(s, es) && AllInterrupts(es)
    ensures Stays(s, es, op)
    decreases |es|
  {
    if es == [] {
    } else {
      assert IsInterrupt(es[0]);
      InterruptsStay(Step(s, es[0]).sys, es[1..], op);
    }
  }

  lemma FirstPoll(s: Sys, buf: seq<byte>)
    requires s.Ok() && s.state == Connected && s.op == NoOp && |buf| <= 1460
    requires !s.link.tx.ongoing && s.link.tx.queued == []
    ensures var r := NetSend(s, buf);
            && r.code == InProgress && r.sys.op == Sending && r.sys.step == 0
            && r.sys.state == Connected && r.sys.used == s.used
            && r.sys.link == s.link.(tx := r.sys.link.tx) && NoResidue(r.sys.link.tx)
  {
    ShortCommands(|buf|);
    CommandAccepted(s.link.tx, SendCommand(|buf|));
  }

  lemma PromptedPoll(s: Sys, before: seq<byte>, buf: seq<byte>)
    requires s.Ok() && s.state == Connected && s.op == Sending && s.step == 0 && |buf| <= 1460
    requires !s.link.tx.ongoing && s.link.tx.queued == []
    requires s.link.received == before + ['>'] && s.link.taken == |before|
    ensures var r := NetSend(s, buf);
            && r.code == InProgress && r.sys.op == Sending && r.sys.step == 1 && r.sys.state == Connected
            && r.sys.used == s.used && r.sys.Ok() && r.sys.link.queue == s.link.queue
            && r.sys.link.received == s.link.received && r.sys.link.taken == |s.link.received|
  {
    BolIs(s.link.received, |before|, |before|);
  }

  lemma ConfirmedPoll(s: Sys, before: seq<byte>, buf: seq<byte>)
    requires s.Ok() && s.state == Connected && s.op == Sending && s.step == 1 && |buf| <= 1460
    requires s.link.received == before + "SEND OK\r" && s.link.taken == |before|
    ensures NetSend(s, buf).code == Done
  {
    var r, n := s.link.received, |before|;
    BolIs(r, n, n);
    EolIs(r, n, n + 7);
    assert r[n..n + 7] == "SEND OK";
    SentTable("SEND OK");
  }

  lemma ThenInterrupts(s: Sys, es: seq<Event>, fs: seq<Event>, buf: seq<byte>)
    requires Sends(s, es, buf) && AllInterrupts(fs) && Feasible(Run(s, es), fs)
    ensures Sends(s, es + fs, buf) && Run(s, es + fs) == Run(Run(s, es), fs)
  {
    StaysToTheEnd(s, es, Sending);
    InterruptsStay(Run(s, es), fs, Sending);
    forall i | 0 <= i < |fs| ensures !fs[i].Send? {
      assert IsInterrupt(fs[i]);
    }
    SendsConcat(s, es, fs, buf);
  }

  lemma ThenArrivals(s: Sys, es: seq<Event>, bs: seq<byte>, buf: seq<byte>) returns (es': seq<Event>)
    requires Sends(s, es, buf) && Run(s, es).Ok()
    ensures Sends(s, es', buf)
    ensures var m := Run(s, es); Run(s, es') == m.(link := m.link.(received := m.link.received + bs))
  {
    ArrivalsRun(Run(s, es), bs);
    ThenInterrupts(s, es, Arrivals(bs), buf);
    es' := es + Arrivals(bs);
  }

  lemma ThenPoll(s: Sys, es: seq<Event>, buf: seq<byte>) returns (es': seq<Event>)
    requires Sends(s, es, buf) && Within(Run(s, es), Sending) && Within(NetSend(Run(s, es), buf).sys, Sending)
    ensures Sends(s, es', buf) && Run(s, es') == NetSend(Run(s, es), buf).sys
  {
    StaysOne(Run(s, es), Send(buf), Sending);
    SendsConcat(s, es, [Send(buf)], buf);
    es' := es + [Send(buf)];
  }

  lemma ThenDrain(s: Sys, es: seq<Event>, buf: seq<byte>) returns (es': seq<Event>)
    requires Sends(s, es, buf) && Run(s, es).Ok() && NoResidue(Run(s, es).link.tx)
    ensures Sends(s, es', buf)
    ensures var m := Run(s, es); Run(s, es') == m.(link := m.link.(tx := Tx(m.link.tx.All(), [], false)))
  {
    var m := Run(s, es);
    SendReachesWire(m.link.tx);
    var drain := CompletionsRun(m, |m.link.tx.queued| + 1);
    ThenInterrupts(s, es, drain, buf);
    es' := es + drain;
  }

  /** A modem that answers the command with a prompt: the payload is on its way. */
  lemma PromptAnswered(s: Sys, buf: seq<byte>) returns (es: seq<Event>)
    requires s.Ok() && s.used && s.state == Connected && s.op == NoOp && |buf| <= 1460
    requires !s.link.tx.ongoing && s.link.tx.queued == [] && s.link.taken == |s.link.received|
    ensures NetSend(s, buf).code == InProgress && Sends(NetSend(s, buf).sys, es, buf)
    ensures var m := Run(NetSend(s, buf).sys, es);
            && Within(m, Sending) && m.state == Connected && m.step == 1
            && m.link.received == s.link.received + ['>'] && m.link.taken == |m.link.received|
            && m.link.queue == s.link.queue
  {
    FirstPoll(s, buf);
    var s1 := NetSend(s, buf).sys;
    es := ThenDrain(s1, [], buf);
    es := ThenArrivals(s1, es, ['>'], buf);
    PromptedPoll(Run(s1, es), s.link.received, buf);
    es := ThenPoll(s1, es, buf);
  }

  /**
   Success is possible for every buffer that fits: with an answering modem, the polls of a
   send on an idle connected socket reach 0.
   */
  lemma SendCanSucceed(s: Sys, buf: seq<byte>) returns (es: seq<Event>)
    requires s.Ok() && s.used && s.state == Connected && s.op == NoOp && |buf| <= 1460
    requires !s.link.tx.ongoing && s.link.tx.queued == [] && s.link.taken == |s.link.received|
    ensures NetSend(s, buf).code == InProgress && Sends(NetSend(s, buf).sys, es, buf)
    ensures var m := Run(NetSend(s, buf).sys, es); m.Ok() && NetSend(m, buf).code == Done
  {
    es := PromptAnswered(s, buf);
    var s1 := NetSend(s, buf).sys;
    var before := Run(s1, es).link.received;
    es := ThenArrivals(s1, es, "SEND OK\r", buf);
    ConfirmedPoll(Run(s1, es), before, buf);
  }
}
