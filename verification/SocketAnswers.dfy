/**
 What every call of the socket answers, in every state, in terms of the bytes received: the
 return code, what is consumed, and the state afterwards.
 */
module SocketAnswers {
  import opened Bytes
  import opened Lines
  import opened Urc
  import opened Transmit
  import opened Dialogue
  import opened Socket
  import opened SocketHistory
  import opened SocketSend
  import opened SocketTeardown

  // ---- create ------------------------------------------------------------------------------

  lemma CreateAnswer(s: Sys, inet6Only: bool)
    ensures var r := NetCreate(s, inet6Only);
            && (r.code == Failed <==> s.used)
            && (r.code == NotSupported <==> !s.used && inet6Only)
            && (r.code == Done <==> !s.used && !inet6Only)
            && (r.code != Done ==> r.sys == s)
            && (r.code == Done ==> r.sys == s.(used := true, state := Closed, op := NoOp))
  {
  }

  // ---- connect -----------------------------------------------------------------------------

  /** A connect begins exactly if its command can be queued; while another operation is pending it is refused. */
  lemma ConnectBegins(s: Sys, host: seq<byte>, port: seq<byte>)
    requires s.Ok() && s.op != Connecting
    ensures var r, t := NetConnect(s, host, port), s.link.tx;
            && (r.code == InProgress <==>
                  s.op == NoOp && !t.ongoing && |t.queued| + |host| + |port| + 29 <= 1715)
            && (r.code != InProgress ==> r.code == Failed && r.sys.op == s.op)
            && (r.code == InProgress ==> r.sys.op == Connecting && r.sys.step == 0)
            && r.sys.state == s.state && (s.op != NoOp ==> r.sys == s)
            && (s.op == NoOp ==> r.sys.link == s.link.(taken := |s.link.received|, tx := r.sys.link.tx))
  {
    OpenCommandLength(host, port);
    CommandAccepted(s.link.tx, OpenCommand(host, port));
  }

  /** First the line OK, then the line +QIOPEN: 0,0; any other line refuses the connect. */
  lemma ConnectAnswer(s: Sys, host: seq<byte>, port: seq<byte>)
    requires s.Ok() && s.op == Connecting && (s.step == 0 || s.step == 1)
    ensures var r, w, i := NetConnect(s, host, port), s.link.received, s.link.taken;
            && (r.code == Done <==> s.step == 1 && LineIs(w, i, "+QIOPEN: 0,0"))
            && (r.code == InProgress <==> !LineWaits(w, i) || (s.step == 0 && LineIs(w, i, "OK")))
            && (r.code == Failed <==>
                  LineWaits(w, i) && !LineIs(w, i, if s.step == 0 then "OK" else "+QIOPEN: 0,0"))
            && r.sys.op == (if r.code == InProgress then Connecting else NoOp)
            && r.sys.step == (if s.step == 0 && LineIs(w, i, "OK") then 1 else s.step)
            && r.sys.state == (if r.code == Done then Connected else s.state)
            && r.sys.link == s.link.(taken := AfterLine(w, i))
  {
    var w, b := s.link.received, Bol(s.link.received, s.link.taken);
    TableCodes(w[b..Eol(w, b)]);
  }

  // ---- send --------------------------------------------------------------------------------

  /** The guards, in their order. */
  lemma SendRefused(s: Sys, buf: seq<byte>)
    requires s.Ok()
    ensures var r := NetSend(s, buf);
            && (s.state != Connected ==> r == Returns(Failed, s))
            && (s.state == Connected && |buf| > 1460 ==> r == Returns(MsgSize, s))
            && (r.code == MsgSize <==> s.state == Connected && |buf| > 1460)
            && (s.state == Connected && |buf| <= 1460 && s.op != NoOp && s.op != Sending ==> r == Returns(Failed, s))
            && (r.code == InProgress ==> r.sys.op == Sending)
            && (r.code == Done <==> r.sent == Some(|buf|)) && (r.code != Done ==> r.sent == None)
  {
  }

  /** A send of any length up to 1460 begins exactly if its command can be queued. */
  lemma SendBegins(s: Sys, buf: seq<byte>)
    requires s.Ok() && s.state == Connected && s.op == NoOp && |buf| <= 1460
    ensures var r, t := NetSend(s, buf), s.link.tx;
            && (r.code == InProgress <==> !t.ongoing && |t.queued| + |CommandText(buf)| <= 1715)
            && (r.code != InProgress ==> r.code == Failed)
            && r.sys.link == s.link.(tx := r.sys.link.tx) && r.sys.state == Connected && r.sys.used == s.used
            && (r.code == InProgress ==> r.sys.op == Sending && r.sys.step == 0)
            && (r.code == Failed ==> r.sys.op == NoOp)
  {
    ShortCommands(|buf|);
    CommandAccepted(s.link.tx, SendCommand(|buf|));
  }

  /** The handler reports an error exactly for a bad recv line and for a datagram it drops. */
  predicate HandlerFails(s: seq<byte>, i: nat, q: seq<Datagram>)
    requires i <= |s|
  {
    var d := Decide(s, i);
    || d.Reject?
    || (d.Frame?
        && (d.next - d.body == 1500 || |q| >= 15 || d.next - d.body > 1500 - |Concat(q)|))
  }

  /** Payload and Ctrl-Z go out together or the send fails. */
  lemma TransmissionExact(l: Link, buf: seq<byte>)
    ensures var r := Transmission(l, buf);
            && (r.code == 1 <==> !l.tx.ongoing && |l.tx.queued| + |buf| + 1 <= 1715)
            && (r.code != 1 ==> r.code == -1) && r.step == (if r.code == 1 then 1 else 0)
            && r.link == l.(tx := r.link.tx)
  {
  }

  lemma PromptReply(l: Link, buf: seq<byte>)
    requires l.Ok()
    ensures var r, w, i := SendContinue(l, 0, buf), l.received, l.taken;
            var fits := !l.tx.ongoing && |l.tx.queued| + |buf| + 1 <= 1715;
            && (r.code < 0 <==> if Prompted(w, i) then !fits else HandlerFails(w, i, l.queue))
            && r.code != 0 && r.step == (if Prompted(w, i) && fits then 1 else 0)
            && r.link.taken == if Prompted(w, i) then Bol(w, i) + 1 else Decide(w, i).next
  {
    if Prompted(l.received, l.taken) {
      TransmissionExact(l.(taken := Bol(l.received, l.taken) + 1), buf);
    } else {
      AwaitIsHandle(l, buf);
    }
  }

  /** Waiting for the prompt. */
  lemma PromptAnswer(s: Sys, buf: seq<byte>)
    requires s.Ok() && s.state == Connected && s.op == Sending && s.step == 0 && |buf| <= 1460
    ensures var r, w, i, t := NetSend(s, buf), s.link.received, s.link.taken, s.link.tx;
            var fits := !t.ongoing && |t.queued| + |buf| + 1 <= 1715;
            && (r.code == Failed <==> if Prompted(w, i) then !fits else HandlerFails(w, i, s.link.queue))
            && (r.code != Failed ==> r.code == InProgress)
            && r.sys.op == (if r.code == InProgress then Sending else NoOp)
            && r.sys.step == (if Prompted(w, i) && fits then 1 else 0)
            && r.sys.state == Connected
            && r.sys.link.taken == if Prompted(w, i) then Bol(w, i) + 1 else Decide(w, i).next
  {
    PromptReply(s.link, buf);
  }

  /** Waiting for the confirmation: SEND OK ends the send, a single space is passed over. */
  lemma ConfirmationAnswer(s: Sys, buf: seq<byte>)
    requires s.Ok() && s.state == Connected && s.op == Sending && s.step == 1 && |buf| <= 1460
    ensures var r, w, i := NetSend(s, buf), s.link.received, s.link.taken;
            && (r.code == Done <==> LineIs(w, i, "SEND OK"))
            && (r.code == InProgress <==> !LineWaits(w, i) || LineIs(w, i, " "))
            && (r.code == Failed <==> LineWaits(w, i) && !LineIs(w, i, "SEND OK") && !LineIs(w, i, " "))
            && r.sys == s.(link := s.link.(taken := AfterLine(w, i)),
                           op := if r.code == InProgress then Sending else NoOp)
  {
    var w, b := s.link.received, Bol(s.link.received, s.link.taken);
    SentTable(w[b..Eol(w, b)]);
  }

  // ---- receive -----------------------------------------------------------------------------

  /**
   With nothing queued, a poll fails exactly for a bad recv line and for a datagram of 1500 bytes
   or more; any other poll that finds nothing to return says so with EAGAIN.
   */
  lemma ReceiveAnswer(s: Sys, size: nat)
    requires s.Ok()
    ensures var r, w, i, q := NetRecv(s, size), s.link.received, s.link.taken, s.link.queue;
            && (s.state == Closed ==> r == Returns(Failed, s))
            && (s.state != Closed && s.op != NoOp ==> r == Returns(Again, s))
            && (s.state != Closed && s.op == NoOp && q == [] ==>
                  && (r.code == Failed <==>
                        var d := Decide(w, i); d.Reject? || (d.Frame? && d.next - d.body >= 1500))
                  && (r.code != Failed ==> r.code == Again)
                  && r.data == None && r.sys.link.taken == Decide(w, i).next)
            && (s.state != Closed && s.op == NoOp && q != [] ==>
                  && r.code == (if |q[0]| < size then Done else if |q[0]| == size then MsgSize else Failed)
                  && r.data == (if |q[0]| <= size then Some(q[0]) else None)
                  && r.sys == s.(link := s.link.(queue := q[1..])))
  {
    assert Concat([]) == [];
  }

  // ---- shutdown, close, cleanup ------------------------------------------------------------

  /** A shutdown begins exactly if its command can be queued; it ends with the next line, with 0 exactly for OK. */
  lemma ShutdownAnswer(s: Sys)
    requires s.Ok()
    ensures var r, w, i, t := NetShutdown(s), s.link.received, s.link.taken, s.link.tx;
            if s.op == ShuttingDown then
              && (r.code == InProgress <==> !LineWaits(w, i))
              && (r.code == Done <==> LineIs(w, i, "OK"))
              && (r.code == Failed <==> LineWaits(w, i) && !LineIs(w, i, "OK"))
              && r.sys.op == (if r.code == InProgress then ShuttingDown else NoOp)
              && r.sys.state == (if r.code == InProgress then s.state else ShutDown)
              && r.sys.link == s.link.(taken := AfterLine(w, i))
            else
              && (r.code == InProgress <==> !t.ongoing && |t.queued| + 14 <= 1715)
              && (r.code != InProgress ==> r.code == Failed)
              && r.sys.op == (if r.code == InProgress then ShuttingDown else s.op)
              && r.sys.state == s.state
              && r.sys.link == s.link.(taken := |w|, tx := r.sys.link.tx)
  {
    CloseAnswer(s.link);
    CloseInitExact(s.link);
  }

  /** Only a connected socket is shut down first. */
  lemma CloseAnswers(s: Sys)
    requires s.Ok()
    ensures var r := NetClose(s);
            && (s.state == Closed ==> r == Returns(Done, s))
            && (s.state == ShutDown ==> r == Returns(Done, s.(state := Closed)))
            && (s.state == Connected ==> r == NetShutdown(s))
  {
  }

  /** A close of a connected socket, over the received bytes. */
  lemma ConnectedCloseAnswer(s: Sys)
    requires s.Ok() && s.state == Connected
    ensures var r, w, i := NetClose(s), s.link.received, s.link.taken;
            && (r.code == InProgress <==> if s.op == ShuttingDown then !LineWaits(w, i) else CanClose(s.link.tx))
            && (r.code == Done <==> s.op == ShuttingDown && LineIs(w, i, "OK"))
            && (r.code != InProgress && r.code != Done ==> r.code == Failed)
            && r.sys.state == (if s.op == ShuttingDown && LineWaits(w, i) then ShutDown else Connected)
  {
    ShutdownAnswer(s);
  }
}
