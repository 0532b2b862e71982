/** Receiving, sending and tearing down over whole runs of the socket machine. */
module SocketRuns {
  import opened Bytes
  import opened Lines
  import opened Urc
  import opened Transmit
  import opened Dialogue
  import opened Socket
  import SocketHistory

  // ---- receiving ---------------------------------------------------------------------------

  /** d is the whole payload of a recv frame somewhere in the stream. */
  ghost predicate Genuine(s: seq<byte>, d: Datagram) {
    exists i: nat :: i <= |s| && Decide(s, i).Frame? && Found(s, Decide(s, i)) == [d]
  }

  ghost predicate AllGenuine(s: seq<byte>, q: seq<Datagram>) {
    forall k | 0 <= k < |q| :: Genuine(s, q[k])
  }

  ghost predicate QueueGenuine(s: Sys) {
    s.Ok() && AllGenuine(s.link.received, s.link.queue)
  }

  lemma GenuineStable(s: seq<byte>, t: seq<byte>, d: Datagram)
    requires Genuine(s, d)
    ensures Genuine(s + t, d)
  {
    var i: nat :| i <= |s| && Decide(s, i).Frame? && Found(s, Decide(s, i)) == [d];
    DecisionStable(s, t, i);
    assert i <= |s + t|;
  }

  lemma HandleKeepsGenuine(s: seq<byte>, i: nat, q: seq<Datagram>)
    requires i <= |s| && AllGenuine(s, q)
    ensures AllGenuine(s, Handle(s, i, q).queue)
  {
    var q' := Handle(s, i, q).queue;
    if |q'| > |q| {
      assert Found(s, Decide(s, i)) == [q'[|q|]];
    }
  }

  lemma SendContinueGenuine(l: Link, step: int, buf: seq<byte>)
    requires l.Ok() && AllGenuine(l.received, l.queue)
    ensures var l' := SendContinue(l, step, buf).link;
            l'.Ok() && l'.received == l.received && AllGenuine(l.received, l'.queue)
  {
    SendContinueOk(l, step, buf);
    HandleKeepsGenuine(l.received, Bol(l.received, l.taken), l.queue);
  }

  lemma RecvCallGenuine(l: Link, size: nat)
    requires l.Ok() && AllGenuine(l.received, l.queue)
    ensures var l' := RecvCall(l, size).0.link;
            l'.Ok() && l'.received == l.received && AllGenuine(l.received, l'.queue)
  {
    RecvCallOk(l, size);
    HandleKeepsGenuine(l.received, l.taken, l.queue);
  }

  lemma ArrivalKeepsGenuine(l: Link, b: byte)
    requires AllGenuine(l.received, l.queue)
    ensures AllGenuine(Arrival(l, b).received, l.queue)
  {
    forall k | 0 <= k < |l.queue| ensures Genuine(l.received + [b], l.queue[k]) {
      GenuineStable(l.received, [b], l.queue[k]);
    }
  }

  lemma AfterSendKeepsGenuine(s: Sys, r: StepReply, len: nat)
    requires r.link.Ok() && r.link.received == s.link.received && AllGenuine(s.link.received, r.link.queue)
    ensures QueueGenuine(AfterSend(s, r, len).sys)
  {
  }

  lemma NetSendKeepsGenuine(s: Sys, buf: seq<byte>)
    requires QueueGenuine(s)
    ensures QueueGenuine(NetSend(s, buf).sys)
  {
    if s.op == Sending {
      SendContinueGenuine(s.link, s.step, buf);
      AfterSendKeepsGenuine(s, SendContinue(s.link, s.step, buf), |buf|);
    }
  }

  lemma NetRecvKeepsGenuine(s: Sys, size: nat)
    requires QueueGenuine(s)
    ensures QueueGenuine(NetRecv(s, size).sys)
  {
    RecvCallGenuine(s.link, size);
  }

  lemma ConnectKeepsReception(s: Sys, host: seq<byte>, port: seq<byte>)
    requires s.Ok()
    ensures var l := NetConnect(s, host, port).sys.link;
            l.Ok() && l.received == s.link.received && l.queue == s.link.queue
  {
  }

  lemma ShutdownKeepsReception(s: Sys)
    requires s.Ok()
    ensures var l := NetShutdown(s).sys.link;
            l.Ok() && l.received == s.link.received && l.queue == s.link.queue
  {
  }

  /** The other calls touch neither the received bytes nor the queue. */
  lemma OthersKeepReception(s: Sys, e: Event)
    requires Enabled(s, e) && !e.RxByte? && !e.RxOverrun? && !e.Send? && !e.Recv?
    ensures var l := Step(s, e).sys.link;
            l.Ok() && l.received == s.link.received && l.queue == s.link.queue
  {
    match e
    case Connect(host, port) => ConnectKeepsReception(s, host, port);
    case Shutdown => ShutdownKeepsReception(s);
    case Close => ShutdownKeepsReception(s);
    case Cleanup => ShutdownKeepsReception(s);
    case _ =>
  }

  lemma StepKeepsGenuine(s: Sys, e: Event)
    requires QueueGenuine(s) && Enabled(s, e)
    ensures QueueGenuine(Step(s, e).sys)
  {
    if e.RxByte? || e.RxOverrun? {
      ArrivalKeepsGenuine(s.link, e.b);
    } else if e.Send? {
      NetSendKeepsGenuine(s, e.buf);
    } else if e.Recv? {
      NetRecvKeepsGenuine(s, e.size);
    } else {
      OthersKeepReception(s, e);
    }
  }

  /** On every run, whatever is queued came whole from a recv frame of the stream. */
  lemma {:induction false} QueueStaysGenuine(s: Sys, es: seq<Event>)
    requires QueueGenuine(s) && Feasible(s, es)
    ensures QueueGenuine(Run(s, es))
    decreases |es|
  {
    if es == [] {
    } else {
      StepKeepsGenuine(s, es[0]);
      QueueStaysGenuine(Step(s, es[0]).sys, es[1..]);
    }
  }

  /**
   net_recv never passes off a truncated datagram as whole. After every run that leaves the
   socket open and idle with a datagram queued, it returns 0 exactly if the datagram is
   shorter than the buffer, EMSGSIZE exactly if it just fills it, an error exactly if it is
   longer; in all three cases that datagram and nothing else leaves. Data returned with 0
   is the oldest datagram, came whole from a frame, and is shorter than 1500 bytes.
   */
  lemma RecvNeverTruncates(s0: Sys, es: seq<Event>, size: nat)
    requires QueueGenuine(s0) && Feasible(s0, es)
    requires Run(s0, es).state != Closed && Run(s0, es).op == NoOp
    ensures var s := Run(s0, es);
            && s.Ok()
            && var r := NetRecv(s, size);
            if s.link.queue == [] then
              r.code != Done && r.code != MsgSize && r.data == None
            else
              var d := s.link.queue[0];
              && (r.code == Done <==> |d| < size)
              && (r.code == MsgSize <==> |d| == size)
              && (r.code == Failed <==> |d| > size)
              && r.sys == s.(link := s.link.(queue := s.link.queue[1..]))
              && (r.code == Done ==> r.data == Some(d) && |d| < 1500 && Genuine(s.link.received, d))
  {
    QueueStaysGenuine(s0, es);
  }

  // ---- what is left in the transmitter ------------------------------------------------------

  /** The command of a connect fits the empty TX ring; the caller can tell from the two lengths. */
  predicate ConnectFits(e: Event) {
    e.Connect? ==> |e.host| + |e.port| + 29 <= TX_CAP
  }

  predicate NoResidue(t: Tx) {
    t.ongoing || t.queued == []
  }

  lemma CommandKeepsNoResidue(t: Tx, pieces: seq<seq<byte>>)
    requires NoResidue(t) && pieces != [] && pieces[0] != [] && |Join(pieces)| <= TX_CAP
    ensures NoResidue(SendPieces(t, pieces).tx)
  {
    CommandAccepted(t, pieces);
  }

  lemma ConnectKeepsNoResidue(s: Sys, host: seq<byte>, port: seq<byte>)
    requires s.Ok() && NoResidue(s.link.tx) && ConnectFits(Connect(host, port))
    ensures NoResidue(NetConnect(s, host, port).sys.link.tx)
  {
    OpenCommandLength(host, port);
    CommandKeepsNoResidue(s.link.tx, OpenCommand(host, port));
  }

  lemma TransmissionKeepsNoResidue(l: Link, buf: seq<byte>)
    requires NoResidue(l.tx) && |buf| <= SOCKET_SEND_MAX
    ensures NoResidue(Transmission(l, buf).link.tx)
  {
  }

  lemma SendKeepsNoResidue(s: Sys, buf: seq<byte>)
    requires s.Ok() && NoResidue(s.link.tx)
    ensures NoResidue(NetSend(s, buf).sys.link.tx)
  {
    if |buf| <= SOCKET_SEND_MAX {
      ShortCommands(|buf|);
      CommandKeepsNoResidue(s.link.tx, SendCommand(|buf|));
      var b := Bol(s.link.received, s.link.taken);
      if b < |s.link.received| { TransmissionKeepsNoResidue(s.link.(taken := b + 1), buf); }
    }
  }

  lemma ShutdownKeepsNoResidue(s: Sys)
    requires s.Ok() && NoResidue(s.link.tx)
    ensures NoResidue(NetShutdown(s).sys.link.tx)
  {
    ShortCommands(0);
    CommandKeepsNoResidue(s.link.tx, CLOSE_COMMAND);
  }

  lemma StepKeepsNoResidue(s: Sys, e: Event)
    requires Enabled(s, e) && NoResidue(s.link.tx) && ConnectFits(e)
    ensures NoResidue(Step(s, e).sys.link.tx)
  {
    match e
    case Connect(host, port) => ConnectKeepsNoResidue(s, host, port);
    case Send(buf) => SendKeepsNoResidue(s, buf);
    case Shutdown => ShutdownKeepsNoResidue(s);
    case Close => ShutdownKeepsNoResidue(s);
    case Cleanup => ShutdownKeepsNoResidue(s);
    case _ =>
  }

  ghost predicate AllFit(es: seq<Event>) {
    forall i | 0 <= i < |es| :: ConnectFits(es[i])
  }

  /**
   An idle transmitter holds nothing, on every run whose connect commands fit the ring;
   so no later command is sent behind pieces of a rejected one.
   */
  lemma {:induction false} IdleMeansEmpty(s: Sys, es: seq<Event>)
    requires Feasible(s, es) && NoResidue(s.link.tx) && AllFit(es)
    ensures NoResidue(Run(s, es).link.tx)
    decreases |es|
  {
    if es == [] {
    } else {
      StepKeepsNoResidue(s, es[0]);
      IdleMeansEmpty(Step(s, es[0]).sys, es[1..]);
    }
  }

  /** From an empty idle transmitter a connect leaves pieces behind exactly if it does not fit. */
  lemma ResidueExact(s: Sys, host: seq<byte>, port: seq<byte>)
    requires s.Ok() && s.used && s.op == NoOp && !s.link.tx.ongoing && s.link.tx.queued == []
    ensures NoResidue(NetConnect(s, host, port).sys.link.tx) <==> ConnectFits(Connect(host, port))
  {
    var c := OpenCommand(host, port);
    OpenCommandLength(host, port);
    CommandAccepted(s.link.tx, c);
    if !SendPieces(s.link.tx, c).ok {
      RejectedCommandLeaves(s.link.tx, c);
      var k :| 0 <= k < |c|
        && SendPieces(s.link.tx, c).tx == s.link.tx.(queued := s.link.tx.queued + Join(c[..k]))
        && |s.link.tx.queued| + |Join(c[..k])| + |c[k]| > TX_CAP;
      assert k > 0;
      assert Join(c[..k]) == c[0] + Join(c[..k][1..]);
    }
  }

  /**
   A connect or a shutdown is begun exactly if nothing is being sent and its command fits
   behind what is queued. Everything received is flushed either way; if it is begun, exactly
   the AT command follows what was accepted before.
   */
  lemma CommandsBegun(s: Sys, host: seq<byte>, port: seq<byte>)
    requires s.Ok()
    ensures var r, l := NetConnect(s, host, port), s.link;
            var text := OpenText(host, port);
            s.op == NoOp ==>
              && (r.code == InProgress <==> CanQueue(l.tx, |host| + |port| + 29))
              && r.sys.link.taken == |l.received|
              && (r.code == InProgress ==> r.sys.op == Connecting && r.sys.link.tx.All() == l.tx.All() + text)
              && (r.code != InProgress ==> r.code == Failed && r.sys.op == NoOp)
    ensures var r, l := NetShutdown(s), s.link;
            var text := "AT+QICLOSE=0\r\n";
            s.op != ShuttingDown ==>
              && (r.code == InProgress <==> CanClose(l.tx))
              && r.sys.link.taken == |l.received|
              && (r.code == InProgress ==> r.sys.op == ShuttingDown && r.sys.link.tx.All() == l.tx.All() + text)
              && (r.code != InProgress ==> r.code == Failed && r.sys.op == s.op)
  {
    OpenCommandLength(host, port);
    CommandAccepted(s.link.tx, OpenCommand(host, port));
    ShortCommands(0);
    CommandAccepted(s.link.tx, CLOSE_COMMAND);
  }

  /** The zero-initialised driver satisfies what the run theorems start from. */
  lemma StartIsSafe()
    ensures SocketHistory.History(START) && QueueGenuine(START) && NoResidue(START.link.tx)
    ensures START.link.queue == []
  {
    assert Concat([]) == [];
  }
}
