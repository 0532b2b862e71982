/** To which peer a connect goes: the one its first poll named. */
module SocketPeer {
  import opened Bytes
  import opened Transmit
  import opened Dialogue
  import opened Socket
  import opened SocketRuns
  import opened SocketConnect

  /** Nothing that happens within a connect hands over a byte. */
  lemma EventKeepsSent(s: Sys, e: Event)
    requires InConnect(s) && Enabled(s, e) && InConnect(Step(s, e).sys) && NoResidue(s.link.tx)
    ensures var t := Step(s, e).sys.link.tx; t.All() == s.link.tx.All() && NoResidue(t)
  {
    match e
    case TxDone => CompleteKeepsAll(s.link.tx);
    case Shutdown => CloseInitExact(s.link);
    case Close => CloseInitExact(s.link);
    case Cleanup => CloseInitExact(s.link);
    case _ =>
  }

  lemma {:induction false} RunKeepsSent(s: Sys, es: seq<Event>)
    requires Feasible(s, es) && Stays(s, es, Connecting) && NoResidue(s.link.tx)
    ensures var t := Run(s, es).link.tx; t.All() == s.link.tx.All() && NoResidue(t)
    decreases |es|
  {
    if es == [] {
    } else {
      assert Stays(Step(s, es[0]).sys, es[1..], Connecting);
      EventKeepsSent(s, es[0]);
      RunKeepsSent(Step(s, es[0]).sys, es[1..]);
    }
  }

  /**
   A connect that a first poll began and a later poll ended with 0, anything else happening in
   between: exactly the open command with the host and port of the first poll was handed over,
   whatever hosts and ports the later polls named.
   */
  lemma ConnectSent(s0: Sys, host: seq<byte>, port: seq<byte>, es: seq<Event>, host': seq<byte>, port': seq<byte>)
    requires s0.Ok() && s0.used && s0.op == NoOp && NetConnect(s0, host, port).code == InProgress
    requires var s1 := NetConnect(s0, host, port).sys; Feasible(s1, es) && Stays(s1, es, Connecting)
    requires var s := Run(NetConnect(s0, host, port).sys, es); s.Ok() && NetConnect(s, host', port').code == Done
    ensures var r := NetConnect(Run(NetConnect(s0, host, port).sys, es), host', port');
            r.sys.link.tx.All() == s0.link.tx.All() + OpenText(host, port)
  {
    OpenCommandLength(host, port);
    CommandAccepted(s0.link.tx, OpenCommand(host, port));
    var s1 := NetConnect(s0, host, port).sys;
    RunKeepsSent(s1, es);
    StaysToTheEnd(s1, es, Connecting);
  }

  /** The answer of the modem to the first connect, while the caller polls for another peer. */
  lemma AnswerForAnother(s: Sys, host: seq<byte>, port: seq<byte>) returns (es: seq<Event>)
    requires FirstConnect(s, 0, [], 0)
    ensures Feasible(s, es) && Stays(s, es, Connecting) && PollsWith(es, host, port)
    ensures LastPollDue(Run(s, es), host, port)
  {
    es := OkAnswered(s, host, port);
    var more := LastLineArrives(Run(s, es), "OK\r", host, port);
    LosingConcat(s, es, more, [], []);
    es := es + more;
  }

  /**
   A close of a socket that is not connected yet returns 0 and leaves the connect pending. So
   a caller who closes, and from then on connects to another peer only, ends up connected to the
   first one: after a run from the start of the driver and a close that returned 0, the polls
   name host' and port', the last returns 0, and only the command for host and port was sent.
   */
  lemma WrongPeer(host: seq<byte>, port: seq<byte>, host': seq<byte>, port': seq<byte>)
    returns (es: seq<Event>, fs: seq<Event>)
    requires |host| + |port| + 29 <= TX_CAP
    ensures Feasible(START, es) && Run(START, es).used && Run(START, es).Ok()
    ensures var r := NetClose(Run(START, es)); r.code == Done && Feasible(r.sys, fs) && PollsWith(fs, host', port')
    ensures var m := Run(NetClose(Run(START, es)).sys, fs);
            && m.Ok() && m.used
            && var r := NetConnect(m, host', port');
            r.code == Done && r.sys.state == Connected && r.sys.link.tx.All() == OpenText(host, port)
  {
    es := StartConnects(host, port);
    var s := Run(START, es);
    fs := AnswerForAnother(s, host', port');
    RunKeepsSent(s, fs);
  }
}
