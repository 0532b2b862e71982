/** Reception seen through the socket: every run of the machine, and the caller of net_recv. */
module SocketReceive {
  import opened Bytes
  import opened Urc
  import opened Dialogue
  import opened Socket
  import opened SocketHistory
  import Reception
  import Sequences

  // ---- what reception sees of a run ---------------------------------------------------------

  /** A shutdown call begins with a flush, or takes the next line for the answer to an earlier one. */
  function ShutdownImage(s: Sys): seq<Reception.Event> {
    if s.op == ShuttingDown then [Reception.Answer] else [Reception.Flush]
  }

  /** The call resumes a send. */
  predicate ResumesSend(s: Sys, e: Event) {
    e.Send? && s.state == Connected && |e.buf| <= SOCKET_SEND_MAX && s.op == Sending
  }

  /** The call may take a datagram out of the queue or run the handler. */
  predicate Receives(s: Sys, e: Event) {
    e.Recv? && s.state != Closed && s.op == NoOp
  }

  function Image(s: Sys, e: Event): seq<Reception.Event> {
    match e
    case RxByte(b) => [Reception.Arrive(b)]
    case RxOverrun(b) => [Reception.Overrun(b)]
    case Recv(size) => if Receives(s, e) then [Reception.Poll(size)] else []
    case Connect(_, _) =>
      if s.op == NoOp then [Reception.Flush] else if s.op == Connecting then [Reception.Answer] else []
    case Send(_) =>
      if !ResumesSend(s, e) then [] else if s.step == 0 then [Reception.Await] else [Reception.Answer]
    case Shutdown => ShutdownImage(s)
    case Close => if s.state == Connected then ShutdownImage(s) else []
    case Cleanup => if s.state == Connected then ShutdownImage(s) else []
    case _ => []
  }

  ghost function Seen(s: Sys, es: seq<Event>): seq<Reception.Event>
    requires Feasible(s, es)
    decreases |es|
  {
    if es == [] then [] else Image(s, es[0]) + Seen(Step(s, es[0]).sys, es[1..])
  }

  /** The datagram that leaves the queue in a call, whatever the call returns. */
  function LeftNow(s: Sys, e: Event): seq<Datagram> {
    if Receives(s, e) && s.link.queue != [] then [s.link.queue[0]] else []
  }

  ghost function Left(s: Sys, es: seq<Event>): seq<Datagram>
    requires Feasible(s, es)
    decreases |es|
  {
    if es == [] then [] else LeftNow(s, es[0]) + Left(Step(s, es[0]).sys, es[1..])
  }

  /** Reception stands where the link does. */
  predicate Follows(l: Link, r: Reception.Station) {
    l.Ok() && r.stream == l.received && r.at == l.taken && r.queue == l.queue
  }

  lemma RecvFollows(l: Link, r: Reception.Station, size: nat)
    requires Follows(l, r)
    ensures Follows(RecvCall(l, size).0.link, Reception.Step(r, Reception.Poll(size)))
    ensures Reception.Taken(Reception.Step(r, Reception.Poll(size)).out)
            == Reception.Taken(r.out) + if l.queue != [] then [l.queue[0]] else []
  {
    RecvCallOk(l, size);
    if l.queue != [] {
      assert Reception.Step(r, Reception.Poll(size)).out[..|r.out|] == r.out;
    }
  }

  /** Waiting for the prompt, or consuming it, is what reception calls Await. */
  lemma AwaitFollows(l: Link, r: Reception.Station, buf: seq<byte>)
    requires Follows(l, r)
    ensures Follows(SendContinue(l, 0, buf).link, Reception.Step(r, Reception.Await))
  {
    SendContinueOk(l, 0, buf);
    if !Prompted(l.received, l.taken) { AwaitIsHandle(l, buf); }
  }

  lemma AnswerFollows(l: Link, r: Reception.Station, rs: seq<Response>)
    requires Follows(l, r)
    ensures Follows(MatchStrict(l, rs).link, Reception.Step(r, Reception.Answer))
  {
  }

  lemma FlushFollows(l: Link, r: Reception.Station, pieces: seq<seq<byte>>)
    requires Follows(l, r)
    ensures Follows(Command(Flush(l), pieces).link, Reception.Step(r, Reception.Flush))
  {
  }

  lemma InterruptFollows(s: Sys, r: Reception.Station, e: Event)
    requires Follows(s.link, r) && Enabled(s, e) && (e.RxByte? || e.RxOverrun?)
    ensures var f := Image(s, e)[0];
            Reception.Possible(r, f) && Follows(Step(s, e).sys.link, Reception.Step(r, f))
  {
  }

  lemma ShutdownFollows(s: Sys, r: Reception.Station)
    requires Follows(s.link, r)
    ensures Follows(NetShutdown(s).sys.link, Reception.Step(r, ShutdownImage(s)[0]))
  {
    AnswerFollows(s.link, r, OK_OR_ERROR);
    FlushFollows(s.link, r, CLOSE_COMMAND);
  }

  lemma ConnectFollows(s: Sys, r: Reception.Station, host: seq<byte>, port: seq<byte>)
    requires Follows(s.link, r) && OpFitsUnion(s) && (s.op == NoOp || s.op == Connecting)
    ensures Follows(NetConnect(s, host, port).sys.link, Reception.Step(r, Image(s, Connect(host, port))[0]))
  {
    if s.op == NoOp {
      FlushFollows(s.link, r, OpenCommand(host, port));
    } else {
      AnswerFollows(s.link, r, if s.step == 0 then OK_OR_ERROR else OPENED);
    }
  }

  lemma SendFollows(s: Sys, r: Reception.Station, buf: seq<byte>)
    requires Follows(s.link, r) && OpFitsUnion(s) && ResumesSend(s, Event.Send(buf))
    ensures Follows(NetSend(s, buf).sys.link, Reception.Step(r, Image(s, Event.Send(buf))[0]))
  {
    if s.step == 0 {
      AwaitFollows(s.link, r, buf);
    } else {
      AnswerFollows(s.link, r, SENT);
    }
  }

  /** Calls without an image change nothing that reception sees. */
  lemma UnseenFollows(s: Sys, r: Reception.Station, e: Event)
    requires Follows(s.link, r) && Enabled(s, e) && Image(s, e) == []
    ensures Follows(Step(s, e).sys.link, r) && LeftNow(s, e) == []
  {
  }

  lemma CloseFollows(s: Sys, r: Reception.Station, e: Event)
    requires Follows(s.link, r) && Enabled(s, e) && Image(s, e) != [] && (e.Shutdown? || e.Close? || e.Cleanup?)
    ensures Image(s, e) == ShutdownImage(s)
    ensures Follows(Step(s, e).sys.link, Reception.Step(r, ShutdownImage(s)[0]))
  {
    ShutdownFollows(s, r);
  }

  lemma StepFollows(s: Sys, r: Reception.Station, e: Event)
    requires Follows(s.link, r) && OpFitsUnion(s) && Enabled(s, e) && Image(s, e) != []
    ensures var f := Image(s, e)[0];
            Reception.Possible(r, f) && Follows(Step(s, e).sys.link, Reception.Step(r, f))
  {
    match e
    case RxByte(_) => InterruptFollows(s, r, e);
    case RxOverrun(_) => InterruptFollows(s, r, e);
    case Recv(size) => RecvFollows(s.link, r, size);
    case Connect(host, port) => ConnectFollows(s, r, host, port);
    case Send(buf) => SendFollows(s, r, buf);
    case _ => CloseFollows(s, r, e);
  }

  lemma StepTakes(s: Sys, r: Reception.Station, e: Event)
    requires Follows(s.link, r) && Enabled(s, e) && Image(s, e) != [] && Reception.Possible(r, Image(s, e)[0])
    ensures Image(s, e)[1..] == []
    ensures Reception.Taken(Reception.Step(r, Image(s, e)[0]).out) == Reception.Taken(r.out) + LeftNow(s, e)
  {
    if e.Recv? { RecvFollows(s.link, r, e.size); }
  }

  lemma {:induction false} RunFollows(s: Sys, r: Reception.Station, es: seq<Event>)
    requires Follows(s.link, r) && OpFitsUnion(s) && Feasible(s, es)
    ensures Reception.Feasible(r, Seen(s, es))
    ensures var r' := Reception.Run(r, Seen(s, es));
            && Follows(Run(s, es).link, r')
            && Reception.Taken(r'.out) == Reception.Taken(r.out) + Left(s, es)
    decreases |es|
  {
    if es == [] {
    } else {
      var e, rest := es[0], es[1..];
      var s' := Step(s, e).sys;
      StepKeepsUnion(s, e);
      if Image(s, e) == [] {
        UnseenFollows(s, r, e);
        RunFollows(s', r, rest);
        assert Seen(s, es) == Seen(s', rest) && Left(s, es) == Left(s', rest);
      } else {
        var f := Image(s, e)[0];
        StepFollows(s, r, e);
        StepTakes(s, r, e);
        RunFollows(s', Reception.Step(r, f), rest);
        assert Seen(s, es)[0] == f && Seen(s, es)[1..] == Seen(s', rest);
        Sequences.Assoc(Reception.Taken(r.out), LeftNow(s, e), Left(s', rest));
      }
    }
  }

  // ---- every run -----------------------------------------------------------------------------

  /** Reception begins where the link stands, with an empty queue. */
  function StationAt(l: Link): Reception.Station {
    Reception.Station(l.taken, 0, l.received, l.taken, l.queue, [], [])
  }

  ghost predicate Starts(s: Sys) {
    s.Ok() && OpFitsUnion(s) && s.link.queue == []
  }

  /** Reception as the run of the socket drives it. */
  ghost function Received(s: Sys, es: seq<Event>): Reception.Station
    requires Starts(s) && Feasible(s, es)
  {
    RunFollows(s, StationAt(s.link), es);
    Reception.Run(StationAt(s.link), Seen(s, es))
  }

  /** No event of the run breaks reception. */
  ghost predicate Unbroken(s: Sys, es: seq<Event>)
    requires Starts(s) && Feasible(s, es)
  {
    RunFollows(s, StationAt(s.link), es);
    Reception.Unbroken(StationAt(s.link), Seen(s, es))
  }

  /**
   On every run of the socket, whatever arrives, overflows, is called or is flushed: the frames met
   since the last break and those still unread are those of the stream from there, and of all
   frames met the ones kept are those that left the queue and those in it, in order.
   */
  lemma RunConserves(s: Sys, es: seq<Event>)
    requires Starts(s) && Feasible(s, es)
    ensures var l, r := Run(s, es).link, Received(s, es);
            && l.Ok() && r.stream == l.received && r.from <= l.taken && r.base <= |r.seen|
            && Reception.Met(r) + Frames(l.received, l.taken) == Frames(l.received, r.from)
            && Reception.Kept(r.seen) == Left(s, es) + l.queue
            && (Unbroken(s, es) ==> r.from == s.link.taken && r.base == 0)
  {
    var r := StationAt(s.link);
    RunFollows(s, r, es);
    assert r.seen[0..] == [];
    Reception.Conservation(r, Seen(s, es));
    assert [] + Left(s, es) == Left(s, es);
  }

  /**
   While a part of a stream that is conforming from the last break on has arrived, the frames met
   since and those unread are the first announced ones, those of all whole items included.
   */
  lemma RunFraming(s: Sys, es: seq<Event>, xs: seq<Item>, t: seq<byte>, k: nat)
    requires Starts(s) && Feasible(s, es) && Conforming(xs)
    requires var l, r := Run(s, es).link, Received(s, es);
             r.from <= |l.received| && l.received + t == l.received[..r.from] + WireAll(xs)
    ensures var l, r := Run(s, es).link, Received(s, es);
            && l.Ok() && r.from <= |l.received| && r.base <= |r.seen|
            && Reception.Met(r) + Frames(l.received, l.taken) <= Payloads(xs)
            && (Arrived(l.received[..r.from], xs, k, l.received) ==>
                  Payloads(xs[..k]) <= Reception.Met(r) + Frames(l.received, l.taken))
            && Reception.Kept(r.seen) == Left(s, es) + l.queue
  {
    RunConserves(s, es);
    RunFollows(s, StationAt(s.link), es);
    assert StationAt(s.link).seen[0..] == [];
    Reception.FramingFromBreak(StationAt(s.link), Seen(s, es), xs, t, k);
  }

  // ---- the caller of net_recv ------------------------------------------------------------------

  /** What the caller gets from a call, with return code 0. */
  ghost function GotNow(s: Sys, e: Event): seq<Datagram>
    requires Enabled(s, e)
  {
    var r := Step(s, e);
    if e.Recv? && r.code == Done && r.data.Some? then [r.data.value] else []
  }

  ghost function Got(s: Sys, es: seq<Event>): seq<Datagram>
    requires Feasible(s, es)
    decreases |es|
  {
    if es == [] then [] else GotNow(s, es[0]) + Got(Step(s, es[0]).sys, es[1..])
  }

  /** The socket is polled with buffers that no accepted datagram fills. */
  predicate LargeBuffer(e: Event) {
    e.Recv? ==> e.size >= SOCKET_RECV_MAX
  }

  lemma CallerGets(s: Sys, e: Event)
    requires Enabled(s, e) && LargeBuffer(e)
    ensures GotNow(s, e) == LeftNow(s, e)
  {
    if Receives(s, e) && s.link.queue != [] {
      assert QueueOk(s.link.queue);
      assert |s.link.queue[0]| < e.size;
    }
  }

  /** With large buffers the caller gets all that leaves the queue, on every run. */
  lemma {:induction false} CallerGetsAll(s: Sys, es: seq<Event>)
    requires Feasible(s, es) && forall i | 0 <= i < |es| :: LargeBuffer(es[i])
    ensures Got(s, es) == Left(s, es)
    decreases |es|
  {
    if es == [] {
    } else {
      assert LargeBuffer(es[0]);
      CallerGets(s, es[0]);
      CallerGetsAll(Step(s, es[0]).sys, es[1..]);
    }
  }

  /** Bytes arrive or are sent, and the socket is polled. */
  predicate Receiving(e: Event) {
    (e.RxByte? || e.TxDone? || e.Recv?) && LargeBuffer(e)
  }

  lemma {:induction false} ReceivingIsReceiveOnly(s: Sys, es: seq<Event>)
    requires Feasible(s, es) && forall i | 0 <= i < |es| :: Receiving(es[i])
    ensures Reception.ReceiveOnly(Seen(s, es))
    decreases |es|
  {
    if es == [] {
    } else {
      assert Receiving(es[0]);
      ReceivingIsReceiveOnly(Step(s, es[0]).sys, es[1..]);
    }
  }

  /** An idle socket that has consumed all received bytes and has nothing queued. */
  predicate AtBoundary(s: Sys) {
    && s.Ok() && s.op == NoOp
    && s.link.taken == |s.link.received| && s.link.queue == []
  }

  lemma ReceivingFollows(s: Sys, es: seq<Event>)
    requires AtBoundary(s) && Feasible(s, es) && forall i | 0 <= i < |es| :: Receiving(es[i])
    ensures var r := Reception.Begin(s.link.received);
            && Reception.Feasible(r, Seen(s, es)) && Reception.ReceiveOnly(Seen(s, es))
            && Follows(Run(s, es).link, Reception.Run(r, Seen(s, es)))
            && Reception.Taken(Reception.Run(r, Seen(s, es)).out) == Got(s, es)
  {
    ReceivingIsReceiveOnly(s, es);
    RunFollows(s, Reception.Begin(s.link.received), es);
    forall i | 0 <= i < |es| ensures LargeBuffer(es[i]) {
      assert Receiving(es[i]);
    }
    CallerGetsAll(s, es);
    assert [] + Left(s, es) == Left(s, es);
  }

  /**
   For every byte stream and every interleaving of arrivals and net_recv polls: the datagrams
   the caller got with 0, those queued and the short ones still unread are exactly the short
   datagrams of what has arrived, whole and in order.
   */
  lemma NetRecvExactly(s: Sys, es: seq<Event>)
    requires AtBoundary(s) && Feasible(s, es) && forall i | 0 <= i < |es| :: Receiving(es[i])
    ensures var l := Run(s, es).link;
            && l.Ok() && |s.link.received| <= |l.received|
            && Got(s, es) + l.queue + Reception.Short(Frames(l.received, l.taken))
               == Reception.Short(Frames(l.received, |s.link.received|))
  {
    ReceivingFollows(s, es);
    Reception.ReceivedExactly(s.link.received, Seen(s, es));
  }

  /**
   While a part of a conforming stream has arrived, these are the first short ones announced, and
   none of an item that has arrived whole is missing.
   */
  lemma NetRecvFraming(s: Sys, es: seq<Event>, xs: seq<Item>, t: seq<byte>, k: nat)
    requires AtBoundary(s) && Feasible(s, es) && forall i | 0 <= i < |es| :: Receiving(es[i])
    requires Conforming(xs) && Run(s, es).link.received + t == s.link.received + WireAll(xs)
    ensures var l := Run(s, es).link;
            && l.Ok()
            && var got := Got(s, es) + l.queue + Reception.Short(Frames(l.received, l.taken));
            && got <= Reception.Short(Payloads(xs))
            && (Arrived(s.link.received, xs, k, l.received) ==> Reception.Short(Payloads(xs[..k])) <= got)
  {
    ReceivingFollows(s, es);
    Reception.EndToEndFraming(s.link.received, Seen(s, es), xs, t, k);
  }
}
