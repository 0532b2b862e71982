/**
 The socket layer (src/compat/net.c) as a state machine: one context, polled calls that
 resume the AT dialogues, and the interrupts in between. Its runs are all interleavings.
 */
module Socket {
  import opened Bytes
  import opened Urc
  import opened Transmit
  import opened Dialogue

  datatype SocketState = Closed | Connected | ShutDown
  datatype Op = NoOp | Connecting | Sending | ShuttingDown

  /** Which member of the operation union was initialised last; both hold just a step. */
  datatype Member = Unset | OpenMember | SendMember

  datatype Code = Done | Failed | InProgress | Again | MsgSize | NotSupported

  /** Events of the history that the connection properties speak about, with stream positions. */
  datatype Mark = OpenFlush(at: nat) | ConnectDone(at: nat) | ShutdownDone

  datatype Sys = Sys(
    link: Link, used: bool, state: SocketState, op: Op, step: int, member: Member,
    log: seq<Mark>)
  {
    predicate Ok() {
      link.Ok()
    }
  }

  /** Zero-initialised statics; nothing received or sent. */
  const START := Sys(Link([], 0, [], Tx([], [], false)), false, Closed, NoOp, 0, Unset, [])

  datatype Outcome = Outcome(code: Code, sys: Sys, sent: Option<nat>, data: Option<Datagram>)

  function Returns(code: Code, sys: Sys): Outcome {
    Outcome(code, sys, None, None)
  }

  // ---- the calls ---------------------------------------------------------------------

  function NetCreate(s: Sys, inet6Only: bool): Outcome {
    if s.used then Returns(Failed, s)
    else if inet6Only then Returns(NotSupported, s)
    else Returns(Done, s.(used := true, state := Closed, op := NoOp))
  }

  /** The end of a connect poll, from the reply of modem_socket_open_continue. */
  function AfterOpen(s: Sys, r: StepReply): Outcome {
    var s' := s.(link := r.link, step := r.step);
    if r.code > 0 then Returns(InProgress, s')
    else if r.code < 0 then Returns(Failed, s'.(op := NoOp))
    else Returns(Done, s'.(op := NoOp, state := Connected, log := s.log + [ConnectDone(r.link.taken)]))
  }

  function NetConnect(s: Sys, host: seq<byte>, port: seq<byte>): Outcome
    requires s.Ok()
  {
    match s.op
    case NoOp =>
      var r := OpenInit(s.link, host, port);
      var s' := s.(link := r.link, log := s.log + [OpenFlush(|s.link.received|)]);
      if r.code != 0 then Returns(Failed, s')
      else Returns(InProgress, s'.(op := Connecting, step := 0, member := OpenMember))
    case Connecting =>
      AfterOpen(s, OpenContinue(s.link, s.step))
    case _ => Returns(Failed, s)
  }

  /** The end of a send poll, from the reply of modem_socket_send_continue. */
  function AfterSend(s: Sys, r: StepReply, len: nat): Outcome {
    var s' := s.(link := r.link, step := r.step);
    if r.code > 0 then Returns(InProgress, s')
    else if r.code < 0 then Returns(Failed, s'.(op := NoOp))
    else Outcome(Done, s'.(op := NoOp), Some(len), None)
  }

  function NetSend(s: Sys, buf: seq<byte>): Outcome
    requires s.Ok()
  {
    if s.state != Connected then Returns(Failed, s)
    else if |buf| > SOCKET_SEND_MAX then Returns(MsgSize, s)
    else match s.op
    case NoOp =>
      var r := SendInit(s.link, |buf|);
      var s' := s.(link := r.link);
      if r.code != 0 then Returns(Failed, s')
      else Returns(InProgress, s'.(op := Sending, step := 0, member := SendMember))
    case Sending =>
      AfterSend(s, SendContinue(s.link, s.step, buf), |buf|)
    case _ => Returns(Failed, s)
  }

  function NetRecv(s: Sys, size: nat): Outcome
    requires s.Ok()
  {
    if s.state == Closed then Returns(Failed, s)
    else if s.op != NoOp then Returns(Again, s)
    else
      var (r, d) := RecvCall(s.link, size);
      var s' := s.(link := r.link);
      if r.code > 0 then Returns(Again, s')
      else if r.code < 0 then Returns(Failed, s')
      else Outcome(if |d.value| == size then MsgSize else Done, s', None, d)
  }

  function NetShutdown(s: Sys): Outcome
    requires s.Ok()
  {
    match s.op
    case ShuttingDown =>
      var r := CloseContinue(s.link);
      var s' := s.(link := r.link);
      if r.code > 0 then Returns(InProgress, s')
      else Returns(if r.code < 0 then Failed else Done,
                 s'.(state := ShutDown, op := NoOp, log := s.log + [ShutdownDone]))
    case _ =>
      var r := CloseInit(s.link);
      var s' := s.(link := r.link);
      if r.code != 0 then Returns(Failed, s') else Returns(InProgress, s'.(op := ShuttingDown))
  }

  function NetClose(s: Sys): Outcome
    requires s.Ok()
  {
    match s.state
    case Closed => Returns(Done, s)
    case ShutDown => Returns(Done, s.(state := Closed))
    case Connected => NetShutdown(s)
  }

  function NetCleanup(s: Sys): Outcome
    requires s.Ok()
  {
    if s.state == Closed then Returns(Done, s.(used := false))
    else
      var r := NetClose(s);
      if r.code == InProgress then r else Returns(r.code, r.sys.(used := false))
  }

  // ---- runs ----------------------------------------------------------------------------

  // RxByte is possible even when 1755 unread bytes have arrived before it: a byte that arrives within
  // a call finds room that the call has made by then, while the machine's call is one step. So the
  // machine has every run of the driver and some more.

  datatype Event =
    | RxByte(b: byte)      // a byte arrives and nothing is lost
    | RxOverrun(b: byte)   // a byte arrives at a full ring and pushes the oldest one out
    | TxDone
    | Create(inet6Only: bool)
    | Connect(host: seq<byte>, port: seq<byte>)
    | Send(buf: seq<byte>)
    | Recv(size: nat)
    | Shutdown
    | Close
    | Cleanup

  predicate IsInterrupt(e: Event) {
    e.RxByte? || e.RxOverrun? || e.TxDone?
  }

  /** A completion comes only for a byte in flight; a call needs a context, which only Create gives. */
  predicate Enabled(s: Sys, e: Event) {
    && s.Ok()
    && (e.TxDone? ==> s.link.tx.ongoing)
    && (e.RxOverrun? ==> |s.link.received| >= s.link.taken + RX_CAP)
    && (IsInterrupt(e) || e.Create? || s.used)
  }

  function Arrival(l: Link, b: byte): Link {
    l.(received := l.received + [b])
  }

  function Step(s: Sys, e: Event): Outcome
    requires Enabled(s, e)
  {
    match e
    case RxByte(b) => Returns(Done, s.(link := Arrival(s.link, b)))
    case RxOverrun(b) => Returns(Done, s.(link := Arrival(s.link, b).(taken := s.link.taken + 1)))
    case TxDone => Returns(Done, s.(link := s.link.(tx := Complete(s.link.tx))))
    case Create(inet6Only) => NetCreate(s, inet6Only)
    case Connect(host, port) => NetConnect(s, host, port)
    case Send(buf) => NetSend(s, buf)
    case Recv(size) => NetRecv(s, size)
    case Shutdown => NetShutdown(s)
    case Close => NetClose(s)
    case Cleanup => NetCleanup(s)
  }

  ghost predicate Feasible(s: Sys, es: seq<Event>)
    decreases |es|
  {
    es == [] || (Enabled(s, es[0]) && Feasible(Step(s, es[0]).sys, es[1..]))
  }

  ghost function Run(s: Sys, es: seq<Event>): Sys
    requires Feasible(s, es)
    decreases |es|
  {
    if es == [] then s else Run(Step(s, es[0]).sys, es[1..])
  }

  lemma StepKeepsOk(s: Sys, e: Event)
    requires Enabled(s, e)
    ensures Step(s, e).sys.Ok()
  {
    match e
    case Send(buf) => SendContinueOk(s.link, s.step, buf);
    case Recv(size) => RecvCallOk(s.link, size);
    case _ =>
  }

  // ---- runs in parts -----------------------------------------------------------------------

  lemma RunFirst(s: Sys, e: Event, es: seq<Event>)
    requires Enabled(s, e) && Feasible(Step(s, e).sys, es)
    ensures Feasible(s, [e] + es) && Run(s, [e] + es) == Run(Step(s, e).sys, es)
  {
    assert ([e] + es)[1..] == es;
  }

  lemma RunOne(s: Sys, e: Event)
    requires Enabled(s, e)
    ensures Feasible(s, [e]) && Run(s, [e]) == Step(s, e).sys
  {
    assert [e][1..] == [];
  }

  lemma ConsAppend(e: Event, es: seq<Event>, fs: seq<Event>)
    ensures [e] + es + fs == [e] + (es + fs)
  {
  }

  lemma {:induction false} RunConcat(s: Sys, es: seq<Event>, fs: seq<Event>)
    requires Feasible(s, es) && Feasible(Run(s, es), fs)
    ensures Feasible(s, es + fs) && Run(s, es + fs) == Run(Run(s, es), fs)
    decreases |es|
  {
    if es == [] {
      assert es + fs == fs;
    } else {
      var s', rest := Step(s, es[0]).sys, es[1..];
      RunConcat(s', rest, fs);
      RunFirst(s, es[0], rest + fs);
      assert es == [es[0]] + rest;
      ConsAppend(es[0], rest, fs);
    }
  }

  /** The operation is in progress. */
  predicate Within(s: Sys, op: Op) {
    s.Ok() && s.used && s.op == op
  }

  /** The run stays within the operation it starts in, whatever else is called. */
  ghost predicate Stays(s: Sys, es: seq<Event>, op: Op)
    requires Feasible(s, es)
    decreases |es|
  {
    Within(s, op) && (es == [] || Stays(Step(s, es[0]).sys, es[1..], op))
  }

  lemma StaysFirst(s: Sys, e: Event, es: seq<Event>, op: Op)
    requires Within(s, op) && Enabled(s, e) && Feasible(Step(s, e).sys, es) && Stays(Step(s, e).sys, es, op)
    ensures Feasible(s, [e] + es) && Stays(s, [e] + es, op)
  {
    assert ([e] + es)[1..] == es;
  }

  lemma StaysOne(s: Sys, e: Event, op: Op)
    requires Within(s, op) && Enabled(s, e) && Within(Step(s, e).sys, op)
    ensures Feasible(s, [e]) && Stays(s, [e], op) && Run(s, [e]) == Step(s, e).sys
  {
    assert [e][1..] == [];
  }

  lemma {:induction false} StaysConcat(s: Sys, es: seq<Event>, fs: seq<Event>, op: Op)
    requires Feasible(s, es) && Stays(s, es, op) && Feasible(Run(s, es), fs) && Stays(Run(s, es), fs, op)
    ensures Feasible(s, es + fs) && Stays(s, es + fs, op)
    decreases |es|
  {
    if es == [] {
      assert es + fs == fs;
    } else {
      var s', rest := Step(s, es[0]).sys, es[1..];
      StaysConcat(s', rest, fs, op);
      StaysFirst(s, es[0], rest + fs, op);
      assert es == [es[0]] + rest;
      ConsAppend(es[0], rest, fs);
    }
  }

  lemma {:induction false} StaysToTheEnd(s: Sys, es: seq<Event>, op: Op)
    requires Feasible(s, es) && Stays(s, es, op)
    ensures Within(Run(s, es), op)
    decreases |es|
  {
    if es == [] {
    } else {
      StaysToTheEnd(Step(s, es[0]).sys, es[1..], op);
    }
  }
}
