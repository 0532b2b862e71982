/** Safety of the socket machine over whole runs: the operation union, connection history, datagrams. */
module SocketHistory {
  import opened Bytes
  import opened Lines
  import opened Urc
  import opened Transmit
  import opened Dialogue
  import opened Socket

  // ---- the operation and its union -------------------------------------------------------

  predicate OpFitsUnion(s: Sys) {
    && (s.op == Connecting ==> s.member == OpenMember && (s.step == 0 || s.step == 1))
    && (s.op == Sending ==> s.member == SendMember && (s.step == 0 || s.step == 1) && s.state == Connected)
  }

  lemma StepKeepsUnion(s: Sys, e: Event)
    requires Enabled(s, e) && OpFitsUnion(s)
    ensures OpFitsUnion(Step(s, e).sys)
  {
  }

  /**
   On every reachable state the union member in use is the one the current operation
   initialised and its step is 0 or 1, so the default branches of both continue
   functions are unreachable; a send is in progress only on a connected socket.
   */
  lemma {:induction false} UnionInvariant(s: Sys, es: seq<Event>)
    requires OpFitsUnion(s) && Feasible(s, es)
    ensures OpFitsUnion(Run(s, es))
    decreases |es|
  {
    if es == [] {
    } else {
      StepKeepsUnion(s, es[0]);
      UnionInvariant(Step(s, es[0]).sys, es[1..]);
    }
  }

  // ---- how a socket became connected ----------------------------------------------------

  /** From position i on: newlines, then the given line, ending at j, and its newline. */
  ghost predicate NextLine(s: seq<byte>, i: nat, text: seq<byte>, j: nat) {
    && i + |text| <= j < |s| && Blank(s, i, j - |text|)
    && s[j - |text|..j] == text && IsNewline(s[j])
  }

  /** After position f the modem answered OK and, as the very next line, +QIOPEN: 0,0, ending at e. */
  ghost predicate OpenAnswered(s: seq<byte>, f: nat, e: nat) {
    exists a: nat :: NextLine(s, f, "OK", a) && NextLine(s, a, "+QIOPEN: 0,0", e)
  }

  lemma NextLineStable(s: seq<byte>, t: seq<byte>, i: nat, text: seq<byte>, j: nat)
    requires NextLine(s, i, text, j)
    ensures NextLine(s + t, i, text, j)
  {
    assert (s + t)[j - |text|..j] == s[j - |text|..j];
  }

  lemma OpenAnsweredStable(s: seq<byte>, t: seq<byte>, f: nat, e: nat)
    requires OpenAnswered(s, f, e)
    ensures OpenAnswered(s + t, f, e)
  {
    var a: nat :| NextLine(s, f, "OK", a) && NextLine(s, a, "+QIOPEN: 0,0", e);
    NextLineStable(s, t, f, "OK", a);
    NextLineStable(s, t, a, "+QIOPEN: 0,0", e);
  }

  /** What a connect in progress has consumed since its flush. */
  ghost predicate Answering(l: Link, step: int, f: nat)
    requires l.taken <= |l.received|
  {
    && f <= l.taken
    && (step == 0 ==> Blank(l.received, f, l.taken))
    && (step == 1 ==> exists a: nat ::
          a <= l.taken && NextLine(l.received, f, "OK", a) && Blank(l.received, a, l.taken))
  }

  /**
   The last connect that succeeded was answered: its end is the last mark but for flushes of later
   connects, its flush is the mark before, and no shutdown has completed since.
   */
  ghost predicate LastAnswered(s: seq<byte>, taken: nat, log: seq<Mark>)
    decreases |log|
  {
    && log != []
    && match log[|log| - 1]
       case OpenFlush(_) => LastAnswered(s, taken, log[..|log| - 1])
       case ConnectDone(e) =>
         |log| > 1 && log[|log| - 2].OpenFlush? && e <= taken && OpenAnswered(s, log[|log| - 2].at, e)
       case ShutdownDone => false
  }

  /** What is known of a connected socket whatever becomes of its operation. */
  ghost predicate Past(s: Sys) {
    s.Ok() && OpFitsUnion(s) && (s.state == Connected ==> LastAnswered(s.link.received, s.link.taken, s.log))
  }

  ghost predicate History(s: Sys) {
    && Past(s)
    && (s.used && s.op == Connecting ==>
          |s.log| > 0 && s.log[|s.log| - 1].OpenFlush? && Answering(s.link, s.step, s.log[|s.log| - 1].at))
  }

  /**
   A call that would close the modem socket but is refused, because its command cannot
   be queued. It has flushed the received bytes all the same, and the connect goes on.
   */
  predicate RefusedClose(s: Sys, e: Event) {
    && s.used && s.op == Connecting
    && (e.Shutdown? || (e.Close? && s.state == Connected))
    && !CanClose(s.link.tx)
  }

  /** Received bytes that a pending connect will never see: pushed out by an overrun, or flushed. */
  function LostNow(s: Sys, e: Event): seq<byte>
    requires Enabled(s, e)
  {
    if s.used && s.op == Connecting && e.RxOverrun? then [s.link.received[s.link.taken]]
    else if RefusedClose(s, e) then s.link.received[s.link.taken..]
    else []
  }

  ghost function Lost(s: Sys, es: seq<Event>): seq<byte>
    requires Feasible(s, es)
    decreases |es|
  {
    if es == [] then [] else LostNow(s, es[0]) + Lost(Step(s, es[0]).sys, es[1..])
  }

  lemma NewlinesInParts(a: seq<byte>, b: seq<byte>)
    ensures AllNewlines(a + b) <==> AllNewlines(a) && AllNewlines(b)
  {
    if AllNewlines(a + b) {
      assert forall i | 0 <= i < |a| :: a[i] == (a + b)[i];
      assert forall i | 0 <= i < |b| :: b[i] == (a + b)[|a| + i];
    }
  }

  lemma TableCodes(line: seq<byte>)
    ensures Lookup(OK_OR_ERROR, line, -1) == if line == "OK" then 0 else -1
    ensures Lookup(OPENED, line, -1) == if line == "+QIOPEN: 0,0" then 0 else -1
  {
    var rest := OK_OR_ERROR[1..];
    assert rest == [Response("ERROR", -1)] && rest[1..] == [];
    assert Lookup(rest, line, -1) == -1;
    assert Lookup(OK_OR_ERROR, line, -1) == if line == "OK" then 0 else Lookup(rest, line, -1);
    assert OPENED[1..] == [];
  }

  lemma LineAt(s: seq<byte>, i: nat)
    requires i <= |s|
    ensures var b := Bol(s, i);
            var e := Eol(s, b);
            && Blank(s, i, b)
            && (e < |s| ==> NextLine(s, i, s[b..e], e))
  {
    BolSpec(s, i);
    EolSpec(s, Bol(s, i));
  }

  /** The first step consumes the line OK, or only newlines. */
  lemma OkAnswers(l: Link, f: nat)
    requires l.taken <= |l.received| && Answering(l, 0, f)
    ensures var r := OpenContinue(l, 0);
            && r.link == l.(taken := r.link.taken) && l.taken <= r.link.taken <= |l.received|
            && (r.step == 0 || r.step == 1) && r.code != 0
            && (r.code > 0 ==> Answering(r.link, r.step, f))
  {
    var s := l.received;
    var b := Bol(s, l.taken);
    var e := Eol(s, b);
    LineAt(s, l.taken);
    TableCodes(s[b..e]);
    if e < |s| && s[b..e] == "OK" {
      assert NextLine(s, f, "OK", e);
    }
  }

  /** The second step consumes the line +QIOPEN: 0,0, or only newlines. */
  lemma OpenedAnswers(l: Link, f: nat, a: nat)
    requires f <= l.taken <= |l.received|
    requires a <= l.taken && NextLine(l.received, f, "OK", a) && Blank(l.received, a, l.taken)
    ensures var r := OpenContinue(l, 1);
            && r.link == l.(taken := r.link.taken) && l.taken <= r.link.taken <= |l.received| && r.step == 1
            && (r.code > 0 ==> Blank(l.received, a, r.link.taken))
            && (r.code == 0 ==> NextLine(l.received, a, "+QIOPEN: 0,0", r.link.taken))
  {
    var s := l.received;
    var b := Bol(s, l.taken);
    LineAt(s, l.taken);
    TableCodes(s[b..Eol(s, b)]);
  }

  lemma ContinueAnswers(l: Link, step: int, f: nat)
    requires l.taken <= |l.received| && Answering(l, step, f) && (step == 0 || step == 1)
    ensures var r := OpenContinue(l, step);
            && r.link == l.(taken := r.link.taken) && l.taken <= r.link.taken <= |l.received|
            && (r.step == 0 || r.step == 1)
            && (r.code > 0 ==> Answering(r.link, r.step, f))
            && (r.code == 0 ==> OpenAnswered(l.received, f, r.link.taken))
  {
    if step == 0 {
      OkAnswers(l, f);
    } else {
      var a: nat :| a <= l.taken && NextLine(l.received, f, "OK", a) && Blank(l.received, a, l.taken);
      OpenedAnswers(l, f, a);
    }
  }

  // Connected sockets and their marks, from one state to the next.

  lemma {:induction false} LastAnsweredLater(s: seq<byte>, t: seq<byte>, i: nat, j: nat, log: seq<Mark>)
    requires LastAnswered(s, i, log) && i <= j
    ensures LastAnswered(s + t, j, log)
    decreases |log|
  {
    match log[|log| - 1]
    case OpenFlush(_) => LastAnsweredLater(s, t, i, j, log[..|log| - 1]);
    case ConnectDone(e) => OpenAnsweredStable(s, t, log[|log| - 2].at, e);
  }

  lemma ThenFlushed(s: seq<byte>, taken: nat, log: seq<Mark>, f: nat)
    requires LastAnswered(s, taken, log)
    ensures LastAnswered(s, taken, log + [OpenFlush(f)])
  {
    assert (log + [OpenFlush(f)])[..|log|] == log;
  }

  lemma ThenConnected(s: seq<byte>, taken: nat, log: seq<Mark>, f: nat, e: nat)
    requires log != [] && log[|log| - 1] == OpenFlush(f) && e <= taken && OpenAnswered(s, f, e)
    ensures LastAnswered(s, taken, log + [ConnectDone(e)])
  {
    assert (log + [ConnectDone(e)])[|log| - 1] == OpenFlush(f);
  }

  /** Bytes arrive and are consumed, and nothing is marked. */
  lemma UnmarkedKeepsPast(s: Sys, s': Sys, t: seq<byte>)
    requires Past(s) && s'.Ok() && OpFitsUnion(s')
    requires s'.link.received == s.link.received + t && s.link.taken <= s'.link.taken
    requires s'.log == s.log && s'.state == s.state
    ensures Past(s')
  {
    if s.state == Connected {
      LastAnsweredLater(s.link.received, t, s.link.taken, s'.link.taken, s.log);
    }
  }

  /** Bytes arrive and newlines are consumed or lost: what has been answered stays so. */
  lemma AnsweringMoves(l: Link, l': Link, step: int, f: nat, t: seq<byte>)
    requires l.taken <= |l.received| && Answering(l, step, f)
    requires l'.received == l.received + t && l.taken <= l'.taken <= |l'.received|
    requires Blank(l'.received, l.taken, l'.taken)
    ensures Answering(l', step, f)
  {
    if step == 1 {
      var a: nat :| a <= l.taken && NextLine(l.received, f, "OK", a) && Blank(l.received, a, l.taken);
      NextLineStable(l.received, t, f, "OK", a);
    }
  }

  lemma ArrivalKeepsAnswering(s: Sys, e: Event, f: nat)
    requires Enabled(s, e) && (e.RxByte? || e.RxOverrun?) && AllNewlines(LostNow(s, e))
    requires s.used && s.op == Connecting && Answering(s.link, s.step, f)
    ensures Step(s, e).sys.link.Ok() && Answering(Step(s, e).sys.link, s.step, f)
  {
    var l' := Step(s, e).sys.link;
    if e.RxOverrun? {
      assert LostNow(s, e)[0] == s.link.received[s.link.taken] == l'.received[s.link.taken];
    }
    AnsweringMoves(s.link, l', s.step, f, [e.b]);
  }

  lemma ArrivalKeepsHistory(s: Sys, e: Event)
    requires History(s) && Enabled(s, e) && (e.RxByte? || e.RxOverrun?) && AllNewlines(LostNow(s, e))
    ensures History(Step(s, e).sys)
  {
    UnmarkedKeepsPast(s, Step(s, e).sys, [e.b]);
    if s.used && s.op == Connecting {
      ArrivalKeepsAnswering(s, e, s.log[|s.log| - 1].at);
    }
  }

  lemma ConnectStartKeepsHistory(s: Sys, host: seq<byte>, port: seq<byte>)
    requires History(s) && s.used && s.op == NoOp
    ensures History(NetConnect(s, host, port).sys)
  {
    var r, n := s.link.received, |s.link.received|;
    assert r + [] == r;
    if s.state == Connected {
      LastAnsweredLater(r, [], s.link.taken, n, s.log);
      ThenFlushed(r, n, s.log, n);
    }
  }

  lemma AfterOpenKeepsHistory(s: Sys, r: StepReply)
    requires History(s) && s.used && s.op == Connecting
    requires r.link.Ok() && r.link.received == s.link.received && s.link.taken <= r.link.taken
    requires r.step == 0 || r.step == 1
    requires var f := s.log[|s.log| - 1].at;
             && (r.code > 0 ==> Answering(r.link, r.step, f))
             && (r.code == 0 ==> OpenAnswered(s.link.received, f, r.link.taken))
    ensures History(AfterOpen(s, r).sys)
  {
    var s' := AfterOpen(s, r).sys;
    if r.code == 0 {
      ThenConnected(r.link.received, r.link.taken, s.log, s.log[|s.log| - 1].at, r.link.taken);
    } else {
      assert s.link.received + [] == s.link.received;
      UnmarkedKeepsPast(s, s', []);
    }
  }

  lemma ConnectKeepsHistory(s: Sys, host: seq<byte>, port: seq<byte>)
    requires History(s) && s.used
    ensures History(NetConnect(s, host, port).sys)
  {
    if s.op == NoOp {
      ConnectStartKeepsHistory(s, host, port);
    } else if s.op == Connecting {
      ContinueAnswers(s.link, s.step, s.log[|s.log| - 1].at);
      AfterOpenKeepsHistory(s, OpenContinue(s.link, s.step));
    }
  }

  /** No connect is in progress after the call, and it marks nothing. */
  lemma UnmarkedKeepsHistory(s: Sys, s': Sys)
    requires History(s) && s'.Ok() && OpFitsUnion(s') && s'.op != Connecting
    requires s'.link.received == s.link.received && s.link.taken <= s'.link.taken
    requires s'.log == s.log && s'.state == s.state
    ensures History(s')
  {
    assert s.link.received + [] == s.link.received;
    UnmarkedKeepsPast(s, s', []);
  }

  lemma SendEffect(s: Sys, buf: seq<byte>)
    requires s.Ok() && OpFitsUnion(s) && s.op != Connecting
    ensures var s' := NetSend(s, buf).sys;
            && s'.Ok() && OpFitsUnion(s') && s'.op != Connecting
            && s'.link.received == s.link.received && s.link.taken <= s'.link.taken
            && s'.log == s.log && s'.state == s.state
  {
    SendContinueOk(s.link, s.step, buf);
  }

  lemma SendKeepsHistory(s: Sys, buf: seq<byte>)
    requires History(s) && s.used
    ensures History(NetSend(s, buf).sys)
  {
    if s.op != Connecting {
      SendEffect(s, buf);
      UnmarkedKeepsHistory(s, NetSend(s, buf).sys);
    }
  }

  lemma RecvEffect(s: Sys, size: nat)
    requires s.Ok() && OpFitsUnion(s)
    ensures var s' := NetRecv(s, size).sys;
            && s'.Ok() && s' == s.(link := s'.link) && (s.op != NoOp ==> s' == s)
            && s'.link.received == s.link.received && s.link.taken <= s'.link.taken
  {
    RecvCallOk(s.link, size);
  }

  lemma RecvKeepsHistory(s: Sys, size: nat)
    requires History(s) && s.used
    ensures History(NetRecv(s, size).sys)
  {
    RecvEffect(s, size);
    if s.op == NoOp { UnmarkedKeepsHistory(s, NetRecv(s, size).sys); }
  }

  /** What a shutdown call does, apart from the transmitter: it ends with an answer, or it goes on. */
  lemma ShutdownEffect(s: Sys)
    requires s.Ok()
    ensures var s' := NetShutdown(s).sys;
            && s'.Ok() && s'.link.received == s.link.received && s.link.taken <= s'.link.taken
            && s' == s.(link := s'.link, state := s'.state, op := s'.op, log := s'.log)
            && if s.op == ShuttingDown && s'.op == NoOp
               then s'.state == ShutDown
               else s'.state == s.state && s'.log == s.log && (s'.op == s.op || s'.op == ShuttingDown)
    ensures var s' := NetShutdown(s).sys;
            s.op != ShuttingDown && s'.op == s.op ==> !CanClose(s.link.tx) && s'.link.taken == |s.link.received|
  {
    CloseInitExact(s.link);
  }

  lemma ShutdownKeepsPast(s: Sys)
    requires Past(s)
    ensures Past(NetShutdown(s).sys)
  {
    ShutdownEffect(s);
    var s' := NetShutdown(s).sys;
    assert s.link.received + [] == s.link.received;
    if s'.state == Connected { UnmarkedKeepsPast(s, s', []); }
  }

  /** Flushing newlines only does not disturb a connect in progress. */
  lemma FlushKeepsAnswering(l: Link, l': Link, step: int, f: nat)
    requires l.taken <= |l.received| && Answering(l, step, f) && AllNewlines(l.received[l.taken..])
    requires l'.received == l.received && l'.taken == |l.received|
    ensures Answering(l', step, f)
  {
    var r, at := l.received, l.taken;
    assert forall k | at <= k < |r| :: r[k] == r[at..][k - at];
    assert r + [] == r;
    AnsweringMoves(l, l', step, f, []);
  }

  lemma ShutdownKeepsHistory(s: Sys)
    requires History(s) && s.used && (RefusedClose(s, Shutdown) ==> AllNewlines(s.link.received[s.link.taken..]))
    ensures History(NetShutdown(s).sys)
  {
    ShutdownKeepsPast(s);
    ShutdownEffect(s);
    var s' := NetShutdown(s).sys;
    if s'.op == Connecting {
      FlushKeepsAnswering(s.link, s'.link, s.step, s.log[|s.log| - 1].at);
    }
  }

  lemma DrainKeepsHistory(s: Sys)
    requires History(s) && Enabled(s, TxDone)
    ensures History(Step(s, TxDone).sys)
  {
  }

  lemma CloseKeepsHistory(s: Sys)
    requires History(s) && s.used && AllNewlines(LostNow(s, Close))
    ensures History(NetClose(s).sys)
  {
    if s.state == Connected { ShutdownKeepsHistory(s); }
  }

  /** A cleanup that is refused frees the slot, so that nothing it flushed matters any more. */
  lemma CleanupKeepsHistory(s: Sys)
    requires History(s) && s.used
    ensures History(NetCleanup(s).sys)
  {
    if s.state == Connected {
      ShutdownKeepsPast(s);
      ShutdownEffect(s);
    }
  }

  lemma StepKeepsHistory(s: Sys, e: Event)
    requires History(s) && Enabled(s, e) && AllNewlines(LostNow(s, e))
    ensures History(Step(s, e).sys)
  {
    match e
    case RxByte(_) => ArrivalKeepsHistory(s, e);
    case RxOverrun(_) => ArrivalKeepsHistory(s, e);
    case TxDone => DrainKeepsHistory(s);
    case Create(_) =>
    case Connect(host, port) => ConnectKeepsHistory(s, host, port);
    case Send(buf) => SendKeepsHistory(s, buf);
    case Recv(size) => RecvKeepsHistory(s, size);
    case Shutdown => ShutdownKeepsHistory(s);
    case Close => CloseKeepsHistory(s);
    case Cleanup => CleanupKeepsHistory(s);
  }

  /**
   Connection history: whenever the socket is connected, the last connect that succeeded flushed
   the received bytes, then consumed OK and as the very next line +QIOPEN: 0,0, and no shutdown
   has completed since. It holds on every run in which pending connects lose nothing but
   newlines, to a full ring or to a refused close.
   */
  lemma {:induction false} ConnectHistory(s: Sys, es: seq<Event>)
    requires History(s) && Feasible(s, es) && AllNewlines(Lost(s, es))
    ensures History(Run(s, es))
    decreases |es|
  {
    if es == [] {
    } else {
      NewlinesInParts(LostNow(s, es[0]), Lost(Step(s, es[0]).sys, es[1..]));
      StepKeepsHistory(s, es[0]);
      ConnectHistory(Step(s, es[0]).sys, es[1..]);
    }
  }
}
