/** One connect, from its flush to its success: exactly when the modem's answer was complete. */
module SocketConnect {
  import opened Bytes
  import opened Lines
  import opened Transmit
  import opened Dialogue
  import opened Socket
  import opened SocketHistory
  import opened SocketCalls
  import Sequences
  import Urc

  /** In the second step some line has been consumed since the flush. */
  ghost predicate Phase(l: Link, step: int, f: nat) {
    && f <= l.taken <= |l.received|
    && (step == 0 || (step == 1 && exists e: nat :: LineBefore(l.received, f, e, l.taken)))
  }

  ghost predicate LineBefore(s: seq<byte>, f: nat, e: nat, taken: nat) {
    f <= e <= taken && e < |s| && IsNewline(s[e]) && !Blank(s, f, e)
  }

  /** The first line OK cannot end after the end of some line. */
  lemma OkEndsFirst(s: seq<byte>, f: nat, a: nat, e: nat)
    requires NextLine(s, f, "OK", a) && f <= e < |s| && IsNewline(s[e]) && !Blank(s, f, e)
    ensures a <= e
  {
    assert s[a - 2..a][1] == s[a - 1] == 'K';
  }

  lemma NextLineEarlier(s: seq<byte>, t: seq<byte>, i: nat, text: seq<byte>, j: nat)
    requires NextLine(s + t, i, text, j) && j < |s|
    ensures NextLine(s, i, text, j)
  {
    assert (s + t)[j - |text|..j] == s[j - |text|..j];
    assert forall k | i <= k < j :: (s + t)[k] == s[k];
  }

  /**
   Bytes arrive and some are consumed or lost without being a line: the answer so far is still
   the answer exactly if it was before and these are newlines.
   */
  lemma AnsweringExact(l: Link, l': Link, step: int, f: nat, t: seq<byte>)
    requires Phase(l, step, f)
    requires l'.received == l.received + t && l.taken <= l'.taken <= |l'.received|
    ensures Phase(l', step, f)
    ensures Answering(l', step, f) <==> Answering(l, step, f) && Blank(l'.received, l.taken, l'.taken)
  {
    BlankStable(l.received, t, f, l.taken);
    if step == 1 {
      var e: nat :| LineBefore(l.received, f, e, l.taken);
      BlankStable(l.received, t, f, e);
      assert LineBefore(l'.received, f, e, l'.taken);
      if Answering(l', 1, f) {
        var a: nat :| a <= l'.taken && NextLine(l'.received, f, "OK", a) && Blank(l'.received, a, l'.taken);
        OkEndsFirst(l'.received, f, a, e);
        NextLineEarlier(l.received, t, f, "OK", a);
        BlankStable(l.received, t, a, l.taken);
      }
    }
    if Answering(l, step, f) && Blank(l'.received, l.taken, l'.taken) {
      AnsweringMoves(l, l', step, f, t);
    }
  }

  /** The first OK was consumed as the answer exactly if only newlines came before it. */
  lemma OkExact(l: Link, f: nat, b: nat, e: nat)
    requires f <= l.taken <= b <= |l.received| && Blank(l.received, l.taken, b)
    requires NextLine(l.received, l.taken, "OK", e) && b == e - 2
    ensures Phase(l.(taken := e), 1, f)
    ensures Answering(l.(taken := e), 1, f) <==> Answering(l, 0, f)
  {
    var s := l.received;
    assert s[b..e][0] == s[b] == 'O' && s[b..e][1] == s[b + 1] == 'K';
    assert LineBefore(s, f, e, e);
    if Answering(l.(taken := e), 1, f) {
      var a: nat :| a <= e && NextLine(s, f, "OK", a) && Blank(s, a, e);
      assert a == e;
    }
    if Blank(s, f, l.taken) {
      assert NextLine(s, f, "OK", e);
    }
  }

  /** The connect succeeds with the whole answer exactly if what came before the last line was the answer so far. */
  lemma OpenedExact(l: Link, f: nat, b: nat, e: nat)
    requires Phase(l, 1, f) && l.taken <= b <= |l.received| && Blank(l.received, l.taken, b)
    requires NextLine(l.received, l.taken, "+QIOPEN: 0,0", e) && b == e - 12
    ensures OpenAnswered(l.received, f, e) <==> Answering(l, 1, f)
  {
    var s := l.received;
    if OpenAnswered(s, f, e) {
      var a: nat :| NextLine(s, f, "OK", a) && NextLine(s, a, "+QIOPEN: 0,0", e);
      var e0: nat :| LineBefore(s, f, e0, l.taken);
      OkEndsFirst(s, f, a, e0);
      assert Blank(s, a, l.taken);
    }
    if Answering(l, 1, f) {
      var a: nat :| a <= l.taken && NextLine(s, f, "OK", a) && Blank(s, a, l.taken);
      assert NextLine(s, a, "+QIOPEN: 0,0", e);
    }
  }

  lemma ContinueExact(l: Link, step: int, f: nat)
    requires Phase(l, step, f)
    ensures var r := OpenContinue(l, step);
            && (r.code > 0 ==> Phase(r.link, r.step, f) && (Answering(r.link, r.step, f) <==> Answering(l, step, f)))
            && (r.code == 0 ==> (OpenAnswered(l.received, f, r.link.taken) <==> Answering(l, step, f)))
  {
    var s := l.received;
    var b := Bol(s, l.taken);
    var e := Eol(s, b);
    LineAt(s, l.taken);
    TableCodes(s[b..e]);
    assert s + [] == s;
    if e == |s| {
      AnsweringExact(l, l.(taken := b), step, f, []);
    } else if step == 0 && s[b..e] == "OK" {
      OkExact(l, f, b, e);
    } else if step == 1 && s[b..e] == "+QIOPEN: 0,0" {
      OpenedExact(l, f, b, e);
    }
  }

  // ---- a connect that goes on -------------------------------------------------------------

  predicate InConnect(s: Sys) {
    Within(s, Connecting)
  }

  lemma RefusedKeeps(s: Sys, e: Event, f: nat)
    requires InConnect(s) && Phase(s.link, s.step, f) && RefusedClose(s, e)
    ensures var s' := Step(s, e).sys;
            && Phase(s'.link, s.step, f)
            && (Answering(s'.link, s.step, f) <==> Answering(s.link, s.step, f) && AllNewlines(LostNow(s, e)))
  {
    CloseInitExact(s.link);
    var r, at := s.link.received, s.link.taken;
    assert r + [] == r;
    AnsweringExact(s.link, Step(s, e).sys.link, s.step, f, []);
    assert forall k | at <= k < |r| :: r[k] == r[at..][k - at];
    assert forall k | 0 <= k < |r| - at :: r[at..][k] == r[at + k];
  }

  lemma DrainExact(s: Sys, f: nat)
    requires InConnect(s) && Enabled(s, TxDone) && Phase(s.link, s.step, f)
    ensures var s' := Step(s, TxDone).sys;
            Phase(s'.link, s.step, f) && (Answering(s'.link, s.step, f) <==> Answering(s.link, s.step, f))
  {
    assert s.link.received + [] == s.link.received;
    AnsweringExact(s.link, Step(s, TxDone).sys.link, s.step, f, []);
  }

  lemma ArrivalExact(l: Link, l': Link, step: int, f: nat, b: byte)
    requires Phase(l, step, f) && l'.received == l.received + [b]
    requires l'.taken == l.taken || (l'.taken == l.taken + 1 && l.taken < |l.received|)
    ensures Phase(l', step, f)
    ensures Answering(l', step, f) <==>
            Answering(l, step, f) && (l'.taken == l.taken || IsNewline(l.received[l.taken]))
  {
    AnsweringExact(l, l', step, f, [b]);
    if l.taken < |l.received| { assert l'.received[l.taken] == l.received[l.taken]; }
  }

  lemma InterruptExact(s: Sys, e: Event, f: nat)
    requires InConnect(s) && Enabled(s, e) && Phase(s.link, s.step, f) && IsInterrupt(e)
    ensures var s' := Step(s, e).sys;
            && Phase(s'.link, s.step, f)
            && (Answering(s'.link, s.step, f) <==> Answering(s.link, s.step, f) && AllNewlines(LostNow(s, e)))
  {
    if e.TxDone? {
      DrainExact(s, f);
    } else {
      ArrivalExact(s.link, Step(s, e).sys.link, s.step, f, e.b);
      if e.RxOverrun? { assert LostNow(s, e)[0] == s.link.received[s.link.taken]; }
    }
  }

  /** Event by event: the answer so far survives exactly if the event loses nothing but newlines. */
  lemma LossExact(s: Sys, e: Event, f: nat)
    requires InConnect(s) && Enabled(s, e) && Phase(s.link, s.step, f) && InConnect(Step(s, e).sys)
    ensures var s' := Step(s, e).sys;
            && Phase(s'.link, s'.step, f)
            && (Answering(s'.link, s'.step, f) <==> Answering(s.link, s.step, f) && AllNewlines(LostNow(s, e)))
  {
    if IsInterrupt(e) {
      InterruptExact(s, e, f);
    } else if e.Connect? {
      ContinueExact(s.link, s.step, f);
    } else if e.Shutdown? || e.Close? || e.Cleanup? {
      CloseInitExact(s.link);
      if RefusedClose(s, e) { RefusedKeeps(s, e, f); }
    }
  }

  lemma {:induction false} StayExact(s: Sys, es: seq<Event>, f: nat)
    requires Feasible(s, es) && Stays(s, es, Connecting) && Phase(s.link, s.step, f)
    ensures var m := Run(s, es);
            && InConnect(m) && Phase(m.link, m.step, f)
            && (Answering(m.link, m.step, f) <==> Answering(s.link, s.step, f) && AllNewlines(Lost(s, es)))
    decreases |es|
  {
    if es == [] {
    } else {
      var s' := Step(s, es[0]).sys;
      NewlinesInParts(LostNow(s, es[0]), Lost(s', es[1..]));
      LossExact(s, es[0], f);
      StayExact(s', es[1..], f);
    }
  }

  /**
   A connect that has just flushed at f and whose polls end in success, anything else
   happening in between: the modem answered OK and as the very next line +QIOPEN: 0,0
   exactly if every byte lost in between, to an overrun or to a refused close, was a newline.
   */
  lemma ConnectExact(s: Sys, es: seq<Event>, host: seq<byte>, port: seq<byte>)
    requires Feasible(s, es) && Stays(s, es, Connecting) && s.step == 0
    requires Run(s, es).Ok() && NetConnect(Run(s, es), host, port).code == Done
    ensures var l := NetConnect(Run(s, es), host, port).sys.link;
            OpenAnswered(l.received, s.link.taken, l.taken) <==> AllNewlines(Lost(s, es))
  {
    var f := s.link.taken;
    StayExact(s, es, f);
    ContinueExact(Run(s, es).link, Run(s, es).step, f);
  }

  // ---- a history that fails, from the start ------------------------------------------------

  /** Es stays in the connect of s and has lost exactly these bytes so far. */
  ghost predicate Losing(s: Sys, es: seq<Event>, lost: seq<byte>) {
    Feasible(s, es) && Stays(s, es, Connecting) && Lost(s, es) == lost
  }

  lemma LostFirst(s: Sys, e: Event, es: seq<Event>)
    requires Enabled(s, e) && Feasible(Step(s, e).sys, es)
    ensures Feasible(s, [e] + es)
    ensures Lost(s, [e] + es) == LostNow(s, e) + Lost(Step(s, e).sys, es)
  {
    assert ([e] + es)[1..] == es;
  }

  lemma {:induction false} LostConcat(s: Sys, es: seq<Event>, fs: seq<Event>)
    requires Feasible(s, es) && Feasible(Run(s, es), fs)
    ensures Feasible(s, es + fs) && Lost(s, es + fs) == Lost(s, es) + Lost(Run(s, es), fs)
    decreases |es|
  {
    if es == [] {
      assert es + fs == fs;
    } else {
      var e, rest := es[0], es[1..];
      var s' := Step(s, e).sys;
      LostConcat(s', rest, fs);
      LostFirst(s, e, rest + fs);
      assert es == [e] + rest;
      ConsAppend(e, rest, fs);
      Sequences.Assoc(LostNow(s, e), Lost(s', rest), Lost(Run(s', rest), fs));
    }
  }

  lemma LosingConcat(s: Sys, es: seq<Event>, fs: seq<Event>, a: seq<byte>, b: seq<byte>)
    requires Losing(s, es, a) && Losing(Run(s, es), fs, b)
    ensures Losing(s, es + fs, a + b) && Run(s, es + fs) == Run(Run(s, es), fs)
  {
    RunConcat(s, es, fs);
    StaysConcat(s, es, fs, Connecting);
    LostConcat(s, es, fs);
  }

  lemma LosingOne(s: Sys, e: Event)
    requires InConnect(s) && Enabled(s, e) && InConnect(Step(s, e).sys)
    ensures Losing(s, [e], LostNow(s, e)) && Run(s, [e]) == Step(s, e).sys
  {
    StaysOne(s, e, Connecting);
    assert [e] + [] == [e];
    LostFirst(s, e, []);
    assert LostNow(s, e) + [] == LostNow(s, e);
  }

  /** The same run, one event longer. */
  lemma ThenEvent(s: Sys, es: seq<Event>, lost: seq<byte>, e: Event) returns (es': seq<Event>)
    requires Losing(s, es, lost) && InConnect(Run(s, es))
    requires Enabled(Run(s, es), e) && InConnect(Step(Run(s, es), e).sys)
    ensures es' == es + [e]
    ensures Losing(s, es', lost + LostNow(Run(s, es), e)) && Run(s, es') == Step(Run(s, es), e).sys
  {
    LosingOne(Run(s, es), e);
    LosingConcat(s, es, [e], lost, LostNow(Run(s, es), e));
    es' := es + [e];
  }

  lemma {:induction false} ArrivalsStay(s: Sys, bs: seq<byte>)
    requires InConnect(s)
    ensures Losing(s, Arrivals(bs), [])
    ensures Run(s, Arrivals(bs)) == s.(link := s.link.(received := s.link.received + bs))
    decreases |bs|
  {
    ArrivalsRun(s, bs);
    if bs == [] {
    } else {
      var s' := Step(s, RxByte(bs[0])).sys;
      ArrivalsStay(s', bs[1..]);
      assert Arrivals(bs)[1..] == Arrivals(bs[1..]);
    }
  }

  lemma ThenBytes(s: Sys, es: seq<Event>, lost: seq<byte>, bs: seq<byte>) returns (es': seq<Event>)
    requires Losing(s, es, lost) && InConnect(Run(s, es))
    ensures es' == es + Arrivals(bs) && Losing(s, es', lost)
    ensures var m := Run(s, es); Run(s, es') == m.(link := m.link.(received := m.link.received + bs))
  {
    ArrivalsStay(Run(s, es), bs);
    LosingConcat(s, es, Arrivals(bs), lost, []);
    assert lost + [] == lost;
    es' := es + Arrivals(bs);
  }

  /** The line at the head of what has arrived, as a poll of the connect sees it. */
  lemma PollsLine(s: Sys, before: seq<byte>, text: seq<byte>)
    requires InConnect(s) && s.link.taken == |before| && s.link.received == before + text + "\r"
    requires text != [] && NoNewline(text)
    ensures var r := OpenContinue(s.link, s.step);
            && (s.step == 0 && text == "OK" ==> r == StepReply(1, 1, s.link.(taken := |before + text|)))
            && (s.step == 1 && text == "+QIOPEN: 0,0" ==>
                  r.code == 0 && r.link == s.link.(taken := |before + text|))
  {
    var w := s.link.received;
    BolIs(w, |before|, |before|);
    EolIs(w, |before|, |before + text|);
    assert w[|before|..|before + text|] == text;
    TableCodes(text);
  }

  lemma PollsNewline(s: Sys, before: seq<byte>)
    requires InConnect(s) && s.link.taken == |before| && s.link.received == before + "\r" && s.step == 1
    ensures OpenContinue(s.link, 1) == StepReply(1, 1, s.link.(taken := |s.link.received|))
  {
    BolIs(s.link.received, |before|, |s.link.received|);
    EolIs(s.link.received, |s.link.received|, |s.link.received|);
  }

  /** A fresh driver in its first connect, the command still being sent, with these bytes received. */
  predicate FirstConnect(s: Sys, step: int, received: seq<byte>, taken: nat) {
    && InConnect(s) && s.step == step && s.link.received == received && s.link.taken == taken
    && s.link.tx.ongoing && s.state == Closed && s.log == [OpenFlush(0)]
  }

  /** Bytes arrive, and the connect is polled with this host and port. */
  predicate PollsWith(es: seq<Event>, host: seq<byte>, port: seq<byte>) {
    forall i | 0 <= i < |es| :: es[i].RxByte? || es[i] == Connect(host, port)
  }

  lemma PollsWithConcat(es: seq<Event>, fs: seq<Event>, host: seq<byte>, port: seq<byte>)
    requires PollsWith(es, host, port) && PollsWith(fs, host, port)
    ensures PollsWith(es + fs, host, port)
  {
  }

  lemma ArrivalsPoll(bs: seq<byte>, host: seq<byte>, port: seq<byte>)
    ensures PollsWith([] + Arrivals(bs), host, port)
  {
  }

  lemma StartConnects(host: seq<byte>, port: seq<byte>) returns (es: seq<Event>)
    requires |host| + |port| + 29 <= TX_CAP
    ensures Feasible(START, es) && FirstConnect(Run(START, es), 0, [], 0)
    ensures Run(START, es).link.tx.All() == OpenText(host, port)
  {
    assert Urc.Concat([]) == [];
    RunOne(START, Create(false));
    var s := Run(START, [Create(false)]);
    OpenCommandLength(host, port);
    CommandAccepted(s.link.tx, OpenCommand(host, port));
    RunOne(s, Connect(host, port));
    RunConcat(START, [Create(false)], [Connect(host, port)]);
    es := [Create(false)] + [Connect(host, port)];
    assert [] + [OpenFlush(0)] == [OpenFlush(0)];
  }

  /** The modem answers OK, two polls. */
  lemma OkAnswered(s: Sys, host: seq<byte>, port: seq<byte>) returns (es: seq<Event>)
    requires FirstConnect(s, 0, [], 0)
    ensures PollsWith(es, host, port)
    ensures Losing(s, es, []) && FirstConnect(Run(s, es), 1, "OK\r", 3)
  {
    assert Losing(s, [], []);
    es := ThenBytes(s, [], [], "OK\r");
    ArrivalsPoll("OK\r", host, port);
    assert [] + "OK\r" == [] + "OK" + "\r" == "OK\r";
    es := OkPolled(s, es, host, port);
  }

  /** Two polls: the line OK, and its terminator. */
  lemma OkPolled(s: Sys, es: seq<Event>, host: seq<byte>, port: seq<byte>) returns (es': seq<Event>)
    requires Losing(s, es, []) && FirstConnect(Run(s, es), 0, [] + "OK" + "\r", 0) && PollsWith(es, host, port)
    ensures PollsWith(es', host, port)
    ensures Losing(s, es', []) && FirstConnect(Run(s, es'), 1, "OK\r", 3)
  {
    var poll := Connect(host, port);
    PollsLine(Run(s, es), [], "OK");
    es' := ThenEvent(s, es, [], poll);
    PollsWithConcat(es, [poll], host, port);
    es' := TerminatorPolled(s, es', host, port);
  }

  lemma TerminatorPolled(s: Sys, es: seq<Event>, host: seq<byte>, port: seq<byte>) returns (es': seq<Event>)
    requires Losing(s, es, []) && FirstConnect(Run(s, es), 1, [] + "OK" + "\r", 2) && PollsWith(es, host, port)
    ensures PollsWith(es', host, port)
    ensures Losing(s, es', []) && FirstConnect(Run(s, es'), 1, "OK\r", 3)
  {
    var poll := Connect(host, port);
    assert [] + "OK" + "\r" == "OK" + "\r" == "OK\r";
    PollsNewline(Run(s, es), "OK");
    PollsWithConcat(es, [poll], host, port);
    es' := ThenEvent(s, es, [], poll);
  }

  /** Junk arrives and a refused shutdown flushes it. */
  lemma JunkFlushed(s: Sys, junk: seq<byte>) returns (es: seq<Event>)
    requires FirstConnect(s, 1, "OK\r", 3)
    ensures Losing(s, es, junk) && FirstConnect(Run(s, es), 1, "OK\r" + junk, 3 + |junk|)
  {
    assert Losing(s, [], []);
    es := ThenBytes(s, [], [], junk);
    var m := Run(s, es);
    CloseInitExact(m.link);
    assert LostNow(m, Shutdown) == junk;
    assert [] + junk == junk;
    es := ThenEvent(s, es, [], Shutdown);
  }

  /** The last line arrives; the next poll is the last. */
  lemma LastLineArrives(s: Sys, before: seq<byte>, host: seq<byte>, port: seq<byte>) returns (es: seq<Event>)
    requires FirstConnect(s, 1, before, |before|)
    ensures PollsWith(es, host, port)
    ensures Losing(s, es, []) && FirstConnect(Run(s, es), 1, before + "+QIOPEN: 0,0\r", |before|)
    ensures NetConnect(Run(s, es), host, port).code == Done
  {
    assert Losing(s, [], []);
    es := ThenBytes(s, [], [], "+QIOPEN: 0,0\r");
    ArrivalsPoll("+QIOPEN: 0,0\r", host, port);
    LastPoll(Run(s, es), before, host, port);
  }

  lemma LastPoll(s: Sys, before: seq<byte>, host: seq<byte>, port: seq<byte>)
    requires InConnect(s) && s.step == 1 && s.link.taken == |before|
    requires s.link.received == before + "+QIOPEN: 0,0\r"
    ensures NetConnect(s, host, port).code == Done
  {
    assert "+QIOPEN: 0,0\r" == "+QIOPEN: 0,0" + "\r";
    Sequences.Assoc(before, "+QIOPEN: 0,0", "\r");
    PollsLine(s, before, "+QIOPEN: 0,0");
  }

  /** The last poll of a first connect whose answer was not the whole answer. */
  lemma NotAnswered(s: Sys, host: seq<byte>, port: seq<byte>)
    requires InConnect(s) && s.log == [OpenFlush(0)] && NetConnect(s, host, port).code == Done
    requires var l := NetConnect(s, host, port).sys.link; !OpenAnswered(l.received, 0, l.taken)
    ensures var s' := NetConnect(s, host, port).sys;
            s'.state == Connected && !LastAnswered(s'.link.received, s'.link.taken, s'.log)
  {
  }

  /** OK is answered, junk is flushed, and the last line has arrived. */
  lemma BrokenAnswer(s: Sys, host: seq<byte>, port: seq<byte>, junk: seq<byte>) returns (es: seq<Event>)
    requires FirstConnect(s, 0, [], 0)
    ensures Losing(s, es, junk) && LastPollDue(Run(s, es), host, port)
    ensures Run(s, es).log == [OpenFlush(0)] && Run(s, es).link.received == "OK\r" + junk + "+QIOPEN: 0,0\r"
  {
    es := OkAnswered(s, host, port);
    var more := JunkFlushed(Run(s, es), junk);
    LosingConcat(s, es, more, [], junk);
    assert [] + junk == junk && junk + [] == junk;
    es := es + more;
    more := LastLineArrives(Run(s, es), "OK\r" + junk, host, port);
    LosingConcat(s, es, more, junk, []);
    es := es + more;
  }

  /** The next poll ends the connect with success. */
  predicate LastPollDue(s: Sys, host: seq<byte>, port: seq<byte>) {
    InConnect(s) && NetConnect(s, host, port).code == Done
  }

  /** The same run, with the first connect in front and the last poll behind. */
  lemma WithLastPoll(start: seq<Event>, es: seq<Event>, host: seq<byte>, port: seq<byte>) returns (all: seq<Event>)
    requires Feasible(START, start) && Feasible(Run(START, start), es)
    requires LastPollDue(Run(Run(START, start), es), host, port)
    ensures Feasible(START, all) && Run(START, all) == NetConnect(Run(Run(START, start), es), host, port).sys
  {
    RunConcat(START, start, es);
    var m := Run(START, start + es);
    RunOne(m, Connect(host, port));
    RunConcat(START, start + es, [Connect(host, port)]);
    all := start + es + [Connect(host, port)];
  }

  /**
   Without that condition the history fails, from the start of the driver and for every
   junk that the ring can hold and that is not just newlines: OK is answered, the junk arrives,
   a shutdown is refused because the command is still being sent, and +QIOPEN: 0,0 arrives.
   The connect succeeds, though the junk came between the two lines.
   */
  lemma HistoryCanFail(host: seq<byte>, port: seq<byte>, junk: seq<byte>) returns (es: seq<Event>)
    requires |host| + |port| + 29 <= TX_CAP && |junk| <= RX_CAP && !AllNewlines(junk)
    ensures Feasible(START, es)
    ensures var s := Run(START, es); s.state == Connected && !LastAnswered(s.link.received, s.link.taken, s.log)
    ensures Run(START, es).link.received == "OK\r" + junk + "+QIOPEN: 0,0\r"
  {
    var start := StartConnects(host, port);
    var s := Run(START, start);
    var run := BrokenAnswer(s, host, port, junk);
    ConnectExact(s, run, host, port);
    NotAnswered(Run(s, run), host, port);
    es := WithLastPoll(start, run, host, port);
  }
}
