/** A datagram lost to a send: the line that announces it is taken for the confirmation. */
module SocketLoss {
  import opened Bytes
  import opened Lines
  import opened Urc
  import opened Dialogue
  import opened Socket
  import opened SocketReceive
  import opened SocketSend
  import opened SocketCalls
  import SendWindow
  import Sequences

  /** A run in which no datagram leaves the queue. */
  ghost predicate Silent(s: Sys, es: seq<Event>) {
    Feasible(s, es) && Left(s, es) == []
  }

  lemma SilentOne(s: Sys, e: Event)
    requires Enabled(s, e) && LeftNow(s, e) == []
    ensures Silent(s, [e]) && Run(s, [e]) == Step(s, e).sys
  {
    RunOne(s, e);
    assert [e][1..] == [];
  }

  lemma SilentFirst(s: Sys, e: Event, es: seq<Event>)
    requires Enabled(s, e) && LeftNow(s, e) == [] && Silent(Step(s, e).sys, es)
    ensures Silent(s, [e] + es)
  {
    RunFirst(s, e, es);
    assert ([e] + es)[1..] == es;
  }

  lemma {:induction false} SilentConcat(s: Sys, es: seq<Event>, fs: seq<Event>)
    requires Silent(s, es) && Silent(Run(s, es), fs)
    ensures Silent(s, es + fs) && Run(s, es + fs) == Run(Run(s, es), fs)
    decreases |es|
  {
    RunConcat(s, es, fs);
    if es == [] {
      assert es + fs == fs;
    } else {
      var s', rest := Step(s, es[0]).sys, es[1..];
      assert Left(s, es) == LeftNow(s, es[0]) + Left(s', rest);
      SilentConcat(s', rest, fs);
      SilentFirst(s, es[0], rest + fs);
      assert es == [es[0]] + rest;
      ConsAppend(es[0], rest, fs);
    }
  }

  /** Receive calls within an operation only return EAGAIN. */
  lemma {:induction false} WithinIsSilent(s: Sys, es: seq<Event>, op: Op)
    requires Feasible(s, es) && Stays(s, es, op) && op != NoOp
    ensures Silent(s, es)
    decreases |es|
  {
    if es == [] {
    } else {
      WithinIsSilent(Step(s, es[0]).sys, es[1..], op);
    }
  }

  /** A payload that does not look like the announcement of another one. */
  predicate OneLine(data: Datagram) {
    data != [] && NoNewline(data) && !Kind(data).Recv? && |data| < SOCKET_RECV_MAX
  }

  /** An announced payload and one more newline, read as lines from the end of the first on. */
  lemma FrameAsLines(before: seq<byte>, data: Datagram)
    ensures before + FrameWire([], data) + "\r\n" == before + AnnouncingLine(|data|) + LineWire("\r\n", data)
  {
    assert [] + AnnouncingLine(|data|) == AnnouncingLine(|data|);
  }

  /** The send poll takes the announcement for the confirmation, and fails. */
  lemma AnnouncementFailsSend(l: Link, before: seq<byte>, data: Datagram, buf: seq<byte>)
    requires l.Ok() && OneLine(data)
    requires l.received == before + AnnouncingLine(|data|) + LineWire("\r\n", data) && l.taken == |before|
    ensures SendContinue(l, 1, buf) == StepReply(-1, 1, l.(taken := |before + AnnouncingLine(|data|)|))
  {
    var line := AnnouncingLine(|data|);
    NoNewlineInAnnouncement(|data|);
    assert before + [] == before;
    LineEnds(before, [], line, LineWire("\r\n", data));
    KindOfAnnouncement(|data|);
    SendWindow.AnnouncementIsUnexpected(line);
  }

  /** The handler reads a payload behind its lost announcement as a line, and then only newlines. */
  lemma PayloadIsLine(s: seq<byte>, front: seq<byte>, data: Datagram)
    requires OneLine(data) && s == front + LineWire("\r\n", data)
    ensures |front| <= |s| - 2
    ensures var h := Handle(s, |front|, []); h.next == |s| - 2 && h.queue == []
  {
    assert s == front + LineWire("\r\n", data) + [];
    OtherLineDecided(front, "\r\n", data, []);
  }

  lemma BlankRest(s: seq<byte>, i: nat)
    requires i <= |s| && Blank(s, i, |s|)
    ensures Handle(s, i, []) == Handling(1, |s|, []) && Frames(s, i) == []
  {
    BolIs(s, i, |s|);
  }

  lemma BlankEnd(s: seq<byte>, front: seq<byte>)
    requires s == front + "\r\n"
    ensures |front| <= |s| && Blank(s, |front|, |s|)
  {
    assert s[|front|] == '\r' && s[|front| + 1] == '\n';
  }

  lemma AnnouncedOnce(s: seq<byte>, before: seq<byte>, data: Datagram)
    requires OneLine(data) && s == before + FrameWire([], data) + "\r\n"
    ensures Frames(s, |before|) == [data]
  {
    SendWindow.ReadFrame(s, before, [], data, FrameWire([], data), "\r\n");
    BlankEnd(s, before + FrameWire([], data));
    BlankRest(s, |before + FrameWire([], data)|);
  }

  const POLL := Event.Recv(SOCKET_RECV_MAX)

  /** A receive call on an idle socket without queued datagrams runs the handler once. */
  lemma ReceiveStep(s: Sys, next: nat)
    requires s.Ok() && s.used && s.state == Connected && s.op == NoOp && s.link.queue == []
    requires var h := Handle(s.link.received, s.link.taken, []); h.next == next && h.queue == []
    ensures Enabled(s, POLL) && LeftNow(s, POLL) == []
    ensures next <= |s.link.received|
    ensures Step(s, POLL).sys == s.(link := s.link.(taken := next))
  {
  }

  lemma TwoReceives(s: Sys, next: nat) returns (es: seq<Event>)
    requires s.Ok() && s.used && s.state == Connected && s.op == NoOp && s.link.queue == []
    requires var h := Handle(s.link.received, s.link.taken, []); h.next == next && h.queue == []
    requires next <= |s.link.received|
    requires var h := Handle(s.link.received, next, []); h.next == |s.link.received| && h.queue == []
    ensures Silent(s, es) && Run(s, es) == s.(link := s.link.(taken := |s.link.received|))
  {
    ReceiveStep(s, next);
    SilentOne(s, POLL);
    var m := s.(link := s.link.(taken := next));
    ReceiveStep(m, |s.link.received|);
    SilentOne(m, POLL);
    SilentConcat(s, [POLL], [POLL]);
    es := [POLL] + [POLL];
  }

  /** After the failed send, two receive calls consume everything and find nothing. */
  lemma PayloadConsumed(s: Sys, front: seq<byte>, data: Datagram) returns (es: seq<Event>)
    requires s.Ok() && s.used && s.state == Connected && s.op == NoOp && s.link.queue == [] && OneLine(data)
    requires s.link.received == front + LineWire("\r\n", data) && s.link.taken == |front|
    ensures Silent(s, es) && Run(s, es) == s.(link := s.link.(taken := |s.link.received|))
  {
    var w, most := s.link.received, front + ("\r\n" + data);
    PayloadIsLine(w, front, data);
    assert w == most + "\r\n";
    BlankEnd(w, most);
    BlankRest(w, |most|);
    es := TwoReceives(s, |w| - 2);
  }

  /** Up to the poll that fails: the prompt is answered, and then the modem announces a datagram. */
  lemma SendFails(s: Sys, buf: seq<byte>, data: Datagram) returns (es: seq<Event>)
    requires s.Ok() && s.used && s.state == Connected && s.op == NoOp && |buf| <= 1460 && OneLine(data)
    requires !s.link.tx.ongoing && s.link.tx.queued == [] && s.link.taken == |s.link.received|
    ensures Silent(s, es) && es != [] && es[|es| - 1] == Send(buf)
    ensures var m, front := Run(s, es), s.link.received + ['>'] + AnnouncingLine(|data|);
            && m.Ok() && m.used && m.state == Connected && m.op == NoOp && m.link.queue == s.link.queue
            && m.link.received == front + LineWire("\r\n", data) && m.link.taken == |front|
  {
    var before := s.link.received + ['>'];
    var polls := PromptAnswered(s, buf);
    var s1 := NetSend(s, buf).sys;
    var all := ThenArrivals(s1, polls, AnnouncingLine(|data|) + LineWire("\r\n", data), buf);
    Sequences.Assoc(before, AnnouncingLine(|data|), LineWire("\r\n", data));
    WithinIsSilent(s1, all, Sending);
    SilentOne(s, Send(buf));
    SilentConcat(s, [Send(buf)], all);
    es := [Send(buf)] + all;
    var m := Run(s, es);
    AnnouncementFailsSend(m.link, before, data, buf);
    SilentOne(m, Send(buf));
    SilentConcat(s, es, [Send(buf)]);
    es := es + [Send(buf)];
  }

  /**
   From every drained, idle and connected socket, for every buffer and every short payload on one
   line, a run in which a send fails and the datagram announced meanwhile is lost: everything
   is consumed, nothing is queued or has left the queue, though the stream holds the datagram.
   */
  lemma SendCanLose(s: Sys, buf: seq<byte>, data: Datagram) returns (es: seq<Event>)
    requires s.Ok() && s.used && s.state == Connected && s.op == NoOp && |buf| <= 1460 && OneLine(data)
    requires !s.link.tx.ongoing && s.link.tx.queued == [] && s.link.taken == |s.link.received| && s.link.queue == []
    ensures Feasible(s, es) && Left(s, es) == []
    ensures var m, before := Run(s, es), s.link.received + ['>'];
            && m.Ok() && m.used && m.state == Connected && m.op == NoOp
            && m.link.received == before + FrameWire([], data) + "\r\n"
            && Frames(m.link.received, |before|) == [data]
            && m.link.taken == |m.link.received| && m.link.queue == []
  {
    es := SendFails(s, buf, data);
    var m, before := Run(s, es), s.link.received + ['>'];
    FrameAsLines(before, data);
    AnnouncedOnce(m.link.received, before, data);
    var more := PayloadConsumed(m, before + AnnouncingLine(|data|), data);
    SilentConcat(s, es, more);
    es := es + more;
  }
}
