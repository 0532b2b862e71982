/** Teardown: cleaning up a context, from every state it can be in. */
module SocketTeardown {
  import opened Bytes
  import opened Lines
  import opened Transmit
  import opened Dialogue
  import opened Socket
  import opened SocketRuns
  import opened SocketHistory

  /** A cleanup has begun to close the modem socket and waits for the answer. */
  predicate CleaningUp(s: Sys) {
    s.Ok() && s.used && s.state == Connected && s.op == ShuttingDown
  }

  /** The answer decides: none yet, OK, or anything else. */
  lemma CloseAnswer(l: Link)
    requires l.Ok()
    ensures var r, i := CloseContinue(l), l.taken;
            && (r.code > 0 <==> !LineWaits(l.received, i))
            && (r.code == 0 <==> LineIs(l.received, i, "OK"))
            && r.link == l.(taken := AfterLine(l.received, i))
            && (r.code > 0 ==> !LineWaits(l.received, r.link.taken))
  {
    var s, b := l.received, Bol(l.received, l.taken);
    TableCodes(s[b..Eol(s, b)]);
    BolSpec(s, l.taken);
    BolSkips(s, l.taken, b);
  }

  /**
   From every used context a cleanup either frees the slot or returns EINPROGRESS with a
   shutdown pending; it does the latter exactly if the socket is connected and either
   the close command could just be queued, or one is pending and no answer line is there.
   It frees the slot with an error exactly if the command could not be queued or the modem
   answered something else than OK.
   */
  lemma CleanupExact(s: Sys)
    requires s.Ok() && s.used
    ensures var r, w, i := NetCleanup(s), s.link.received, s.link.taken;
            && (r.sys.used <==> r.code == InProgress)
            && (r.code == InProgress ==> CleaningUp(r.sys))
            && (r.code == InProgress <==>
                  s.state == Connected && (if s.op == ShuttingDown then !LineWaits(w, i) else CanClose(s.link.tx)))
            && (r.code == Failed <==>
                  s.state == Connected
                  && if s.op == ShuttingDown then LineWaits(w, i) && !LineIs(w, i, "OK") else !CanClose(s.link.tx))
            && (r.code == Done <==> s.state != Connected || (s.op == ShuttingDown && LineIs(w, i, "OK")))
  {
    CloseAnswer(s.link);
    CloseInitExact(s.link);
  }

  /** Nothing else asks for the answer to the close command, and nothing takes a freed slot. */
  predicate LeavesCleanup(e: Event) {
    !e.Shutdown? && !e.Close? && !e.Create?
  }

  /** Some cleanup poll of the run found a complete line. */
  ghost predicate PollSawLine(s: Sys, es: seq<Event>)
    requires Feasible(s, es)
    decreases |es|
  {
    es != [] && (
      || (es[0].Cleanup? && LineWaits(s.link.received, s.link.taken))
      || PollSawLine(Step(s, es[0]).sys, es[1..]))
  }

  lemma OthersKeepCleaning(s: Sys, e: Event)
    requires CleaningUp(s) && Enabled(s, e) && LeavesCleanup(e) && !e.Cleanup?
    ensures CleaningUp(Step(s, e).sys)
  {
  }

  /**
   A pending cleanup completes at the first cleanup poll that sees a complete line, whatever
   the line says, and not before: over every run of interrupts, cleanup polls, and connect, send
   and receive calls in between, the slot is free in the end exactly if some poll saw a line,
   and the next create then starts afresh, closed and with no operation.
   */
  lemma {:induction false} TeardownCompletes(s: Sys, es: seq<Event>)
    requires CleaningUp(s) && Feasible(s, es)
    requires forall i | 0 <= i < |es| :: LeavesCleanup(es[i])
    ensures var s' := Run(s, es);
            && (s'.used ==> CleaningUp(s'))
            && (!s'.used <==> PollSawLine(s, es))
            && (!s'.used ==> var r := NetCreate(s', false);
                  r.code == Done && r.sys.used && r.sys.state == Closed && r.sys.op == NoOp)
    decreases |es|
  {
    if es == [] {
    } else {
      var s1 := Step(s, es[0]).sys;
      assert LeavesCleanup(es[0]);
      if !es[0].Cleanup? {
        OthersKeepCleaning(s, es[0]);
        TeardownCompletes(s1, es[1..]);
      } else {
        CleanupExact(s);
        if LineWaits(s.link.received, s.link.taken) {
          FreedStays(s1, es[1..]);
        } else {
          TeardownCompletes(s1, es[1..]);
        }
      }
    }
  }

  lemma {:induction false} FreedStays(s: Sys, es: seq<Event>)
    requires !s.used && Feasible(s, es) && forall i | 0 <= i < |es| :: LeavesCleanup(es[i])
    ensures !Run(s, es).used
    decreases |es|
  {
    if es == [] {
    } else {
      assert LeavesCleanup(es[0]);
      FreedStays(Step(s, es[0]).sys, es[1..]);
    }
  }
}
