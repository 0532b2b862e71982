/** Lenient polling for the answer to a bringup command (src/modem/modem.c). */
module Bringup {
  import opened Bytes
  import opened Lines
  import opened Transmit
  import opened Dialogue
  import opened RxDriver
  import opened ModemDriver
  import opened Polling
  import Sequences

  /**
   The tick counter. It never goes back and does not wrap; it may read the same for a
   while, any number of times, but it keeps advancing. Bytes may arrive before it is read.
   */
  class Clock {
    var now: nat
    var stall: nat   // how often it will still read the same

    ghost var readings: seq<Reading>   // all ticks read so far, with what had arrived

    constructor ()
      ensures readings == []
    {
      now, stall := 0, 0;
      readings := [];
    }

    method GetTick(rx: ModemRx) returns (t: nat)
      requires rx.Valid()
      modifies this, rx, rx.ring, rx.ring.storage
      ensures rx.Valid() && old(rx.arrived) <= rx.arrived && rx.taken == old(rx.taken)
      ensures t == now && readings == old(readings) + [Reading(t, rx.arrived)]
      ensures old(now) < now || (now == old(now) && stall < old(stall))
    {
      rx.Preempt();
      if stall > 0 {
        stall := stall - 1;
      } else {
        var elapsed: int, pause: int := *, *;
        now := now + if elapsed > 0 then elapsed else 1;
        stall := if pause > 0 then pause else 0;
      }
      t := now;
      readings := readings + [Reading(t, rx.arrived)];
    }
  }

  /** What has been handed over when the text has followed n times. */
  function Repeated(start: seq<byte>, text: seq<byte>, n: nat): seq<byte> {
    if n == 0 then start else Repeated(start, text, n - 1) + text
  }

  /** Reads the clock and, below the deadline, matches once. */
  method PollOnce(m: Modem, rs: seq<Response>, deadline: nat, clock: Clock, ghost since: Reading)
    returns (expired: bool, code: int, ghost p: Poll)
    requires m.Valid() && forall i | 0 <= i < |rs| :: IsText(rs[i].text)
    requires since.tick <= clock.now && since.arrived <= m.rx.arrived
    modifies clock, m.rx, m.rx.ring, m.rx.ring.storage
    ensures m.Valid() && p.at == old(m.rx.taken) && p.seen <= m.rx.arrived && p.reading.tick == clock.now
    ensures old(clock.now) < clock.now || (clock.now == old(clock.now) && clock.stall < old(clock.stall))
    ensures clock.readings == old(clock.readings) + [p.reading]
    ensures Happened(m.rx.stream, since, p)
    ensures expired <==> p.reading.tick >= deadline
    ensures if expired then m.rx.taken == p.at else Verdict(code, m.rx.taken) == Found(m.rx.stream, rs, p)
  {
    var tick := clock.GetTick(m.rx);
    p := Poll(Reading(tick, m.rx.arrived), m.rx.taken, m.rx.arrived);
    expired, code := tick >= deadline, 1;
    if !expired {
      ghost var seen;
      code, seen := MatchResponses(m.rx, rs, 1);
      p := p.(seen := seen);
    }
  }

  /** The inner loop: polls until a decisive line or the deadline. */
  method PollUntil(m: Modem, rs: seq<Response>, timeout: nat, deadline: nat, clock: Clock, ghost started: Reading)
    returns (ghost t: Try, ending: Ending)
    requires m.Valid() && forall i | 0 <= i < |rs| :: IsText(rs[i].text)
    requires deadline == Deadline(started, timeout) && started.tick <= clock.now
    requires m.rx.taken <= started.arrived <= m.rx.arrived
    modifies clock, m.rx, m.rx.ring, m.rx.ring.storage
    ensures m.Valid() && t.last.seen <= m.rx.arrived && old(m.rx.taken) <= m.rx.taken
    ensures Ran(m.rx.stream, t, rs, timeout) && t.ending == ending
    ensures t.flushed == old(m.rx.taken) && t.taken == m.rx.taken && t.started == started
    ensures clock.readings == old(clock.readings) + (Readings(t.polls) + [t.last.reading])
  {
    ghost var f, stream := m.rx.taken, m.rx.stream;
    ghost var polls: seq<Poll> := [];
    assert clock.readings + [] == clock.readings;
    while true
      invariant m.Valid() && f <= m.rx.taken && Skipping(stream, f, rs, deadline, started, polls, m.rx.taken)
      invariant Latest(started, polls).tick <= clock.now && Latest(started, polls).arrived <= m.rx.arrived
      invariant clock.readings == old(clock.readings) + Readings(polls)
      decreases deadline - clock.now, clock.stall
    {
      var expired, code;
      ghost var p;
      expired, code, p := PollOnce(m, rs, deadline, clock, Latest(started, polls));
      Sequences.Assoc(old(clock.readings), Readings(polls), [p.reading]);
      if expired || code <= 0 {
        ending := if expired then TimedOut else if code < 0 then Refused else Accepted;
        t := Try(f, started, polls, p, m.rx.taken, ending);
        return;
      }
      SkippingSnoc(stream, f, rs, deadline, started, polls, p);
      polls := polls + [p];
    }
  }

  /**
   One attempt: flush, send the command, read the clock, poll. The clock's own record says which
   ticks were read, so that none is left out and none is read twice.
   */
  method Attempt(m: Modem, command: seq<byte>, rs: seq<Response>, timeout: nat, clock: Clock)
    returns (ghost ran: Option<Try>, ending: Ending, ghost flushed: nat)
    requires m.Valid() && forall i | 0 <= i < |rs| :: IsText(rs[i].text)
    modifies clock, m.rx, m.rx.ring, m.rx.ring.storage, m.tx, m.tx.ring, m.tx.ring.storage
    ensures m.Valid() && flushed <= m.rx.taken && old(m.rx.arrived) <= flushed
    ensures ending == NotSent ==> flushed == m.rx.taken
    ensures ending == NotSent <==> ran == None
    ensures match ran
            case None => clock.readings == old(clock.readings)
            case Some(t) =>
              && Ran(m.rx.stream, t, rs, timeout) && t.flushed == flushed && t.ending == ending
              && t.taken == m.rx.taken && t.last.seen <= m.rx.arrived
              && clock.readings == old(clock.readings) + TryReadings(t)
    ensures var all := old(m.tx.View().All());
            if ending == NotSent then m.tx.View().All() == all || m.tx.View().All() == all + command
            else m.tx.View().All() == all + (command + "\r\n")
  {
    m.rx.Flush();
    flushed := m.rx.taken;
    ghost var before := m.tx.View();
    var ok;
    ghost var n;
    ok, n := m.tx.SendAll([command, "\r\n"]);
    CompletionsKeepAll(before, n);
    PiecesOfCommand(Completions(before, n), command);
    if !ok {
      return None, NotSent, flushed;
    }
    ghost var t;
    t, ending := WaitForAnswer(m, rs, timeout, clock);
    ran := Some(t);
  }

  /** The deadline is set and the polls begin. */
  method WaitForAnswer(m: Modem, rs: seq<Response>, timeout: nat, clock: Clock)
    returns (ghost t: Try, ending: Ending)
    requires m.Valid() && forall i | 0 <= i < |rs| :: IsText(rs[i].text)
    modifies clock, m.rx, m.rx.ring, m.rx.ring.storage
    ensures m.Valid() && old(m.rx.taken) <= m.rx.taken && ending != NotSent
    ensures Ran(m.rx.stream, t, rs, timeout) && t.flushed == old(m.rx.taken) && t.ending == ending
    ensures t.taken == m.rx.taken && t.last.seen <= m.rx.arrived
    ensures clock.readings == old(clock.readings) + TryReadings(t)
  {
    var now := clock.GetTick(m.rx);
    ghost var started := Reading(now, m.rx.arrived);
    var deadline := (now + timeout) % UINT32_RANGE;
    t, ending := PollUntil(m, rs, timeout, deadline, clock, started);
    Sequences.Assoc(old(clock.readings), [started], Readings(t.polls) + [t.last.reading]);
    Sequences.Assoc([started], Readings(t.polls), [t.last.reading]);
  }

  /** The clock's record after these attempts. */
  function RecordAfter(record: seq<Reading>, tries: seq<Try>): seq<Reading> {
    if tries == [] then record
    else RecordAfter(record, tries[..|tries| - 1]) + TryReadings(tries[|tries| - 1])
  }

  /** Every attempt ran, and all but the last timed out. */
  ghost predicate AllRan(stream: seq<byte>, tries: seq<Try>, rs: seq<Response>, timeout: nat)
    decreases |tries|
  {
    tries == [] || (
      var front := tries[..|tries| - 1];
      && AllRan(stream, front, rs, timeout) && Ran(stream, tries[|tries| - 1], rs, timeout)
      && (front != [] ==> front[|front| - 1].ending == TimedOut))
  }

  lemma OneMoreTry(stream: seq<byte>, tries: seq<Try>, t: Try, rs: seq<Response>, timeout: nat, r: seq<Reading>)
    requires AllRan(stream, tries, rs, timeout) && Ran(stream, t, rs, timeout)
    requires tries != [] ==> tries[|tries| - 1].ending == TimedOut
    ensures AllRan(stream, tries + [t], rs, timeout)
    ensures RecordAfter(r, tries + [t]) == RecordAfter(r, tries) + TryReadings(t)
  {
    assert (tries + [t])[..|tries|] == tries;
  }

  /** A decisive first attempt is the only one. */
  lemma {:induction false} FirstTryDecides(stream: seq<byte>, tries: seq<Try>, rs: seq<Response>, timeout: nat)
    requires AllRan(stream, tries, rs, timeout) && tries != [] && tries[0].ending != TimedOut
    ensures |tries| == 1
    decreases |tries|
  {
    var front := tries[..|tries| - 1];
    if front == [] {
    } else {
      assert front[0] == tries[0];
      FirstTryDecides(stream, front, rs, timeout);
    }
  }

  lemma {:induction false} FirstRan(stream: seq<byte>, tries: seq<Try>, rs: seq<Response>, timeout: nat)
    requires AllRan(stream, tries, rs, timeout) && tries != []
    ensures Ran(stream, tries[0], rs, timeout)
    decreases |tries|
  {
    var front := tries[..|tries| - 1];
    if front == [] {
    } else {
      assert front[0] == tries[0];
      FirstRan(stream, front, rs, timeout);
    }
  }

  /**
   An answer in time to the first attempt ends the command: if line number j after its flush is the
   first decisive one, has arrived whole at tick number n, and tick number n + j was still below
   the deadline, there was one attempt, and it ended with that line.
   */
  lemma FirstAnswerEnds(
    stream: seq<byte>, tries: seq<Try>, rs: seq<Response>, timeout: nat, n: nat, j: nat, code: int)
    requires AllRan(stream, tries, rs, timeout) && tries != [] && tries[0].flushed <= |stream|
    requires DecisiveAt(stream, tries[0].flushed, ArrivedAt(tries[0], n), rs, code, j)
    requires Spans(stream, tries[0].flushed)[j].end < ArrivedAt(tries[0], n) && n + j < Matches(tries[0])
    ensures |tries| == 1 && tries[0].ending == if code == 0 then Accepted else Refused
  {
    FirstRan(stream, tries, rs, timeout);
    AnswerInTime(stream, tries[0], rs, timeout, n, j, code);
    FirstTryDecides(stream, tries, rs, timeout);
  }

  /** The receive side is as the attempt left it. */
  ghost predicate Stands(rx: ModemRx, t: Try, flushed: nat)
    reads rx
  {
    t.flushed == flushed && t.taken == rx.taken && t.last.seen <= rx.arrived
  }

  lemma LastEnds(stream: seq<byte>, tries: seq<Try>, rs: seq<Response>, timeout: nat,
                 flushed: nat, taken: nat, arrived: nat, ending: Ending)
    requires AllRan(stream, tries, rs, timeout) && taken <= arrived <= |stream|
    requires if ending == NotSent then flushed == taken
             else tries != []
                  && var t := tries[|tries| - 1];
                  t.flushed == flushed && t.taken == taken && t.last.seen <= arrived && t.ending == ending
    ensures flushed <= taken && Ended(stream[..arrived], flushed, taken, rs, ending)
    ensures ending == Accepted <==> FirstDecisive(stream[..arrived], flushed, taken, rs, 0)
  {
    if ending != NotSent { RanEnds(stream, tries[|tries| - 1], rs, timeout, arrived); }
    AcceptedExact(stream[..arrived], flushed, taken, rs, ending);
  }

  /** The attempts so far account for the clock's record; the last has left the receive side as it is. */
  ghost predicate Accounted(
    stream: seq<byte>, tries: seq<Try>, rs: seq<Response>, timeout: nat, before: seq<Reading>, after: seq<Reading>)
  {
    AllRan(stream, tries, rs, timeout) && after == RecordAfter(before, tries)
  }

  /** One more attempt, after others that have timed out. */
  method NextAttempt(m: Modem, command: seq<byte>, rs: seq<Response>, timeout: nat, clock: Clock,
                     ghost tries: seq<Try>, ghost record: seq<Reading>, ghost start: seq<byte>)
    returns (ending: Ending, ghost flushed: nat, ghost tries': seq<Try>)
    requires m.Valid() && forall i | 0 <= i < |rs| :: IsText(rs[i].text)
    requires Accounted(m.rx.stream, tries, rs, timeout, record, clock.readings)
    requires tries != [] ==> tries[|tries| - 1].ending == TimedOut
    requires m.tx.View().All() == Repeated(start, command + "\r\n", |tries|)
    modifies clock, m.rx, m.rx.ring, m.rx.ring.storage, m.tx, m.tx.ring, m.tx.ring.storage
    ensures m.Valid() && Accounted(m.rx.stream, tries', rs, timeout, record, clock.readings)
    ensures if ending == NotSent then
              tries' == tries && flushed == m.rx.taken
            else
              |tries'| == |tries| + 1 && tries'[|tries|].ending == ending && Stands(m.rx, tries'[|tries|], flushed)
    ensures var all := Repeated(start, command + "\r\n", |tries'|);
            m.tx.View().All() == all || (ending == NotSent && m.tx.View().All() == all + command)
  {
    ghost var t;
    t, ending, flushed := Attempt(m, command, rs, timeout, clock);
    tries' := tries;
    if ending != NotSent {
      OneMoreTry(m.rx.stream, tries, t.value, rs, timeout, record);
      tries' := tries + [t.value];
    }
  }

  /** The attempts, up to the first that does not time out. */
  method RunAttempts(m: Modem, command: seq<byte>, rs: seq<Response>, timeout: nat, attempts: nat, clock: Clock)
    returns (ending: Ending, ghost flushed: nat, ghost tries: seq<Try>)
    requires m.Valid() && forall i | 0 <= i < |rs| :: IsText(rs[i].text)
    modifies clock, m.rx, m.rx.ring, m.rx.ring.storage, m.tx, m.tx.ring, m.tx.ring.storage
    ensures m.Valid() && |tries| <= attempts && (ending == TimedOut ==> |tries| == attempts)
    ensures Accounted(m.rx.stream, tries, rs, timeout, old(clock.readings), clock.readings)
    ensures tries != [] ==> tries[|tries| - 1].ending == if ending == NotSent then TimedOut else ending
    ensures ending != NotSent && tries != [] ==> Stands(m.rx, tries[|tries| - 1], flushed)
    ensures ending == Accepted || ending == Refused ==> tries != []
    ensures ending == NotSent || tries == [] ==> flushed == m.rx.taken
    ensures var all := Repeated(old(m.tx.View().All()), command + "\r\n", |tries|);
            m.tx.View().All() == all || (ending == NotSent && m.tx.View().All() == all + command)
  {
    ghost var start, text, record := m.tx.View().All(), command + "\r\n", clock.readings;
    ending, flushed, tries := TimedOut, m.rx.taken, [];
    for i := 0 to attempts
      invariant m.Valid() && |tries| == i && ending == TimedOut
      invariant m.tx.View().All() == Repeated(start, text, |tries|)
      invariant Accounted(m.rx.stream, tries, rs, timeout, record, clock.readings)
      invariant if tries == [] then flushed == m.rx.taken
                else Stands(m.rx, tries[|tries| - 1], flushed) && tries[|tries| - 1].ending == TimedOut
    {
      ending, flushed, tries := NextAttempt(m, command, rs, timeout, clock, tries, record, start);
      if ending != TimedOut {
        break;
      }
    }
  }

  /**
   bringup_command_ex. It returns 0 exactly if, among the lines consumed after the last flush, at
   position `flushed`, the first decisive one had code 0; every line before it was skipped whole.
   The command has been sent once for each of `tries`, at most `attempts` times, and nothing else.
   The tries account for every tick the clock was asked for: see Polling.AnswerInTime.
   */
  method BringupCommandEx(m: Modem, command: seq<byte>, rs: seq<Response>, timeout: nat, attempts: nat, clock: Clock)
    returns (code: int, ghost ending: Ending, ghost flushed: nat, ghost tries: seq<Try>)
    requires m.Valid() && forall i | 0 <= i < |rs| :: IsText(rs[i].text)
    modifies clock, m.rx, m.rx.ring, m.rx.ring.storage, m.tx, m.tx.ring, m.tx.ring.storage
    ensures m.Valid() && |tries| <= attempts && flushed <= m.rx.taken
    ensures code == if ending == Accepted then 0 else -1
    ensures attempts > 0 ==> Ended(m.rx.Received(), flushed, m.rx.taken, rs, ending)
    ensures attempts > 0 ==> (code == 0 <==> FirstDecisive(m.rx.Received(), flushed, m.rx.taken, rs, 0))
    ensures ending == TimedOut ==> |tries| == attempts
    ensures ending == Accepted || ending == Refused ==> tries != []
    ensures Accounted(m.rx.stream, tries, rs, timeout, old(clock.readings), clock.readings)
    ensures tries != [] ==> tries[|tries| - 1].ending == if ending == NotSent then TimedOut else ending
    ensures var all := Repeated(old(m.tx.View().All()), command + "\r\n", |tries|);
            m.tx.View().All() == all || (ending == NotSent && m.tx.View().All() == all + command)
  {
    var e;
    e, flushed, tries := RunAttempts(m, command, rs, timeout, attempts, clock);
    ending := e;
    code := if e == Accepted then 0 else -1;
    if attempts > 0 { LastEnds(m.rx.stream, tries, rs, timeout, flushed, m.rx.taken, m.rx.arrived, e); }
  }

  lemma PiecesOfCommand(t: Tx, command: seq<byte>)
    ensures var r := SendPieces(t, [command, "\r\n"]);
            && (r.ok ==> r.tx.All() == t.All() + (command + "\r\n"))
            && (!r.ok ==> r.tx.All() == t.All() || r.tx.All() == t.All() + command)
  {
    var pieces := [command, "\r\n"];
    PiecesAccepted(t, pieces);
    assert pieces[1..] == ["\r\n"] && pieces[1..][1..] == [];
    assert Join(pieces) == command + Join(pieces[1..]) && Join(pieces[1..]) == "\r\n";
    assert t.wire + (t.queued + command) == t.wire + t.queued + command;
  }
}
