/** Lenient polling for an answer, as a function of what was received and when polls happened. */
module Polling {
  import opened Bytes
  import opened Lines
  import opened Dialogue
  import Sequences

  // ---- lines that are skipped, and the first that decides ------------------------------------

  /** The code a lenient match gives to a line. */
  function LineCode(s: seq<byte>, r: Span, rs: seq<Response>): int
    requires r.begin <= r.end <= |s|
  {
    Lookup(rs, s[r.begin..r.end], 1)
  }

  /** All these lines are skipped: unknown, or known and not decisive. */
  ghost predicate AllSkipped(s: seq<byte>, done: seq<Span>, rs: seq<Response>) {
    forall k | 0 <= k < |done| :: done[k].begin <= done[k].end <= |s| && LineCode(s, done[k], rs) > 0
  }

  /** Line k from f on ends within the first `upto` bytes and is decisive; those before it are skipped. */
  ghost predicate DecisiveAt(s: seq<byte>, f: nat, upto: nat, rs: seq<Response>, code: int, k: nat)
    requires f <= |s|
  {
    && k < |Spans(s, f)| && AllSkipped(s, Spans(s, f)[..k], rs)
    && Spans(s, f)[k].begin <= Spans(s, f)[k].end <= |s| && Spans(s, f)[k].end <= upto
    && LineCode(s, Spans(s, f)[k], rs) == code <= 0
  }

  /** Among the lines from f on that end within the first `upto` bytes, the first decisive one has this code. */
  ghost predicate FirstDecisive(s: seq<byte>, f: nat, upto: nat, rs: seq<Response>, code: int)
    requires f <= |s|
  {
    exists k: nat :: DecisiveAt(s, f, upto, rs, code, k)
  }

  lemma FirstDecisiveUnique(s: seq<byte>, f: nat, upto: nat, rs: seq<Response>, c: int, c': int)
    requires f <= |s| && FirstDecisive(s, f, upto, rs, c) && FirstDecisive(s, f, upto, rs, c')
    ensures c == c'
  {
  }

  lemma {:induction false} SpansAreAhead(s: seq<byte>, i: nat, k: nat)
    requires i <= |s| && k < |Spans(s, i)|
    ensures i < Spans(s, i)[k].end
    decreases |s| - i
  {
    BolSpec(s, i);
    EolSpec(s, Bol(s, i));
    if k == 0 {
    } else {
      SpansAreAhead(s, Eol(s, Bol(s, i)), k - 1);
    }
  }

  lemma NotDecisive(s: seq<byte>, f: nat, i: nat, rs: seq<Response>, code: int, done: seq<Span>, k: nat)
    requires f <= i <= |s| && Spans(s, f) == done + Spans(s, i) && AllSkipped(s, done, rs)
    ensures !DecisiveAt(s, f, i, rs, code, k)
  {
    if k < |done| {
      assert Spans(s, f)[k] == done[k];
    } else if k < |Spans(s, f)| {
      assert Spans(s, f)[k] == Spans(s, i)[k - |done|];
      SpansAreAhead(s, i, k - |done|);
    }
  }

  /** Where all lines up to a position have been skipped, none of them was decisive. */
  lemma SkippedIsUndecided(s: seq<byte>, f: nat, i: nat, rs: seq<Response>, code: int)
    requires f <= i <= |s| && SkippedTo(s, f, i, rs)
    ensures !FirstDecisive(s, f, i, rs, code)
  {
    var done: seq<Span> :| Scanned(s, f, i, done) && AllSkipped(s, done, rs);
    assert s + [] == s;
    ScannedLines(s, [], f, i, done);
    forall k: nat ensures !DecisiveAt(s, f, i, rs, code, k) {
      NotDecisive(s, f, i, rs, code, done, k);
    }
  }

  /** The lines from f to i have all been skipped. */
  ghost predicate SkippedTo(s: seq<byte>, f: nat, i: nat, rs: seq<Response>)
    requires f <= i <= |s|
  {
    exists done: seq<Span> :: Scanned(s, f, i, done) && AllSkipped(s, done, rs)
  }

  lemma AllSkippedLater(s: seq<byte>, t: seq<byte>, done: seq<Span>, rs: seq<Response>)
    requires AllSkipped(s, done, rs)
    ensures AllSkipped(s + t, done, rs)
  {
    forall k | 0 <= k < |done| ensures LineCode(s + t, done[k], rs) > 0 {
      Sequences.SliceOfConcat(s, t, done[k].begin, done[k].end);
    }
  }

  lemma SkippedLater(s: seq<byte>, t: seq<byte>, f: nat, i: nat, rs: seq<Response>)
    requires f <= i <= |s| && SkippedTo(s, f, i, rs)
    ensures SkippedTo(s + t, f, i, rs)
  {
    var done: seq<Span> :| Scanned(s, f, i, done) && AllSkipped(s, done, rs);
    ScannedLines(s, t, f, i, done);
    AllSkippedLater(s, t, done, rs);
  }

  /** One lenient match either skips on or meets the first decisive line. */
  lemma MatchSkips(s: seq<byte>, f: nat, i: nat, rs: seq<Response>)
    requires f <= i <= |s| && SkippedTo(s, f, i, rs)
    ensures var v := Match(s, i, rs, 1);
            && (v.code > 0 ==> SkippedTo(s, f, v.next, rs))
            && (v.code <= 0 ==> FirstDecisive(s, f, v.next, rs, v.code))
  {
    var done: seq<Span> :| Scanned(s, f, i, done) && AllSkipped(s, done, rs);
    var b := Bol(s, i);
    var e := Eol(s, b);
    BolSpec(s, i);
    EolSpec(s, b);
    if e == |s| {
      ScannedPad(s, f, i, b, done);
    } else {
      var r := Span(b, e);
      if LineCode(s, r, rs) > 0 {
        ScannedSnoc(s, f, i, done, r);
        assert AllSkipped(s, done + [r], rs);
      } else {
        assert s + [] == s;
        ScannedLines(s, [], f, i, done);
        assert Spans(s, f)[|done|] == r && Spans(s, f)[..|done|] == done;
        assert DecisiveAt(s, f, e, rs, LineCode(s, r, rs), |done|);
      }
    }
  }

  lemma NothingSkipped(s: seq<byte>, f: nat, rs: seq<Response>)
    requires f <= |s|
    ensures SkippedTo(s, f, f, rs)
  {
    assert Scanned(s, f, f, []) && AllSkipped(s, [], rs);
  }

  datatype Ending = Accepted | Refused | NotSent | TimedOut

  /** What an ending says about the lines received after the flush at f. */
  ghost predicate Ended(s: seq<byte>, f: nat, taken: nat, rs: seq<Response>, ending: Ending)
    requires f <= taken <= |s|
  {
    match ending
    case Accepted => FirstDecisive(s, f, taken, rs, 0)
    case Refused => exists c :: c < 0 && FirstDecisive(s, f, taken, rs, c)
    case TimedOut => SkippedTo(s, f, taken, rs)
    case NotSent => taken == f
  }

  /** It is acceptance exactly if among the lines consumed the first decisive one has code 0. */
  lemma AcceptedExact(s: seq<byte>, f: nat, taken: nat, rs: seq<Response>, ending: Ending)
    requires f <= taken <= |s| && Ended(s, f, taken, rs, ending)
    ensures ending == Accepted <==> FirstDecisive(s, f, taken, rs, 0)
  {
    match ending
    case Accepted =>
    case Refused =>
      var c :| c < 0 && FirstDecisive(s, f, taken, rs, c);
      if FirstDecisive(s, f, taken, rs, 0) { FirstDecisiveUnique(s, f, taken, rs, c, 0); }
    case TimedOut => SkippedIsUndecided(s, f, taken, rs, 0);
    case NotSent =>
      NothingSkipped(s, f, rs);
      SkippedIsUndecided(s, f, f, rs, 0);
  }

  lemma PollStep(stream: seq<byte>, before: nat, seen: nat, now: nat, f: nat, i: nat, rs: seq<Response>)
    requires f <= i <= before <= seen <= now <= |stream| && SkippedTo(stream[..before], f, i, rs)
    ensures var v := Match(stream[..seen], i, rs, 1);
            && v.next <= now
            && (v.code > 0 ==> SkippedTo(stream[..now], f, v.next, rs))
            && (v.code <= 0 ==> FirstDecisive(stream[..now], f, v.next, rs, v.code))
  {
    Sequences.PrefixInTwo(stream, before, seen);
    SkippedLater(stream[..before], stream[before..seen], f, i, rs);
    MatchSkips(stream[..seen], f, i, rs);
    Sequences.PrefixInTwo(stream, seen, now);
    var v := Match(stream[..seen], i, rs, 1);
    if v.code > 0 {
      SkippedLater(stream[..seen], stream[seen..now], f, v.next, rs);
    } else {
      DecisiveLater(stream[..seen], stream[seen..now], f, v.next, rs, v.code);
    }
  }

  lemma DecisiveLater(s: seq<byte>, t: seq<byte>, f: nat, upto: nat, rs: seq<Response>, code: int)
    requires f <= |s| && FirstDecisive(s, f, upto, rs, code)
    ensures FirstDecisive(s + t, f, upto, rs, code)
  {
    SpansStable(s, t, f);
    var k: nat :| DecisiveAt(s, f, upto, rs, code, k);
    var done, r := Spans(s, f)[..k], Spans(s, f)[k];
    AllSkippedLater(s, t, done, rs);
    Sequences.SliceOfConcat(s, t, r.begin, r.end);
    assert Spans(s + t, f)[..k] == done && Spans(s + t, f)[k] == r;
    assert DecisiveAt(s + t, f, upto, rs, code, k);
  }

  // ---- polls against the clock -------------------------------------------------------------

  /** The clock was read, and this many bytes had arrived by then. */
  datatype Reading = Reading(tick: nat, arrived: nat)

  /** A poll after such a reading: from position `at`, on the first `seen` bytes. */
  datatype Poll = Poll(reading: Reading, at: nat, seen: nat)

  function Readings(polls: seq<Poll>): seq<Reading> {
    if polls == [] then [] else Readings(polls[..|polls| - 1]) + [polls[|polls| - 1].reading]
  }

  predicate NotBefore(a: Reading, b: Reading) {
    a.tick <= b.tick && a.arrived <= b.arrived
  }

  /** The last moment known: the start, or what the last poll saw. */
  function Latest(started: Reading, polls: seq<Poll>): Reading {
    if polls == [] then started
    else Reading(polls[|polls| - 1].reading.tick, polls[|polls| - 1].seen)
  }

  /** A poll happened after a reading, on no less than what had arrived by then. */
  predicate Happened(stream: seq<byte>, since: Reading, p: Poll) {
    NotBefore(since, p.reading) && p.reading.arrived <= p.seen <= |stream| && p.at <= p.seen
  }

  /** What a poll finds: a line that decides nothing or no line at all, 1; or a decisive line. */
  function Found(stream: seq<byte>, rs: seq<Response>, p: Poll): Verdict
    requires p.at <= p.seen <= |stream|
  {
    Match(stream[..p.seen], p.at, rs, 1)
  }

  /**
   From f on these polls happened one after the other, each after a reading below the deadline
   and each matching once; none of them was decisive, and they led to position i.
   */
  ghost predicate Skipping(
    stream: seq<byte>, f: nat, rs: seq<Response>, deadline: nat, started: Reading, polls: seq<Poll>, i: nat)
    decreases |polls|
  {
    if polls == [] then
      i == f
    else
      var n := |polls| - 1;
      var p := polls[n];
      && p.reading.tick < deadline && Happened(stream, Latest(started, polls[..n]), p)
      && Found(stream, rs, p).code > 0 && Found(stream, rs, p).next == i
      && Skipping(stream, f, rs, deadline, started, polls[..n], p.at)
  }

  lemma SkippingSnoc(
    stream: seq<byte>, f: nat, rs: seq<Response>, deadline: nat, started: Reading, polls: seq<Poll>, p: Poll)
    requires Skipping(stream, f, rs, deadline, started, polls, p.at)
    requires p.reading.tick < deadline && Happened(stream, Latest(started, polls), p)
    requires Found(stream, rs, p).code > 0
    ensures Skipping(stream, f, rs, deadline, started, polls + [p], Found(stream, rs, p).next)
    ensures Latest(started, polls + [p]) == Reading(p.reading.tick, p.seen)
    ensures Readings(polls + [p]) == Readings(polls) + [p.reading]
  {
    assert (polls + [p])[..|polls|] == polls;
  }

  /** One attempt: where it flushed, when it began to wait, its polls that decided nothing, and the end. */
  datatype Try = Try(flushed: nat, started: Reading, polls: seq<Poll>, last: Poll, taken: nat, ending: Ending)

  function Deadline(started: Reading, timeout: nat): nat {
    (started.tick + timeout) % 0x1_0000_0000
  }

  function TryReadings(t: Try): seq<Reading> {
    [t.started] + Readings(t.polls) + [t.last.reading]
  }

  /**
   The attempt ran: polls below the deadline, then a last reading. If that is at or past the
   deadline, the attempt has timed out; otherwise its poll met the decisive line.
   */
  ghost predicate Ran(stream: seq<byte>, t: Try, rs: seq<Response>, timeout: nat) {
    var deadline := Deadline(t.started, timeout);
    && t.flushed <= t.started.arrived <= |stream|
    && Skipping(stream, t.flushed, rs, deadline, t.started, t.polls, t.last.at)
    && Happened(stream, Latest(t.started, t.polls), t.last)
    && if t.last.reading.tick >= deadline then
         t.ending == TimedOut && t.taken == t.last.at
       else
         var v := Found(stream, rs, t.last);
         && v.code <= 0 && t.taken == v.next
         && t.ending == if v.code == 0 then Accepted else Refused
  }

  /** The lines met by the polls have been skipped. */
  lemma {:induction false} SkippingSkips(
    stream: seq<byte>, f: nat, rs: seq<Response>, deadline: nat, started: Reading, polls: seq<Poll>, i: nat)
    requires Skipping(stream, f, rs, deadline, started, polls, i) && f <= started.arrived <= |stream|
    ensures var known := Latest(started, polls).arrived;
            f <= i <= known <= |stream| && SkippedTo(stream[..known], f, i, rs)
    decreases |polls|
  {
    if polls == [] {
      NothingSkipped(stream[..started.arrived], f, rs);
    } else {
      var n := |polls| - 1;
      var p := polls[n];
      SkippingSkips(stream, f, rs, deadline, started, polls[..n], p.at);
      PollStep(stream, Latest(started, polls[..n]).arrived, p.seen, p.seen, f, p.at, rs);
    }
  }

  /** So the attempt ended as the lines it consumed say. */
  lemma RanEnds(stream: seq<byte>, t: Try, rs: seq<Response>, timeout: nat, now: nat)
    requires Ran(stream, t, rs, timeout) && t.last.seen <= now <= |stream|
    ensures t.flushed <= t.taken <= now && Ended(stream[..now], t.flushed, t.taken, rs, t.ending)
  {
    var deadline := Deadline(t.started, timeout);
    var known := Latest(t.started, t.polls).arrived;
    SkippingSkips(stream, t.flushed, rs, deadline, t.started, t.polls, t.last.at);
    if t.ending == TimedOut {
      Sequences.PrefixInTwo(stream, known, now);
      SkippedLater(stream[..known], stream[known..now], t.flushed, t.last.at, rs);
    } else {
      PollStep(stream, known, t.last.seen, now, t.flushed, t.last.at, rs);
    }
  }

  // ---- an answer in time -------------------------------------------------------------------

  lemma {:induction false} ArrivalsGrow(
    stream: seq<byte>, f: nat, rs: seq<Response>, deadline: nat, started: Reading, polls: seq<Poll>, i: nat, n: nat)
    requires Skipping(stream, f, rs, deadline, started, polls, i)
    ensures started.tick <= Latest(started, polls).tick
    ensures n < |polls| ==> polls[n].reading.arrived <= Latest(started, polls).arrived
    decreases |polls|
  {
    if polls == [] {
    } else {
      var front := polls[..|polls| - 1];
      ArrivalsGrow(stream, f, rs, deadline, started, front, polls[|polls| - 1].at, n);
    }
  }

  /** The next line from a position where k lines have been scanned is line number k. */
  lemma NextSpan(stream: seq<byte>, f: nat, i: nat, k: nat)
    requires f <= i <= |stream| && k <= |Spans(stream, f)|
    requires Scanned(stream, f, i, Spans(stream, f)[..k])
    ensures Spans(stream, f) == Spans(stream, f)[..k] + Spans(stream, i)
  {
    assert stream + [] == stream;
    ScannedLines(stream, [], f, i, Spans(stream, f)[..k]);
  }

  /** Line k from f on, which is complete in the first `seen` bytes, is the next one at position i. */
  lemma NextIsLine(stream: seq<byte>, f: nat, i: nat, k: nat, seen: nat)
    requires f <= i <= seen <= |stream| && k < |Spans(stream, f)|
    requires Scanned(stream, f, i, Spans(stream, f)[..k]) && Spans(stream, f)[k].end < seen
    ensures var r := Spans(stream, f)[k];
            Bol(stream[..seen], i) == r.begin && Eol(stream[..seen], r.begin) == r.end && i <= r.begin < r.end
  {
    NextSpan(stream, f, i, k);
    var b := Bol(stream, i);
    var e := Eol(stream, b);
    assert Spans(stream, f)[k] == Spans(stream, i)[0] == Span(b, e);
    BolSpec(stream, i);
    EolSpec(stream, b);
    BolIs(stream[..seen], i, b);
    EolIs(stream[..seen], b, e);
  }

  lemma FoundOnPart(stream: seq<byte>, i: nat, seen: nat)
    requires i <= seen <= |stream|
    ensures var b := Bol(stream[..seen], i);
            var e := Eol(stream[..seen], b);
            && Blank(stream, i, b)
            && (e < seen ==>
                  && b < e && Plain(stream, b, e) && IsNewline(stream[e])
                  && Bol(stream, i) == b && Eol(stream, b) == e)
  {
    var b := Bol(stream[..seen], i);
    var e := Eol(stream[..seen], b);
    BolSpec(stream[..seen], i);
    EolSpec(stream[..seen], b);
    if e < seen {
      BolIs(stream, i, b);
      EolIs(stream, b, e);
    }
  }

  /** A line found on a part of the stream is the next one of the stream. */
  lemma LineIsNext(stream: seq<byte>, f: nat, i: nat, k: nat, seen: nat)
    requires f <= i <= seen <= |stream| && k <= |Spans(stream, f)|
    requires Scanned(stream, f, i, Spans(stream, f)[..k])
    ensures var b := Bol(stream[..seen], i);
            var e := Eol(stream[..seen], b);
            && Blank(stream, i, b)
            && (e < seen ==>
                  && k < |Spans(stream, f)| && Spans(stream, f)[k] == Span(b, e) && b < e
                  && Plain(stream, b, e) && IsNewline(stream[e]))
  {
    NextSpan(stream, f, i, k);
    FoundOnPart(stream, i, seen);
  }

  /** The polls have passed c lines, none of them decisive. */
  ghost predicate Passed(stream: seq<byte>, f: nat, i: nat, c: nat)
    requires f <= i <= |stream|
  {
    c <= |Spans(stream, f)| && Scanned(stream, f, i, Spans(stream, f)[..c])
  }

  /** One more poll passes one more line if the next one is there, and never the decisive line j. */
  lemma PollPasses(stream: seq<byte>, f: nat, rs: seq<Response>, p: Poll, j: nat, c: nat) returns (c': nat)
    requires f <= p.at <= p.seen <= |stream| && Passed(stream, f, p.at, c) && c <= j < |Spans(stream, f)|
    requires Spans(stream, f)[j].begin <= Spans(stream, f)[j].end <= |stream|
    requires LineCode(stream, Spans(stream, f)[j], rs) <= 0 && Found(stream, rs, p).code > 0
    ensures f <= Found(stream, rs, p).next && Passed(stream, f, Found(stream, rs, p).next, c') && c <= c' <= j
    ensures Spans(stream, f)[c].end < p.seen ==> c' == c + 1
  {
    var b := Bol(stream[..p.seen], p.at);
    var e := Eol(stream[..p.seen], b);
    var done := Spans(stream, f)[..c];
    LineIsNext(stream, f, p.at, c, p.seen);
    if Spans(stream, f)[c].end < p.seen { NextIsLine(stream, f, p.at, c, p.seen); }
    if e == p.seen {
      ScannedPad(stream, f, p.at, b, done);
      c' := c;
    } else {
      ScannedSnoc(stream, f, p.at, done, Span(b, e));
      assert Spans(stream, f)[..c + 1] == done + [Span(b, e)];
      Sequences.SliceOfPrefix(stream, p.seen, b, e);
      c' := c + 1;
    }
  }

  /** From the poll after reading n on, at which line j is complete, every poll passes a line. */
  lemma {:induction false} PollsPass(
    stream: seq<byte>, f: nat, rs: seq<Response>, deadline: nat, started: Reading, polls: seq<Poll>, i: nat,
    n: nat, j: nat)
    returns (c: nat)
    requires Skipping(stream, f, rs, deadline, started, polls, i) && f <= started.arrived <= |stream|
    requires j < |Spans(stream, f)| && Spans(stream, f)[j].begin <= Spans(stream, f)[j].end <= |stream|
    requires LineCode(stream, Spans(stream, f)[j], rs) <= 0
    requires n < |polls| ==> Spans(stream, f)[j].end < polls[n].reading.arrived
    ensures f <= i <= |stream| && Passed(stream, f, i, c) && c <= j
    ensures n < |polls| ==> |polls| - n <= c
    decreases |polls|
  {
    if polls == [] {
      c := 0;
    } else {
      var m := |polls| - 1;
      var p := polls[m];
      c := PollsPass(stream, f, rs, deadline, started, polls[..m], p.at, n, j);
      if n <= m {
        ArrivalsGrow(stream, f, rs, deadline, started, polls, i, n);
        EndsGrow(stream, f, c, j);
      }
      c := PollPasses(stream, f, rs, p, j, c);
    }
  }

  lemma {:induction false} EndsGrow(s: seq<byte>, f: nat, c: nat, j: nat)
    requires f <= |s| && c <= j < |Spans(s, f)|
    ensures Spans(s, f)[c].end <= Spans(s, f)[j].end
    decreases |s| - f
  {
    BolSpec(s, f);
    EolSpec(s, Bol(s, f));
    var e := Eol(s, Bol(s, f));
    if c == j {
    } else if c == 0 {
      SpansAreAhead(s, e, j - 1);
    } else {
      EndsGrow(s, e, c - 1, j - 1);
    }
  }

  /** The ticks read below the deadline, each followed by one match. */
  function Matches(t: Try): nat {
    |t.polls| + if t.ending == TimedOut then 0 else 1
  }

  /** What had arrived at tick number n. */
  function ArrivedAt(t: Try, n: nat): nat {
    if n < |t.polls| then t.polls[n].reading.arrived else t.last.reading.arrived
  }

  /**
   An answer in time is taken. If line number j from the flush on is the first decisive one and has
   arrived whole at tick number n, and tick number n + j was still below the deadline, then
   the attempt ends with that line: accepted if its code is 0, refused if not. With n and j both
   0: an answer that stands first when the first poll is made decides.
   */
  lemma AnswerInTime(stream: seq<byte>, t: Try, rs: seq<Response>, timeout: nat, n: nat, j: nat, code: int)
    requires Ran(stream, t, rs, timeout)
    requires DecisiveAt(stream, t.flushed, ArrivedAt(t, n), rs, code, j)
    requires Spans(stream, t.flushed)[j].end < ArrivedAt(t, n) && n + j < Matches(t)
    ensures t.ending == if code == 0 then Accepted else Refused
  {
    var deadline := Deadline(t.started, timeout);
    var c := PollsPass(stream, t.flushed, rs, deadline, t.started, t.polls, t.last.at, n, j);
    assert t.ending != TimedOut;
    RanEnds(stream, t, rs, timeout, |stream|);
    assert stream[..|stream|] == stream;
    assert DecisiveAt(stream, t.flushed, |stream|, rs, code, j);
    DecidedEarlier(stream, t.flushed, t.taken, rs, t.ending, code);
  }

  /** What ended the attempt is the first decisive line, however far one looks. */
  lemma DecidedEarlier(s: seq<byte>, f: nat, taken: nat, rs: seq<Response>, ending: Ending, code: int)
    requires f <= taken <= |s| && Ended(s, f, taken, rs, ending) && (ending == Accepted || ending == Refused)
    requires FirstDecisive(s, f, |s|, rs, code)
    ensures ending == if code == 0 then Accepted else Refused
  {
    var c: int :| (ending == Accepted ==> c == 0) && (ending == Refused ==> c < 0) && FirstDecisive(s, f, taken, rs, c);
    var k: nat :| DecisiveAt(s, f, taken, rs, c, k);
    assert DecisiveAt(s, f, |s|, rs, c, k);
    FirstDecisiveUnique(s, f, |s|, rs, c, code);
  }

  /** A deadline beyond the 32-bit range is over before it begins: no line is ever matched. */
  lemma WrappedDeadline(stream: seq<byte>, t: Try, rs: seq<Response>, timeout: nat)
    requires Ran(stream, t, rs, timeout) && timeout < 0x1_0000_0000
    requires t.started.tick < 0x1_0000_0000 <= t.started.tick + timeout
    ensures t.ending == TimedOut && Matches(t) == 0 && t.taken == t.flushed
  {
    var deadline := Deadline(t.started, timeout);
    assert deadline == t.started.tick + timeout - 0x1_0000_0000 < t.started.tick;
    ArrivalsGrow(stream, t.flushed, rs, deadline, t.started, t.polls, t.last.at, 0);
  }
}
