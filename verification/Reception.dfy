/**
 Reception over whole runs: bytes arrive one by one, the socket is polled for datagrams, and
 the dialogues consume prompts and lines or flush everything, in any order.
 */
module Reception {
  import opened Bytes
  import opened Lines
  import opened Urc
  import opened Dialogue
  import SendWindow
  import Sequences

  datatype Event =
    | Arrive(b: byte)     // RX completion interrupt that finds a free slot
    | Overrun(b: byte)    // one that finds the ring full
    | Poll(size: nat)     // modem_socket_try_recv with a buffer of this size
    | Await               // modem_socket_send_continue, waiting for the prompt
    | Answer              // a dialogue takes the next line for its answer
    | Flush               // a command flushes the buffer first

  /** What became of a complete frame. */
  datatype Fate = Fate(data: Datagram, kept: bool)

  /** A datagram taken out of the queue, and whether the caller's buffer held it. */
  datatype Delivery = Delivery(data: Datagram, whole: bool)

  /**
   `at`: how far the stream has been consumed; `from`: where reception began, or where it began
   anew after a break; `base`: how many frames had been met there.
   */
  datatype Station = Station(
    from: nat, base: nat, stream: seq<byte>, at: nat, queue: seq<Datagram>, seen: seq<Fate>, out: seq<Delivery>)

  /** Reception begins after some bytes, with an empty queue. */
  function Begin(before: seq<byte>): Station {
    Station(|before|, 0, before, |before|, [], [], [])
  }

  predicate Possible(s: Station, e: Event) {
    s.at <= |s.stream| && (e.Overrun? ==> |s.stream| >= s.at + RX_CAP)
  }

  /**
   The events that take something else than whole lines and frames: a prompt, a line that announces
   a datagram but is taken for an answer (SendWindow.ConfirmExact), a lost byte that is no newline.
   */
  predicate Breaks(s: Station, e: Event)
    requires Possible(s, e)
  {
    match e
    case Overrun(_) => !IsNewline(s.stream[s.at])
    case Await => Prompted(s.stream, s.at)
    case Answer => Announces(s.stream, s.at)
    case Flush => !Blank(s.stream, s.at, |s.stream|)
    case _ => false
  }

  /** Consumption goes on at `next`; after a break the frames are counted from there. */
  function GoOn(s: Station, next: nat, breaks: bool): Station {
    if breaks then s.(at := next, from := next, base := |s.seen|) else s.(at := next)
  }

  function FateOf(s: Station): seq<Fate>
    requires s.at <= |s.stream|
  {
    var d := Decide(s.stream, s.at);
    if d.Frame? then [Fate(s.stream[d.body..d.next], Accepts(s.queue, d.next - d.body))] else []
  }

  function Step(s: Station, e: Event): (r: Station)
    requires Possible(s, e)
    ensures r.at <= |r.stream|
  {
    match e
    case Arrive(b) => s.(stream := s.stream + [b])
    case Poll(size) =>
      var r := TryRecv(s.stream, s.at, s.queue, size);
      if s.queue == [] then
        s.(at := r.next, queue := r.queue, seen := s.seen + FateOf(s))
      else
        s.(at := r.next, queue := r.queue, out := s.out + [Delivery(s.queue[0], r.data == Some(s.queue[0]))])
    case Await =>
      if Breaks(s, e) then
        GoOn(s, Bol(s.stream, s.at) + 1, true)
      else
        var h := Handle(s.stream, s.at, s.queue);
        s.(at := h.next, queue := h.queue, seen := s.seen + FateOf(s))
    case Overrun(b) => GoOn(s.(stream := s.stream + [b]), s.at + 1, Breaks(s, e))
    case Answer => GoOn(s, SendWindow.Confirmed(s.stream, s.at), Breaks(s, e))
    case Flush => GoOn(s, |s.stream|, Breaks(s, e))
  }

  predicate Feasible(s: Station, es: seq<Event>)
    decreases |es|
  {
    es == [] || (Possible(s, es[0]) && Feasible(Step(s, es[0]), es[1..]))
  }

  function Run(s: Station, es: seq<Event>): (r: Station)
    requires s.at <= |s.stream| && Feasible(s, es)
    ensures r.at <= |r.stream|
    decreases |es|
  {
    if es == [] then s else Run(Step(s, es[0]), es[1..])
  }

  lemma RunFirst(s: Station, e: Event, es: seq<Event>)
    requires Possible(s, e) && Feasible(Step(s, e), es)
    ensures Feasible(s, [e] + es) && Run(s, [e] + es) == Run(Step(s, e), es)
  {
    assert ([e] + es)[1..] == es;
  }

  // ---- conservation -------------------------------------------------------------

  function Data(fates: seq<Fate>): seq<Datagram> {
    if fates == [] then [] else Data(fates[..|fates| - 1]) + [fates[|fates| - 1].data]
  }

  function Kept(fates: seq<Fate>): seq<Datagram> {
    if fates == [] then [] else
    var last := fates[|fates| - 1];
    Kept(fates[..|fates| - 1]) + if last.kept then [last.data] else []
  }

  function Taken(out: seq<Delivery>): seq<Datagram> {
    if out == [] then [] else Taken(out[..|out| - 1]) + [out[|out| - 1].data]
  }

  /** The datagrams below the size at which the modem may have truncated them. */
  function Short(q: seq<Datagram>): seq<Datagram> {
    if q == [] then [] else
    var last := q[|q| - 1];
    Short(q[..|q| - 1]) + if |last| < SOCKET_RECV_MAX then [last] else []
  }

  /** The data of the frames met since the last break. */
  function Met(s: Station): seq<Datagram>
    requires s.base <= |s.seen|
  {
    Data(s.seen[s.base..])
  }

  /** The frames met since, followed by those still to be met, are those of the whole stream from there. */
  ghost predicate Split(s: Station)
    requires s.from <= s.at <= |s.stream| && s.base <= |s.seen|
  {
    forall t: seq<byte> :: Frames(s.stream + t, s.from) == Met(s) + Frames(s.stream + t, s.at)
  }

  ghost predicate Inv(s: Station) {
    && s.from <= s.at <= |s.stream| && s.base <= |s.seen| && QueueOk(s.queue)
    && Split(s)
    && Kept(s.seen) == Taken(s.out) + s.queue
  }

  lemma MetGrows(s: Station, s': Station)
    requires s.at <= |s.stream| && s.base <= |s.seen|
    requires s'.base == s.base && s'.seen == s.seen + FateOf(s)
    ensures Met(s') == Met(s) + Found(s.stream, Decide(s.stream, s.at))
  {
    var fates := s'.seen[s.base..];
    assert fates == s.seen[s.base..] + FateOf(s);
    if FateOf(s) == [] {
      assert fates == s.seen[s.base..];
    } else {
      assert fates[..|fates| - 1] == s.seen[s.base..];
    }
  }

  lemma SeenGrows(s: Station, s': Station)
    requires s.from <= s.at <= |s.stream| && s.base <= |s.seen| && Split(s)
    requires s'.from == s.from && s'.base == s.base && s'.stream == s.stream
    requires s'.at == Decide(s.stream, s.at).next && s'.seen == s.seen + FateOf(s)
    ensures Split(s')
  {
    MetGrows(s, s');
    var d := Decide(s.stream, s.at);
    forall t: seq<byte>
      ensures Frames(s.stream + t, s.from) == Met(s') + Frames(s.stream + t, s'.at)
    {
      HandlerSplits(s.stream, t, s.at);
      Sequences.Assoc(Met(s), Found(s.stream, d), Frames(s.stream + t, d.next));
    }
  }

  lemma ArrivalKeepsSplit(s: Station, b: byte)
    requires s.from <= s.at <= |s.stream| && s.base <= |s.seen| && Split(s)
    ensures Split(s.(stream := s.stream + [b]))
  {
    forall t: seq<byte>
      ensures Frames(s.stream + [b] + t, s.from) == Met(s) + Frames(s.stream + [b] + t, s.at)
    {
      Sequences.Assoc(s.stream, [b], t);
    }
  }

  lemma KeptSnoc(fates: seq<Fate>, f: Fate)
    ensures Kept(fates + [f]) == Kept(fates) + if f.kept then [f.data] else []
  {
    assert (fates + [f])[..|fates|] == fates;
  }

  lemma KeptGrows(s: Station)
    requires s.at <= |s.stream| && Kept(s.seen) == Taken(s.out) + s.queue
    ensures Kept(s.seen + FateOf(s)) == Taken(s.out) + Handle(s.stream, s.at, s.queue).queue
  {
    var f := FateOf(s);
    if f == [] {
      assert s.seen + f == s.seen;
    } else {
      KeptSnoc(s.seen, f[0]);
      Sequences.Assoc(Taken(s.out), s.queue, [f[0].data]);
    }
  }

  lemma HandlingKeepsInv(s: Station, s': Station)
    requires Inv(s)
    requires var h := Handle(s.stream, s.at, s.queue);
             s' == s.(at := h.next, queue := h.queue, seen := s.seen + FateOf(s))
    ensures Inv(s')
  {
    SeenGrows(s, s');
    HandleKeepsQueueOk(s.stream, s.at, s.queue);
    KeptGrows(s);
  }

  /** Frames counted from here on. */
  lemma FreshSplit(s: Station)
    requires s.from == s.at <= |s.stream| && s.base == |s.seen|
    ensures Split(s)
  {
    assert s.seen[|s.seen|..] == [];
  }

  lemma BreakKeepsInv(s: Station, e: Event)
    requires Inv(s) && Possible(s, e) && Breaks(s, e)
    ensures Inv(Step(s, e))
  {
    FreshSplit(Step(s, e));
  }

  /** Consumption goes on where the frames of every continuation are the same. */
  lemma GoOnKeepsInv(s: Station, next: nat)
    requires Inv(s) && s.at <= next <= |s.stream|
    requires forall t: seq<byte> :: Frames(s.stream + t, s.at) == Frames(s.stream + t, next)
    ensures Inv(s.(at := next))
  {
  }

  lemma BlankKeepsFrames(s: seq<byte>, t: seq<byte>, i: nat, j: nat)
    requires i <= j <= |s| && Blank(s, i, j)
    ensures Frames(s + t, i) == Frames(s + t, j)
  {
    BlankStable(s, t, i, j);
    BolSkips(s + t, i, j);
    FramesFromSameLine(s + t, i, j);
  }

  lemma BlankKeepsInv(s: Station, next: nat)
    requires Inv(s) && s.at <= next <= |s.stream| && Blank(s.stream, s.at, next)
    ensures Inv(s.(at := next))
  {
    forall t: seq<byte> ensures Frames(s.stream + t, s.at) == Frames(s.stream + t, next) {
      BlankKeepsFrames(s.stream, t, s.at, next);
    }
    GoOnKeepsInv(s, next);
  }

  lemma LineKeepsInv(s: Station)
    requires Inv(s) && !Announces(s.stream, s.at)
    ensures Inv(s.(at := SendWindow.Confirmed(s.stream, s.at)))
  {
    var next := SendWindow.Confirmed(s.stream, s.at);
    forall t: seq<byte> ensures Frames(s.stream + t, s.at) == Frames(s.stream + t, next) {
      SendWindow.ConfirmKeepsFrames(s.stream, t, s.at);
    }
    GoOnKeepsInv(s, next);
  }

  lemma TakenGrows(out: seq<Delivery>, d: Datagram, whole: bool, rest: seq<Datagram>)
    ensures Taken(out + [Delivery(d, whole)]) + rest == Taken(out) + ([d] + rest)
  {
    assert (out + [Delivery(d, whole)])[..|out|] == out;
    Sequences.Assoc(Taken(out), [d], rest);
  }

  /** The split speaks about the stream, not about what became of the frames. */
  lemma SplitIgnoresQueue(s: Station, q: seq<Datagram>, out: seq<Delivery>)
    requires s.from <= s.at <= |s.stream| && s.base <= |s.seen| && Split(s)
    ensures Split(s.(queue := q, out := out))
  {
  }

  lemma TakingKeepsInv(s: Station, whole: bool)
    requires Inv(s) && s.queue != []
    ensures Inv(s.(queue := s.queue[1..], out := s.out + [Delivery(s.queue[0], whole)]))
  {
    QueueTail(s.queue);
    TakenGrows(s.out, s.queue[0], whole, s.queue[1..]);
    SplitIgnoresQueue(s, s.queue[1..], s.out + [Delivery(s.queue[0], whole)]);
    assert s.queue == [s.queue[0]] + s.queue[1..];
  }

  lemma PollKeepsInv(s: Station, size: nat)
    requires Inv(s)
    ensures Inv(Step(s, Poll(size)))
  {
    if s.queue == [] {
      HandlingKeepsInv(s, Step(s, Poll(size)));
    } else {
      TakingKeepsInv(s, TryRecv(s.stream, s.at, s.queue, size).data == Some(s.queue[0]));
    }
  }

  lemma ArriveKeepsInv(s: Station, b: byte)
    requires Inv(s)
    ensures Inv(Step(s, Arrive(b)))
  {
    ArrivalKeepsSplit(s, b);
  }

  /** Losing a newline breaks nothing. */
  lemma NewlineKeepsInv(s: Station)
    requires Inv(s) && s.at < |s.stream| && IsNewline(s.stream[s.at])
    ensures Inv(s.(at := s.at + 1))
  {
    BlankKeepsInv(s, s.at + 1);
  }

  lemma OverrunIsArrive(s: Station, b: byte)
    requires Possible(s, Overrun(b)) && !Breaks(s, Overrun(b))
    ensures var s' := Step(s, Arrive(b));
            && s'.at < |s'.stream| && IsNewline(s'.stream[s'.at])
            && Step(s, Overrun(b)) == s'.(at := s'.at + 1)
  {
  }

  lemma OverrunKeepsInv(s: Station, b: byte)
    requires Inv(s) && Possible(s, Overrun(b)) && !Breaks(s, Overrun(b))
    ensures Inv(Step(s, Overrun(b)))
  {
    OverrunIsArrive(s, b);
    ArriveKeepsInv(s, b);
    var s' := Step(s, Arrive(b));
    NewlineKeepsInv(s');
    assert Inv(s'.(at := s'.at + 1));
  }

  lemma AwaitKeepsInv(s: Station)
    requires Inv(s) && !Breaks(s, Await)
    ensures Inv(Step(s, Await))
  {
    HandlingKeepsInv(s, Step(s, Await));
  }

  lemma AnswerKeepsInv(s: Station)
    requires Inv(s) && !Breaks(s, Answer)
    ensures Inv(Step(s, Answer))
  {
    LineKeepsInv(s);
  }

  lemma FlushKeepsInv(s: Station)
    requires Inv(s) && !Breaks(s, Flush)
    ensures Inv(Step(s, Flush))
  {
    BlankKeepsInv(s, |s.stream|);
  }

  lemma StepKeepsInv(s: Station, e: Event)
    requires Inv(s) && Possible(s, e)
    ensures Inv(Step(s, e))
  {
    if Breaks(s, e) {
      BreakKeepsInv(s, e);
    } else {
      match e
      case Arrive(b) => ArriveKeepsInv(s, b);
      case Overrun(b) => OverrunKeepsInv(s, b);
      case Poll(size) => PollKeepsInv(s, size);
      case Await => AwaitKeepsInv(s);
      case Answer => AnswerKeepsInv(s);
      case Flush => FlushKeepsInv(s);
    }
  }

  /** No event of the run breaks. */
  predicate Unbroken(s: Station, es: seq<Event>)
    requires s.at <= |s.stream| && Feasible(s, es)
    decreases |es|
  {
    es == [] || (!Breaks(s, es[0]) && Unbroken(Step(s, es[0]), es[1..]))
  }

  lemma {:induction false} RunKeepsInv(s: Station, es: seq<Event>)
    requires Inv(s) && Feasible(s, es)
    ensures Inv(Run(s, es))
    decreases |es|
  {
    if es == [] {
    } else {
      StepKeepsInv(s, es[0]);
      RunKeepsInv(Step(s, es[0]), es[1..]);
    }
  }

  lemma StepKeepsFrom(s: Station, e: Event)
    requires Possible(s, e) && !Breaks(s, e)
    ensures Step(s, e).from == s.from && Step(s, e).base == s.base
  {
  }

  lemma {:induction false} UnbrokenKeepsFrom(s: Station, es: seq<Event>)
    requires s.at <= |s.stream| && Feasible(s, es) && Unbroken(s, es)
    ensures Run(s, es).from == s.from && Run(s, es).base == s.base
    decreases |es|
  {
    if es == [] {
    } else {
      StepKeepsFrom(s, es[0]);
      UnbrokenKeepsFrom(Step(s, es[0]), es[1..]);
    }
  }

  /**
   Nothing is invented, lost or reordered but by a break, for every byte stream and every
   schedule: the frames met since the last break are the first frames of the stream from there,
   and of all frames met the kept ones are the datagrams taken and those queued.
   */
  lemma Conservation(s: Station, es: seq<Event>)
    requires Inv(s) && Feasible(s, es)
    ensures var r := Run(s, es); Inv(r) && Met(r) + Frames(r.stream, r.at) == Frames(r.stream, r.from)
    ensures Unbroken(s, es) ==> Run(s, es).from == s.from && Run(s, es).base == s.base
  {
    RunKeepsInv(s, es);
    var r := Run(s, es);
    assert r.stream + [] == r.stream;
    if Unbroken(s, es) { UnbrokenKeepsFrom(s, es); }
  }

  /**
   Framing is exact again after every break that ends at the boundary of an item. While any part
   of a stream that is conforming from there has arrived, the frames met since and those unread
   are the first announced ones, byte-exact, and none of an item that has arrived whole is missing.
   */
  lemma FramingFromBreak(s: Station, es: seq<Event>, xs: seq<Item>, t: seq<byte>, k: nat)
    requires Inv(s) && Feasible(s, es) && Conforming(xs)
    requires var r := Run(s, es);
             r.from <= |r.stream| && r.stream + t == r.stream[..r.from] + WireAll(xs)
    ensures var r := Run(s, es);
            && r.base <= |r.seen| && Met(r) + Frames(r.stream, r.at) <= Payloads(xs)
            && (Arrived(r.stream[..r.from], xs, k, r.stream) ==>
                  Payloads(xs[..k]) <= Met(r) + Frames(r.stream, r.at))
            && Kept(r.seen) == Taken(r.out) + r.queue
  {
    Conservation(s, es);
    var r := Run(s, es);
    PartialFrames(r.stream[..r.from], xs, r.stream, t, k);
  }

  lemma BeginInv(before: seq<byte>)
    ensures Inv(Begin(before))
  {
    assert Concat([]) == [];
  }

  // ---- polling for datagrams only -------------------------------------------------

  predicate ReceiveOnly(es: seq<Event>) {
    forall i | 0 <= i < |es| :: es[i].Arrive? || es[i].Poll?
  }

  predicate LargeBuffers(es: seq<Event>) {
    forall i | 0 <= i < |es| :: es[i].Poll? ==> es[i].size >= SOCKET_RECV_MAX - 1
  }

  predicate ShortKept(s: Station) {
    forall i | 0 <= i < |s.seen| :: s.seen[i].kept <==> |s.seen[i].data| < SOCKET_RECV_MAX
  }

  predicate AllWhole(s: Station) {
    forall i | 0 <= i < |s.out| :: s.out[i].whole
  }

  lemma PollKeepsShort(s: Station, e: Event)
    requires QueueOk(s.queue) && Possible(s, e) && (e.Arrive? || e.Poll?) && ShortKept(s)
    ensures QueueOk(Step(s, e).queue) && ShortKept(Step(s, e))
    ensures (e.Poll? ==> e.size >= SOCKET_RECV_MAX - 1) && AllWhole(s) ==> AllWhole(Step(s, e))
  {
    assert Concat([]) == [];
    if e.Poll? { TryRecvKeepsQueueOk(s.stream, s.at, s.queue, e.size); }
    if e.Poll? && s.queue == [] {
      var f := FateOf(s);
      assert forall i | 0 <= i < |f| :: f[i].kept <==> |f[i].data| < SOCKET_RECV_MAX;
    }
  }

  /** With an empty queue the handler runs only into datagrams of full size or more. */
  lemma {:induction false} PollsKeepShort(s: Station, es: seq<Event>)
    requires s.at <= |s.stream| && QueueOk(s.queue) && Feasible(s, es) && ReceiveOnly(es) && ShortKept(s)
    ensures ShortKept(Run(s, es)) && Unbroken(s, es)
    ensures LargeBuffers(es) && AllWhole(s) ==> AllWhole(Run(s, es))
    decreases |es|
  {
    if es == [] {
    } else {
      PollKeepsShort(s, es[0]);
      PollsKeepShort(Step(s, es[0]), es[1..]);
    }
  }

  lemma {:induction false} KeptIsShort(fates: seq<Fate>)
    requires forall i | 0 <= i < |fates| :: fates[i].kept <==> |fates[i].data| < SOCKET_RECV_MAX
    ensures Kept(fates) == Short(Data(fates))
  {
    if fates == [] {
    } else {
      KeptIsShort(fates[..|fates| - 1]);
      assert Data(fates)[..|Data(fates)| - 1] == Data(fates[..|fates| - 1]);
    }
  }

  lemma {:induction false} ShortAppend(p: seq<Datagram>, q: seq<Datagram>)
    ensures Short(p + q) == Short(p) + Short(q)
    decreases |q|
  {
    if q == [] {
      assert p + q == p;
    } else {
      assert (p + q)[..|p + q| - 1] == p + q[..|q| - 1];
      ShortAppend(p, q[..|q| - 1]);
    }
  }

  lemma ShortPrefix(p: seq<Datagram>, q: seq<Datagram>)
    requires p <= q
    ensures Short(p) <= Short(q)
  {
    assert q == p + q[|p|..];
    ShortAppend(p, q[|p|..]);
  }

  /**
   For every byte stream, well formed or not, and every schedule of arrivals and
   receive polls: the datagrams taken, those queued and the short ones still unread
   are exactly the short datagrams of the stream, in order.
   */
  lemma ReceivedExactly(before: seq<byte>, es: seq<Event>)
    requires Feasible(Begin(before), es) && ReceiveOnly(es)
    ensures var r := Run(Begin(before), es);
            && r.from == |before| <= |r.stream|
            && Taken(r.out) + r.queue + Short(Frames(r.stream, r.at)) == Short(Frames(r.stream, |before|))
            && (LargeBuffers(es) ==> AllWhole(r))
  {
    var s := Begin(before);
    BeginInv(before);
    Conservation(s, es);
    PollsKeepShort(s, es);
    var r := Run(s, es);
    assert r.seen[0..] == r.seen;
    KeptIsShort(r.seen);
    ShortAppend(Data(r.seen), Frames(r.stream, r.at));
  }

  /**
   End-to-end framing: while any part of a conforming stream has arrived, whatever its payload
   bytes, the datagrams taken, queued and unread are the first short ones announced, byte-exact,
   and none of an item that has arrived whole is missing.
   */
  lemma EndToEndFraming(before: seq<byte>, es: seq<Event>, xs: seq<Item>, t: seq<byte>, k: nat)
    requires Feasible(Begin(before), es) && ReceiveOnly(es)
    requires Conforming(xs) && Run(Begin(before), es).stream + t == before + WireAll(xs)
    ensures var r := Run(Begin(before), es);
            var got := Taken(r.out) + r.queue + Short(Frames(r.stream, r.at));
            && got <= Short(Payloads(xs))
            && (Arrived(before, xs, k, r.stream) ==> Short(Payloads(xs[..k])) <= got)
            && (LargeBuffers(es) ==> AllWhole(r))
  {
    ReceivedExactly(before, es);
    var r := Run(Begin(before), es);
    PartialFrames(before, xs, r.stream, t, k);
    ShortPrefix(Frames(r.stream, |before|), Payloads(xs));
    if Arrived(before, xs, k, r.stream) {
      ShortPrefix(Payloads(xs[..k]), Frames(r.stream, |before|));
    }
  }

  // ---- independence of chunking and polling times -----------------------------------

  /** A poll changes nothing any more. */
  predicate Quiet(s: Station)
    requires s.at <= |s.stream|
  {
    s.queue == [] && Frames(s.stream, s.at) == []
  }

  lemma QuietDelivers(before: seq<byte>, es: seq<Event>)
    requires Feasible(Begin(before), es) && ReceiveOnly(es) && Quiet(Run(Begin(before), es))
    ensures var r := Run(Begin(before), es);
            |before| <= |r.stream| && Taken(r.out) == Short(Frames(r.stream, |before|))
  {
    ReceivedExactly(before, es);
    var r := Run(Begin(before), es);
    assert Taken(r.out) + r.queue + Short(Frames(r.stream, r.at)) == Taken(r.out);
  }

  /**
   Two schedules that bring the same bytes and end quiet deliver the same datagrams,
   however the bytes were chunked and whenever polls happened.
   */
  lemma ChunkingIndependence(before: seq<byte>, es: seq<Event>, es': seq<Event>)
    requires Feasible(Begin(before), es) && ReceiveOnly(es) && Feasible(Begin(before), es') && ReceiveOnly(es')
    requires Run(Begin(before), es).stream == Run(Begin(before), es').stream
    requires Quiet(Run(Begin(before), es)) && Quiet(Run(Begin(before), es'))
    ensures Taken(Run(Begin(before), es).out) == Taken(Run(Begin(before), es').out)
  {
    QuietDelivers(before, es);
    QuietDelivers(before, es');
  }

  function Polls(n: nat, size: nat): seq<Event> {
    if n == 0 then [] else [Poll(size)] + Polls(n - 1, size)
  }

  predicate Stuck(s: Station)
    requires s.at <= |s.stream|
  {
    s.queue == [] && Decide(s.stream, s.at).Wait?
  }

  /** What polling has left to do. */
  function Remaining(s: Station): nat
    requires s.at <= |s.stream|
  {
    2 * (|s.stream| - s.at) + |s.queue|
  }

  lemma StuckIsQuiet(s: Station)
    requires s.at <= |s.stream|
    ensures Remaining(s) == 0 ==> Stuck(s)
    ensures Stuck(s) ==> Quiet(s)
  {
  }

  lemma StuckStays(s: Station, size: nat)
    requires s.at <= |s.stream| && Stuck(s)
    ensures var s' := Step(s, Poll(size)); s'.stream == s.stream && Stuck(s')
  {
    WaitingStable(s.stream, [], s.at);
    assert s.stream + [] == s.stream;
  }

  lemma PollProgress(s: Station, size: nat)
    requires s.at <= |s.stream| && !Stuck(s)
    ensures var s' := Step(s, Poll(size)); s'.stream == s.stream && Remaining(s') < Remaining(s)
  {
  }

  /** Polling reaches quiet: two polls per unread byte and one per queued datagram suffice. */
  lemma {:induction false} PollingQuiesces(s: Station, n: nat, size: nat)
    requires s.at <= |s.stream|
    requires Stuck(s) || n >= 2 * (|s.stream| - s.at) + |s.queue|
    ensures Feasible(s, Polls(n, size))
    ensures var r := Run(s, Polls(n, size)); r.stream == s.stream && Quiet(r)
    decreases n
  {
    if n == 0 {
      StuckIsQuiet(s);
    } else {
      var s' := Step(s, Poll(size));
      if Stuck(s) {
        StuckStays(s, size);
      } else {
        PollProgress(s, size);
      }
      PollingQuiesces(s', n - 1, size);
      RunFirst(s, Poll(size), Polls(n - 1, size));
    }
  }
}
