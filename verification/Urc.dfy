/**
 What urc_buffer_handler decides at a position of the received stream, and the
 datagrams a stream holds from a position on. Positions are absolute: consuming
 bytes moves the position, receiving bytes extends the stream.
 */
module Urc {
  import opened Bytes
  import opened Lines
  import Sequences

  type Datagram = seq<byte>

  const HEADER: seq<byte> := "+QIURC: \"recv\",0,"

  /** What a line says: nothing of interest, a recv URC with a bad length, or one of n bytes. */
  datatype LineKind = Other | Malformed | Recv(n: nat)

  function Kind(line: seq<byte>): LineKind {
    if !StartsWith(line, HEADER) then Other else
    StartsWithIsPrefix(line, HEADER);
    var digits := line[|HEADER|..];
    if |digits| > 4 then Malformed else
    match ParseDecimal(digits)
    case None => Malformed
    case Some(n) => Recv(n)
  }

  /** `next` is the position after everything consumed, newlines before the line included. */
  datatype Decision =
    | Wait(next: nat)                 // no complete line, or its payload is not complete
    | SkipLine(next: nat)             // some other line
    | Reject(next: nat)               // a recv line without a readable length
    | Frame(body: nat, next: nat)     // a whole datagram from body to next

  function Decide(s: seq<byte>, i: nat): (d: Decision)
    requires i <= |s|
    ensures i <= d.next <= |s|
    ensures d.Wait? || i < d.next
    ensures d.Frame? ==> i < d.body <= d.next
  {
    var b := Bol(s, i);
    var e := Eol(s, b);
    if e == |s| then Wait(b) else
    match Kind(s[b..e])
    case Other => SkipLine(e)
    case Malformed => Reject(e)
    case Recv(n) => if |s| - b < (e - b) + 2 + n then Wait(b) else Frame(e + 2, e + 2 + n)
  }

  /** The datagram a decision found, if any. */
  function Found(s: seq<byte>, d: Decision): (r: seq<Datagram>)
    requires d.Frame? ==> d.body <= d.next <= |s|
  {
    match d
    case Frame(body, next) => [s[body..next]]
    case _ => []
  }

  /** All complete datagrams of a stream from position i on, whatever becomes of them. */
  function Frames(s: seq<byte>, i: nat): (r: seq<Datagram>)
    requires i <= |s|
    decreases |s| - i
  {
    var d := Decide(s, i);
    if d.Wait? then [] else Found(s, d) + Frames(s, d.next)
  }

  /** A decision is never revised: bytes arriving later do not change it. */
  lemma DecisionStable(s: seq<byte>, t: seq<byte>, i: nat)
    requires i <= |s| && !Decide(s, i).Wait?
    ensures Decide(s + t, i) == Decide(s, i)
    ensures Found(s + t, Decide(s, i)) == Found(s, Decide(s, i))
  {
    var b := Bol(s, i);
    var e := Eol(s, b);
    EndsAreStable(s, t, i);
    EndsAreStable(s, t, b);
    assert (s + t)[b..e] == s[b..e];
    var d := Decide(s, i);
    if d.Frame? {
      assert (s + t)[d.body..d.next] == s[d.body..d.next];
    }
  }

  /** Nor do newlines consumed in front of an undecided line. */
  lemma WaitingStable(s: seq<byte>, t: seq<byte>, i: nat)
    requires i <= |s| && Decide(s, i).Wait?
    ensures Decide(s + t, Decide(s, i).next) == Decide(s + t, i)
  {
    BolSpec(s, i);
    BolSkips(s + t, i, Bol(s, i));
  }

  /**
   One handler call splits the datagrams of the stream, for every possible
   continuation of it: what it found, then what the rest holds.
   */
  lemma HandlerSplits(s: seq<byte>, t: seq<byte>, i: nat)
    requires i <= |s|
    ensures var d := Decide(s, i);
            Frames(s + t, i) == Found(s, d) + Frames(s + t, d.next)
  {
    if Decide(s, i).Wait? {
      WaitingStable(s, t, i);
    } else {
      DecisionStable(s, t, i);
    }
  }

  /** The datagrams of a prefix are the first datagrams of the stream. */
  lemma {:induction false} FramesStable(s: seq<byte>, t: seq<byte>, i: nat)
    requires i <= |s|
    ensures Frames(s, i) <= Frames(s + t, i)
    decreases |s| - i
  {
    var d := Decide(s, i);
    if d.Wait? {
    } else {
      HandlerSplits(s, t, i);
      FramesStable(s, t, d.next);
    }
  }

  // ---- the bounded queue of datagrams -----------------------------------------

  function Concat(q: seq<Datagram>): seq<byte> {
    if q == [] then [] else q[0] + Concat(q[1..])
  }

  lemma {:induction false} ConcatAppend(p: seq<Datagram>, q: seq<Datagram>)
    ensures Concat(p + q) == Concat(p) + Concat(q)
  {
    if p == [] {
      assert p + q == q;
    } else {
      assert (p + q)[1..] == p[1..] + q;
      ConcatAppend(p[1..], q);
    }
  }

  lemma ConcatSnoc(q: seq<Datagram>, d: Datagram)
    ensures Concat(q + [d]) == Concat(q) + d
  {
    ConcatAppend(q, [d]);
    assert Concat([d]) == d + Concat([]);
  }

  /** What both rings can hold, and the length no accepted datagram reaches. */
  predicate QueueOk(q: seq<Datagram>) {
    && |q| <= LENS_SIZE
    && |Concat(q)| <= SOCKET_RECV_MAX
    && forall i | 0 <= i < |q| :: |q[i]| < SOCKET_RECV_MAX
  }

  lemma QueueTail(q: seq<Datagram>)
    requires q != [] && QueueOk(q)
    ensures QueueOk(q[1..]) && Concat(q) == q[0] + Concat(q[1..])
  {
    assert |Concat(q)| == |q[0]| + |Concat(q[1..])|;
  }

  /** Room for a datagram of n bytes; a full-size one may be truncated and counts as none. */
  predicate Accepts(q: seq<Datagram>, n: nat) {
    n <= SOCKET_RECV_MAX - |Concat(q)| && |q| < LENS_SIZE && n != SOCKET_RECV_MAX
  }

  datatype Handling = Handling(code: int, next: nat, queue: seq<Datagram>)

  /** One call of urc_buffer_handler: its return code, the position after it and the queue. */
  function Handle(s: seq<byte>, i: nat, q: seq<Datagram>): (r: Handling)
    requires i <= |s|
    ensures i <= r.next <= |s|
  {
    var d := Decide(s, i);
    match d
    case Frame(body, next) =>
      if Accepts(q, next - body) then Handling(0, next, q + Found(s, d)) else Handling(-1, next, q)
    case Reject(next) => Handling(-1, next, q)
    case _ => Handling(1, d.next, q)
  }

  lemma HandleKeepsQueueOk(s: seq<byte>, i: nat, q: seq<Datagram>)
    requires i <= |s| && QueueOk(q)
    ensures QueueOk(Handle(s, i, q).queue)
  {
    var d := Decide(s, i);
    if d.Frame? {
      ConcatSnoc(q, s[d.body..d.next]);
    }
  }

  datatype Receipt = Receipt(code: int, next: nat, queue: seq<Datagram>, data: Option<Datagram>)

  /** One call of modem_socket_try_recv with a buffer of the given size. */
  function TryRecv(s: seq<byte>, i: nat, q: seq<Datagram>, size: nat): (r: Receipt)
    requires i <= |s|
    ensures i <= r.next <= |s|
    ensures r.code == 0 <==> r.data.Some?
  {
    if q == [] then
      var h := Handle(s, i, q);
      Receipt(if h.code < 0 then -1 else 1, h.next, h.queue, None)
    else if size < |q[0]| then
      Receipt(-1, i, q[1..], None)
    else
      Receipt(0, i, q[1..], Some(q[0]))
  }

  lemma TryRecvKeepsQueueOk(s: seq<byte>, i: nat, q: seq<Datagram>, size: nat)
    requires i <= |s| && QueueOk(q)
    ensures QueueOk(TryRecv(s, i, q, size).queue)
  {
    HandleKeepsQueueOk(s, i, q);
  }

  /** The next complete line announces a datagram, complete or not. */
  predicate Announces(s: seq<byte>, i: nat)
    requires i <= |s|
  {
    var b := Bol(s, i);
    var e := Eol(s, b);
    e < |s| && Kind(s[b..e]).Recv?
  }

  /** The send dialogue finds its prompt as the next byte that is no newline. */
  predicate Prompted(s: seq<byte>, i: nat)
    requires i <= |s|
  {
    var b := Bol(s, i);
    b < |s| && s[b] == '>'
  }

  // ---- lines and frames as they stand in a stream ---------------------------------

  /** The line that announces n bytes, as the modem writes it. */
  function AnnouncingLine(n: nat): seq<byte> {
    "+QIURC: \"recv\",0," + Decimal(n)
  }

  /** The line begins as a recv URC of this connection. */
  predicate IsRecvUrc(line: seq<byte>) {
    "+QIURC: \"recv\",0," <= line
  }

  lemma HeaderIsUrc(line: seq<byte>)
    ensures StartsWith(line, HEADER) <==> IsRecvUrc(line)
    ensures |HEADER| == 17 && HEADER == "+QIURC: \"recv\",0,"
  {
    StartsWithIsPrefix(line, HEADER);
  }

  lemma DigitsUnique(line: seq<byte>, digits: seq<byte>)
    requires line == "+QIURC: \"recv\",0," + digits
    ensures line[17..] == digits
  {
  }

  /** Behind the header, a line is good exactly if its rest is a number of one to four digits. */
  lemma RestDecides(line: seq<byte>, n: nat)
    requires IsRecvUrc(line)
    ensures var digits := line[17..];
            && !Kind(line).Other?
            && (Kind(line) == Recv(n) <==> AllDigits(digits) && 1 <= |digits| <= 4 && Value(digits) == n)
  {
    HeaderIsUrc(line);
    var digits := line[17..];
    if |digits| <= 4 && AllDigits(digits) { FourDigits(digits); }
  }

  /** A line announces a datagram of n bytes exactly if one to four digits of value n follow the header. */
  lemma KindExact(line: seq<byte>, n: nat)
    ensures Kind(line).Other? <==> !IsRecvUrc(line)
    ensures Kind(line) == Recv(n) <==>
            exists digits | AllDigits(digits) && 1 <= |digits| <= 4 ::
              line == "+QIURC: \"recv\",0," + digits && Value(digits) == n
  {
    HeaderIsUrc(line);
    if IsRecvUrc(line) {
      RestDecides(line, n);
      assert line == "+QIURC: \"recv\",0," + line[17..];
    }
    forall digits | line == "+QIURC: \"recv\",0," + digits ensures digits == line[17..] {
      DigitsUnique(line, digits);
    }
  }

  /** A datagram as the modem announces it, or any other line; both after any newlines. */
  datatype Item =
    | Announced(pad: seq<byte>, data: Datagram)
    | OtherLine(pad: seq<byte>, text: seq<byte>)

  function FrameWire(pad: seq<byte>, data: Datagram): seq<byte> {
    pad + AnnouncingLine(|data|) + "\r\n" + data
  }

  function LineWire(pad: seq<byte>, text: seq<byte>): seq<byte> {
    pad + text + "\r\n"
  }

  function Wire(x: Item): seq<byte> {
    match x
    case Announced(pad, data) => FrameWire(pad, data)
    case OtherLine(pad, text) => LineWire(pad, text)
  }

  function WireAll(xs: seq<Item>): seq<byte> {
    if xs == [] then [] else Wire(xs[0]) + WireAll(xs[1..])
  }

  predicate WellFormed(x: Item) {
    && AllNewlines(x.pad)
    && match x
       case Announced(_, data) => |data| <= SOCKET_RECV_MAX
       case OtherLine(_, text) => text != [] && NoNewline(text) && !Kind(text).Recv?
  }

  predicate Conforming(xs: seq<Item>) {
    forall i | 0 <= i < |xs| :: WellFormed(xs[i])
  }

  function Payloads(xs: seq<Item>): (r: seq<Datagram>) {
    if xs == [] then []
    else (match xs[0] case Announced(_, data) => [data] case OtherLine(_, _) => []) + Payloads(xs[1..])
  }

  /** Between other bytes: newlines, a line, a newline byte and more. */
  lemma LineEnds(before: seq<byte>, pad: seq<byte>, line: seq<byte>, more: seq<byte>)
    requires AllNewlines(pad) && line != [] && NoNewline(line) && more != [] && IsNewline(more[0])
    ensures var s := before + pad + line + more;
            var b := |before| + |pad|;
            var e := b + |line|;
            Bol(s, |before|) == b && Eol(s, b) == e && e < |s| && s[b..e] == line
  {
    var s := before + pad + line + more;
    var b := |before| + |pad|;
    BolIs(s, |before|, b);
    EolIs(s, b, b + |line|);
  }

  lemma FrameParts(before: seq<byte>, pad: seq<byte>, data: Datagram, rest: seq<byte>)
    ensures var s := before + FrameWire(pad, data) + rest;
            var line := AnnouncingLine(|data|);
            var e := |before| + |pad| + |line|;
            && s == before + pad + line + ("\r\n" + data + rest)
            && e + 2 + |data| == |before + FrameWire(pad, data)| <= |s|
            && s[e + 2..e + 2 + |data|] == data
  {
  }

  lemma NoNewlineInAnnouncement(n: nat)
    ensures NoNewline(AnnouncingLine(n))
  {
    DigitsAreNoNewlines(Decimal(n));
    assert NoNewline("+QIURC: \"recv\",0,");
  }

  lemma FrameAt(s: seq<byte>, i: nat, b: nat, e: nat, data: Datagram)
    requires i <= |s| && Bol(s, i) == b && Eol(s, b) == e && e + 2 + |data| <= |s| && |data| < 10000
    requires s[b..e] == AnnouncingLine(|data|) && s[e + 2..e + 2 + |data|] == data
    ensures Decide(s, i) == Frame(e + 2, e + 2 + |data|) && Found(s, Decide(s, i)) == [data]
  {
    DecidedByKind(s, i, b, e, |data|);
    FoundAt(s, e + 2, data);
  }

  lemma FoundAt(s: seq<byte>, i: nat, data: Datagram)
    requires i + |data| <= |s| && s[i..i + |data|] == data
    ensures Found(s, Frame(i, i + |data|)) == [data]
  {
  }

  lemma DecidedByKind(s: seq<byte>, i: nat, b: nat, e: nat, n: nat)
    requires i <= |s| && Bol(s, i) == b && Eol(s, b) == e && e + 2 + n <= |s| && n < 10000
    requires s[b..e] == AnnouncingLine(n)
    ensures Decide(s, i) == Frame(e + 2, e + 2 + n)
  {
    KindOfAnnouncement(n);
  }

  lemma KindOfAnnouncement(n: nat)
    requires n < 10000
    ensures Kind(AnnouncingLine(n)) == Recv(n)
  {
    DecimalLength(n);
    DecimalRoundTrip(n);
    var line := AnnouncingLine(n);
    HeaderIsUrc(line);
    DigitsUnique(line, Decimal(n));
  }

  /** The handler finds exactly the announced datagram, whatever its bytes and whatever surrounds it. */
  lemma AnnouncementDecided(before: seq<byte>, pad: seq<byte>, data: Datagram, rest: seq<byte>)
    requires AllNewlines(pad) && |data| < 10000
    ensures var s := before + FrameWire(pad, data) + rest;
            var d := Decide(s, |before|);
            d.Frame? && Found(s, d) == [data] && d.next == |before + FrameWire(pad, data)|
  {
    var line := AnnouncingLine(|data|);
    var b := |before| + |pad|;
    NoNewlineInAnnouncement(|data|);
    FrameParts(before, pad, data, rest);
    LineEnds(before, pad, line, "\r\n" + data + rest);
    FrameAt(before + FrameWire(pad, data) + rest, |before|, b, b + |line|, data);
  }

  /** Any other line is removed up to its terminator, and only a bad recv line is reported. */
  lemma OtherLineDecided(before: seq<byte>, pad: seq<byte>, text: seq<byte>, rest: seq<byte>)
    requires AllNewlines(pad) && text != [] && NoNewline(text) && !Kind(text).Recv?
    ensures var s := before + LineWire(pad, text) + rest;
            var e := |before| + |pad| + |text|;
            Decide(s, |before|) == if IsRecvUrc(text) then Reject(e) else SkipLine(e)
  {
    assert before + LineWire(pad, text) + rest == before + pad + text + ("\r\n" + rest);
    LineEnds(before, pad, text, "\r\n" + rest);
    HeaderIsUrc(text);
  }

  lemma TerminatorSkipped(before: seq<byte>, pad: seq<byte>, text: seq<byte>, rest: seq<byte>)
    ensures var s := before + LineWire(pad, text) + rest;
            Bol(s, |before| + |pad| + |text|) == Bol(s, |before + LineWire(pad, text)|)
  {
    var s := before + LineWire(pad, text) + rest;
    assert s == before + pad + text + "\r\n" + rest;
    BolSkips(s, |before| + |pad| + |text|, |before + LineWire(pad, text)|);
  }

  lemma FramesFromSameLine(s: seq<byte>, i: nat, k: nat)
    requires i <= |s| && k <= |s| && Bol(s, i) == Bol(s, k)
    ensures Frames(s, i) == Frames(s, k)
  {
    SameDecision(s, i, k);
  }

  lemma SameDecision(s: seq<byte>, i: nat, k: nat)
    requires i <= |s| && k <= |s| && Bol(s, i) == Bol(s, k)
    ensures Decide(s, i) == Decide(s, k)
  {
  }

  lemma FramesOfItem(before: seq<byte>, x: Item, rest: seq<byte>)
    requires WellFormed(x)
    ensures var s := before + Wire(x) + rest;
            Frames(s, |before|) == Payloads([x]) + Frames(s, |before + Wire(x)|)
  {
    assert Payloads([x]) == if x.Announced? then [x.data] else [];
    match x
    case Announced(pad, data) => AnnouncementDecided(before, pad, data, rest);
    case OtherLine(pad, text) =>
      OtherLineDecided(before, pad, text, rest);
      TerminatorSkipped(before, pad, text, rest);
      FramesFromSameLine(before + Wire(x) + rest, |before| + |pad| + |text|, |before + Wire(x)|);
  }

  /**
   A conforming stream holds exactly the announced datagrams, even if these look like
   headers, and whatever other lines stand between them.
   */
  lemma {:induction false} ConformingFrames(before: seq<byte>, xs: seq<Item>)
    requires Conforming(xs)
    ensures Frames(before + WireAll(xs), |before|) == Payloads(xs)
    decreases |xs|
  {
    if xs == [] {
    } else {
      var w, rest := Wire(xs[0]), WireAll(xs[1..]);
      Sequences.Assoc(before, w, rest);
      ConformingFrames(before + w, xs[1..]);
      FramesOfItem(before, xs[0], rest);
      assert Payloads(xs) == Payloads([xs[0]]) + Payloads(xs[1..]);
    }
  }

  /** The first k items have arrived whole. */
  predicate Arrived(before: seq<byte>, xs: seq<Item>, k: nat, s: seq<byte>) {
    k <= |xs| && |before + WireAll(xs[..k])| <= |s|
  }

  lemma {:induction false} WireParts(xs: seq<Item>, k: nat)
    requires k <= |xs|
    ensures WireAll(xs) == WireAll(xs[..k]) + WireAll(xs[k..])
    decreases k
  {
    if k == 0 {
      assert xs[..0] == [] && xs[0..] == xs;
    } else {
      assert xs[..k][1..] == xs[1..][..k - 1] && xs[k..] == xs[1..][k - 1..];
      WireParts(xs[1..], k - 1);
      Sequences.Assoc(Wire(xs[0]), WireAll(xs[..k][1..]), WireAll(xs[k..]));
    }
  }

  lemma ArrivedWhole(before: seq<byte>, xs: seq<Item>, k: nat, s: seq<byte>, t: seq<byte>)
    requires s + t == before + WireAll(xs) && Arrived(before, xs, k, s)
    ensures before + WireAll(xs[..k]) <= s
  {
    WireParts(xs, k);
    Sequences.Assoc(before, WireAll(xs[..k]), WireAll(xs[k..]));
    PrefixOfBoth(s, t, before + WireAll(xs[..k]), WireAll(xs[k..]));
  }

  lemma PrefixOfBoth(s: seq<byte>, t: seq<byte>, p: seq<byte>, q: seq<byte>)
    requires s + t == p + q && |p| <= |s|
    ensures p <= s
  {
    assert forall i | 0 <= i < |p| :: s[i] == (s + t)[i] == (p + q)[i];
  }

  /** While a part of a conforming stream has arrived: only announced datagrams, and those of all whole items. */
  lemma PartialFrames(before: seq<byte>, xs: seq<Item>, s: seq<byte>, t: seq<byte>, k: nat)
    requires Conforming(xs) && s + t == before + WireAll(xs) && |before| <= |s|
    ensures Frames(s, |before|) <= Payloads(xs)
    ensures Arrived(before, xs, k, s) ==> Payloads(xs[..k]) <= Frames(s, |before|)
  {
    ConformingFrames(before, xs);
    FramesStable(s, t, |before|);
    if Arrived(before, xs, k, s) {
      ArrivedWhole(before, xs, k, s, t);
      var p := before + WireAll(xs[..k]);
      assert s == p + s[|p|..];
      ConformingFrames(before, xs[..k]);
      FramesStable(p, s[|p|..], |before|);
    }
  }

  /**
   The drop rule. A complete datagram at the head of the buffer is lost exactly if
   it has 1500 bytes, exceeds the free space, or 15 are queued; kept or lost, exactly
   its newlines, header line, two bytes and payload go, so that the rest still parses.
   */
  lemma DropRule(before: seq<byte>, pad: seq<byte>, data: Datagram, rest: seq<byte>, q: seq<Datagram>)
    requires AllNewlines(pad) && |data| < 10000 && QueueOk(q)
    ensures var h := Handle(before + FrameWire(pad, data) + rest, |before|, q);
            var lost := |data| == 1500 || |data| > 1500 - |Concat(q)| || |q| == 15;
            && h.queue == (if lost then q else q + [data])
            && h.code == (if lost then -1 else 0)
            && h.next == |before + FrameWire(pad, data)|
  {
    AnnouncementDecided(before, pad, data, rest);
  }

  // ---- when a call makes progress ---------------------------------------------------

  lemma PartOfLine(before: seq<byte>, part: seq<byte>)
    requires NoNewline(part)
    ensures Decide(before + part, |before|) == Wait(|before|)
  {
    BolIs(before + part, |before|, |before|);
    EolIs(before + part, |before|, |before + part|);
  }

  lemma PrefixOfItem(before: seq<byte>, line: seq<byte>, tail: seq<byte>, s: seq<byte>, t: seq<byte>)
    requires s + t == before + line + tail && |s| >= |before|
    ensures var m := |s| - |before|;
            if m <= |line| then s == before + line[..m]
            else m - |line| <= |tail| && s == before + [] + line + tail[..m - |line|]
  {
    assert s == (before + line + tail)[..|s|];
  }

  /** A complete line with what has arrived behind it: only an incomplete payload makes the handler wait. */
  lemma LineDecided(before: seq<byte>, line: seq<byte>, more: seq<byte>)
    requires line != [] && NoNewline(line) && more != [] && more[0] == '\r'
    ensures var d := Decide(before + [] + line + more, |before|);
            d.next > |before| <==> !(Kind(line).Recv? && |more| < 2 + Kind(line).n)
  {
    LineEnds(before, [], line, more);
  }

  /** Some of a line and of what follows it has arrived. */
  lemma PartConsumed(before: seq<byte>, line: seq<byte>, tail: seq<byte>, s: seq<byte>, t: seq<byte>)
    requires line != [] && NoNewline(line) && tail != [] && tail[0] == '\r'
    requires s + t == before + line + tail && |s| > |before|
    ensures var m := |s| - |before|;
            Decide(s, |before|).next > |before| <==>
            m > |line| && !(Kind(line).Recv? && m < |line| + 2 + Kind(line).n)
  {
    PrefixOfItem(before, line, tail, s, t);
    var m := |s| - |before|;
    if m <= |line| {
      PartOfLine(before, line[..m]);
    } else {
      LineDecided(before, line, tail[..m - |line|]);
    }
  }

  lemma WireWithoutPad(line: seq<byte>, data: seq<byte>)
    ensures [] + line + "\r\n" + data == line + ("\r\n" + data)
  {
  }

  lemma AnnouncedConsumed(before: seq<byte>, data: Datagram, rest: seq<byte>, s: seq<byte>, t: seq<byte>)
    requires |data| < 10000 && s + t == before + FrameWire([], data) + rest && |s| > |before|
    ensures Decide(s, |before|).next > |before| <==> |before| + |FrameWire([], data)| <= |s|
  {
    var line, tail := AnnouncingLine(|data|), "\r\n" + data;
    WireWithoutPad(line, data);
    Sequences.Assoc(before, line, tail);
    Sequences.Assoc(before + line, tail, rest);
    NoNewlineInAnnouncement(|data|);
    KindOfAnnouncement(|data|);
    PartConsumed(before, line, tail + rest, s, t);
  }

  lemma OtherConsumed(before: seq<byte>, text: seq<byte>, rest: seq<byte>, s: seq<byte>, t: seq<byte>)
    requires text != [] && NoNewline(text) && !Kind(text).Recv?
    requires s + t == before + LineWire([], text) + rest && |s| > |before|
    ensures Decide(s, |before|).next > |before| <==> |before| + |text| < |s|
  {
    assert [] + text == text;
    Sequences.Assoc(before, text, "\r\n");
    Sequences.Assoc(before + text, "\r\n", rest);
    PartConsumed(before, text, "\r\n" + rest, s, t);
  }

  /**
   A handler call at the start of an item consumes something exactly if a newline is in
   front, the whole announced datagram is there, or the other line and one more byte are.
   */
  lemma ConsumesExact(before: seq<byte>, x: Item, rest: seq<byte>, s: seq<byte>, t: seq<byte>, q: seq<Datagram>)
    requires AllNewlines(x.pad) && (if x.Announced? then |x.data| < 10000 else WellFormed(x))
    requires s + t == before + Wire(x) + rest && |s| > |before|
    ensures var m := |s| - |before|;
            Handle(s, |before|, q).next > |before| <==>
            x.pad != [] || (if x.Announced? then |Wire(x)| <= m else |x.text| < m)
  {
    if x.pad != [] {
      assert s[|before|] == (s + t)[|before|] == x.pad[0];
    } else {
      match x
      case Announced(_, data) => AnnouncedConsumed(before, data, rest, s, t);
      case OtherLine(_, text) => OtherConsumed(before, text, rest, s, t);
    }
  }

  /**
   A full RX ring that begins with an item, with no newline in front: the handler goes on exactly
   for datagrams of at most 1732 bytes and other lines of at most 1754; else it consumes nothing.
   */
  lemma FullRing(before: seq<byte>, x: Item, rest: seq<byte>, s: seq<byte>, t: seq<byte>, q: seq<Datagram>)
    requires x.pad == [] && (if x.Announced? then |x.data| < 10000 else WellFormed(x))
    requires s + t == before + Wire(x) + rest && |s| == |before| + RX_CAP
    ensures Handle(s, |before|, q).next > |before| <==>
            if x.Announced? then |x.data| <= 1732 else |x.text| <= 1754
  {
    ConsumesExact(before, x, rest, s, t, q);
    if x.Announced? { DecimalLength(|x.data|); }
  }

  /**
   No deadlock on conforming streams, with one exception: once 1523 bytes have arrived from
   the start of an item on, a handler call consumes some, unless all of them belong to one
   unfinished line. A full RX ring holds 1755.
   */
  lemma NoDeadlock(before: seq<byte>, xs: seq<Item>, s: seq<byte>, t: seq<byte>, q: seq<Datagram>)
    requires Conforming(xs) && s + t == before + WireAll(xs) && |s| >= |before| + 1523
    ensures xs != []
    ensures var x, m := xs[0], |s| - |before|;
            Handle(s, |before|, q).next > |before| <==> !(x.OtherLine? && x.pad == [] && |x.text| >= m)
  {
    assert |s| <= |s + t|;
    var x := xs[0];
    Sequences.Assoc(before, Wire(x), WireAll(xs[1..]));
    ConsumesExact(before, x, WireAll(xs[1..]), s, t, q);
    if x.Announced? { DecimalLength(|x.data|); }
  }
}
