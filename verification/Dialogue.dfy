/**
 The AT dialogues of src/modem/modem.c as functions on the state of the link: what has
 been received and how far it is consumed, the datagram queue, and the transmitter.
 */
module Dialogue {
  import opened Bytes
  import opened Lines
  import opened Urc
  import opened Transmit

  // ---- responses -------------------------------------------------------------------

  datatype Response = Response(text: seq<byte>, code: int)

  const OK_OR_ERROR := [Response("OK", 0), Response("ERROR", -1)]
  const OPENED := [Response("+QIOPEN: 0,0", 0)]
  const SENT := [Response("SEND OK", 0), Response(" ", 1)]

  /** The code of the first entry equal to the line. */
  function Lookup(rs: seq<Response>, line: seq<byte>, unexpected: int): int {
    if rs == [] then unexpected
    else if rs[0].text == line then rs[0].code
    else Lookup(rs[1..], line, unexpected)
  }

  /** The table is searched in order: an earlier entry hides a later one with the same text. */
  lemma {:induction false} LookupIsFirst(rs: seq<Response>, line: seq<byte>, unexpected: int, k: nat)
    requires k <= |rs| && forall i | 0 <= i < k :: rs[i].text != line
    requires k < |rs| ==> rs[k].text == line
    ensures Lookup(rs, line, unexpected) == if k < |rs| then rs[k].code else unexpected
  {
    if k == 0 {
    } else {
      LookupIsFirst(rs[1..], line, unexpected, k - 1);
    }
  }

  datatype Verdict = Verdict(code: int, next: nat)

  /** match_responses: the first line decides and is consumed; 1 while there is none. */
  function Match(s: seq<byte>, i: nat, rs: seq<Response>, unexpected: int): (v: Verdict)
    requires i <= |s|
    ensures i <= v.next <= |s|
  {
    var b := Bol(s, i);
    var e := Eol(s, b);
    if e == |s| then Verdict(1, b) else Verdict(Lookup(rs, s[b..e], unexpected), e)
  }

  // ---- commands --------------------------------------------------------------------

  function OpenCommand(host: seq<byte>, port: seq<byte>): seq<seq<byte>> {
    ["AT+QIOPEN=1,0,\"UDP\",\"", host, "\",", port, ",0,1\r\n"]
  }

  /** The same as one text. */
  function OpenText(host: seq<byte>, port: seq<byte>): seq<byte> {
    "AT+QIOPEN=1,0,\"UDP\",\"" + host + "\"," + port + ",0,1\r\n"
  }

  function SendCommand(len: nat): seq<seq<byte>> {
    ["AT+QISEND=0,", Decimal(len), "\r\n"]
  }

  const CLOSE_COMMAND: seq<seq<byte>> := ["AT+QICLOSE=0", "\r\n"]

  /** The close command can be queued now. */
  predicate CanClose(t: Tx) {
    CanQueue(t, 14)
  }

  lemma OpenCommandLength(host: seq<byte>, port: seq<byte>)
    ensures |Join(OpenCommand(host, port))| == |host| + |port| + 29
    ensures Join(OpenCommand(host, port)) == OpenText(host, port)
  {
    var c := OpenCommand(host, port);
    assert c[1..] == [host, "\",", port, ",0,1\r\n"];
    assert c[1..][1..] == ["\",", port, ",0,1\r\n"];
    assert c[1..][1..][1..] == [port, ",0,1\r\n"];
    assert c[1..][1..][1..][1..] == [",0,1\r\n"];
    assert c[1..][1..][1..][1..][1..] == [];
    assert Join(c[1..][1..][1..][1..]) == ",0,1\r\n";
    assert Join(c[1..][1..][1..]) == port + ",0,1\r\n";
    assert Join(c[1..][1..]) == "\"," + (port + ",0,1\r\n");
    assert Join(c[1..]) == host + ("\"," + (port + ",0,1\r\n"));
  }

  lemma ShortCommands(len: nat)
    requires len <= SOCKET_SEND_MAX
    ensures Join(CLOSE_COMMAND) == "AT+QICLOSE=0\r\n"
    ensures Join(SendCommand(len)) == "AT+QISEND=0," + Decimal(len) + "\r\n"
    ensures |Join(SendCommand(len))| <= 18
  {
    assert CLOSE_COMMAND[1..] == ["\r\n"] && CLOSE_COMMAND[1..][1..] == [];
    assert Join(CLOSE_COMMAND[1..]) == "\r\n";
    var c := SendCommand(len);
    assert c[1..] == [Decimal(len), "\r\n"] && c[1..][1..] == ["\r\n"] && c[1..][1..][1..] == [];
    assert Join(c[1..][1..]) == "\r\n";
    assert Join(c[1..]) == Decimal(len) + "\r\n";
    DecimalLength(len);
  }

  // ---- the link ---------------------------------------------------------------------

  datatype Link = Link(received: seq<byte>, taken: nat, queue: seq<Datagram>, tx: Tx) {
    predicate Ok() {
      taken <= |received| && QueueOk(queue)
    }
  }

  /** Only interrupts happened from a to b: bytes arrived, and completions drained the transmitter. */
  ghost predicate Later(a: Link, b: Link) {
    && |a.received| <= |b.received| && b.received[..|a.received|] == a.received
    && a.taken == b.taken && a.queue == b.queue
    && exists n: nat :: b.tx == Completions(a.tx, n)
  }

  lemma LaterReflexive(a: Link)
    ensures Later(a, a)
  {
    assert a.tx == Completions(a.tx, 0);
  }

  lemma LaterArrivals(a: Link, b: Link)
    requires b == a.(received := b.received)
    requires |a.received| <= |b.received| && b.received[..|a.received|] == a.received
    ensures Later(a, b)
  {
    assert b.tx == Completions(a.tx, 0);
  }

  /** The return code of a call and the link after it. */
  datatype Reply = Reply(code: int, link: Link)

  /** The same for a resumable dialogue, with its next step. */
  datatype StepReply = StepReply(code: int, step: int, link: Link)

  function Flush(l: Link): Link {
    l.(taken := |l.received|)
  }

  function Command(l: Link, pieces: seq<seq<byte>>): Reply {
    var r := SendPieces(l.tx, pieces);
    Reply(if r.ok then 0 else -1, l.(tx := r.tx))
  }

  function MatchStrict(l: Link, rs: seq<Response>): Reply
    requires l.taken <= |l.received|
  {
    var v := Match(l.received, l.taken, rs, -1);
    Reply(v.code, l.(taken := v.next))
  }

  function UrcCall(l: Link): Reply
    requires l.taken <= |l.received|
  {
    var h := Handle(l.received, l.taken, l.queue);
    Reply(h.code, l.(taken := h.next, queue := h.queue))
  }

  function OpenInit(l: Link, host: seq<byte>, port: seq<byte>): Reply {
    Command(Flush(l), OpenCommand(host, port))
  }

  function OpenContinue(l: Link, step: int): StepReply
    requires l.taken <= |l.received|
  {
    if step == 0 then
      var r := MatchStrict(l, OK_OR_ERROR);
      if r.code != 0 then StepReply(r.code, 0, r.link) else StepReply(1, 1, r.link)
    else if step == 1 then
      var r := MatchStrict(l, OPENED);
      StepReply(r.code, 1, r.link)
    else
      StepReply(-1, step, l)
  }

  function SendInit(l: Link, len: nat): Reply {
    if len > SOCKET_SEND_MAX then Reply(-1, l) else Command(l, SendCommand(len))
  }

  /** Payload, Ctrl-Z and start, after the prompt has been consumed. */
  function Transmission(l: Link, buf: seq<byte>): StepReply {
    var r := Append(l.tx, buf);
    if !r.ok then StepReply(-1, 0, l.(tx := r.tx)) else
    var r' := Append(r.tx, [CTRL_Z]);
    if !r'.ok then StepReply(-1, 0, l.(tx := r'.tx)) else
    var r'' := Start(r'.tx);
    StepReply(if r''.ok then 1 else -1, 1, l.(tx := r''.tx))
  }

  function SendContinue(l: Link, step: int, buf: seq<byte>): StepReply
    requires l.taken <= |l.received|
  {
    if step == 0 then
      var b := Bol(l.received, l.taken);
      if b == |l.received| then StepReply(1, 0, l.(taken := b))
      else if l.received[b] != '>' then
        var r := UrcCall(l.(taken := b));
        StepReply(if r.code < 0 then -1 else 1, 0, r.link)
      else
        Transmission(l.(taken := b + 1), buf)
    else if step == 1 then
      var r := MatchStrict(l, SENT);
      StepReply(r.code, 1, r.link)
    else
      StepReply(-1, step, l)
  }

  function CloseInit(l: Link): Reply {
    Command(Flush(l), CLOSE_COMMAND)
  }

  function CloseContinue(l: Link): Reply
    requires l.taken <= |l.received|
  {
    MatchStrict(l, OK_OR_ERROR)
  }

  function RecvCall(l: Link, size: nat): (r: (Reply, Option<Datagram>))
    requires l.taken <= |l.received|
    ensures r.0.code == 0 <==> r.1.Some?
  {
    var r := TryRecv(l.received, l.taken, l.queue, size);
    (Reply(r.code, l.(taken := r.next, queue := r.queue)), r.data)
  }

  lemma SendContinueOk(l: Link, step: int, buf: seq<byte>)
    requires l.Ok()
    ensures var l' := SendContinue(l, step, buf).link;
            l'.Ok() && l'.received == l.received && l.taken <= l'.taken
  {
    HandleKeepsQueueOk(l.received, Bol(l.received, l.taken), l.queue);
  }

  lemma RecvCallOk(l: Link, size: nat)
    requires l.Ok()
    ensures RecvCall(l, size).0.link.Ok()
  {
    TryRecvKeepsQueueOk(l.received, l.taken, l.queue, size);
  }

  /** While no prompt has come, a send poll does what the URC handler does, full queue or not. */
  lemma AwaitIsHandle(l: Link, buf: seq<byte>)
    requires l.taken <= |l.received| && !Prompted(l.received, l.taken)
    ensures var r, h := SendContinue(l, 0, buf), Handle(l.received, l.taken, l.queue);
            && r.link == l.(taken := h.next, queue := h.queue)
            && r.code == (if h.code < 0 then -1 else 1) && r.step == 0
  {
    var b := Bol(l.received, l.taken);
    BolSpec(l.received, l.taken);
    BolSkips(l.received, l.taken, b);
    SameDecision(l.received, l.taken, b);
  }

  /** A close begins exactly if its command can be queued; the received bytes are flushed either way. */
  lemma CloseInitExact(l: Link)
    ensures var r := CloseInit(l);
            && (r.code == 0 <==> CanClose(l.tx))
            && r.link == l.(taken := |l.received|, tx := r.link.tx)
            && (r.code != 0 && l.tx.ongoing ==> r.link.tx == l.tx)
  {
    ShortCommands(0);
    CommandAccepted(l.tx, CLOSE_COMMAND);
  }
}
