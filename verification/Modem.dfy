/** The modem driver (src/modem/modem.c) over the two interrupt-driven rings. */
module ModemDriver {
  import opened Bytes
  import opened CircularBuffer
  import opened Lines
  import opened Urc
  import opened Transmit
  import opened Dialogue
  import opened RxDriver
  import opened TxDriver
  import opened DatagramQueue
  import Sequences

  predicate IsCString(str: seq<byte>) {
    str != [] && str[|str| - 1] == NUL && IsText(str[..|str| - 1])
  }

  /** line_starts_with on the first lineLen bytes of the ring; never reads past the terminator. */
  method LineStartsWith(rx: ModemRx, str: seq<byte>, lineLen: nat) returns (r: bool)
    requires rx.Valid() && rx.taken + lineLen <= rx.arrived && IsCString(str)
    modifies rx, rx.ring, rx.ring.storage
    ensures rx.Valid() && old(rx.arrived) <= rx.arrived && rx.taken == old(rx.taken)
    ensures r <==> str[..|str| - 1] <= rx.stream[rx.taken..rx.taken + lineLen]
  {
    var i: nat := 0;
    while str[i] != NUL && i < lineLen
      invariant rx.Valid() && old(rx.arrived) <= rx.arrived && rx.taken == old(rx.taken)
      invariant i < |str| && i <= lineLen
      invariant forall k | 0 <= k < i :: str[k] == rx.stream[rx.taken + k]
      decreases lineLen - i
    {
      var c := rx.Seek(i);
      if c != str[i] {
        assert str[..|str| - 1][i] == str[i];
        return false;
      }
      i := i + 1;
    }
    return str[i] == NUL;
  }

  /** line_equals on the first lineLen bytes of the ring; never reads past the terminator. */
  method LineEquals(rx: ModemRx, str: seq<byte>, lineLen: nat) returns (r: bool)
    requires rx.Valid() && rx.taken + lineLen <= rx.arrived && IsCString(str)
    modifies rx, rx.ring, rx.ring.storage
    ensures rx.Valid() && old(rx.arrived) <= rx.arrived && rx.taken == old(rx.taken)
    ensures r <==> str[..|str| - 1] == rx.stream[rx.taken..rx.taken + lineLen]
  {
    var i: nat := 0;
    while i < lineLen
      invariant rx.Valid() && old(rx.arrived) <= rx.arrived && rx.taken == old(rx.taken)
      invariant i <= lineLen && i < |str|
      invariant forall k | 0 <= k < i :: str[k] == rx.stream[rx.taken + k] && str[k] != NUL
    {
      if str[i] == NUL {
        return false;
      }
      var c := rx.Seek(i);
      if c != str[i] {
        assert str[..|str| - 1][i] == str[i];
        return false;
      }
      i := i + 1;
    }
    return str[lineLen] == NUL;
  }

  /** The loop of match_responses over its table; the line is consumed in any case. */
  method TakeLine(rx: ModemRx, rs: seq<Response>, unexpected: int, lineLen: nat) returns (code: int)
    requires rx.Valid() && rx.taken + lineLen <= rx.arrived
    requires forall i | 0 <= i < |rs| :: IsText(rs[i].text)
    modifies rx, rx.ring, rx.ring.storage
    ensures rx.Valid() && old(rx.arrived) <= rx.arrived && rx.taken == old(rx.taken) + lineLen
    ensures code == Lookup(rs, rx.stream[old(rx.taken)..rx.taken], unexpected)
  {
    ghost var line := rx.stream[rx.taken..rx.taken + lineLen];
    for i := 0 to |rs|
      invariant rx.Valid() && old(rx.arrived) <= rx.arrived && rx.taken == old(rx.taken)
      invariant Lookup(rs, line, unexpected) == Lookup(rs[i..], line, unexpected)
    {
      assert CString(rs[i].text)[..|rs[i].text|] == rs[i].text;
      assert rs[i..][1..] == rs[i + 1..];
      var equal := LineEquals(rx, CString(rs[i].text), lineLen);
      if equal {
        rx.Advance(lineLen);
        return rs[i].code;
      }
    }
    rx.Advance(lineLen);
    return unexpected;
  }

  /** match_responses; `seen` bytes had arrived when the call looked for a line. */
  method MatchResponses(rx: ModemRx, rs: seq<Response>, unexpected: int) returns (code: int, ghost seen: nat)
    requires rx.Valid() && forall i | 0 <= i < |rs| :: IsText(rs[i].text)
    modifies rx, rx.ring, rx.ring.storage
    ensures rx.Valid() && old(rx.arrived) <= seen <= rx.arrived && old(rx.taken) <= seen
    ensures Verdict(code, rx.taken) == Match(rx.stream[..seen], old(rx.taken), rs, unexpected)
  {
    var res, lineLen := rx.SeekLineLength();
    seen := rx.arrived;
    if res != 0 {
      LineMissing(rx.stream, seen, old(rx.taken), rx.taken);
      return 1, seen;
    }
    LineFound(rx.stream, seen, old(rx.taken), rx.taken, rx.taken + lineLen);
    Sequences.SliceOfPrefix(rx.stream, seen, rx.taken, rx.taken + lineLen);
    code := TakeLine(rx, rs, unexpected, lineLen);
  }

  lemma BolAt(stream: seq<byte>, seen: nat, i: nat, b: nat)
    requires i <= b <= seen <= |stream| && Blank(stream, i, b)
    requires b < seen ==> !IsNewline(stream[b])
    ensures Bol(stream[..seen], i) == b
  {
    BolIs(stream[..seen], i, b);
  }

  /** The bytes that follow the header on the line, copied to the scratch array. */
  method ReadDigits(rx: ModemRx, from: nat, n: nat) returns (digits: seq<byte>)
    requires rx.Valid() && rx.taken + from + n <= rx.arrived
    modifies rx, rx.ring, rx.ring.storage
    ensures rx.Valid() && old(rx.arrived) <= rx.arrived && rx.taken == old(rx.taken)
    ensures digits == rx.stream[rx.taken + from..rx.taken + from + n]
  {
    digits := [];
    for i := 0 to n
      invariant rx.Valid() && old(rx.arrived) <= rx.arrived && rx.taken == old(rx.taken)
      invariant digits == rx.stream[rx.taken + from..rx.taken + from + i]
    {
      var c := rx.Seek(from + i);
      digits := digits + [c];
    }
  }

  /** The kind of a line, from the prefix test and the bytes behind the header. */
  lemma KindByParts(line: seq<byte>)
    ensures !(HEADER <= line) ==> Kind(line) == Other
    ensures HEADER <= line && |line| - |HEADER| > 4 ==> Kind(line) == Malformed
    ensures HEADER <= line && |line| - |HEADER| <= 4 ==>
              Kind(line) == match ParseDecimal(line[|HEADER|..]) case None => Malformed case Some(n) => Recv(n)
  {
    StartsWithIsPrefix(line, HEADER);
  }

  /** What urc_buffer_handler reads off the line at the head of the ring. */
  method ReadKind(rx: ModemRx, lineLen: nat) returns (kind: LineKind)
    requires rx.Valid() && rx.taken + lineLen <= rx.arrived
    modifies rx, rx.ring, rx.ring.storage
    ensures rx.Valid() && old(rx.arrived) <= rx.arrived && rx.taken == old(rx.taken)
    ensures kind == Kind(rx.stream[rx.taken..rx.taken + lineLen])
  {
    ghost var line := rx.stream[rx.taken..rx.taken + lineLen];
    assert CString(HEADER)[..|HEADER|] == HEADER;
    KindByParts(line);
    var recv := LineStartsWith(rx, CString(HEADER), lineLen);
    if !recv {
      return Other;
    }
    var digitsLen := lineLen - |HEADER|;
    if digitsLen > 4 {
      return Malformed;
    }
    var digits := ReadDigits(rx, |HEADER|, digitsLen);
    assert digits == line[|HEADER|..];
    match ParseDecimal(digits)
    case None => return Malformed;
    case Some(n) => return Recv(n);
  }

  /** With this line at the head, the handler's decision depends on its kind and on what has arrived. */
  lemma HeadIs(stream: seq<byte>, seen: nat, i: nat, b: nat, e: nat)
    requires i <= b <= e < seen <= |stream| && Blank(stream, i, b) && !IsNewline(stream[b])
    requires Plain(stream, b, e) && IsNewline(stream[e])
    ensures Decide(stream[..seen], i) ==
            match Kind(stream[b..e])
            case Other => SkipLine(e)
            case Malformed => Reject(e)
            case Recv(n) => if seen - b < (e - b) + 2 + n then Wait(b) else Frame(e + 2, e + 2 + n)
  {
    LineFound(stream, seen, i, b, e);
    Sequences.SliceOfPrefix(stream, seen, b, e);
  }

  /** With a complete line at the head: its kind, and whether its payload has arrived. */
  method InspectLine(rx: ModemRx, ghost i: nat, len: nat) returns (d: LineKind, complete: bool, ghost seen: nat)
    requires rx.Valid() && i <= rx.taken && rx.taken + len < rx.arrived
    requires Blank(rx.stream, i, rx.taken) && !IsNewline(rx.stream[rx.taken])
    requires Plain(rx.stream, rx.taken, rx.taken + len) && IsNewline(rx.stream[rx.taken + len])
    modifies rx, rx.ring, rx.ring.storage
    ensures rx.Valid() && rx.taken == old(rx.taken) && old(rx.arrived) <= seen <= rx.arrived
    ensures d.Recv? ==> (complete <==> len + 2 + d.n <= seen - rx.taken)
    ensures var e := rx.taken + len;
            Decide(rx.stream[..seen], i) ==
            match d
            case Other => SkipLine(e)
            case Malformed => Reject(e)
            case Recv(n) => if complete then Frame(e + 2, e + 2 + n) else Wait(rx.taken)
  {
    d := ReadKind(rx, len);
    complete := false;
    if d.Recv? {
      var avail := rx.Avail();
      complete := avail >= len + d.n + 2;
    }
    seen := rx.arrived;
    HeadIs(rx.stream, seen, i, rx.taken, rx.taken + len);
  }

  /**
   The part of urc_buffer_handler that decides. A line that is no complete frame is
   consumed here; of a frame nothing is, and its length is returned.
   */
  method Inspect(rx: ModemRx) returns (code: int, frame: bool, lineLen: nat, n: nat, ghost seen: nat)
    requires rx.Valid()
    modifies rx, rx.ring, rx.ring.storage
    ensures rx.Valid() && old(rx.arrived) <= seen <= rx.arrived && old(rx.taken) <= rx.taken && old(rx.taken) <= seen
    ensures var d := Decide(rx.stream[..seen], old(rx.taken));
            && (frame <==> d.Frame?)
            && (d.Frame? ==> d == Frame(rx.taken + lineLen + 2, rx.taken + lineLen + 2 + n))
            && (!d.Frame? ==> rx.taken == d.next && code == if d.Reject? then -1 else 1)
  {
    code, frame, lineLen, n := 1, false, 0, 0;
    var res, len := rx.SeekLineLength();
    seen := rx.arrived;
    if res != 0 {
      LineMissing(rx.stream, seen, old(rx.taken), rx.taken);
      return;
    }
    var kind, complete;
    kind, complete, seen := InspectLine(rx, old(rx.taken), len);
    match kind
    case Other => rx.Advance(len);
    case Malformed =>
      rx.Advance(len);
      code := -1;
    case Recv(size) =>
      frame, lineLen, n := complete, len, size;
  }

  lemma FrameHandled(stream: seq<byte>, seen: nat, i: nat, body: nat, n: nat, q: seq<Datagram>)
    requires i <= seen <= |stream| && Decide(stream[..seen], i) == Frame(body, body + n)
    ensures body + n <= seen
    ensures Handle(stream[..seen], i, q) ==
            if Accepts(q, n) then Handling(0, body + n, q + [stream[body..body + n]]) else Handling(-1, body + n, q)
  {
    Sequences.SliceOfPrefix(stream, seen, body, body + n);
  }

  lemma NoFrameHandled(s: seq<byte>, i: nat, q: seq<Datagram>)
    requires i <= |s| && !Decide(s, i).Frame?
    ensures Handle(s, i, q) == Handling(if Decide(s, i).Reject? then -1 else 1, Decide(s, i).next, q)
  {
  }

  class Modem {
    const rx: ModemRx
    const tx: ModemTx
    const store: Store

    ghost predicate Apart()
      reads rx, tx, store
    {
      && rx.ring != tx.ring && rx.ring != store.buf && tx.ring != store.buf
      && rx.ring.storage != tx.ring.storage && rx.ring.storage != store.buf.storage
      && tx.ring.storage != store.buf.storage
    }

    ghost predicate Valid()
      reads this, rx, rx.ring, rx.ring.storage, tx, tx.ring, tx.ring.storage
      reads store, store.buf, store.buf.storage, store.lens
    {
      rx.Valid() && tx.Valid() && store.Valid() && Apart()
    }

    ghost function View(): Link
      requires rx.arrived <= |rx.stream|
      reads this, rx, tx, tx.ring, store
    {
      Link(rx.Received(), rx.taken, store.queue, tx.View())
    }

    constructor (stream: seq<byte>)
      ensures Valid() && View() == Link([], 0, [], Tx([], [], false))
    {
      rx := new ModemRx(stream);
      tx := new ModemTx();
      store := new Store();
    }

    /** One byte of the payload moves from the RX ring to the datagram ring. */
    method CopyByte(ghost pending: seq<byte>)
      requires rx.Valid() && store.Open(pending) && rx.ring != store.buf && rx.ring.storage != store.buf.storage
      requires rx.taken < rx.arrived && |store.buf.contents| + 1 < store.buf.storage.Length
      modifies rx, rx.ring, rx.ring.storage, store.buf, store.buf.storage
      ensures rx.Valid() && old(rx.arrived) <= rx.arrived && rx.taken == old(rx.taken) + 1
      ensures store.Open(pending + [rx.stream[old(rx.taken)]])
    {
      var b := rx.Pop();
      store.buf.Push(b);
      Sequences.Assoc(Concat(store.queue), pending, [b]);
    }

    /** The payload loop of urc_buffer_handler. */
    method CopyPayload(n: nat)
      requires rx.Valid() && store.Valid() && rx.ring != store.buf && rx.ring.storage != store.buf.storage
      requires rx.taken + n <= rx.arrived && Accepts(store.queue, n)
      modifies rx, rx.ring, rx.ring.storage, store.buf, store.buf.storage
      ensures rx.Valid() && old(rx.arrived) <= rx.arrived && rx.taken == old(rx.taken) + n
      ensures store.Open(rx.stream[old(rx.taken)..rx.taken])
    {
      ghost var first := rx.taken;
      for i := 0 to n
        invariant rx.Valid() && store.Open(rx.stream[first..first + i])
        invariant old(rx.arrived) <= rx.arrived && rx.taken == first + i
      {
        CopyByte(rx.stream[first..first + i]);
        assert rx.stream[first..first + i + 1] == rx.stream[first..first + i] + [rx.stream[first + i]];
      }
    }

    /** Copies a payload and records its length. */
    method QueuePayload(n: nat)
      requires rx.Valid() && store.Valid() && rx.ring != store.buf && rx.ring.storage != store.buf.storage
      requires rx.taken + n <= rx.arrived && Accepts(store.queue, n)
      modifies rx, rx.ring, rx.ring.storage, store, store.buf, store.buf.storage, store.lens
      ensures rx.Valid() && store.Valid() && old(rx.arrived) <= rx.arrived && rx.taken == old(rx.taken) + n
      ensures store.queue == old(store.queue) + [rx.stream[old(rx.taken)..rx.taken]]
    {
      CopyPayload(n);
      store.Commit(n, rx.stream[old(rx.taken)..rx.taken]);
    }

    /** The part of urc_buffer_handler that consumes a complete frame. */
    method ConsumeFrame(lineLen: nat, n: nat) returns (code: int)
      requires rx.Valid() && store.Valid() && rx.ring != store.buf && rx.ring.storage != store.buf.storage
      requires rx.taken + lineLen + 2 + n <= rx.arrived
      modifies rx, rx.ring, rx.ring.storage, store, store.buf, store.buf.storage, store.lens
      ensures rx.Valid() && store.Valid()
      ensures old(rx.arrived) <= rx.arrived && rx.taken == old(rx.taken) + lineLen + 2 + n
      ensures var data := rx.stream[rx.taken - n..rx.taken];
              if Accepts(old(store.queue), n) then code == 0 && store.queue == old(store.queue) + [data]
              else code == -1 && store.queue == old(store.queue)
    {
      rx.Advance(lineLen + 2);
      if n > store.buf.Free() || store.count >= LENS_SIZE {
        rx.Advance(n);
        return -1;
      }
      if n == SOCKET_RECV_MAX {
        rx.Advance(n);
        return -1;
      }
      QueuePayload(n);
      return 0;
    }

    /** The same, as the handler run at position i when `seen` bytes had arrived and this frame was complete. */
    method HandleFrame(lineLen: nat, n: nat, ghost i: nat, ghost seen: nat) returns (code: int)
      requires rx.Valid() && store.Valid() && rx.ring != store.buf && rx.ring.storage != store.buf.storage
      requires rx.taken + lineLen + 2 + n <= rx.arrived && i <= seen <= rx.arrived
      requires var body := rx.taken + lineLen + 2; Decide(rx.stream[..seen], i) == Frame(body, body + n)
      modifies rx, rx.ring, rx.ring.storage, store, store.buf, store.buf.storage, store.lens
      ensures rx.Valid() && store.Valid() && old(rx.arrived) <= rx.arrived
      ensures Handling(code, rx.taken, store.queue) == Handle(rx.stream[..seen], i, old(store.queue))
    {
      FrameHandled(rx.stream, seen, i, rx.taken + lineLen + 2, n, store.queue);
      code := ConsumeFrame(lineLen, n);
    }

    /**
     urc_buffer_handler. Interrupts may run between any two accesses; the call acts as if
     it had run at once when `seen` bytes had arrived.
     */
    method UrcBufferHandler() returns (code: int, ghost seen: nat)
      requires rx.Valid() && store.Valid() && rx.ring != store.buf && rx.ring.storage != store.buf.storage
      modifies rx, rx.ring, rx.ring.storage, store, store.buf, store.buf.storage, store.lens
      ensures rx.Valid() && store.Valid()
      ensures old(rx.arrived) <= seen <= rx.arrived && old(rx.taken) <= seen
      ensures Handling(code, rx.taken, store.queue) == Handle(rx.stream[..seen], old(rx.taken), old(store.queue))
    {
      var frame, lineLen, n;
      code, frame, lineLen, n, seen := Inspect(rx);
      if frame {
        code := HandleFrame(lineLen, n, old(rx.taken), seen);
      } else {
        NoFrameHandled(rx.stream[..seen], old(rx.taken), store.queue);
      }
    }

    /** modem_socket_try_recv, with the data it copies out. */
    method SocketTryRecv(size: nat) returns (code: int, data: Option<Datagram>, ghost seen: nat)
      requires rx.Valid() && store.Valid() && rx.ring != store.buf && rx.ring.storage != store.buf.storage
      modifies rx, rx.ring, rx.ring.storage, store, store.buf, store.buf.storage, store.lens
      ensures rx.Valid() && store.Valid()
      ensures old(rx.arrived) <= seen <= rx.arrived && old(rx.taken) <= seen
      ensures Receipt(code, rx.taken, store.queue, data)
              == TryRecv(rx.stream[..seen], old(rx.taken), old(store.queue), size)
    {
      if store.count == 0 {
        code, seen := UrcBufferHandler();
        return if code < 0 then -1 else 1, None, seen;
      }
      seen := rx.arrived;
      code, data := store.Take(size);
    }

    /** modem_rx_buf_flush and a command, as modem_socket_open_init and modem_socket_close_init do. */
    method FlushAndSend(pieces: seq<seq<byte>>) returns (code: int, ghost mid: Link)
      requires Valid() && pieces != []
      modifies rx, rx.ring, rx.ring.storage, tx, tx.ring, tx.ring.storage
      ensures Valid() && Later(old(View()), mid)
      ensures Reply(code, View()) == Command(Flush(mid), pieces)
    {
      rx.Flush();
      ghost var received := rx.Received();
      var ok;
      ghost var n;
      ok, n := tx.SendAll(pieces);
      mid := Link(received, old(rx.taken), store.queue, Completions(old(tx.View()), n));
      code := if ok then 0 else -1;
    }

    method SocketOpenInit(host: seq<byte>, port: seq<byte>) returns (code: int, ghost mid: Link)
      requires Valid()
      modifies rx, rx.ring, rx.ring.storage, tx, tx.ring, tx.ring.storage
      ensures Valid() && Later(old(View()), mid)
      ensures Reply(code, View()) == OpenInit(mid, host, port)
    {
      code, mid := FlushAndSend(OpenCommand(host, port));
    }

    method SocketCloseInit() returns (code: int, ghost mid: Link)
      requires Valid()
      modifies rx, rx.ring, rx.ring.storage, tx, tx.ring, tx.ring.storage
      ensures Valid() && Later(old(View()), mid)
      ensures Reply(code, View()) == CloseInit(mid)
    {
      code, mid := FlushAndSend(CLOSE_COMMAND);
    }

    method SocketSendInit(len: nat) returns (code: int, ghost mid: Link)
      requires Valid()
      modifies tx, tx.ring, tx.ring.storage
      ensures Valid() && Later(old(View()), mid)
      ensures Reply(code, View()) == SendInit(mid, len)
    {
      if len > SOCKET_SEND_MAX {
        mid := View();
        LaterReflexive(mid);
        return -1, mid;
      }
      var ok;
      ghost var n;
      ok, n := tx.SendAll(SendCommand(len));
      mid := old(View()).(tx := Completions(old(tx.View()), n));
      code := if ok then 0 else -1;
    }

    /** match_responses_strict, on the whole link. */
    method MatchLine(rs: seq<Response>) returns (code: int, ghost mid: Link)
      requires Valid() && forall i | 0 <= i < |rs| :: IsText(rs[i].text)
      modifies rx, rx.ring, rx.ring.storage
      ensures Valid() && Later(old(View()), mid) && mid.taken <= |mid.received|
      ensures code == MatchStrict(mid, rs).code && Later(MatchStrict(mid, rs).link, View())
    {
      ghost var seen;
      code, seen := MatchResponses(rx, rs, -1);
      mid := old(View()).(received := rx.stream[..seen]);
      LaterArrivals(old(View()), mid);
      LaterArrivals(MatchStrict(mid, rs).link, View());
    }

    method SocketOpenContinue(step: int) returns (code: int, next: int, ghost mid: Link)
      requires Valid()
      modifies rx, rx.ring, rx.ring.storage
      ensures Valid() && Later(old(View()), mid) && mid.taken <= |mid.received|
      ensures var r := OpenContinue(mid, step);
              code == r.code && next == r.step && Later(r.link, View())
    {
      mid := View();
      LaterReflexive(mid);
      next := step;
      if step == 0 {
        code, mid := MatchLine(OK_OR_ERROR);
        if code == 0 {
          code, next := 1, 1;
        }
      } else if step == 1 {
        code, mid := MatchLine(OPENED);
      } else {
        code := -1;
      }
    }

    method SocketCloseContinue() returns (code: int, ghost mid: Link)
      requires Valid()
      modifies rx, rx.ring, rx.ring.storage
      ensures Valid() && Later(old(View()), mid) && mid.taken <= |mid.received|
      ensures code == CloseContinue(mid).code && Later(CloseContinue(mid).link, View())
    {
      code, mid := MatchLine(OK_OR_ERROR);
    }

    /** Payload, Ctrl-Z and start, once the prompt has been consumed. */
    method TransmitPayload(buf: seq<byte>) returns (code: int, next: int, ghost n: nat)
      requires tx.Valid()
      modifies tx, tx.ring, tx.ring.storage
      ensures tx.Valid()
      ensures forall l: Link :: l.tx == Completions(old(tx.View()), n)
                ==> Transmission(l, buf) == StepReply(code, next, l.(tx := tx.View()))
    {
      var ok;
      ghost var k;
      ok, n := tx.AppendBytes(buf);
      if !ok {
        return -1, 0, n;
      }
      ghost var t := tx.View();
      CompletionsKeepAll(t, 0);
      assert !t.ongoing;
      ok, k := tx.AppendBytes([CTRL_Z]);
      CompletionsKeepAll(t, k);
      if !ok {
        return -1, 0, n;
      }
      t := tx.View();
      ok, k := tx.StartChain();
      CompletionsKeepAll(t, k);
      return if ok then 1 else -1, 1, n;
    }

    method SocketSendContinue(step: int, buf: seq<byte>) returns (code: int, next: int, ghost mid: Link)
      requires Valid()
      modifies rx, rx.ring, rx.ring.storage, tx, tx.ring, tx.ring.storage
      modifies store, store.buf, store.buf.storage, store.lens
      ensures Valid() && Later(old(View()), mid) && mid.taken <= |mid.received|
      ensures var r := SendContinue(mid, step, buf);
              code == r.code && next == r.step && Later(r.link, View())
    {
      if step == 0 {
        code, next, mid := AwaitPrompt(buf);
      } else if step == 1 {
        next := 1;
        code, mid := MatchLine(SENT);
      } else {
        mid := View();
        LaterReflexive(mid);
        code, next := -1, step;
      }
    }

    /** Step 0 of modem_socket_send_continue. */
    method AwaitPrompt(buf: seq<byte>) returns (code: int, next: int, ghost mid: Link)
      requires Valid()
      modifies rx, rx.ring, rx.ring.storage, tx, tx.ring, tx.ring.storage
      modifies store, store.buf, store.buf.storage, store.lens
      ensures Valid() && Later(old(View()), mid) && mid.taken <= |mid.received|
      ensures var r := SendContinue(mid, 0, buf);
              code == r.code && next == r.step && Later(r.link, View())
    {
      next := 0;
      mid := old(View());
      var emptied := rx.PopNewlines();
      if emptied {
        BolAt(rx.stream, rx.arrived, old(rx.taken), rx.taken);
        mid := mid.(received := rx.Received());
        LaterArrivals(old(View()), mid);
        LaterArrivals(SendContinue(mid, 0, buf).link, View());
        return 1, 0, mid;
      }
      ghost var start := rx.taken;
      BolAt(rx.stream, rx.arrived, old(rx.taken), start);
      var prompt := rx.Seek(0);
      if prompt != '>' {
        code, mid := AwaitWithUrc(start, old(View()), buf);
      } else {
        code, next, mid := SendAtPrompt(start, old(View()), buf);
      }
    }

    /** Something else than a prompt has come; `start` is where, `before` the link on entry. */
    method AwaitWithUrc(ghost start: nat, ghost before: Link, ghost buf: seq<byte>) returns (code: int, ghost mid: Link)
      requires Valid() && start == rx.taken < rx.arrived && !IsNewline(rx.stream[start]) && rx.stream[start] != '>'
      requires before.taken <= start && Blank(rx.stream, before.taken, start)
      requires View() == before.(received := rx.Received(), taken := start)
      requires |before.received| <= rx.arrived && rx.stream[..|before.received|] == before.received
      modifies rx, rx.ring, rx.ring.storage, store, store.buf, store.buf.storage, store.lens
      ensures Valid() && Later(before, mid) && mid.taken <= |mid.received|
      ensures var r := SendContinue(mid, 0, buf);
              code == r.code && 0 == r.step && Later(r.link, View())
    {
      ghost var seen;
      code, seen := UrcBufferHandler();
      BolAt(rx.stream, seen, before.taken, start);
      mid := before.(received := rx.stream[..seen]);
      LaterArrivals(before, mid);
      LaterArrivals(SendContinue(mid, 0, buf).link, View());
      code := if code < 0 then -1 else 1;
    }

    method SendAtPrompt(ghost start: nat, ghost before: Link, buf: seq<byte>)
      returns (code: int, next: int, ghost mid: Link)
      requires Valid() && start == rx.taken < rx.arrived && rx.stream[start] == '>'
      requires before.taken <= start && Blank(rx.stream, before.taken, start)
      requires View() == before.(received := rx.Received(), taken := start)
      requires |before.received| <= rx.arrived && rx.stream[..|before.received|] == before.received
      modifies rx, rx.ring, rx.ring.storage, tx, tx.ring, tx.ring.storage
      ensures Valid() && Later(before, mid) && mid.taken <= |mid.received|
      ensures var r := SendContinue(mid, 0, buf);
              code == r.code && next == r.step && Later(r.link, View())
    {
      rx.Advance(1);
      ghost var n;
      code, next, n := TransmitPayload(buf);
      BolAt(rx.stream, rx.arrived, before.taken, start);
      mid := before.(received := rx.Received(), tx := Completions(before.tx, n));
      LaterReflexive(View());
    }

    method SocketRecv(size: nat) returns (code: int, data: Option<Datagram>, ghost mid: Link)
      requires Valid()
      modifies rx, rx.ring, rx.ring.storage, store, store.buf, store.buf.storage, store.lens
      ensures Valid() && Later(old(View()), mid) && mid.taken <= |mid.received|
      ensures var (r, d) := RecvCall(mid, size);
              code == r.code && data == d && Later(r.link, View())
    {
      ghost var seen;
      code, data, seen := SocketTryRecv(size);
      mid := old(View()).(received := rx.stream[..seen]);
      LaterArrivals(old(View()), mid);
      LaterArrivals(RecvCall(mid, size).0.link, View());
    }
  }
}
