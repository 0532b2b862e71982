/**
 The ring between an interrupt that pushes and a main loop that reads, at the grain
 of single loads and stores of the indices. The interrupt runs to completion, so a
 push is one step; a read of the main loop is a load, and later a store of begin.
 */
module Interleaving {
  import opened Bytes
  import opened CircularBuffer
  import opened Modular

  datatype Ring = Ring(st: seq<byte>, begin: nat, end: nat) {
    ghost predicate Valid() {
      begin < |st| && end < |st|
    }

    ghost function Held(): seq<byte>
      requires Valid()
    {
      Window(st, begin, end)
    }

    ghost function Free(): (n: nat)
      requires Valid()
    {
      |st| - |Held()| - 1
    }

    ghost function Push(b: byte): (r: Ring)
      requires Valid()
      ensures r.Valid() && |r.st| == |st|
    {
      Ring(st[end := b], begin, Wrap(end + 1, |st|))
    }
  }

  // ---- with a free slot at each push ---------------------------------------------

  /** Where the main loop stands: idle, or between the load and the store of begin. */
  datatype Reader = Idle | Loaded(begin: nat, n: nat)

  datatype Action =
    | Push(b: byte)        // interrupt
    | Snapshot             // circ_buf_avail, as one read of both indices
    | Seek(at: nat)
    | LoadPop              // storage[begin] and begin are read
    | LoadAdvance(n: nat)  // begin is read
    | Publish              // begin is stored

  datatype Read = Read(position: nat, b: byte)

  /** `avail` is what the reader knows from its last snapshot; `log` are the bytes it saw. */
  datatype State = State(ring: Ring, reader: Reader, avail: nat, pushed: seq<byte>, taken: nat, log: seq<Read>)

  ghost predicate Enabled(s: State, a: Action) {
    && s.ring.Valid()
    && match a
       case Push(_) => s.ring.Free() > 0
       case Snapshot => s.reader.Idle?
       case Seek(at) => s.reader.Idle? && at < s.avail < |s.ring.st|
       case LoadPop => s.reader.Idle? && s.avail > 0
       case LoadAdvance(n) => s.reader.Idle? && n <= s.avail
       case Publish => s.reader.Loaded?
  }

  ghost function Step(s: State, a: Action): State
    requires Enabled(s, a)
  {
    var r := s.ring;
    match a
    case Push(b) => s.(ring := r.Push(b), pushed := s.pushed + [b])
    case Snapshot => s.(avail := |r.Held()|)
    case Seek(at) => s.(log := s.log + [Read(s.taken + at, r.st[Wrap(r.begin + at, |r.st|)])])
    case LoadPop => s.(reader := Loaded(r.begin, 1), log := s.log + [Read(s.taken, r.st[r.begin])])
    case LoadAdvance(n) => s.(reader := Loaded(r.begin, n))
    case Publish =>
      var n := s.reader.n;
      s.(ring := r.(begin := Wrap(s.reader.begin + n, |r.st|)), reader := Idle,
         avail := if n <= s.avail then s.avail - n else 0, taken := s.taken + n)
  }

  ghost predicate AllEnabled(s: State, acts: seq<Action>)
    decreases |acts|
  {
    acts == [] || (Enabled(s, acts[0]) && AllEnabled(Step(s, acts[0]), acts[1..]))
  }

  ghost function Run(s: State, acts: seq<Action>): State
    requires AllEnabled(s, acts)
    decreases |acts|
  {
    if acts == [] then s else Run(Step(s, acts[0]), acts[1..])
  }

  /** What is in the ring are the pushed bytes not yet taken, and every byte read is the pushed one. */
  ghost predicate Fifo(s: State) {
    && s.ring.Valid()
    && s.taken <= |s.pushed| && s.ring.Held() == s.pushed[s.taken..]
    && s.avail <= |s.ring.Held()|
    && (s.reader.Loaded? ==> s.reader.begin == s.ring.begin && s.reader.n <= s.avail)
    && Faithful(s.log, s.pushed)
  }

  ghost predicate Faithful(log: seq<Read>, pushed: seq<byte>) {
    forall i | 0 <= i < |log| :: log[i].position < |pushed| && log[i].b == pushed[log[i].position]
  }

  lemma PushKeepsFifo(s: State, b: byte)
    requires Fifo(s) && Enabled(s, Action.Push(b))
    ensures Fifo(Step(s, Action.Push(b)))
  {
    WindowPush(s.ring.st, s.ring.begin, s.ring.end, b);
    assert Faithful(s.log, s.pushed + [b]);
  }

  lemma ReadKeepsFaithful(s: State, at: nat)
    requires Fifo(s) && at < |s.ring.Held()|
    ensures var r := s.ring;
            Faithful(s.log + [Read(s.taken + at, r.st[Wrap(r.begin + at, |r.st|)])], s.pushed)
  {
    WindowAt(s.ring.st, s.ring.begin, s.ring.end, at);
  }

  lemma StepKeepsFifo(s: State, a: Action)
    requires Fifo(s) && Enabled(s, a)
    ensures Fifo(Step(s, a))
  {
    match a
    case Push(b) => PushKeepsFifo(s, b);
    case Snapshot =>
    case Seek(at) => ReadKeepsFaithful(s, at);
    case LoadPop => ReadKeepsFaithful(s, 0);
    case LoadAdvance(n) =>
    case Publish => PublishKeepsFifo(s);
  }

  lemma PublishKeepsFifo(s: State)
    requires Fifo(s) && Enabled(s, Publish)
    ensures Fifo(Step(s, Publish))
  {
    WindowDrop(s.ring.st, s.ring.begin, s.ring.end, s.reader.n);
  }

  /**
   Interrupts between any two accesses do no harm while each push finds a free slot:
   every run keeps the FIFO order and content.
   */
  lemma {:induction false} InterruptSafe(s: State, acts: seq<Action>)
    requires Fifo(s) && AllEnabled(s, acts)
    ensures Fifo(Run(s, acts))
    decreases |acts|
  {
    if acts == [] {
    } else {
      StepKeepsFifo(s, acts[0]);
      InterruptSafe(Step(s, acts[0]), acts[1..]);
    }
  }

  // ---- without a free slot: the release build of the RX interrupt -------------------

  /** HAL_UART_RxCpltCallback with the assertion compiled out. */
  ghost function Interrupt(r: Ring, b: byte): (r': Ring)
    requires r.Valid()
    ensures r'.Valid() && |r'.st| == |r.st|
  {
    (if r.Free() == 0 then r.(begin := Wrap(r.begin + 1, |r.st|)) else r).Push(b)
  }

  ghost function Burst(r: Ring, bs: seq<byte>): (r': Ring)
    requires r.Valid()
    ensures r'.Valid() && |r'.st| == |r.st|
    decreases |bs|
  {
    if bs == [] then r else Burst(Interrupt(r, bs[0]), bs[1..])
  }

  /** The last n elements. */
  function Last(n: nat, s: seq<byte>): seq<byte> {
    if |s| <= n then s else s[|s| - n..]
  }

  lemma PushHolds(r: Ring, b: byte)
    requires r.Valid() && r.Free() > 0
    ensures r.Push(b).Held() == r.Held() + [b]
  {
    WindowPush(r.st, r.begin, r.end, b);
  }

  lemma DropHolds(r: Ring)
    requires r.Valid() && r.Held() != []
    ensures var r' := r.(begin := Wrap(r.begin + 1, |r.st|));
            r'.Valid() && r'.Held() == r.Held()[1..]
  {
    WindowDrop(r.st, r.begin, r.end, 1);
  }

  lemma InterruptSlides(r: Ring, b: byte)
    requires r.Valid()
    ensures Interrupt(r, b).Held() == Last(|r.st| - 1, r.Held() + [b])
  {
    if |r.st| > 1 {
      if r.Free() == 0 {
        DropHolds(r);
        PushHolds(r.(begin := Wrap(r.begin + 1, |r.st|)), b);
        LastDrops(r.Held(), b);
      } else {
        PushHolds(r, b);
      }
    }
  }

  lemma LastDrops(h: seq<byte>, b: byte)
    requires h != []
    ensures Last(|h|, h + [b]) == h[1..] + [b]
  {
  }

  /** Without a consumer the ring keeps a sliding window of what was there and what came. */
  lemma {:induction false} OverflowSlides(r: Ring, bs: seq<byte>)
    requires r.Valid()
    ensures Burst(r, bs).Held() == Last(|r.st| - 1, r.Held() + bs)
    decreases |bs|
  {
    if bs == [] {
      assert r.Held() + bs == r.Held();
    } else {
      var r' := Interrupt(r, bs[0]);
      InterruptSlides(r, bs[0]);
      OverflowSlides(r', bs[1..]);
      LastAssoc(|r.st| - 1, r.Held(), r'.Held(), bs);
    }
  }

  lemma LastAssoc(n: nat, h: seq<byte>, h': seq<byte>, bs: seq<byte>)
    requires bs != [] && h' == Last(n, h + [bs[0]])
    ensures Last(n, h' + bs[1..]) == Last(n, h + bs)
  {
    var g := h + [bs[0]];
    assert h + bs == g + bs[1..];
    LastOfLast(n, g, bs[1..]);
  }

  lemma LastOfLast(n: nat, g: seq<byte>, t: seq<byte>)
    ensures Last(n, Last(n, g) + t) == Last(n, g + t)
  {
    if |g| > n {
      var cut := |g| - n;
      assert Last(n, g) + t == (g + t)[cut..];
    }
  }

  /** How many bytes of a burst find no free slot. */
  ghost function Overrun(r: Ring, bs: seq<byte>): (n: nat)
    requires r.Valid()
  {
    if |bs| <= r.Free() then 0 else |bs| - r.Free()
  }

  lemma OverrunShrinks(r: Ring, bs: seq<byte>)
    requires r.Valid() && bs != []
    ensures var r' := Interrupt(r, bs[0]);
            if r.Free() == 0
            then r'.begin == Wrap(r.begin + 1, |r.st|) && Overrun(r, bs) == Overrun(r', bs[1..]) + 1
            else r'.begin == r.begin && Overrun(r, bs) == Overrun(r', bs[1..])
  {
    InterruptSlides(r, bs[0]);
  }

  lemma WrapThenAdd(a: nat, n: nat, len: nat)
    requires a < len
    ensures (Wrap(a + 1, len) + n) % len == (a + (n + 1)) % len
  {
    ModWrap(a, 1, len);
    ModAdd(a + 1, n, len);
    assert a + 1 + n == a + (n + 1);
  }

  /** Whether begin moves and a byte less overruns, or neither: the end of the burst is the same. */
  lemma BeginAndOverrun(a: nat, a': nat, n: nat, n': nat, len: nat)
    requires a < len
    requires (a' == a && n == n') || (a' == Wrap(a + 1, len) && n == n' + 1)
    ensures (a' + n') % len == (a + n) % len
  {
    if n == n' + 1 { WrapThenAdd(a, n', len); }
  }

  /** An overflowing interrupt moves begin once per byte beyond the free space. */
  lemma {:induction false} BurstMovesBegin(r: Ring, bs: seq<byte>)
    requires r.Valid()
    ensures Burst(r, bs).begin == (r.begin + Overrun(r, bs)) % |r.st|
    decreases |bs|
  {
    if bs == [] {
      ModWrap(r.begin, 0, |r.st|);
    } else {
      var r' := Interrupt(r, bs[0]);
      OverrunShrinks(r, bs);
      BurstMovesBegin(r', bs[1..]);
      BeginAndOverrun(r.begin, r'.begin, Overrun(r, bs), Overrun(r', bs[1..]), |r.st|);
    }
  }

  /**
   circ_buf_flush stores begin and then end. A burst between the two stores is dropped
   with the rest exactly if it does not overflow the ring that starts at index 0 (or
   overflows it by whole turns); otherwise stale bytes reappear as content.
   */
  lemma SplitFlushExact(r: Ring, bs: seq<byte>)
    requires r.Valid()
    ensures var r0 := r.(begin := 0);
            Burst(r0, bs).(end := 0).Held() == [] <==> Overrun(r0, bs) % |r.st| == 0
  {
    BurstMovesBegin(r.(begin := 0), bs);
    EmptyAtZero(Burst(r.(begin := 0), bs));
  }

  lemma EmptyAtZero(r: Ring)
    requires r.Valid()
    ensures r.(end := 0).Held() == [] <==> r.begin == 0
  {
  }

  /** Subtraction of 32-bit size_t values. */
  function SizeSub(a: nat, b: nat): int {
    if b <= a then a - b else UINT32_RANGE + a - b
  }

  /**
   circ_buf_avail reads end twice. With k pushes in between, into free slots, the result
   is the number of bytes then held exactly if the pushes did not wrap end around
   after the comparison had gone the other way; if they did, the 32-bit difference is huge.
   */
  lemma TornAvailExact(r: Ring, bs: seq<byte>)
    requires r.Valid() && |bs| <= r.Free() && |r.st| <= UINT32_RANGE / 2
    ensures var r' := Burst(r, bs);
            var torn := if r.begin <= r.end then SizeSub(r'.end, r.begin) else |r.st| - r.begin + r'.end;
            && (torn == |r'.Held()| <==> r.end < r.begin || r.end + |bs| < |r.st|)
            && (torn != |r'.Held()| ==> torn >= UINT32_RANGE - |r.st|)
  {
    FittingBurst(r, bs);
  }

  lemma {:induction false} FittingBurst(r: Ring, bs: seq<byte>)
    requires r.Valid() && |bs| <= r.Free()
    ensures var r' := Burst(r, bs);
            && r'.begin == r.begin && |r'.Held()| == |r.Held()| + |bs|
            && r'.end == if r.end + |bs| < |r.st| then r.end + |bs| else r.end + |bs| - |r.st|
    decreases |bs|
  {
    if bs == [] {
    } else {
      InterruptSlides(r, bs[0]);
      FittingBurst(Interrupt(r, bs[0]), bs[1..]);
    }
  }

  /**
   A pop that an overflowing burst interrupts between load and store: storing the old
   begin plus one leaves the sliding window intact exactly if the burst overflowed by
   one byte (or by one and whole turns).
   */
  lemma SplitPopExact(r: Ring, bs: seq<byte>)
    requires r.Valid() && |bs| > r.Free()
    ensures var after := Burst(r, bs);
            after.(begin := Wrap(r.begin + 1, |r.st|)).Held() == after.Held()
            <==> Overrun(r, bs) % |r.st| == 1 % |r.st|
  {
    OverrunBegin(r, bs);
    SameHeld(Burst(r, bs), Wrap(r.begin + 1, |r.st|));
  }

  lemma OverrunBegin(r: Ring, bs: seq<byte>)
    requires r.Valid()
    ensures Burst(r, bs).begin == Wrap(r.begin + 1, |r.st|) <==> Overrun(r, bs) % |r.st| == 1 % |r.st|
  {
    BurstMovesBegin(r, bs);
    ModWrap(r.begin, 1, |r.st|);
    ModCancel(r.begin, Overrun(r, bs), 1, |r.st|);
  }

  lemma SameHeld(r: Ring, begin: nat)
    requires r.Valid() && begin < |r.st|
    ensures r.(begin := begin).Held() == r.Held() <==> begin == r.begin
  {
    if r.(begin := begin).Held() == r.Held() {
      assert |r.(begin := begin).Held()| == |r.Held()|;
    }
  }
}
