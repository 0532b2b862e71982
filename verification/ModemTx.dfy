/**
 The transmit side (src/modem/modem_tx.c): a ring that a chain of completion interrupts
 empties. Module Transmit says what each operation does to the transmitter as a value;
 module TxDriver holds the driver itself.
 */
module Transmit {
  import opened Bytes

  /** `wire`: bytes handed to the UART, the one in flight included; `queued`: bytes still in the ring. */
  datatype Tx = Tx(wire: seq<byte>, queued: seq<byte>, ongoing: bool) {
    /** Everything accepted so far, in order. */
    function All(): seq<byte> {
      wire + queued
    }
  }

  datatype TxReply = TxReply(ok: bool, tx: Tx)

  /** n more bytes would be accepted now. */
  predicate CanQueue(t: Tx, n: nat) {
    !t.ongoing && |t.queued| + n <= TX_CAP
  }

  function Append(t: Tx, data: seq<byte>): TxReply {
    if t.ongoing || |t.queued| + |data| > TX_CAP then TxReply(false, t)
    else TxReply(true, t.(queued := t.queued + data))
  }

  function NextByte(t: Tx): Tx
    requires t.queued != []
  {
    Tx(t.wire + [t.queued[0]], t.queued[1..], true)
  }

  function Start(t: Tx): TxReply {
    if t.ongoing then TxReply(false, t)
    else if t.queued == [] then TxReply(true, t)
    else TxReply(true, NextByte(t))
  }

  /** The completion interrupt of the byte in flight. */
  function Complete(t: Tx): Tx {
    if t.queued != [] then NextByte(t) else t.(ongoing := false)
  }

  /** Up to n completion interrupts; none comes when nothing is in flight. */
  function Completions(t: Tx, n: nat): Tx
    decreases n
  {
    if n == 0 || !t.ongoing then t else Completions(Complete(t), n - 1)
  }

  /** A command written in pieces and then started; a piece that does not fit ends it. */
  function SendPieces(t: Tx, pieces: seq<seq<byte>>): TxReply
    decreases |pieces|
  {
    if pieces == [] then Start(t) else
    var r := Append(t, pieces[0]);
    if r.ok then SendPieces(r.tx, pieces[1..]) else r
  }

  function Join(pieces: seq<seq<byte>>): seq<byte> {
    if pieces == [] then [] else pieces[0] + Join(pieces[1..])
  }

  // ---- what the operations promise -----------------------------------------------

  lemma {:induction false} CompletionsCompose(t: Tx, m: nat, n: nat)
    ensures Completions(Completions(t, m), n) == Completions(t, m + n)
    decreases m
  {
    if m == 0 || !t.ongoing {
    } else {
      CompletionsCompose(Complete(t), m - 1, n);
    }
  }

  lemma CompleteKeepsAll(t: Tx)
    ensures Complete(t).All() == t.All()
  {
  }

  lemma {:induction false} CompletionsKeepAll(t: Tx, n: nat)
    ensures Completions(t, n).All() == t.All() && t.wire <= Completions(t, n).wire
    ensures Completions(t, n).ongoing ==> t.ongoing
    ensures !t.ongoing ==> Completions(t, n) == t
    decreases n
  {
    if n == 0 || !t.ongoing {
    } else {
      CompletionsKeepAll(Complete(t), n - 1);
    }
  }

  /**
   A start with n queued bytes is finished by exactly n completions: before the last
   the chain is still running and has sent one byte more than it had completions.
   */
  lemma {:induction false} ChainLength(t: Tx, k: nat)
    requires !t.ongoing && t.queued != []
    ensures var n := |t.queued|;
            var r := Completions(Start(t).tx, k);
            && (k < n ==> r == Tx(t.wire + t.queued[..k + 1], t.queued[k + 1..], true))
            && (k >= n ==> r == Tx(t.wire + t.queued, [], false))
  {
    if k == 0 {
      assert t.queued[..1] == [t.queued[0]];
    } else {
      ChainLength(t, k - 1);
      CompletionsCompose(Start(t).tx, k - 1, 1);
      var r := Completions(Start(t).tx, k - 1);
      assert Completions(r, 1) == if r.ongoing then Complete(r) else r;
      if k - 1 < |t.queued| {
        assert t.queued[..k] + t.queued[k..] == t.queued;
        if k < |t.queued| {
          assert t.queued[..k + 1] == t.queued[..k] + [t.queued[k]];
        } else {
          assert t.queued[..k] == t.queued;
        }
      }
    }
  }

  /**
   A command is accepted as a whole exactly if nothing is being sent and all its pieces
   fit; then it follows everything accepted before and is on its way.
   */
  lemma {:induction false} CommandAccepted(t: Tx, pieces: seq<seq<byte>>)
    requires pieces != [] && pieces[0] != []
    ensures var r := SendPieces(t, pieces);
            && (r.ok <==> CanQueue(t, |Join(pieces)|))
            && (r.ok ==> r.tx.All() == t.All() + Join(pieces) && r.tx.ongoing && t.wire <= r.tx.wire)
            && (!r.ok ==> r.tx.ongoing == t.ongoing && r.tx.wire == t.wire)
            && (t.ongoing ==> r.tx == t)
    decreases |pieces|
  {
    PiecesAccepted(t, pieces);
  }

  lemma {:induction false} PiecesAccepted(t: Tx, pieces: seq<seq<byte>>)
    requires pieces != []
    ensures var r := SendPieces(t, pieces);
            && (r.ok <==> CanQueue(t, |Join(pieces)|))
            && (r.ok ==> r.tx.All() == t.All() + Join(pieces) && t.wire <= r.tx.wire)
            && (r.ok ==> (r.tx.ongoing <==> t.queued + Join(pieces) != []))
            && (!r.ok ==> r.tx.ongoing == t.ongoing && r.tx.wire == t.wire)
            && (t.ongoing ==> r.tx == t)
    decreases |pieces|
  {
    var r := Append(t, pieces[0]);
    assert t.queued + Join(pieces) == t.queued + pieces[0] + Join(pieces[1..]);
    if r.ok {
      if |pieces| > 1 {
        PiecesAccepted(r.tx, pieces[1..]);
        assert r.tx.All() + Join(pieces[1..]) == t.All() + Join(pieces);
      } else {
        assert Join(pieces[1..]) == [];
        assert SendPieces(r.tx, pieces[1..]) == Start(r.tx);
      }
    }
  }

  /** A command that does not fit leaves the pieces before the failing one in the ring. */
  lemma {:induction false} RejectedCommandLeaves(t: Tx, pieces: seq<seq<byte>>)
    requires !t.ongoing && !SendPieces(t, pieces).ok
    ensures exists k | 0 <= k < |pieces| ::
              && SendPieces(t, pieces).tx == t.(queued := t.queued + Join(pieces[..k]))
              && |t.queued| + |Join(pieces[..k])| + |pieces[k]| > TX_CAP
    decreases |pieces|
  {
    assert pieces != [];
    var r := Append(t, pieces[0]);
    if r.ok {
      RejectedCommandLeaves(r.tx, pieces[1..]);
      var k :| 0 <= k < |pieces| - 1
        && SendPieces(t, pieces).tx == r.tx.(queued := r.tx.queued + Join(pieces[1..][..k]))
        && |r.tx.queued| + |Join(pieces[1..][..k])| + |pieces[1..][k]| > TX_CAP;
      assert pieces[..k + 1][1..] == pieces[1..][..k];
      assert pieces[..k + 1][0] == pieces[0];
      assert r.tx.queued + Join(pieces[1..][..k]) == t.queued + Join(pieces[..k + 1]);
    } else {
      assert Join(pieces[..0]) == [];
      assert t.queued + [] == t.queued;
    }
  }
}

/** The transmitter over whole runs of appends, starts and completion interrupts. */
module TransmitRuns {
  import opened Bytes
  import opened Transmit

  datatype Event = AppendCall(data: seq<byte>) | StartCall | Completion

  /** `completed` counts completion interrupts, `accepted` joins the accepted appends. */
  datatype Chain = Chain(tx: Tx, completed: nat, accepted: seq<byte>)

  const IDLE := Chain(Tx([], [], false), 0, [])

  /** The UART reports completion only of a byte it was handed and has not yet reported. */
  predicate Possible(c: Chain, e: Event) {
    e.Completion? ==> |c.tx.wire| > c.completed
  }

  function Step(c: Chain, e: Event): Chain {
    match e
    case AppendCall(data) =>
      var r := Append(c.tx, data);
      c.(tx := r.tx, accepted := if r.ok then c.accepted + data else c.accepted)
    case StartCall => c.(tx := Start(c.tx).tx)
    case Completion => c.(tx := Complete(c.tx), completed := c.completed + 1)
  }

  predicate Feasible(c: Chain, es: seq<Event>)
    decreases |es|
  {
    es == [] || (Possible(c, es[0]) && Feasible(Step(c, es[0]), es[1..]))
  }

  function Run(c: Chain, es: seq<Event>): Chain
    decreases |es|
  {
    if es == [] then c else Run(Step(c, es[0]), es[1..])
  }

  ghost predicate Conserved(c: Chain) {
    && c.tx.All() == c.accepted
    && |c.tx.wire| == c.completed + (if c.tx.ongoing then 1 else 0)
    && |c.tx.queued| <= TX_CAP
  }

  /**
   In every run the bytes handed over followed by those queued are the accepted ones,
   and the flag is set exactly while one byte is in flight.
   */
  lemma {:induction false} TxConservation(c: Chain, es: seq<Event>)
    requires Conserved(c) && Feasible(c, es)
    ensures Conserved(Run(c, es))
    decreases |es|
  {
    if es == [] {
    } else {
      var e := es[0];
      if e.AppendCall? {
        assert c.tx.All() + e.data == c.tx.wire + (c.tx.queued + e.data);
      }
      assert Conserved(Step(c, e));
      TxConservation(Step(c, e), es[1..]);
    }
  }

  /** In particular on every run from the transmitter's initial state. */
  lemma TxConservedFromIdle(es: seq<Event>)
    requires Feasible(IDLE, es)
    ensures Conserved(Run(IDLE, es))
  {
    TxConservation(IDLE, es);
  }
}

module TxDriver {
  import opened Bytes
  import opened CircularBuffer
  import opened Transmit

  class ModemTx {
    const ring: CircBuf
    var ongoing: bool

    ghost var wire: seq<byte>

    ghost predicate Valid()
      reads this, ring, ring.storage
    {
      ring.Valid() && ring.storage.Length == TX_BUF
    }

    ghost function View(): Tx
      reads this, ring
    {
      Tx(wire, ring.contents, ongoing)
    }

    constructor ()
      ensures Valid() && fresh(ring) && fresh(ring.storage) && View() == Tx([], [], false)
    {
      ring := new CircBuf(TX_BUF);
      ongoing := false;
      wire := [];
    }

    /** tx_char: the popped byte goes to the UART. */
    method TxChar()
      requires Valid() && ring.contents != []
      modifies this, ring
      ensures Valid() && View() == NextByte(old(View())).(ongoing := old(ongoing))
    {
      var b := ring.Pop();
      wire := wire + [b];
    }

    /** HAL_UART_TxCpltCallback, raised for a byte in flight. */
    method TxCpltCallback()
      requires Valid() && ongoing
      modifies this, ring
      ensures Valid() && View() == Complete(old(View()))
    {
      if ring.Avail() > 0 {
        TxChar();
      } else {
        ongoing := false;
      }
    }

    /** Completion interrupts that happen to come at this point: any number of them. */
    method Preempt() returns (ghost n: nat)
      requires Valid()
      modifies this, ring
      ensures Valid() && View() == Completions(old(View()), n)
    {
      n := 0;
      var more: nat := *;
      while ongoing && more > 0
        invariant Valid() && View() == Completions(old(View()), n)
        decreases more
      {
        CompletionsCompose(old(View()), n, 1);
        assert Completions(View(), 1) == Complete(View());
        TxCpltCallback();
        n := n + 1;
        more := more - 1;
      }
    }

    method AppendBytes(data: seq<byte>) returns (ok: bool, ghost n: nat)
      requires Valid()
      modifies this, ring, ring.storage
      ensures Valid() && TxReply(ok, View()) == Append(Completions(old(View()), n), data)
    {
      n := Preempt();
      if ongoing {
        return false, n;
      }
      ok := ring.Append(data);
    }

    method StartChain() returns (ok: bool, ghost n: nat)
      requires Valid()
      modifies this, ring
      ensures Valid() && TxReply(ok, View()) == Start(Completions(old(View()), n))
    {
      n := Preempt();
      if ongoing {
        return false, n;
      }
      if ring.Avail() == 0 {
        return true, n;
      }
      ongoing := true;
      TxChar();
      ok := true;
    }

    /** The appends of a command one after the other, then the start. */
    method SendAll(pieces: seq<seq<byte>>) returns (ok: bool, ghost n: nat)
      requires Valid() && pieces != []
      modifies this, ring, ring.storage
      ensures Valid() && TxReply(ok, View()) == SendPieces(Completions(old(View()), n), pieces)
    {
      ghost var start := View();
      n := 0;
      for i := 0 to |pieces|
        invariant Valid()
        invariant i == 0 ==> View() == start
        invariant i > 0 ==> !ongoing
        invariant SendPieces(Completions(start, n), pieces) == SendPieces(View(), pieces[i..])
      {
        ghost var before := View();
        ghost var k;
        ok, k := AppendBytes(pieces[i]);
        CompletionsKeepAll(before, k);
        if i == 0 {
          n := k;
          assert pieces[0..] == pieces;
        }
        assert pieces[i..][0] == pieces[i] && pieces[i..][1..] == pieces[i + 1..];
        if !ok {
          return false, n;
        }
      }
      ghost var before := View();
      ghost var k;
      ok, k := StartChain();
      CompletionsKeepAll(before, k);
    }
  }
}
