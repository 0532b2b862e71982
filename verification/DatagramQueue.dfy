/**
 The queue of received datagrams: a byte ring with their concatenation and a parallel
 ring with their lengths (src/modem/modem.c, recv_qiurc_buf and recv_qiurc_lens).
 */
module DatagramQueue {
  import opened Bytes
  import opened CircularBuffer
  import opened Urc

  function Slot(start: nat, i: nat): nat {
    Wrap(start + i, LENS_SIZE)
  }

  /** The live slots hold the lengths of the queued datagrams, in order. */
  predicate LengthsHeld(lens: seq<nat>, start: nat, queue: seq<Datagram>)
    requires |lens| == LENS_SIZE && start < LENS_SIZE && |queue| <= LENS_SIZE
  {
    forall i | 0 <= i < |queue| :: lens[Slot(start, i)] == |queue[i]|
  }

  lemma LengthAdded(lens: seq<nat>, start: nat, queue: seq<Datagram>, d: Datagram)
    requires |lens| == LENS_SIZE && start < LENS_SIZE && |queue| < LENS_SIZE
    requires LengthsHeld(lens, start, queue)
    ensures LengthsHeld(lens[Slot(start, |queue|) := |d|], start, queue + [d])
  {
  }

  lemma LengthTaken(lens: seq<nat>, start: nat, queue: seq<Datagram>)
    requires |lens| == LENS_SIZE && start < LENS_SIZE && 0 < |queue| <= LENS_SIZE
    requires LengthsHeld(lens, start, queue)
    ensures LengthsHeld(lens, Slot(start, 1), queue[1..])
  {
    forall i | 0 <= i < |queue| - 1
      ensures lens[Slot(Slot(start, 1), i)] == |queue[1..][i]|
    {
      assert Slot(Slot(start, 1), i) == Slot(start, i + 1);
    }
  }

  class Store {
    const buf: CircBuf
    const lens: array<nat>
    var start: nat
    var end: nat
    var count: nat

    ghost var queue: seq<Datagram>

    /** The ring of lengths alone. */
    ghost predicate LengthsOk()
      reads this, lens, buf
    {
      && buf.storage.Length == SOCKET_RECV_MAX + 1
      && lens.Length == LENS_SIZE && start < LENS_SIZE
      && QueueOk(queue) && count == |queue| && end == (start + count) % LENS_SIZE
      && LengthsHeld(lens[..], start, queue)
    }

    /** The bytes of `pending` are in the byte ring already, their length is not recorded yet. */
    ghost predicate Open(pending: seq<byte>)
      reads this, buf, buf.storage, lens
    {
      buf.Valid() && LengthsOk() && buf.contents == Concat(queue) + pending
    }

    ghost predicate Valid()
      reads this, buf, buf.storage, lens
    {
      buf.Valid() && LengthsOk() && buf.contents == Concat(queue)
    }

    constructor ()
      ensures Valid() && queue == [] && fresh(buf) && fresh(buf.storage) && fresh(lens)
    {
      buf := new CircBuf(SOCKET_RECV_MAX + 1);
      lens := new nat[LENS_SIZE];
      start, end, count := 0, 0, 0;
      queue := [];
    }

    /** Records the length of a datagram whose bytes have just been pushed. */
    method Commit(n: nat, ghost data: Datagram)
      requires Open(data) && n == |data| && Accepts(queue, n)
      modifies this, lens
      ensures Valid() && queue == old(queue) + [data]
    {
      ConcatSnoc(queue, data);
      LengthAdded(lens[..], start, queue, data);
      assert end == Slot(start, |queue|);
      lens[end] := n;
      assert lens[..] == old(lens[..])[end := n];
      end := (end + 1) % LENS_SIZE;
      count := count + 1;
      queue := queue + [data];
    }

    /** The oldest length leaves the ring of lengths; its bytes are still in the byte ring. */
    method NextLength() returns (n: nat)
      requires LengthsOk() && queue != []
      modifies this
      ensures LengthsOk() && n == |old(queue)[0]| && queue == old(queue)[1..]
    {
      QueueTail(queue);
      LengthTaken(lens[..], start, queue);
      n := lens[start];
      start := (start + 1) % LENS_SIZE;
      count := count - 1;
      queue := queue[1..];
    }

    /**
     The dequeuing part of modem_socket_try_recv: the oldest datagram leaves the queue in
     any case, and is copied if it fits a buffer of the given size.
     */
    method Take(size: nat) returns (code: int, data: Option<Datagram>)
      requires Valid() && queue != []
      modifies this, buf
      ensures Valid() && queue == old(queue)[1..]
      ensures if size < |old(queue)[0]| then code == -1 && data == None
              else code == 0 && data == Some(old(queue)[0])
    {
      ghost var first := queue[0];
      QueueTail(queue);
      var n := NextLength();
      if size < n {
        buf.AdvanceN(n);
        return -1, None;
      }
      var copied := CopyOut(n);
      return 0, Some(copied);
    }

    /** The copying loop of modem_socket_try_recv. */
    method CopyOut(n: nat) returns (copied: seq<byte>)
      requires buf.Valid() && n <= |buf.contents|
      modifies buf
      ensures buf.Valid() && copied == old(buf.contents)[..n] && buf.contents == old(buf.contents)[n..]
    {
      copied := [];
      for i := 0 to n
        invariant buf.Valid() && copied == old(buf.contents)[..i] && buf.contents == old(buf.contents)[i..]
      {
        var b := buf.Pop();
        copied := copied + [b];
      }
    }
  }
}
