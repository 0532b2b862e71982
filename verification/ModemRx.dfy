/**
 The receive side (src/modem/modem_rx.c). What the modem sends is a finite stream fixed
 in advance; the interrupt moves it into the ring, at any access of the main loop.
 */
module RxDriver {
  import opened Bytes
  import opened CircularBuffer
  import opened Lines
  import opened Interleaving

  class ModemRx {
    const ring: CircBuf
    const stream: seq<byte>   // everything the modem will ever send
    var arrived: nat          // how much of it the interrupt has delivered
    ghost var taken: nat      // how much of that is no longer in the ring

    ghost predicate Valid()
      reads this, ring, ring.storage
    {
      && ring.Valid() && ring.storage.Length == RX_BUF
      && taken <= arrived <= |stream|
      && |ring.contents| == arrived - taken
      && forall i | 0 <= i < |ring.contents| :: ring.contents[i] == stream[taken + i]
    }

    /** Every byte received so far. */
    ghost function Received(): seq<byte>
      requires arrived <= |stream|
      reads this
    {
      stream[..arrived]
    }

    constructor (stream: seq<byte>)
      ensures Valid() && fresh(ring) && fresh(ring.storage)
      ensures arrived == 0 && taken == 0 && this.stream == stream
    {
      ring := new CircBuf(RX_BUF);
      this.stream := stream;
      arrived, taken := 0, 0;
    }

    /** HAL_UART_RxCpltCallback in the release build: the oldest byte makes room. */
    method RxCpltCallback()
      requires Valid() && arrived < |stream|
      modifies this, ring, ring.storage
      ensures Valid() && arrived == old(arrived) + 1
      ensures taken == if |old(ring.contents)| == RX_CAP then old(taken) + 1 else old(taken)
      ensures ring.contents == Last(RX_CAP, old(ring.contents) + [stream[old(arrived)]])
    {
      if ring.Free() == 0 {
        var _ := ring.Pop();
        taken := taken + 1;
      }
      ring.Push(stream[arrived]);
      arrived := arrived + 1;
    }

    /** RX interrupts that happen to come at this point: any number that finds a free slot. */
    method Preempt()
      requires Valid()
      modifies this, ring, ring.storage
      ensures Valid() && old(arrived) <= arrived && taken == old(taken)
    {
      var more: nat := *;
      while more > 0 && arrived < |stream| && ring.Free() > 0
        invariant Valid() && old(arrived) <= arrived && taken == old(taken)
      {
        RxCpltCallback();
        more := more - 1;
      }
    }

    method Avail() returns (n: nat)
      requires Valid()
      modifies this, ring, ring.storage
      ensures Valid() && old(arrived) <= arrived && taken == old(taken)
      ensures n == arrived - taken
    {
      Preempt();
      n := ring.Avail();
    }

    method Seek(at: nat) returns (b: byte)
      requires Valid() && taken + at < arrived
      modifies this, ring, ring.storage
      ensures Valid() && old(arrived) <= arrived && taken == old(taken)
      ensures b == stream[taken + at]
    {
      Preempt();
      b := ring.Seek(at);
    }

    method Advance(n: nat)
      requires Valid() && taken + n <= arrived
      modifies this, ring, ring.storage
      ensures Valid() && old(arrived) <= arrived && taken == old(taken) + n
    {
      Preempt();
      ring.AdvanceN(n);
      taken := taken + n;
    }

    method Pop() returns (b: byte)
      requires Valid() && taken < arrived
      modifies this, ring, ring.storage
      ensures Valid() && old(arrived) <= arrived && taken == old(taken) + 1
      ensures b == stream[old(taken)]
    {
      Preempt();
      b := ring.Pop();
      taken := taken + 1;
    }

    /** Drops everything that has arrived. */
    method Flush()
      requires Valid()
      modifies this, ring, ring.storage
      ensures Valid() && old(arrived) <= arrived && taken == arrived
    {
      Preempt();
      ring.Flush();
      taken := arrived;
    }

    /** modem_rx_pop_newlines; the result speaks about what has arrived by the end of the call. */
    method PopNewlines() returns (emptied: bool)
      requires Valid()
      modifies this, ring, ring.storage
      ensures Valid() && old(arrived) <= arrived
      ensures old(taken) <= taken && Blank(stream, old(taken), taken)
      ensures if emptied then taken == arrived else taken < arrived && !IsNewline(stream[taken])
    {
      while true
        invariant Valid() && old(arrived) <= arrived
        invariant old(taken) <= taken && Blank(stream, old(taken), taken)
        decreases |stream| - taken
      {
        var n := Avail();
        if n == 0 {
          return true;
        }
        var c := Seek(0);
        if !IsNewline(c) {
          return false;
        }
        Advance(1);
      }
    }

    /**
     modem_rx_seek_line_length: 0 and the length of the first line, or -1 when no
     complete line has arrived.
     */
    method SeekLineLength() returns (res: int, len: nat)
      requires Valid()
      modifies this, ring, ring.storage
      ensures Valid() && old(arrived) <= arrived
      ensures old(taken) <= taken && Blank(stream, old(taken), taken)
      ensures taken < arrived ==> !IsNewline(stream[taken])
      ensures res == 0 || res == -1
      ensures res == 0 ==> taken + len < arrived && Plain(stream, taken, taken + len) && IsNewline(stream[taken + len])
      ensures res == -1 ==> Plain(stream, taken, arrived)
    {
      len := 0;
      var emptied := PopNewlines();
      if emptied {
        return -1, 0;
      }
      ghost var start := taken;
      while true
        invariant Valid() && old(arrived) <= arrived && taken == start
        invariant taken + len <= arrived && Plain(stream, taken, taken + len)
        decreases RX_BUF - len
      {
        var n := Avail();
        if len >= n {
          return -1, len;
        }
        var c := Seek(len);
        if IsNewline(c) {
          return 0, len;
        }
        len := len + 1;
      }
    }
  }

  /** The scan of the ring in terms of the bytes received so far. */
  lemma LineFound(stream: seq<byte>, arrived: nat, i: nat, b: nat, e: nat)
    requires i <= b <= e < arrived <= |stream| && Blank(stream, i, b) && !IsNewline(stream[b])
    requires Plain(stream, b, e) && IsNewline(stream[e])
    ensures Bol(stream[..arrived], i) == b && Eol(stream[..arrived], b) == e
  {
    BolIs(stream[..arrived], i, b);
    EolIs(stream[..arrived], b, e);
  }

  lemma LineMissing(stream: seq<byte>, arrived: nat, i: nat, b: nat)
    requires i <= b <= arrived <= |stream| && Blank(stream, i, b) && Plain(stream, b, arrived)
    ensures Bol(stream[..arrived], i) == b && Eol(stream[..arrived], b) == arrived
  {
    BolIs(stream[..arrived], i, b);
    EolIs(stream[..arrived], b, arrived);
  }
}
