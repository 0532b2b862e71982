/** The circular byte buffer of src/modem/circ_buf.h, refining a byte sequence. */
module CircularBuffer {
  import opened Bytes
  import Modular

  /** An index at most one turn ahead, brought back into the storage. */
  function Wrap(i: nat, len: nat): nat {
    if i < len then i else i - len
  }

  /** This is what the remainder in the code computes. */
  lemma ModWrap(a: nat, n: nat, len: nat)
    requires a < len && n <= len
    ensures (a + n) % len == Wrap(a + n, len)
  {
    if a + n < len {
      Modular.DivUnique(a + n, 0, a + n, len);
    } else {
      Modular.DivUnique(a + n, 1, a + n - len, len);
    }
  }

  /** How many bytes lie from the begin to the end index of a ring. */
  function Count(begin: nat, end: nat, len: nat): nat
    requires begin < len && end < len
  {
    if begin <= end then end - begin else len - begin + end
  }

  /** The bytes from the begin to the end index of a storage, around its end if need be. */
  ghost function Window(st: seq<byte>, begin: nat, end: nat): (w: seq<byte>)
    requires begin < |st| && end < |st|
    ensures |w| == Count(begin, end, |st|)
    decreases Count(begin, end, |st|)
  {
    if begin == end then [] else [st[begin]] + Window(st, Wrap(begin + 1, |st|), end)
  }

  /** Reading at an offset of the window wraps around the storage. */
  lemma {:induction false} WindowAt(st: seq<byte>, begin: nat, end: nat, i: nat)
    requires begin < |st| && end < |st| && i < Count(begin, end, |st|)
    ensures Window(st, begin, end)[i] == st[Wrap(begin + i, |st|)]
    decreases i
  {
    if i == 0 {
    } else {
      WindowAt(st, Wrap(begin + 1, |st|), end, i - 1);
    }
  }

  lemma {:induction false} WindowKeeps(st: seq<byte>, begin: nat, end: nat, b: byte)
    requires begin < |st| && end < |st|
    ensures Window(st[end := b], begin, end) == Window(st, begin, end)
    decreases Count(begin, end, |st|)
  {
    if begin == end {
    } else {
      WindowKeeps(st, Wrap(begin + 1, |st|), end, b);
    }
  }

  lemma {:induction false} WindowGrows(st: seq<byte>, begin: nat, end: nat)
    requires begin < |st| && end < |st| && Count(begin, end, |st|) + 1 < |st|
    ensures Window(st, begin, Wrap(end + 1, |st|)) == Window(st, begin, end) + [st[end]]
    decreases Count(begin, end, |st|)
  {
    if begin == end {
      assert Window(st, Wrap(begin + 1, |st|), Wrap(end + 1, |st|)) == [];
    } else {
      WindowGrows(st, Wrap(begin + 1, |st|), end);
    }
  }

  /** Storing at the end index and moving it appends, as long as one slot stays free. */
  lemma WindowPush(st: seq<byte>, begin: nat, end: nat, b: byte)
    requires begin < |st| && end < |st| && Count(begin, end, |st|) + 1 < |st|
    ensures Window(st[end := b], begin, Wrap(end + 1, |st|)) == Window(st, begin, end) + [b]
  {
    WindowKeeps(st, begin, end, b);
    WindowGrows(st[end := b], begin, end);
  }

  /** Moving the begin index by n drops n bytes. */
  lemma {:induction false} WindowDrop(st: seq<byte>, begin: nat, end: nat, n: nat)
    requires begin < |st| && end < |st| && n <= Count(begin, end, |st|)
    ensures Window(st, Wrap(begin + n, |st|), end) == Window(st, begin, end)[n..]
    decreases n
  {
    if n == 0 {
    } else {
      WindowDrop(st, Wrap(begin + 1, |st|), end, n - 1);
    }
  }

  class CircBuf {
    var begin: nat
    var end: nat
    const storage: array<byte>

    ghost var contents: seq<byte>

    // The length bound is what keeps begin + n inside a 32-bit size_t.
    ghost predicate Valid()
      reads this, storage
    {
      && 0 < storage.Length <= UINT32_RANGE / 2
      && begin < storage.Length && end < storage.Length
      && contents == Window(storage[..], begin, end)
    }

    constructor (len: nat)
      requires 0 < len <= UINT32_RANGE / 2
      ensures Valid() && fresh(storage) && storage.Length == len && contents == []
    {
      storage := new byte[len](_ => NUL);
      begin, end := 0, 0;
      contents := [];
    }

    function Avail(): (n: nat)
      requires Valid()
      reads this, storage
      ensures n == |contents|
    {
      Count(begin, end, storage.Length)
    }

    /** One slot is never used, so that a full buffer differs from an empty one. */
    function Free(): (n: nat)
      requires Valid()
      reads this, storage
      ensures |contents| + n + 1 == storage.Length
    {
      storage.Length - Avail() - 1
    }

    method Push(b: byte)
      requires Valid() && |contents| + 1 < storage.Length
      modifies this, storage
      ensures Valid() && contents == old(contents) + [b]
    {
      ModWrap(end, 1, storage.Length);
      WindowPush(storage[..], begin, end, b);
      storage[end] := b;
      assert storage[..] == old(storage[..])[end := b];
      end := (end + 1) % storage.Length;
      contents := contents + [b];
    }

    method Pop() returns (b: byte)
      requires Valid() && contents != []
      modifies this
      ensures Valid() && b == old(contents)[0] && contents == old(contents)[1..]
    {
      ModWrap(begin, 1, storage.Length);
      WindowDrop(storage[..], begin, end, 1);
      b := storage[begin];
      begin := (begin + 1) % storage.Length;
      contents := contents[1..];
    }

    function Seek(at: nat): (b: byte)
      requires Valid() && at < |contents|
      reads this, storage
      ensures b == contents[at]
    {
      ModWrap(begin, at, storage.Length);
      WindowAt(storage[..], begin, end, at);
      storage[(begin + at) % storage.Length]
    }

    method AdvanceN(n: nat)
      requires Valid() && n <= |contents|
      modifies this
      ensures Valid() && contents == old(contents)[n..]
    {
      assert begin + n < UINT32_RANGE;
      ModWrap(begin, n, storage.Length);
      WindowDrop(storage[..], begin, end, n);
      begin := (begin + n) % storage.Length;
      contents := contents[n..];
    }

    method Flush()
      requires Valid()
      modifies this
      ensures Valid() && contents == []
    {
      begin, end := 0, 0;
      contents := [];
    }

    /** All or nothing. */
    method Append(data: seq<byte>) returns (ok: bool)
      requires Valid()
      modifies this, storage
      ensures Valid()
      ensures ok <==> |old(contents)| + |data| + 1 <= storage.Length
      ensures contents == if ok then old(contents) + data else old(contents)
    {
      if |data| > Free() {
        return false;
      }
      for i := 0 to |data|
        invariant Valid() && contents == old(contents) + data[..i]
      {
        Push(data[i]);
      }
      return true;
    }
  }
}
