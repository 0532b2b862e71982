/**
 The window in which a send waits for SEND OK: every complete line is taken for the
 confirmation, also one that announces a datagram.
 */
module SendWindow {
  import opened Bytes
  import opened Lines
  import opened Urc
  import opened Dialogue

  /** Where a poll that waits for SEND OK leaves off, or for any other answer: the position ignores the table. */
  function Confirmed(s: seq<byte>, i: nat): (j: nat)
    requires i <= |s|
    ensures i <= j <= |s|
  {
    Match(s, i, SENT, -1).next
  }

  /** A line that announces nothing is consumed up to its terminator; no frame is lost by that. */
  lemma ConfirmKeepsFrames(s: seq<byte>, t: seq<byte>, i: nat)
    requires i <= |s| && !Announces(s, i)
    ensures Frames(s + t, i) == Frames(s + t, Confirmed(s, i))
  {
    HandlerSplits(s, t, i);
    assert Decide(s, i).next == Confirmed(s, i) && Found(s, Decide(s, i)) == [];
  }

  /** A datagram is at least a header line, a digit and a newline shorter than what holds it. */
  lemma {:induction false} FramesAreSmaller(s: seq<byte>, i: nat, k: nat)
    requires i <= |s| && k < |Frames(s, i)|
    ensures |Frames(s, i)[k]| + |HEADER| + 3 <= |s| - i
    decreases |s| - i
  {
    var d := Decide(s, i);
    var found := Found(s, d);
    if k < |found| {
      var b := Bol(s, i);
      var e := Eol(s, b);
      assert |s[b..e]| == e - b;
      StartsWithIsPrefix(s[b..e], HEADER);
    } else {
      FramesAreSmaller(s, d.next, k - |found|);
    }
  }

  /** Bytes that complete the payload of an announced datagram, which the code now reads as lines. */
  lemma AnnouncedIsLost(s: seq<byte>, t: seq<byte>, i: nat)
    requires i <= |s| && Announces(s, i) && !Decide(s, i).Frame?
    requires var b := Bol(s, i); var e := Eol(s, b); |s + t| == e + 2 + Kind(s[b..e]).n
    ensures Frames(s + t, i) != Frames(s + t, Confirmed(s, i))
  {
    var b := Bol(s, i);
    var e := Eol(s, b);
    var w := s + t;
    EndsAreStable(s, t, i);
    EndsAreStable(s, t, b);
    assert w[b..e] == s[b..e];
    assert Decide(w, i) == Frame(e + 2, |w|);
    assert Frames(w, i)[0] == w[e + 2..|w|];
    if |Frames(w, e)| > 0 { FramesAreSmaller(w, e, 0); }
  }

  /**
   As long as no announced datagram is complete: whatever bytes follow, the datagrams of the
   stream are those behind the consumed line, exactly if that line announces none.
   */
  lemma ConfirmExact(s: seq<byte>, i: nat)
    requires i <= |s| && !Decide(s, i).Frame?
    ensures (forall t: seq<byte> :: Frames(s + t, i) == Frames(s + t, Confirmed(s, i))) <==> !Announces(s, i)
  {
    if Announces(s, i) {
      var b := Bol(s, i);
      var e := Eol(s, b);
      AnnouncedIsLost(s, seq(e + 2 + Kind(s[b..e]).n - |s|, _ => ' '), i);
    } else {
      forall t: seq<byte> ensures Frames(s + t, i) == Frames(s + t, Confirmed(s, i)) {
        ConfirmKeepsFrames(s, t, i);
      }
    }
  }

  /** What has been received, up to and with the newline that ends the next line. */
  function ThroughLine(s: seq<byte>, i: nat): (p: seq<byte>)
    requires i <= |s|
    ensures i <= |p| <= |s| && p == s[..|p|]
  {
    var e := Confirmed(s, i);
    if e < |s| && IsNewline(s[e]) then s[..e + 1] else s
  }

  lemma ThroughLineSame(s: seq<byte>, i: nat)
    requires i <= |s|
    ensures var p := ThroughLine(s, i);
            Confirmed(p, i) == Confirmed(s, i) && (Announces(p, i) <==> Announces(s, i)) && !Decide(p, i).Frame?
  {
    var p := ThroughLine(s, i);
    var b := Bol(s, i);
    var e := Eol(s, b);
    BolSpec(s, i);
    EolSpec(s, b);
    if e < |s| {
      BolIs(p, i, b);
      EolIs(p, b, e);
      assert p[b..e] == s[b..e];
    }
  }

  lemma AnnouncementIsUnexpected(line: seq<byte>)
    requires Kind(line).Recv?
    ensures Lookup(SENT, line, -1) == -1
  {
    StartsWithIsPrefix(line, HEADER);
    LookupIsFirst(SENT, line, -1, 2);
  }

  /**
   One poll of a send that waits for SEND OK. Whatever bytes may follow the line it meets, it
   leaves the datagrams of the stream as they are exactly if that line announces none; the
   send fails if it does. Without a line only newlines are consumed.
   */
  lemma WindowExact(l: Link, buf: seq<byte>)
    requires l.Ok()
    ensures var r, p := SendContinue(l, 1, buf), ThroughLine(l.received, l.taken);
            && r.link.taken <= |p|
            && ((forall t: seq<byte> :: Frames(p + t, l.taken) == Frames(p + t, r.link.taken))
                <==> !Announces(l.received, l.taken))
            && (Announces(l.received, l.taken) ==> r.code == -1)
            && r.link.queue == l.queue
  {
    var s, i := l.received, l.taken;
    var p := ThroughLine(s, i);
    ThroughLineSame(s, i);
    ConfirmExact(p, i);
    if Announces(s, i) { AnnouncementIsUnexpected(s[Bol(s, i)..Eol(s, Bol(s, i))]); }
  }

  // ---- a stream on which reading lost bytes as lines makes no difference --------------------

  const NL := "\r\n"

  /** A header line cut in two, announcing as many bytes as itself, its newline and its first part have. */
  predicate SelfAnnouncing(a: seq<byte>, c: seq<byte>) {
    && a + c == AnnouncingLine(|Again(a, c)|) && |Again(a, c)| <= SOCKET_RECV_MAX
    && WellFormed(OtherLine([], a)) && WellFormed(OtherLine([], c))
  }

  function Again(a: seq<byte>, c: seq<byte>): seq<byte> {
    a + c + NL + a
  }

  /** The header line three times, and its first part as one more line. */
  function Thrice(a: seq<byte>, c: seq<byte>): seq<byte> {
    a + c + NL + Again(a, c) + c + NL + a + NL
  }

  lemma AgainWire(a: seq<byte>, c: seq<byte>, pad: seq<byte>)
    requires SelfAnnouncing(a, c)
    ensures FrameWire(pad, Again(a, c)) == pad + (a + c) + NL + Again(a, c)
  {
  }

  lemma ReadItem(w: seq<byte>, before: seq<byte>, x: Item, wire: seq<byte>, rest: seq<byte>)
    requires WellFormed(x) && wire == Wire(x) && w == before + wire + rest
    ensures Frames(w, |before|) == Payloads([x]) + Frames(w, |before + wire|)
  {
    FramesOfItem(before, x, rest);
  }

  lemma ReadFrame(w: seq<byte>, before: seq<byte>, pad: seq<byte>, data: Datagram, wire: seq<byte>, rest: seq<byte>)
    requires AllNewlines(pad) && |data| <= SOCKET_RECV_MAX
    requires wire == FrameWire(pad, data) && w == before + wire + rest
    ensures Frames(w, |before|) == [data] + Frames(w, |before + wire|)
  {
    ReadItem(w, before, Announced(pad, data), wire, rest);
  }

  lemma ReadLine(w: seq<byte>, before: seq<byte>, text: seq<byte>, wire: seq<byte>, rest: seq<byte>)
    requires WellFormed(OtherLine([], text)) && wire == text + NL && w == before + wire + rest
    ensures Frames(w, |before|) == Frames(w, |before + wire|)
  {
    assert [] + text == text;
    ReadItem(w, before, OtherLine([], text), wire, rest);
  }

  lemma ThriceParts(a: seq<byte>, c: seq<byte>, t: seq<byte>)
    ensures var x := a + c + NL + Again(a, c);
            && Thrice(a, c) == x + (c + NL) + (a + NL)
            && Thrice(a, c) + t == [] + x + ((c + NL) + (a + NL) + t)
            && Thrice(a, c) + t == x + (c + NL) + ((a + NL) + t)
            && Thrice(a, c) + t == (x + (c + NL)) + (a + NL) + t
  {
  }

  lemma TwoMoreLines(w: seq<byte>, x: seq<byte>, c: seq<byte>, a: seq<byte>, t: seq<byte>)
    requires WellFormed(OtherLine([], a)) && WellFormed(OtherLine([], c))
    requires w == x + (c + NL) + ((a + NL) + t) == (x + (c + NL)) + (a + NL) + t
    ensures Frames(w, |x|) == Frames(w, |x + (c + NL) + (a + NL)|)
  {
    ReadLine(w, x, c, c + NL, (a + NL) + t);
    ReadLine(w, x + (c + NL), a, a + NL, t);
  }

  /** The announced datagram, then two other lines. */
  lemma ReadAsAnnounced(a: seq<byte>, c: seq<byte>, t: seq<byte>)
    requires SelfAnnouncing(a, c)
    ensures Frames(Thrice(a, c) + t, 0) == [Again(a, c)] + Frames(Thrice(a, c) + t, |Thrice(a, c)|)
  {
    var w, x := Thrice(a, c) + t, a + c + NL + Again(a, c);
    assert FrameWire([], Again(a, c)) == x by {
      AgainWire(a, c, []);
      assert [] + (a + c) == a + c;
    }
    ThriceParts(a, c, t);
    ReadFrame(w, [], [], Again(a, c), x, (c + NL) + (a + NL) + t);
    assert [] + x == x;
    TwoMoreLines(w, x, c, a, t);
  }

  lemma ThriceIsTwo(a: seq<byte>, c: seq<byte>, t: seq<byte>)
    ensures var x := NL + (a + c) + NL + Again(a, c);
            && Thrice(a, c) == (a + c) + x + NL
            && Thrice(a, c) + t == (a + c) + x + (NL + t)
  {
    assert Again(a, c) + c + NL + a + NL == (a + c) + NL + Again(a, c) + NL;
  }

  /** From the end of the first line: the second one announces the same bytes. */
  lemma ReadFromFirstEnd(a: seq<byte>, c: seq<byte>, t: seq<byte>)
    requires SelfAnnouncing(a, c)
    ensures Frames(Thrice(a, c) + t, |a + c|) == [Again(a, c)] + Frames(Thrice(a, c) + t, |Thrice(a, c)|)
  {
    var before := a + c;
    AgainWire(a, c, NL);
    ThriceIsTwo(a, c, t);
    var w := Thrice(a, c) + t;
    var wire := NL + (a + c) + NL + Again(a, c);
    ReadFrame(w, before, NL, Again(a, c), wire, NL + t);
    var k := |before + wire|;
    assert (NL + t)[0] == '\r' && (NL + t)[1] == '\n';
    assert w[k] == '\r' && w[k + 1] == '\n';
    BolSkips(w, k, |Thrice(a, c)|);
    FramesFromSameLine(w, k, |Thrice(a, c)|);
  }

  lemma ThriceStart(a: seq<byte>, c: seq<byte>)
    ensures Thrice(a, c) == (a + c) + (NL + (Again(a, c) + c + NL + a + NL))
  {
  }

  lemma AnnouncedAtStart(s: seq<byte>, line: seq<byte>, more: seq<byte>, n: nat)
    requires s == line + (NL + more) && line == AnnouncingLine(n) && n < 10000
    ensures Announces(s, 0) && Confirmed(s, 0) == |line|
  {
    NoNewlineInAnnouncement(n);
    assert s == [] + [] + line + (NL + more);
    LineEnds([], [], line, NL + more);
    KindOfAnnouncement(n);
  }

  /**
   More bytes than the line must be left open: if the payload has been received too and looks
   like announcing lines itself, the code can end up where it would have been anyway.
   */
  lemma AlignmentCanReturn(a: seq<byte>, c: seq<byte>)
    requires SelfAnnouncing(a, c)
    ensures var s := Thrice(a, c);
            && Announces(s, 0)
            && forall t: seq<byte> :: Frames(s + t, 0) == Frames(s + t, Confirmed(s, 0))
  {
    var s := Thrice(a, c);
    ThriceStart(a, c);
    AnnouncedAtStart(s, a + c, Again(a, c) + c + NL + a + NL, |Again(a, c)|);
    forall t: seq<byte> ensures Frames(s + t, 0) == Frames(s + t, Confirmed(s, 0)) {
      ReadAsAnnounced(a, c, t);
      ReadFromFirstEnd(a, c, t);
    }
  }

  lemma NoHeader(line: seq<byte>)
    requires |line| < |HEADER| && line != [] && NoNewline(line)
    ensures WellFormed(OtherLine([], line))
  {
    StartsWithIsPrefix(line, HEADER);
  }

  lemma Decimal25()
    ensures Decimal(25) == "25"
  {
    assert Decimal(2) == "2";
    assert Decimal(25) == Decimal(2) + "5";
  }

  lemma Halves() returns (a: seq<byte>, c: seq<byte>)
    ensures a + c == "+QIURC: \"recv\",0,25" && |a| == 4 && |c| == 15
    ensures NoNewline(a) && NoNewline(c)
  {
    a, c := "+QIU", "RC: \"recv\",0,25";
  }

  lemma SelfAnnouncingFrom(a: seq<byte>, c: seq<byte>, n: nat)
    requires a + c == AnnouncingLine(n) && n == |a| + |c| + 2 + |a| <= SOCKET_RECV_MAX
    requires WellFormed(OtherLine([], a)) && WellFormed(OtherLine([], c))
    ensures SelfAnnouncing(a, c)
  {
    assert |Again(a, c)| == n;
  }

  /** There is such a line: it announces 25 bytes. */
  lemma SelfAnnouncingLine() returns (a: seq<byte>, c: seq<byte>)
    ensures SelfAnnouncing(a, c) && a + c == "+QIURC: \"recv\",0,25"
  {
    a, c := Halves();
    NoHeader(a);
    NoHeader(c);
    Decimal25();
    SelfAnnouncingFrom(a, c, 25);
  }
}
