/**
 Lines of the received stream. A line is a maximal non-empty run without CR or LF
 that a newline byte terminates (modem_rx_pop_newlines, modem_rx_seek_line_length).
 */
module Lines {
  import opened Bytes

  predicate Blank(s: seq<byte>, i: nat, j: nat)
    requires j <= |s|
  {
    forall k | i <= k < j :: IsNewline(s[k])
  }

  lemma BlankStable(s: seq<byte>, t: seq<byte>, i: nat, j: nat)
    requires j <= |s|
    ensures Blank(s + t, i, j) <==> Blank(s, i, j)
  {
    assert forall k | i <= k < j :: (s + t)[k] == s[k];
    if Blank(s + t, i, j) {
      forall k | i <= k < j ensures IsNewline(s[k]) {
        assert IsNewline((s + t)[k]);
      }
    }
  }

  predicate Plain(s: seq<byte>, i: nat, j: nat)
    requires j <= |s|
  {
    forall k | i <= k < j :: !IsNewline(s[k])
  }

  /** First position at or after i that holds no newline byte. */
  function Bol(s: seq<byte>, i: nat): (b: nat)
    requires i <= |s|
    ensures i <= b <= |s|
    decreases |s| - i
  {
    if i < |s| && IsNewline(s[i]) then Bol(s, i + 1) else i
  }

  /** First position at or after i that holds a newline byte. */
  function Eol(s: seq<byte>, i: nat): (e: nat)
    requires i <= |s|
    ensures i <= e <= |s|
    decreases |s| - i
  {
    if i < |s| && !IsNewline(s[i]) then Eol(s, i + 1) else i
  }

  lemma {:induction false} BolSpec(s: seq<byte>, i: nat)
    requires i <= |s|
    ensures var b := Bol(s, i); Blank(s, i, b) && (b < |s| ==> !IsNewline(s[b]))
    decreases |s| - i
  {
    if i == |s| || !IsNewline(s[i]) {
    } else {
      BolSpec(s, i + 1);
    }
  }

  lemma {:induction false} EolSpec(s: seq<byte>, i: nat)
    requires i <= |s|
    ensures var e := Eol(s, i); Plain(s, i, e) && (e < |s| ==> IsNewline(s[e]))
    decreases |s| - i
  {
    if i == |s| || IsNewline(s[i]) {
    } else {
      EolSpec(s, i + 1);
    }
  }

  lemma BolIs(s: seq<byte>, i: nat, b: nat)
    requires i <= b <= |s| && Blank(s, i, b)
    requires b < |s| ==> !IsNewline(s[b])
    ensures Bol(s, i) == b
  {
    BolSpec(s, i);
  }

  lemma EolIs(s: seq<byte>, i: nat, e: nat)
    requires i <= e <= |s| && Plain(s, i, e)
    requires e < |s| ==> IsNewline(s[e])
    ensures Eol(s, i) == e
  {
    EolSpec(s, i);
  }

  /** What has been found is not changed by bytes that arrive later. */
  lemma EndsAreStable(s: seq<byte>, t: seq<byte>, i: nat)
    requires i <= |s|
    ensures Bol(s, i) < |s| ==> Bol(s + t, i) == Bol(s, i)
    ensures Eol(s, i) < |s| ==> Eol(s + t, i) == Eol(s, i)
  {
    BolSpec(s, i);
    EolSpec(s, i);
    if Bol(s, i) < |s| { BolIs(s + t, i, Bol(s, i)); }
    if Eol(s, i) < |s| { EolIs(s + t, i, Eol(s, i)); }
  }

  lemma BolSkips(s: seq<byte>, i: nat, k: nat)
    requires i <= k <= |s| && Blank(s, i, k)
    ensures Bol(s, k) == Bol(s, i) && k <= Bol(s, i)
  {
    BolSpec(s, k);
    BolIs(s, i, Bol(s, k));
  }

  // ---- the next line -----------------------------------------------------------

  /** A complete line stands next. */
  predicate LineWaits(s: seq<byte>, i: nat)
    requires i <= |s|
  {
    Eol(s, Bol(s, i)) < |s|
  }

  /** A complete line stands next, and it is this one. */
  predicate LineIs(s: seq<byte>, i: nat, text: seq<byte>)
    requires i <= |s|
  {
    LineWaits(s, i) && s[Bol(s, i)..Eol(s, Bol(s, i))] == text
  }

  /** What is left when the next line has been taken, or the newlines before it if there is none yet. */
  function AfterLine(s: seq<byte>, i: nat): (j: nat)
    requires i <= |s|
    ensures i <= j <= |s|
  {
    if LineWaits(s, i) then Eol(s, Bol(s, i)) else Bol(s, i)
  }

  /** In terms of the bytes: newlines, then the text without any, then a newline. */
  lemma LineIsExact(s: seq<byte>, i: nat, text: seq<byte>)
    requires i <= |s|
    ensures LineIs(s, i, text) <==>
            exists b | i <= b < b + |text| < |s| ::
              Blank(s, i, b) && s[b..b + |text|] == text && NoNewline(text) && IsNewline(s[b + |text|])
  {
    var b, e := Bol(s, i), Eol(s, Bol(s, i));
    BolSpec(s, i);
    EolSpec(s, b);
    if LineIs(s, i, text) {
      assert forall k | 0 <= k < |text| :: text[k] == s[b + k];
    }
    forall b' | i <= b' < b' + |text| < |s| && Blank(s, i, b') && s[b'..b' + |text|] == text && NoNewline(text)
      && IsNewline(s[b' + |text|])
      ensures LineIs(s, i, text)
    {
      assert forall k | b' <= k < b' + |text| :: s[k] == text[k - b'];
      BolIs(s, i, b');
      EolIs(s, b', b' + |text|);
    }
  }

  // ---- the tokenizer as a whole ----------------------------------------------

  datatype Span = Span(begin: nat, end: nat)

  /** The lines found by scanning and advancing again and again from position i. */
  function Spans(s: seq<byte>, i: nat): (r: seq<Span>)
    requires i <= |s|
    decreases |s| - i
  {
    var b := Bol(s, i);
    var e := Eol(s, b);
    if e == |s| then [] else [Span(b, e)] + Spans(s, e)
  }

  /** The reference: a maximal non-empty run without CR or LF, with its terminator. */
  predicate IsLine(s: seq<byte>, r: Span) {
    && r.begin < r.end < |s|
    && (forall k | r.begin <= k < r.end :: s[k] != '\r' && s[k] != '\n')
    && (s[r.end] == '\r' || s[r.end] == '\n')
    && (r.begin == 0 || s[r.begin - 1] == '\r' || s[r.begin - 1] == '\n')
  }

  /** Position i does not lie inside a line. */
  predicate Between(s: seq<byte>, i: nat) {
    i == 0 || i >= |s| || IsNewline(s[i - 1]) || IsNewline(s[i])
  }

  lemma {:induction false} SpansAreLines(s: seq<byte>, i: nat, k: nat)
    requires i <= |s| && Between(s, i) && k < |Spans(s, i)|
    ensures IsLine(s, Spans(s, i)[k]) && i <= Spans(s, i)[k].begin
    ensures k + 1 < |Spans(s, i)| ==> Spans(s, i)[k].end < Spans(s, i)[k + 1].begin
    decreases |s| - i
  {
    var b := Bol(s, i);
    var e := Eol(s, b);
    BolSpec(s, i);
    EolSpec(s, b);
    if k == 0 {
      if |Spans(s, i)| > 1 {
        SpansAreLines(s, e, 0);
        assert Spans(s, i)[1] == Spans(s, e)[0];
      }
    } else {
      SpansAreLines(s, e, k - 1);
    }
  }

  lemma {:induction false} LinesAreSpans(s: seq<byte>, i: nat, r: Span)
    requires i <= r.begin && IsLine(s, r)
    ensures r in Spans(s, i)
    decreases |s| - i
  {
    var b := Bol(s, i);
    var e := Eol(s, b);
    BolSpec(s, i);
    EolSpec(s, b);
    assert !IsNewline(s[r.begin]);
    assert b <= r.begin;
    if e > r.begin {
      EolIs(s, b, r.end);
    } else {
      LinesAreSpans(s, e, r);
    }
  }

  /** The tokenizer yields exactly the lines of the stream, in order. */
  lemma TokenizerExact(s: seq<byte>)
    ensures forall r :: r in Spans(s, 0) <==> IsLine(s, r)
    ensures forall k | 0 <= k < |Spans(s, 0)| - 1 :: Spans(s, 0)[k].end < Spans(s, 0)[k + 1].begin
  {
    forall r ensures r in Spans(s, 0) <==> IsLine(s, r) {
      if IsLine(s, r) {
        LinesAreSpans(s, 0, r);
      } else if r in Spans(s, 0) {
        var k :| 0 <= k < |Spans(s, 0)| && Spans(s, 0)[k] == r;
        SpansAreLines(s, 0, k);
      }
    }
    forall k | 0 <= k < |Spans(s, 0)| - 1
      ensures Spans(s, 0)[k].end < Spans(s, 0)[k + 1].begin
    {
      SpansAreLines(s, 0, k);
    }
  }

  /** Lines are never revised: those of a prefix are the first lines of the whole stream. */
  lemma {:induction false} SpansStable(s: seq<byte>, t: seq<byte>, i: nat)
    requires i <= |s|
    ensures Spans(s, i) <= Spans(s + t, i)
    decreases |s| - i
  {
    var b := Bol(s, i);
    var e := Eol(s, b);
    if e == |s| {
    } else {
      EndsAreStable(s, t, i);
      EndsAreStable(s, t, b);
      SpansStable(s, t, e);
    }
  }

  // ---- a scan in progress ------------------------------------------------------

  /** `done` are the first lines from f on, and the scan stands at i, after them. */
  ghost predicate Scanned(s: seq<byte>, f: nat, i: nat, done: seq<Span>)
    requires f <= i <= |s|
    decreases |done|
  {
    if done == [] then
      Blank(s, f, i)
    else
      var r := done[0];
      && f <= r.begin < r.end <= i && r.end < |s|
      && Blank(s, f, r.begin) && Plain(s, r.begin, r.end) && IsNewline(s[r.end])
      && Scanned(s, r.end, i, done[1..])
  }

  /** However many bytes follow, the lines scanned so far stay the first lines of the stream. */
  lemma {:induction false} ScannedLines(s: seq<byte>, t: seq<byte>, f: nat, i: nat, done: seq<Span>)
    requires f <= i <= |s| && Scanned(s, f, i, done)
    ensures Scanned(s + t, f, i, done)
    ensures Spans(s + t, f) == done + Spans(s + t, i)
    decreases |done|
  {
    if done == [] {
      assert Blank(s + t, f, i);
      BolSkips(s + t, f, i);
    } else {
      var r := done[0];
      BolIs(s + t, f, r.begin);
      EolIs(s + t, r.begin, r.end);
      ScannedLines(s, t, r.end, i, done[1..]);
    }
  }

  lemma {:induction false} ScannedSnoc(s: seq<byte>, f: nat, i: nat, done: seq<Span>, r: Span)
    requires f <= i <= r.begin < r.end < |s| && Scanned(s, f, i, done)
    requires Blank(s, i, r.begin) && Plain(s, r.begin, r.end) && IsNewline(s[r.end])
    ensures Scanned(s, f, r.end, done + [r])
    decreases |done|
  {
    if done == [] {
      assert (done + [r])[1..] == [];
    } else {
      ScannedSnoc(s, done[0].end, i, done[1..], r);
      assert (done + [r])[1..] == done[1..] + [r];
    }
  }

  lemma {:induction false} ScannedPad(s: seq<byte>, f: nat, i: nat, j: nat, done: seq<Span>)
    requires f <= i <= j <= |s| && Scanned(s, f, i, done) && Blank(s, i, j)
    ensures Scanned(s, f, j, done)
    decreases |done|
  {
    if done == [] {
    } else {
      ScannedPad(s, done[0].end, i, j, done[1..]);
    }
  }
}
