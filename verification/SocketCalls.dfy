/** The calls of the driver are runs of the machine: what holds of all runs holds of the driver. */
module SocketCalls {
  import opened Bytes
  import opened Transmit
  import opened Dialogue
  import opened Socket
  import opened NetDriver

  ghost predicate AllInterrupts(es: seq<Event>) {
    forall i | 0 <= i < |es| :: IsInterrupt(es[i])
  }

  function Arrivals(bs: seq<byte>): (es: seq<Event>)
    ensures |es| == |bs|
  {
    seq(|bs|, i requires 0 <= i < |bs| => RxByte(bs[i]))
  }

  lemma {:induction false} ArrivalsRun(s: Sys, bs: seq<byte>)
    requires s.Ok()
    ensures Feasible(s, Arrivals(bs))
    ensures Run(s, Arrivals(bs)) == s.(link := s.link.(received := s.link.received + bs))
    decreases |bs|
  {
    if bs == [] {
      assert s.link.received + [] == s.link.received;
    } else {
      var s' := Step(s, RxByte(bs[0])).sys;
      ArrivalsRun(s', bs[1..]);
      assert Arrivals(bs)[1..] == Arrivals(bs[1..]);
      assert s.link.received + [bs[0]] + bs[1..] == s.link.received + bs;
    }
  }

  lemma {:induction false} CompletionsRun(s: Sys, n: nat) returns (es: seq<Event>)
    requires s.Ok()
    ensures AllInterrupts(es) && Feasible(s, es)
    ensures Run(s, es) == s.(link := s.link.(tx := Completions(s.link.tx, n)))
    decreases n
  {
    es := [];
    if n == 0 || !s.link.tx.ongoing {
    } else {
      var rest := CompletionsRun(Step(s, TxDone).sys, n - 1);
      es := [TxDone] + rest;
      assert es[1..] == rest;
    }
  }

  /** When only interrupts happened, a run of interrupts leads from one state to the other. */
  lemma LaterIsRun(a: Sys, b: Sys) returns (es: seq<Event>)
    requires SysLater(a, b) && a.Ok()
    ensures AllInterrupts(es) && Feasible(a, es) && Run(a, es) == b
  {
    var bs := b.link.received[|a.link.received|..];
    assert a.link.received + bs == b.link.received;
    var n: nat :| b.link.tx == Completions(a.link.tx, n);
    ArrivalsRun(a, bs);
    var s := Run(a, Arrivals(bs));
    var fs := CompletionsRun(s, n);
    RunConcat(a, Arrivals(bs), fs);
    es := Arrivals(bs) + fs;
  }

  /**
   Every call of the driver, interrupted anywhere, is a run of the machine: interrupts, the
   call as one step, interrupts. The driver's contracts supply the state `mid`.
   */
  lemma CallIsRun(a: Sys, mid: Sys, e: Event, b: Sys)
    requires a.Ok() && SysLater(a, mid) && Enabled(mid, e) && SysLater(Step(mid, e).sys, b)
    ensures exists es, fs :: AllInterrupts(es) && AllInterrupts(fs)
              && Feasible(a, es + ([e] + fs)) && Run(a, es + ([e] + fs)) == b
  {
    StepKeepsOk(mid, e);
    var es := LaterIsRun(a, mid);
    var fs := LaterIsRun(Step(mid, e).sys, b);
    assert ([e] + fs)[1..] == fs;
    RunConcat(a, es, [e] + fs);
  }
}
