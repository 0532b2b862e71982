/**
 The socket context (src/compat/net.c) over the modem driver. Interrupts may run during
 each call; the call acts as the function of module Socket applied at one moment within it.
 */
module NetDriver {
  import opened Bytes
  import opened Urc
  import opened Transmit
  import opened Dialogue
  import opened Socket
  import opened ModemDriver

  /** Only interrupts happened from a to b. */
  ghost predicate SysLater(a: Sys, b: Sys) {
    b == a.(link := b.link) && Later(a.link, b.link)
  }

  class Net {
    const modem: Modem
    var used: bool
    var state: SocketState
    var op: Op
    var step: int              // the union: either member is just its step

    ghost var member: Member   // which member was initialised last
    ghost var log: seq<Mark>

    ghost predicate Valid()
      reads this, modem, modem.rx, modem.rx.ring, modem.rx.ring.storage
      reads modem.tx, modem.tx.ring, modem.tx.ring.storage
      reads modem.store, modem.store.buf, modem.store.buf.storage, modem.store.lens
    {
      modem.Valid()
    }

    ghost function View(): Sys
      requires modem.rx.arrived <= |modem.rx.stream|
      reads this, modem, modem.rx, modem.tx, modem.tx.ring, modem.store
    {
      Sys(modem.View(), used, state, op, step, member, log)
    }

    /** The zero-initialised static context; the modem will send `stream`. */
    constructor (stream: seq<byte>)
      ensures Valid() && View() == START
    {
      modem := new Modem(stream);
      used, state, op, step := false, Closed, NoOp, 0;
      member, log := Unset, [];
    }

    method CreateCtx(inet6Only: bool) returns (code: Code)
      requires Valid()
      modifies this
      ensures Valid() && Returns(code, View()) == NetCreate(old(View()), inet6Only)
    {
      if used {
        return Failed;
      }
      if inet6Only {
        return NotSupported;
      }
      used, state, op := true, Closed, NoOp;
      return Done;
    }

    method ConnectCtx(host: seq<byte>, port: seq<byte>) returns (code: Code, ghost mid: Sys)
      requires Valid()
      modifies this, modem.rx, modem.rx.ring, modem.rx.ring.storage, modem.tx, modem.tx.ring, modem.tx.ring.storage
      ensures Valid() && SysLater(old(View()), mid) && mid.Ok()
      ensures var r := NetConnect(mid, host, port); code == r.code && SysLater(r.sys, View())
    {
      match op {
        case NoOp =>
          code, mid := StartConnect(host, port);
        case Connecting =>
          code, mid := ResumeConnect();
        case _ =>
          mid := View();
          LaterReflexive(mid.link);
          code := Failed;
      }
    }

    method StartConnect(host: seq<byte>, port: seq<byte>) returns (code: Code, ghost mid: Sys)
      requires Valid() && op == NoOp
      modifies this, modem.rx, modem.rx.ring, modem.rx.ring.storage, modem.tx, modem.tx.ring, modem.tx.ring.storage
      ensures Valid() && SysLater(old(View()), mid) && mid.Ok()
      ensures Returns(code, View()) == NetConnect(mid, host, port) && SysLater(View(), View())
    {
      ghost var link;
      var res;
      res, link := modem.SocketOpenInit(host, port);
      mid := old(View()).(link := link);
      log := log + [OpenFlush(|link.received|)];
      code := Failed;
      if res == 0 {
        op, step, member := Connecting, 0, OpenMember;
        code := InProgress;
      }
      LaterReflexive(View().link);
    }

    method ResumeConnect() returns (code: Code, ghost mid: Sys)
      requires Valid() && op == Connecting
      modifies this, modem.rx, modem.rx.ring, modem.rx.ring.storage
      ensures Valid() && SysLater(old(View()), mid) && mid.Ok()
      ensures var r := AfterOpen(mid, OpenContinue(mid.link, mid.step)); code == r.code && SysLater(r.sys, View())
    {
      ghost var link;
      var res;
      res, step, link := modem.SocketOpenContinue(step);
      mid := old(View()).(link := link);
      code := EndConnect(res, mid, OpenContinue(link, old(step)));
    }

    /** The end of a connect poll: `reply` is what the dialogue answered, from the state `mid`. */
    method EndConnect(res: int, ghost mid: Sys, ghost reply: StepReply) returns (code: Code)
      requires Valid() && reply.code == res && reply.step == step && Later(reply.link, modem.View())
      requires View() == mid.(link := modem.View(), step := step)
      modifies this
      ensures Valid() && modem.View() == old(modem.View())
      ensures code == AfterOpen(mid, reply).code && SysLater(AfterOpen(mid, reply).sys, View())
    {
      code := InProgress;
      if res <= 0 {
        op := NoOp;
        code := Failed;
        if res == 0 {
          state := Connected;
          log := log + [ConnectDone(modem.rx.taken)];
          code := Done;
        }
      }
    }

    method SendCtx(buf: seq<byte>) returns (code: Code, sent: Option<nat>, ghost mid: Sys)
      requires Valid()
      modifies this, modem.rx, modem.rx.ring, modem.rx.ring.storage, modem.tx, modem.tx.ring, modem.tx.ring.storage
      modifies modem.store, modem.store.buf, modem.store.buf.storage, modem.store.lens
      ensures Valid() && SysLater(old(View()), mid) && mid.Ok()
      ensures var r := NetSend(mid, buf); code == r.code && sent == r.sent && SysLater(r.sys, View())
    {
      mid := View();
      LaterReflexive(mid.link);
      sent := None;
      if state != Connected {
        return Failed, None, mid;
      }
      if |buf| > SOCKET_SEND_MAX {
        return MsgSize, None, mid;
      }
      ghost var link;
      var res;
      match op {
        case NoOp =>
          code, mid := StartSend(buf);
        case Sending =>
          res, step, link := modem.SocketSendContinue(step, buf);
          mid := mid.(link := link);
          code, sent := EndSend(res, |buf|, mid, SendContinue(link, old(step), buf));
          return code, sent, mid;
        case _ =>
          return Failed, None, mid;
      }
    }

    method StartSend(buf: seq<byte>) returns (code: Code, ghost mid: Sys)
      requires Valid() && state == Connected && op == NoOp && |buf| <= SOCKET_SEND_MAX
      modifies this, modem.tx, modem.tx.ring, modem.tx.ring.storage
      ensures Valid() && SysLater(old(View()), mid) && mid.Ok()
      ensures Returns(code, View()) == NetSend(mid, buf) && SysLater(View(), View())
    {
      ghost var link;
      var res;
      res, link := modem.SocketSendInit(|buf|);
      mid := old(View()).(link := link);
      code := Failed;
      if res == 0 {
        op, step, member := Sending, 0, SendMember;
        code := InProgress;
      }
      LaterReflexive(View().link);
    }

    /** The end of a send poll, likewise. */
    method EndSend(res: int, len: nat, ghost mid: Sys, ghost reply: StepReply) returns (code: Code, sent: Option<nat>)
      requires Valid() && reply.code == res && reply.step == step && Later(reply.link, modem.View())
      requires View() == mid.(link := modem.View(), step := step)
      modifies this
      ensures Valid() && modem.View() == old(modem.View())
      ensures var r := AfterSend(mid, reply, len); code == r.code && sent == r.sent && SysLater(r.sys, View())
    {
      if res > 0 {
        return InProgress, None;
      }
      op := NoOp;
      if res < 0 {
        return Failed, None;
      }
      return Done, Some(len);
    }

    method RecvCtx(size: nat) returns (code: Code, data: Option<Datagram>, ghost mid: Sys)
      requires Valid()
      modifies this, modem.rx, modem.rx.ring, modem.rx.ring.storage
      modifies modem.store, modem.store.buf, modem.store.buf.storage, modem.store.lens
      ensures Valid() && SysLater(old(View()), mid) && mid.Ok()
      ensures var r := NetRecv(mid, size); code == r.code && data == r.data && SysLater(r.sys, View())
    {
      mid := View();
      LaterReflexive(mid.link);
      if state != Connected && state != ShutDown {
        return Failed, None, mid;
      }
      if op != NoOp {
        return Again, None, mid;
      }
      ghost var link;
      var res;
      res, data, link := modem.SocketRecv(size);
      mid := mid.(link := link);
      if res > 0 {
        return Again, None, mid;
      }
      if res < 0 {
        return Failed, None, mid;
      }
      if |data.value| == size {
        return MsgSize, data, mid;
      }
      return Done, data, mid;
    }

    method ShutdownCtx() returns (code: Code, ghost mid: Sys)
      requires Valid()
      modifies this, modem.rx, modem.rx.ring, modem.rx.ring.storage, modem.tx, modem.tx.ring, modem.tx.ring.storage
      ensures Valid() && SysLater(old(View()), mid) && mid.Ok()
      ensures var r := NetShutdown(mid); code == r.code && SysLater(r.sys, View())
    {
      if op == ShuttingDown {
        code, mid := ResumeShutdown();
      } else {
        code, mid := StartShutdown();
      }
    }

    method ResumeShutdown() returns (code: Code, ghost mid: Sys)
      requires Valid() && op == ShuttingDown
      modifies this, modem.rx, modem.rx.ring, modem.rx.ring.storage
      ensures Valid() && SysLater(old(View()), mid) && mid.Ok()
      ensures var r := NetShutdown(mid); code == r.code && SysLater(r.sys, View())
    {
      ghost var link;
      var res;
      res, link := modem.SocketCloseContinue();
      mid := old(View()).(link := link);
      if res > 0 {
        return InProgress, mid;
      }
      state, op := ShutDown, NoOp;
      log := log + [ShutdownDone];
      return if res < 0 then Failed else Done, mid;
    }

    method StartShutdown() returns (code: Code, ghost mid: Sys)
      requires Valid() && op != ShuttingDown
      modifies this, modem.rx, modem.rx.ring, modem.rx.ring.storage, modem.tx, modem.tx.ring, modem.tx.ring.storage
      ensures Valid() && SysLater(old(View()), mid) && mid.Ok()
      ensures var r := NetShutdown(mid); code == r.code && SysLater(r.sys, View())
    {
      ghost var link;
      var res;
      res, link := modem.SocketCloseInit();
      mid := old(View()).(link := link);
      LaterReflexive(View().link);
      if res != 0 {
        return Failed, mid;
      }
      op := ShuttingDown;
      return InProgress, mid;
    }

    method CloseCtx() returns (code: Code, ghost mid: Sys)
      requires Valid()
      modifies this, modem.rx, modem.rx.ring, modem.rx.ring.storage, modem.tx, modem.tx.ring, modem.tx.ring.storage
      ensures Valid() && SysLater(old(View()), mid) && mid.Ok()
      ensures var r := NetClose(mid); code == r.code && SysLater(r.sys, View())
    {
      mid := View();
      LaterReflexive(mid.link);
      if state == Closed {
        return Done, mid;
      }
      if state == ShutDown {
        state := Closed;
        return Done, mid;
      }
      code, mid := ShutdownCtx();
    }

    method CleanupCtx() returns (code: Code, ghost mid: Sys)
      requires Valid()
      modifies this, modem.rx, modem.rx.ring, modem.rx.ring.storage, modem.tx, modem.tx.ring, modem.tx.ring.storage
      ensures Valid() && SysLater(old(View()), mid) && mid.Ok()
      ensures var r := NetCleanup(mid); code == r.code && SysLater(r.sys, View())
    {
      mid := View();
      LaterReflexive(mid.link);
      code := Done;
      if state != Closed {
        code, mid := CloseCtx();
        if code == InProgress {
          return;
        }
      }
      used := false;
    }
  }
}
