/**
 The SDIO host interface of drivers/hal_sdio.c: four states, five events, one packet at a time in
 each direction, and one pending indication to the host.
 */
module Sdio {
  import opened Words

  datatype State = Idle | Tx | Rx | Info

  /** A packet and the `len` of its host-interface header. */
  datatype Packet = Packet(id: nat, len: nat)

  /**
   What the host and the firmware do. `arg` is the SDIO command argument; `sync` tells the two INFO
   addresses apart; `rxLen` is the header length found in a received packet when its transfer completes.
   */
  datatype Event =
    | TxStart(arg: nat)
    | RxStart(arg: nat, rxId: nat)
    | InfoStart(sync: bool)
    | Complete(rxLen: nat)
    | TxRequest

  /** An indication raised to the host (`SDIO_FUN1_IND`), or the completion that withdraws it. */
  datatype Signal = Raised(length: nat) | Cleared

  const MSG_LEN: nat := 1

  /** `requested_length`: in block mode the count of 512-byte blocks, else a count of bytes in which zero means 512. */
  function RequestedLength(arg: nat): (len: nat)
    ensures arg / 0x800_0000 % 2 == 1 ==> len % 512 == 0 && len / 512 == arg % 512
    ensures arg / 0x800_0000 % 2 == 0 ==> 1 <= len <= 512 && len % 512 == arg % 512
  {
    if arg / 0x800_0000 % 2 == 1 then 512 * (arg % 0x200)
    else if arg % 0x200 == 0 then 512
    else arg % 0x200
  }

  lemma SmallRequest(arg: nat)
    ensures RequestedLength(arg) <= 512 * 511 && U32(RequestedLength(arg)) == RequestedLength(arg)
  {
  }

  // ---------------------------------------------------------------------------------------------
  // Indications
  // ---------------------------------------------------------------------------------------------

  ghost predicate Pending(log: seq<Signal>) {
    log != [] && log[|log| - 1].Raised?
  }

  /** No indication is raised while another is pending. */
  ghost predicate Orderly(log: seq<Signal>) {
    log == [] || (Orderly(log[..|log| - 1]) && (log[|log| - 1].Raised? ==> !Pending(log[..|log| - 1])))
  }

  /** So between two indications there is a completion that withdrew the first. */
  lemma {:induction false} ClearedBetween(log: seq<Signal>, i: nat, j: nat)
    requires Orderly(log) && i < j < |log| && log[i].Raised? && log[j].Raised?
    ensures exists k :: i < k < j && log[k].Cleared?
  {
    var init := log[..|log| - 1];
    if j < |log| - 1 {
      ClearedBetween(init, i, j);
      var k :| i < k < j && init[k].Cleared?;
      assert log[k].Cleared?;
    } else {
      assert init[|init| - 1].Cleared?;
      assert log[j - 1].Cleared?;
    }
  }

  /** What is raised on the way to the idle state: nothing while an indication is pending or a length announced. */
  function IdleSignal(indicated: bool, announced: nat, toHost: seq<Packet>, needInfo: bool): seq<Signal> {
    if announced != 0 || indicated then []
    else if toHost != [] then [Raised(toHost[0].len + 8)]
    else if needInfo then [Raised(MSG_LEN)]
    else []
  }

  /** A log that goes on to the idle state with a packet waiting ends in an indication, unless a length is announced. */
  lemma IdleIsTold(before: seq<Signal>, withdraw: bool, announced: nat, toHost: seq<Packet>, needInfo: bool)
    requires toHost != [] && announced == 0
    ensures var log := before + if withdraw then [Cleared] else [];
      Pending(log + IdleSignal(Pending(log), announced, toHost, needInfo))
  {
  }

  // ---------------------------------------------------------------------------------------------
  // Bytes requested, as a function of the events
  // ---------------------------------------------------------------------------------------------

  /** An event and the state in which it arrived. */
  datatype Seen = Seen(ev: Event, state: State)

  /** The bytes requested so far of each packet: a start in the idle state begins a new one, a start in `own` adds to the last. */
  function Asked(asks: seq<nat>, arg: nat, at: State, own: State): seq<nat> {
    if at == Idle then asks + [RequestedLength(arg)]
    else if at == own && asks != [] then asks[..|asks| - 1] + [asks[|asks| - 1] + RequestedLength(arg)]
    else asks
  }

  function TxAsks(history: seq<Seen>): seq<nat> {
    if history == [] then []
    else
      var asks, last := TxAsks(history[..|history| - 1]), history[|history| - 1];
      if last.ev.TxStart? then Asked(asks, last.ev.arg, last.state, Tx) else asks
  }

  function RxAsks(history: seq<Seen>): seq<nat> {
    if history == [] then []
    else
      var asks, last := RxAsks(history[..|history| - 1]), history[|history| - 1];
      if last.ev.RxStart? then Asked(asks, last.ev.arg, last.state, Rx) else asks
  }

  /** The packets that are done had their bytes requested exactly, modulo 2^32; one more is under way if `busy`. */
  ghost predicate Exactly(done: seq<Packet>, asks: seq<nat>, busy: bool, asked: nat) {
    |asks| == |done| + (if busy then 1 else 0)
    && (forall i :: 0 <= i < |done| ==> done[i].len + 8 == U32(asks[i]))
    && (busy ==> asks[|done|] == asked)
  }

  /** What an event does to one direction: `start` asks for bytes, `match` completes packet `p`. */
  lemma ExactlyStep(asks: seq<nat>, done: seq<Packet>, st: State, own: State, asked: nat,
                    start: bool, arg: nat, matched: bool, p: Packet, st': State, done': seq<Packet>, asked': nat)
    requires own != Idle && Exactly(done, asks, st == own, asked)
    requires matched ==> st == own && !start && p.len + 8 == U32(asked)
    requires (st' == own) == ((st == own && !matched) || (start && st == Idle))
    requires done' == if matched then done + [p] else done
    requires asked' == AskedAfter(asked, start, arg, st, own, matched)
    ensures Exactly(done', if start then Asked(asks, arg, st, own) else asks, st' == own, asked')
  {
    hide U32, RequestedLength;
  }

  /** The bytes requested of the packet under way. */
  function AskedAfter(asked: nat, start: bool, arg: nat, st: State, own: State, matched: bool): nat {
    if start && st == Idle then RequestedLength(arg)
    else if start && st == own then asked + RequestedLength(arg)
    else if matched then 0
    else asked
  }

  lemma AsksMore(history: seq<Seen>, s: Seen)
    ensures TxAsks(history + [s]) == if s.ev.TxStart? then Asked(TxAsks(history), s.ev.arg, s.state, Tx) else TxAsks(history)
    ensures RxAsks(history + [s]) == if s.ev.RxStart? then Asked(RxAsks(history), s.ev.arg, s.state, Rx) else RxAsks(history)
  {
    assert (history + [s])[..|history|] == history;
  }

  // ---------------------------------------------------------------------------------------------
  // The driver
  // ---------------------------------------------------------------------------------------------

  class Driver {
    var state: State
    var needInfo: bool
    var request: bool
    /** `is_set_func1_ind` */
    var indicated: bool
    var restartRx: bool
    var restartTx: bool
    var infoSync: bool
    var txBytes: nat
    var rxBytes: nat
    /** `continue_transfer` */
    var announced: nat
    var toHost: seq<Packet>
    var hwTx: seq<Packet>
    var hwRx: seq<nat>
    /** Packets given back after transmission, and packets handed to the firmware. */
    var discarded: seq<Packet>
    var received: seq<Packet>
    ghost var log: seq<Signal>
    /** Bytes that the host has requested of the packet in `hwTx`, and of the one in `hwRx`. */
    ghost var txAsked: nat
    ghost var rxAsked: nat
    /** All packets that the firmware has queued for the host. */
    ghost var queued: seq<Packet>
    /** All packets whose reception has been started. */
    ghost var started: seq<nat>
    /** The events so far. */
    ghost var history: seq<Seen>
    /** A packet has been queued since the last event. */
    ghost var unrequested: bool

    /** What holds in every run, whatever the host does. */
    ghost predicate Signalled()
      reads `log, `indicated
    {
      Orderly(log) && (indicated <==> Pending(log))
    }

    /** What holds when the host starts no INFO transfer in the middle of a packet. */
    ghost predicate InStep()
      reads `state, `restartTx, `restartRx, `hwTx, `hwRx, `txBytes, `rxBytes, `txAsked, `rxAsked
    {
      |hwTx| == (if state == Tx then 1 else 0)
      && |hwRx| == (if state == Rx then 1 else 0)
      && (restartTx ==> state == Tx) && (restartRx ==> state == Rx)
      && (state == Tx ==> txBytes == U32(txAsked)) && (state == Rx ==> rxBytes == U32(rxAsked))
    }

    /** Every packet queued is, in order, discarded, in hardware or still waiting; and so for reception. */
    ghost predicate Conserved()
      reads `queued, `discarded, `hwTx, `toHost, `started, `received, `hwRx
    {
      queued == discarded + hwTx + toHost && started == Ids(received) + hwRx
    }

    /** Every packet discarded or handed over had its bytes requested exactly. */
    ghost predicate Exact()
      reads `state, `history, `discarded, `received, `txAsked, `rxAsked
    {
      Exactly(discarded, TxAsks(history), state == Tx, txAsked) && Exactly(received, RxAsks(history), state == Rx, rxAsked)
    }

    /** A length announced to the host in the header of one packet is that of the packet it will get next. */
    ghost predicate Promised()
      reads `announced, `toHost
    {
      announced != 0 ==> toHost != [] && announced == U16(toHost[0].len + 8)
    }

    /** In the idle state a waiting packet has been made known to the host, once the firmware has asked for that. */
    ghost predicate Told()
      reads `state, `toHost, `indicated, `announced, `unrequested
    {
      state == Idle && toHost != [] && !unrequested ==> indicated || announced != 0
    }

    /** `sdio_start` */
    constructor ()
      ensures Signalled() && InStep() && Conserved() && Promised() && Exact() && Told() && state == Idle
      ensures history == [] && queued == [] && discarded == [] && log == [] && toHost == [] && txBytes == rxBytes == announced == 0
      ensures !needInfo && !request && !indicated && !infoSync && !unrequested
    {
      state := Idle;
      needInfo, request, indicated, restartRx, restartTx, infoSync := false, false, false, false, false, false;
      txBytes, rxBytes, announced := 0, 0, 0;
      toHost, hwTx, hwRx, discarded, received := [], [], [], [], [];
      log, txAsked, rxAsked, queued, started, history, unrequested := [], 0, 0, [], [], [], false;
    }

    /** The firmware queues a packet (`to_host_que` is shared with the host-interface layer). */
    method Queue(p: Packet)
      modifies `toHost, `queued, `unrequested
      ensures toHost == old(toHost) + [p] && queued == old(queued) + [p] && unrequested
      ensures old(Conserved()) ==> Conserved()
      ensures old(Promised()) ==> Promised()
    {
      toHost := toHost + [p];
      queued := queued + [p];
      unrequested := true;
    }

    /** `SDIO_FUN1_IND` */
    method Raise(length: nat)
      requires Signalled() && !indicated
      modifies `indicated, `log
      ensures Signalled() && indicated && log == old(log) + [Raised(length)]
    {
      indicated := true;
      log := log + [Raised(length)];
      assert log[..|log| - 1] == old(log);
    }

    /** `is_set_func1_ind = false` on a completion */
    method Withdraw()
      requires Signalled()
      modifies `indicated, `log
      ensures Signalled() && !indicated && log == old(log) + [Cleared]
    {
      indicated := false;
      log := log + [Cleared];
      assert log[..|log| - 1] == old(log);
    }

    /** `transit` to the idle state: raises an indication if something waits and none is pending. */
    method ToIdle()
      requires Signalled()
      modifies `state, `request, `needInfo, `indicated, `log
      ensures Signalled() && state == Idle
      ensures log == old(log) + IdleSignal(old(indicated), announced, toHost, old(needInfo))
      ensures needInfo == (old(needInfo) && !(!old(indicated) && announced == 0 && toHost == []))
      ensures request == (old(request) && !(!old(indicated) && announced == 0 && toHost != []))
    {
      assert log + [] == log;
      if announced != 0 {
      } else if |toHost| > 0 && !indicated {
        request := false;
        Raise(toHost[0].len + 8);
      } else if needInfo && !indicated {
        needInfo := false;
        Raise(MSG_LEN);
      }
      state := Idle;
    }

    /** `send_to_host` and the transition to the TX state. */
    method SendToHost(arg: nat)
      requires !restartTx ==> toHost != []
      modifies `state, `txBytes, `txAsked, `toHost, `hwTx, `announced
      ensures state == Tx
      ensures restartTx ==>
        txBytes == U32(old(txBytes) + RequestedLength(arg)) && txAsked == old(txAsked) + RequestedLength(arg)
        && toHost == old(toHost) && hwTx == old(hwTx) && announced == old(announced)
      ensures !restartTx ==>
        txBytes == txAsked == RequestedLength(arg) && toHost == old(toHost)[1..] && hwTx == old(hwTx) + [old(toHost)[0]]
        && announced == if toHost == [] then 0 else U16(toHost[0].len + 8)
    {
      var len := RequestedLength(arg);
      if !restartTx {
        txBytes := len;
        txAsked := len;
        hwTx := hwTx + [toHost[0]];
        toHost := toHost[1..];
        announced := if |toHost| > 0 then U16(toHost[0].len + 8) else 0;
      } else {
        txBytes := U32(txBytes + len);
        txAsked := txAsked + len;
      }
      state := Tx;
    }

    /** `receive_from_host`, as far as the protocol goes, and the transition to the RX state. */
    method ReceiveFromHost(arg: nat, id: nat)
      modifies `state, `rxBytes, `rxAsked, `hwRx, `started
      ensures state == Rx
      ensures restartRx ==>
        rxBytes == U32(old(rxBytes) + RequestedLength(arg)) && rxAsked == old(rxAsked) + RequestedLength(arg)
        && hwRx == old(hwRx) && started == old(started)
      ensures !restartRx ==>
        rxBytes == rxAsked == RequestedLength(arg) && hwRx == old(hwRx) + [id] && started == old(started) + [id]
    {
      var len := RequestedLength(arg);
      if !restartRx {
        rxBytes := len;
        rxAsked := len;
        hwRx := hwRx + [id];
        started := started + [id];
      } else {
        rxBytes := U32(rxBytes + len);
        rxAsked := rxAsked + len;
      }
      state := Rx;
    }

    /** The packet in hardware has been sent. */
    method DiscardTx()
      requires hwTx != []
      modifies `txBytes, `txAsked, `restartTx, `hwTx, `discarded
      ensures txBytes == txAsked == 0 && !restartTx && hwTx == old(hwTx)[1..] && discarded == old(discarded) + [old(hwTx)[0]]
      ensures old(Conserved()) ==> Conserved()
    {
      ghost var d, h := discarded, hwTx;
      txBytes, txAsked := 0, 0;
      restartTx := false;
      discarded := discarded + [hwTx[0]];
      hwTx := hwTx[1..];
      assert discarded + hwTx == d + h;
    }

    /** The packet in hardware has been received; `sys_buf_len_calc_using_hif_len` has its own model. */
    method HandOver(rxLen: nat)
      requires hwRx != []
      modifies `rxBytes, `rxAsked, `restartRx, `hwRx, `received
      ensures rxBytes == rxAsked == 0 && !restartRx && hwRx == old(hwRx)[1..]
      ensures received == old(received) + [Packet(old(hwRx)[0], rxLen)]
      ensures old(Conserved()) ==> Conserved()
    {
      ghost var d, h := received, hwRx;
      restartRx := false;
      IdsMore(received, Packet(hwRx[0], rxLen));
      received := received + [Packet(hwRx[0], rxLen)];
      hwRx := hwRx[1..];
      rxBytes, rxAsked := 0, 0;
      assert Ids(received) + hwRx == Ids(d) + h;
    }

    /** The packet in hardware has all its bytes. */
    ghost predicate TxEnds()
      reads `hwTx, `txBytes
    {
      hwTx != [] && hwTx[0].len + 8 == txBytes
    }

    ghost predicate RxEnds(rxLen: nat)
      reads `hwRx, `rxBytes
    {
      hwRx != [] && rxLen + 8 == rxBytes
    }

    /** An event that leads to the idle state. */
    ghost predicate GoesIdle(ev: Event)
      reads `state, `hwTx, `txBytes, `hwRx, `rxBytes
    {
      match ev
      case Complete(rxLen) => (state == Tx ==> TxEnds()) && (state == Rx ==> RxEnds(rxLen))
      case TxRequest => state == Idle
      case _ => false
    }

    /** A completion that withdraws the indication. */
    ghost predicate Withdraws(ev: Event)
      reads `state, `infoSync
    {
      ev.Complete? && (state == Tx || (state == Info && infoSync))
    }

    /** What an event adds to the log. */
    ghost function Signals(ev: Event): seq<Signal>
      reads `state, `infoSync, `hwTx, `txBytes, `hwRx, `rxBytes, `indicated, `announced, `toHost, `needInfo
    {
      (if Withdraws(ev) then [Cleared] else [])
      + if GoesIdle(ev) then IdleSignal(indicated && !Withdraws(ev), announced, toHost, needInfo) else []
    }

    /** The length announced after an event: the header of a packet that goes out names the packet behind it. */
    ghost function Announces(ev: Event): nat
      reads `state, `restartTx, `toHost, `announced
    {
      if !(ev.TxStart? && state == Idle && !restartTx) then announced
      else if |toHost| > 1 then U16(toHost[1].len + 8)
      else 0
    }

    /** A report is still due after an event: it was not collected, nor was the host told of it. */
    ghost predicate StillDue(ev: Event)
      reads `state, `infoSync, `hwTx, `txBytes, `hwRx, `rxBytes, `indicated, `announced, `toHost, `needInfo
    {
      needInfo && !ev.InfoStart?
      && (GoesIdle(ev) && announced == 0 && toHost == [] ==> indicated && !Withdraws(ev))
    }

    /** A request to transmit is open after an event: the host has not been told of the first packet. */
    ghost predicate StillOpen(ev: Event)
      reads `state, `infoSync, `hwTx, `txBytes, `hwRx, `rxBytes, `indicated, `announced, `toHost, `request
    {
      (request || ev.TxRequest?)
      && (GoesIdle(ev) && announced == 0 && toHost != [] ==> indicated && !Withdraws(ev))
    }

    /** A completion in the TX state; false where the driver reports an error. */
    method CompleteTx() returns (ok: bool)
      requires Signalled() && state == Tx
      modifies `state, `request, `needInfo, `indicated, `log, `txBytes, `txAsked, `restartTx, `hwTx, `discarded
      ensures Signalled() && ok == (old(hwTx) != [] && (old(hwTx)[0].len + 8 == old(txBytes) || !old(restartTx)))
      ensures old(hwTx) != [] && old(hwTx)[0].len + 8 == old(txBytes) ==>
        state == Idle && !restartTx && hwTx == old(hwTx)[1..] && discarded == old(discarded) + [old(hwTx)[0]] && txAsked == 0
      ensures !(old(hwTx) != [] && old(hwTx)[0].len + 8 == old(txBytes)) ==>
        state == Tx && restartTx == (old(restartTx) || ok) && hwTx == old(hwTx) && discarded == old(discarded)
        && txBytes == old(txBytes) && txAsked == old(txAsked)
      ensures old(InStep()) ==> InStep()
      ensures old(Conserved()) ==> Conserved()
      ensures needInfo == old(StillDue(Complete(0))) && request == old(StillOpen(Complete(0)))
      ensures log == old(log) + [Cleared] +
        if old(TxEnds()) then IdleSignal(false, announced, toHost, old(needInfo)) else []
    {
      hide Signalled, Conserved, IdleSignal;
      Withdraw();
      assert log + [] == log;
      if |hwTx| == 0 {
        return false;
      }
      var p := hwTx[0];
      if p.len + 8 == txBytes {
        DiscardTx();
        ToIdle();
        return true;
      }
      if restartTx {
        return false;
      }
      restartTx := true;
      return true;
    }

    /** A completion in the RX state. The driver tests the TX restart flag here, where the RX flag is meant. */
    method CompleteRx(rxLen: nat) returns (ok: bool)
      requires Signalled() && state == Rx
      modifies `state, `request, `needInfo, `indicated, `log, `rxBytes, `rxAsked, `restartRx, `hwRx, `received
      ensures Signalled() && ok == (old(hwRx) != [] && (rxLen + 8 == old(rxBytes) || !restartTx))
      ensures old(hwRx) != [] && rxLen + 8 == old(rxBytes) ==>
        state == Idle && !restartRx && hwRx == old(hwRx)[1..] && received == old(received) + [Packet(old(hwRx)[0], rxLen)] && rxAsked == 0
      ensures !(old(hwRx) != [] && rxLen + 8 == old(rxBytes)) ==>
        state == Rx && restartRx == (old(restartRx) || ok) && hwRx == old(hwRx) && received == old(received)
        && rxBytes == old(rxBytes) && rxAsked == old(rxAsked)
      ensures old(InStep()) ==> InStep()
      ensures old(Conserved()) ==> Conserved()
      ensures needInfo == old(StillDue(Complete(rxLen))) && request == old(StillOpen(Complete(rxLen)))
      ensures log == old(log) + if old(RxEnds(rxLen)) then IdleSignal(old(indicated), announced, toHost, old(needInfo)) else []
    {
      hide Signalled, Conserved, IdleSignal;
      assert log + [] == log;
      if |hwRx| == 0 {
        return false;
      }
      if rxLen + 8 == rxBytes {
        HandOver(rxLen);
        ToIdle();
        return true;
      }
      if restartTx {
        return false;
      }
      restartRx := true;
      return true;
    }

    /** What the driver asserts: a fresh TX transfer finds a packet. */
    predicate Allowed(ev: Event)
      reads `state, `restartTx, `toHost
    {
      ev.TxStart? && state == Idle && !restartTx ==> |toHost| > 0
    }

    /** A host that does not start an INFO transfer in the middle of a packet. */
    predicate Polite(ev: Event)
      reads `state
    {
      ev.InfoStart? ==> state != Tx && state != Rx
    }

    /** The completion that ends the transmission, or the reception, of the packet in hardware. */
    ghost predicate TxMatched(ev: Event)
      reads `state, `hwTx, `txAsked
    {
      ev.Complete? && state == Tx && hwTx != [] && hwTx[0].len + 8 == U32(txAsked)
    }

    ghost predicate RxMatched(ev: Event)
      reads `state, `rxAsked
    {
      ev.Complete? && state == Rx && ev.rxLen + 8 == U32(rxAsked)
    }

    /** An event that arrives in step and is not reported as an error. */
    ghost predicate Accepts(ev: Event)
      reads `state, `restartTx, `hwTx, `txAsked
    {
      match ev
      case TxStart(arg) => state == Idle || state == Tx
      case RxStart(arg, id) => state == Idle || state == Rx
      case Complete(rxLen) => state == Tx ==> TxMatched(ev) || !restartTx
      case _ => true
    }

    /** The state after an event that arrives in step. */
    ghost function NextState(ev: Event): State
      reads `state, `hwTx, `txAsked, `rxAsked
    {
      match ev
      case TxStart(arg) => if state == Idle then Tx else state
      case RxStart(arg, id) => if state == Idle then Rx else state
      case InfoStart(sync) => Info
      case Complete(rxLen) => if (state == Tx && !TxMatched(ev)) || (state == Rx && !RxMatched(ev)) then state else Idle
      case TxRequest => state
    }

    /** What an event that arrives in step does to the packets and the bytes requested of them. */
    twostate predicate Moved(ev: Event, ok: bool)
      reads `state, `restartTx, `restartRx, `hwTx, `hwRx, `txBytes, `rxBytes, `txAsked, `rxAsked, `discarded, `received, `toHost
    {
      ok == old(Accepts(ev)) &&
      (InStep() <==> old(Polite(ev))) && state == old(NextState(ev))
      && txAsked == AskedAfter(old(txAsked), ev.TxStart?, if ev.TxStart? then ev.arg else 0, old(state), Tx, old(TxMatched(ev)))
      && rxAsked == AskedAfter(old(rxAsked), ev.RxStart?, if ev.RxStart? then ev.arg else 0, old(state), Rx, old(RxMatched(ev)))
      && discarded == (if old(TxMatched(ev)) then old(discarded) + [old(hwTx)[0]] else old(discarded))
      && (old(Polite(ev)) ==> restartTx == (state == Tx && (old(restartTx) || (old(state) == Tx && (ev.TxStart? || ev.Complete?)))))
      && (old(Polite(ev)) ==> restartRx == (state == Rx && (old(restartRx) || (old(state) == Rx && (ev.RxStart? || ev.Complete?)))))
      && (old(RxMatched(ev)) ==> old(hwRx) != [])
      && received == (if old(RxMatched(ev)) then old(received) + [Packet(old(hwRx)[0], ev.rxLen)] else old(received))
      && (ev.RxStart? && old(state) == Idle ==> hwRx == [ev.rxId])
      && (ev.TxStart? && old(state) == Idle ==> old(toHost) != [] && hwTx == [old(toHost)[0]] && toHost == old(toHost)[1..])
    }

    /** `run_event`, with `transit` */
    method RunEvent(ev: Event) returns (ok: bool)
      requires Signalled() && Allowed(ev)
      modifies this
      ensures Signalled() && log == old(log) + old(Signals(ev))
      ensures state == Idle <==> old(GoesIdle(ev))
      ensures !unrequested && Told()
      ensures infoSync == if ev.InfoStart? then ev.sync else old(infoSync)
      ensures announced == old(Announces(ev)) && needInfo == old(StillDue(ev)) && request == old(StillOpen(ev))
      ensures queued == old(queued) && history == old(history) + [Seen(ev, old(state))]
      ensures old(Conserved()) ==> Conserved()
      ensures old(Promised()) ==> Promised()
      ensures old(InStep()) ==> Moved(ev, ok)
      ensures old(InStep()) && old(Polite(ev)) && old(Exact()) ==> Exact()
    {
      hide RequestedLength, U32, U16, Conserved, Promised, TxAsks, RxAsks, Exactly, Asked, Signalled, Told, Signals, AskedAfter;
      ghost var seen := Seen(ev, state);
      ghost var wasExact, inStep, polite := Exact(), InStep(), Polite(ev);
      ghost var p, q := if hwTx == [] then Packet(0, 0) else hwTx[0], if hwRx == [] then 0 else hwRx[0];
      ok := Handle(ev);
      AsksMore(history, seen);
      history := history + [seen];
      if wasExact && inStep && polite {
        ExactlyStep(TxAsks(old(history)), old(discarded), old(state), Tx, old(txAsked), ev.TxStart?,
                    if ev.TxStart? then ev.arg else 0, old(TxMatched(ev)), p, state, discarded, txAsked);
        ExactlyStep(RxAsks(old(history)), old(received), old(state), Rx, old(rxAsked), ev.RxStart?,
                    if ev.RxStart? then ev.arg else 0, old(RxMatched(ev)), Packet(q, if ev.Complete? then ev.rxLen else 0),
                    state, received, rxAsked);
      }
    }

    /** The event without its entry in the history. */
    method Handle(ev: Event) returns (ok: bool)
      requires Signalled() && Allowed(ev)
      modifies `state, `request, `needInfo, `infoSync, `indicated, `log, `txBytes, `txAsked, `rxBytes, `rxAsked, `restartTx, `restartRx,
               `announced, `toHost, `hwTx, `hwRx, `discarded, `received, `started, `unrequested
      ensures Signalled() && log == old(log) + old(Signals(ev))
      ensures state == Idle <==> old(GoesIdle(ev))
      ensures !unrequested && Told()
      ensures infoSync == if ev.InfoStart? then ev.sync else old(infoSync)
      ensures announced == old(Announces(ev)) && needInfo == old(StillDue(ev)) && request == old(StillOpen(ev))
      ensures old(Conserved()) ==> Conserved()
      ensures old(Promised()) ==> Promised()
      ensures old(InStep()) ==> Moved(ev, ok)
    {
      hide Conserved, Promised, Moved, Orderly, Pending, IdleSignal, InStep;
      ghost var withdrawn := if Withdraws(ev) then [Cleared] else [];
      ghost var raised := IdleSignal(indicated && !Withdraws(ev), announced, toHost, needInfo);
      ghost var goes := GoesIdle(ev);
      StillPending(log, indicated, withdrawn);
      ok := Dispatch(ev);
      unrequested := false;
      if goes && toHost != [] && announced == 0 {
        IdleIsTold(old(log), withdrawn != [], announced, toHost, old(needInfo));
        Joined(old(log), withdrawn, raised);
      }
    }

    /** The body of `run_event`. */
    method Dispatch(ev: Event) returns (ok: bool)
      requires Signalled() && Allowed(ev)
      modifies `state, `request, `needInfo, `infoSync, `indicated, `log, `txBytes, `txAsked, `rxBytes, `rxAsked, `restartTx, `restartRx,
               `announced, `toHost, `hwTx, `hwRx, `discarded, `received, `started
      ensures Signalled() && log == old(log) + old(Signals(ev))
      ensures state == Idle <==> old(GoesIdle(ev))
      ensures old(GoesIdle(ev)) ==> toHost == old(toHost) && announced == old(announced)
      ensures infoSync == if ev.InfoStart? then ev.sync else old(infoSync)
      ensures announced == old(Announces(ev)) && needInfo == old(StillDue(ev)) && request == old(StillOpen(ev))
      ensures old(Conserved()) ==> Conserved()
      ensures old(Promised()) ==> Promised()
      ensures old(InStep()) ==> Moved(ev, ok)
    {
      hide Conserved, Promised, Signals, StillDue, StillOpen, Moved, InStep, Signalled;
      if ev.TxStart? || ev.RxStart? {
        ok := RunStart(ev);
      } else if ev.Complete? {
        ok := RunComplete(ev.rxLen);
      } else if ev.InfoStart? {
        ok := RunInfoStart(ev.sync);
      } else {
        ok := RunTxRequest();
      }
    }

    /** A transfer starts or goes on; nothing is signalled. */
    method RunStart(ev: Event) returns (ok: bool)
      requires Allowed(ev) && (ev.TxStart? || ev.RxStart?)
      modifies `state, `txBytes, `txAsked, `rxBytes, `rxAsked, `restartTx, `restartRx, `announced, `toHost, `hwTx, `hwRx, `started
      ensures log == old(log) + old(Signals(ev)) && state != Idle && !old(GoesIdle(ev))
      ensures announced == old(Announces(ev)) && needInfo == old(StillDue(ev)) && request == old(StillOpen(ev))
      ensures old(Conserved()) ==> Conserved()
      ensures old(Promised()) ==> Promised()
      ensures old(InStep()) ==> Moved(ev, ok)
    {
      hide RequestedLength, U32, U16, Conserved, Promised, IdleSignal;
      assert log + ([] + []) == log;
      if ev.TxStart? {
        ok := RunTxStart(ev.arg);
      } else {
        ok := RunRxStart(ev.arg, ev.rxId);
      }
    }

    /** An INFO transfer starts. */
    method RunInfoStart(sync: bool) returns (ok: bool)
      modifies `state, `needInfo, `infoSync
      ensures log == old(log) + old(Signals(InfoStart(sync))) && state == Info && infoSync == sync
      ensures needInfo == old(StillDue(InfoStart(sync))) && request == old(StillOpen(InfoStart(sync)))
      ensures old(InStep()) ==> Moved(InfoStart(sync), ok)
    {
      hide IdleSignal, U32, RequestedLength;
      assert log + ([] + []) == log;
      infoSync := sync;
      needInfo := false;
      state := Info;
      ok := true;
    }

    /** The firmware asks for a packet to be made known. */
    method RunTxRequest() returns (ok: bool)
      requires Signalled()
      modifies `state, `request, `needInfo, `indicated, `log
      ensures Signalled() && log == old(log) + old(Signals(TxRequest))
      ensures state == old(state) && (state == Idle <==> old(GoesIdle(TxRequest)))
      ensures needInfo == old(StillDue(TxRequest)) && request == old(StillOpen(TxRequest))
      ensures old(InStep()) ==> Moved(TxRequest, ok)
    {
      hide Signalled, IdleSignal, U32, RequestedLength;
      assert log + ([] + []) == log;
      request := true;
      if state == Idle {
        ToIdle();
        assert log == old(log) + old(Signals(TxRequest));
      }
      ok := true;
    }

    method RunTxStart(arg: nat) returns (ok: bool)
      requires Allowed(TxStart(arg))
      modifies `state, `txBytes, `txAsked, `toHost, `hwTx, `announced, `restartTx
      ensures old(InStep()) ==> InStep()
      ensures old(Conserved()) ==> Conserved()
      ensures old(Promised()) ==> Promised()
      ensures state == if old(state) == Idle then Tx else old(state)
      ensures old(InStep()) ==> txAsked == AskedAfter(old(txAsked), true, arg, old(state), Tx, false)
      ensures old(InStep()) && old(state) == Idle ==> hwTx == [old(toHost)[0]] && toHost == old(toHost)[1..]
      ensures ok == (old(state) == Idle || old(state) == Tx) && announced == old(Announces(TxStart(arg)))
      ensures !ok ==> hwTx == old(hwTx) && toHost == old(toHost) && restartTx == old(restartTx)
      ensures ok ==> restartTx == (old(restartTx) || old(state) == Tx)
    {
      hide RequestedLength;
      SmallRequest(arg);
      ok := true;
      if state == Idle {
        SendToHost(arg);
      } else if state == Tx {
        U32Absorbs(txAsked, RequestedLength(arg));
        restartTx := true;
        SendToHost(arg);
      } else {
        ok := false;
      }
    }

    method RunRxStart(arg: nat, id: nat) returns (ok: bool)
      modifies `state, `rxBytes, `rxAsked, `hwRx, `restartRx, `started
      ensures old(InStep()) ==> InStep()
      ensures old(Conserved()) ==> Conserved()
      ensures state == if old(state) == Idle then Rx else old(state)
      ensures old(InStep()) ==> rxAsked == AskedAfter(old(rxAsked), true, arg, old(state), Rx, false)
      ensures old(InStep()) && old(state) == Idle ==> hwRx == [id]
      ensures ok == (old(state) == Idle || old(state) == Rx)
      ensures !ok ==> hwRx == old(hwRx) && restartRx == old(restartRx)
      ensures ok ==> restartRx == (old(restartRx) || old(state) == Rx)
    {
      hide RequestedLength;
      SmallRequest(arg);
      ok := true;
      if state == Idle {
        ReceiveFromHost(arg, id);
      } else if state == Rx {
        U32Absorbs(rxAsked, RequestedLength(arg));
        restartRx := true;
        ReceiveFromHost(arg, id);
      } else {
        ok := false;
      }
    }

    method RunComplete(rxLen: nat) returns (ok: bool)
      requires Signalled()
      modifies `state, `request, `needInfo, `indicated, `log, `txBytes, `txAsked, `rxBytes, `rxAsked, `restartTx, `restartRx,
               `hwTx, `hwRx, `discarded, `received
      ensures Signalled()
      ensures log == old(log) + old(Signals(Complete(rxLen))) && needInfo == old(StillDue(Complete(rxLen))) && request == old(StillOpen(Complete(rxLen)))
      ensures state == Idle <==> old(GoesIdle(Complete(rxLen)))
      ensures old(Conserved()) ==> Conserved()
      ensures old(InStep()) ==> Moved(Complete(rxLen), ok)
    {
      hide U32, Signalled, IdleSignal;
      if state == Tx || state == Rx {
        ok := CompleteTransfer(rxLen);
      } else {
        assert log + [] == log;
        if state == Info && infoSync {
          Withdraw();
        }
        ToIdle();
        ok := true;
        assert log == old(log) + old(Signals(Complete(rxLen)));
      }
    }

    method CompleteTransfer(rxLen: nat) returns (ok: bool)
      requires Signalled() && (state == Tx || state == Rx)
      modifies `state, `request, `needInfo, `indicated, `log, `txBytes, `txAsked, `rxBytes, `rxAsked, `restartTx, `restartRx,
               `hwTx, `hwRx, `discarded, `received
      ensures Signalled()
      ensures log == old(log) + old(Signals(Complete(rxLen))) && needInfo == old(StillDue(Complete(rxLen))) && request == old(StillOpen(Complete(rxLen)))
      ensures state == Idle <==> old(GoesIdle(Complete(rxLen)))
      ensures old(Conserved()) ==> Conserved()
      ensures old(InStep()) ==> Moved(Complete(rxLen), ok)
    {
      hide U32, Signalled, Conserved, IdleSignal;
      if state == Tx {
        ok := CompleteTx();
        assert log == old(log) + old(Signals(Complete(rxLen)));
      } else {
        ok := CompleteRx(rxLen);
        assert log == old(log) + old(Signals(Complete(rxLen)));
      }
    }

    // -------------------------------------------------------------------------------------------
    // Whole runs
    // -------------------------------------------------------------------------------------------

    /**
     Any run: indications stay orderly, announced lengths are kept, no packet is lost, repeated or reordered, and in the
     idle state the host knows of a packet that waits for it. Steps on which the driver would stop at an assertion are not taken.
     */
    method AnyRun(script: seq<Action>)
      requires Signalled() && Conserved() && Promised() && Told()
      modifies this
      ensures Signalled() && Conserved() && Promised() && Told()
      ensures discarded <= queued && Ids(received) <= started
    {
      for i := 0 to |script|
        invariant Signalled() && Conserved() && Promised() && Told()
      {
        match script[i]
        case Host(ev) =>
          if Allowed(ev) {
            var ok := RunEvent(ev);
          }
        case Firmware(p) => Queue(p);
        case Credit => Report();
      }
    }

    /**
     A run with a polite host: moreover the hardware queues and restart flags match the state, and every packet discarded
     or handed over had exactly its length plus 8 requested, modulo 2^32.
     */
    method PoliteRun(script: seq<Action>)
      requires Signalled() && InStep() && Conserved() && Promised() && Exact()
      modifies this
      ensures Signalled() && InStep() && Conserved() && Promised() && Exact()
      ensures |discarded| <= |TxAsks(history)| && |received| <= |RxAsks(history)|
      ensures forall i :: 0 <= i < |discarded| ==> discarded[i].len + 8 == U32(TxAsks(history)[i])
      ensures forall i :: 0 <= i < |received| ==> received[i].len + 8 == U32(RxAsks(history)[i])
    {
      hide Signalled, InStep, Conserved, Promised, U32, TxAsks, RxAsks;
      for i := 0 to |script|
        invariant Signalled() && InStep() && Conserved() && Promised() && Exact()
      {
        match script[i]
        case Host(ev) =>
          if Allowed(ev) && Polite(ev) {
            var ok := RunEvent(ev);
          }
        case Firmware(p) => Queue(p);
        case Credit => Report();
      }
    }

    /** A change of credit to report; `SdioCredit` says when. */
    method Report()
      modifies `needInfo
      ensures needInfo
    {
      needInfo := true;
    }
  }

  /** A packet of 100 bytes in a fresh driver: once the firmware asks for it, the host is told of 108 bytes. */
  method FirstIndication() returns (d: Driver)
    ensures d.log == [Raised(108)] && d.indicated
  {
    hide Driver.Conserved, Driver.Exact, Driver.Promised, Driver.Told, Driver.Moved, Driver.InStep, Orderly, Driver.Announces, Driver.StillDue, Driver.StillOpen;
    d := new Driver();
    d.Queue(Packet(1, 100));
    var ok := d.RunEvent(TxRequest);
  }

  lemma StillPending(log: seq<Signal>, indicated: bool, withdrawn: seq<Signal>)
    requires indicated == Pending(log) && (withdrawn == [] || withdrawn == [Cleared])
    ensures Pending(log + withdrawn) == (indicated && withdrawn == [])
  {
    assert log + [] == log;
  }

  lemma Joined(a: seq<Signal>, b: seq<Signal>, c: seq<Signal>)
    ensures a + (b + c) == a + b + c
  {
  }

  function Ids(ps: seq<Packet>): seq<nat> {
    if ps == [] then [] else Ids(ps[..|ps| - 1]) + [ps[|ps| - 1].id]
  }

  lemma IdsMore(ps: seq<Packet>, p: Packet)
    ensures Ids(ps + [p]) == Ids(ps) + [p.id]
  {
    assert (ps + [p])[..|ps|] == ps;
  }

  /** One step of a run: an event of the host, a packet queued by the firmware, or a change of credit to report. */
  datatype Action = Host(ev: Event) | Firmware(p: Packet) | Credit
}
