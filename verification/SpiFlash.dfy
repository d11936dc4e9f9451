/**
 The NOR flash driver of drivers/hal_spiflash.c over an abstract flash device: programming split at
 page ends, sector erase, and reads split into chunks.
 */
module SpiFlash {
  import opened Words

  type byte = bv8

  const PAGE: nat := 0x100
  const SECTOR: nat := 0x1000
  const MAPPED: nat := 0x20_0000
  const CHUNK: nat := 0x200
  const TIMEOUT: nat := 0xFFFF_FFFF

  // ---------------------------------------------------------------------------------------------
  // What commands do to the memory
  // ---------------------------------------------------------------------------------------------

  /** Programming can only clear bits. */
  ghost function Programmed(mem: seq<byte>, addr: nat, data: seq<byte>): (r: seq<byte>)
    ensures |r| == |mem|
  {
    seq(|mem|, i requires 0 <= i < |mem| => if addr <= i < addr + |data| then mem[i] & data[i - addr] else mem[i])
  }

  /** A page-program command: addresses that run past the page end wrap to its beginning. */
  function PageProgram(mem: seq<byte>, addr: nat, data: seq<byte>): (r: seq<byte>)
    requires |data| <= PAGE
    ensures |r| == |mem|
  {
    seq(|mem|, i requires 0 <= i < |mem| =>
      if i / PAGE == addr / PAGE && (i - addr) % PAGE < |data| then mem[i] & data[(i - addr) % PAGE] else mem[i])
  }

  function Erased(mem: seq<byte>, addr: nat, len: nat): (r: seq<byte>)
    ensures |r| == |mem|
  {
    seq(|mem|, i requires 0 <= i < |mem| => if addr <= i < addr + len then 0xFF else mem[i])
  }

  predicate OnePage(addr: nat, len: nat) {
    addr % PAGE + len <= PAGE
  }

  lemma InPage(i: nat, addr: nat, len: nat)
    requires OnePage(addr, len) && len > 0
    ensures (i / PAGE == addr / PAGE && (i - addr) % PAGE < len) <==> addr <= i < addr + len
    ensures addr <= i < addr + len ==> (i - addr) % PAGE == i - addr
  {
    var p, o := addr / PAGE, addr % PAGE;
    assert addr == PAGE * p + o;
    if addr <= i < addr + len {
      Quotient(i, p, PAGE, i - PAGE * p);
    } else if i / PAGE == p {
      var k := i % PAGE;
      assert i == PAGE * p + k && i - addr == k - o;
    }
  }

  /** Within one page there is no wrap-around. */
  lemma PageProgramIsProgrammed(mem: seq<byte>, addr: nat, data: seq<byte>)
    requires OnePage(addr, |data|) && |data| > 0
    ensures PageProgram(mem, addr, data) == Programmed(mem, addr, data)
  {
    forall i | 0 <= i < |mem|
      ensures PageProgram(mem, addr, data)[i] == Programmed(mem, addr, data)[i]
    {
      InPage(i, addr, |data|);
    }
  }

  lemma ProgrammedMore(mem: seq<byte>, addr: nat, data: seq<byte>, k: nat, n: nat, m: nat)
    requires k <= n <= m <= |data|
    ensures Programmed(Programmed(mem, addr + k, data[k..n]), addr + n, data[n..m]) == Programmed(mem, addr + k, data[k..m])
  {
  }

  lemma ErasedMore(mem: seq<byte>, addr: nat, k: nat, n: nat, m: nat)
    requires k <= n <= m
    ensures Erased(Erased(mem, addr + k, n - k), addr + n, m - n) == Erased(mem, addr + k, m - k)
  {
  }

  /** Erasing sectors that cover a range, then programming it, stores the data and touches nothing outside the sectors. */
  lemma WriteAfterErase(mem: seq<byte>, start: nat, len: nat, addr: nat, data: seq<byte>)
    requires start <= addr && addr + |data| <= start + len && start + len <= |mem|
    ensures Programmed(Erased(mem, start, len), addr, data)[addr..addr + |data|] == data
    ensures forall i :: 0 <= i < |mem| && !(start <= i < start + len) ==>
              Programmed(Erased(mem, start, len), addr, data)[i] == mem[i]
  {
  }

  /** The first `n` bytes have been programmed, less the first `first` if the device was busy. */
  ghost predicate OnceWritten(mem: seq<byte>, mem0: seq<byte>, addr: nat, buf: seq<byte>, n: nat, busy: bool, first: nat) {
    var lost := if busy then first else 0;
    lost <= n <= |buf| && mem == Programmed(mem0, addr + lost, buf[lost..n])
  }

  /** Neither erasing nor programming inside a range touches anything outside. */
  lemma OutsideKept(mem: seq<byte>, at: nat, n: nat, addr: nat, data: seq<byte>, start: nat, len: nat)
    requires start <= at && at + n <= start + len && start <= addr && addr + |data| <= start + len
    ensures forall i :: 0 <= i < |mem| && !(start <= i < start + len) ==>
              Erased(mem, at, n)[i] == Programmed(Erased(mem, at, n), addr, data)[i] == mem[i]
  {
  }

  // ---------------------------------------------------------------------------------------------
  // The device
  // ---------------------------------------------------------------------------------------------

  datatype Command = ProgramAt(addr: nat, len: nat) | EraseAt(addr: nat)

  /** A command together with the status bits at the moment it was given. */
  datatype Issued = Issued(command: Command, wel: bool, wip: bool)

  /** A command that the device accepts and that does what it says. */
  predicate Proper(c: Issued) {
    c.wel && !c.wip
    && match c.command
       case ProgramAt(addr, len) => OnePage(addr, len) && len > 0
       case EraseAt(addr) => addr % SECTOR == 0
  }

  /** The commands given since `before` were all proper. */
  ghost predicate Extends(before: seq<Issued>, log: seq<Issued>) {
    before <= log && forall i :: |before| <= i < |log| ==> Proper(log[i])
  }

  /** The commands since `before`: if `busy`, the first one met a busy device; all others were proper. */
  ghost predicate Given(before: seq<Issued>, log: seq<Issued>, busy: bool) {
    if busy then |before| < |log| && before <= log && log[|before|].wip && Extends(log[..|before| + 1], log)
    else Extends(before, log)
  }

  lemma GivenProper(before: seq<Issued>, log: seq<Issued>, busy: bool)
    requires Given(before, log, busy)
    ensures before <= log && (Extends(before, log) <==> !busy)
  {
  }

  lemma ExtendsMore(a: seq<Issued>, b: seq<Issued>, c: seq<Issued>)
    requires Extends(a, b) && Extends(b, c)
    ensures Extends(a, c)
  {
  }

  lemma GivenMore(a: seq<Issued>, b: seq<Issued>, c: seq<Issued>, busy: bool)
    requires Given(a, b, busy) && Extends(b, c)
    ensures Given(a, c, busy)
  {
    if busy {
      assert b[..|a| + 1] == c[..|a| + 1];
      ExtendsMore(b[..|a| + 1], b, c);
    } else {
      ExtendsMore(a, b, c);
    }
  }

  /** Bytes up to the end of the page, or all of them. */
  function FirstLength(addr: nat, len: nat): nat {
    if len > PAGE - addr % PAGE then PAGE - addr % PAGE else len
  }

  /** How many pages a range touches, and how far the first `d` of them reach into it. */
  function PageCount(addr: nat, len: nat): nat {
    if len == 0 then 0 else 1 + (len - FirstLength(addr, len) + PAGE - 1) / PAGE
  }

  function Reached(addr: nat, len: nat, d: nat): nat {
    if d == 0 then 0 else Min(len, FirstLength(addr, len) + PAGE * (d - 1))
  }

  function NextLength(addr: nat, len: nat, d: nat): int { Reached(addr, len, d + 1) - Reached(addr, len, d) }

  lemma ReachedEnds(addr: nat, len: nat)
    ensures Reached(addr, len, 0) == 0 && Reached(addr, len, PageCount(addr, len)) == len
    ensures NextLength(addr, len, 0) == FirstLength(addr, len)
    ensures len > 0 <==> PageCount(addr, len) > 0
  {
  }

  lemma NextReached(addr: nat, len: nat, d: nat)
    requires d < PageCount(addr, len)
    ensures Reached(addr, len, d + 1) == Reached(addr, len, d) + NextLength(addr, len, d) <= len
    ensures NextLength(addr, len, d + 1) == Min(PAGE, len - Reached(addr, len, d + 1))
    ensures Reached(addr, len, d + 1) == len <==> d + 1 == PageCount(addr, len)
  {
    var f := FirstLength(addr, len);
    var q := (len - f + PAGE - 1) / PAGE;
    assert len - f <= PAGE * q < len - f + PAGE;
  }

  /** The first result that is not 0, how many pages or sectors were given to the device, and when it is over. */
  datatype Course = Course(code: int, n: nat, over: nat) {
    function More(): Course { Course(code, n + 1, over) }
  }

  /** A flash device is read through its memory-mapped window or by a read command. */
  datatype Access = Mapped(addr: nat, len: nat) | Command(addr: nat, len: nat)

  /** Together the accesses read `len` bytes from `addr` on, one behind the other. */
  ghost predicate Consecutive(accesses: seq<Access>, addr: nat, len: nat) {
    if accesses == [] then len == 0
    else
      var last := accesses[|accesses| - 1];
      last.len <= len && last.addr == addr + len - last.len
      && Consecutive(accesses[..|accesses| - 1], addr, len - last.len)
  }

  /** The window is used for what lies below its end, commands of at most a chunk for what lies beyond. */
  predicate Suitable(a: Access) {
    match a
    case Mapped(addr, len) => addr + len <= MAPPED
    case Command(addr, len) => addr >= MAPPED && len <= CHUNK
  }

  lemma OneMoreAccess(accesses: seq<Access>, addr: nat, len: nat, a: Access)
    requires Consecutive(accesses, addr, len) && a.addr == addr + len
    ensures Consecutive(accesses + [a], addr, len + a.len)
  {
    assert (accesses + [a])[..|accesses|] == accesses;
  }

  lemma NoAccess(addr: nat)
    ensures Consecutive([], addr, 0)
  {
  }

  lemma {:induction false} MoreAccesses(a: seq<Access>, b: seq<Access>, addr: nat, n: nat, m: nat)
    requires Consecutive(a, addr, n) && Consecutive(b, addr + n, m)
    ensures Consecutive(a + b, addr, n + m)
    decreases |b|
  {
    if b == [] {
      assert a + b == a;
    } else {
      var last, init := b[|b| - 1], b[..|b| - 1];
      MoreAccesses(a, init, addr, n, m - last.len);
      OneMoreAccess(a + init, addr, n + m - last.len, last);
      assert a + b == a + init + [last];
    }
  }

  lemma {:induction false} AllFrom(accesses: seq<Access>, addr: nat, len: nat)
    requires Consecutive(accesses, addr, len)
    ensures forall i :: 0 <= i < |accesses| ==> accesses[i].addr >= addr
  {
    if accesses != [] {
      AllFrom(accesses[..|accesses| - 1], addr, len - accesses[|accesses| - 1].len);
    }
  }

  /**
   A flash device. It acts in its own time: `ends` says at which moments an operation in progress is found to have
   ended, `takes` at which moments an idle device takes a write-enable command.
   */
  class Device {
    const ends: nat -> bool
    const takes: nat -> bool
    var time: nat
    var mem: seq<byte>
    /** Write-enable latch and write-in-progress bits of the status register. */
    var wel: bool
    var wip: bool
    ghost var log: seq<Issued>

    constructor (mem: seq<byte>, ends: nat -> bool, takes: nat -> bool)
      ensures this.mem == mem && this.ends == ends && this.takes == takes
      ensures !wel && !wip && time == 0 && log == [] && Sane()
    {
      this.ends, this.takes := ends, takes;
      this.mem, wel, wip, time, log := mem, false, false, 0, [];
    }

    /** `spiFlash_wren`; a busy device ignores it, and an idle one may be slow to take it. */
    method WriteEnable()
      modifies `wel, `time
      ensures wel == (old(wel) || (!wip && takes(old(time)))) && time == old(time) + 1
    {
      if !wip && takes(time) {
        wel := true;
      }
      time := time + 1;
    }

    /** `spiFlash_rdsr`; an operation in progress may have ended, which also resets the latch. */
    method ReadStatus() returns (enabled: bool, busy: bool)
      modifies `wel, `wip, `time
      ensures enabled == wel && busy == wip && time == old(time) + 1
      ensures if old(wip) && ends(old(time)) then !wip && !wel else wip == old(wip) && wel == old(wel)
    {
      if wip && ends(time) {
        wip, wel := false, false;
      }
      time := time + 1;
      enabled, busy := wel, wip;
    }

    /** A page-program command. A device that is busy or not enabled ignores it. */
    method Program(addr: nat, data: seq<byte>)
      requires |data| <= PAGE
      modifies `mem, `wip, `log
      ensures log == old(log) + [Issued(ProgramAt(addr, |data|), wel, old(wip))]
      ensures |mem| == |old(mem)| && wip == (old(wip) || wel)
      ensures mem == if wel && !old(wip) then PageProgram(old(mem), addr, data) else old(mem)
    {
      log := log + [Issued(ProgramAt(addr, |data|), wel, wip)];
      if wel && !wip {
        mem := PageProgram(mem, addr, data);
        wip := true;
      }
    }

    /** A sector-erase command. */
    method EraseSector(addr: nat)
      modifies `mem, `wip, `log
      ensures log == old(log) + [Issued(EraseAt(addr), wel, old(wip))]
      ensures |mem| == |old(mem)| && wip == (old(wip) || wel)
      ensures mem == if wel && !old(wip) then Erased(old(mem), addr / SECTOR * SECTOR, SECTOR) else old(mem)
    {
      log := log + [Issued(EraseAt(addr), wel, wip)];
      if wel && !wip {
        mem := Erased(mem, addr / SECTOR * SECTOR, SECTOR);
        wip := true;
      }
    }

    // -------------------------------------------------------------------------------------------
    // The driver
    // -------------------------------------------------------------------------------------------

    /** A device at work still has its latch set. */
    ghost predicate Sane()
      reads `wip, `wel
    {
      wip ==> wel
    }

    /** Of the write-enable commands that the driver gives from `t` on, number `k` is taken. */
    predicate Taken(t: nat, k: nat) { takes(t + 2 * k) }

    /** Of its readings of the status from `t` on, number `k` finds the operation ended. */
    predicate Ended(t: nat, k: nat) { ends(t + k) }

    /** The first command from number `j` on that is taken. */
    ghost function FirstTake(t: nat, j: nat): (i: nat)
      requires j <= TIMEOUT
      ensures j <= i <= TIMEOUT && (i < TIMEOUT ==> Taken(t, i))
      ensures forall k :: j <= k < i ==> !Taken(t, k)
      decreases TIMEOUT - j
    {
      if j == TIMEOUT || Taken(t, j) then j else FirstTake(t, j + 1)
    }

    /** The first reading from number `j` on that finds the operation ended. */
    ghost function FirstEnd(t: nat, j: nat): (i: nat)
      requires j <= TIMEOUT
      ensures j <= i <= TIMEOUT && (i < TIMEOUT ==> Ended(t, i))
      ensures forall k :: j <= k < i ==> !Ended(t, k)
      decreases TIMEOUT - j
    {
      if j == TIMEOUT || Ended(t, j) then j else FirstEnd(t, j + 1)
    }

    lemma TakeStep(t: nat, j: nat)
      requires j < TIMEOUT
      ensures FirstTake(t, j) == if Taken(t, j) then j else FirstTake(t, j + 1)
    {
    }

    lemma EndStep(t: nat, j: nat)
      requires j < TIMEOUT
      ensures FirstEnd(t, j) == if Ended(t, j) then j else FirstEnd(t, j + 1)
    {
    }

    /** How often the driver asks in vain before the status shows the latch. */
    ghost function EnableSteps(t: nat, wel: bool, wip: bool): (i: nat)
      ensures i <= TIMEOUT
    {
      if wel && !(wip && ends(t + 1)) then 0 else FirstTake(t, if wip then 1 else 0)
    }

    /**
     The loop that asks for write-enable until the status shows it. It does not look at the busy bit, and the latch of
     a device at work on an earlier command is still set.
     */
    method Enable() returns (ok: bool)
      requires Sane()
      modifies `wel, `wip, `time
      ensures Sane() && ok == wel && wip == (old(wip) && !ends(old(time) + 1))
      ensures var k := EnableSteps(old(time), old(wel), old(wip));
        (ok <==> k < TIMEOUT) && time == old(time) + 2 * if ok then k + 1 else TIMEOUT
    {
      hide FirstTake;
      ghost var t, from := time, if wip then 1 else 0;
      var enabled, busy := AskOnce();
      var j := 1;
      if !enabled && from == 0 {
        TakeStep(t, 0);
      }
      while j < TIMEOUT && !enabled
        invariant 1 <= j <= TIMEOUT && time == t + 2 * j && enabled == wel && (!enabled ==> !wip)
        invariant wip == (old(wip) && !ends(t + 1))
        invariant !enabled ==> EnableSteps(t, old(wel), old(wip)) == FirstTake(t, j)
        invariant enabled ==> EnableSteps(t, old(wel), old(wip)) == j - 1
      {
        TakeStep(t, j);
        enabled, busy := AskOnce();
        j := j + 1;
      }
      ok := enabled;
      LastTake(t);
    }

    lemma LastTake(t: nat)
      ensures FirstTake(t, TIMEOUT) == TIMEOUT
    {
    }

    /** One write-enable command and one reading. */
    method AskOnce() returns (enabled: bool, busy: bool)
      requires Sane()
      modifies `wel, `wip, `time
      ensures Sane() && time == old(time) + 2 && wip == (old(wip) && !ends(old(time) + 1))
      ensures wel == enabled == if old(wip) then wip else old(wel) || Taken(old(time), 0)
    {
      WriteEnable();
      enabled, busy := ReadStatus();
    }

    /** The loop that waits until the operation in progress has ended. */
    method WaitIdle() returns (ok: bool)
      requires Sane() && wip
      modifies `wel, `wip, `time
      ensures Sane() && ok == !wip && wel == !ok
      ensures var k := FirstEnd(old(time), 0);
        (ok <==> k < TIMEOUT) && time == old(time) + if ok then k + 1 else TIMEOUT
    {
      hide FirstEnd;
      ghost var t := time;
      var enabled, busy := false, true;
      var j := 0;
      while j < TIMEOUT && busy
        invariant j <= TIMEOUT && time == t + j && busy == wip == wel
        invariant busy ==> FirstEnd(t, 0) == FirstEnd(t, j)
        invariant !busy ==> FirstEnd(t, 0) == j - 1
      {
        EndStep(t, j);
        enabled, busy := ReadStatus();
        j := j + 1;
      }
      ok := !busy;
      LastEnd(t);
    }

    lemma LastEnd(t: nat)
      ensures FirstEnd(t, TIMEOUT) == TIMEOUT
    {
    }

    /** How a page or sector goes that begins at `t`: its result, and when it is over. */
    ghost function Turn(t: nat, wel: bool, wip: bool): (int, nat) {
      var k := EnableSteps(t, wel, wip);
      if k == TIMEOUT then (-1, t + 2 * TIMEOUT)
      else
        var given := t + 2 * (k + 1);
        var e := FirstEnd(given, 0);
        if e == TIMEOUT then (-2, given + TIMEOUT) else (0, given + e + 1)
    }

    /** How `count` pages or sectors go, one after the other. */
    ghost function Progress(count: nat, t: nat, wel: bool, wip: bool): Course {
      if count == 0 then Course(0, 0, t)
      else
        var (code, over) := Turn(t, wel, wip);
        if code == 0 then Progress(count - 1, over, false, false).More()
        else Course(code, if code == -1 then 0 else 1, over)
    }

    lemma ProgressTurn(count: nat, t: nat, wel: bool, wip: bool)
      requires count > 0
      ensures var (code, over) := Turn(t, wel, wip);
        Progress(count, t, wel, wip) ==
          if code == 0 then Progress(count - 1, over, false, false).More()
          else Course(code, if code == -1 then 0 else 1, over)
    {
      hide Turn;
    }

    lemma NoProgress(t: nat, wel: bool, wip: bool)
      ensures Progress(0, t, wel, wip) == Course(0, 0, t)
    {
    }

    /** A device that takes a write-enable command and ends an operation well before the driver gives up. */
    ghost predicate Responsive() {
      (forall t: nat :: FirstTake(t, 1) < TIMEOUT) && (forall t: nat :: FirstEnd(t, 0) < TIMEOUT)
    }

    /** That is, one of the commands from the second on is taken, and one of the readings finds the end. */
    lemma ResponsiveMeans(t: nat)
      ensures FirstTake(t, 1) < TIMEOUT <==> exists k :: 1 <= k < TIMEOUT && Taken(t, k)
      ensures FirstEnd(t, 0) < TIMEOUT <==> exists k :: 0 <= k < TIMEOUT && Ended(t, k)
    {
    }

    /** On such a device everything succeeds. */
    lemma {:induction false} ResponsiveSucceeds(count: nat, t: nat, wel: bool, wip: bool)
      requires Responsive()
      ensures Progress(count, t, wel, wip).code == 0 && Progress(count, t, wel, wip).n == count
      decreases count
    {
      hide FirstTake, FirstEnd;
      if count > 0 {
        TakeStep(t, 0);
        ResponsiveSucceeds(count - 1, Turn(t, wel, wip).1, false, false);
      }
    }

    /**
     One turn of the page loop of `hal_spifiash_write`. `done` says that the command was given, and `busy` that the
     device was at work then, so that the page is lost.
     */
    method WritePage(address: nat, data: seq<byte>) returns (ok: bool, ghost done: bool, ghost busy: bool)
      requires OnePage(address, |data|) && |data| > 0 && Sane()
      modifies `mem, `wel, `wip, `time, `log
      ensures Sane() && |mem| == |old(mem)| && busy == (old(wip) && !ends(old(time) + 1)) && (busy ==> done)
      ensures var (code, over) := Turn(old(time), old(wel), old(wip));
        (ok <==> code == 0) && (done <==> code != -1) && time == over && (ok ==> !wip && !wel) && (code == -2 ==> wip) && (code == -1 ==> !wip)
      ensures mem == if done && !busy then Programmed(old(mem), address, data) else old(mem)
      ensures log == if done then old(log) + [Issued(ProgramAt(address, |data|), true, busy)] else old(log)
    {
      hide PageProgram, Programmed, OnePage, FirstTake, FirstEnd;
      done, busy := false, false;
      var enabled := Enable();
      if !enabled {
        return false, false, false;
      }
      busy := wip;
      OnePageFits(address, |data|);
      PageProgramIsProgrammed(mem, address, data);
      Program(address, data);
      done := true;
      ok := WaitIdle();
    }

    /**
     The same for the page at `n` of a buffer that goes to `addr`: what has been programmed since `mem0`, less the first
     page, of `first` bytes, if the device was busy.
     */
    method WriteNext(address: nat, data: seq<byte>, ghost addr: nat, ghost buf: seq<byte>, ghost n: nat,
                     ghost mem0: seq<byte>, ghost log0: seq<Issued>, ghost busy: bool, ghost first: nat)
      returns (ok: bool, ghost m: nat, ghost busy': bool)
      requires OnePage(address, |data|) && |data| > 0 && Sane()
      requires address == addr + n && n + |data| <= |buf| && data == buf[n..n + |data|]
      requires if n == 0 then |data| == first && !busy && log == log0 else first <= n && !wip
      requires OnceWritten(mem, mem0, addr, buf, n, busy, first) && Given(log0, log, busy)
      modifies `mem, `wel, `wip, `time, `log
      ensures Sane() && |mem| == |mem0|
      ensures var (code, over) := Turn(old(time), old(wel), old(wip));
        && (ok <==> code == 0) && m == (if code == -1 then n else n + |data|) && time == over
        && (ok ==> !wip && !wel) && (code == -2 ==> wip) && (code == -1 ==> !wip)
      ensures busy' == (busy || (old(wip) && !ends(old(time) + 1))) && (busy' ==> first <= m)
      ensures OnceWritten(mem, mem0, addr, buf, m, busy', first) && Given(log0, log, busy')
    {
      hide Programmed, OnePage, Given, Turn;
      ghost var given, lostPage;
      ghost var mem1, log1 := mem, log;
      ok, given, lostPage := WritePage(address, data);
      PageGiven(log0, log1, log, address, |data|, given, lostPage, busy);
      PageDone(mem0, mem1, addr, buf, if busy then first else 0, n, n + |data|, given, lostPage);
      m := if given then n + |data| else n;
      busy' := busy || lostPage;
    }

    /**
     `hal_spifiash_write`. All commands are accepted exactly when the device is not `busy` at the first one. Then the
     first `n` bytes are programmed, all of them if the result is 0. If it is busy, the first page is lost, and the
     result can still be 0.
     */
    method Write(addr: nat, buf: seq<byte>) returns (code: int, ghost n: nat, ghost busy: bool)
      requires Sane()
      modifies `mem, `wel, `wip, `time, `log
      ensures Sane() && |mem| == |old(mem)|
      ensures var course := Progress(PageCount(addr, |buf|), old(time), old(wel), old(wip));
              && code == (if course.code == 0 then 0 else -1) && n == Reached(addr, |buf|, course.n) <= |buf|
              && time == course.over && (course.code == -2 ==> wip) && (course.code == -1 ==> !wip)
      ensures code == 0 ==> n == |buf| && (|buf| > 0 || !old(wip) ==> !wip)
      ensures busy == (|buf| > 0 && old(wip) && !ends(old(time) + 1))
      ensures busy ==> 0 < FirstLength(addr, |buf|) <= n
      ensures var lost := if busy then FirstLength(addr, |buf|) else 0;
              mem == Programmed(old(mem), addr + lost, buf[lost..n])
      ensures Given(old(log), log, busy)
    {
      hide Programmed, OnePage, Given, FirstLength, Turn, PageCount, Reached, Progress, NextLength;
      n, busy := 0, false;
      ghost var mem0, log0, first := mem, log, FirstLength(addr, |buf|);
      ghost var count, done := PageCount(addr, |buf|), 0;
      ghost var whole := Progress(count, time, wel, wip);
      NothingProgrammed(mem, addr, buf, 0);
      NothingGiven(log);
      ReachedEnds(addr, |buf|);
      if |buf| == 0 {
        NoProgress(time, wel, wip);
        return 0, 0, false;
      }
      var length: nat := addr % PAGE;
      if |buf| > PAGE - length {
        length := PAGE - length;
      } else {
        length := |buf|;
      }
      FirstPage(addr, |buf|, length);
      var address, len: nat := addr, |buf|;
      code := 0;
      while length > 0
        invariant Sane() && code == 0 && n == address - addr && n + len == |buf| && length <= len && |mem| == |mem0|
        invariant (length == 0 <==> len == 0) && OnePage(address, length) && length == NextLength(addr, |buf|, done)
        invariant length < len ==> (address + length) % PAGE == 0
        invariant n == 0 ==> done == 0 && wip == old(wip) && wel == old(wel) && time == old(time) && log == log0 && !busy && length == first
        invariant n > 0 ==> !wip && !wel && first <= n && busy == (old(wip) && !ends(old(time) + 1))
        invariant OnceWritten(mem, mem0, addr, buf, n, busy, first) && Given(log0, log, busy)
        invariant done <= count && n == Reached(addr, |buf|, done) && (len == 0 <==> done == count)
        invariant var course := Progress(count - done, time, wel, wip);
          whole == course.(n := done + course.n)
        decreases len
      {
        var ok;
        ghost var m;
        NextReached(addr, |buf|, done);
        ProgressTurn(count - done, time, wel, wip);
        ok, m, busy := WriteNext(address, buf[address - addr..address - addr + length], addr, buf, n, mem0, log0, busy, first);
        done := if m == n then done else done + 1;
        n := m;
        if !ok {
          assert whole.n == done && whole.code != 0;
          return -1, n, busy;
        }
        len := len - length;
        address := address + length;
        NextPage(address, len);
        length := if len > PAGE then PAGE else len;
      }
      NoProgress(time, wel, wip);
    }

    /** One turn of the sector loop of `hal_spiflash_erase`; `done` and `busy` as for pages. */
    method EraseOne(addr: nat) returns (code: int, ghost done: bool, ghost busy: bool)
      requires addr % SECTOR == 0 && Sane()
      modifies `mem, `wel, `wip, `time, `log
      ensures Sane() && |mem| == |old(mem)| && busy == (old(wip) && !ends(old(time) + 1)) && (busy ==> done)
      ensures (code, time) == Turn(old(time), old(wel), old(wip)) && (code == 0 || code == -1 || code == -2)
      ensures (done <==> code != -1) && (code == 0 ==> !wip && !wel) && (code == -2 ==> wip) && (code == -1 ==> !wip)
      ensures mem == if done && !busy then Erased(old(mem), addr, SECTOR) else old(mem)
      ensures log == if done then old(log) + [Issued(EraseAt(addr), true, busy)] else old(log)
    {
      hide Erased, FirstTake, FirstEnd;
      var enabled := Enable();
      if !enabled {
        return -1, false, false;
      }
      busy := wip;
      EraseSector(addr);
      assert addr / SECTOR * SECTOR == addr;
      var ok := WaitIdle();
      return if ok then 0 else -2, true, busy;
    }

    /**
     `hal_spiflash_erase`: -23 for a range that is not made of whole sectors; else the result is that of its sectors one
     after the other, and `n` of them are given to the device. The commands are all accepted, and these sectors erased,
     exactly when the device is not `busy` at the first one; else the first sector is lost.
     */
    method Erase(addr: nat, len: nat) returns (code: int, ghost n: nat, ghost busy: bool)
      requires Sane()
      modifies `mem, `wel, `wip, `time, `log
      ensures Sane() && |mem| == |old(mem)|
      ensures (code, n) ==
        if addr % SECTOR != 0 || len % SECTOR != 0 then (-23, 0)
        else
          var course := Progress(len / SECTOR, old(time), old(wel), old(wip));
          (course.code, course.n)
      ensures code == -23 <==> addr % SECTOR != 0 || len % SECTOR != 0
      ensures code != -23 ==> time == Progress(len / SECTOR, old(time), old(wel), old(wip)).over
      ensures (code == -2 ==> wip) && (code == -1 ==> !wip)
      ensures code == -23 ==> mem == old(mem) && log == old(log) && wip == old(wip) && wel == old(wel) && time == old(time)
      ensures n * SECTOR <= len && (code == 0 ==> n * SECTOR == len && (n > 0 || !old(wip) ==> !wip))
      ensures busy == (code != -23 && len > 0 && old(wip) && !ends(old(time) + 1)) && (busy ==> n > 0)
      ensures var lost := if busy then SECTOR else 0;
              mem == Erased(old(mem), addr + lost, n * SECTOR - lost)
      ensures Given(old(log), log, busy)
    {
      hide Erased, Given, Turn, Progress;
      ghost var mem0, log0, lost := mem, log, 0;
      n, busy := 0, false;
      NothingErased(mem, addr);
      NothingGiven(log);
      if addr % SECTOR != 0 || len % SECTOR != 0 {
        return -23, 0, false;
      }
      var count := len / SECTOR;
      assert count * SECTOR == len;
      for i := 0 to count
        invariant Sane() && n == i && |mem| == |mem0|
        invariant if n == 0 then wip == old(wip) && wel == old(wel) && time == old(time) && log == log0 && !busy else !wip && !wel
        invariant n > 0 ==> busy == (old(wip) && !ends(old(time) + 1))
        invariant lost == if busy then SECTOR else 0
        invariant mem == Erased(mem0, addr + lost, i * SECTOR - lost) && Given(log0, log, busy)
        invariant var course := Progress(count - i, time, wel, wip);
          Progress(count, old(time), old(wel), old(wip)) == course.(n := i + course.n)
      {
        ghost var done, lostSector;
        ghost var mem1, log1 := mem, log;
        ProgressTurn(count - i, time, wel, wip);
        code, done, lostSector := EraseOne(addr + i * SECTOR);
        SectorGiven(log0, log1, log, addr + i * SECTOR, done, lostSector, busy);
        SectorDone(mem0, mem1, addr, lost, i, done, lostSector);
        if lostSector {
          busy, lost := true, SECTOR;
        }
        if done {
          n := i + 1;
        }
        if code != 0 {
          return code, n, busy;
        }
      }
      NoProgress(time, wel, wip);
      return 0, n, busy;
    }

    /** What a device sends when it is read: its memory, or anything while it is busy. */
    method Fetch(addr: nat, len: nat) returns (buf: seq<byte>)
      requires addr + len <= |mem|
      ensures |buf| == len && (!wip ==> buf == mem[addr..addr + len])
    {
      buf := mem[addr..addr + len];
      if wip {
        var noise: seq<byte> := *;
        if |noise| == len {
          buf := noise;
        }
      }
    }

    /** `spiflash_read`: read commands of at most 512 bytes each, one behind the other. */
    method ReadChunks(addr: nat, len: nat) returns (buf: seq<byte>, ghost accesses: seq<Access>)
      requires addr + len <= |mem|
      ensures |buf| == len && (!wip ==> buf == mem[addr..addr + len])
      ensures Consecutive(accesses, addr, len) && forall i :: 0 <= i < |accesses| ==> accesses[i].Command? && accesses[i].len <= CHUNK
    {
      hide Consecutive;
      var left, offset := len, 0;
      buf, accesses := [], [];
      NoAccess(addr);
      while left > 0
        invariant offset + left == len && |buf| == offset && (!wip ==> buf == mem[addr..addr + offset])
        invariant Consecutive(accesses, addr, offset)
        invariant forall i :: 0 <= i < |accesses| ==> accesses[i].Command? && accesses[i].len <= CHUNK
      {
        var size := Min(CHUNK, left);
        var chunk := Fetch(addr + offset, size);
        buf := buf + chunk;
        OneMoreAccess(accesses, addr, offset, Access.Command(addr + offset, size));
        accesses := accesses + [Access.Command(addr + offset, size)];
        offset := offset + size;
        left := left - size;
      }
    }

    /** `hal_spiflash_read`: the memory-mapped window first, commands for what lies beyond it. */
    method Read(addr: nat, len: nat) returns (buf: seq<byte>, ghost accesses: seq<Access>)
      requires addr + len <= |mem|
      ensures |buf| == len && (!wip ==> buf == mem[addr..addr + len])
      ensures Consecutive(accesses, addr, len)
      ensures forall i :: 0 <= i < |accesses| ==> Suitable(accesses[i])
    {
      hide Consecutive;
      if addr < MAPPED {
        var length := if addr + len > MAPPED then MAPPED - addr else len;
        buf := Fetch(addr, length);
        NoAccess(addr);
        OneMoreAccess([], addr, 0, Access.Mapped(addr, length));
        accesses := [Access.Mapped(addr, length)];
        if length != len {
          var rest;
          ghost var later;
          rest, later := ReadChunks(addr + length, len - length);
          buf := buf + rest;
          MoreAccesses(accesses, later, addr, length, len - length);
          AllFrom(later, addr + length, len - length);
          accesses := accesses + later;
        }
      } else {
        buf, accesses := ReadChunks(addr, len);
        AllFrom(accesses, addr, len);
      }
    }

    // -------------------------------------------------------------------------------------------
    // Whole runs
    // -------------------------------------------------------------------------------------------

    /**
     Erase, write and read back. The data comes back if the first command of the erasure meets an idle device; nothing
     outside the erased sectors changes in any case.
     */
    method Store(start: nat, len: nat, addr: nat, data: seq<byte>) returns (ok: bool, back: seq<byte>, ghost busy: bool)
      requires start <= addr && addr + |data| <= start + len && start + len <= |mem| && Sane()
      modifies `mem, `wel, `wip, `time, `log
      ensures Sane() && |mem| == |old(mem)|
      ensures busy == (start % SECTOR == 0 && len % SECTOR == 0 && len > 0 && old(wip) && !ends(old(time) + 1))
      ensures ok ==> start % SECTOR == 0 && len % SECTOR == 0
      ensures start % SECTOR == 0 && len % SECTOR == 0 && Responsive() ==> ok
      ensures ok && !busy ==> back == data
      ensures forall i :: 0 <= i < |mem| && !(start <= i < start + len) ==> mem[i] == old(mem[i])
      ensures Given(old(log), log, busy)
    {
      hide Given, Progress, Turn, FirstLength, PageCount, Reached, Responsive, Programmed, Erased, Consecutive;
      ghost var mem0, log0, n, m, later := mem, log, 0, 0, false;
      var code;
      if Responsive() {
        ResponsiveSucceeds(len / SECTOR, time, wel, wip);
      }
      code, n, busy := Erase(start, len);
      ghost var lost := if busy then SECTOR else 0;
      OutsideKept(mem0, start + lost, n * SECTOR - lost, addr, [], start, len);
      if code != 0 {
        return false, [], busy;
      }
      ghost var log1 := log;
      if Responsive() {
        ResponsiveSucceeds(PageCount(addr, |data|), time, wel, wip);
      }
      code, m, later := Write(addr, data);
      assert !later;
      OutsideKept(mem0, start + lost, n * SECTOR - lost, addr, data[0..m], start, len);
      MoreGiven(log0, log1, log, busy);
      if code != 0 {
        return false, [], busy;
      }
      if !busy {
        WriteAfterErase(mem0, start, len, addr, data);
        assert data[0..m] == data;
      }
      ghost var accesses;
      back, accesses := Read(addr, |data|);
      ok := true;
    }

    /**
     Any sequence of calls. What it leaves in the memory is what the processed parts of the calls do one after the other,
     less the pages and sectors that met a busy device; all commands were proper exactly when there are none of these;
     and there are none unless the device was busy at the start or an earlier call failed.
     */
    method Run(calls: seq<Call>) returns (codes: seq<int>, ghost outs: seq<Outcome>)
      requires Sane() && forall i :: 0 <= i < |calls| ==> InMemory(calls[i], |mem|)
      modifies `mem, `wel, `wip, `time, `log
      ensures |codes| == |outs| == |calls| && |mem| == |old(mem)|
      ensures forall i :: 0 <= i < |calls| && codes[i] == 0 ==> Complete(calls[i], outs[i])
      ensures mem == Replay(old(mem), calls, outs)
      ensures old(log) <= log
      ensures Extends(old(log), log) <==> NothingLost(outs)
      ensures !old(wip) && NothingFailed(codes) ==> !wip && NothingLost(outs)
      ensures Sane() && (Responsive() ==> NothingFailed(codes))
      ensures forall i :: 0 <= i < |calls| ==> (codes[i] == -23 <==> Misaligned(calls[i]))
    {
      hide Extends, Complete, Misaligned, Replay, InMemory, NothingLost, NothingFailed, Effect, Given, Responsive;
      codes, outs := [], [];
      NothingYet(log);
      ghost var mem0 := mem;
      assert calls[..0] == [];
      NoReplay(mem0);
      for i := 0 to |calls|
        invariant |codes| == |outs| == i && |mem| == |mem0| && Sane() && (Responsive() ==> NothingFailed(codes))
        invariant forall k :: 0 <= k < i ==> (codes[k] == -23 <==> Misaligned(calls[k]))
        invariant forall k :: 0 <= k < i && codes[k] == 0 ==> Complete(calls[k], outs[k])
        invariant mem == Replay(mem0, calls[..i], outs)
        invariant old(log) <= log
        invariant Extends(old(log), log) <==> NothingLost(outs)
        invariant !old(wip) && NothingFailed(codes) ==> !wip && NothingLost(outs)
      {
        ghost var mem1, log1, o := mem, log, Outcome(0, false);
        var code;
        code, o := Perform(calls[i]);
        ReplayMore(mem0, calls, outs, o, i);
        MixedGiven(old(log), log1, log, o.busy);
        OneMore(codes, code, outs, o);
        codes, outs := codes + [code], outs + [o];
      }
      assert calls[..|calls|] == calls;
    }

    /** One call. */
    method Perform(call: Call) returns (code: int, ghost o: Outcome)
      requires InMemory(call, |mem|) && Sane()
      modifies `mem, `wel, `wip, `time, `log
      ensures Sane() && (code == -23 <==> Misaligned(call)) && (Responsive() ==> code == 0 || code == -23)
      ensures |mem| == |old(mem)| && mem == Effect(old(mem), call, o)
      ensures code == 0 ==> Complete(call, o)
      ensures Given(old(log), log, o.busy) && (o.busy ==> old(wip))
      ensures !old(wip) && (code == 0 || code == -23) ==> !wip
    {
      hide Given, Programmed, Erased, Progress, Turn, PageCount, Reached, Responsive;
      ghost var n, busy := 0, false;
      if Responsive() {
        if call.WriteCall? {
          ResponsiveSucceeds(PageCount(call.addr, |call.data|), time, wel, wip);
        } else if call.EraseCall? {
          ResponsiveSucceeds(call.len / SECTOR, time, wel, wip);
        }
      }
      match call
      case WriteCall(addr, data) =>
        code, n, busy := Write(addr, data);
        o := Outcome(n, busy);
      case EraseCall(addr, len) =>
        code, n, busy := Erase(addr, len);
        o := Outcome(n, busy);
      case ReadCall(addr, len) =>
        var buf;
        ghost var accesses;
        buf, accesses := Read(addr, len);
        code, o := 0, Outcome(0, false);
        NothingGiven(log);
    }
  }

  // ---------------------------------------------------------------------------------------------
  // Runs
  // ---------------------------------------------------------------------------------------------

  datatype Call = WriteCall(addr: nat, data: seq<byte>) | EraseCall(addr: nat, len: nat) | ReadCall(addr: nat, len: nat)

  /** How many bytes or sectors a call processed, and whether its first command met a busy device. */
  datatype Outcome = Outcome(n: nat, busy: bool)

  ghost predicate NothingLost(outs: seq<Outcome>) {
    forall i :: 0 <= i < |outs| ==> !outs[i].busy
  }

  ghost predicate NothingFailed(codes: seq<int>) {
    forall i :: 0 <= i < |codes| ==> codes[i] == 0 || codes[i] == -23
  }

  lemma NothingYet(log: seq<Issued>)
    ensures Extends(log, log) && NothingLost([]) && NothingFailed([])
  {
  }

  lemma OneMore(codes: seq<int>, code: int, outs: seq<Outcome>, o: Outcome)
    ensures NothingLost(outs + [o]) <==> NothingLost(outs) && !o.busy
    ensures NothingFailed(codes + [code]) <==> NothingFailed(codes) && (code == 0 || code == -23)
  {
    assert forall i :: 0 <= i < |outs| ==> (outs + [o])[i] == outs[i];
    assert forall i :: 0 <= i < |codes| ==> (codes + [code])[i] == codes[i];
    assert (outs + [o])[|outs|] == o && (codes + [code])[|codes|] == code;
  }

  predicate InMemory(call: Call, size: nat) {
    call.ReadCall? ==> call.addr + call.len <= size
  }

  /** A range that is not made of whole sectors cannot be erased. */
  predicate Misaligned(call: Call) {
    call.EraseCall? && (call.addr % SECTOR != 0 || call.len % SECTOR != 0)
  }

  predicate Complete(call: Call, o: Outcome) {
    match call
    case WriteCall(addr, data) => o.n == |data|
    case EraseCall(addr, len) => o.n * SECTOR == len
    case ReadCall(addr, len) => true
  }

  /** What a call does to the memory: its first page or sector is lost if the device was busy. */
  ghost function Effect(mem: seq<byte>, call: Call, o: Outcome): (r: seq<byte>)
    ensures |r| == |mem|
  {
    match call
    case WriteCall(addr, data) =>
      var lost := if o.busy then FirstLength(addr, |data|) else 0;
      if lost <= o.n <= |data| then Programmed(mem, addr + lost, data[lost..o.n]) else mem
    case EraseCall(addr, len) =>
      var lost := if o.busy then SECTOR else 0;
      if lost <= o.n * SECTOR then Erased(mem, addr + lost, o.n * SECTOR - lost) else mem
    case ReadCall(addr, len) => mem
  }

  ghost function Replay(mem: seq<byte>, calls: seq<Call>, outs: seq<Outcome>): (r: seq<byte>)
    requires |calls| == |outs|
    ensures |r| == |mem|
  {
    if calls == [] then mem
    else Effect(Replay(mem, calls[..|calls| - 1], outs[..|outs| - 1]), calls[|calls| - 1], outs[|outs| - 1])
  }

  lemma NoReplay(mem: seq<byte>)
    ensures Replay(mem, [], []) == mem
  {
  }

  lemma ReplayMore(mem: seq<byte>, calls: seq<Call>, outs: seq<Outcome>, o: Outcome, i: nat)
    requires |outs| == i < |calls|
    ensures Replay(mem, calls[..i + 1], outs + [o]) == Effect(Replay(mem, calls[..i], outs), calls[i], o)
  {
    assert calls[..i + 1][..i] == calls[..i];
    assert (outs + [o])[..i] == outs;
  }

  /**
   A write that times out leaves the device at work with its latch set. The next write takes the latch for its own: it
   returns 0, and its byte is not programmed.
   */
  method LostPage() returns (d: Device, first: int, second: int)
    ensures first == -1 && second == 0 && d.mem == [0x00, 0xFF]
  {
    hide Programmed, Given, FirstLength, PageCount, Reached;
    var ends := (t: nat) => t >= TIMEOUT + 4;
    d := new Device([0xFF, 0xFF], ends, t => true);
    hide Device.Progress;
    ghost var n, busy;
    OneByte(0);
    OneByte(1);
    FirstByte();
    assert forall t: nat :: d.ends(t) <==> t >= TIMEOUT + 4;
    TimedOut(d);
    first, n, busy := d.Write(0, [0x00]);
    assert [0x00 as byte][0..1] == [0x00];
    assert d.mem == [0x00, 0xFF];
    second, n, busy := d.Write(1, [0x00]);
    NothingProgrammed([0x00, 0xFF], 2, [0x00], 1);
  }

  /** How the two writes go: the first operation does not end in time, and the second write finds its latch. */
  lemma TimedOut(d: Device)
    requires d.takes(0) && forall t: nat :: d.ends(t) <==> t >= TIMEOUT + 4
    ensures d.Progress(1, 0, false, false) == Course(-2, 1, TIMEOUT + 2)
    ensures d.Progress(1, TIMEOUT + 2, true, true) == Course(0, 1, TIMEOUT + 5) && !d.ends(TIMEOUT + 3)
  {
    hide Device.FirstTake, Device.FirstEnd, Device.Progress, Device.Turn;
    FirstTurn(d);
    SecondTurn(d);
    d.ProgressTurn(1, 0, false, false);
    d.ProgressTurn(1, TIMEOUT + 2, true, true);
    d.NoProgress(TIMEOUT + 5, false, false);
  }

  lemma FirstTurn(d: Device)
    requires d.takes(0) && forall t: nat :: d.ends(t) <==> t >= TIMEOUT + 4
    ensures d.Turn(0, false, false) == (-2, TIMEOUT + 2)
  {
    hide Device.FirstTake, Device.FirstEnd;
    d.TakeStep(0, 0);
    assert d.Taken(0, 0);
    assert !d.Ended(2, d.FirstEnd(2, 0));
  }

  lemma SecondTurn(d: Device)
    requires forall t: nat :: d.ends(t) <==> t >= TIMEOUT + 4
    ensures d.Turn(TIMEOUT + 2, true, true) == (0, TIMEOUT + 5)
  {
    hide Device.FirstTake, Device.FirstEnd;
    d.EndStep(TIMEOUT + 4, 0);
    assert d.Ended(TIMEOUT + 4, 0);
  }

  lemma OneByte(addr: nat)
    requires addr < 2
    ensures FirstLength(addr, 1) == 1 && PageCount(addr, 1) == 1 && Reached(addr, 1, 1) == 1
  {
  }

  lemma FirstByte()
    ensures Programmed([0xFF, 0xFF], 0, [0x00]) == [0x00, 0xFF]
  {
  }

  // ---------------------------------------------------------------------------------------------
  // Steps of the loops
  // ---------------------------------------------------------------------------------------------

  lemma NothingGiven(log: seq<Issued>)
    ensures Given(log, log, false)
  {
  }

  /** Appending one command. */
  lemma GivenOne(before: seq<Issued>, log: seq<Issued>, c: Issued, busy: bool)
    requires Given(before, log, busy) && Proper(c)
    ensures Given(before, log + [c], busy)
  {
    assert busy ==> (log + [c])[..|before| + 1] == log[..|before| + 1];
  }

  lemma PageGiven(before: seq<Issued>, log: seq<Issued>, log': seq<Issued>, addr: nat, len: nat,
                  done: bool, lost: bool, busy: bool)
    requires Given(before, log, busy) && OnePage(addr, len) && len > 0
    requires log' == if done then log + [Issued(ProgramAt(addr, len), true, lost)] else log
    requires lost ==> done && log == before && !busy
    ensures Given(before, log', busy || lost)
  {
    if done && !lost {
      GivenOne(before, log, Issued(ProgramAt(addr, len), true, false), busy);
    }
  }

  lemma SectorGiven(before: seq<Issued>, log: seq<Issued>, log': seq<Issued>, addr: nat, done: bool, lost: bool, busy: bool)
    requires Given(before, log, busy) && addr % SECTOR == 0
    requires log' == if done then log + [Issued(EraseAt(addr), true, lost)] else log
    requires lost ==> done && log == before && !busy
    ensures Given(before, log', busy || lost)
  {
    if done && !lost {
      GivenOne(before, log, Issued(EraseAt(addr), true, false), busy);
    }
  }

  lemma MoreGiven(a: seq<Issued>, b: seq<Issued>, c: seq<Issued>, busy: bool)
    requires Given(a, b, busy) && Given(b, c, false)
    ensures Given(a, c, busy)
  {
    GivenMore(a, b, c, busy);
  }

  /** All commands up to `c` are proper exactly when those up to `b` were and the call met no busy device. */
  lemma MixedGiven(a: seq<Issued>, b: seq<Issued>, c: seq<Issued>, busy: bool)
    requires a <= b && Given(b, c, busy)
    ensures a <= c && (Extends(a, c) <==> Extends(a, b) && !busy)
  {
    GivenProper(b, c, busy);
    if Extends(a, c) {
      assert forall i :: |a| <= i < |b| ==> b[i] == c[i];
      assert forall i :: |b| <= i < |c| ==> Proper(c[i]);
    } else if Extends(a, b) && !busy {
      ExtendsMore(a, b, c);
    }
  }

  lemma PageDone(mem0: seq<byte>, mem1: seq<byte>, addr: nat, buf: seq<byte>, lost: nat, n: nat, m: nat, done: bool, lostPage: bool)
    requires lost <= n <= m <= |buf| && mem1 == Programmed(mem0, addr + lost, buf[lost..n])
    requires lostPage ==> n == 0 && done
    ensures done && !lostPage ==> Programmed(mem1, addr + n, buf[n..m]) == Programmed(mem0, addr + lost, buf[lost..m])
    ensures lostPage ==> mem1 == Programmed(mem0, addr + m, buf[m..m])
  {
    ProgrammedMore(mem0, addr, buf, lost, n, m);
    if lostPage {
      NothingProgrammed(mem0, addr + m, buf, m);
      NothingProgrammed(mem0, addr, buf, 0);
    }
  }

  lemma SectorDone(mem0: seq<byte>, mem1: seq<byte>, addr: nat, lost: nat, i: nat, done: bool, lostSector: bool)
    requires lost <= i * SECTOR && mem1 == Erased(mem0, addr + lost, i * SECTOR - lost)
    requires lostSector ==> i == 0 && done
    ensures done && !lostSector ==> Erased(mem1, addr + i * SECTOR, SECTOR) == Erased(mem0, addr + lost, (i + 1) * SECTOR - lost)
    ensures lostSector ==> mem1 == Erased(mem0, addr + SECTOR, 0)
  {
    ErasedMore(mem0, addr, lost, i * SECTOR, (i + 1) * SECTOR);
    if lostSector {
      NothingErased(mem0, addr + SECTOR);
      NothingErased(mem0, addr);
    }
  }

  lemma NothingProgrammed(mem: seq<byte>, addr: nat, buf: seq<byte>, k: nat)
    requires k <= |buf|
    ensures Programmed(mem, addr, buf[k..k]) == mem
  {
  }

  lemma NothingErased(mem: seq<byte>, addr: nat)
    ensures Erased(mem, addr, 0) == mem
  {
  }

  lemma FirstPage(addr: nat, len: nat, length: nat)
    requires len > 0 && length == if len > PAGE - addr % PAGE then PAGE - addr % PAGE else len
    ensures length == FirstLength(addr, len)
    ensures 0 < length <= len && OnePage(addr, length) && (length < len ==> (addr + length) % PAGE == 0)
    ensures OnePage(addr, len) ==> length == len
  {
    assert addr == PAGE * (addr / PAGE) + addr % PAGE;
    if length < len {
      Quotient(addr + length, addr / PAGE + 1, PAGE, 0);
    }
  }

  lemma OnePageFits(addr: nat, len: nat)
    requires OnePage(addr, len)
    ensures len <= PAGE
  {
  }

  lemma NextPage(address: nat, len: nat)
    ensures len > 0 && address % PAGE == 0 ==>
              var length := if len > PAGE then PAGE else len;
              OnePage(address, length) && (length < len ==> (address + length) % PAGE == 0)
    ensures OnePage(address, 0)
  {
  }
}
