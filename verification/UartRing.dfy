/**
 The receive ring behind the frame receiver (drivers/hal_uart.c), and what it makes of a stream of frames. A call sees
 a window of the bytes that have arrived; whatever count it passes, releasing drops the whole window.
 */
module UartRing {
  import opened Words
  import opened UartFrame
  import opened UartCalls

  /** `uart_rx_buff_len` and `SOCKET_SEND_MAX_LEN` */
  const BUF_LEN: nat := 3072
  const MAX_WINDOW: nat := 3000

  /** Bytes the ring can hold. */
  const CAPACITY: nat := 3070

  class RxRing {
    /** The memory from `uart_rx_buff_dma` on; the receiver also reads what lies behind the ring. */
    const mem: array<byte>
    /** Where the next byte goes, and the place before the first byte not yet released. Index 0 is never used. */
    var head: nat
    var tail: nat
    /** `socket_send_len` */
    var latched: nat

    ghost predicate Valid()
      reads `head, `tail
    {
      mem.Length >= BUF_LEN + 258 && 1 <= head < BUF_LEN && tail <= BUF_LEN - 2
    }

    /** The bytes that have arrived and have not been released. */
    ghost function Pending(): seq<byte>
      requires Valid()
      reads `head, `tail, mem
    {
      if head > tail then mem[tail + 1..head] else mem[tail + 1..BUF_LEN] + mem[1..head]
    }

    /** The length of the window: up to the newest byte or the end of the ring. */
    function Visible(): nat
      requires Valid()
      reads `head, `tail
    {
      Min(if head > tail then head - tail - 1 else BUF_LEN - tail - 1, MAX_WINDOW)
    }

    /** The memory as the receiver sees it. */
    ghost function View(): seq<byte>
      requires Valid()
      reads `head, `tail, mem
    {
      mem[tail + 1..]
    }

    lemma Windowed()
      requires Valid()
      ensures Window(View(), Visible()) && Visible() <= |Pending()| && View()[..Visible()] == Pending()[..Visible()]
    {
    }

    constructor (mem: array<byte>)
      requires mem.Length >= BUF_LEN + 258
      ensures this.mem == mem && Valid() && Pending() == [] && tail == 0 && latched == 0
    {
      this.mem, head, tail, latched := mem, 1, 0, 0;
    }

    /** One byte from the interrupt. A ring that is full is taken for empty afterwards. */
    method Put(b: byte)
      requires Valid()
      modifies `head, mem
      ensures Valid()
      ensures Pending() == if |old(Pending())| < CAPACITY then old(Pending()) + [b] else []
      ensures old(head) <= tail && |old(Pending())| < CAPACITY ==> head <= tail && View() == old(View())
    {
      ghost var was := Pending();
      mem[head] := b;
      head := head + 1;
      if head == BUF_LEN {
        head := 1;
      }
      if |was| < CAPACITY {
        assert Pending() == was + [b];
      } else {
        assert Pending() == [];
      }
    }

    method PutAll(bytes: seq<byte>)
      requires Valid() && |Pending()| + |bytes| <= CAPACITY
      modifies `head, mem
      ensures Valid() && Pending() == old(Pending()) + bytes
      ensures old(head) <= tail ==> head <= tail && View() == old(View())
    {
      hide Pending, View, Valid;
      ghost var was, view := Pending(), View();
      for k := 0 to |bytes|
        invariant Valid() && Pending() == was + bytes[..k]
        invariant old(head) <= tail ==> head <= tail && View() == view
      {
        Put(bytes[k]);
      }
    }

    /** How many bytes are pending. */
    method Length() returns (n: nat)
      requires Valid()
      ensures n == |Pending()|
    {
      n := if head > tail then head - tail - 1 else BUF_LEN - tail - 1 + head - 1;
    }

    /** `hal_uart_get_rx_len` */
    method RxLen() returns (n: nat)
      requires Valid()
      modifies `latched
      ensures Valid() && n == latched == Visible()
    {
      var length := if head > tail then head - tail - 1 else BUF_LEN - tail - 1;
      latched := Min(length, MAX_WINDOW);
      n := latched;
    }

    /** `hal_uart_get_rx_data_end`; it has no parameter, so the count it is called with is lost. */
    method RxDataEnd(count: nat)
      requires Valid() && latched == Visible()
      modifies `tail
      ensures Valid() && Pending() == old(Pending())[latched..] && tail <= old(tail) + latched
    {
      ghost var was := Pending();
      tail := tail + latched;
      if tail == BUF_LEN - 1 {
        tail := 0;
      }
      assert Pending() == was[latched..];
    }

    /**
     `get_frame_from_mcu` on the ring. The first candidate of the window decides; unless there is none, the whole window
     is dropped.
     */
    method GetFrame() returns (ok: bool, out: seq<byte>)
      requires Valid()
      modifies `tail, `latched
      ensures Valid() && Window(old(View()), old(Visible())) && old(Visible()) <= |old(Pending())|
      ensures tail <= old(tail) + old(Visible())
      ensures match Decode(old(View()), old(Visible()))
        case Nothing => !ok && tail == old(tail) && Pending() == old(Pending()) && View() == old(View())
        case Rejected(n) => !ok && Pending() == old(Pending())[old(Visible())..]
        case Accepted(p, n) => ok && |p| < 256 && out == [|p|] + p && Pending() == old(Pending())[old(Visible())..]
    {
      hide Decode;
      Windowed();
      DecodeCounts(View(), Visible());
      var avail := RxLen();
      var count;
      ok, out, count := UartFrame.GetFrame(mem[tail + 1..], avail);
      if count != 0 {
        RxDataEnd(count);
      }
    }

    // -------------------------------------------------------------------------------------------
    // Frames in windows
    // -------------------------------------------------------------------------------------------

    /** What has arrived, and `n` bytes more, lie before the end of the ring and fit one window. */
    predicate Reaches(pending: nat, n: nat)
      reads `tail
    {
      tail + 1 + pending + n <= BUF_LEN && pending + n <= MAX_WINDOW
    }

    lemma AllVisible()
      requires Valid() && Reaches(|Pending()|, 0)
      ensures Visible() == |Pending()| && Pending() <= View()
    {
    }

    /** A call on noise and an arrival of whole frames returns the first payload of the arrival and drops the rest of it. */
    method ServeOne(a: Traffic) returns (ok: bool, out: seq<byte>)
      requires Valid() && CleanTraffic(a) && FRAME_HEAD !in Pending() && Reaches(|Pending()|, |Bytes(a)|)
      modifies `head, `tail, `latched, mem
      ensures Valid() && FRAME_HEAD !in Pending()
      ensures ok <==> a.chunks != []
      ensures ok ==> |a.chunks[0].payload| < 256 && out == [|a.chunks[0].payload|] + a.chunks[0].payload && Pending() == []
      ensures !ok ==> Pending() == old(Pending()) + Bytes(a)
    {
      hide Decode, Visible, Looks, Frame;
      ghost var noise := Pending();
      PutAll(Bytes(a));
      AllVisible();
      Windowed();
      FirstOfArrival(View(), noise, a);
      ok, out := GetFrame();
    }

    /**
     Any sequence of arrivals of whole frames, each followed by a call, up to the first that does not fit before the end
     of the ring: the calls return the first payload of each arrival that has one, and no others.
     */
    method ServeWhole(arrivals: seq<Traffic>) returns (served: nat, got: seq<seq<byte>>)
      requires Valid() && FRAME_HEAD !in Pending() && forall i :: 0 <= i < |arrivals| ==> CleanTraffic(arrivals[i])
      modifies `head, `tail, `latched, mem
      ensures Valid() && served <= |arrivals| && got == Firsts(arrivals[..served])
      ensures served < |arrivals| ==> !Reaches(|Pending()|, |Bytes(arrivals[served])|)
    {
      hide Firsts, Pending, Valid;
      served, got := 0, [];
      NoFirsts();
      assert arrivals[..0] == [];
      while served < |arrivals|
        invariant Valid() && FRAME_HEAD !in Pending() && served <= |arrivals| && got == Firsts(arrivals[..served])
      {
        var fits := Fits(|Bytes(arrivals[served])|);
        if !fits {
          return;
        }
        var ok, out := ServeOne(arrivals[served]);
        MoreFirsts(arrivals, served);
        if ok {
          got := got + [out[1..]];
        }
        served := served + 1;
      }
      assert arrivals[..served] == arrivals;
    }

    /** Bytes arrive and a call follows; `behind` is what lies in memory behind them. */
    method ServeNext(piece: seq<byte>) returns (ok: bool, out: seq<byte>, ghost behind: seq<byte>)
      requires Valid() && Reaches(|Pending()|, |piece|)
      modifies `head, `tail, `latched, mem
      ensures Valid() && |behind| >= 258 && tail <= old(tail) + |old(Pending()) + piece|
      ensures var w := old(Pending()) + piece;
        match Decode(w + behind, |w|)
        case Nothing => !ok && Pending() == w
        case Rejected(n) => !ok && Pending() == []
        case Accepted(p, n) => ok && |p| < 256 && out == [|p|] + p && Pending() == []
    {
      hide Decode, Visible;
      ghost var w := Pending() + piece;
      PutAll(piece);
      AllVisible();
      Windowed();
      behind := View()[|w|..];
      assert View() == w + behind;
      ok, out := GetFrame();
      assert w[|w|..] == [];
    }

    /**
     A stream in arbitrary pieces, each followed by a call, up to the first that does not fit before the end of the ring.
     `calls` are the pieces with what lay in memory behind each window; `UartCalls` says what they return.
     */
    method Serve(pieces: seq<seq<byte>>, ghost at: nat)
      returns (served: nat, got: seq<seq<byte>>, ghost calls: seq<Call>)
      requires Valid()
      modifies `head, `tail, `latched, mem
      ensures Valid() && |calls| == served <= |pieces| && Readable(calls)
      ensures forall i :: 0 <= i < served ==> calls[i].piece == pieces[i]
      ensures got == Returned(Hits(at, old(Pending()), calls))
      ensures served < |pieces| ==> !Reaches(|Pending()|, |pieces[served]|)
      decreases |pieces|
    {
      hide Hits, Decode, Pending, Valid, Returned;
      served, got, calls := 0, [], [];
      NoHits(at, Pending());
      if |pieces| == 0 {
        return;
      }
      var fits := Fits(|pieces[0]|);
      if !fits {
        return;
      }
      ghost var pending, behind := Pending(), [];
      var ok, out;
      ok, out, behind := ServeNext(pieces[0]);
      var n, later;
      ghost var rest;
      n, later, rest := Serve(pieces[1..], NextAt(at, pending, Call(pieces[0], behind)));
      served, got, calls := n + 1, if ok then [out[1..]] + later else later, [Call(pieces[0], behind)] + rest;
      HitsFirst(at, pending, calls);
    }

    /**
     A whole stream: if it fits, calls that cut no frame return every payload, in order; and only those do if frames have
     no head byte inside and no candidate is completed from behind.
     */
    method ServeStream(pieces: seq<seq<byte>>, ghost t: Traffic)
      returns (served: nat, got: seq<seq<byte>>, ghost calls: seq<Call>)
      requires Valid() && Pending() == [] && CleanTraffic(t) && Flat(pieces) == Bytes(t)
      modifies `head, `tail, `latched, mem
      ensures Valid() && |calls| == served <= |pieces| && Readable(calls)
      ensures forall i :: 0 <= i < served ==> calls[i].piece == pieces[i]
      ensures served < |pieces| ==> !Reaches(|Pending()|, |pieces[served]|)
      ensures served == |pieces| && Uncut([], t, calls) ==> got == Payloads(t.chunks)
      ensures served == |pieces| && PlainTraffic(t) && Quiet([], calls) ==>
        (got == Payloads(t.chunks) <==> Uncut([], t, calls))
    {
      hide Hits, Uncut, Quiet, PlainTraffic, Returned, Payloads;
      served, got, calls := Serve(pieces, 0);
      if served == |pieces| {
        PiecesAreFlat(pieces, calls);
        if PlainTraffic(t) && Quiet([], calls) {
          EveryPayload(t, calls);
        } else if Uncut([], t, calls) {
          UncutPayloads(t, calls);
        }
      }
    }

    /** The condition as a caller can compute it. */
    method Fits(n: nat) returns (fits: bool)
      requires Valid()
      ensures fits == Reaches(|Pending()|, n)
    {
      var length := Length();
      fits := Reaches(length, n);
    }

    /**
     A window that ends at the end of the ring without a candidate: bytes that arrive later are out of sight, and no call
     ever returns a frame again, until the ring overflows.
     */
    method Stall(later: seq<seq<byte>>) returns (calls: nat)
      requires Valid() && head <= tail && Window(View(), Visible()) && Decode(View(), Visible()) == Nothing
      modifies `head, `tail, `latched, mem
      ensures Valid() && calls <= |later| && tail == old(tail) && View() == old(View())
      ensures Pending() == old(Pending()) + Joined(later[..calls])
      ensures calls < |later| ==> |Pending()| + |later[calls]| > CAPACITY
    {
      hide Decode, Joined, Pending, View;
      calls := 0;
      NotJoined();
      assert later[..0] == [];
      ghost var was, view := Pending(), View();
      while calls < |later|
        invariant Valid() && head <= tail == old(tail) && View() == view && calls <= |later|
        invariant Visible() == old(Visible()) && Pending() == was + Joined(later[..calls])
      {
        var length := Length();
        if length + |later[calls]| > CAPACITY {
          return;
        }
        JoinedMore(later, calls);
        PutAll(later[calls]);
        assert Decode(View(), Visible()) == Nothing;
        var ok, out := GetFrame();
        assert !ok;
        calls := calls + 1;
      }
    }
  }

  /** Where the next window begins. */
  ghost function NextAt(at: nat, pending: seq<byte>, c: Call): nat
    requires |c.behind| >= 258
  {
    var w := pending + c.piece;
    if Decode(w + c.behind, |w|) == Nothing then at else at + |w|
  }

  lemma NoHits(at: nat, pending: seq<byte>)
    ensures Returned(Hits(at, pending, [])) == []
  {
  }

  lemma HitsFirst(at: nat, pending: seq<byte>, calls: seq<Call>)
    requires Readable(calls) && calls != []
    ensures var w := pending + calls[0].piece;
      var later := NextAt(at, pending, calls[0]);
      Returned(Hits(at, pending, calls)) ==
        match Decode(w + calls[0].behind, |w|)
        case Nothing => Returned(Hits(later, w, calls[1..]))
        case Rejected(n) => Returned(Hits(later, [], calls[1..]))
        case Accepted(p, n) => [p] + Returned(Hits(later, [], calls[1..]))
  {
    hide Decode, Hits;
    var w := pending + calls[0].piece;
    match Decode(w + calls[0].behind, |w|)
    case Nothing => AfterNothing(at, pending, calls);
    case Rejected(n) => AfterRejected(at, pending, calls);
    case Accepted(p, n) => AfterAccepted(at, pending, calls);
  }

  function Flat(pieces: seq<seq<byte>>): seq<byte> {
    if pieces == [] then [] else pieces[0] + Flat(pieces[1..])
  }

  lemma {:induction false} PiecesAreFlat(pieces: seq<seq<byte>>, calls: seq<Call>)
    requires |calls| == |pieces| && forall i :: 0 <= i < |calls| ==> calls[i].piece == pieces[i]
    ensures Pieces(calls) == Flat(pieces)
  {
    if calls != [] {
      PiecesAreFlat(pieces[1..], calls[1..]);
    }
  }

  /** The counts that a call passes are positive. */
  lemma DecodeCounts(mem: seq<byte>, avail: nat)
    requires Window(mem, avail)
    ensures Decode(mem, avail) == Nothing || Decode(mem, avail).released > 0
  {
  }

  // ---------------------------------------------------------------------------------------------
  // Arrivals
  // ---------------------------------------------------------------------------------------------

  /** On noise and an arrival of whole frames, the first frame is accepted; without one there is nothing. */
  lemma FirstOfArrival(view: seq<byte>, noise: seq<byte>, a: Traffic)
    requires CleanTraffic(a) && FRAME_HEAD !in noise && noise + Bytes(a) <= view
    requires Window(view, |noise + Bytes(a)|)
    ensures var d := Decode(view, |noise + Bytes(a)|);
      if a.chunks == [] then d == Nothing else d.Accepted? && d.payload == a.chunks[0].payload
  {
    hide Frame, Decode;
    var w := noise + Bytes(a);
    var behind := view[|w|..];
    assert view == w + behind;
    if a.chunks == [] {
      assert Bytes(a) == a.rest;
      NoiseIsNothing(w, behind);
    } else {
      BehindClean(a);
      var c := a.chunks[0];
      var front := Chunk(noise + c.noise, c.payload);
      assert front.noise + Frame(c.payload) == noise + (c.noise + Frame(c.payload));
      FirstFrame(w, behind, front);
    }
  }

  /** The first payload of every arrival that has one. */
  function Firsts(arrivals: seq<Traffic>): seq<seq<byte>> {
    if arrivals == [] then []
    else
      var last := arrivals[|arrivals| - 1].chunks;
      Firsts(arrivals[..|arrivals| - 1]) + if last == [] then [] else [last[0].payload]
  }

  /** All payloads. */
  function All(arrivals: seq<Traffic>): seq<seq<byte>> {
    if arrivals == [] then [] else All(arrivals[..|arrivals| - 1]) + Payloads(arrivals[|arrivals| - 1].chunks)
  }

  lemma NoFirsts()
    ensures Firsts([]) == []
  {
  }

  lemma MoreFirsts(arrivals: seq<Traffic>, i: nat)
    requires i < |arrivals|
    ensures Firsts(arrivals[..i + 1]) == Firsts(arrivals[..i]) + if arrivals[i].chunks == [] then [] else [arrivals[i].chunks[0].payload]
  {
    assert arrivals[..i + 1][..i] == arrivals[..i];
  }

  lemma {:induction false} FirstsAreFewer(arrivals: seq<Traffic>)
    ensures |Firsts(arrivals)| <= |All(arrivals)|
    ensures |Firsts(arrivals)| == |All(arrivals)| ==> forall i :: 0 <= i < |arrivals| ==> |arrivals[i].chunks| <= 1
  {
    if arrivals != [] {
      var n := |arrivals| - 1;
      FirstsAreFewer(arrivals[..n]);
      PayloadCount(arrivals[n].chunks);
      forall i | |Firsts(arrivals)| == |All(arrivals)| && 0 <= i < |arrivals|
        ensures |arrivals[i].chunks| <= 1
      {
        if i < n {
          assert arrivals[..n][i] == arrivals[i];
        }
      }
    }
  }

  /** Of arrivals of whole frames every payload is returned, in order, if and only if no two arrive between two calls. */
  lemma {:induction false} OneFrameEach(arrivals: seq<Traffic>)
    ensures Firsts(arrivals) == All(arrivals) <==> forall i :: 0 <= i < |arrivals| ==> |arrivals[i].chunks| <= 1
  {
    FirstsAreFewer(arrivals);
    if forall i :: 0 <= i < |arrivals| ==> |arrivals[i].chunks| <= 1 {
      AllAreFirsts(arrivals);
    }
  }

  lemma {:induction false} AllAreFirsts(arrivals: seq<Traffic>)
    requires forall i :: 0 <= i < |arrivals| ==> |arrivals[i].chunks| <= 1
    ensures Firsts(arrivals) == All(arrivals)
  {
    if arrivals != [] {
      var n := |arrivals| - 1;
      AllAreFirsts(arrivals[..n]);
      OnePayload(arrivals[n].chunks);
    }
  }

  lemma OnePayload(cs: seq<Chunk>)
    requires |cs| <= 1
    ensures Payloads(cs) == if cs == [] then [] else [cs[0].payload]
  {
    if cs != [] {
      assert cs[1..] == [];
    }
  }

  /** An arrival of whole frames that is shorter than two of them holds at most one. */
  lemma ShortArrival(a: Traffic, m: nat)
    requires CleanTraffic(a) && forall i :: 0 <= i < |a.chunks| ==> |a.chunks[i].payload| >= m
    requires |Bytes(a)| < 2 * (m + 4)
    ensures |a.chunks| <= 1
  {
    StreamLength(a.chunks, m);
    Factor(|a.chunks|, 2, m + 4);
  }

  lemma Factor(x: nat, y: nat, c: nat)
    ensures x * c < y * c ==> x < y
  {
    if x >= y {
      assert x * c == y * c + (x - y) * c;
    }
  }

  lemma {:induction false} StreamLength(cs: seq<Chunk>, m: nat)
    requires forall i :: 0 <= i < |cs| ==> Clean(cs[i]) && |cs[i].payload| >= m
    ensures |Stream(cs)| >= |cs| * (m + 4)
  {
    hide Frame;
    if cs != [] {
      assert Clean(cs[0]);
      StreamLength(cs[1..], m);
      assert |cs| * (m + 4) == |cs[1..]| * (m + 4) + (m + 4);
    }
  }

  /** Of whole frames of one size without noise, the length decides. */
  lemma EqualArrival(a: Traffic, m: nat)
    requires CleanTraffic(a) && a.rest == []
    requires forall i :: 0 <= i < |a.chunks| ==> |a.chunks[i].payload| == m && a.chunks[i].noise == []
    ensures |a.chunks| <= 1 <==> |Bytes(a)| <= m + 4
  {
    hide Frame;
    StreamLength(a.chunks, m);
    Factor(|a.chunks|, 2, m + 4);
    if |a.chunks| == 1 {
      assert a.chunks[1..] == [];
    }
  }

  /** Two frames in one window: the second is lost. */
  method TwoFrames(p: seq<byte>, q: seq<byte>) returns (first: seq<byte>, again: bool)
    requires |p| < 256 && |q| < 256
    ensures first == [|p|] + p && !again
  {
    hide Frame, Firsts, Decode, Looks;
    var mem := new byte[BUF_LEN + 258](_ => 0);
    var ring := new RxRing(mem);
    var a := Traffic([Chunk([], p), Chunk([], q)], []);
    TwoClean(a, p, q);
    var ok;
    ok, first := ring.ServeOne(a);
    var none := Traffic([], []);
    assert Bytes(none) == [];
    ok, again := true, false;
    var out;
    ok, out := ring.ServeOne(none);
    again := ok;
  }

  /**
   A call in the middle of the second frame: it returns the first and drops the beginning of the second, which is lost
   although no window holds two frames.
   */
  method CutByCall() returns (first: seq<byte>, again: bool)
    ensures Frame([1, 2]) + Frame([3, 4]) == [0xAA, 2, 1, 2, 5, 0x55, 0xAA, 2, 3] + [4, 9, 0x55]
    ensures first == [2, 1, 2] && !again
  {
    hide Decode, Looks, Frame, First;
    var mem := new byte[BUF_LEN + 258](_ => 0);
    var ring := new RxRing(mem);
    hide RxRing.Pending, RxRing.Valid;
    TwoShortFrames();
    ghost var behind;
    var ok, out;
    ok, first, behind := ring.ServeNext([0xAA, 2, 1, 2, 5, 0x55, 0xAA, 2, 3]);
    CutWindow(behind);
    ok, out, behind := ring.ServeNext([4, 9, 0x55]);
    CutRemainder(behind);
    again := ok;
  }

  lemma CutWindow(behind: seq<byte>)
    requires |behind| >= 258
    ensures var w: seq<byte> := [] + [0xAA, 2, 1, 2, 5, 0x55, 0xAA, 2, 3];
      Decode(w + behind, |w|).Accepted? && Decode(w + behind, |w|).payload == [1, 2]
  {
    hide Decode, Looks, Frame, First;
    TwoShortFrames();
    var w: seq<byte> := [] + [0xAA, 2, 1, 2, 5, 0x55, 0xAA, 2, 3];
    assert [] + Frame([1, 2]) == w[..6];
    FirstFrame(w, behind, Chunk([], [1, 2]));
  }

  lemma CutRemainder(behind: seq<byte>)
    requires |behind| >= 258
    ensures var w: seq<byte> := [] + [4, 9, 0x55]; Decode(w + behind, |w|) == Nothing
  {
    hide Decode;
    NoiseIsNothing([] + [4, 9, 0x55], behind);
  }

  lemma TwoShortFrames()
    ensures Frame([1, 2]) == [0xAA, 2, 1, 2, 5, 0x55] && Frame([3, 4]) == [0xAA, 2, 3, 4, 9, 0x55]
  {
    assert Sum([1, 2]) == 3 by { assert [1, 2][..1] == [1]; }
    assert Sum([3, 4]) == 7 by { assert [3, 4][..1] == [3]; }
  }

  lemma TwoClean(a: Traffic, p: seq<byte>, q: seq<byte>)
    requires |p| < 256 && |q| < 256 && a == Traffic([Chunk([], p), Chunk([], q)], [])
    ensures CleanTraffic(a) && |Bytes(a)| == |p| + |q| + 8
  {
    hide Frame;
    var c, d := Chunk([], p), Chunk([], q);
    assert Clean(c) && Clean(d);
    assert a.chunks[1..] == [d] && [d][1..] == [];
    assert Stream([d]) == [] + Frame(q) + Stream([]);
    assert Stream(a.chunks) == [] + Frame(p) + Stream([d]);
  }

  // ---------------------------------------------------------------------------------------------
  // The end of the ring
  // ---------------------------------------------------------------------------------------------

  /** A frame cut off at the end of the window is no candidate, unless what lies behind the window happens to end it. */
  lemma CutFrame(view: seq<byte>, k: nat, p: seq<byte>)
    requires |p| < 256 && 2 <= k < |p| + 4 && Window(view, k)
    requires view[..k] == Frame(p)[..k] && FRAME_HEAD !in Frame(p)[1..k]
    ensures Decode(view, k) == Nothing <==> view[|p| + 3] != FRAME_TAIL
  {
    var f := Frame(p);
    assert view[0] == view[..k][0] == f[0] == FRAME_HEAD;
    assert view[1] == view[..k][1] == f[1] == |p|;
    assert Looks(view, 0) <==> view[|p| + 3] == FRAME_TAIL;
    forall j | 1 <= j < k
      ensures !Looks(view, j)
    {
      assert view[j] == view[..k][j] == f[j] == f[1..k][j - 1];
    }
    hide Looks;
    if !Looks(view, 0) {
      assert First(view, 0, k) == k;
    } else {
      assert First(view, 0, k) == 0;
    }
  }

  function Joined(parts: seq<seq<byte>>): seq<byte> {
    if parts == [] then [] else Joined(parts[..|parts| - 1]) + parts[|parts| - 1]
  }

  lemma NotJoined()
    ensures Joined([]) == []
  {
  }

  lemma JoinedMore(parts: seq<seq<byte>>, i: nat)
    requires i < |parts|
    ensures Joined(parts[..i + 1]) == Joined(parts[..i]) + parts[i]
  {
    assert parts[..i + 1][..i] == parts[..i];
  }
}
