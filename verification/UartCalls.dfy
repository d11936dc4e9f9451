/**
 What successive calls of the frame receiver (drivers/uart_adapter.c) make of a stream that reaches them in arbitrary
 pieces. A call sees the bytes that have arrived since the last window was dropped. Without a candidate it leaves them;
 with one it drops them all, whether the candidate is a frame or not.
 */
module UartCalls {
  import opened UartFrame

  // ---------------------------------------------------------------------------------------------
  // Traffic
  // ---------------------------------------------------------------------------------------------

  /** Frames behind noise, and more noise. */
  datatype Traffic = Traffic(chunks: seq<Chunk>, rest: seq<byte>)

  predicate CleanTraffic(t: Traffic) {
    (forall i :: 0 <= i < |t.chunks| ==> Clean(t.chunks[i])) && FRAME_HEAD !in t.rest
  }

  function Bytes(t: Traffic): seq<byte>
    requires CleanTraffic(t)
  {
    Stream(t.chunks) + t.rest
  }

  /** The bytes up to the end of the first frame. */
  function Span(c: Chunk): nat { |c.noise| + |c.payload| + 4 }

  /** The noise in front of the first frame. */
  function Lead(t: Traffic): seq<byte> { if t.chunks == [] then t.rest else t.chunks[0].noise }

  function Behind(t: Traffic): Traffic
    requires t.chunks != []
  {
    t.(chunks := t.chunks[1..])
  }

  lemma BehindClean(t: Traffic)
    requires CleanTraffic(t) && t.chunks != []
    ensures Clean(t.chunks[0]) && CleanTraffic(Behind(t))
    ensures Bytes(t) == t.chunks[0].noise + Frame(t.chunks[0].payload) + Bytes(Behind(t))
    ensures |t.chunks[0].noise + Frame(t.chunks[0].payload)| == Span(t.chunks[0])
  {
    hide Frame;
  }

  lemma LeadClean(t: Traffic)
    requires CleanTraffic(t)
    ensures FRAME_HEAD !in Lead(t) && Lead(t) <= Bytes(t)
  {
    hide Frame;
    if t.chunks != [] {
      BehindClean(t);
    }
  }

  /** With other noise in front. */
  function WithLead(t: Traffic, noise: seq<byte>): Traffic {
    if t.chunks == [] then t.(rest := noise)
    else t.(chunks := [t.chunks[0].(noise := noise)] + t.chunks[1..])
  }

  lemma WithLeadClean(t: Traffic, noise: seq<byte>)
    requires CleanTraffic(t) && FRAME_HEAD !in noise
    ensures CleanTraffic(WithLead(t, noise)) && Bytes(WithLead(t, noise)) == noise + Bytes(t)[|Lead(t)|..]
    ensures |WithLead(t, noise).chunks| == |t.chunks| && Lead(WithLead(t, noise)) == noise
  {
    hide Frame;
    if t.chunks != [] {
      var u := WithLead(t, noise);
      assert u.chunks[1..] == t.chunks[1..];
      BehindClean(t);
      assert Clean(u.chunks[0]);
      BehindClean(u);
      assert Bytes(t)[|Lead(t)|..] == Frame(t.chunks[0].payload) + Bytes(Behind(t));
    }
  }

  /** What is left of the traffic when its first `n` bytes are dropped and a frame that is cut counts as noise. */
  function Drop(t: Traffic, n: nat): Traffic
    requires CleanTraffic(t)
    decreases |t.chunks|
  {
    if t.chunks == [] || n <= |Lead(t)| then WithLead(t, Suffix(Lead(t), n))
    else
      BehindClean(t);
      if n <= Span(t.chunks[0]) then
        WithLead(Behind(t), Suffix(t.chunks[0].noise + Frame(t.chunks[0].payload), n) + Lead(Behind(t)))
      else Drop(Behind(t), n - Span(t.chunks[0]))
  }

  function Suffix(s: seq<byte>, n: nat): seq<byte> { if n <= |s| then s[n..] else [] }

  // ---------------------------------------------------------------------------------------------
  // Calls
  // ---------------------------------------------------------------------------------------------

  /** A call: the bytes that have arrived since the one before, and what lies in memory behind the window. */
  datatype Call = Call(piece: seq<byte>, behind: seq<byte>)

  predicate Readable(calls: seq<Call>) {
    forall i :: 0 <= i < |calls| ==> |calls[i].behind| >= 258
  }

  function Pieces(calls: seq<Call>): seq<byte> {
    if calls == [] then [] else calls[0].piece + Pieces(calls[1..])
  }

  /** A payload that a call returned: where its frame begins in the stream, and whether all of the frame had arrived. */
  datatype Hit = Hit(at: nat, payload: seq<byte>, whole: bool)

  /** What the calls return when the `pending` bytes begin at `at`. */
  function Hits(at: nat, pending: seq<byte>, calls: seq<Call>): seq<Hit>
    requires Readable(calls)
    decreases |calls|
  {
    if calls == [] then []
    else
      var w := pending + calls[0].piece;
      var view := w + calls[0].behind;
      var pos := First(view, 0, |w|);
      match Decode(view, |w|)
      case Nothing => Hits(at, w, calls[1..])
      case Rejected(_) => Hits(at + |w|, [], calls[1..])
      case Accepted(p, _) => [Hit(at + pos, p, pos + |p| + 4 <= |w|)] + Hits(at + |w|, [], calls[1..])
  }

  /** Every frame of the traffic, accepted when it had arrived. */
  function Wanted(at: nat, cs: seq<Chunk>): seq<Hit>
    decreases |cs|
  {
    if cs == [] then []
    else [Hit(at + |cs[0].noise|, cs[0].payload, true)] + Wanted(at + Span(cs[0]), cs[1..])
  }

  /**
   No call cuts a frame: a window that holds its first frame has only noise behind that frame, and a window that does not
   is no candidate. A caller can tell the first from the length of the window.
   */
  ghost predicate Uncut(pending: seq<byte>, t: Traffic, calls: seq<Call>)
    requires Readable(calls) && CleanTraffic(t)
    decreases |calls|
  {
    if calls == [] then true
    else
      var w := pending + calls[0].piece;
      if t.chunks == [] then Uncut(w, t, calls[1..])
      else if |w| < Span(t.chunks[0]) then
        Decode(w + calls[0].behind, |w|) == Nothing && Uncut(w, t, calls[1..])
      else
        |w| <= Span(t.chunks[0]) + |Lead(Behind(t))| && CleanTraffic(Drop(t, |w|)) && Uncut([], Drop(t, |w|), calls[1..])
  }

  // ---------------------------------------------------------------------------------------------
  // One window
  // ---------------------------------------------------------------------------------------------

  lemma NoiseIsNothing(w: seq<byte>, behind: seq<byte>)
    requires FRAME_HEAD !in w && |behind| >= 258
    ensures Decode(w + behind, |w|) == Nothing
  {
    hide Looks, Frame, EncodedAt;
    NoiseDoesNotLook(w + behind, w);
    assert First(w + behind, 0, |w|) == |w|;
  }

  /** A window that holds its first frame returns it. */
  lemma FirstFrame(w: seq<byte>, behind: seq<byte>, c: Chunk)
    requires Clean(c) && |behind| >= 258 && c.noise + Frame(c.payload) <= w
    ensures var view := w + behind;
            First(view, 0, |w|) == |c.noise| && Decode(view, |w|).Accepted? && Decode(view, |w|).payload == c.payload
  {
    hide Looks, Frame, EncodedAt, Decode;
    var view, g := w + behind, |c.noise|;
    var f := Frame(c.payload);
    assert view[g..g + |f|] == f by {
      assert (c.noise + f)[g..g + |f|] == f;
      assert view[..g + |f|] == c.noise + f;
    }
    NoiseDoesNotLook(view, c.noise);
    DecodeFrame(view, |w|, g, c.payload);
  }

  /** A window that ends inside its first frame: a candidate, if there is one, begins no earlier than the frame. */
  lemma FirstPart(w: seq<byte>, behind: seq<byte>, c: Chunk)
    requires Clean(c) && |behind| >= 258 && w <= c.noise + Frame(c.payload) && |w| < Span(c)
    ensures var view := w + behind;
            var pos := First(view, 0, |w|);
            && (|w| <= |c.noise| ==> Decode(view, |w|) == Nothing)
            && (pos < |w| ==> |c.noise| <= pos)
            && (pos < |w| && pos == |c.noise| ==> pos + view[pos + 1] + 4 > |w|)
  {
    hide Looks, EncodedAt, Decode;
    var view, g := w + behind, |c.noise|;
    var f := Frame(c.payload);
    if |w| <= g {
      assert w == c.noise[..|w|];
      NoiseIsNothing(w, behind);
      NoiseDoesNotLook(view, w);
    } else {
      assert view[..g] == w[..g] == c.noise;
      NoiseDoesNotLook(view, c.noise);
      if |w| > g + 1 {
        assert view[g + 1] == w[g + 1] == (c.noise + f)[g + 1] == f[1];
      }
    }
  }

  lemma NothingIsNone(view: seq<byte>, avail: nat)
    requires Window(view, avail)
    ensures Decode(view, avail) == Nothing <==> First(view, 0, avail) == avail
    ensures First(view, 0, avail) < avail && Decode(view, avail).Accepted? ==>
      |Decode(view, avail).payload| == view[First(view, 0, avail) + 1]
  {
    hide First, Looks, EncodedAt;
  }

  /** The window and what is yet to come make up the traffic. */
  ghost predicate Fed(pending: seq<byte>, t: Traffic, calls: seq<Call>)
    requires CleanTraffic(t)
  {
    pending + Pieces(calls) == Bytes(t) && (t.chunks != [] ==> |pending| < Span(t.chunks[0]))
  }

  lemma NextWindow(pending: seq<byte>, t: Traffic, calls: seq<Call>)
    requires CleanTraffic(t) && calls != [] && Fed(pending, t, calls)
    ensures var w := pending + calls[0].piece;
            && w + Pieces(calls[1..]) == Bytes(t) && w <= Bytes(t)
            && (t.chunks == [] ==> FRAME_HEAD !in w)
            && (t.chunks != [] ==>
                  Clean(t.chunks[0])
                  && (|w| < Span(t.chunks[0]) ==> w <= t.chunks[0].noise + Frame(t.chunks[0].payload) && Fed(w, t, calls[1..]))
                  && (|w| >= Span(t.chunks[0]) ==> t.chunks[0].noise + Frame(t.chunks[0].payload) <= w))
            && (t.chunks == [] ==> Fed(w, t, calls[1..]))
  {
    hide Frame;
    var w := pending + calls[0].piece;
    assert w + Pieces(calls[1..]) == pending + Pieces(calls);
    assert w == Bytes(t)[..|w|];
    if t.chunks != [] {
      BehindClean(t);
    } else {
      assert Bytes(t) == t.rest;
    }
  }

  // ---------------------------------------------------------------------------------------------
  // Dropping
  // ---------------------------------------------------------------------------------------------

  /** Dropping a frame and part of the noise behind it leaves the traffic behind it with that much less noise. */
  lemma DropOne(t: Traffic, n: nat)
    requires CleanTraffic(t) && t.chunks != []
    requires Span(t.chunks[0]) <= n <= Span(t.chunks[0]) + |Lead(Behind(t))|
    ensures CleanTraffic(Behind(t)) && CleanTraffic(Drop(t, n))
    ensures Drop(t, n) == WithLead(Behind(t), Lead(Behind(t))[n - Span(t.chunks[0])..])
    ensures n <= |Bytes(t)| && Bytes(Drop(t, n)) == Bytes(t)[n..] && |Drop(t, n).chunks| == |t.chunks| - 1
  {
    hide Frame, Bytes;
    BehindClean(t);
    var c, b, k := t.chunks[0], Behind(t), n - Span(t.chunks[0]);
    LeadClean(b);
    DropLead(t, n);
    hide Drop, WithLead;
    WithLeadClean(b, Lead(b)[k..]);
    SuffixOfLead(c.noise + Frame(c.payload), Lead(b), Bytes(b), k);
  }

  lemma DropLead(t: Traffic, n: nat)
    requires CleanTraffic(t) && t.chunks != []
    requires Span(t.chunks[0]) <= n <= Span(t.chunks[0]) + |Lead(Behind(t))|
    ensures Drop(t, n) == WithLead(Behind(t), Lead(Behind(t))[n - Span(t.chunks[0])..])
  {
    hide Frame, WithLead;
    BehindClean(t);
    var c, b := t.chunks[0], Behind(t);
    if n == Span(c) {
      assert Suffix(c.noise + Frame(c.payload), n) + Lead(b) == Lead(b)[0..];
    }
  }

  lemma SuffixOfLead(front: seq<byte>, lead: seq<byte>, bytes: seq<byte>, k: nat)
    requires lead <= bytes && k <= |lead|
    ensures lead[k..] + bytes[|lead|..] == (front + bytes)[|front| + k..]
  {
    assert bytes == lead + bytes[|lead|..];
  }

  lemma WantedAfter(at: nat, t: Traffic, n: nat)
    requires CleanTraffic(t) && t.chunks != []
    requires Span(t.chunks[0]) <= n <= Span(t.chunks[0]) + |Lead(Behind(t))|
    ensures Wanted(at + Span(t.chunks[0]), t.chunks[1..]) == Wanted(at + n, Drop(t, n).chunks)
  {
    hide Drop, CleanTraffic, Bytes;
    DropOne(t, n);
    var b, d := Behind(t), Drop(t, n);
    if b.chunks != [] {
      assert d.chunks[1..] == b.chunks[1..];
    }
  }

  // ---------------------------------------------------------------------------------------------
  // Every frame is accepted exactly when no call cuts one
  // ---------------------------------------------------------------------------------------------

  lemma {:induction false} UncutHits(at: nat, pending: seq<byte>, t: Traffic, calls: seq<Call>)
    requires Readable(calls) && CleanTraffic(t) && Fed(pending, t, calls) && Uncut(pending, t, calls)
    ensures Hits(at, pending, calls) == Wanted(at, t.chunks)
    decreases |calls|
  {
    hide Decode, First, Frame, Drop, Fed, Wanted;
    if calls == [] {
      NothingLeft(pending, t);
      NoneWanted(at);
    } else {
      hide Hits;
      var w := pending + calls[0].piece;
      NextWindow(pending, t, calls);
      if t.chunks == [] {
        NoiseIsNothing(w, calls[0].behind);
        AfterNothing(at, pending, calls);
        UncutHits(at, w, t, calls[1..]);
      } else if |w| < Span(t.chunks[0]) {
        AfterNothing(at, pending, calls);
        UncutHits(at, w, t, calls[1..]);
      } else {
        FirstFrame(w, calls[0].behind, t.chunks[0]);
        AfterAccepted(at, pending, calls);
        FirstWanted(at, t.chunks);
        FedAfter(w, t, calls);
        WantedAfter(at, t, |w|);
        UncutHits(at + |w|, [], Drop(t, |w|), calls[1..]);
      }
    }
  }

  lemma NoneWanted(at: nat)
    ensures Wanted(at, []) == []
  {
  }

  lemma NothingLeft(pending: seq<byte>, t: Traffic)
    requires CleanTraffic(t) && Fed(pending, t, [])
    ensures t.chunks == []
  {
    hide Frame;
    if t.chunks != [] {
      BehindClean(t);
    }
  }

  lemma FedAfter(w: seq<byte>, t: Traffic, calls: seq<Call>)
    requires CleanTraffic(t) && calls != [] && t.chunks != [] && w + Pieces(calls[1..]) == Bytes(t)
    requires Span(t.chunks[0]) <= |w| <= Span(t.chunks[0]) + |Lead(Behind(t))|
    ensures CleanTraffic(Drop(t, |w|)) && Fed([], Drop(t, |w|), calls[1..])
  {
    hide Drop;
    DropOne(t, |w|);
    assert [] + Pieces(calls[1..]) == Bytes(t)[|w|..];
  }

  /** Later calls return nothing that begins before they do. */
  lemma {:induction false} HitsAreLater(at: nat, pending: seq<byte>, calls: seq<Call>)
    requires Readable(calls)
    ensures forall i :: 0 <= i < |Hits(at, pending, calls)| ==> Hits(at, pending, calls)[i].at >= at
    decreases |calls|
  {
    hide Decode, First;
    if calls != [] {
      var w := pending + calls[0].piece;
      HitsAreLater(at, w, calls[1..]);
      HitsAreLater(at + |w|, [], calls[1..]);
    }
  }

  lemma AfterNothing(at: nat, pending: seq<byte>, calls: seq<Call>)
    requires Readable(calls) && calls != []
    requires var w := pending + calls[0].piece; Decode(w + calls[0].behind, |w|) == Nothing
    ensures Hits(at, pending, calls) == Hits(at, pending + calls[0].piece, calls[1..])
  {
    hide Decode, First;
  }

  lemma AfterRejected(at: nat, pending: seq<byte>, calls: seq<Call>)
    requires Readable(calls) && calls != []
    requires var w := pending + calls[0].piece; Decode(w + calls[0].behind, |w|).Rejected?
    ensures Hits(at, pending, calls) == Hits(at + |pending + calls[0].piece|, [], calls[1..])
  {
    hide Decode, First;
  }

  lemma AfterAccepted(at: nat, pending: seq<byte>, calls: seq<Call>)
    requires Readable(calls) && calls != []
    requires var w := pending + calls[0].piece; Decode(w + calls[0].behind, |w|).Accepted?
    ensures var w := pending + calls[0].piece;
            var view := w + calls[0].behind;
            var pos, p := First(view, 0, |w|), Decode(view, |w|).payload;
            Hits(at, pending, calls) == [Hit(at + pos, p, pos + |p| + 4 <= |w|)] + Hits(at + |w|, [], calls[1..])
  {
    hide Decode, First;
  }

  /** If the first frame is accepted when it has arrived, a call before that finds no candidate. */
  lemma ShortWindow(at: nat, pending: seq<byte>, t: Traffic, calls: seq<Call>)
    requires Readable(calls) && CleanTraffic(t) && calls != [] && t.chunks != [] && Fed(pending, t, calls)
    requires |pending + calls[0].piece| < Span(t.chunks[0])
    requires Hits(at, pending, calls) != [] && Hits(at, pending, calls)[0] == Hit(at + |t.chunks[0].noise|, t.chunks[0].payload, true)
    ensures var w := pending + calls[0].piece; Decode(w + calls[0].behind, |w|) == Nothing
  {
    hide Decode, First, Frame, Hits, Fed;
    var w := pending + calls[0].piece;
    var view := w + calls[0].behind;
    NextWindow(pending, t, calls);
    FirstPart(w, calls[0].behind, t.chunks[0]);
    NothingIsNone(view, |w|);
    if Decode(view, |w|).Rejected? {
      AfterRejected(at, pending, calls);
      HitsAreLater(at + |w|, [], calls[1..]);
    } else if Decode(view, |w|).Accepted? {
      AfterAccepted(at, pending, calls);
    }
  }

  /** If the second frame is accepted too, a call that returns the first has only noise behind it. */
  lemma LongWindow(at: nat, pending: seq<byte>, t: Traffic, calls: seq<Call>)
    requires Readable(calls) && CleanTraffic(t) && calls != [] && t.chunks != [] && Fed(pending, t, calls)
    requires |pending + calls[0].piece| >= Span(t.chunks[0])
    requires Hits(at, pending, calls) == Wanted(at, t.chunks)
    ensures var w := pending + calls[0].piece;
            |w| <= Span(t.chunks[0]) + |Lead(Behind(t))|
            && Hits(at + |w|, [], calls[1..]) == Wanted(at + Span(t.chunks[0]), t.chunks[1..])
  {
    hide Decode, First, Frame, Hits, Fed;
    var w := pending + calls[0].piece;
    NextWindow(pending, t, calls);
    FirstFrame(w, calls[0].behind, t.chunks[0]);
    AfterAccepted(at, pending, calls);
    var later := Hits(at + |w|, [], calls[1..]);
    assert later == Hits(at, pending, calls)[1..] == Wanted(at, t.chunks)[1..];
    if |t.chunks| == 1 {
      BehindInWindow(w, t, calls);
    } else {
      HitsAreLater(at + |w|, [], calls[1..]);
      assert later[0] == Wanted(at + Span(t.chunks[0]), t.chunks[1..])[0];
    }
  }

  lemma {:induction false} HitsUncut(at: nat, pending: seq<byte>, t: Traffic, calls: seq<Call>)
    requires Readable(calls) && CleanTraffic(t) && Fed(pending, t, calls)
    requires Hits(at, pending, calls) == Wanted(at, t.chunks)
    ensures Uncut(pending, t, calls)
    decreases |calls|
  {
    hide Decode, First, Frame, Drop, Fed, Hits, Wanted;
    if calls != [] {
      var w := pending + calls[0].piece;
      NextWindow(pending, t, calls);
      if t.chunks == [] {
        NoiseIsNothing(w, calls[0].behind);
        AfterNothing(at, pending, calls);
        HitsUncut(at, w, t, calls[1..]);
      } else if |w| < Span(t.chunks[0]) {
        FirstWanted(at, t.chunks);
        ShortWindow(at, pending, t, calls);
        AfterNothing(at, pending, calls);
        HitsUncut(at, w, t, calls[1..]);
      } else {
        LongWindow(at, pending, t, calls);
        FedAfter(w, t, calls);
        WantedAfter(at, t, |w|);
        HitsUncut(at + |w|, [], Drop(t, |w|), calls[1..]);
      }
    }
  }

  lemma FirstWanted(at: nat, cs: seq<Chunk>)
    requires cs != []
    ensures Wanted(at, cs) == [Hit(at + |cs[0].noise|, cs[0].payload, true)] + Wanted(at + Span(cs[0]), cs[1..])
  {
  }

  /** Behind the last frame there is only noise. */
  lemma BehindInWindow(w: seq<byte>, t: Traffic, calls: seq<Call>)
    requires CleanTraffic(t) && t.chunks != [] && calls != [] && w + Pieces(calls[1..]) == Bytes(t)
    ensures |t.chunks| == 1 ==> |w| <= Span(t.chunks[0]) + |Lead(Behind(t))|
  {
    hide Frame;
    BehindClean(t);
  }

  /** On every stream and for every way of cutting it: each frame is accepted when it has arrived, if and only if no call cuts one. */
  lemma EveryFrame(t: Traffic, calls: seq<Call>)
    requires Readable(calls) && CleanTraffic(t) && Pieces(calls) == Bytes(t)
    ensures Hits(0, [], calls) == Wanted(0, t.chunks) <==> Uncut([], t, calls)
  {
    hide Hits, Uncut;
    assert [] + Pieces(calls) == Bytes(t);
    if Uncut([], t, calls) {
      UncutHits(0, [], t, calls);
    } else if Hits(0, [], calls) == Wanted(0, t.chunks) {
      HitsUncut(0, [], t, calls);
    }
  }

  // ---------------------------------------------------------------------------------------------
  // Payloads, where only frames look like frames
  // ---------------------------------------------------------------------------------------------

  /** No head byte inside a frame. */
  predicate Plain(c: Chunk)
    requires |c.payload| < 256
  {
    FRAME_HEAD !in Frame(c.payload)[1..]
  }

  predicate PlainTraffic(t: Traffic)
    requires CleanTraffic(t)
  {
    forall i :: 0 <= i < |t.chunks| ==> Plain(t.chunks[i])
  }

  /** No candidate is completed by what happens to lie behind the window. */
  ghost predicate Quiet(pending: seq<byte>, calls: seq<Call>)
    requires Readable(calls)
    decreases |calls|
  {
    if calls == [] then true
    else
      var w := pending + calls[0].piece;
      var view := w + calls[0].behind;
      var pos := First(view, 0, |w|);
      if pos == |w| then Quiet(w, calls[1..])
      else pos + view[pos + 1] + 4 <= |w| && Quiet([], calls[1..])
  }

  lemma PlainBehind(t: Traffic)
    requires CleanTraffic(t) && PlainTraffic(t) && t.chunks != []
    ensures CleanTraffic(Behind(t)) && PlainTraffic(Behind(t)) && Clean(t.chunks[0]) && Plain(t.chunks[0])
  {
    hide Plain, Clean;
  }

  lemma PlainLead(t: Traffic, noise: seq<byte>)
    requires CleanTraffic(t) && PlainTraffic(t) && FRAME_HEAD !in noise
    ensures CleanTraffic(WithLead(t, noise)) && PlainTraffic(WithLead(t, noise))
  {
    hide Frame;
    WithLeadClean(t, noise);
    var u := WithLead(t, noise);
    forall i | 0 <= i < |u.chunks|
      ensures Plain(u.chunks[i])
    {
      assert u.chunks[i].payload == t.chunks[i].payload && Plain(t.chunks[i]);
    }
  }

  /** Dropping any number of bytes of such traffic leaves such traffic, with one frame less for every head dropped. */
  lemma {:induction false} DropPlain(t: Traffic, n: nat)
    requires CleanTraffic(t) && PlainTraffic(t) && n <= |Bytes(t)|
    ensures CleanTraffic(Drop(t, n)) && PlainTraffic(Drop(t, n)) && Bytes(Drop(t, n)) == Bytes(t)[n..]
    ensures |Drop(t, n).chunks| <= |t.chunks| - if t.chunks != [] && n > |Lead(t)| then 1 else 0
    decreases |t.chunks|
  {
    hide Frame, Bytes, WithLead, PlainTraffic, CleanTraffic;
    LeadClean(t);
    if t.chunks == [] || n <= |Lead(t)| {
      DropFew(t, n);
    } else {
      BehindClean(t);
      PlainBehind(t);
      if n <= Span(t.chunks[0]) {
        DropCut(t, n);
      } else {
        DropPlain(Behind(t), n - Span(t.chunks[0]));
        assert Bytes(t)[n..] == Bytes(Behind(t))[n - Span(t.chunks[0])..];
      }
    }
  }

  lemma DropFew(t: Traffic, n: nat)
    requires CleanTraffic(t) && PlainTraffic(t) && n <= |Bytes(t)| && (t.chunks == [] || n <= |Lead(t)|)
    ensures CleanTraffic(Drop(t, n)) && PlainTraffic(Drop(t, n)) && Bytes(Drop(t, n)) == Bytes(t)[n..]
    ensures |Drop(t, n).chunks| == |t.chunks|
  {
    hide Frame;
    LeadClean(t);
    if t.chunks == [] {
      assert Bytes(t) == t.rest;
    }
    var lead := Lead(t)[n..];
    assert Suffix(Lead(t), n) == lead;
    WithLeadClean(t, lead);
    PlainLead(t, lead);
    SuffixOfLead([], Lead(t), Bytes(t), n);
    assert [] + Bytes(t) == Bytes(t);
  }

  lemma DropCut(t: Traffic, n: nat)
    requires CleanTraffic(t) && PlainTraffic(t) && t.chunks != [] && |Lead(t)| < n <= Span(t.chunks[0])
    ensures CleanTraffic(Drop(t, n)) && PlainTraffic(Drop(t, n))
    ensures n <= |Bytes(t)| && Bytes(Drop(t, n)) == Bytes(t)[n..] && |Drop(t, n).chunks| == |t.chunks| - 1
  {
    hide Frame, Bytes;
    BehindClean(t);
    PlainBehind(t);
    var c, b := t.chunks[0], Behind(t);
    var f := Frame(c.payload);
    var junk := (c.noise + f)[n..];
    LeadClean(b);
    assert junk == f[1..][n - |c.noise| - 1..];
    assert Suffix(c.noise + f, n) == junk;
    WithLeadClean(b, junk + Lead(b));
    PlainLead(b, junk + Lead(b));
    assert Bytes(b) == Lead(b) + Bytes(b)[|Lead(b)|..];
    assert Bytes(t)[n..] == junk + Bytes(b);
  }

  /** A window that ends inside a frame without head bytes has no candidate of its own. */
  lemma PlainPart(w: seq<byte>, behind: seq<byte>, c: Chunk)
    requires Clean(c) && Plain(c) && |behind| >= 258 && w <= c.noise + Frame(c.payload) && |w| < Span(c)
    ensures var pos := First(w + behind, 0, |w|); pos == |w| || pos == |c.noise|
  {
    hide First, EncodedAt;
    var view, g := w + behind, |c.noise|;
    var f := Frame(c.payload);
    forall j | 0 <= j < |w| && j != g
      ensures !Looks(view, j)
    {
      assert view[j] == w[j] == (c.noise + f)[j];
      if j > g {
        assert (c.noise + f)[j] == f[1..][j - g - 1];
      } else {
        assert view[j] in c.noise;
      }
    }
    hide Looks;
    CandidateLooks(view, |w|);
  }

  lemma CandidateLooks(view: seq<byte>, avail: nat)
    requires Window(view, avail)
    ensures First(view, 0, avail) <= avail && (First(view, 0, avail) < avail ==> Looks(view, First(view, 0, avail)))
  {
  }

  /** Such calls return at most one payload per frame, and as many as there are frames only if no call cuts one. */
  lemma {:induction false} PlainHits(at: nat, pending: seq<byte>, t: Traffic, calls: seq<Call>)
    requires Readable(calls) && CleanTraffic(t) && PlainTraffic(t) && Fed(pending, t, calls) && Quiet(pending, calls)
    ensures |Hits(at, pending, calls)| <= |t.chunks|
    ensures |Hits(at, pending, calls)| == |t.chunks| ==> Uncut(pending, t, calls)
    decreases |calls|
  {
    hide Decode, First, Frame, Drop, Fed, Plain, PlainTraffic, Clean;
    if calls != [] {
      hide Hits;
      var w := pending + calls[0].piece;
      var view := w + calls[0].behind;
      NextWindow(pending, t, calls);
      NothingIsNone(view, |w|);
      if t.chunks == [] {
        NoiseIsNothing(w, calls[0].behind);
        AfterNothing(at, pending, calls);
        PlainHits(at, w, t, calls[1..]);
      } else if |w| < Span(t.chunks[0]) {
        PlainBehind(t);
        PlainPart(w, calls[0].behind, t.chunks[0]);
        FirstPart(w, calls[0].behind, t.chunks[0]);
        AfterNothing(at, pending, calls);
        PlainHits(at, w, t, calls[1..]);
      } else {
        FirstFrame(w, calls[0].behind, t.chunks[0]);
        AfterAccepted(at, pending, calls);
        PlainDropped(w, t, calls);
        PlainHits(at + |w|, [], Drop(t, |w|), calls[1..]);
      }
    }
  }

  lemma PlainDropped(w: seq<byte>, t: Traffic, calls: seq<Call>)
    requires CleanTraffic(t) && PlainTraffic(t) && calls != [] && t.chunks != [] && w + Pieces(calls[1..]) == Bytes(t)
    requires Span(t.chunks[0]) <= |w|
    ensures var d := Drop(t, |w|);
            && CleanTraffic(d) && PlainTraffic(d) && Fed([], d, calls[1..])
            && |d.chunks| <= |t.chunks| - 1
            && (|d.chunks| == |t.chunks| - 1 ==> |w| <= Span(t.chunks[0]) + |Lead(Behind(t))|)
  {
    hide Frame, PlainTraffic, Bytes;
    DropPlain(t, |w|);
    assert [] + Pieces(calls[1..]) == Bytes(t)[|w|..];
    if |w| > Span(t.chunks[0]) + |Lead(Behind(t))| {
      BehindInWindow(w, t, calls);
      BehindClean(t);
      PlainBehind(t);
      DropPlain(Behind(t), |w| - Span(t.chunks[0]));
    }
  }

  function Returned(hits: seq<Hit>): seq<seq<byte>> {
    if hits == [] then [] else [hits[0].payload] + Returned(hits[1..])
  }

  function Payloads(cs: seq<Chunk>): seq<seq<byte>> {
    if cs == [] then [] else [cs[0].payload] + Payloads(cs[1..])
  }

  lemma {:induction false} ReturnedWanted(at: nat, cs: seq<Chunk>)
    ensures Returned(Wanted(at, cs)) == Payloads(cs)
    decreases |cs|
  {
    if cs != [] {
      ReturnedWanted(at + Span(cs[0]), cs[1..]);
      assert Wanted(at, cs)[1..] == Wanted(at + Span(cs[0]), cs[1..]);
    }
  }

  lemma {:induction false} ReturnedCount(hits: seq<Hit>)
    ensures |Returned(hits)| == |hits|
  {
    if hits != [] {
      ReturnedCount(hits[1..]);
    }
  }

  lemma {:induction false} PayloadCount(cs: seq<Chunk>)
    ensures |Payloads(cs)| == |cs|
  {
    if cs != [] {
      PayloadCount(cs[1..]);
    }
  }

  /** On every stream, calls that cut no frame return every payload, in order. */
  lemma UncutPayloads(t: Traffic, calls: seq<Call>)
    requires Readable(calls) && CleanTraffic(t) && Pieces(calls) == Bytes(t) && Uncut([], t, calls)
    ensures Returned(Hits(0, [], calls)) == Payloads(t.chunks)
  {
    hide Hits, Uncut;
    EveryFrame(t, calls);
    ReturnedWanted(0, t.chunks);
  }

  /** If frames have no head byte inside and no candidate is completed from behind, only those do. */
  lemma EveryPayload(t: Traffic, calls: seq<Call>)
    requires Readable(calls) && CleanTraffic(t) && Pieces(calls) == Bytes(t)
    requires PlainTraffic(t) && Quiet([], calls)
    ensures Returned(Hits(0, [], calls)) == Payloads(t.chunks) <==> Uncut([], t, calls)
  {
    hide Hits, Uncut, Quiet, PlainTraffic;
    assert [] + Pieces(calls) == Bytes(t);
    if Uncut([], t, calls) {
      UncutPayloads(t, calls);
    } else {
      PlainHits(0, [], t, calls);
      ReturnedCount(Hits(0, [], calls));
      PayloadCount(t.chunks);
    }
  }

  // ---------------------------------------------------------------------------------------------
  // A condition on lengths alone
  // ---------------------------------------------------------------------------------------------

  /** No window is longer than `bound`. */
  ghost predicate Within(pending: seq<byte>, calls: seq<Call>, bound: nat)
    requires Readable(calls)
    decreases |calls|
  {
    if calls == [] then true
    else
      var w := pending + calls[0].piece;
      |w| <= bound
      && if Decode(w + calls[0].behind, |w|) == Nothing then Within(w, calls[1..], bound) else Within([], calls[1..], bound)
  }

  predicate Uniform(t: Traffic, m: nat) {
    t.rest == [] && forall i :: 0 <= i < |t.chunks| ==> |t.chunks[i].payload| == m && t.chunks[i].noise == []
  }

  /** Frames of `m` bytes of payload without noise: calls cut none exactly when no window is longer than a frame. */
  lemma {:induction false} EqualFrames(pending: seq<byte>, t: Traffic, calls: seq<Call>, m: nat)
    requires Readable(calls) && CleanTraffic(t) && PlainTraffic(t) && Fed(pending, t, calls) && Quiet(pending, calls)
    requires Uniform(t, m)
    ensures Uncut(pending, t, calls) <==> Within(pending, calls, m + 4)
    decreases |calls|
  {
    hide Decode, First, Frame, Drop, Fed, Plain, Clean, PlainTraffic;
    if calls != [] {
      var w := pending + calls[0].piece;
      NextWindow(pending, t, calls);
      NothingIsNone(w + calls[0].behind, |w|);
      if t.chunks == [] {
        NoiseIsNothing(w, calls[0].behind);
        assert |w| == 0;
        EqualFrames(w, t, calls[1..], m);
      } else if |w| < Span(t.chunks[0]) {
        PlainBehind(t);
        PlainPart(w, calls[0].behind, t.chunks[0]);
        FirstPart(w, calls[0].behind, t.chunks[0]);
        EqualFrames(w, t, calls[1..], m);
      } else {
        FirstFrame(w, calls[0].behind, t.chunks[0]);
        if |w| == m + 4 {
          EqualDropped(w, t, calls, m);
          EqualFrames([], Drop(t, |w|), calls[1..], m);
        }
      }
    }
  }

  lemma EqualDropped(w: seq<byte>, t: Traffic, calls: seq<Call>, m: nat)
    requires CleanTraffic(t) && PlainTraffic(t) && calls != [] && t.chunks != [] && w + Pieces(calls[1..]) == Bytes(t)
    requires Uniform(t, m)
    requires |w| == m + 4
    ensures var d := Drop(t, |w|);
            && CleanTraffic(d) && PlainTraffic(d) && Fed([], d, calls[1..])
            && Uniform(d, m) && Lead(Behind(t)) == []
  {
    UniformBehind(t, m);
    hide Frame, Drop, PlainTraffic, CleanTraffic, Bytes, Uniform, WithLead, Fed;
    PlainDropped(w, t, calls);
    DropOne(t, |w|);
    assert Lead(Behind(t))[0..] == [];
  }

  lemma UniformBehind(t: Traffic, m: nat)
    requires t.chunks != [] && Uniform(t, m)
    ensures Span(t.chunks[0]) == m + 4 && Lead(Behind(t)) == [] && Uniform(WithLead(Behind(t), []), m)
  {
  }
}
