/**
 The framed byte protocol of drivers/uart_adapter.c: head, length, payload, checksum, tail. The sender
 appends a frame byte by byte; the receiver looks for a head whose tail is where the length says.
 */
module UartFrame {
  import opened Words

  type byte = x: nat | x < 256

  const FRAME_HEAD: byte := 0xAA
  const FRAME_TAIL: byte := 0x55
  const FRAME_MIN_LEN: nat := 2

  function Sum(s: seq<byte>): nat {
    if s == [] then 0 else Sum(s[..|s| - 1]) + s[|s| - 1]
  }

  function Checksum(p: seq<byte>): byte { U8(Sum(p) + |p|) }

  lemma {:induction false} SumOfUpdate(s: seq<byte>, i: nat, b: byte)
    requires i < |s|
    ensures Sum(s[i := b]) == Sum(s) - s[i] + b
  {
    var n := |s| - 1;
    if i == n {
      assert s[i := b][..n] == s[..n];
    } else {
      assert s[i := b][..n] == s[..n][i := b];
      SumOfUpdate(s[..n], i, b);
    }
  }

  /** A single wrong byte always shows in the checksum. */
  lemma ChecksumDetects(p: seq<byte>, i: nat, b: byte)
    requires i < |p| && b != p[i]
    ensures Checksum(p[i := b]) != Checksum(p)
  {
    SumOfUpdate(p, i, b);
    var x, y := Sum(p) + |p|, Sum(p[i := b]) + |p|;
    hide Sum;
    assert x == 256 * (x / 256) + U8(x) && y == 256 * (y / 256) + U8(y);
  }

  /** The bytes of one frame. */
  function Frame(p: seq<byte>): (f: seq<byte>)
    requires |p| < 256
    ensures |f| == |p| + 4
  {
    [FRAME_HEAD, |p|] + p + [Checksum(p), FRAME_TAIL]
  }

  /** A frame grows by appending head, length, payload, checksum and tail. */
  lemma FrameParts(p: seq<byte>)
    requires |p| < 256
    ensures var f := Frame(p);
      && f[..1] == [FRAME_HEAD]
      && f[..2] == f[..1] + [|p|]
      && f[..|p| + 3] == f[..|p| + 2] + [Checksum(p)]
      && f == f[..|p| + 3] + [FRAME_TAIL]
  {
  }

  lemma FramePayload(p: seq<byte>, k: nat)
    requires |p| < 256 && k <= |p|
    ensures Frame(p)[..k + 2] == Frame(p)[..2] + p[..k]
  {
  }

  // ---------------------------------------------------------------------------------------------
  // Sending
  // ---------------------------------------------------------------------------------------------

  class TxBuffer {
    var data: seq<byte>
    /** Bytes that still fit (`hal_uart_get_txbuff_avail_len`). */
    var space: nat

    constructor (space: nat)
      ensures data == [] && this.space == space
    {
      data := [];
      this.space := space;
    }

    /** The body of every filler: one byte, if there is room. */
    method Fill(b: byte) returns (ok: bool)
      modifies this
      ensures ok == (old(space) > 0)
      ensures ok ==> data == old(data) + [b] && space == old(space) - 1
      ensures !ok ==> data == old(data) && space == old(space)
    {
      if space == 0 {
        return false;
      }
      data := data + [b];
      space := space - 1;
      return true;
    }

    /** `filling_user_data_to_uart_buf`; the payload starts at index 1 of the caller's buffer. */
    method FillData(buf: seq<byte>, len: nat) returns (ok: bool)
      requires len < |buf|
      modifies this
      ensures ok == (old(space) >= len)
      ensures data == old(data) + buf[1..1 + Min(len, old(space))] && space == old(space) - Min(len, old(space))
    {
      var i := 1;
      while i < len + 1
        invariant 1 <= i <= len + 1 && i - 1 <= old(space)
        invariant data == old(data) + buf[1..i] && space == old(space) - (i - 1)
      {
        var filled := Fill(buf[i]);
        if !filled {
          return false;
        }
        i := i + 1;
      }
      return true;
    }

    /** `filling_checksum_to_uart_buf` */
    method FillChecksum(buf: seq<byte>, len: nat) returns (ok: bool)
      requires len < |buf|
      modifies this
      ensures ok == (old(space) > 0)
      ensures ok ==> data == old(data) + [Checksum(buf[1..len + 1])] && space == old(space) - 1
      ensures !ok ==> data == old(data) && space == old(space)
    {
      if space == 0 {
        return false;
      }
      var checksum := 0;
      for i := 1 to len + 1
        invariant checksum == Sum(buf[1..i])
      {
        assert buf[1..i + 1][..i - 1] == buf[1..i];
        checksum := checksum + buf[i];
      }
      checksum := checksum + len;
      ok := Fill(U8(checksum));
    }

    /**
     `send_frame_to_mcu`: 1 when the whole frame has been appended. Without room for all of it, the part
     that fits stays in the buffer.
     */
    method SendFrame(buf: seq<byte>, len: byte) returns (sent: bool)
      requires len < |buf|
      modifies this
      ensures sent <==> len >= FRAME_MIN_LEN && old(space) >= len + 4
      ensures data == old(data) +
        if len < FRAME_MIN_LEN then [] else Frame(buf[1..len + 1])[..Min(len + 4, old(space))]
    {
      hide Checksum, Frame;
      if len < FRAME_MIN_LEN {
        return false;
      }
      ghost var p := buf[1..len + 1];
      ghost var f := Frame(p);
      ghost var room := space;
      FrameParts(p);
      sent := Fill(FRAME_HEAD);
      if !sent {
        return;
      }
      assert data == old(data) + f[..1];
      sent := Fill(len);
      if !sent {
        return;
      }
      assert data == old(data) + f[..2];
      sent := FillData(buf, len);
      if !sent {
        FramePayload(p, room - 2);
        assert buf[1..1 + (room - 2)] == p[..room - 2];
        assert data == old(data) + f[..room];
        return;
      }
      FramePayload(p, len);
      assert p == p[..len];
      assert data == old(data) + f[..len + 2];
      sent := FillChecksum(buf, len);
      if !sent {
        return;
      }
      assert data == old(data) + f[..len + 3];
      sent := Fill(FRAME_TAIL);
      assert sent ==> data == old(data) + f[..len + 4];
    }
  }

  // ---------------------------------------------------------------------------------------------
  // Receiving
  // ---------------------------------------------------------------------------------------------

  /**
   The receive memory from the read position on; `avail` bytes of it are new. A length byte can point up
   to 258 bytes past the last new byte, and the receiver reads the tail there all the same.
   */
  ghost predicate Window(mem: seq<byte>, avail: nat) { |mem| >= avail + 258 }

  /** A head byte whose tail byte is where the length byte says. */
  predicate Looks(mem: seq<byte>, i: nat)
    requires i + 259 <= |mem|
  {
    mem[i] == FRAME_HEAD && mem[i + mem[i + 1] + 3] == FRAME_TAIL
  }

  /** The first index from `i` on that looks like a frame; `avail` when none does. */
  function First(mem: seq<byte>, i: nat, avail: nat): (pos: nat)
    requires Window(mem, avail) && i <= avail
    ensures i <= pos <= avail && (pos < avail ==> Looks(mem, pos))
    ensures forall j :: i <= j < pos ==> !Looks(mem, j)
    decreases avail - i
  {
    if i == avail || Looks(mem, i) then i else First(mem, i + 1, avail)
  }

  /** The bytes from `pos` on are an encoded frame. */
  predicate EncodedAt(mem: seq<byte>, pos: nat)
    requires pos + 259 <= |mem|
  {
    mem[pos..pos + mem[pos + 1] + 4] == Frame(mem[pos + 2..pos + 2 + mem[pos + 1]])
  }

  /** A call's answer: the accepted payload, if any, and the number of bytes it asks to have released. */
  datatype Answer = Nothing | Rejected(released: nat) | Accepted(payload: seq<byte>, released: nat)

  /** What a call answers: the first candidate decides, and the skipped bytes are counted in eight bits. */
  function Decode(mem: seq<byte>, avail: nat): Answer
    requires Window(mem, avail)
  {
    var pos := First(mem, 0, avail);
    if pos == avail then Nothing
    else
      var released := U8(pos) + mem[pos + 1] + 4;
      if EncodedAt(mem, pos) then Accepted(mem[pos + 2..pos + 2 + mem[pos + 1]], released)
      else Rejected(released)
  }

  lemma CountByte(n: nat)
    ensures U8(0) == 0 && U8(n) < 256 && U8(U8(n) + 1) == U8(n + 1) < 256
  {
    Quotient(n + 1, n / 256 + (U8(n) + 1) / 256, 256, U8(U8(n) + 1));
  }

  lemma FirstStep(mem: seq<byte>, i: nat, avail: nat)
    requires Window(mem, avail) && i <= avail
    ensures First(mem, i, avail) == if i == avail || Looks(mem, i) then i else First(mem, i + 1, avail)
  {
  }

  /** `get_full_frame_from_buf` */
  method GetFullFrame(mem: seq<byte>, avail: nat) returns (found: bool, pos: nat, invalid: byte, len: byte)
    requires Window(mem, avail)
    ensures pos == First(mem, 0, avail)
    ensures found <==> pos < avail
    ensures found ==> invalid == U8(pos) && len == mem[pos + 1]
  {
    hide First, U8;
    CountByte(0);
    pos, invalid, len := 0, 0, 0;
    while pos < avail
      invariant pos <= avail && invalid == U8(pos)
      invariant First(mem, 0, avail) == First(mem, pos, avail)
    {
      FirstStep(mem, pos, avail);
      if mem[pos] == FRAME_HEAD {
        len := mem[pos + 1];
        if mem[pos + len + 3] == FRAME_TAIL {
          return true, pos, invalid, len;
        }
      }
      CountByte(pos);
      invalid := U8(invalid + 1);
      pos := pos + 1;
    }
    FirstStep(mem, pos, avail);
    found := false;
  }

  /** `is_checksum_valid`: the sum starts with the length byte itself. */
  method IsChecksumValid(mem: seq<byte>, pos: nat, len: byte) returns (ok: bool)
    requires pos + len + 4 <= |mem| && mem[pos + 1] == len
    ensures ok <==> mem[pos + len + 2] == Checksum(mem[pos + 2..pos + 2 + len])
  {
    var checksum: nat := mem[pos + 1];
    for i := 1 to len + 1
      invariant checksum == len + Sum(mem[pos + 2..pos + 1 + i])
    {
      assert mem[pos + 2..pos + 2 + i][..i - 1] == mem[pos + 2..pos + 1 + i];
      checksum := checksum + mem[pos + 1 + i];
    }
    ok := mem[pos + len + 2] == U8(checksum);
  }

  /** A candidate is an encoded frame exactly when its checksum byte is right. */
  lemma ChecksumDecides(mem: seq<byte>, pos: nat)
    requires pos + 259 <= |mem| && Looks(mem, pos)
    ensures EncodedAt(mem, pos) <==>
      mem[pos + mem[pos + 1] + 2] == Checksum(mem[pos + 2..pos + 2 + mem[pos + 1]])
  {
    hide Checksum;
    var len := mem[pos + 1];
    var f := mem[pos..pos + len + 4];
    var e := Frame(mem[pos + 2..pos + 2 + len]);
    assert f[..len + 2] == e[..len + 2];
    assert f == f[..len + 2] + [f[len + 2], f[len + 3]];
    assert e == e[..len + 2] + [e[len + 2], e[len + 3]];
    assert f[len + 2] == mem[pos + len + 2];
  }

  /**
   `get_frame_from_mcu`: the caller's buffer receives the length byte and the payload. A candidate with a
   wrong checksum is released as well, as if it had been a frame.
   */
  method GetFrame(mem: seq<byte>, avail: nat) returns (ok: bool, out: seq<byte>, released: nat)
    requires Window(mem, avail)
    ensures match Decode(mem, avail)
      case Nothing => !ok && released == 0
      case Rejected(n) => !ok && released == n
      case Accepted(p, n) => ok && released == n && |p| < 256 && out == [|p|] + p
  {
    hide Checksum, Looks, Frame;
    out := [];
    var found, pos, invalid, len := GetFullFrame(mem, avail);
    if !found {
      return false, out, 0;
    }
    ChecksumDecides(mem, pos);
    ok := IsChecksumValid(mem, pos, len);
    released := (invalid as nat) + (len as nat) + 4;
    if ok {
      out := mem[pos + 1..pos + 2 + len];
      assert out == [len] + mem[pos + 2..pos + 2 + len];
    }
  }

  // ---------------------------------------------------------------------------------------------
  // Streams
  // ---------------------------------------------------------------------------------------------

  /** An encoded frame looks like one, and is one, wherever it lies. */
  lemma FrameLooks(mem: seq<byte>, g: nat, p: seq<byte>)
    requires |p| < 256 && g + 259 <= |mem| && mem[g..g + |p| + 4] == Frame(p)
    ensures Looks(mem, g) && mem[g + 1] == |p| && EncodedAt(mem, g)
    ensures mem[g + 2..g + 2 + |p|] == p
  {
    hide Checksum;
    var f := Frame(p);
    assert forall k :: 0 <= k < |f| ==> mem[g + k] == f[k];
    assert f[2..|p| + 2] == p;
    assert mem[g + 2..g + 2 + |p|] == f[2..|p| + 2];
  }

  /**
   A frame behind bytes that do not look like one is accepted with its own payload, and the call releases
   exactly those bytes and the frame if and only if fewer than 256 bytes were skipped.
   */
  lemma DecodeFrame(mem: seq<byte>, avail: nat, g: nat, p: seq<byte>)
    requires |p| < 256 && Window(mem, avail) && g < avail
    requires mem[g..g + |p| + 4] == Frame(p)
    requires forall j :: 0 <= j < g ==> !Looks(mem, j)
    ensures First(mem, 0, avail) == g && Decode(mem, avail) == Accepted(p, U8(g) + |p| + 4)
    ensures Decode(mem, avail).released == g + |p| + 4 <==> g < 256
  {
    hide Looks, Frame, EncodedAt;
    FrameLooks(mem, g, p);
    assert First(mem, 0, avail) == g;
  }

  /** A frame with one wrong payload byte is rejected. */
  lemma CorruptIsRejected(mem: seq<byte>, avail: nat, g: nat, p: seq<byte>, i: nat, b: byte)
    requires |p| < 256 && i < |p| && b != p[i] && Window(mem, avail) && g < avail
    requires mem[g..g + |p| + 4] == Frame(p)[2 + i := b]
    requires forall j :: 0 <= j < g ==> !Looks(mem, j)
    ensures Decode(mem, avail).Rejected?
  {
    hide Checksum, EncodedAt;
    var f := Frame(p)[2 + i := b];
    assert forall k :: 0 <= k < |f| ==> mem[g + k] == f[k];
    assert f[2..|p| + 2] == p[i := b];
    assert mem[g + 2..g + 2 + |p|] == f[2..|p| + 2];
    assert Looks(mem, g) && mem[g + 1] == |p|;
    ChecksumDecides(mem, g);
    ChecksumDetects(p, i, b);
    hide Looks, Frame;
    assert First(mem, 0, avail) == g;
  }

  /** Line noise and the payload of the frame behind it. */
  datatype Chunk = Chunk(noise: seq<byte>, payload: seq<byte>)

  /** Noise without a head byte. */
  predicate Clean(c: Chunk) {
    FRAME_HEAD !in c.noise && |c.payload| < 256
  }

  function Stream(cs: seq<Chunk>): seq<byte>
    requires forall i :: 0 <= i < |cs| ==> Clean(cs[i])
  {
    if cs == [] then [] else
      assert Clean(cs[0]);
      cs[0].noise + Frame(cs[0].payload) + Stream(cs[1..])
  }

  /**
   The answers of calls each of which would move on by the count that the one before it passed to the release routine.
   The routine ignores that count: `UartRing` has what really happens.
   */
  function CountedAnswers(mem: seq<byte>, avail: nat): seq<Answer>
    requires Window(mem, avail)
    decreases avail
  {
    var a := Decode(mem, avail);
    if a == Nothing then []
    else if a.released < avail then [a] + CountedAnswers(mem[a.released..], avail - a.released)
    else [a]
  }

  /**
   The counts are right: on any sequence of frames, each behind fewer than 256 bytes of noise without a head byte, they
   are the lengths of noise and frame, so that calls that moved on by them would accept every payload in order.
   */
  lemma {:induction false} StreamRoundTrip(cs: seq<Chunk>, slack: seq<byte>)
    requires forall i :: 0 <= i < |cs| ==> Clean(cs[i]) && |cs[i].noise| < 256
    requires |slack| >= 258
    ensures CountedAnswers(Stream(cs) + slack, |Stream(cs)|) ==
      seq(|cs|, i requires 0 <= i < |cs| =>
        Accepted(cs[i].payload, |cs[i].noise| + |cs[i].payload| + 4))
  {
    hide Frame, Decode;
    if cs != [] {
      var c, rest := cs[0], Stream(cs[1..]);
      var n := |c.noise| + |c.payload| + 4;
      FirstAnswer(c, rest, slack);
      StreamRoundTrip(cs[1..], slack);
      assert Stream(cs) == c.noise + Frame(c.payload) + rest;
      assert |Stream(cs)| == n + |rest|;
      if cs[1..] == [] {
        assert rest == [];
      } else {
        assert |rest| >= |Frame(cs[1].payload)|;
      }
    } else {
      DecodeNothing(slack);
    }
  }

  lemma FirstAnswer(c: Chunk, rest: seq<byte>, slack: seq<byte>)
    requires Clean(c) && |c.noise| < 256 && |slack| >= 258
    ensures var n := |c.noise| + |c.payload| + 4;
      var mem := c.noise + Frame(c.payload) + rest + slack;
      Decode(mem, n + |rest|) == Accepted(c.payload, n) && mem[n..] == rest + slack
  {
    hide Looks, Frame, Decode;
    var g, n := |c.noise|, |c.noise| + |c.payload| + 4;
    var f := Frame(c.payload);
    var mem := c.noise + f + rest + slack;
    assert mem == c.noise + (f + (rest + slack));
    assert mem[g..] == f + (rest + slack);
    assert mem[g..n] == mem[g..][..n - g] == f;
    assert mem[n..] == mem[g..][n - g..] == rest + slack;
    NoiseDoesNotLook(mem, c.noise);
    DecodeFrame(mem, n + |rest|, g, c.payload);
  }

  lemma DecodeNothing(slack: seq<byte>)
    requires |slack| >= 258
    ensures CountedAnswers([] + slack, 0) == []
  {
  }

  lemma NoiseDoesNotLook(mem: seq<byte>, noise: seq<byte>)
    requires |noise| + 258 <= |mem| && noise <= mem && FRAME_HEAD !in noise
    ensures forall j :: 0 <= j < |noise| ==> !Looks(mem, j)
  {
  }

  /** The same for frames back to back, the way the sender appends them: the counts are the lengths of the frames. */
  lemma FramesRoundTrip(ps: seq<seq<byte>>, slack: seq<byte>)
    requires forall i :: 0 <= i < |ps| ==> |ps[i]| < 256
    requires |slack| >= 258
    ensures var a := CountedAnswers(Frames(ps) + slack, |Frames(ps)|);
      |a| == |ps| && forall i :: 0 <= i < |ps| ==> a[i] == Accepted(ps[i], |ps[i]| + 4)
  {
    var cs := seq(|ps|, i requires 0 <= i < |ps| => Chunk([], ps[i]));
    FramesAreStream(ps, cs);
    StreamRoundTrip(cs, slack);
  }

  function Frames(ps: seq<seq<byte>>): seq<byte>
    requires forall i :: 0 <= i < |ps| ==> |ps[i]| < 256
  {
    if ps == [] then [] else Frame(ps[0]) + Frames(ps[1..])
  }

  lemma {:induction false} FramesAreStream(ps: seq<seq<byte>>, cs: seq<Chunk>)
    requires |cs| == |ps|
    requires forall i :: 0 <= i < |ps| ==> |ps[i]| < 256 && cs[i] == Chunk([], ps[i])
    ensures Frames(ps) == Stream(cs)
  {
    hide Frame;
    if ps != [] {
      FramesAreStream(ps[1..], cs[1..]);
      assert [] + Frame(ps[0]) == Frame(ps[0]);
    }
  }

  /** Two hundred and fifty-six noise bytes are skipped but not counted. */
  lemma LongNoise(noise: seq<byte>, p: seq<byte>, slack: seq<byte>)
    requires |noise| == 256 && FRAME_HEAD !in noise && |p| < 256 && |slack| >= 258
    ensures var mem := noise + Frame(p) + slack;
      Decode(mem, |noise| + |p| + 4) == Accepted(p, |p| + 4)
  {
    var mem := noise + Frame(p) + slack;
    assert mem[256..256 + |p| + 4] == Frame(p);
    NoiseDoesNotLook(mem, noise);
    DecodeFrame(mem, |noise| + |p| + 4, 256, p);
  }
}
