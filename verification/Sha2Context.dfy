/**
 The streaming interface of drivers/hal_sha2.c: init, any number of updates, final. A context keeps
 the hash value of the whole blocks seen so far and buffers what is left over.
 */
module Sha2Context {
  import opened Words
  import opened Sha2

  /** The padding that the driver writes: only the low 32 bits of the bit length, in the last four bytes. */
  function PaddedByDriver<W>(su: Suite<W>, m: seq<byte>): seq<byte>
    requires su.Valid()
  {
    m + [0x80] + Zeros(ZeroPadding(su, |m|) + su.LengthBytes() - 4) + BigEndian(U32(8 * |m|), 4)
  }

  /** `memcpy` into a buffer. */
  method CopyInto(a: array<byte>, at: nat, data: seq<byte>)
    requires at + |data| <= a.Length
    modifies a
    ensures a[..] == old(a[..at]) + data + old(a[at + |data|..])
  {
    for i := 0 to |data|
      invariant forall j :: 0 <= j < a.Length ==> a[j] == if at <= j < at + i then data[j - at] else old(a[j])
    {
      a[at + i] := data[i];
    }
  }

  class Context<W(0)> {
    const su: Suite<W>
    const unroll: bool
    const block: array<byte>
    const h: array<W>
    var totLen: nat
    var len: nat
    ghost const h0: seq<W>
    /** The whole blocks that have been hashed. */
    ghost var done: seq<byte>

    ghost predicate Sized()
      reads `len
    {
      su.Valid() && |h0| == 8 && block.Length == 2 * su.BlockBytes() && h.Length == 8
      && block as object != h as object && len < su.BlockBytes()
    }

    /** The hash value belongs to the whole blocks so far. */
    ghost predicate HashedBlocks()
      requires su.Valid() && |h0| == 8
      reads `done, h
    {
      |done| % su.BlockBytes() == 0 && h[..] == HashBlocks(su, h0, done)
    }

    /** And so does the count. */
    ghost predicate Hashed()
      requires su.Valid() && |h0| == 8
      reads `done, `totLen, h
    {
      HashedBlocks() && totLen == U32(|done|)
    }

    ghost predicate Valid()
      reads `len, `done, `totLen, h
    {
      Sized() && Hashed()
    }

    /** All bytes given to the context so far: the hashed blocks and what the buffer still holds. */
    ghost function Message(): seq<byte>
      requires Valid()
      reads `len, `done, `totLen, h, block
    {
      done + block[..len]
    }

    /** `sha256_init` and its three siblings, which differ in `h0` */
    constructor (su: Suite<W>, h0: seq<W>, unroll: bool)
      requires su.Valid() && |h0| == 8
      ensures Valid() && Message() == [] && this.su == su && this.h0 == h0 && fresh(block) && fresh(h)
    {
      this.su, this.unroll, this.h0 := su, unroll, h0;
      block := new byte[2 * su.BlockBytes()];
      h := new W[8](i requires 0 <= i < 8 => h0[i]);
      totLen, len, done := 0, 0, [];
      new;
      assert h[..] == h0;
    }

    /**
     `sha256_update` and its siblings. Buffered and new bytes are added in 32 bits: the message is appended exactly
     when that sum does not wrap; else the message is lost and so are bytes that were buffered before.
     */
    method Update(message: seq<byte>)
      requires Valid() && |message| < TWO32
      modifies `totLen, `len, `done, block, h
      ensures Valid()
      ensures Message() ==
        if old(len) + |message| < TWO32 then old(Message()) + message
        else old(Message())[..|old(Message())| + |message| - TWO32]
    {
      hide Hashed, U32, Message;
      var b := su.BlockBytes();
      var tmpLen := b - len;
      var remLen := Min(|message|, tmpLen);
      ghost var tail := block[..len];
      Buffered();
      CopyInto(block, len, message[..remLen]);
      assert block[..len + remLen] == tail + message[..remLen];
      if U32(len + |message|) < b {
        Buffer(len + |message|, tail, message);
        return;
      }
      SmallSum(len + |message|, b);
      Refill(message[remLen..]);
      Regroup(old(done), tail, message, remLen);
    }

    /** The update of a buffer that the 32-bit sum `n` says is not full. */
    method Buffer(n: nat, ghost tail: seq<byte>, ghost message: seq<byte>)
      requires Valid() && |message| < TWO32 && n == len + |message| && U32(n) < su.BlockBytes()
      requires tail == block[..len] && (n < su.BlockBytes() ==> block[..n] == tail + message)
      modifies `len
      ensures Valid()
      ensures Message() ==
        if n < TWO32 then done + tail + message else (done + tail)[..|done + tail| + |message| - TWO32]
    {
      hide Hashed;
      if n >= TWO32 {
        Wraps(n, su.BlockBytes());
        Shorten(done, tail, n - TWO32);
        assert block[..n - TWO32] == tail[..n - TWO32];
      } else {
        SmallMod32(n);
        assert done + tail + message == done + (tail + message);
      }
      hide U32;
      len := U32(n);
    }

    /** The rest of an update once the buffer is full: `shifted` is what did not go into it. */
    method Refill(shifted: seq<byte>)
      requires Valid()
      modifies `totLen, `len, `done, block, h
      ensures Valid() && Message() == old(done) + old(block[..su.BlockBytes()]) + shifted
    {
      hide Hashed, Message;
      var b := su.BlockBytes();
      var blockNb := |shifted| / b;
      Split(shifted, b);
      Advance(shifted, blockNb);
      len := |shifted| % b;
      CopyInto(block, 0, shifted[blockNb * b..]);
      assert block[..len] == shifted[blockNb * b..];
      Rejoin(shifted, blockNb * b, old(done) + old(block[..b]));
      Buffered();
    }

    lemma Remainder()
      requires Valid()
      ensures len == |Message()| % su.BlockBytes()
    {
      RemainderOf(|done|, len, su.BlockBytes());
    }

    lemma Buffered()
      requires Valid()
      ensures Message() == done + block[..len]
    {
    }

    /** The two calls of `transf`: the full buffer, then the whole blocks of the rest of the message. */
    method Advance(shifted: seq<byte>, blockNb: nat)
      requires Valid() && blockNb * su.BlockBytes() <= |shifted|
      modifies `totLen, `done, h
      ensures Valid() && done == old(done) + old(block[..su.BlockBytes()]) + shifted[..blockNb * su.BlockBytes()]
    {
      hide HashBlocks, HashedBlocks, U32;
      var b := su.BlockBytes();
      assert block[..][..1 * b] == block[..b];
      Absorb(block[..], 1);
      Absorb(shifted, blockNb);
      assert (blockNb + 1) * b == blockNb * b + b;
      U32Absorbs(old(|done|), (blockNb + 1) * b);
      totLen := U32(totLen + (blockNb + 1) * b);
    }

    /** One call of `transf`. */
    method Absorb(message: seq<byte>, n: nat)
      requires Sized() && HashedBlocks() && n * su.BlockBytes() <= |message|
      modifies `done, h
      ensures Sized() && HashedBlocks() && done == old(done) + message[..n * su.BlockBytes()]
    {
      hide HashBlocks;
      ghost var more := message[..n * su.BlockBytes()];
      Transf(su, h, message, n, unroll);
      HashAppend(su, h0, done, more);
      MoreBlocks(|done|, n, su.BlockBytes());
      done := done + more;
    }

    /** The writes of `sha256_final` and its siblings into the buffer. */
    method WritePadding(pmLen: nat, lenB: nat)
      requires Valid() && len + 1 + 4 <= pmLen <= block.Length
      modifies block
      ensures block[..pmLen] == old(block[..len]) + [0x80] + Zeros(pmLen - len - 5) + BigEndian(lenB, 4)
    {
      hide Hashed, BigEndian;
      CopyInto(block, len, Zeros(pmLen - len));
      block[len] := 0x80;
      CopyInto(block, pmLen - 4, FourBytes(lenB));
      BigEndianFour(lenB);
      assert block[..pmLen - 4] == old(block[..len]) + [0x80] + Zeros(pmLen - len - 5);
    }

    /** One or two final blocks, in the buffer: they complete the message to its padding. */
    method FinalBlock() returns (blockNb: nat)
      requires Valid()
      modifies block
      ensures blockNb * su.BlockBytes() <= block.Length
      ensures done + block[..blockNb * su.BlockBytes()] == PaddedByDriver(su, old(Message()))
    {
      hide HashBlocks, ZeroPadding, PaddedByDriver, BigEndian, Zeros, U32;
      ghost var tail := block[..len];
      var b := su.BlockBytes();
      blockNb := 1 + if b - (su.LengthBytes() + 1) < len % b then 1 else 0;
      var lenB := U32((totLen + len) * 8);
      var pmLen := blockNb * b;
      FinalBlocks(su, |done|, len);
      BitLength(|done|, len);
      WritePadding(pmLen, lenB);
      DriverPadding(su, done, tail, block[..pmLen]);
    }

    /** `sha256_final` and its siblings, for a digest of `n` words. */
    method Final(n: nat) returns (digest: seq<byte>)
      requires Valid() && n <= 8
      modifies block, h
      ensures digest == DigestOf(su, h0, n, PaddedByDriver(su, old(Message())))
      ensures 8 * |old(Message())| < TWO32 ==> digest == DigestOf(su, h0, n, Padded(su, old(Message())))
    {
      hide HashBlocks, Unpacked, U32, Padded, PaddedByDriver;
      ghost var m := Message();
      var blockNb := FinalBlock();
      ghost var last := block[..blockNb * su.BlockBytes()];
      assert block[..][..blockNb * su.BlockBytes()] == last;
      Transf(su, h, block[..], blockNb, unroll);
      HashAppend(su, h0, done, last);
      digest := WriteDigest(n);
      if 8 * |m| < TWO32 {
        ShortMessage(su, m);
      }
    }

    /** The loop over `UNPACK32` or `UNPACK64`. */
    method WriteDigest(n: nat) returns (digest: seq<byte>)
      requires h.Length == 8 && n <= 8
      ensures digest == Unpacked(su, h[..][..n])
    {
      digest := [];
      for i := 0 to n
        invariant digest == Unpacked(su, h[..i])
      {
        assert h[..i + 1][..i] == h[..i];
        digest := digest + su.unpack(h[i]);
      }
      assert h[..n] == h[..][..n];
    }
  }

  lemma Wraps(n: nat, b: nat)
    requires TWO32 <= n < TWO32 + b && (b == 64 || b == 128)
    ensures U32(n) == n - TWO32 < b
  {
  }

  lemma SmallMod32(n: nat)
    requires n < TWO32
    ensures U32(n) == n
  {
  }

  /** A sum that is not below a block in 32 bits has not wrapped. */
  lemma SmallSum(n: nat, b: nat)
    requires b <= U32(n) && n < TWO32 + b
    ensures b <= n < TWO32
  {
  }

  lemma Regroup(done: seq<byte>, tail: seq<byte>, message: seq<byte>, k: nat)
    requires k <= |message|
    ensures done + (tail + message[..k]) + message[k..] == done + tail + message
  {
    assert message == message[..k] + message[k..];
  }

  lemma Shorten(done: seq<byte>, tail: seq<byte>, k: nat)
    requires k <= |tail|
    ensures (done + tail)[..|done| + k] == done + tail[..k]
  {
  }

  /** What follows a full buffer is whole blocks and a rest shorter than a block. */
  lemma Split(shifted: seq<byte>, b: nat)
    requires b == 64 || b == 128
    ensures |shifted| / b * b <= |shifted| && |shifted| - |shifted| / b * b == |shifted| % b < b
  {
  }

  lemma Rejoin(s: seq<byte>, k: nat, before: seq<byte>)
    requires k <= |s|
    ensures before + s[..k] + s[k..] == before + s
  {
  }

  lemma RemainderOf(n: nat, k: nat, b: nat)
    requires (b == 64 || b == 128) && n % b == 0 && k < b
    ensures (n + k) % b == k
  {
    Quotient(n + k, n / b, b, k);
  }

  lemma MoreBlocks(n: nat, k: nat, b: nat)
    requires (b == 64 || b == 128) && n % b == 0
    ensures (n + k * b) % b == 0
  {
    if b == 64 {
      assert (n + k * 64) % 64 == 0;
    } else {
      assert (n + k * 128) % 128 == 0;
    }
  }

  /** The bytes that `UNPACK32` writes. */
  function FourBytes(n: nat): seq<byte> {
    [ByteOf(n / 0x100_0000), ByteOf(n / 0x1_0000), ByteOf(n / 0x100), ByteOf(n)]
  }

  lemma BigEndianFour(n: nat)
    ensures BigEndian(n, 4) == FourBytes(n)
  {
    assert n / 256 / 256 == n / 0x1_0000 && n / 256 / 256 / 256 == n / 0x100_0000;
    assert BigEndian(n / 0x100_0000, 1) == [ByteOf(n / 0x100_0000)];
    assert BigEndian(n / 0x1_0000, 2) == BigEndian(n / 0x100_0000, 1) + [ByteOf(n / 0x1_0000)];
  }

  /** The 32-bit count of the context still gives the low 32 bits of the bit length. */
  lemma BitLength(hashed: nat, len: nat)
    ensures U32((U32(hashed) + len) * 8) == U32(8 * (hashed + len))
  {
    ShiftByMultiple((U32(hashed) + len) * 8, 8 * (hashed / TWO32));
  }

  /** The driver's choice of one or two final blocks is the least padding. */
  lemma FinalBlocks<W>(su: Suite<W>, hashed: nat, len: nat)
    requires su.Valid() && hashed % su.BlockBytes() == 0 && len < su.BlockBytes()
    ensures var b := su.BlockBytes();
            (if b - (su.LengthBytes() + 1) < len % b then 2 * b else b)
            == len + 1 + ZeroPadding(su, hashed + len) + su.LengthBytes()
  {
    var z := ZeroPadding(su, hashed + len);
    if su.wordBytes == 4 {
      LeastFill(hashed / 64, len, z, 8, 64);
    } else {
      LeastFill(hashed / 128, len, z, 16, 128);
    }
  }

  lemma LeastFill(q: nat, len: nat, z: nat, field: nat, b: nat)
    requires (b == 64 && field == 8) || (b == 128 && field == 16)
    requires len < b && z < b && (b * q + len + 1 + z + field) % b == 0
    ensures len + 1 + z + field == if b - (field + 1) < len then 2 * b else b
  {
    var sum := len + 1 + z + field;
    var k, r := sum / b, sum % b;
    assert b * q + sum == (q + k) * b + r;
    Quotient(b * q + sum, q + k, b, r);
    assert sum == k * b && 0 < sum < 3 * b;
    assert k == 1 || k == 2;
  }

  lemma DriverPadding<W>(su: Suite<W>, done: seq<byte>, tail: seq<byte>, last: seq<byte>)
    requires su.Valid()
    requires var z := ZeroPadding(su, |done| + |tail|) + su.LengthBytes() - 4;
             last == tail + [0x80] + Zeros(z) + BigEndian(U32(8 * (|done| + |tail|)), 4)
    ensures done + last == PaddedByDriver(su, done + tail)
  {
    hide ZeroPadding, U32, BigEndian, Zeros;
    assert |done + tail| == |done| + |tail|;
  }

  function Pow256(k: nat): nat { if k == 0 then 1 else 256 * Pow256(k - 1) }

  lemma {:induction false} PowPositive(k: nat)
    ensures Pow256(k) > 0
  {
    if k > 0 {
      PowPositive(k - 1);
    }
  }

  lemma {:induction false} BigEndianZero(x: nat, k: nat)
    requires x < Pow256(k)
    ensures BigEndian(x, k) == Zeros(k) <==> x == 0
  {
    if k > 0 {
      var r := BigEndian(x, k);
      assert r[..k - 1] == BigEndian(x / 256, k - 1) && r[k - 1] == ByteOf(x);
      assert Zeros(k)[..k - 1] == Zeros(k - 1) && Zeros(k)[k - 1] == 0;
      assert r == r[..k - 1] + [r[k - 1]] && Zeros(k) == Zeros(k - 1) + [0];
      ByteOfZero(x);
      hide BigEndian, ByteOf, Zeros;
      BigEndianZero(x / 256, k - 1);
    }
  }

  lemma ByteOfZero(x: nat)
    ensures ByteOf(x) == 0 <==> x % 256 == 0
  {
  }

  /** The byte of a number is its last digit in base 256. */
  lemma ByteOfDigit(x: nat, q: nat, r: nat)
    requires x == 256 * q + r && r < 256
    ensures ByteOf(x) == AsByte(r) == r as byte
  {
    Quotient(x, q, 256, r);
  }

  /** Written out in base 256, a number is its digits, the first one counting most. */
  lemma {:induction false} BigEndianDigits(digits: seq<nat>)
    requires forall i :: 0 <= i < |digits| ==> digits[i] < 256
    ensures forall i :: 0 <= i < |digits| ==> BigEndian(Number(digits), |digits|)[i] == AsByte(digits[i])
  {
    hide ByteOf, AsByte;
    if digits != [] {
      var k := |digits| - 1;
      var x, q := Number(digits), Number(digits[..k]);
      Quotient(x, q, 256, digits[k]);
      ByteOfDigit(x, q, digits[k]);
      BigEndianDigits(digits[..k]);
      assert BigEndian(x, k + 1) == BigEndian(q, k) + [AsByte(digits[k])];
    }
  }

  function Number(digits: seq<nat>): nat {
    if digits == [] then 0 else 256 * Number(digits[..|digits| - 1]) + digits[|digits| - 1]
  }

  /** The last four bytes of a big-endian number are its low 32 bits. */
  lemma BigEndianLow(x: nat, k: nat)
    ensures BigEndian(x, k + 4) == BigEndian(x / TWO32, k) + BigEndian(U32(x), 4)
  {
    hide ByteOf;
    LowBytes(x);
    BigEndianFour(U32(x));
    assert x / 256 / 256 == x / 0x1_0000 && x / 256 / 256 / 256 == x / 0x100_0000 && x / 256 / 256 / 256 / 256 == x / TWO32;
    assert BigEndian(x, k + 4) == BigEndian(x / 256, k + 3) + [ByteOf(x)];
    assert BigEndian(x / 256, k + 3) == BigEndian(x / 0x1_0000, k + 2) + [ByteOf(x / 0x100)];
    assert BigEndian(x / 0x1_0000, k + 2) == BigEndian(x / 0x100_0000, k + 1) + [ByteOf(x / 0x1_0000)];
    assert BigEndian(x / 0x100_0000, k + 1) == BigEndian(x / TWO32, k) + [ByteOf(x / 0x100_0000)];
  }

  lemma LowBytes(x: nat)
    ensures ByteOf(U32(x)) == ByteOf(x) && ByteOf(U32(x) / 0x100) == ByteOf(x / 0x100)
    ensures ByteOf(U32(x) / 0x1_0000) == ByteOf(x / 0x1_0000) && ByteOf(U32(x) / 0x100_0000) == ByteOf(x / 0x100_0000)
  {
    var q, r := x / TWO32, U32(x);
    assert x == TWO32 * q + r;
    assert x / 0x100 == 0x100_0000 * q + r / 0x100;
    assert x / 0x1_0000 == 0x1_0000 * q + r / 0x1_0000;
    assert x / 0x100_0000 == 0x100 * q + r / 0x100_0000;
    SameByte(x, r, 0x100_0000 * q);
    SameByte(x / 0x100, r / 0x100, 0x1_0000 * q);
    SameByte(x / 0x1_0000, r / 0x1_0000, 0x100 * q);
    SameByte(x / 0x100_0000, r / 0x100_0000, q);
  }

  lemma SameByte(x: nat, y: nat, q: nat)
    requires x == 256 * q + y
    ensures ByteOf(x) == ByteOf(y)
  {
    hide AsByte;
    Quotient(x, q + y / 256, 256, y % 256);
  }

  /** For every length the standard allows, the driver's padding is the standard's exactly below 2^32 bits. */
  lemma PaddingExact<W>(su: Suite<W>, m: seq<byte>)
    requires su.Valid() && 8 * |m| / TWO32 < Pow256(su.LengthBytes() - 4)
    ensures PaddedByDriver(su, m) == Padded(su, m) <==> 8 * |m| < TWO32
  {
    hide BigEndian, Pow256, ZeroPadding;
    var x, k, z := 8 * |m|, su.LengthBytes() - 4, ZeroPadding(su, |m|);
    BigEndianLow(x, k);
    BigEndianZero(x / TWO32, k);
    var head := m + [0x80] + Zeros(z);
    var low := BigEndian(U32(x), 4);
    assert Zeros(z + k) == Zeros(z) + Zeros(k);
    assert PaddedByDriver(su, m) == head + Zeros(k) + low;
    assert Padded(su, m) == head + BigEndian(x / TWO32, k) + low;
    Middle(head, Zeros(k), BigEndian(x / TWO32, k), low);
  }

  lemma ShortMessage<W>(su: Suite<W>, m: seq<byte>)
    requires su.Valid() && 8 * |m| < TWO32
    ensures PaddedByDriver(su, m) == Padded(su, m)
  {
    hide Padded, PaddedByDriver;
    PowPositive(su.LengthBytes() - 4);
    PaddingExact(su, m);
  }

  lemma Middle(a: seq<byte>, x: seq<byte>, y: seq<byte>, b: seq<byte>)
    requires |x| == |y|
    ensures a + x + b == a + y + b <==> x == y
  {
    if a + x + b == a + y + b {
      assert x == (a + x + b)[|a|..|a| + |x|];
      assert y == (a + y + b)[|a|..|a| + |y|];
    }
  }

  // ---------------------------------------------------------------------------------------------
  // Whole messages
  // ---------------------------------------------------------------------------------------------

  function Concat(pieces: seq<seq<byte>>): seq<byte> {
    if |pieces| == 0 then [] else Concat(pieces[..|pieces| - 1]) + pieces[|pieces| - 1]
  }

  /** No update makes the 32-bit sum of buffered and new bytes wrap. */
  predicate Fitting(pieces: seq<seq<byte>>, b: nat)
    requires b > 0
  {
    forall i :: 0 <= i < |pieces| ==> |Concat(pieces[..i])| % b + |pieces[i]| < TWO32
  }

  /** Init, one update per piece, final: the digest depends only on the concatenation. */
  method HashPieces<W(0)>(su: Suite<W>, h0: seq<W>, n: nat, pieces: seq<seq<byte>>, unroll: bool) returns (digest: seq<byte>)
    requires su.Valid() && |h0| == 8 && n <= 8
    requires forall i :: 0 <= i < |pieces| ==> |pieces[i]| < TWO32
    ensures Fitting(pieces, su.BlockBytes()) ==>
      digest == DigestOf(su, h0, n, PaddedByDriver(su, Concat(pieces)))
      && (8 * |Concat(pieces)| < TWO32 ==> digest == DigestOf(su, h0, n, Padded(su, Concat(pieces))))
  {
    hide HashBlocks, DigestOf, PaddedByDriver, Padded;
    var ctx := new Context<W>(su, h0, unroll);
    for i := 0 to |pieces|
      invariant ctx.Valid() && ctx.su == su && ctx.h0 == h0 && fresh(ctx) && fresh(ctx.block) && fresh(ctx.h)
      invariant Fitting(pieces, su.BlockBytes()) ==> ctx.Message() == Concat(pieces[..i])
    {
      assert pieces[..i + 1][..i] == pieces[..i];
      ctx.Remainder();
      ctx.Update(pieces[i]);
    }
    assert pieces[..|pieces|] == pieces;
    digest := ctx.Final(n);
  }
}
