/**
 SHA-2 as a function of a whole message (FIPS 180-2), and the pieces of drivers/hal_sha2.c that
 work on one block: the message schedule and the two forms of the compression loop.

 The driver has one copy of each routine for 32-bit words and one for 64-bit words. They differ only
 in what a `Suite` holds, so each is modelled once, for every suite.
 */
module Sha2 {

  type byte = bv8

  /** Word operations, constants and sizes of one member of the family. */
  datatype Suite<!W> = Suite(
    wordBytes: nat,
    rounds: nat,
    k: seq<W>,
    add: (W, W) -> W,
    bigSigma0: W -> W,
    bigSigma1: W -> W,
    smallSigma0: W -> W,
    smallSigma1: W -> W,
    ch: (W, W, W) -> W,
    maj: (W, W, W) -> W,
    pack: seq<byte> -> W,
    unpack: W -> seq<byte>)
  {
    function BlockBytes(): nat { 16 * wordBytes }

    /** Bytes that the padding reserves for the message length. */
    function LengthBytes(): nat { 2 * wordBytes }

    predicate Valid() {
      (wordBytes == 4 || wordBytes == 8) && rounds == |k| && rounds % 8 == 0 && rounds >= 16
    }
  }

  // ---------------------------------------------------------------------------------------------
  // FIPS 180-2
  // ---------------------------------------------------------------------------------------------

  /** Word `t` of the message schedule of a block. */
  function Schedule<W>(su: Suite<W>, m: seq<byte>, t: nat): W
    requires |m| == su.BlockBytes()
  {
    if t < 16 then su.pack(m[t * su.wordBytes..(t + 1) * su.wordBytes])
    else su.add(su.add(su.add(su.smallSigma1(Schedule(su, m, t - 2)), Schedule(su, m, t - 7)),
                       su.smallSigma0(Schedule(su, m, t - 15))),
                Schedule(su, m, t - 16))
  }

  /** One round on the eight working variables a, b, ..., h. */
  function Round<W>(su: Suite<W>, v: seq<W>, k: W, w: W): (r: seq<W>)
    requires |v| == 8
    ensures |r| == 8
  {
    var t1 := su.add(su.add(su.add(su.add(v[7], su.bigSigma1(v[4])), su.ch(v[4], v[5], v[6])), k), w);
    var t2 := su.add(su.bigSigma0(v[0]), su.maj(v[0], v[1], v[2]));
    [su.add(t1, t2), v[0], v[1], v[2], su.add(v[3], t1), v[4], v[5], v[6]]
  }

  function Rounds<W>(su: Suite<W>, h: seq<W>, m: seq<byte>, t: nat): (r: seq<W>)
    requires |h| == 8 && |m| == su.BlockBytes() && t <= |su.k|
    ensures |r| == 8
  {
    if t == 0 then h else Round(su, Rounds(su, h, m, t - 1), su.k[t - 1], Schedule(su, m, t - 1))
  }

  /** The hash value after one more block. */
  function Compress<W>(su: Suite<W>, h: seq<W>, m: seq<byte>): (r: seq<W>)
    requires su.Valid() && |h| == 8 && |m| == su.BlockBytes()
    ensures |r| == 8
  {
    var v := Rounds(su, h, m, su.rounds);
    seq(8, i requires 0 <= i < 8 => su.add(h[i], v[i]))
  }

  /** The hash value after the whole blocks of `m`. */
  function HashBlocks<W>(su: Suite<W>, h: seq<W>, m: seq<byte>): (r: seq<W>)
    requires su.Valid() && |h| == 8
    ensures |r| == 8
    decreases |m|
  {
    var b := su.BlockBytes();
    if |m| < b then h else HashBlocks(su, Compress(su, h, m[..b]), m[b..])
  }

  function Zeros(n: nat): seq<byte> { seq(n, _ => 0) }

  function AsByte(n: nat): byte
    requires n < 256
  {
    n as byte
  }

  function ByteOf(n: nat): byte { AsByte(n % 256) }

  function BigEndian(n: nat, count: nat): (r: seq<byte>)
    ensures |r| == count
  {
    if count == 0 then [] else BigEndian(n / 256, count - 1) + [ByteOf(n)]
  }

  /** Fewest zero bytes that make message, end mark and length field fill whole blocks. */
  function ZeroPadding<W>(su: Suite<W>, length: nat): (z: nat)
    requires su.Valid()
    ensures (length + 1 + z + su.LengthBytes()) % su.BlockBytes() == 0 && z < su.BlockBytes()
  {
    var b := su.BlockBytes();
    var z := (b - 1 - su.LengthBytes() - length) % b;
    assert (length + 1 + z + su.LengthBytes()) % b == 0 by {
      var q := (b - 1 - su.LengthBytes() - length) / b;
      assert length + 1 + z + su.LengthBytes() == b * (1 - q);
    }
    z
  }

  /** Sections 5.1.1 and 5.1.2 of FIPS 180-2. */
  function Padded<W>(su: Suite<W>, m: seq<byte>): seq<byte>
    requires su.Valid()
  {
    m + [0x80] + Zeros(ZeroPadding(su, |m|)) + BigEndian(8 * |m|, su.LengthBytes())
  }

  function Unpacked<W>(su: Suite<W>, words: seq<W>): seq<byte> {
    if |words| == 0 then [] else Unpacked(su, words[..|words| - 1]) + su.unpack(words[|words| - 1])
  }

  /** The digest of a padded message: the first `n` words of the hash value. */
  function DigestOf<W>(su: Suite<W>, h0: seq<W>, n: nat, padded: seq<byte>): seq<byte>
    requires su.Valid() && |h0| == 8 && n <= 8
  {
    Unpacked(su, HashBlocks(su, h0, padded)[..n])
  }

  // ---------------------------------------------------------------------------------------------
  // Blocks compose
  // ---------------------------------------------------------------------------------------------

  lemma {:induction false} HashAppend<W>(su: Suite<W>, h: seq<W>, a: seq<byte>, b: seq<byte>)
    requires su.Valid() && |h| == 8 && |a| % su.BlockBytes() == 0
    ensures HashBlocks(su, h, a + b) == HashBlocks(su, HashBlocks(su, h, a), b)
    decreases |a|
  {
    var n := su.BlockBytes();
    if |a| < n {
      assert a == [];
      assert a + b == b;
    } else {
      assert (a + b)[..n] == a[..n] && (a + b)[n..] == a[n..] + b;
      BlockLess(|a|, n);
      HashAppend(su, Compress(su, h, a[..n]), a[n..], b);
    }
  }

  lemma BlockLess(x: nat, n: nat)
    requires (n == 64 || n == 128) && n <= x && x % n == 0
    ensures (x - n) % n == 0
  {
  }

  /** One block. */
  lemma HashOne<W>(su: Suite<W>, h: seq<W>, m: seq<byte>)
    requires su.Valid() && |h| == 8 && |m| == su.BlockBytes()
    ensures HashBlocks(su, h, m) == Compress(su, h, m)
  {
    assert m[..su.BlockBytes()] == m && m[su.BlockBytes()..] == [];
  }

  // ---------------------------------------------------------------------------------------------
  // The compression loops
  // ---------------------------------------------------------------------------------------------

  /** The schedule loops: sixteen packed words, then `SHA256_SCR` / `SHA512_SCR`. */
  method Expand<W(0)>(su: Suite<W>, m: seq<byte>) returns (w: array<W>)
    requires su.Valid() && |m| == su.BlockBytes()
    ensures fresh(w) && w.Length == su.rounds
    ensures forall t :: 0 <= t < su.rounds ==> w[t] == Schedule(su, m, t)
  {
    w := new W[su.rounds];
    for j := 0 to 16
      invariant forall t :: 0 <= t < j ==> w[t] == Schedule(su, m, t)
    {
      WordBounds(j, su.wordBytes);
      w[j] := su.pack(m[j * su.wordBytes..(j + 1) * su.wordBytes]);
    }
    for j := 16 to su.rounds
      invariant forall t :: 0 <= t < j ==> w[t] == Schedule(su, m, t)
    {
      w[j] := su.add(su.add(su.add(su.smallSigma1(w[j - 2]), w[j - 7]), su.smallSigma0(w[j - 15])), w[j - 16]);
    }
  }

  lemma WordBounds(j: nat, bytes: nat)
    requires j < 16
    ensures 0 <= j * bytes <= (j + 1) * bytes <= 16 * bytes
  {
  }

  /** The rolled loop: the eight variables are shifted by hand in every round. */
  method RolledRounds<W>(su: Suite<W>, wv: array<W>, w: array<W>, ghost m: seq<byte>)
    requires su.Valid() && |m| == su.BlockBytes() && wv.Length == 8 && w.Length == su.rounds && wv != w
    requires forall t :: 0 <= t < su.rounds ==> w[t] == Schedule(su, m, t)
    modifies wv
    ensures wv[..] == Rounds(su, old(wv[..]), m, su.rounds)
  {
    hide Round, Schedule;
    for j := 0 to su.rounds
      invariant wv[..] == Rounds(su, old(wv[..]), m, j)
    {
      Shift(su, wv, su.k[j], w[j]);
    }
  }

  /** The body of the rolled loop. */
  method Shift<W>(su: Suite<W>, wv: array<W>, k: W, w: W)
    requires wv.Length == 8
    modifies wv
    ensures wv[..] == Round(su, old(wv[..]), k, w)
  {
    var t1 := su.add(su.add(su.add(su.add(wv[7], su.bigSigma1(wv[4])), su.ch(wv[4], wv[5], wv[6])), k), w);
    var t2 := su.add(su.bigSigma0(wv[0]), su.maj(wv[0], wv[1], wv[2]));
    wv[7] := wv[6];
    wv[6] := wv[5];
    wv[5] := wv[4];
    wv[4] := su.add(wv[3], t1);
    wv[3] := wv[2];
    wv[2] := wv[1];
    wv[1] := wv[0];
    wv[0] := su.add(t1, t2);
    assert wv[..] == [wv[0], wv[1], wv[2], wv[3], wv[4], wv[5], wv[6], wv[7]];
  }

  /** The register that holds variable `i` (0 for a, 7 for h) after `r` rounds without shifting. */
  function Name(i: nat, r: nat): nat { (i + 8 - r) % 8 }

  /** The working variables, read through their names. */
  function Renamed<W>(wv: seq<W>, r: nat): (v: seq<W>)
    requires |wv| == 8 && r <= 8
    ensures |v| == 8
  {
    [wv[Name(0, r)], wv[Name(1, r)], wv[Name(2, r)], wv[Name(3, r)],
     wv[Name(4, r)], wv[Name(5, r)], wv[Name(6, r)], wv[Name(7, r)]]
  }

  /** Each variable takes over the register of its predecessor, and a that of h. */
  lemma Renaming(i: nat, r: nat)
    requires i < 8 && r < 8
    ensures Name(i, r + 1) == if i == 0 then Name(7, r) else Name(i - 1, r)
    ensures forall j :: 0 <= j < 8 && j != i ==> Name(j, r) != Name(i, r)
  {
    assert forall j :: 0 <= j < 8 ==> Name(j, r) == if j < r then j + 8 - r else j - r;
    assert Name(i, r + 1) == if i < r + 1 then i + 7 - r else i - r - 1;
  }

  /** `SHA256_EXP` / `SHA512_EXP`: a round that writes two registers, named by their indices, and shifts none. */
  method Exp<W>(su: Suite<W>, wv: array<W>, a: nat, b: nat, c: nat, d: nat, e: nat, f: nat, g: nat, h: nat,
                k: W, w: W, ghost r: nat)
    requires wv.Length == 8 && r < 8
    requires a == Name(0, r) && b == Name(1, r) && c == Name(2, r) && d == Name(3, r)
    requires e == Name(4, r) && f == Name(5, r) && g == Name(6, r) && h == Name(7, r)
    modifies wv
    ensures Renamed(wv[..], r + 1) == Round(su, Renamed(old(wv[..]), r), k, w)
  {
    var t1 := su.add(su.add(su.add(su.add(wv[h], su.bigSigma1(wv[e])), su.ch(wv[e], wv[f], wv[g])), k), w);
    var t2 := su.add(su.bigSigma0(wv[a]), su.maj(wv[a], wv[b], wv[c]));
    Renaming(3, r);
    Renaming(7, r);
    wv[d] := su.add(wv[d], t1);
    wv[h] := su.add(t1, t2);
    forall i | 0 <= i < 8
      ensures Renamed(wv[..], r + 1)[i] == Round(su, Renamed(old(wv[..]), r), k, w)[i]
    {
      Renaming(i, r);
    }
  }

  /** The unrolled loop: eight renamed rounds bring every variable back to its own register. */
  method UnrolledRounds<W>(su: Suite<W>, wv: array<W>, w: array<W>, ghost m: seq<byte>)
    requires su.Valid() && |m| == su.BlockBytes() && wv.Length == 8 && w.Length == su.rounds && wv != w
    requires forall t :: 0 <= t < su.rounds ==> w[t] == Schedule(su, m, t)
    modifies wv
    ensures wv[..] == Rounds(su, old(wv[..]), m, su.rounds)
  {
    hide Round, Schedule, Renamed, Name;
    var j := 0;
    while j < su.rounds
      invariant j <= su.rounds && j % 8 == 0
      invariant wv[..] == Rounds(su, old(wv[..]), m, j)
    {
      EightRounds(su, wv, w, j, old(wv[..]), m);
      j := j + 8;
    }
  }

  method EightRounds<W>(su: Suite<W>, wv: array<W>, w: array<W>, j: nat, ghost h: seq<W>, ghost m: seq<byte>)
    requires su.Valid() && |m| == su.BlockBytes() && |h| == 8 && wv.Length == 8 && w.Length == su.rounds && wv != w
    requires forall t :: 0 <= t < su.rounds ==> w[t] == Schedule(su, m, t)
    requires j + 8 <= su.rounds && wv[..] == Rounds(su, h, m, j)
    modifies wv
    ensures wv[..] == Rounds(su, h, m, j + 8)
  {
    hide Round, Schedule, Renamed;
    NotRenamed(wv[..]);
    Exp(su, wv, 0, 1, 2, 3, 4, 5, 6, 7, su.k[j], w[j], 0);
    assert Renamed(wv[..], 1) == Rounds(su, h, m, j + 1);
    Exp(su, wv, 7, 0, 1, 2, 3, 4, 5, 6, su.k[j + 1], w[j + 1], 1);
    assert Renamed(wv[..], 2) == Rounds(su, h, m, j + 2);
    Exp(su, wv, 6, 7, 0, 1, 2, 3, 4, 5, su.k[j + 2], w[j + 2], 2);
    assert Renamed(wv[..], 3) == Rounds(su, h, m, j + 3);
    Exp(su, wv, 5, 6, 7, 0, 1, 2, 3, 4, su.k[j + 3], w[j + 3], 3);
    assert Renamed(wv[..], 4) == Rounds(su, h, m, j + 4);
    Exp(su, wv, 4, 5, 6, 7, 0, 1, 2, 3, su.k[j + 4], w[j + 4], 4);
    assert Renamed(wv[..], 5) == Rounds(su, h, m, j + 5);
    Exp(su, wv, 3, 4, 5, 6, 7, 0, 1, 2, su.k[j + 5], w[j + 5], 5);
    assert Renamed(wv[..], 6) == Rounds(su, h, m, j + 6);
    Exp(su, wv, 2, 3, 4, 5, 6, 7, 0, 1, su.k[j + 6], w[j + 6], 6);
    assert Renamed(wv[..], 7) == Rounds(su, h, m, j + 7);
    Exp(su, wv, 1, 2, 3, 4, 5, 6, 7, 0, su.k[j + 7], w[j + 7], 7);
    assert Renamed(wv[..], 8) == Rounds(su, h, m, j + 8);
    NotRenamed(wv[..]);
  }

  lemma NotRenamed<W>(wv: seq<W>)
    requires |wv| == 8
    ensures Renamed(wv, 0) == wv && Renamed(wv, 8) == wv
  {
  }

  /**
   `sha256_transf` / `sha512_transf`: the hash value moves over `blockNb` blocks of the message.
   `unroll` chooses between the two forms of the loop, as `UNROLL_LOOPS` does at build time.
   */
  method Transf<W(0)>(su: Suite<W>, h: array<W>, message: seq<byte>, blockNb: nat, unroll: bool)
    requires su.Valid() && h.Length == 8 && blockNb * su.BlockBytes() <= |message|
    modifies h
    ensures h[..] == HashBlocks(su, old(h[..]), message[..blockNb * su.BlockBytes()])
  {
    hide Compress;
    var b := su.BlockBytes();
    assert message[..0] == [];
    for i := 0 to blockNb
      invariant i * b <= |message|
      invariant h[..] == HashBlocks(su, old(h[..]), message[..i * b])
    {
      BlockBounds(i, blockNb, b);
      var sub := message[i * b..(i + 1) * b];
      HashOne(su, h[..], sub);
      TransfOne(su, h, sub, unroll);
      assert message[..(i + 1) * b] == message[..i * b] + sub;
      HashAppend(su, old(h[..]), message[..i * b], sub);
    }
  }

  lemma BlockBounds(i: nat, n: nat, b: nat)
    requires i < n && (b == 64 || b == 128)
    ensures i * b <= (i + 1) * b == i * b + b <= n * b && i * b % b == 0
  {
  }

  /** One block of `Transf`. */
  method TransfOne<W(0)>(su: Suite<W>, h: array<W>, sub: seq<byte>, unroll: bool)
    requires su.Valid() && h.Length == 8 && |sub| == su.BlockBytes()
    modifies h
    ensures h[..] == Compress(su, old(h[..]), sub)
  {
    hide Schedule, Rounds;
    var w := Expand(su, sub);
    var wv := new W[8](i requires 0 <= i < 8 reads h => h[i]);
    assert wv[..] == h[..];
    if unroll {
      UnrolledRounds(su, wv, w, sub);
    } else {
      RolledRounds(su, wv, w, sub);
    }
    ghost var v := wv[..];
    for j := 0 to 8
      invariant wv[..] == v
      invariant forall i :: 0 <= i < j ==> h[i] == su.add(old(h[i]), v[i])
      invariant forall i :: j <= i < 8 ==> h[i] == old(h[i])
    {
      h[j] := su.add(h[j], wv[j]);
    }
    assert h[..] == Compress(su, old(h[..]), sub);
  }
}
