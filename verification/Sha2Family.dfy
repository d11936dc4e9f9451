/** The four members of the SHA-2 family that drivers/hal_sha2.c builds: word operations, constants and entry points. */
module Sha2Family {
  import opened Words
  import opened Sha2
  import opened Sha2Context
  import opened Sha2Constants
  import opened WordNumbers

  // ---------------------------------------------------------------------------------------------
  // 32-bit words
  // ---------------------------------------------------------------------------------------------

  // `ROTR(x, n)` is written out, as the macro expands.
  function Sha256F1(x: bv32): bv32 { ((x >> 2) | (x << 30)) ^ ((x >> 13) | (x << 19)) ^ ((x >> 22) | (x << 10)) }
  function Sha256F2(x: bv32): bv32 { ((x >> 6) | (x << 26)) ^ ((x >> 11) | (x << 21)) ^ ((x >> 25) | (x << 7)) }
  function Sha256F3(x: bv32): bv32 { ((x >> 7) | (x << 25)) ^ ((x >> 18) | (x << 14)) ^ (x >> 3) }
  function Sha256F4(x: bv32): bv32 { ((x >> 17) | (x << 15)) ^ ((x >> 19) | (x << 13)) ^ (x >> 10) }

  /** `PACK32` */
  function Pack32(s: seq<byte>): bv32
    requires |s| == 4
  {
    (s[3] as bv32) | ((s[2] as bv32) << 8) | ((s[1] as bv32) << 16) | ((s[0] as bv32) << 24)
  }

  /** `UNPACK32` */
  function Unpack32(x: bv32): seq<byte> {
    [((x >> 24) & 0xFF) as byte, ((x >> 16) & 0xFF) as byte, ((x >> 8) & 0xFF) as byte, (x & 0xFF) as byte]
  }

  // The functions of section 4.1.2 of FIPS 180-2.
  function BigSigma0_256(x: bv32): bv32 { x.RotateRight(2) ^ x.RotateRight(13) ^ x.RotateRight(22) }
  function BigSigma1_256(x: bv32): bv32 { x.RotateRight(6) ^ x.RotateRight(11) ^ x.RotateRight(25) }
  function SmallSigma0_256(x: bv32): bv32 { x.RotateRight(7) ^ x.RotateRight(18) ^ (x >> 3) }
  function SmallSigma1_256(x: bv32): bv32 { x.RotateRight(17) ^ x.RotateRight(19) ^ (x >> 10) }

  /** `r` has the bits of `y` where `x` has ones, and those of `z` elsewhere. */
  predicate Chosen32(r: bv32, x: bv32, y: bv32, z: bv32) { Agree32(r, y, x) && Agree32(r, z, !x) }

  /** Two words agree on the bits of a mask. */
  predicate Agree32(a: bv32, b: bv32, mask: bv32) { a & mask == b & mask }

  /** `r` has ones where at least two of the three do. */
  predicate Majority32(r: bv32, x: bv32, y: bv32, z: bv32) { r == (x & y) | (x & z) | (y & z) }

  /** `x` is the word with the bytes `s`, the most significant first. */
  predicate BigEndianWord32(x: bv32, s: seq<byte>) {
    |s| == 4
    && x >> 24 == s[0] as bv32
    && (x >> 16) & 0xFF == s[1] as bv32
    && (x >> 8) & 0xFF == s[2] as bv32
    && x & 0xFF == s[3] as bv32
  }

  /** `CH` and `MAJ` */
  function Ch32(x: bv32, y: bv32, z: bv32): bv32 { (x & y) ^ (!x & z) }
  function Maj32(x: bv32, y: bv32, z: bv32): bv32 { (x & y) ^ (x & z) ^ (y & z) }

  lemma ChOnOnes32(x: bv32, y: bv32, z: bv32)
    ensures Agree32((x & y) ^ (!x & z), y, x)
  {
  }

  lemma ChOnZeros32(x: bv32, y: bv32, z: bv32)
    ensures Agree32((x & y) ^ (!x & z), z, !x)
  {
  }

  lemma ChChooses32(x: bv32, y: bv32, z: bv32)
    ensures Chosen32(Ch32(x, y, z), x, y, z)
  {
    hide Agree32;
    ChOnOnes32(x, y, z);
    ChOnZeros32(x, y, z);
  }

  lemma MajIsMajority32(x: bv32, y: bv32, z: bv32)
    ensures Majority32(Maj32(x, y, z), x, y, z)
  {
  }

  lemma PackIsBigEndian32(s: seq<byte>)
    requires |s| == 4
    ensures BigEndianWord32(Pack32(s), s)
  {
  }

  lemma UnpackIsBigEndian32(x: bv32)
    ensures BigEndianWord32(x, Unpack32(x))
  {
  }

  /** The macros are those functions. */
  lemma Sigma256(x: bv32)
    ensures Sha256F1(x) == BigSigma0_256(x) && Sha256F2(x) == BigSigma1_256(x)
    ensures Sha256F3(x) == SmallSigma0_256(x) && Sha256F4(x) == SmallSigma1_256(x)
  {
  }

  lemma PackUnpack32(x: bv32)
    ensures |Unpack32(x)| == 4 && Pack32(Unpack32(x)) == x
  {
  }

  // ---------------------------------------------------------------------------------------------
  // 64-bit words
  // ---------------------------------------------------------------------------------------------

  function Sha512F1(x: bv64): bv64 { ((x >> 28) | (x << 36)) ^ ((x >> 34) | (x << 30)) ^ ((x >> 39) | (x << 25)) }
  function Sha512F2(x: bv64): bv64 { ((x >> 14) | (x << 50)) ^ ((x >> 18) | (x << 46)) ^ ((x >> 41) | (x << 23)) }
  function Sha512F3(x: bv64): bv64 { ((x >> 1) | (x << 63)) ^ ((x >> 8) | (x << 56)) ^ (x >> 7) }
  function Sha512F4(x: bv64): bv64 { ((x >> 19) | (x << 45)) ^ ((x >> 61) | (x << 3)) ^ (x >> 6) }

  /** `PACK64` */
  function Pack64(s: seq<byte>): bv64
    requires |s| == 8
  {
    (s[7] as bv64) | ((s[6] as bv64) << 8) | ((s[5] as bv64) << 16) | ((s[4] as bv64) << 24)
    | ((s[3] as bv64) << 32) | ((s[2] as bv64) << 40) | ((s[1] as bv64) << 48) | ((s[0] as bv64) << 56)
  }

  /** `UNPACK64` */
  function Unpack64(x: bv64): seq<byte> {
    [((x >> 56) & 0xFF) as byte, ((x >> 48) & 0xFF) as byte, ((x >> 40) & 0xFF) as byte, ((x >> 32) & 0xFF) as byte,
     ((x >> 24) & 0xFF) as byte, ((x >> 16) & 0xFF) as byte, ((x >> 8) & 0xFF) as byte, (x & 0xFF) as byte]
  }

  // The functions of section 4.1.3 of FIPS 180-2.
  function BigSigma0_512(x: bv64): bv64 { x.RotateRight(28) ^ x.RotateRight(34) ^ x.RotateRight(39) }
  function BigSigma1_512(x: bv64): bv64 { x.RotateRight(14) ^ x.RotateRight(18) ^ x.RotateRight(41) }
  function SmallSigma0_512(x: bv64): bv64 { x.RotateRight(1) ^ x.RotateRight(8) ^ (x >> 7) }
  function SmallSigma1_512(x: bv64): bv64 { x.RotateRight(19) ^ x.RotateRight(61) ^ (x >> 6) }

  /** `r` has the bits of `y` where `x` has ones, and those of `z` elsewhere. */
  predicate Chosen64(r: bv64, x: bv64, y: bv64, z: bv64) { Agree64(r, y, x) && Agree64(r, z, !x) }

  /** Two words agree on the bits of a mask. */
  predicate Agree64(a: bv64, b: bv64, mask: bv64) { a & mask == b & mask }

  /** `r` has ones where at least two of the three do. */
  predicate Majority64(r: bv64, x: bv64, y: bv64, z: bv64) { r == (x & y) | (x & z) | (y & z) }

  /** `x` is the word with the bytes `s`, the most significant first. */
  predicate BigEndianWord64(x: bv64, s: seq<byte>) {
    |s| == 8
    && x >> 56 == s[0] as bv64
    && (x >> 48) & 0xFF == s[1] as bv64
    && (x >> 40) & 0xFF == s[2] as bv64
    && (x >> 32) & 0xFF == s[3] as bv64
    && (x >> 24) & 0xFF == s[4] as bv64
    && (x >> 16) & 0xFF == s[5] as bv64
    && (x >> 8) & 0xFF == s[6] as bv64
    && x & 0xFF == s[7] as bv64
  }

  /** `CH` and `MAJ` */
  function Ch64(x: bv64, y: bv64, z: bv64): bv64 { (x & y) ^ (!x & z) }
  function Maj64(x: bv64, y: bv64, z: bv64): bv64 { (x & y) ^ (x & z) ^ (y & z) }

  lemma ChOnOnes64(x: bv64, y: bv64, z: bv64)
    ensures Agree64((x & y) ^ (!x & z), y, x)
  {
  }

  lemma ChOnZeros64(x: bv64, y: bv64, z: bv64)
    ensures Agree64((x & y) ^ (!x & z), z, !x)
  {
  }

  lemma ChChooses64(x: bv64, y: bv64, z: bv64)
    ensures Chosen64(Ch64(x, y, z), x, y, z)
  {
    hide Agree64;
    ChOnOnes64(x, y, z);
    ChOnZeros64(x, y, z);
  }

  lemma MajIsMajority64(x: bv64, y: bv64, z: bv64)
    ensures Majority64(Maj64(x, y, z), x, y, z)
  {
  }

  lemma PackIsBigEndian64(s: seq<byte>)
    requires |s| == 8
    ensures BigEndianWord64(Pack64(s), s)
  {
  }

  lemma UnpackIsBigEndian64(x: bv64)
    ensures BigEndianWord64(x, Unpack64(x))
  {
  }

  /** The macros are those functions. */
  lemma Sigma512(x: bv64)
    ensures Sha512F1(x) == BigSigma0_512(x) && Sha512F2(x) == BigSigma1_512(x)
    ensures Sha512F3(x) == SmallSigma0_512(x) && Sha512F4(x) == SmallSigma1_512(x)
  {
  }

  lemma PackUnpack64(x: bv64)
    ensures |Unpack64(x)| == 8 && Pack64(Unpack64(x)) == x
  {
  }

  // ---------------------------------------------------------------------------------------------
  // Suites
  // ---------------------------------------------------------------------------------------------

  function Suite256(): Suite<bv32> {
    Suite(4, 64, Sha256K(), Add32, Sha256F1, Sha256F2, Sha256F3, Sha256F4, Ch32, Maj32,
          (s: seq<byte>) => if |s| == 4 then Pack32(s) else 0, Unpack32)
  }

  function Suite512(): Suite<bv64> {
    Suite(8, 80, Sha512K(), Add64, Sha512F1, Sha512F2, Sha512F3, Sha512F4, Ch64, Maj64,
          (s: seq<byte>) => if |s| == 8 then Pack64(s) else 0, Unpack64)
  }

  /** Every slot of the suite for 32-bit words holds what FIPS 180-2 puts there. */
  lemma Fips256(x: bv32, y: bv32, z: bv32)
    ensures var su := Suite256();
      && su.wordBytes == 4 && su.rounds == 64 && su.k == Sha256K()
      && su.add(x, y) == x + y
      && su.bigSigma0(x) == BigSigma0_256(x) && su.bigSigma1(x) == BigSigma1_256(x)
      && su.smallSigma0(x) == SmallSigma0_256(x) && su.smallSigma1(x) == SmallSigma1_256(x)
      && Chosen32(su.ch(x, y, z), x, y, z) && Majority32(su.maj(x, y, z), x, y, z)
      && BigEndianWord32(x, su.unpack(x))
  {
    hide Sha256F1, Sha256F2, Sha256F3, Sha256F4, Sha256K, Ch32, Maj32, Unpack32,
      BigSigma0_256, BigSigma1_256, SmallSigma0_256, SmallSigma1_256, Chosen32, Majority32, BigEndianWord32;
    Sigma256(x);
    ChChooses32(x, y, z);
    MajIsMajority32(x, y, z);
    UnpackIsBigEndian32(x);
  }

  lemma FipsPack256(s: seq<byte>)
    requires |s| == 4
    ensures BigEndianWord32(Suite256().pack(s), s)
  {
    hide Pack32, BigEndianWord32, Sha256K;
    PackIsBigEndian32(s);
  }

  /** Addition in the suite is that of numbers modulo 2^32, and every word is such a number. */
  lemma FipsAdd256(m: nat, n: nat)
    ensures Suite256().add(Word32(m), Word32(n)) == Word32((m + n) % TWO32)
  {
    hide Word32, Sha256K;
    AddIsModular32(m, n);
  }

  /** Every slot of the suite for 64-bit words holds what FIPS 180-2 puts there. */
  lemma Fips512(x: bv64, y: bv64, z: bv64)
    ensures var su := Suite512();
      && su.wordBytes == 8 && su.rounds == 80 && su.k == Sha512K()
      && su.add(x, y) == x + y
      && su.bigSigma0(x) == BigSigma0_512(x) && su.bigSigma1(x) == BigSigma1_512(x)
      && su.smallSigma0(x) == SmallSigma0_512(x) && su.smallSigma1(x) == SmallSigma1_512(x)
      && Chosen64(su.ch(x, y, z), x, y, z) && Majority64(su.maj(x, y, z), x, y, z)
      && BigEndianWord64(x, su.unpack(x))
  {
    hide Sha512F1, Sha512F2, Sha512F3, Sha512F4, Sha512K, Ch64, Maj64, Unpack64,
      BigSigma0_512, BigSigma1_512, SmallSigma0_512, SmallSigma1_512, Chosen64, Majority64, BigEndianWord64;
    Sigma512(x);
    ChChooses64(x, y, z);
    MajIsMajority64(x, y, z);
    UnpackIsBigEndian64(x);
  }

  lemma FipsPack512(s: seq<byte>)
    requires |s| == 8
    ensures BigEndianWord64(Suite512().pack(s), s)
  {
    hide Pack64, BigEndianWord64, Sha512K;
    PackIsBigEndian64(s);
  }

  /** Addition in the suite is that of numbers modulo 2^64. */
  lemma FipsAdd512(m: nat, n: nat)
    ensures Suite512().add(Word64(m), Word64(n)) == Word64((m + n) % TWO64)
  {
    hide Word64, Sha512K;
    AddIsModular64(m, n);
  }

  /** What each entry point promises: the digest of the standard, for messages of fewer than 2^32 bits. */
  ghost predicate Digests<W(!new)>(su: Suite<W>, h0: seq<W>, n: nat, message: seq<byte>, digest: seq<byte>)
    requires su.Valid() && |h0| == 8 && n <= 8
  {
    8 * |message| < TWO32 ==> digest == DigestOf(su, h0, n, Padded(su, message))
  }

  lemma ConcatOne(message: seq<byte>)
    requires |message| < TWO32
    ensures Concat([message]) == message && Fitting([message], 64) && Fitting([message], 128)
  {
    assert [message][..0] == [] && Concat([]) == [];
  }

  method Sha224(message: seq<byte>) returns (digest: seq<byte>)
    requires |message| < TWO32
    ensures Suite256().Valid() && Digests(Suite256(), SHA224_H0, 7, message, digest)
  {
    ConcatOne(message);
    digest := HashPieces(Suite256(), SHA224_H0, 7, [message], false);
  }

  method Sha256(message: seq<byte>) returns (digest: seq<byte>)
    requires |message| < TWO32
    ensures Suite256().Valid() && Digests(Suite256(), SHA256_H0, 8, message, digest)
  {
    ConcatOne(message);
    digest := HashPieces(Suite256(), SHA256_H0, 8, [message], false);
  }

  method Sha384(message: seq<byte>) returns (digest: seq<byte>)
    requires |message| < TWO32
    ensures Suite512().Valid() && Digests(Suite512(), SHA384_H0, 6, message, digest)
  {
    ConcatOne(message);
    digest := HashPieces(Suite512(), SHA384_H0, 6, [message], false);
  }

  method Sha512(message: seq<byte>) returns (digest: seq<byte>)
    requires |message| < TWO32
    ensures Suite512().Valid() && Digests(Suite512(), SHA512_H0, 8, message, digest)
  {
    ConcatOne(message);
    digest := HashPieces(Suite512(), SHA512_H0, 8, [message], false);
  }
}
