/**
 Machine words as numbers: what word addition is, stated through binary notation. Words are written digit by digit, so
 that nothing rests on conversions between words and integers.
 */
module WordNumbers {
  import opened Words

  // ---------------------------------------------------------------------------------------------
  // Words of 32 bits
  // ---------------------------------------------------------------------------------------------

  /** Word addition, as the machine has it. */
  function Add32(a: bv32, b: bv32): bv32 { a + b }

  /** A binary digit behind a word. */
  function Then0_32(w: bv32): bv32 { w << 1 }
  function Then1_32(w: bv32): bv32 { (w << 1) | 1 }

  /** The word that a number is in binary, without the digits that do not fit. */
  function Word32(n: nat): bv32 {
    if n == 0 then 0 else if n % 2 == 0 then Then0_32(Word32(n / 2)) else Then1_32(Word32(n / 2))
  }

  /** The word after one that ends in 0, and after one that ends in 1. */
  lemma NextWord32(w: bv32)
    ensures Add32(Then0_32(w), 1) == Then1_32(w)
    ensures Add32(Then1_32(w), 1) == Then0_32(Add32(w, 1))
  {
  }

  lemma FirstWords32()
    ensures Word32(0) == 0 && Word32(1) == 1 == Add32(0, 1) && Then0_32(0) == 0
  {
  }

  lemma WordEnds32(n: nat)
    ensures Word32(2 * n) == Then0_32(Word32(n)) && Word32(2 * n + 1) == Then1_32(Word32(n))
  {
    FirstWords32();
    hide Then0_32, Then1_32;
  }

  lemma {:induction false} WordSuccessor32(n: nat)
    ensures Word32(n + 1) == Add32(Word32(n), 1)
  {
    hide Add32, Then0_32, Then1_32, Word32;
    var k := n / 2;
    WordEnds32(k);
    NextWord32(Word32(k));
    if n % 2 == 1 {
      WordSuccessor32(k);
      WordEnds32(k + 1);
      assert n == 2 * k + 1;
    } else {
      assert n == 2 * k;
    }
  }

  lemma AddIs32(a: bv32, b: bv32)
    ensures Add32(a, b) == a + b
  {
  }

  lemma AddZero32(a: bv32)
    ensures Add32(a, 0) == a
  {
  }

  lemma Regroup32(a: bv32, b: bv32)
    ensures Add32(a, b + 1) == Add32(a + b, 1)
  {
    assert Add32(a, b + 1) == a + b + 1;
    assert Add32(a + b, 1) == a + b + 1;
  }

  lemma AddNext32(a: bv32, b: bv32)
    ensures Add32(a, Add32(b, 1)) == Add32(Add32(a, b), 1)
  {
    hide Add32;
    AddIs32(a, b);
    AddIs32(b, 1);
    Regroup32(a, b);
  }

  lemma {:induction false} WordSum32(m: nat, n: nat)
    ensures Add32(Word32(m), Word32(n)) == Word32(m + n)
    decreases n
  {
    hide Add32, Word32;
    FirstWords32();
    if n > 0 {
      WordSum32(m, n - 1);
      WordSuccessor32(n - 1);
      WordSuccessor32(m + (n - 1));
      AddNext32(Word32(m), Word32(n - 1));
    } else {
      AddZero32(Word32(m));
    }
  }

  /** A byte of zeros behind a word. */
  function ThenByte32(w: bv32): bv32 { w << 8 }

  lemma Shifts32(w: bv32)
    ensures Then0_32(w) == w << 1 && Then0_32(w << 1) == w << 2 && Then0_32(w << 2) == w << 3
    ensures Then0_32(w << 3) == w << 4 && Then0_32(w << 4) == w << 5 && Then0_32(w << 5) == w << 6
    ensures Then0_32(w << 6) == w << 7 && Then0_32(w << 7) == ThenByte32(w)
  {
  }

  lemma EightZeros32(w: bv32)
    ensures Then0_32(Then0_32(Then0_32(Then0_32(Then0_32(Then0_32(Then0_32(Then0_32(w)))))))) == ThenByte32(w)
  {
    hide Then0_32, ThenByte32;
    Shifts32(w);
  }

  lemma WordByte32(n: nat)
    ensures Word32(256 * n) == ThenByte32(Word32(n))
  {
    hide Word32, Then0_32, Then1_32, ThenByte32;
    EightZeros32(Word32(n));
    WordEnds32(n);
    WordEnds32(2 * n);
    WordEnds32(4 * n);
    WordEnds32(8 * n);
    WordEnds32(16 * n);
    WordEnds32(32 * n);
    WordEnds32(64 * n);
    WordEnds32(128 * n);
  }

  lemma WordWraps32()
    ensures Word32(TWO32) == 0
  {
    hide Word32;
    FirstWords32();
    WordByte32(1);
    WordByte32(0x100);
    WordByte32(0x10000);
    WordByte32(0x1000000);
  }

  lemma {:induction false} WordModulo32(n: nat, q: nat)
    ensures Word32(n + TWO32 * q) == Word32(n)
    decreases q
  {
    hide Add32, Word32;
    if q > 0 {
      WordModulo32(n, q - 1);
      WordWraps32();
      WordSum32(n + TWO32 * (q - 1), TWO32);
      AddZero32(Word32(n));
      assert n + TWO32 * (q - 1) + TWO32 == n + TWO32 * q;
    }
  }

  /** Addition of words is addition of numbers modulo 2^32. */
  lemma AddIsModular32(m: nat, n: nat)
    ensures Add32(Word32(m), Word32(n)) == Word32((m + n) % TWO32)
  {
    hide Word32, Add32;
    WordSum32(m, n);
    WordModulo32((m + n) % TWO32, (m + n) / TWO32);
  }

  /** Every word is a number below 2^32. */
  lemma {:induction false} EveryWord32(w: bv32) returns (n: nat)
    ensures Word32(n) == w && n < TWO32
    decreases w
  {
    hide Word32, Then0_32, Then1_32;
    FirstWords32();
    if w == 0 {
      n := 0;
    } else {
      LastDigit32(w);
      var half := EveryWord32(w >> 1);
      WordEnds32(half);
      var whole := if w == Then0_32(w >> 1) then 2 * half else 2 * half + 1;
      n := whole % TWO32;
      WordModulo32(n, whole / TWO32);
    }
  }

  lemma LastDigit32(w: bv32)
    requires w != 0
    ensures w >> 1 < w && (w == Then0_32(w >> 1) || w == Then1_32(w >> 1))
  {
  }

  // ---------------------------------------------------------------------------------------------
  // Words of 64 bits
  // ---------------------------------------------------------------------------------------------

  /** Word addition, as the machine has it. */
  function Add64(a: bv64, b: bv64): bv64 { a + b }

  /** A binary digit behind a word. */
  function Then0_64(w: bv64): bv64 { w << 1 }
  function Then1_64(w: bv64): bv64 { (w << 1) | 1 }

  /** The word that a number is in binary, without the digits that do not fit. */
  function Word64(n: nat): bv64 {
    if n == 0 then 0 else if n % 2 == 0 then Then0_64(Word64(n / 2)) else Then1_64(Word64(n / 2))
  }

  /** The word after one that ends in 0, and after one that ends in 1. */
  lemma NextWord64(w: bv64)
    ensures Add64(Then0_64(w), 1) == Then1_64(w)
    ensures Add64(Then1_64(w), 1) == Then0_64(Add64(w, 1))
  {
  }

  lemma FirstWords64()
    ensures Word64(0) == 0 && Word64(1) == 1 == Add64(0, 1) && Then0_64(0) == 0
  {
  }

  lemma WordEnds64(n: nat)
    ensures Word64(2 * n) == Then0_64(Word64(n)) && Word64(2 * n + 1) == Then1_64(Word64(n))
  {
    FirstWords64();
    hide Then0_64, Then1_64;
  }

  lemma {:induction false} WordSuccessor64(n: nat)
    ensures Word64(n + 1) == Add64(Word64(n), 1)
  {
    hide Add64, Then0_64, Then1_64, Word64;
    var k := n / 2;
    WordEnds64(k);
    NextWord64(Word64(k));
    if n % 2 == 1 {
      WordSuccessor64(k);
      WordEnds64(k + 1);
      assert n == 2 * k + 1;
    } else {
      assert n == 2 * k;
    }
  }

  lemma AddIs64(a: bv64, b: bv64)
    ensures Add64(a, b) == a + b
  {
  }

  lemma AddZero64(a: bv64)
    ensures Add64(a, 0) == a
  {
  }

  lemma Regroup64(a: bv64, b: bv64)
    ensures Add64(a, b + 1) == Add64(a + b, 1)
  {
    assert Add64(a, b + 1) == a + b + 1;
    assert Add64(a + b, 1) == a + b + 1;
  }

  lemma AddNext64(a: bv64, b: bv64)
    ensures Add64(a, Add64(b, 1)) == Add64(Add64(a, b), 1)
  {
    hide Add64;
    AddIs64(a, b);
    AddIs64(b, 1);
    Regroup64(a, b);
  }

  lemma {:induction false} WordSum64(m: nat, n: nat)
    ensures Add64(Word64(m), Word64(n)) == Word64(m + n)
    decreases n
  {
    hide Add64, Word64;
    FirstWords64();
    if n > 0 {
      WordSum64(m, n - 1);
      WordSuccessor64(n - 1);
      WordSuccessor64(m + (n - 1));
      AddNext64(Word64(m), Word64(n - 1));
    } else {
      AddZero64(Word64(m));
    }
  }

  /** A byte of zeros behind a word. */
  function ThenByte64(w: bv64): bv64 { w << 8 }

  lemma Shifts64(w: bv64)
    ensures Then0_64(w) == w << 1 && Then0_64(w << 1) == w << 2 && Then0_64(w << 2) == w << 3
    ensures Then0_64(w << 3) == w << 4 && Then0_64(w << 4) == w << 5 && Then0_64(w << 5) == w << 6
    ensures Then0_64(w << 6) == w << 7 && Then0_64(w << 7) == ThenByte64(w)
  {
  }

  lemma EightZeros64(w: bv64)
    ensures Then0_64(Then0_64(Then0_64(Then0_64(Then0_64(Then0_64(Then0_64(Then0_64(w)))))))) == ThenByte64(w)
  {
    hide Then0_64, ThenByte64;
    Shifts64(w);
  }

  lemma WordByte64(n: nat)
    ensures Word64(256 * n) == ThenByte64(Word64(n))
  {
    hide Word64, Then0_64, Then1_64, ThenByte64;
    EightZeros64(Word64(n));
    WordEnds64(n);
    WordEnds64(2 * n);
    WordEnds64(4 * n);
    WordEnds64(8 * n);
    WordEnds64(16 * n);
    WordEnds64(32 * n);
    WordEnds64(64 * n);
    WordEnds64(128 * n);
  }

  lemma WordWraps64()
    ensures Word64(TWO64) == 0
  {
    hide Word64;
    FirstWords64();
    WordByte64(1);
    WordByte64(0x100);
    WordByte64(0x10000);
    WordByte64(0x1000000);
    WordByte64(0x100000000);
    WordByte64(0x10000000000);
    WordByte64(0x1000000000000);
    WordByte64(0x100000000000000);
  }

  lemma {:induction false} WordModulo64(n: nat, q: nat)
    ensures Word64(n + TWO64 * q) == Word64(n)
    decreases q
  {
    hide Add64, Word64;
    if q > 0 {
      WordModulo64(n, q - 1);
      WordWraps64();
      WordSum64(n + TWO64 * (q - 1), TWO64);
      AddZero64(Word64(n));
      assert n + TWO64 * (q - 1) + TWO64 == n + TWO64 * q;
    }
  }

  /** Addition of words is addition of numbers modulo 2^64. */
  lemma AddIsModular64(m: nat, n: nat)
    ensures Add64(Word64(m), Word64(n)) == Word64((m + n) % TWO64)
  {
    hide Word64, Add64;
    WordSum64(m, n);
    WordModulo64((m + n) % TWO64, (m + n) / TWO64);
  }

  /** Every word is a number below 2^64. */
  lemma {:induction false} EveryWord64(w: bv64) returns (n: nat)
    ensures Word64(n) == w && n < TWO64
    decreases w
  {
    hide Word64, Then0_64, Then1_64;
    FirstWords64();
    if w == 0 {
      n := 0;
    } else {
      LastDigit64(w);
      var half := EveryWord64(w >> 1);
      WordEnds64(half);
      var whole := if w == Then0_64(w >> 1) then 2 * half else 2 * half + 1;
      n := whole % TWO64;
      WordModulo64(n, whole / TWO64);
    }
  }

  lemma LastDigit64(w: bv64)
    requires w != 0
    ensures w >> 1 < w && (w == Then0_64(w >> 1) || w == Then1_64(w >> 1))
  {
  }
}
