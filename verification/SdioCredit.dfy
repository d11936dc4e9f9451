/**
 The transmit credits that the SDIO interface reports to the host (drivers/hal_sdio.c): four 8-bit counters
 packed into one word per virtual interface, and the threshold after which the host is told.
 */
module SdioCredit {
  import opened Words

  const REPORT_THRESHOLD: nat := 50

  function Unit(ac: nat): nat {
    match ac
    case 0 => 1
    case 1 => 0x100
    case 2 => 0x1_0000
    case _ => 0x100_0000
  }

  /** `(word >> ac * 8) & 0xff` */
  function Lane(word: nat, ac: nat): (n: nat)
    requires ac < 4
    ensures n < 0x100
  {
    word / Unit(ac) % 0x100
  }

  /** `(word & ~(0xff << ac * 8)) | (credit << ac * 8)`; the bits that are set have just been cleared. */
  function Put(word: nat, ac: nat, credit: nat): int
    requires ac < 4
  {
    word - Lane(word, ac) * Unit(ac) + credit * Unit(ac)
  }

  function Word(c0: nat, c1: nat, c2: nat, c3: nat): nat {
    c0 + 0x100 * c1 + 0x1_0000 * c2 + 0x100_0000 * c3
  }

  /** A word is its four counters. */
  lemma Counters(word: nat)
    requires word < TWO32
    ensures word == Word(Lane(word, 0), Lane(word, 1), Lane(word, 2), Lane(word, 3))
  {
    var q1, q2, q3 := word / 0x100, word / 0x100 / 0x100, word / 0x100 / 0x100 / 0x100;
    Quotient(word, q2, 0x1_0000, word - 0x1_0000 * q2);
    Quotient(word, q3, 0x100_0000, word - 0x100_0000 * q3);
    assert word == 0x100 * q1 + Lane(word, 0) && q1 == 0x100 * q2 + Lane(word, 1) && q2 == 0x100 * q3 + Lane(word, 2);
  }

  lemma LanesOfWord(c0: nat, c1: nat, c2: nat, c3: nat)
    requires c0 < 0x100 && c1 < 0x100 && c2 < 0x100 && c3 < 0x100
    ensures var w := Word(c0, c1, c2, c3);
      w < TWO32 && Lane(w, 0) == c0 && Lane(w, 1) == c1 && Lane(w, 2) == c2 && Lane(w, 3) == c3
  {
    var w := Word(c0, c1, c2, c3);
    Quotient(w, 0x1_0000 * c3 + 0x100 * c2 + c1, 0x100, c0);
    Quotient(w, 0x100 * c3 + c2, 0x1_0000, 0x100 * c1 + c0);
    Quotient(w, c3, 0x100_0000, 0x1_0000 * c2 + 0x100 * c1 + c0);
    Quotient(0x1_0000 * c3 + 0x100 * c2 + c1, 0x100 * c3 + c2, 0x100, c1);
    Quotient(0x100 * c3 + c2, c3, 0x100, c2);
  }

  /** Writing one counter leaves the other three as they are. */
  lemma PutLane(word: nat, ac: nat, credit: nat)
    requires ac < 4 && word < TWO32 && credit < 0x100
    ensures 0 <= Put(word, ac, credit) < TWO32
    ensures forall k :: 0 <= k < 4 ==>
      Lane(Put(word, ac, credit), k) == if k == ac then credit else Lane(word, k)
  {
    hide Lane;
    Counters(word);
    var c := seq(4, k requires 0 <= k < 4 => if k == ac then credit else Lane(word, k));
    LanesOfWord(c[0], c[1], c[2], c[3]);
    assert Put(word, ac, credit) == Word(c[0], c[1], c[2], c[3]);
  }

  /** One call of `sdio_update_credit`; access categories 0 to 3 and 6 to 9 are those it accepts. */
  datatype Change = Change(ac: nat, value: nat, inc: bool) {
    predicate Accepted() { (ac <= 3 || 6 <= ac <= 9) && value < 0x100 }
    function Vif(): nat { if ac <= 3 then 0 else 1 }
    function Counter(): nat
      requires Accepted()
    {
      if ac <= 3 then ac else ac - 6
    }
    /** What it adds to counter `k` of interface `vif`. */
    function Delta(vif: nat, k: nat): int
      requires Accepted()
    {
      if vif != Vif() || k != Counter() then 0 else if inc then value as int else -(value as int)
    }
  }

  /** The sum of all changes to one counter. */
  function Balance(changes: seq<Change>, vif: nat, k: nat): int
    requires forall c <- changes :: c.Accepted()
  {
    if changes == [] then 0
    else Balance(changes[..|changes| - 1], vif, k) + changes[|changes| - 1].Delta(vif, k)
  }

  /** The sum of all values, whatever their direction. */
  function Volume(changes: seq<Change>): nat {
    if changes == [] then 0 else Volume(changes[..|changes| - 1]) + changes[|changes| - 1].value
  }

  class Credits {
    var credit: array<nat>
    var rxReport: nat
    var threshold: nat
    var needInfo: bool

    ghost predicate Valid()
      reads `credit, `threshold, credit
    {
      credit.Length == 2 && credit[0] < TWO32 && credit[1] < TWO32 && threshold <= REPORT_THRESHOLD
    }

    /** `sdio_start` */
    constructor (rxReport: nat)
      ensures Valid() && fresh(credit) && credit[0] == 0 && credit[1] == 0
      ensures this.rxReport == rxReport && threshold == 0 && !needInfo
    {
      credit := new nat[2](_ => 0);
      this.rxReport, threshold, needInfo := rxReport, 0, false;
    }

    /** `sdio_update_credit` */
    method Update(c: Change)
      requires Valid() && c.Accepted()
      modifies `rxReport, `threshold, `needInfo, credit
      ensures Valid()
      ensures forall vif, k :: 0 <= vif < 2 && 0 <= k < 4 ==>
        Lane(credit[vif], k) == U8(old(Lane(credit[vif], k)) + c.Delta(vif, k))
      ensures rxReport == U16(old(rxReport) + c.value)
      ensures needInfo <==> old(needInfo) || old(threshold) + c.value > REPORT_THRESHOLD
      ensures threshold == if old(needInfo) then old(threshold) else if needInfo then 0 else old(threshold) + c.value
    {
      hide Lane, Put, U16;
      var vif, ac := 0, c.ac;
      if 6 <= ac {
        vif := 1;
        ac := ac - 6;
      }
      var oldCredit := credit[vif];
      var count := Lane(oldCredit, ac);
      if c.inc {
        count := U8(count + c.value);
      } else {
        count := U8(count - c.value);
      }
      PutLane(oldCredit, ac, count);
      credit[vif] := Put(oldCredit, ac, count);
      rxReport := U16(rxReport + c.value);
      if !needInfo {
        threshold := threshold + c.value;
        if threshold > REPORT_THRESHOLD {
          needInfo := true;
          threshold := 0;
        }
      }
    }
  }

  /**
   Over every sequence of changes each of the eight counters is the sum of its own changes modulo 256, and
   a report is due exactly when the values add up to more than the threshold.
   */
  method Tally(changes: seq<Change>, rxReport: nat) returns (p: Credits)
    requires forall c <- changes :: c.Accepted()
    requires rxReport < TWO16
    ensures p.Valid()
    ensures forall vif, k :: 0 <= vif < 2 && 0 <= k < 4 ==>
      Lane(p.credit[vif], k) == U8(Balance(changes, vif, k))
    ensures p.rxReport == U16(rxReport + Volume(changes))
    ensures p.needInfo <==> Volume(changes) > REPORT_THRESHOLD
  {
    hide U8, U16, Lane;
    p := new Credits(rxReport);
    ZeroLanes();
    Truncations(0, 0);
    SmallReport(rxReport);
    for i := 0 to |changes|
      invariant p.Valid() && fresh(p) && fresh(p.credit)
      invariant forall vif, k :: 0 <= vif < 2 && 0 <= k < 4 ==>
        Lane(p.credit[vif], k) == U8(Balance(changes[..i], vif, k))
      invariant p.rxReport == U16(rxReport + Volume(changes[..i]))
      invariant p.needInfo <==> Volume(changes[..i]) > REPORT_THRESHOLD
      invariant !p.needInfo ==> p.threshold == Volume(changes[..i])
    {
      var c := changes[i];
      assert changes[..i + 1][..i] == changes[..i];
      forall vif, k | 0 <= vif < 2 && 0 <= k < 4
        ensures U8(U8(Balance(changes[..i], vif, k)) + c.Delta(vif, k)) == U8(Balance(changes[..i + 1], vif, k))
      {
        Truncations(Balance(changes[..i], vif, k), c.Delta(vif, k));
      }
      Truncations(rxReport + Volume(changes[..i]), c.value);
      p.Update(c);
    }
    assert changes[..|changes|] == changes;
  }

  lemma ZeroLanes()
    ensures forall k :: 0 <= k < 4 ==> Lane(0, k) == 0
  {
  }

  lemma SmallReport(n: nat)
    requires n < TWO16
    ensures U16(n) == n
  {
  }

  lemma Truncations(x: int, y: int)
    ensures U8(U8(x) + y) == U8(x + y) && U16(U16(x) + y) == U16(x + y) && U8(0) == 0
  {
    var a, b := U8(x) + y, U16(x) + y;
    Quotient(x + y, x / 0x100 + a / 0x100, 0x100, U8(a));
    Quotient(x + y, x / TWO16 + b / TWO16, TWO16, U16(b));
  }
}
