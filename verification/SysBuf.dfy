/**
 Packet buffers and their two link fields (include/system_common.h): `next` threads the free list and
 the queues, `link` joins the fragments of one packet.
 */
module SysBuf {

  /** sizeof(SYS_HDR), sizeof(LMAC_TXHDR), sizeof(HIF_HDR) */
  const SYS_HDR: nat := 20
  const TX_HDR: nat := 36
  const HIF_HDR: nat := 8

  class Buffer {
    var next: Buffer?
    var link: Buffer?
    /** `m_payload_length` */
    var length: nat
    /** `hif_hdr.len`, at the start of the payload of the first fragment */
    var hifLen: nat
  }

  ghost predicate Distinct(s: seq<Buffer>) {
    forall i, j :: 0 <= i < j < |s| ==> s[i] != s[j]
  }

  ghost predicate Disjoint(a: seq<Buffer>, b: seq<Buffer>) {
    forall x :: x in a ==> x !in b
  }

  ghost function At(s: seq<Buffer>, i: nat): Buffer? {
    if i < |s| then s[i] else null
  }

  /** `s` is the list that starts at `head` and goes on along `next`. */
  ghost predicate NextList(s: seq<Buffer>, head: Buffer?)
    reads s`next
  {
    head == At(s, 0) && forall i :: 0 <= i < |s| ==> s[i].next == At(s, i + 1)
  }

  /** The same along `link`. */
  ghost predicate LinkList(s: seq<Buffer>, head: Buffer?)
    reads s`link
  {
    head == At(s, 0) && forall i :: 0 <= i < |s| ==> s[i].link == At(s, i + 1)
  }

  /** `s` is a packet: its fragments, in order. */
  ghost predicate Chain(s: seq<Buffer>)
    reads s`link
  {
    |s| > 0 && LinkList(s, s[0])
  }

  lemma LinkTail(s: seq<Buffer>, head: Buffer?)
    requires |s| > 0 && LinkList(s, head) && Distinct(s)
    ensures head == s[0] && LinkList(s[1..], s[0].link) && Distinct(s[1..]) && s[0] !in s[1..]
  {
  }

  ghost function Reverse(s: seq<Buffer>): (r: seq<Buffer>)
    ensures |r| == |s|
    ensures forall x :: x in r ==> x in s
    ensures forall x :: x in s ==> x in r
  {
    if s == [] then [] else Reverse(s[1..]) + [s[0]]
  }
}
