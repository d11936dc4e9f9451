/**
 Fresh transfers (drivers/hal_sdio.c). From the host, a packet is allocated for the requested length and one DMA
 descriptor is written per fragment; to the host, descriptors are written until the request is covered.
 */
module SdioDma {
  import opened Words
  import opened SysBuf
  import opened BufferPool
  import Sdio

  /** The fragment that a descriptor points into, and how many bytes it covers. */
  datatype Descriptor = Descriptor(buf: Buffer, len: nat)

  ghost function Covered(descs: seq<Descriptor>): nat {
    if descs == [] then 0 else Covered(descs[..|descs| - 1]) + descs[|descs| - 1].len
  }

  lemma NoneCovered()
    ensures Covered([]) == 0
  {
  }

  lemma CoveredMore(descs: seq<Descriptor>, d: Descriptor)
    ensures Covered(descs + [d]) == Covered(descs) + d.len
  {
    assert (descs + [d])[..|descs|] == descs;
  }

  /** The length that reaches `sys_buf_alloc`: `len - sizeof(struct hif_hdr)`, converted to 16 bits. */
  function AllocLength(len: nat): nat { U16(len - HIF_HDR) }

  /** Where the descriptors go: the table for reception ends where the one for transmission begins. */
  const RX_TABLE: nat := 0x253F30
  const TX_TABLE: nat := 0x253F60
  const DESCRIPTOR_BYTES: nat := 8
  const RX_ROOM: nat := 6

  function RxAddress(i: nat): nat { RX_TABLE + DESCRIPTOR_BYTES * i }

  /** Descriptors from the seventh on overwrite those for transmission. */
  lemma RxRoom(i: nat)
    ensures RxAddress(i) + DESCRIPTOR_BYTES <= TX_TABLE <==> i < RX_ROOM
    ensures RxAddress(RX_ROOM + i) == TX_TABLE + DESCRIPTOR_BYTES * i
  {
  }

  /** A shortest packet has at most `room` fragments exactly when that many hold it. */
  lemma ShortestRoom(n: nat, cap: nat, total: nat, room: nat)
    requires Shortest(n, cap, total)
    ensures n <= room <==> total <= Span(room, cap)
  {
    hide Span;
    if n <= room {
      MulMono(n, room, cap);
    } else {
      MulMono(room, n - 1, cap);
    }
  }

  /** Requests that a host can make: 3072 bytes need a seventh buffer of 512 bytes, 66048 bytes more than 16 bits can say. */
  lemma LongRequests()
    ensures Sdio.RequestedLength(0x800_0006) == 3072 > Span(RX_ROOM, 512 - SYS_HDR - TX_HDR) == 2736
    ensures Sdio.RequestedLength(0x800_0081) == 66048 >= HIF_HDR + TWO16
  {
  }

  /** A request shorter than a header makes the length wrap: 64 buffers of 512 bytes are not enough for four bytes. */
  lemma ShortRequest()
    ensures Sdio.RequestedLength(4) == 4 && Sdio.RequestedLength(0x800_0000) == 0
    ensures HIF_HDR + AllocLength(4) == 65540 > Span(64, 512 - SYS_HDR - TX_HDR)
  {
  }

  /**
   The descriptor loop over an allocated packet. `more` says that the fragments ran out before the
   bytes did, where the driver would go on to allocate more.
   */
  method WriteDescriptors(pool: Pool, packet: Buffer, len: nat, ghost chain: seq<Buffer>)
    returns (descs: seq<Descriptor>, more: bool)
    requires pool.Valid() && Chain(chain) && chain[0] == packet
    ensures |descs| == |chain| && more == (Span(|chain|, pool.Capacity()) < len)
    ensures forall i :: 0 <= i < |descs| ==>
      descs[i] == Descriptor(chain[i], Min(pool.Capacity(), Excess(len, Span(i, pool.Capacity()))))
    ensures Covered(descs) == Min(len, Span(|chain|, pool.Capacity()))
  {
    hide Span, NextList, Distinct, Covered;
    NoneCovered();
    var cap, remain := pool.Capacity(), len;
    MulStep(1, cap);
    descs := [];
    more := false;
    var iter: Buffer? := packet;
    while iter != null
      invariant |descs| <= |chain| && iter == At(chain, |descs|)
      invariant remain == Excess(len, Span(|descs|, cap))
      invariant forall i :: 0 <= i < |descs| ==> descs[i] == Descriptor(chain[i], Min(cap, Excess(len, Span(i, cap))))
      invariant Covered(descs) == Min(len, Span(|descs|, cap))
      decreases |chain| - |descs|
    {
      MulStep(|descs| + 1, cap);
      var current := Min(cap, remain);
      CoveredMore(descs, Descriptor(iter, current));
      descs := descs + [Descriptor(iter, current)];
      remain := remain - current;
      iter := iter.link;
    }
    more := remain > 0;
  }

  /**
   `receive_from_host` when no transfer is being restarted. For requests below 65544 bytes the descriptors cover exactly
   the request, and fragment by fragment as the allocation filled them unless the request is shorter than a header.
   */
  method ReceiveFresh(pool: Pool, len: nat) returns (packet: Buffer?, descs: seq<Descriptor>, more: bool, ghost chain: seq<Buffer>)
    requires pool.Valid()
    modifies pool, pool.free
    ensures pool.Valid()
    ensures packet == null <==> Span(old(|pool.free|), pool.Capacity()) < HIF_HDR + AllocLength(len)
    ensures packet != null ==>
      old(pool.free) == chain + pool.free && Chain(chain) && |descs| == |chain|
      && Shortest(|chain|, pool.Capacity(), HIF_HDR + AllocLength(len))
      && forall i :: 0 <= i < |chain| ==> descs[i].buf == chain[i]
    ensures packet == null ==> descs == [] && !more
    ensures packet != null ==> (more <==> len >= HIF_HDR + TWO16)
    ensures packet != null ==>
      (|descs| <= RX_ROOM <==> HIF_HDR + AllocLength(len) <= Span(RX_ROOM, pool.Capacity()))
    ensures packet != null && len < HIF_HDR + TWO16 ==>
      Covered(descs) == len
      && ((forall i :: 0 <= i < |chain| ==> descs[i].len == chain[i].length - TX_HDR) <==> HIF_HDR <= len)
  {
    hide Span, NextList, Distinct, LinkList, Covered;
    packet, chain := pool.AllocChain(AllocLength(len));
    descs, more := [], false;
    if packet != null {
      descs, more := WriteDescriptors(pool, packet, len, chain);
      RequestFits(len, |chain|, pool.Capacity());
      if len < HIF_HDR {
        MulStep(1, pool.Capacity());
        assert descs[0].len != chain[0].length - TX_HDR;
      }
      ShortestRoom(|chain|, pool.Capacity(), HIF_HDR + AllocLength(len), RX_ROOM);
    }
  }

  /** The shortest packet for the truncated length holds the whole request exactly below 65544 bytes. */
  lemma RequestFits(len: nat, n: nat, cap: nat)
    requires 0 < cap < TWO16 && Shortest(n, cap, HIF_HDR + AllocLength(len))
    ensures Span(n, cap) < len <==> len >= HIF_HDR + TWO16
    ensures HIF_HDR <= len < HIF_HDR + TWO16 ==> HIF_HDR + AllocLength(len) == len
    ensures len < HIF_HDR ==> HIF_HDR + AllocLength(len) == TWO16 + len
  {
  }

  /**
   The descriptor loop of `send_to_host` for a fresh transfer: a fragment has `cap` bytes from its transmit header on.
   `short` says that the packet ends before the request, where the driver stops at an assertion.
   */
  method WriteTxDescriptors(packet: Buffer, len: nat, cap: nat, ghost chain: seq<Buffer>)
    returns (descs: seq<Descriptor>, short: bool)
    requires Chain(chain) && chain[0] == packet && cap > 0
    ensures short == (Span(|chain|, cap) < len) && |descs| <= |chain|
    ensures forall i :: 0 <= i < |descs| ==> descs[i] == Descriptor(chain[i], Min(cap, Excess(len, Span(i, cap))))
    ensures Covered(descs) == Min(len, Span(|chain|, cap))
    ensures !short && len > 0 ==> Shortest(|descs|, cap, len)
  {
    hide Span, Distinct, Covered;
    NoneCovered();
    var remain := len;
    MulStep(1, cap);
    descs := [];
    var iter: Buffer? := packet;
    while iter != null && remain > 0
      invariant |descs| <= |chain| && iter == At(chain, |descs|)
      invariant remain == Excess(len, Span(|descs|, cap))
      invariant |descs| > 0 ==> Span(|descs| - 1, cap) < len
      invariant forall i :: 0 <= i < |descs| ==> descs[i] == Descriptor(chain[i], Min(cap, Excess(len, Span(i, cap))))
      invariant Covered(descs) == Min(len, Span(|descs|, cap))
      decreases |chain| - |descs|
    {
      MulStep(|descs| + 1, cap);
      var current := Min(cap, remain);
      CoveredMore(descs, Descriptor(iter, current));
      descs := descs + [Descriptor(iter, current)];
      remain := remain - current;
      iter := iter.link;
    }
    MulMono(|descs|, |chain|, cap);
    short := remain > 0;
  }
}
