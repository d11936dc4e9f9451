/**
 The buffer pool of system/system_memory_manager.c: a free list threaded through the buffers
 themselves, and packets allocated as chains of fragments.
 */
module BufferPool {
  import opened Words
  import opened SysBuf

  class Pool {
    /** Size of one buffer in bytes. */
    const size: nat
    var avail: nat
    /** `sys_buf_pool` */
    var first: Buffer?
    ghost var free: seq<Buffer>

    ghost predicate Valid()
      reads this, free`next
    {
      SYS_HDR + TX_HDR + HIF_HDR <= size < TWO16
      && NextList(free, first) && Distinct(free) && avail == |free|
    }

    /** `system_memory_pool_create` over the buffers of one pool, in address order. */
    constructor (bufs: seq<Buffer>, size: nat)
      requires SYS_HDR + TX_HDR + HIF_HDR <= size < TWO16
      requires 1 <= |bufs| <= 255 && Distinct(bufs)
      modifies bufs
      ensures Valid() && free == bufs && this.size == size
      ensures forall b :: b in bufs ==> b.link == null
    {
      this.size := size;
      avail := |bufs|;
      free := bufs;
      first := bufs[0];
      new;
      Clear(bufs);
      Thread(bufs);
    }

    /** The buffer that the next allocation takes, if any. */
    ghost function Front(): seq<Buffer>
      reads `free
    {
      if free == [] then [] else [free[0]]
    }

    /** `system_memory_pool_alloc` */
    method Alloc() returns (b: Buffer?)
      requires Valid()
      modifies `avail, `first, `free, Front()`next, Front()`link
      ensures Valid()
      ensures old(free) == [] ==> b == null && free == []
      ensures old(free) != [] ==>
        b == old(free)[0] && free == old(free)[1..] && b.next == null && b.link == null
    {
      b := first;
      if b != null {
        first := b.next;
        b.next := null;
        b.link := null;
        avail := avail - 1;
        free := free[1..];
      }
    }

    /** `system_memory_pool_free`: every fragment of the packet goes to the front of the free list, its first fragment last. */
    method Free(buf: Buffer, ghost chain: seq<Buffer>)
      requires Valid() && Chain(chain) && chain[0] == buf && Distinct(chain) && Disjoint(chain, free)
      modifies `avail, `first, `free, chain`next, chain`link
      ensures Valid() && free == [buf] + Reverse(chain[1..]) + old(free)
      ensures forall b :: b in chain ==> b.link == null
    {
      hide NextList, LinkList, Distinct, Reverse;
      LinkTail(chain, chain[0]);
      var link := buf.link;
      ghost var todo := chain[1..];
      while link != null
        invariant Valid() && LinkList(todo, link) && Distinct(todo) && Disjoint([buf] + todo, free) && buf !in todo
        invariant Reverse(todo) + free == Reverse(chain[1..]) + old(free)
        invariant forall x :: x in chain ==> x == buf || x in todo || x.link == null
        invariant forall x :: x in todo ==> x in chain
        decreases |todo|
      {
        HeadOfList(todo, link);
        LinkTail(todo, link);
        ReverseFirst(todo, free);
        assert link in todo && link in chain && link != buf;
        var rest := link.link;
        PutFront(link);
        link := rest;
        todo := todo[1..];
      }
      HeadOfList(todo, link);
      ReverseNone();
      assert free == Reverse(chain[1..]) + old(free);
      PutFront(buf);
    }

    /** Links one buffer in front of the free list. */
    method PutFront(b: Buffer)
      requires Valid() && b !in free
      modifies `avail, `first, `free, b`next, b`link
      ensures Valid() && free == [b] + old(free) && b.link == null
    {
      b.next := first;
      b.link := null;
      first := b;
      avail := avail + 1;
      free := [b] + free;
    }

    /** Payload bytes that one buffer can hold, the host-interface header included. */
    function Capacity(): nat
      requires SYS_HDR + TX_HDR <= size
    {
      size - SYS_HDR - TX_HDR
    }

    /**
     `sys_buf_alloc`: all or nothing. A packet takes the first buffers of the free list, as few as hold
     the header and `hifLen` bytes; if there are too few, all buffers are free again.
     */
    method AllocChain(hifLen: nat) returns (packet: Buffer?, ghost chain: seq<Buffer>)
      requires Valid() && hifLen < TWO16
      modifies `avail, `first, `free, free`next, free`link, free`length
      ensures Valid() && avail == old(avail) - |chain|
      ensures packet == null <==> Span(|old(free)|, Capacity()) < HIF_HDR + hifLen
      ensures packet == null ==>
        chain == [] && free == if old(free) == [] then [] else [old(free)[0]] + Reverse(old(free)[1..])
      ensures packet != null ==>
        Chain(chain) && chain[0] == packet && old(free) == chain + free
        && Shortest(|chain|, Capacity(), HIF_HDR + hifLen) && Filled(chain, Capacity(), HIF_HDR + hifLen)
      ensures packet != null ==> PayloadSum(chain) == HIF_HDR + hifLen && InBuffers(chain, size)
    {
      hide NextList, LinkList, Distinct, Reverse, Filled, Span, PayloadSum, InBuffers;
      ghost var total := HIF_HDR + hifLen;
      var cap := Capacity();
      ghost var free0 := free;
      chain := [];
      packet := Alloc();
      MulStep(1, cap);
      if packet == null {
        return;
      }
      var take := Min(cap - HIF_HDR, hifLen);
      packet.length := TX_HDR + HIF_HDR + take;
      FirstPiece(packet, cap, total);
      assert free0 == [packet] + free;
      var ok;
      ok, chain := Extend(packet, hifLen - take, [packet], total);
      MulMono(|chain|, |free0|, cap);
      if !ok {
        packet := null;
        return;
      }
      PayloadIsTotal(chain, cap, total);
      FilledInBuffers(chain, size, total);
    }

    /** The loop of `sys_buf_alloc` after the first buffer; `left` bytes still need room. */
    method Extend(packet: Buffer, left0: nat, ghost chain0: seq<Buffer>, ghost total: nat)
      returns (ok: bool, ghost chain: seq<Buffer>)
      requires Valid() && |chain0| == 1 && chain0[0] == packet && LinkList(chain0, packet) && Distinct(chain0 + free)
      requires Filled(chain0, Capacity(), total) && left0 == Excess(total, Capacity()) && 0 < total
      modifies `avail, `first, `free, packet`next, packet`link, free`next, free`link, free`length
      ensures Valid()
      ensures ok ==>
        Chain(chain) && chain[0] == packet && chain0 + old(free) == chain + free
        && Shortest(|chain|, Capacity(), total) && Filled(chain, Capacity(), total)
      ensures !ok ==>
        chain == [] && Span(|chain0 + old(free)|, Capacity()) < total
        && free == [packet] + Reverse((chain0 + old(free))[1..])
    {
      hide NextList, LinkList, Distinct, Reverse, Filled, Span;
      var cap, left := Capacity(), left0;
      ghost var all := chain0 + free;
      MulStep(1, cap);
      chain := chain0;
      var iter := packet;
      while left > 0
        invariant Valid() && all == chain + free && |chain| > 0 && chain[0] == packet && iter == chain[|chain| - 1]
        invariant LinkList(chain, packet) && Filled(chain, cap, total)
        invariant left == Excess(total, Span(|chain|, cap)) && Span(|chain| - 1, cap) < total
        invariant iter == packet || iter in old(free)
        invariant forall b :: b in free ==> b in old(free)
        decreases left
      {
        MulStep(|chain|, cap);
        var take := Min(cap, left);
        MoveFirst(chain, free);
        var link := Grow(iter, take, chain, cap, total);
        if link == null {
          assert chain + [] == chain;
          assert forall b :: b in chain ==> b == packet || b in old(free);
          Free(packet, chain);
          ok, chain := false, [];
          return;
        }
        left := left - take;
        iter := link;
        chain := chain + [link];
      }
      ok := true;
    }

    /**
     `sys_buf_len_calc_using_hif_len` on a packet of this pool, whose header carries the length. It
     writes the lengths that allocation wrote exactly when length and header together fit 16 bits.
     */
    method RecalcLengths(packet: Buffer, ghost chain: seq<Buffer>)
      requires Valid() && Chain(chain) && Distinct(chain) && chain[0] == packet && packet.hifLen < TWO16
      requires Shortest(|chain|, Capacity(), HIF_HDR + packet.hifLen)
      requires Filled(chain, Capacity(), HIF_HDR + packet.hifLen)
      modifies chain`length
      ensures packet.hifLen + HIF_HDR < TWO16 <==> forall i :: 0 <= i < |chain| ==> chain[i].length == old(chain[i].length)
    {
      hide Span, LinkList, Distinct, NextList, U16, Needed;
      MulStep(1, Capacity());
      Wraps(packet.hifLen);
      assert packet.length == TX_HDR + Min(Capacity(), HIF_HDR + packet.hifLen);
      ghost var k := WriteLengths(packet, U16(packet.hifLen + HIF_HDR), chain);
      if packet.hifLen + HIF_HDR < TWO16 {
        assert forall i :: 0 <= i < |chain| ==> chain[i].length == old(chain[i].length);
      } else {
        assert chain[0].length == TX_HDR + Min(Capacity(), U16(packet.hifLen + HIF_HDR));
        assert chain[0].length != old(chain[0].length);
      }
    }

    /** The body of `sys_buf_len_calc_using_hif_len` for a total of `hifLen` bytes. */
    method WriteLengths(packet: Buffer, hifLen: nat, ghost chain: seq<Buffer>) returns (ghost k: nat)
      requires Valid() && Chain(chain) && Distinct(chain) && chain[0] == packet
      modifies chain`length
      ensures 1 <= k <= |chain| && Needed(k, |chain|, Capacity(), hifLen)
      ensures forall i :: 0 <= i < k ==> chain[i].length == TX_HDR + Min(Capacity(), Excess(hifLen, Span(i, Capacity())))
      ensures forall i :: k <= i < |chain| ==> chain[i].length == old(chain[i].length)
    {
      hide Span, NextList;
      var cap, left := Capacity(), hifLen;
      MulStep(1, cap);
      var take := Min(cap, left);
      left := left - take;
      packet.length := TX_HDR + take;
      var iter := packet;
      k := 1;
      while left > 0
        invariant 1 <= k <= |chain| && iter == chain[k - 1] && left == Excess(hifLen, Span(k, cap))
        invariant k > 1 ==> Span(k - 1, cap) < hifLen
        invariant forall i :: 0 <= i < k ==> chain[i].length == TX_HDR + Min(cap, Excess(hifLen, Span(i, cap)))
        invariant forall i :: k <= i < |chain| ==> chain[i].length == old(chain[i].length)
        decreases |chain| - k
      {
        var link := iter.link;
        if link == null {
          return;
        }
        MulStep(k, cap);
        take := Min(cap, left);
        link.length := TX_HDR + take;
        left := left - take;
        iter := link;
        k := k + 1;
      }
    }

    /** One more fragment at the end of a chain. */
    method Grow(iter: Buffer, take: nat, ghost chain: seq<Buffer>, ghost cap: nat, ghost total: nat) returns (link: Buffer?)
      requires Valid() && |chain| > 0 && LinkList(chain, chain[0]) && iter == chain[|chain| - 1] && Distinct(chain + free)
      requires Filled(chain, cap, total) && take == Min(cap, Excess(total, Span(|chain|, cap)))
      modifies `avail, `first, `free, Front()`next, Front()`link, Front()`length, iter`link
      ensures Valid() && (link == null <==> old(free) == [])
      ensures link == null ==> free == [] && LinkList(chain, chain[0]) && Distinct(chain)
      ensures link != null ==>
        link == old(free)[0] && free == old(free)[1..]
        && LinkList(chain + [link], chain[0]) && Filled(chain + [link], cap, total)
    {
      hide NextList, Distinct, LinkList, Filled, Span;
      Parts(chain, free);
      ghost var taken := Front();
      assert forall b :: b in chain ==> b !in taken;
      link := Alloc();
      if link == null {
        return;
      }
      assert taken == [link] && link in taken && link !in chain;
      assert LinkList(chain, chain[0]);
      assert Filled(chain, cap, total);
      link.length := TX_HDR + take;
      assert Filled(chain, cap, total);
      FilledMore(chain, link, cap, total);
      Join(iter, link, chain);
    }
  }

  /** Bytes that `n` buffers of capacity `cap` hold. */
  function Span(n: nat, cap: nat): nat { n * cap }

  /** What is left of `total` beyond `used`. */
  function Excess(total: nat, used: nat): nat {
    if used < total then total - used else 0
  }

  /** `n` buffers of capacity `cap` hold `total` bytes and one fewer do not. */
  predicate Shortest(n: nat, cap: nat, total: nat) {
    n > 0 && Span(n - 1, cap) < total <= Span(n, cap)
  }

  /** Of `n` fragments the first `k` are needed for `total` bytes; there is always one. */
  predicate Needed(k: nat, n: nat, cap: nat, total: nat) {
    (k > 1 ==> Span(k - 1, cap) < total) && (k < n ==> total <= Span(k, cap))
  }

  /** Every fragment but the last is full, and the payloads add up to `total`. */
  ghost predicate Filled(chain: seq<Buffer>, cap: nat, total: nat)
    reads chain`length
  {
    forall i :: 0 <= i < |chain| ==> chain[i].length == TX_HDR + Min(cap, Excess(total, Span(i, cap)))
  }

  /** Payload bytes of a packet, transmit headers not counted. */
  ghost function PayloadSum(chain: seq<Buffer>): int
    reads chain`length
  {
    if chain == [] then 0 else PayloadSum(chain[..|chain| - 1]) + chain[|chain| - 1].length - TX_HDR
  }

  lemma {:induction false} FilledPrefix(chain: seq<Buffer>, cap: nat, total: nat)
    requires Filled(chain, cap, total)
    ensures PayloadSum(chain) == Min(Span(|chain|, cap), total)
  {
    if chain != [] {
      var n := |chain|;
      FilledPrefix(chain[..n - 1], cap, total);
      MulStep(n, cap);
    }
  }

  /** An allocated packet has room for exactly the header and the requested bytes. */
  lemma PayloadIsTotal(chain: seq<Buffer>, cap: nat, total: nat)
    requires Filled(chain, cap, total) && Shortest(|chain|, cap, total)
    ensures PayloadSum(chain) == total
  {
    FilledPrefix(chain, cap, total);
  }

  /** Every fragment lies within its buffer, and all but the last fill theirs. */
  ghost predicate InBuffers(chain: seq<Buffer>, size: nat)
    reads chain`length
  {
    forall i :: 0 <= i < |chain| ==>
      TX_HDR < chain[i].length <= size - SYS_HDR && (i < |chain| - 1 ==> chain[i].length == size - SYS_HDR)
  }

  lemma FilledInBuffers(chain: seq<Buffer>, size: nat, total: nat)
    requires SYS_HDR + TX_HDR < size
    requires Filled(chain, size - SYS_HDR - TX_HDR, total) && Shortest(|chain|, size - SYS_HDR - TX_HDR, total)
    ensures InBuffers(chain, size)
  {
    hide Span;
    var cap := size - SYS_HDR - TX_HDR;
    forall i | 0 <= i < |chain|
      ensures TX_HDR < chain[i].length <= size - SYS_HDR && (i < |chain| - 1 ==> chain[i].length == size - SYS_HDR)
    {
      MulStep(i + 1, cap);
      MulMono(i, |chain| - 1, cap);
      if i < |chain| - 1 {
        MulMono(i + 1, |chain| - 1, cap);
      }
    }
  }

  lemma Wraps(hifLen: nat)
    requires hifLen < TWO16
    ensures U16(hifLen + HIF_HDR) == if hifLen + HIF_HDR < TWO16 then hifLen + HIF_HDR else hifLen + HIF_HDR - TWO16
  {
  }

  lemma FirstPiece(b: Buffer, cap: nat, total: nat)
    requires b.length == TX_HDR + Min(cap, total)
    ensures Filled([b], cap, total) && LinkList([b], b) == (b.link == null) && Distinct([b])
  {
  }

  lemma FilledMore(chain: seq<Buffer>, b: Buffer, cap: nat, total: nat)
    requires Filled(chain, cap, total) && b.length == TX_HDR + Min(cap, Excess(total, Span(|chain|, cap)))
    ensures Filled(chain + [b], cap, total)
  {
  }

  /** `SYS_BUF_LINK(iter) = link` at the end of a chain. */
  method Join(iter: Buffer, link: Buffer, ghost chain: seq<Buffer>)
    requires |chain| > 0 && LinkList(chain, chain[0]) && Distinct(chain) && iter == chain[|chain| - 1]
    requires link !in chain && link.link == null
    modifies iter`link
    ensures LinkList(chain + [link], chain[0]) && Distinct(chain + [link])
  {
    iter.link := link;
  }

  lemma MoveFirst(chain: seq<Buffer>, free: seq<Buffer>)
    ensures free != [] ==> free[0] in free && chain + free == (chain + [free[0]]) + free[1..]
  {
  }

  lemma MulMono(n: nat, m: nat, cap: nat)
    requires n <= m
    ensures Span(n, cap) <= Span(m, cap)
  {
  }

  lemma MulStep(n: nat, cap: nat)
    requires n > 0
    ensures Span(0, cap) == 0 && Span(1, cap) == cap
    ensures Span(n, cap) == Span(n - 1, cap) + cap && Span(n + 1, cap) == Span(n, cap) + cap
  {
  }

  lemma Parts(a: seq<Buffer>, b: seq<Buffer>)
    requires Distinct(a + b)
    ensures Distinct(a) && Disjoint(a, b) && Distinct(b)
  {
    assert forall i :: 0 <= i < |a| ==> (a + b)[i] == a[i];
    assert forall i :: 0 <= i < |b| ==> (a + b)[|a| + i] == b[i];
  }

  /** `memset` over the memory of the pool, as far as the link fields go. */
  method Clear(bufs: seq<Buffer>)
    modifies bufs`next, bufs`link
    ensures forall b :: b in bufs ==> b.link == null
  {
    for i := 0 to |bufs|
      invariant forall j :: 0 <= j < i ==> bufs[j].link == null
    {
      bufs[i].next, bufs[i].link := null, null;
    }
  }

  /** The loop of `system_memory_pool_create` that threads the buffers in address order. */
  method Thread(bufs: seq<Buffer>)
    requires |bufs| > 0 && Distinct(bufs)
    modifies bufs`next
    ensures NextList(bufs, bufs[0])
  {
    var cur := bufs[0];
    for i := 1 to |bufs|
      invariant cur == bufs[i - 1]
      invariant forall j :: 0 <= j < i - 1 ==> bufs[j].next == bufs[j + 1]
    {
      cur.next := bufs[i];
      cur := bufs[i];
    }
    cur.next := null;
  }

  lemma HeadOfList(s: seq<Buffer>, head: Buffer?)
    requires LinkList(s, head)
    ensures head == null <==> s == []
  {
  }

  lemma ReverseFirst(todo: seq<Buffer>, free: seq<Buffer>)
    requires todo != []
    ensures Reverse(todo) + free == Reverse(todo[1..]) + ([todo[0]] + free)
  {
  }

  lemma ReverseNone()
    ensures Reverse([]) == []
  {
  }
}
