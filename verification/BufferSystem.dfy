/**
 A pool together with the queues that its packets travel through. The free list and the queues share
 the `next` field of the buffers; ownership keeps them apart.
 */
module BufferSystem {
  import opened Words
  import opened SysBuf
  import opened BufferPool
  import opened BufferQueue

  /** Where a buffer is: on the free list, or a fragment of the packet that starts at `head`. */
  datatype Place = OnFreeList | InPacket(head: Buffer)

  /** Where a packet is: with a client, or in queue number `q`. */
  datatype PacketPlace = Held | Queued(q: nat)

  // ---------------------------------------------------------------------------------------------
  // Ownership, without the heap
  // ---------------------------------------------------------------------------------------------

  /** The free list and the packets share out all buffers between them. */
  ghost predicate Shared(all: set<Buffer>, place: map<Buffer, Place>, free: seq<Buffer>, packets: map<Buffer, seq<Buffer>>) {
    place.Keys == all
    && (forall b :: b in free ==> b in all && place[b] == OnFreeList)
    && (forall b :: b in all && place[b] == OnFreeList ==> b in free)
    && (forall p :: p in packets ==> |packets[p]| > 0 && packets[p][0] == p && Distinct(packets[p]))
    && (forall p, b :: p in packets && b in packets[p] ==> b in all && place[b] == InPacket(p))
    && (forall b :: b in all && place[b].InPacket? ==> place[b].head in packets && b in packets[place[b].head])
  }

  /** So no buffer is in two places. */
  lemma SharedOnce(all: set<Buffer>, place: map<Buffer, Place>, free: seq<Buffer>, packets: map<Buffer, seq<Buffer>>)
    requires Shared(all, place, free, packets)
    ensures forall p :: p in packets ==> p in packets[p]
    ensures forall p, b :: p in packets && b in packets[p] ==> b in all && b !in free
    ensures forall p, q, b :: p in packets && q in packets && b in packets[p] && b in packets[q] ==> p == q
  {
    hide Distinct;
    forall p | p in packets
      ensures p in packets[p]
    {
      assert packets[p][0] in packets[p];
    }
    forall p, q, b | p in packets && q in packets && b in packets[p] && b in packets[q]
      ensures p == q
    {
      assert place[b] == InPacket(p) && place[b] == InPacket(q);
    }
  }

  /** Queue number `i` holds exactly the packets whose place it is. */
  ghost predicate Located(heads: set<Buffer>, at: map<Buffer, PacketPlace>, contents: seq<seq<Buffer>>) {
    at.Keys == heads
    && (forall i, p :: 0 <= i < |contents| && p in contents[i] ==> p in at && at[p] == Queued(i))
    && (forall p :: p in at && at[p].Queued? ==> at[p].q < |contents| && p in contents[at[p].q])
  }

  ghost function Pushed(contents: seq<seq<Buffer>>, i: nat, p: Buffer): seq<seq<Buffer>>
    requires i < |contents|
  {
    contents[i := contents[i] + [p]]
  }

  ghost function Popped(contents: seq<seq<Buffer>>, i: nat): seq<seq<Buffer>>
    requires i < |contents| && |contents[i]| > 0
  {
    contents[i := contents[i][1..]]
  }

  lemma LocatedPush(heads: set<Buffer>, at: map<Buffer, PacketPlace>, contents: seq<seq<Buffer>>, i: nat, p: Buffer)
    requires Located(heads, at, contents) && i < |contents| && p in heads && at[p] == Held
    ensures Located(heads, at[p := Queued(i)], Pushed(contents, i, p))
  {
  }

  lemma LocatedPop(heads: set<Buffer>, at: map<Buffer, PacketPlace>, contents: seq<seq<Buffer>>, i: nat)
    requires Located(heads, at, contents) && i < |contents| && |contents[i]| > 0 && Distinct(contents[i])
    ensures contents[i][0] in at && Located(heads, at[contents[i][0] := Held], Popped(contents, i))
  {
  }

  /** The places after a list of buffers has moved to `to`. */
  ghost function Moved(place: map<Buffer, Place>, bufs: seq<Buffer>, to: Place): map<Buffer, Place> {
    map b | b in place.Keys + (set x | x in bufs) :: if b in bufs then to else place[b]
  }

  lemma SharedAlloc(all: set<Buffer>, place: map<Buffer, Place>, packets: map<Buffer, seq<Buffer>>,
                    chain: seq<Buffer>, rest: seq<Buffer>)
    requires Shared(all, place, chain + rest, packets) && |chain| > 0 && Distinct(chain + rest)
    ensures chain[0] !in packets
    ensures Shared(all, Moved(place, chain, InPacket(chain[0])), rest, packets[chain[0] := chain])
  {
    hide Distinct;
    Parts(chain, rest);
    var p, place' := chain[0], Moved(place, chain, InPacket(chain[0]));
    assert forall b :: b in chain + rest <==> b in chain || b in rest;
    assert p in chain;
    forall q | q in packets
      ensures q != p && forall b :: b in packets[q] ==> b !in chain
    {
      assert packets[q][0] in packets[q];
    }
    forall b | b in rest
      ensures b in all && place'[b] == OnFreeList
    {
      assert b !in chain;
    }
  }

  lemma SharedFree(all: set<Buffer>, place: map<Buffer, Place>, packets: map<Buffer, seq<Buffer>>,
                   p: Buffer, free: seq<Buffer>, free': seq<Buffer>)
    requires Shared(all, place, free, packets) && p in packets
    requires forall b :: b in free' <==> b in packets[p] || b in free
    ensures Shared(all, Moved(place, packets[p], OnFreeList), free', packets - {p})
  {
  }

  // ---------------------------------------------------------------------------------------------
  // The system
  // ---------------------------------------------------------------------------------------------

  class System {
    const pool: Pool
    const queues: seq<Queue>
    ghost const all: set<Buffer>
    /** The fragments of every packet, by first fragment. */
    ghost var packets: map<Buffer, seq<Buffer>>
    ghost var place: map<Buffer, Place>
    ghost var at: map<Buffer, PacketPlace>

    ghost function Contents(): (c: seq<seq<Buffer>>)
      reads queues
      ensures |c| == |queues| && forall i :: 0 <= i < |queues| ==> c[i] == queues[i].items
    {
      seq(|queues|, i requires 0 <= i < |queues| reads queues => queues[i].items)
    }

    ghost predicate Owned()
      reads `packets, `place, `at, pool`free, queues
    {
      Shared(all, place, pool.free, packets) && Located(packets.Keys, at, Contents())
    }

    ghost predicate DistinctQueues() {
      forall i, j :: 0 <= i < j < |queues| ==> queues[i] != queues[j]
    }

    ghost predicate ChainsOk()
      reads `packets, all`link
    {
      forall p :: p in packets ==> (forall b :: b in packets[p] ==> b in all) && Chain(packets[p])
    }

    ghost predicate QueuesOk()
      reads queues, all`next
    {
      forall i :: 0 <= i < |queues| ==> (forall b :: b in queues[i].items ==> b in all) && queues[i].Valid()
    }

    ghost predicate PoolOk()
      reads pool, all`next
    {
      (forall b :: b in pool.free ==> b in all) && pool.Valid()
    }

    ghost predicate Valid()
      reads this, pool, queues, all`next, all`link
    {
      DistinctQueues() && Owned() && PoolOk() && QueuesOk() && ChainsOk()
    }

    /** A pool just created, and empty queues. */
    constructor (pool: Pool, queues: seq<Queue>)
      requires pool.Valid()
      requires forall i, j :: 0 <= i < j < |queues| ==> queues[i] != queues[j]
      requires forall i :: 0 <= i < |queues| ==> queues[i].Valid() && queues[i].items == []
      ensures Valid() && this.pool == pool && this.queues == queues
      ensures packets == map[] && forall b :: b in all <==> b in pool.free
    {
      this.pool, this.queues := pool, queues;
      all := set b | b in pool.free;
      packets, at := map[], map[];
      place := map b | b in pool.free :: OnFreeList;
      new;
      hide *;
      Fresh();
    }

    /** The state that the constructor sets up. */
    lemma Fresh()
      requires pool.Valid() && DistinctQueues() && packets == map[] && at == map[]
      requires forall i :: 0 <= i < |queues| ==> queues[i].Valid() && queues[i].items == []
      requires all == (set b | b in pool.free) && place == map b | b in pool.free :: OnFreeList
      ensures Valid()
    {
    }

    /** First fragments are not free, and a packet is in one queue at most. */
    lemma Separate()
      requires Valid()
      ensures forall p :: p in packets ==> p in all && p !in pool.free
      ensures at.Keys == packets.Keys
      ensures forall i, b :: 0 <= i < |queues| && b in queues[i].items ==> b in packets && at[b] == Queued(i)
    {
      hide NextList, Distinct, Shared, PoolOk, QueuesOk, ChainsOk;
      SharedOnce(all, place, pool.free, packets);
      forall i, b | 0 <= i < |queues| && b in queues[i].items
        ensures b in packets && at[b] == Queued(i)
      {
        assert b in Contents()[i];
      }
    }

    lemma OneQueue(i: nat)
      requires Valid() && i < |queues|
      ensures queues[i].Valid() && Distinct(queues[i].items) && forall b :: b in queues[i].items ==> b in all
    {
    }

    /** Only queue `i` and the `next` fields of `x` and `y` have changed, and these were on no other list. */
    twostate predicate Local(new x: Buffer?, new y: Buffer?, i: nat)
      requires i < |queues|
      reads pool, queues, all`next
    {
      pool.free == old(pool.free) && pool.first == old(pool.first) && pool.avail == old(pool.avail)
      && (forall q :: q in queues && q != queues[i] ==>
            q.items == old(q.items) && q.head == old(q.head) && q.tail == old(q.tail) && q.count == old(q.count))
      && (forall b :: b in all && b != x && b != y ==> b.next == old(b.next))
      && x !in pool.free && y !in pool.free
      && (forall q :: q in queues && q != queues[i] ==> x !in q.items && y !in q.items)
    }

    twostate lemma Untouched(new x: Buffer?, new y: Buffer?, i: nat)
      requires i < |queues| && DistinctQueues() && old(PoolOk()) && old(QueuesOk()) && Local(x, y, i)
      requires (forall b :: b in queues[i].items ==> b in all) && queues[i].Valid()
      ensures PoolOk() && QueuesOk()
    {
      hide Distinct;
    }

    /** A packet that a client holds goes to the end of a queue. */
    method Push(i: nat, p: Buffer)
      requires Valid() && i < |queues| && p in packets && at[p] == Held
      modifies `at, queues[i], all`next
      ensures Valid() && at == old(at)[p := Queued(i)]
      ensures Contents() == Pushed(old(Contents()), i, p)
    {
      hide Shared, ChainsOk, Located, PoolOk, QueuesOk, DistinctQueues, Pushed;
      Separate();
      LocatedPush(packets.Keys, at, Contents(), i, p);
      PushQueue(i, p);
      at := at[p := Queued(i)];
    }

    method PushQueue(i: nat, p: Buffer)
      requires Valid() && i < |queues| && p in packets && p in at && at[p] == Held
      modifies queues[i], all`next
      ensures PoolOk() && QueuesOk() && pool.free == old(pool.free) && Contents() == Pushed(old(Contents()), i, p)
    {
      hide NextList, Distinct, Shared, ChainsOk, Located, PoolOk, QueuesOk;
      Separate();
      OneQueue(i);
      ghost var x := if queues[i].items == [] then p else queues[i].items[|queues[i].items| - 1];
      OnlyHere(i, x);
      OnlyHere(i, p);
      queues[i].Push(p);
      Untouched(x, p, i);
      assert Contents() == Pushed(old(Contents()), i, p);
    }

    /** The first packet of a queue goes to the client. */
    method Pop(i: nat) returns (p: Buffer?)
      requires Valid() && i < |queues|
      modifies `at, queues[i], all`next
      ensures Valid()
      ensures old(queues[i].items) == [] ==> p == null && at == old(at) && Contents() == old(Contents())
      ensures old(queues[i].items) != [] ==>
        p == old(queues[i].items)[0] && at == old(at)[p := Held] && Contents() == Popped(old(Contents()), i)
    {
      hide Shared, ChainsOk, Located, PoolOk, QueuesOk, DistinctQueues, Popped, Distinct;
      Separate();
      OneQueue(i);
      if queues[i].items != [] {
        LocatedPop(packets.Keys, at, Contents(), i);
      }
      p := PopQueue(i);
      if p != null {
        at := at[p := Held];
      }
    }

    method PopQueue(i: nat) returns (p: Buffer?)
      requires Valid() && i < |queues|
      modifies queues[i], all`next
      ensures PoolOk() && QueuesOk() && pool.free == old(pool.free)
      ensures old(queues[i].items) == [] ==> p == null && Contents() == old(Contents())
      ensures old(queues[i].items) != [] ==> p == old(queues[i].items)[0] && Contents() == Popped(old(Contents()), i)
    {
      hide NextList, Distinct, Shared, ChainsOk, Located, PoolOk, QueuesOk;
      Separate();
      OneQueue(i);
      if queues[i].items != [] {
        OnlyHere(i, queues[i].items[0]);
      }
      p := queues[i].Pop();
      Untouched(p, p, i);
      if p == null {
        assert Contents() == old(Contents());
      } else {
        assert Contents() == Popped(old(Contents()), i);
      }
    }

    /** A held packet, or one in queue `i`, is in no other queue. */
    lemma OnlyHere(i: nat, p: Buffer)
      requires Valid() && i < |queues| && p in packets && (at[p] == Held || at[p] == Queued(i))
      ensures p !in pool.free && p in all && (at[p] == Held ==> p !in queues[i].items)
      ensures forall q :: q in queues && q != queues[i] ==> p !in q.items
    {
      hide NextList, Distinct, Shared, ChainsOk;
      Separate();
    }

    /** A chain that is not free shares no buffer with the free list, a queue or another packet. */
    lemma ChainSeparate(p: Buffer)
      requires Valid() && p in packets && at[p] == Held
      ensures forall b :: b in packets[p] ==> b in all && b !in pool.free
      ensures forall q, b :: q in packets && q != p && b in packets[q] ==> b !in packets[p]
      ensures forall i, b :: 0 <= i < |queues| && b in queues[i].items ==> b !in packets[p]
    {
      hide Shared, Located, PoolOk, QueuesOk, ChainsOk;
      Separate();
      SharedOnce(all, place, pool.free, packets);
      forall i, b | 0 <= i < |queues| && b in queues[i].items
        ensures b !in packets[p]
      {
        assert b in packets[b] && at[b] != at[p];
      }
    }

    /** Queues and packets are as they were when only buffers outside them have changed. */
    twostate lemma Kept(new touched: set<Buffer>)
      requires old(QueuesOk()) && old(ChainsOk()) && packets == old(packets)
      requires forall q :: q in queues ==>
        q.items == old(q.items) && q.head == old(q.head) && q.tail == old(q.tail) && q.count == old(q.count)
      requires forall b :: b in all && b !in touched ==> b.next == old(b.next) && b.link == old(b.link)
      requires forall i, b :: 0 <= i < |queues| && b in queues[i].items ==> b !in touched
      requires forall p, b :: p in packets && b in packets[p] ==> b !in touched
      ensures QueuesOk() && ChainsOk()
    {
      hide Distinct;
    }

    /** The same for all packets but one. */
    twostate lemma KeptButOne(new touched: set<Buffer>, new gone: Buffer)
      requires old(QueuesOk()) && old(ChainsOk()) && packets == old(packets)
      requires forall q :: q in queues ==>
        q.items == old(q.items) && q.head == old(q.head) && q.tail == old(q.tail) && q.count == old(q.count)
      requires forall b :: b in all && b !in touched ==> b.next == old(b.next) && b.link == old(b.link)
      requires forall i, b :: 0 <= i < |queues| && b in queues[i].items ==> b !in touched
      requires forall p, b :: p in packets && p != gone && b in packets[p] ==> b !in touched
      ensures QueuesOk()
      ensures forall p :: p in packets && p != gone ==> (forall b :: b in packets[p] ==> b in all) && Chain(packets[p])
    {
      hide Distinct;
    }

    lemma PacketFacts(p: Buffer)
      requires Valid() && p in packets
      ensures Chain(packets[p]) && Distinct(packets[p]) && packets[p][0] == p
    {
    }

    /** No buffer of a queue or a packet is free. */
    lemma FreeSeparate()
      requires Valid()
      ensures forall i, b :: 0 <= i < |queues| && b in queues[i].items ==> b !in pool.free
      ensures forall p, b :: p in packets && b in packets[p] ==> b !in pool.free
    {
      hide Shared, Located, PoolOk, QueuesOk, ChainsOk;
      Separate();
      SharedOnce(all, place, pool.free, packets);
    }

    lemma PoolFacts()
      requires Valid()
      ensures pool.Valid() && Distinct(pool.free) && forall b :: b in pool.free ==> b in all
    {
    }

    /** The allocation itself, and what it leaves alone. */
    method TakeChain(hifLen: nat) returns (p: Buffer?, ghost chain: seq<Buffer>)
      requires Valid() && hifLen < TWO16
      modifies pool, all
      ensures PoolOk() && QueuesOk() && ChainsOk() && Contents() == old(Contents())
      ensures p == null <==> Span(old(|pool.free|), pool.Capacity()) < HIF_HDR + hifLen
      ensures p == null ==> forall b :: b in pool.free <==> b in old(pool.free)
      ensures p != null ==>
        |chain| > 0 && Chain(chain) && chain[0] == p && old(pool.free) == chain + pool.free
        && Shortest(|chain|, pool.Capacity(), HIF_HDR + hifLen) && Filled(chain, pool.Capacity(), HIF_HDR + hifLen)
    {
      hide NextList, LinkList, Distinct, Shared, Located, QueuesOk, ChainsOk, Filled, Shortest, Span;
      PoolFacts();
      FreeSeparate();
      ghost var touched := set b | b in pool.free;
      p, chain := pool.AllocChain(hifLen);
      Kept(touched);
      if p == null {
        assert forall b :: b in pool.free <==> b in old(pool.free);
      } else {
        assert forall b :: b in pool.free ==> b in old(pool.free);
      }
      assert Contents() == old(Contents());
    }

    /** `sys_buf_alloc` for a client. */
    method AllocPacket(hifLen: nat) returns (p: Buffer?)
      requires Valid() && hifLen < TWO16
      modifies `packets, `place, `at, pool, all
      ensures Valid() && Contents() == old(Contents())
      ensures p == null <==> Span(old(|pool.free|), pool.Capacity()) < HIF_HDR + hifLen
      ensures p == null ==> packets == old(packets) && at == old(at)
      ensures p != null ==>
        p !in old(packets) && p in packets && packets == old(packets)[p := packets[p]] && at == old(at)[p := Held]
        && old(pool.free) == packets[p] + pool.free
        && Shortest(|packets[p]|, pool.Capacity(), HIF_HDR + hifLen)
        && Filled(packets[p], pool.Capacity(), HIF_HDR + hifLen)
    {
      hide Chain, Distinct, Shared, Located, QueuesOk, PoolOk, Filled, Shortest, Span, DistinctQueues, Moved;
      PoolFacts();
      ghost var free := pool.free;
      ghost var chain;
      p, chain := TakeChain(hifLen);
      if p != null {
        SharedAlloc(all, place, packets, chain, pool.free);
        AddPacket(p, chain);
      } else {
        SharedSame(all, place, packets, free, pool.free);
      }
    }

    ghost method AddPacket(p: Buffer, chain: seq<Buffer>)
      requires Located(packets.Keys, at, Contents()) && ChainsOk() && p !in packets
      requires (forall b :: b in chain ==> b in all) && Chain(chain)
      modifies `packets, `place, `at
      ensures packets == old(packets)[p := chain] && at == old(at)[p := Held] && place == Moved(old(place), chain, InPacket(p))
      ensures Located(packets.Keys, at, Contents()) && ChainsOk()
    {
      hide Chain, Located, Moved;
      LocatedMore(packets.Keys, at, Contents(), p);
      packets := packets[p := chain];
      at := at[p := Held];
      place := Moved(place, chain, InPacket(p));
      assert packets.Keys == old(packets.Keys) + {p};
    }

    /** `system_memory_pool_free` of a packet that a client holds. */
    method FreePacket(p: Buffer)
      requires Valid() && p in packets && at[p] == Held
      modifies `packets, `place, `at, pool, all
      ensures Valid() && Contents() == old(Contents())
      ensures packets == old(packets) - {p} && at == old(at) - {p}
      ensures |old(packets[p])| > 0 && pool.free == Freed(old(packets[p]), old(pool.free))
    {
      hide Chain, Distinct, Shared, Located, QueuesOk, PoolOk, DistinctQueues, Freed, Moved;
      Separate();
      ghost var free := pool.free;
      GiveChain(p);
      SharedFree(all, place, packets, p, free, pool.free);
      DropPacket(p);
    }

    ghost method DropPacket(p: Buffer)
      requires Located(packets.Keys, at, Contents()) && p in packets && p in at && at[p] == Held
      requires forall q :: q in packets && q != p ==> (forall b :: b in packets[q] ==> b in all) && Chain(packets[q])
      modifies `packets, `place, `at
      ensures packets == old(packets) - {p} && at == old(at) - {p} && place == Moved(old(place), old(packets)[p], OnFreeList)
      ensures Located(packets.Keys, at, Contents()) && ChainsOk()
    {
      hide Chain, Located, Moved;
      LocatedLess(packets.Keys, at, Contents(), p);
      place := Moved(place, packets[p], OnFreeList);
      packets := packets - {p};
      at := at - {p};
      assert packets.Keys == old(packets.Keys) - {p};
    }

    /** The freeing itself, and what it leaves alone. */
    method GiveChain(p: Buffer)
      requires Valid() && p in packets && at[p] == Held
      modifies pool, all
      ensures PoolOk() && QueuesOk() && Contents() == old(Contents())
      ensures forall q :: q in packets && q != p ==> (forall b :: b in packets[q] ==> b in all) && Chain(packets[q])
      ensures |packets[p]| > 0 && pool.free == Freed(packets[p], old(pool.free))
      ensures forall b :: b in pool.free <==> b in packets[p] || b in old(pool.free)
    {
      hide NextList, LinkList, Distinct, Shared, Located, QueuesOk;
      PoolFacts();
      ChainSeparate(p);
      PacketFacts(p);
      ghost var chain := packets[p];
      ghost var touched := set b | b in chain;
      pool.Free(p, chain);
      KeptButOne(touched, p);
      assert Contents() == old(Contents());
      FreedMembers(chain, old(pool.free));
    }

    // -------------------------------------------------------------------------------------------
    // Conservation, over every run
    // -------------------------------------------------------------------------------------------

    ghost function InUse(): set<Buffer>
      requires place.Keys == all
      reads `place
    {
      set b | b in all && place[b].InPacket?
    }

    /** Every buffer is in exactly one place: free, or in one packet, which is in one queue at most. */
    lemma OnePlace()
      requires Valid()
      ensures place.Keys == all
      ensures forall b :: b in all ==> (b in pool.free <==> b !in InUse())
      ensures forall b :: b in InUse() ==> exists p :: p in packets && b in packets[p]
      ensures forall p, q, b :: p in packets && q in packets && b in packets[p] && b in packets[q] ==> p == q
      ensures forall p, i, j :: 0 <= i < |queues| && 0 <= j < |queues| && p in queues[i].items && p in queues[j].items ==> i == j
    {
      hide ChainsOk, QueuesOk, Located, NextList, PoolOk, Distinct;
      Separate();
      SharedOnce(all, place, pool.free, packets);
      forall p, i, j | 0 <= i < |queues| && 0 <= j < |queues| && p in queues[i].items && p in queues[j].items
        ensures i == j
      {
        assert at[p] == Queued(i) && at[p] == Queued(j);
      }
    }

    /** The free list has as many buffers as are not in use. */
    lemma Conservation()
      requires Valid()
      ensures place.Keys == all && pool.avail + |InUse()| == |all|
    {
      hide ChainsOk, QueuesOk, Owned, InUse;
      OnePlace();
      var free := set b | b in pool.free;
      SetOfDistinct(pool.free);
      InUseIsAll();
      assert free + InUse() == all && free !! InUse();
    }

    lemma InUseIsAll()
      requires place.Keys == all
      ensures InUse() <= all
    {
    }

    /** The packets that clients hold. */
    ghost function HeldPackets(): set<Buffer>
      reads `at
    {
      set p | p in at && at[p] == Held
    }

    /**
     Any sequence of allocations, frees, pushes and pops, on any choice of held packets, keeps every buffer in one place,
     and every queue gives out the packets in the order in which it got them.
     */
    method Run(script: seq<Command>) returns (ghost trace: seq<Answer>)
      requires Valid() && HeldPackets() == {} && |queues| > 0
      requires forall c :: c in script && c.DoAlloc? ==> c.hifLen < TWO16
      modifies this, pool, queues, all
      ensures Valid() && |trace| == |script|
      ensures forall i :: 0 <= i < |script| ==> Answers(script[i], trace[i], |queues|)
      ensures forall q :: 0 <= q < |queues| ==> old(Contents())[q] + Sent(trace, q) == Taken(trace, q) + Contents()[q]
    {
      hide Valid, Sent, Taken, Answers, FirstInFirstOut;
      var held: set<Buffer> := {};
      trace := [];
      NothingMoved(Contents());
      for i := 0 to |script|
        invariant Valid() && held == HeldPackets() && |trace| == i
        invariant forall k :: 0 <= k < i ==> Answers(script[k], trace[k], |queues|)
        invariant FirstInFirstOut(old(Contents()), trace, Contents())
      {
        ghost var answer, contents := NoneLeft, Contents();
        held, answer := Step(script[i], held);
        OneMoreAnswer(old(Contents()), trace, contents, answer);
        trace := trace + [answer];
      }
      InOrder(old(Contents()), trace, Contents());
    }

    /** One command, and what comes of it: the cases in which nothing does. */
    method Step(c: Command, held: set<Buffer>) returns (held': set<Buffer>, ghost answer: Answer)
      requires Valid() && held == HeldPackets() && |queues| > 0 && (c.DoAlloc? ==> c.hifLen < TWO16)
      modifies this, pool, queues, all
      ensures Valid() && held' == HeldPackets() && Answers(c, answer, |queues|)
      ensures Possible(answer, old(Contents())) && Contents() == After(answer, old(Contents()))
      ensures answer == NoneLeft <==>
        match c
        case DoAlloc(hifLen) => Span(old(|pool.free|), pool.Capacity()) < HIF_HDR + hifLen
        case DoFree => held == {}
        case DoPush(q) => held == {}
        case DoPop(q) => old(Contents())[q % |queues|] == []
    {
      hide Valid, Shortest, Filled, Span, Pushed, Popped, Freed;
      Separate();
      held', answer := held, NoneLeft;
      match c
      case DoAlloc(hifLen) =>
        var p := AllocPacket(hifLen);
        if p != null {
          held', answer := held + {p}, Gained(p);
        }
      case DoFree =>
        if held != {} {
          var p :| p in held;
          FreePacket(p);
          held', answer := held - {p}, Given(p);
        }
      case DoPush(q) =>
        if held != {} {
          var p :| p in held;
          Push(q % |queues|, p);
          held', answer := held - {p}, PushedTo(q % |queues|, p);
        }
      case DoPop(q) =>
        var p := Pop(q % |queues|);
        if p != null {
          held', answer := held + {p}, PoppedFrom(q % |queues|, p);
        }
    }
  }

  datatype Command = DoAlloc(hifLen: nat) | DoFree | DoPush(q: nat) | DoPop(q: nat)

  /** What a command did, with the packet it moved. */
  datatype Answer =
    | NoneLeft
    | Gained(p: Buffer)
    | Given(p: Buffer)
    | PushedTo(q: nat, p: Buffer)
    | PoppedFrom(q: nat, p: Buffer)

  ghost predicate Answers(c: Command, a: Answer, queues: nat)
    requires queues > 0
  {
    a == NoneLeft
    || match c
       case DoAlloc(hifLen) => a.Gained?
       case DoFree => a.Given?
       case DoPush(q) => a.PushedTo? && a.q == q % queues
       case DoPop(q) => a.PoppedFrom? && a.q == q % queues
  }

  ghost predicate Possible(a: Answer, contents: seq<seq<Buffer>>) {
    (a.PushedTo? ==> a.q < |contents|) && (a.PoppedFrom? ==> a.q < |contents| && contents[a.q] != [] && contents[a.q][0] == a.p)
  }

  ghost function After(a: Answer, contents: seq<seq<Buffer>>): seq<seq<Buffer>>
    requires Possible(a, contents)
  {
    match a
    case PushedTo(q, p) => Pushed(contents, q, p)
    case PoppedFrom(q, p) => Popped(contents, q)
    case _ => contents
  }

  /** The packets that went into queue `q`, and those that came out of it. */
  ghost function Sent(trace: seq<Answer>, q: nat): seq<Buffer> {
    if trace == [] then []
    else
      var before, a := Sent(trace[..|trace| - 1], q), trace[|trace| - 1];
      if a.PushedTo? && a.q == q then before + [a.p] else before
  }

  ghost function Taken(trace: seq<Answer>, q: nat): seq<Buffer> {
    if trace == [] then []
    else
      var before, a := Taken(trace[..|trace| - 1], q), trace[|trace| - 1];
      if a.PoppedFrom? && a.q == q then before + [a.p] else before
  }

  ghost predicate FirstInFirstOut(start: seq<seq<Buffer>>, trace: seq<Answer>, contents: seq<seq<Buffer>>) {
    |start| == |contents|
    && forall q :: 0 <= q < |start| ==> start[q] + Sent(trace, q) == Taken(trace, q) + contents[q]
  }

  lemma InOrder(start: seq<seq<Buffer>>, trace: seq<Answer>, contents: seq<seq<Buffer>>)
    requires FirstInFirstOut(start, trace, contents)
    ensures |start| == |contents| && forall q :: 0 <= q < |start| ==> start[q] + Sent(trace, q) == Taken(trace, q) + contents[q]
  {
  }

  lemma NothingMoved(start: seq<seq<Buffer>>)
    ensures FirstInFirstOut(start, [], start)
  {
    assert forall q :: 0 <= q < |start| ==> start[q] + [] == start[q] && [] + start[q] == start[q];
  }

  /** Each queue keeps its order over one more answer. */
  lemma OneMoreAnswer(start: seq<seq<Buffer>>, trace: seq<Answer>, contents: seq<seq<Buffer>>, a: Answer)
    requires FirstInFirstOut(start, trace, contents) && Possible(a, contents)
    ensures FirstInFirstOut(start, trace + [a], After(a, contents))
  {
    var trace', contents' := trace + [a], After(a, contents);
    assert trace'[..|trace|] == trace;
    forall q | 0 <= q < |start|
      ensures start[q] + Sent(trace', q) == Taken(trace', q) + contents'[q]
    {
      var into, out, now := Sent(trace, q), Taken(trace, q), contents[q];
      if a.PushedTo? && a.q == q {
        assert start[q] + (into + [a.p]) == (start[q] + into) + [a.p];
        assert out + (now + [a.p]) == (out + now) + [a.p];
      } else if a.PoppedFrom? && a.q == q {
        assert now == [a.p] + now[1..];
        assert (out + [a.p]) + now[1..] == out + now;
      }
    }
  }

  lemma {:induction false} SetOfDistinct(s: seq<Buffer>)
    requires Distinct(s)
    ensures |set b | b in s| == |s|
  {
    if s != [] {
      SetOfDistinct(s[1..]);
      assert (set b | b in s) == (set b | b in s[1..]) + {s[0]};
    }
  }

  /** The free list after a packet has been freed: its first fragment, the others backwards, then the old list. */
  ghost function Freed(chain: seq<Buffer>, free: seq<Buffer>): seq<Buffer>
    requires |chain| > 0
  {
    [chain[0]] + Reverse(chain[1..]) + free
  }

  lemma FreedMembers(chain: seq<Buffer>, free: seq<Buffer>)
    requires |chain| > 0
    ensures forall b :: b in Freed(chain, free) <==> b in chain || b in free
  {
  }

  lemma LocatedMore(heads: set<Buffer>, at: map<Buffer, PacketPlace>, contents: seq<seq<Buffer>>, p: Buffer)
    requires Located(heads, at, contents) && p !in heads
    ensures Located(heads + {p}, at[p := Held], contents)
  {
  }

  lemma LocatedLess(heads: set<Buffer>, at: map<Buffer, PacketPlace>, contents: seq<seq<Buffer>>, p: Buffer)
    requires Located(heads, at, contents) && p in heads && at[p] == Held
    ensures Located(heads - {p}, at - {p}, contents)
  {
  }

  lemma SharedSame(all: set<Buffer>, place: map<Buffer, Place>, packets: map<Buffer, seq<Buffer>>,
                   free: seq<Buffer>, free': seq<Buffer>)
    requires Shared(all, place, free, packets) && forall b :: b in free' <==> b in free
    ensures Shared(all, place, free', packets)
  {
  }
}
