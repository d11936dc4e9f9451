/** The packet queue of system/util_sysbuf_queue.c, threaded through the `next` fields of its packets. */
module BufferQueue {
  import opened SysBuf

  class Queue {
    var count: nat
    var head: Buffer?
    /** The last packet; popping the only packet leaves it pointing at that packet. */
    var tail: Buffer?
    ghost var items: seq<Buffer>

    ghost predicate Valid()
      reads this, items`next
    {
      NextList(items, head) && Distinct(items) && count == |items|
      && (items != [] ==> tail == items[|items| - 1])
    }

    /** `util_sysbuf_queue_init` */
    constructor ()
      ensures Valid() && items == []
    {
      count, head, tail, items := 0, null, null, [];
    }

    ghost function Last(): seq<Buffer>
      reads `items
    {
      if items == [] then [] else [items[|items| - 1]]
    }

    ghost function First(): seq<Buffer>
      reads `items
    {
      if items == [] then [] else [items[0]]
    }

    /** `util_sysbuf_queue_push` */
    method Push(b: Buffer)
      requires Valid() && b !in items
      modifies `count, `head, `tail, `items, Last()`next, b`next
      ensures Valid() && items == old(items) + [b]
    {
      if head != null {
        tail.next := b;
      } else {
        head := b;
      }
      tail := b;
      tail.next := null;
      count := count + 1;
      items := items + [b];
    }

    /** `util_sysbuf_queue_pop` */
    method Pop() returns (b: Buffer?)
      requires Valid()
      modifies `count, `head, `items, First()`next
      ensures Valid()
      ensures old(items) == [] ==> b == null && items == []
      ensures old(items) != [] ==> b == old(items)[0] && items == old(items)[1..] && b.next == null
    {
      b := null;
      if count != 0 {
        b := head;
        head := b.next;
        b.next := null;
        count := count - 1;
        items := items[1..];
      }
    }

    /** `util_sysbuf_queue_peek` */
    method Peek() returns (b: Buffer?)
      requires Valid()
      ensures b == At(items, 0)
    {
      b := null;
      if count != 0 {
        b := head;
      }
    }

    /** `util_sysbuf_queue_count` */
    method Count() returns (n: nat)
      requires Valid()
      ensures n == |items|
    {
      n := count;
    }
  }
}
