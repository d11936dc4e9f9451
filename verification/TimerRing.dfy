/**
 The intrusive circular doubly linked list of timers in drivers/hal_rtc.c (`rt_list_*`), refined to
 a sequence. A ring of timers is a sequence whose neighbours point at each other, the last at the first.
 */
module TimerRing {

  datatype TimerType = CountDown | TargetDay | TargetMonth
  datatype TimerFlag = OneShot | Periodic
  datatype TimerStatus = Inactive | Ready | Running | Stop | Suspend

  class RtcTimer {
    const kind: TimerType
    const flag: TimerFlag
    var status: TimerStatus
    var remain: nat
    var setDate: nat
    var aimDate: nat
    var next: RtcTimer
    var prev: RtcTimer

    /** `rtc_timer_create`, with `rt_list_init` */
    constructor (date: nat, kind: TimerType, flag: TimerFlag)
      ensures this.kind == kind && this.flag == flag && status == Inactive
      ensures setDate == date && aimDate == date && remain == 0
      ensures next == this && prev == this
    {
      this.kind, this.flag := kind, flag;
      status, remain, setDate, aimDate := Inactive, 0, date, date;
      next := this;
      prev := this;
    }
  }

  ghost predicate Distinct(r: seq<RtcTimer>) {
    forall i, j :: 0 <= i < j < |r| ==> r[i] != r[j]
  }

  ghost function After(i: nat, n: nat): nat { if i + 1 < n then i + 1 else 0 }

  /** Each timer's `next` is its successor and whose `prev` leads back, around the ring. */
  ghost predicate Circular(r: seq<RtcTimer>)
    reads r`next, r`prev
  {
    forall i :: 0 <= i < |r| ==> r[i].next == r[After(i, |r|)] && r[After(i, |r|)].prev == r[i]
  }

  ghost function InsertAt(r: seq<RtcTimer>, k: nat, t: RtcTimer): seq<RtcTimer>
    requires k <= |r|
  {
    r[..k] + [t] + r[k..]
  }

  ghost function RemoveAt(r: seq<RtcTimer>, k: nat): seq<RtcTimer>
    requires k < |r|
  {
    r[..k] + r[k + 1..]
  }

  lemma InsertAtFacts(r: seq<RtcTimer>, k: nat, t: RtcTimer)
    requires k <= |r| && Distinct(r) && t !in r
    ensures Distinct(InsertAt(r, k, t))
    ensures multiset(InsertAt(r, k, t)) == multiset(r) + multiset{t}
    ensures forall x :: x in InsertAt(r, k, t) ==> x in r || x == t
    ensures t in InsertAt(r, k, t) && forall x :: x in r ==> x in InsertAt(r, k, t)
    ensures |InsertAt(r, k, t)| == |r| + 1 && InsertAt(r, k, t)[0] == if k == 0 then t else r[0]
  {
    assert r == r[..k] + r[k..];
  }

  lemma RemoveAtFacts(r: seq<RtcTimer>, k: nat)
    requires k < |r| && Distinct(r)
    ensures Distinct(RemoveAt(r, k)) && r[k] !in RemoveAt(r, k)
    ensures multiset(RemoveAt(r, k)) == multiset(r) - multiset{r[k]}
    ensures forall x :: x in RemoveAt(r, k) <==> x in r && x != r[k]
  {
    assert r == r[..k] + [r[k]] + r[k + 1..];
    forall x | x in r && x != r[k]
      ensures x in RemoveAt(r, k)
    {
      var i :| 0 <= i < |r| && r[i] == x;
      assert x == if i < k then RemoveAt(r, k)[i] else RemoveAt(r, k)[i - 1];
    }
  }

  lemma RotateOne(r: seq<RtcTimer>)
    requires |r| > 0 && Circular(r)
    ensures Circular(r[1..] + [r[0]])
  {
  }

  /** The same ring may be read from any of its timers on. */
  lemma {:induction false} Rotate(r: seq<RtcTimer>, k: nat)
    requires k <= |r| && Circular(r)
    ensures Circular(From(r, k))
    decreases k
  {
    if k == 0 {
      assert r[0..] + r[..0] == r;
    } else {
      var s := r[1..] + [r[0]];
      RotateOne(r);
      Rotate(s, k - 1);
      assert s[k - 1..] + s[..k - 1] == r[k..] + r[..k];
    }
  }

  /** `rt_list_insert_before` on a whole ring read from `l` on: `t` becomes the last. */
  method LinkBefore(l: RtcTimer, t: RtcTimer, ghost r: seq<RtcTimer>)
    requires |r| > 0 && r[0] == l && Circular(r) && Distinct(r) && t !in r
    modifies r`next, r`prev, t`next, t`prev
    ensures Circular(r + [t])
  {
    ghost var n := |r|;
    assert After(n - 1, n) == 0;
    l.prev.next := t;
    t.prev := l.prev;
    l.prev := t;
    t.next := l;
    ghost var s := r + [t];
    forall i | 0 <= i < n + 1
      ensures s[i].next == s[After(i, n + 1)] && s[After(i, n + 1)].prev == s[i]
    {
      if i < n - 1 {
        assert s[i] == r[i] && s[After(i, n + 1)] == r[After(i, n)];
      }
    }
  }

  /** `rt_list_remove` on a whole ring read up to `t`. */
  method Unlink(t: RtcTimer, ghost r: seq<RtcTimer>)
    requires Circular(r + [t]) && Distinct(r + [t])
    modifies r`next, r`prev, t`next, t`prev
    ensures Circular(r) && t.next == t && t.prev == t
  {
    ghost var n := |r|;
    ghost var s := r + [t];
    ghost var p := if n == 0 then 0 else n - 1;
    assert s[n] == t && After(n, n + 1) == 0 && After(p, n + 1) == n;
    assert t.prev == s[p] && t.next == s[0];
    t.next.prev := t.prev;
    t.prev.next := t.next;
    t.next := t;
    t.prev := t;
    forall i | 0 <= i < n
      ensures r[i].next == r[After(i, n)] && r[After(i, n)].prev == r[i]
    {
      assert s[i] == r[i] && s[0] == r[0];
      if i < n - 1 {
        assert s[After(i, n + 1)] == r[After(i, n)];
      }
    }
  }

  /** The ring of `r` read from position `k` on. */
  ghost function From(r: seq<RtcTimer>, k: nat): seq<RtcTimer>
    requires k <= |r|
  {
    r[k..] + r[..k]
  }

  lemma FromFacts(r: seq<RtcTimer>, k: nat)
    requires k <= |r| && Distinct(r)
    ensures |From(r, k)| == |r| && Distinct(From(r, k))
    ensures forall x :: x in From(r, k) <==> x in r
    ensures forall i :: 0 <= i < |r| ==> From(r, k)[i] in r
    ensures k < |r| ==> From(r, k)[0] == r[k]
  {
    assert r == r[..k] + r[k..];
  }

  lemma FromBack(r: seq<RtcTimer>, k: nat, t: RtcTimer)
    requires k < |r|
    ensures From(From(r, k) + [t], |r| - k) == InsertAt(r, k, t)
    ensures k == 0 ==> From(r, k) + [t] == InsertAt(r, |r|, t)
  {
  }

  lemma FromAfter(r: seq<RtcTimer>, k: nat)
    requires k < |r| && Distinct(r)
    ensures var s := r[k + 1..] + r[..k];
            From(r, k + 1) == s + [r[k]] && From(s, |r| - k - 1) == RemoveAt(r, k) && (forall x :: x in s ==> x in r)
  {
    FromFacts(r, k + 1);
  }

  /**
   `rt_list_insert_before(l, t)`: `t` goes between `l`, at position `k`, and the timer before it on
   the ring. At position 0 that place is both the front and the back of the sequence.
   */
  method InsertBefore(l: RtcTimer, t: RtcTimer, ghost r: seq<RtcTimer>, ghost k: nat)
    requires Circular(r) && Distinct(r) && t !in r
    requires k < |r| && r[k] == l
    modifies r`next, r`prev, t`next, t`prev
    ensures Circular(InsertAt(r, k, t))
    ensures k == 0 ==> Circular(InsertAt(r, |r|, t))
  {
    hide Circular, Distinct, From, InsertAt;
    ghost var s := From(r, k);
    FromFacts(r, k);
    Rotate(r, k);
    LinkBefore(l, t, s);
    Rotate(s + [t], |r| - k);
    FromBack(r, k, t);
  }

  /** `rt_list_remove(t)` for the timer at position `k`. A timer on its own is a ring of one. */
  method Remove(t: RtcTimer, ghost r: seq<RtcTimer>, ghost k: nat)
    requires Circular(r) && Distinct(r)
    requires k < |r| && r[k] == t
    modifies r`next, r`prev
    ensures Circular(RemoveAt(r, k))
    ensures t.next == t && t.prev == t
  {
    hide Circular, Distinct, From, RemoveAt;
    ghost var s := r[k + 1..] + r[..k];
    FromFacts(r, k + 1);
    FromAfter(r, k);
    Rotate(r, k + 1);
    assert t in r;
    Unlink(t, s);
    Rotate(s, |r| - k - 1);
  }
}
