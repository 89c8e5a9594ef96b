/**
 * The timeout service that drives elections and heartbeats: a set of armed
 * timeouts ordered by (deadline, id), a queue of pending renewals, and a
 * polling pass that applies the renewals and then fires every timeout that is
 * due. The clock reading and the random jitter are inputs.
 */
module Timeouts {

  /**
   * A scheduled timeout: its identity, its current deadline in milliseconds,
   * its length and the range of the random jitter added on each scheduling.
   */
  datatype Timeout = Timeout(id: nat, deadline: int, length: int, range: int)

  predicate ShouldTrigger(t: Timeout, now: int)
  {
    now >= t.deadline
  }

  /** The order of the armed set: by deadline, ties broken by id. */
  predicate Before(a: Timeout, b: Timeout)
  {
    a.deadline < b.deadline || (a.deadline == b.deadline && a.id < b.id)
  }

  /** Three-way comparison by (deadline, id), without the narrowing ScheduledTimeoutService.java applies to a 32-bit int. */
  function CompareTo(a: Timeout, b: Timeout): (r: int)
    ensures r < 0 <==> Before(a, b)
    ensures r > 0 <==> Before(b, a)
    ensures r == 0 <==> a.deadline == b.deadline && a.id == b.id
  {
    if a.deadline == b.deadline then a.id - b.id else a.deadline - b.deadline
  }

  /** Timeouts are equal when their ids are. */
  predicate Equals(a: Timeout, b: Timeout)
  {
    a.id == b.id
  }

  /** The comparison is a strict total order, and comparing equal implies being equal. */
  lemma CompareToIsTotalOrder(a: Timeout, b: Timeout, c: Timeout)
    ensures !Before(a, a)
    ensures Before(a, b) && Before(b, c) ==> Before(a, c)
    ensures Equals(a, b) || Before(a, b) || Before(b, a)
    ensures CompareTo(a, b) == 0 ==> Equals(a, b)
    ensures CompareTo(a, b) == -CompareTo(b, a)
  {
  }

  /** Java's narrowing of a long to an int: the low 32 bits, read as two's complement. */
  function Narrow32(x: int): (r: int)
    ensures -0x8000_0000 <= r < 0x8000_0000
    ensures (x - r) % 0x1_0000_0000 == 0
  {
    var low := x % 0x1_0000_0000;
    if low < 0x8000_0000 then low else low - 0x1_0000_0000
  }

  /** compareTo as written: the long difference of deadlines (or ids) cast to int. */
  function CompareToAsWritten(a: Timeout, b: Timeout): (r: int)
    ensures -0x8000_0000 <= r < 0x8000_0000
  {
    if a.deadline == b.deadline then Narrow32(a.id - b.id) else Narrow32(a.deadline - b.deadline)
  }

  /**
   * The cast breaks the comparator for deadlines 2^31 ms or more apart: two
   * timeouts 2^32 ms apart compare equal, so the armed set would drop the
   * second as a duplicate; and two timeouts 2^31 ms apart each compare below
   * the other.
   */
  lemma CompareToAsWrittenBreaksOrder()
    ensures var a, b := Timeout(0, 0, 0, 0), Timeout(1, 0x1_0000_0000, 0x1_0000_0000, 0);
            CompareToAsWritten(a, b) == 0 && Before(a, b) && !Equals(a, b)
    ensures var a, c := Timeout(0, 0, 0, 0), Timeout(2, 0x8000_0000, 0x8000_0000, 0);
            CompareToAsWritten(a, c) < 0 && CompareToAsWritten(c, a) < 0
  {
    assert Narrow32(-0x1_0000_0000) == 0;
    assert Narrow32(-0x8000_0000) == -0x8000_0000;
    assert Narrow32(0x8000_0000) == -0x8000_0000;
  }

  /** No jitter without a range; otherwise 0 <= jitter < range, as Random.nextInt(range) gives. */
  predicate JitterOk(range: int, jitter: int)
  {
    if range == 0 then jitter == 0 else 0 <= jitter < range
  }

  /** The deadline of a timeout scheduled at `clock`: its length plus a random jitter. */
  function TimeoutTimestamp(clock: int, length: int, range: int, jitter: int): (r: int)
    requires JitterOk(range, jitter)
    ensures clock + length <= r
    ensures range == 0 ==> r == clock + length
    ensures range > 0 ==> r < clock + length + range
  {
    clock + length + jitter
  }

  /** Sorted strictly by (deadline, id). */
  predicate Sorted(s: seq<Timeout>)
  {
    forall i, j :: 0 <= i < j < |s| ==> Before(s[i], s[j])
  }

  predicate DistinctIds(s: seq<Timeout>)
  {
    forall i, j :: 0 <= i < j < |s| ==> s[i].id != s[j].id
  }

  /** TreeSet.add: puts t in its place, unless an element that compares equal is already there. */
  function Insert(s: seq<Timeout>, t: Timeout): (r: seq<Timeout>)
    requires Sorted(s)
    ensures Sorted(r)
    ensures forall x :: x in r ==> x in s || x == t
    ensures forall x :: x in s ==> x in r
    ensures (forall x :: x in s ==> x.id != t.id) ==> t in r && |r| == |s| + 1
  {
    if s == [] then [t]
    else if Before(t, s[0]) then [t] + s
    else if Before(s[0], t) then
      var rest := Insert(s[1..], t);
      assert forall x :: x in s[1..] ==> x in s;
      assert forall x :: x in rest ==> Before(s[0], x) by {
        forall x | x in rest ensures Before(s[0], x) {
          if x != t {
            var j :| 0 <= j < |s[1..]| && s[1..][j] == x;
            assert s[j + 1] == x;
          }
        }
      }
      [s[0]] + rest
    else s
  }

  /** TreeSet.remove of the timeout with this id: every other timeout stays, in order. */
  function RemoveId(s: seq<Timeout>, id: nat): (r: seq<Timeout>)
    requires Sorted(s)
    ensures Sorted(r)
    ensures forall x :: x in r <==> x in s && x.id != id
    ensures |r| <= |s|
  {
    if s == [] then []
    else
      var rest := RemoveId(s[1..], id);
      assert forall x :: x in rest ==> x in s[1..];
      assert forall k :: 0 < k < |s| ==> s[k] == s[1..][k - 1];
      if s[0].id == id then rest else [s[0]] + rest
  }

  /** One renewal: remove the timeout, give it a fresh deadline from its own length and range, and re-add it. */
  function Renew(armed: seq<Timeout>, t: Timeout, clock: int, jitter: int): (r: seq<Timeout>)
    requires Sorted(armed)
    requires JitterOk(t.range, jitter)
    ensures Sorted(r)
  {
    Insert(RemoveId(armed, t.id), t.(deadline := TimeoutTimestamp(clock, t.length, t.range, jitter)))
  }

  /** A renewed timeout is armed afterwards with its new deadline, whether or not it was armed before. */
  lemma RenewArms(armed: seq<Timeout>, t: Timeout, clock: int, jitter: int)
    requires Sorted(armed)
    requires JitterOk(t.range, jitter)
    ensures t.(deadline := TimeoutTimestamp(clock, t.length, t.range, jitter)) in Renew(armed, t, clock, jitter)
    ensures forall x :: x in Renew(armed, t, clock, jitter) && x.id == t.id ==>
              x == t.(deadline := TimeoutTimestamp(clock, t.length, t.range, jitter))
    ensures forall x :: x in armed && x.id != t.id ==> x in Renew(armed, t, clock, jitter)
    ensures forall x :: x in Renew(armed, t, clock, jitter) && x.id != t.id ==> x in armed
  {
  }

  /** The renewals of one pass, applied in the order they were queued. */
  function ApplyRenewals(armed: seq<Timeout>, pending: seq<Timeout>, clocks: seq<int>, jitters: seq<int>): (r: seq<Timeout>)
    requires Sorted(armed)
    requires |clocks| == |pending| && |jitters| == |pending|
    requires forall i :: 0 <= i < |pending| ==> JitterOk(pending[i].range, jitters[i])
    ensures Sorted(r)
    decreases |pending|
  {
    if pending == [] then armed
    else ApplyRenewals(Renew(armed, pending[0], clocks[0], jitters[0]), pending[1..], clocks[1..], jitters[1..])
  }

  /** The timeout a renewal arms: the same timeout with a deadline taken from the renewal's clock and jitter. */
  function Renewed(t: Timeout, clock: int, jitter: int): Timeout
    requires JitterOk(t.range, jitter)
  {
    t.(deadline := TimeoutTimestamp(clock, t.length, t.range, jitter))
  }

  /** No renewal in the queue is for this id. */
  predicate NotQueued(pending: seq<Timeout>, id: nat)
  {
    forall i :: 0 <= i < |pending| ==> pending[i].id != id
  }

  /** The renewal at position i is the last one queued for its id. */
  predicate LastOfId(pending: seq<Timeout>, i: nat)
    requires i < |pending|
  {
    forall j :: i < j < |pending| ==> pending[j].id != pending[i].id
  }

  /**
   * What the renewals of one pass leave armed: every armed timeout whose id
   * was not queued stays; every queued id is armed at the deadline of its
   * last renewal and at no other; nothing else is armed.
   */
  lemma {:induction false} ApplyRenewalsArmsLastRenewal(armed: seq<Timeout>, pending: seq<Timeout>, clocks: seq<int>, jitters: seq<int>)
    requires Sorted(armed)
    requires |clocks| == |pending| && |jitters| == |pending|
    requires forall i :: 0 <= i < |pending| ==> JitterOk(pending[i].range, jitters[i])
    ensures var r := ApplyRenewals(armed, pending, clocks, jitters);
            forall x :: x in armed && NotQueued(pending, x.id) ==> x in r
    ensures var r := ApplyRenewals(armed, pending, clocks, jitters);
            forall i :: 0 <= i < |pending| && LastOfId(pending, i) ==> Renewed(pending[i], clocks[i], jitters[i]) in r
    ensures var r := ApplyRenewals(armed, pending, clocks, jitters);
            forall x, i :: x in r && 0 <= i < |pending| && x.id == pending[i].id && LastOfId(pending, i) ==>
              x == Renewed(pending[i], clocks[i], jitters[i])
    ensures var r := ApplyRenewals(armed, pending, clocks, jitters);
            forall x :: x in r && NotQueued(pending, x.id) ==> x in armed
    decreases |pending|
  {
    if pending != [] {
      var t, clock, jitter := pending[0], clocks[0], jitters[0];
      var next := Renew(armed, t, clock, jitter);
      var rest, restClocks, restJitters := pending[1..], clocks[1..], jitters[1..];
      RenewArms(armed, t, clock, jitter);
      ApplyRenewalsArmsLastRenewal(next, rest, restClocks, restJitters);
      var r := ApplyRenewals(armed, pending, clocks, jitters);
      assert r == ApplyRenewals(next, rest, restClocks, restJitters);
      assert forall k :: 0 <= k < |rest| ==> rest[k] == pending[k + 1] && restClocks[k] == clocks[k + 1] && restJitters[k] == jitters[k + 1];
      forall x | x in armed && NotQueued(pending, x.id)
        ensures x in r
      {
        assert x.id != pending[0].id;
        assert NotQueued(rest, x.id);
      }
      forall i | 0 <= i < |pending| && LastOfId(pending, i)
        ensures Renewed(pending[i], clocks[i], jitters[i]) in r
      {
        if i == 0 {
          assert NotQueued(rest, t.id);
        } else {
          assert LastOfId(rest, i - 1);
        }
      }
      forall x, i | x in r && 0 <= i < |pending| && x.id == pending[i].id && LastOfId(pending, i)
        ensures x == Renewed(pending[i], clocks[i], jitters[i])
      {
        if i == 0 {
          assert NotQueued(rest, x.id);
          assert x in next;
        } else {
          assert LastOfId(rest, i - 1);
        }
      }
      forall x | x in r && NotQueued(pending, x.id)
        ensures x in armed
      {
        assert NotQueued(rest, x.id);
        assert x.id != t.id;
      }
    }
  }

  /** How many timeouts at the front of the armed set are due. */
  function DueCount(s: seq<Timeout>, now: int): (k: nat)
    ensures k <= |s|
    ensures forall i :: 0 <= i < k ==> ShouldTrigger(s[i], now)
    ensures k < |s| ==> !ShouldTrigger(s[k], now)
  {
    if s == [] || !ShouldTrigger(s[0], now) then 0
    else
      var k := DueCount(s[1..], now);
      assert forall i :: 0 < i <= k ==> s[i] == s[1..][i - 1];
      1 + k
  }

  /**
   * On the sorted armed set, the due prefix is exactly the set of due
   * timeouts: firing stops at the first timeout that is not due because no
   * later one can be due.
   */
  lemma {:induction false} DuePrefixIsAllDue(s: seq<Timeout>, now: int)
    requires Sorted(s)
    ensures forall i :: 0 <= i < |s| ==> (i < DueCount(s, now) <==> ShouldTrigger(s[i], now))
  {
    var k := DueCount(s, now);
    forall i | k <= i < |s| ensures !ShouldTrigger(s[i], now) {
      if k < i {
        assert Before(s[k], s[i]);
      }
    }
  }

  /** TreeSet.removeAll: drops every timeout that is in `fired`. */
  function RemoveAll(s: seq<Timeout>, fired: seq<Timeout>): (r: seq<Timeout>)
    ensures forall x :: x in r <==> x in s && x !in fired
  {
    if s == [] then []
    else
      var rest := RemoveAll(s[1..], fired);
      assert forall k :: 0 < k < |s| ==> s[k] == s[1..][k - 1];
      if s[0] in fired then rest else [s[0]] + rest
  }

  /** On a sorted set, removing a prefix's elements leaves exactly the suffix. */
  lemma {:induction false} RemoveAllPrefix(s: seq<Timeout>, k: nat)
    requires Sorted(s) && k <= |s|
    ensures RemoveAll(s, s[..k]) == s[k..]
  {
    if s != [] {
      if k == 0 {
        RemoveAllNone(s, s[..0]);
      } else {
        assert s[0] in s[..k];
        assert Sorted(s[1..]) by {
          forall i, j | 0 <= i < j < |s[1..]| ensures Before(s[1..][i], s[1..][j]) {
            assert s[1..][i] == s[i + 1] && s[1..][j] == s[j + 1];
          }
        }
        RemoveAllPrefix(s[1..], k - 1);
        assert s[1..][..k - 1] == s[1..k];
        RemoveAllSame(s[1..], s[..k], s[1..k]);
        assert s[1..][k - 1..] == s[k..];
      }
    }
  }

  /** Removing elements the sequence does not hold changes nothing. */
  lemma {:induction false} RemoveAllNone(s: seq<Timeout>, fired: seq<Timeout>)
    requires forall x :: x in s ==> x !in fired
    ensures RemoveAll(s, fired) == s
  {
    if s != [] {
      assert forall x :: x in s[1..] ==> x in s;
      RemoveAllNone(s[1..], fired);
    }
  }

  /** Two removal lists that agree on the elements of s remove the same elements. */
  lemma {:induction false} RemoveAllSame(s: seq<Timeout>, f1: seq<Timeout>, f2: seq<Timeout>)
    requires forall x :: x in s ==> (x in f1 <==> x in f2)
    ensures RemoveAll(s, f1) == RemoveAll(s, f2)
  {
    if s != [] {
      assert forall x :: x in s[1..] ==> x in s;
      RemoveAllSame(s[1..], f1, f2);
    }
  }

  class TimeoutService {
    /** The armed timeouts, in (deadline, id) order. */
    var armed: seq<Timeout>
    /** Renewals requested since the last pass, in request order. */
    var pending: seq<Timeout>
    /** The id the next created timeout gets. */
    var nextId: nat

    ghost predicate Valid()
      reads this
    {
      && Sorted(armed)
      && DistinctIds(armed)
      && (forall t :: t in armed ==> t.id < nextId && t.range >= 0)
      && (forall t :: t in pending ==> t.id < nextId && t.range >= 0)
    }

    constructor ()
      ensures Valid() && armed == [] && pending == [] && nextId == 0
    {
      armed, pending, nextId := [], [], 0;
    }

    /** Creates and arms a timeout that is due `length` milliseconds plus a jitter after `now`. */
    method Create(now: int, length: int, range: int, jitter: int) returns (t: Timeout)
      requires Valid()
      requires range >= 0 && JitterOk(range, jitter)
      modifies this
      ensures Valid()
      ensures t == Timeout(old(nextId), TimeoutTimestamp(now, length, range, jitter), length, range)
      ensures armed == Insert(old(armed), t) && t in armed && |armed| == |old(armed)| + 1
      ensures pending == old(pending) && nextId == old(nextId) + 1
    {
      t := Timeout(nextId, TimeoutTimestamp(now, length, range, jitter), length, range);
      armed := Insert(armed, t);
      nextId := nextId + 1;
      assert DistinctIds(armed) by {
        forall i, j | 0 <= i < j < |armed| ensures armed[i].id != armed[j].id {
          assert armed[i] in old(armed) || armed[i] == t;
          assert armed[j] in old(armed) || armed[j] == t;
          if armed[i] != t && armed[j] != t {
            var i', j' :| 0 <= i' < |old(armed)| && 0 <= j' < |old(armed)| && old(armed)[i'] == armed[i] && old(armed)[j'] == armed[j];
            assert i' != j' by {
              assert Before(armed[i], armed[j]);
            }
          }
        }
      }
    }

    /** Queues a renewal; nothing else changes until the next pass. */
    method Renew(t: Timeout)
      requires Valid()
      requires t.id < nextId && t.range >= 0
      modifies this
      ensures Valid()
      ensures pending == old(pending) + [t] && armed == old(armed) && nextId == old(nextId)
    {
      pending := pending + [t];
    }

    /** Disarms the timeout without firing it. */
    method Cancel(t: Timeout)
      requires Valid()
      modifies this
      ensures Valid()
      ensures armed == RemoveId(old(armed), t.id)
      ensures forall x :: x in armed <==> x in old(armed) && x.id != t.id
      ensures pending == old(pending) && nextId == old(nextId)
    {
      armed := RemoveId(armed, t.id);
      DistinctIdsOfSubset(old(armed), armed);
    }

    /**
     * One polling pass at time `now`: apply the queued renewals in order
     * (clocks[i] and jitters[i] are the clock reading and the random jitter
     * for the i-th), fire the due timeouts in (deadline, id) order, and
     * disarm what fired.
     */
    method Run(now: int, clocks: seq<int>, jitters: seq<int>) returns (fired: seq<Timeout>)
      requires Valid()
      requires |clocks| == |pending| && |jitters| == |pending|
      requires forall i :: 0 <= i < |pending| ==> JitterOk(pending[i].range, jitters[i])
      modifies this
      ensures Valid()
      ensures pending == [] && nextId == old(nextId)
      ensures var renewed := ApplyRenewals(old(armed), old(pending), clocks, jitters);
              |fired| <= |renewed| && fired == renewed[..|fired|] && armed == renewed[|fired|..]
              && (forall t :: t in renewed ==> (t in fired <==> ShouldTrigger(t, now)))
      ensures forall t :: t in armed ==> !ShouldTrigger(t, now)
      ensures Sorted(fired)
    {
      var renewed := ApplyQueued(armed, pending, clocks, jitters, nextId);
      var rest;
      fired, rest := FireDue(renewed, now);
      DistinctIdsOfSubset(renewed, rest);
      armed, pending := rest, [];
    }
  }

  /** Both hold timeouts with ids below n and non-negative jitter ranges. */
  ghost predicate IssuedBelow(s: seq<Timeout>, n: nat)
  {
    forall t :: t in s ==> t.id < n && t.range >= 0
  }

  /** The renewal step of a pass: each queued timeout is disarmed and re-armed at its new deadline, in queue order. */
  method ApplyQueued(armed: seq<Timeout>, queue: seq<Timeout>, clocks: seq<int>, jitters: seq<int>, ghost n: nat)
      returns (current: seq<Timeout>)
    requires Sorted(armed) && DistinctIds(armed)
    requires |clocks| == |queue| && |jitters| == |queue|
    requires forall i :: 0 <= i < |queue| ==> JitterOk(queue[i].range, jitters[i])
    requires IssuedBelow(armed, n) && IssuedBelow(queue, n)
    ensures current == ApplyRenewals(armed, queue, clocks, jitters)
    ensures DistinctIds(current) && IssuedBelow(current, n)
  {
    current := armed;
    var i := 0;
    while i < |queue|
      invariant 0 <= i <= |queue|
      invariant Sorted(current) && DistinctIds(current) && IssuedBelow(current, n)
      invariant ApplyRenewals(current, queue[i..], clocks[i..], jitters[i..])
                == ApplyRenewals(armed, queue, clocks, jitters)
    {
      var renew := queue[i];
      assert renew in queue;
      var without := RemoveId(current, renew.id);
      DistinctIdsOfSubset(current, without);
      var rearmed := renew.(deadline := TimeoutTimestamp(clocks[i], renew.length, renew.range, jitters[i]));
      current := Insert(without, rearmed);
      DistinctIdsAfterInsert(without, rearmed);
      assert queue[i..][1..] == queue[i + 1..] && clocks[i..][1..] == clocks[i + 1..]
             && jitters[i..][1..] == jitters[i + 1..];
      i := i + 1;
    }
    assert queue[i..] == [];
  }

  /**
   * The firing step of a pass: collects the due timeouts from the front of the
   * sorted armed set, stopping at the first one that is not due, and then
   * removes what it collected. The collected ones are exactly the due ones.
   */
  method FireDue(armed: seq<Timeout>, now: int) returns (fired: seq<Timeout>, rest: seq<Timeout>)
    requires Sorted(armed)
    ensures |fired| <= |armed| && fired == armed[..|fired|] && rest == armed[|fired|..]
    ensures forall t :: t in armed ==> (t in fired <==> ShouldTrigger(t, now))
    ensures forall t :: t in rest ==> !ShouldTrigger(t, now)
    ensures Sorted(fired) && Sorted(rest)
  {
    fired := [];
    var k := 0;
    while k < |armed| && ShouldTrigger(armed[k], now)
      invariant 0 <= k <= |armed|
      invariant fired == armed[..k]
      invariant forall j :: 0 <= j < k ==> ShouldTrigger(armed[j], now)
    {
      fired := fired + [armed[k]];
      k := k + 1;
    }
    DuePrefixIsAllDue(armed, now);
    assert k == DueCount(armed, now) by {
      assert k == |armed| || !ShouldTrigger(armed[k], now);
    }
    RemoveAllPrefix(armed, k);
    rest := RemoveAll(armed, fired);
    forall t | t in armed ensures t in fired <==> ShouldTrigger(t, now) {
      var j :| 0 <= j < |armed| && armed[j] == t;
    }
    SortedSlices(armed, k);
  }

  lemma SortedSlices(s: seq<Timeout>, k: nat)
    requires Sorted(s) && k <= |s|
    ensures Sorted(s[..k]) && Sorted(s[k..])
  {
    assert forall i :: 0 <= i < k ==> s[..k][i] == s[i];
    assert forall i :: 0 <= i < |s| - k ==> s[k..][i] == s[k + i];
  }

  /** A sorted sequence drawn from a sorted one with distinct ids has distinct ids too. */
  lemma DistinctIdsOfSubset(s: seq<Timeout>, r: seq<Timeout>)
    requires Sorted(s) && DistinctIds(s) && Sorted(r)
    requires forall x :: x in r ==> x in s
    ensures DistinctIds(r)
  {
    forall i, j | 0 <= i < j < |r| ensures r[i].id != r[j].id {
      assert r[i] in s && r[j] in s;
      var i' :| 0 <= i' < |s| && s[i'] == r[i];
      var j' :| 0 <= j' < |s| && s[j'] == r[j];
      assert Before(r[i], r[j]);
    }
  }

  lemma DistinctIdsAfterInsert(s: seq<Timeout>, t: Timeout)
    requires Sorted(s) && DistinctIds(s)
    requires forall x :: x in s ==> x.id != t.id
    ensures DistinctIds(Insert(s, t))
  {
    var r := Insert(s, t);
    forall i, j | 0 <= i < j < |r| ensures r[i].id != r[j].id {
      assert Before(r[i], r[j]);
      if r[i] != t && r[j] != t {
        assert r[i] in s && r[j] in s;
        var i' :| 0 <= i' < |s| && s[i'] == r[i];
        var j' :| 0 <= j' < |s| && s[j'] == r[j];
      }
    }
  }
}
