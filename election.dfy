/**
 * The deterministic coordinator election shared by the core-edge and the HA
 * editions: members are put in a set sorted by instance id (members with an
 * equal id collapse into the first one added), and when the member with the
 * smallest id is the local one, every registered listener is told that this
 * id is the coordinator.
 */
module CoordinatorRule {
  import opened Wrappers

  /** A cluster member as the election sees it: its instance id and whether it is this JVM's member. */
  datatype Member = Member(instanceId: int, isLocal: bool)

  /** Listeners are told apart by an identity; what they do on notification is not modelled. */
  type ListenerId = nat

  /** One call of coordinatorIsElected on a listener. */
  datatype Notification = CoordinatorIsElected(listener: ListenerId, coordinator: int)

  /** The instance ids the members carry. */
  function IdsOf(s: seq<Member>): set<int>
  {
    if s == [] then {} else {s[0].instanceId} + IdsOf(s[1..])
  }

  lemma {:induction false} IdsOfAppend(s: seq<Member>, t: seq<Member>)
    ensures IdsOf(s + t) == IdsOf(s) + IdsOf(t)
  {
    if s != [] {
      assert (s + t)[1..] == s[1..] + t;
      IdsOfAppend(s[1..], t);
    } else {
      assert s + t == t;
    }
  }

  lemma {:induction false} IdOfMemberIn(s: seq<Member>, m: Member)
    requires m in s
    ensures m.instanceId in IdsOf(s)
  {
    if s[0] != m {
      IdOfMemberIn(s[1..], m);
    }
  }

  /** Strictly ascending by instance id: the order of the sorted set, with no two equal ids. */
  predicate StrictlyAscending(s: seq<Member>)
  {
    forall i, j :: 0 <= i < j < |s| ==> s[i].instanceId < s[j].instanceId
  }

  /** The first member, in arrival order, that carries this id. */
  function FirstWithId(s: seq<Member>, id: int): (m: Member)
    requires id in IdsOf(s)
    ensures m in s && m.instanceId == id
  {
    if s[0].instanceId == id then s[0] else FirstWithId(s[1..], id)
  }

  lemma {:induction false} FirstWithIdAppend(s: seq<Member>, t: seq<Member>, id: int)
    requires id in IdsOf(s + t)
    ensures id in IdsOf(s) ==> FirstWithId(s + t, id) == FirstWithId(s, id)
    ensures id !in IdsOf(s) ==> id in IdsOf(t) && FirstWithId(s + t, id) == FirstWithId(t, id)
  {
    IdsOfAppend(s, t);
    if s != [] {
      assert (s + t)[1..] == s[1..] + t;
      if s[0].instanceId != id {
        FirstWithIdAppend(s[1..], t, id);
      }
    } else {
      assert s + t == t;
    }
  }

  /** The smallest instance id among the members. */
  function MinId(s: seq<Member>): (r: int)
    requires s != []
    ensures r in IdsOf(s)
    ensures forall i :: 0 <= i < |s| ==> r <= s[i].instanceId
  {
    if |s| == 1 then s[0].instanceId
    else
      var rest := MinId(s[1..]);
      assert forall i :: 0 < i < |s| ==> s[i] == s[1..][i - 1];
      if s[0].instanceId <= rest then s[0].instanceId else rest
  }

  lemma MinIdBelowAll(s: seq<Member>, id: int)
    requires s != [] && id in IdsOf(s)
    ensures MinId(s) <= id
  {
    var m := FirstWithId(s, id);
  }

  /** TreeSet.add under the instance-id comparator: a member whose id is already present is not added. */
  function Insert(sorted: seq<Member>, m: Member): (r: seq<Member>)
    requires StrictlyAscending(sorted)
    ensures StrictlyAscending(r)
    ensures IdsOf(r) == IdsOf(sorted) + {m.instanceId}
    ensures forall x :: x in r <==> x in sorted || (x == m && m.instanceId !in IdsOf(sorted))
  {
    if sorted == [] then [m]
    else if m.instanceId < sorted[0].instanceId then
      AscendingUncons(sorted);
      assert m.instanceId !in IdsOf(sorted);
      AscendingCons(m, sorted);
      [m] + sorted
    else if m.instanceId == sorted[0].instanceId then sorted
    else
      var rest := Insert(sorted[1..], m);
      AscendingUncons(sorted);
      AscendingCons(sorted[0], rest);
      [sorted[0]] + rest
  }

  /** A strictly ascending sequence splits into its smallest member and a strictly ascending rest. */
  lemma AscendingUncons(s: seq<Member>)
    requires StrictlyAscending(s) && s != []
    ensures StrictlyAscending(s[1..])
    ensures forall x :: x in s[1..] ==> s[0].instanceId < x.instanceId
    ensures forall id :: id in IdsOf(s) ==> s[0].instanceId <= id
    ensures forall x :: x in s <==> x == s[0] || x in s[1..]
  {
    forall x | x in s[1..] ensures s[0].instanceId < x.instanceId {
      var j :| 0 <= j < |s[1..]| && s[1..][j] == x;
      assert s[j + 1] == x;
    }
    forall id | id in IdsOf(s) ensures s[0].instanceId <= id {
      FirstOfAscendingIsMin(s, id);
    }
    forall x | x in s ensures x == s[0] || x in s[1..] {
      var j :| 0 <= j < |s| && s[j] == x;
      if j > 0 {
        assert s[1..][j - 1] == x;
      }
    }
  }

  lemma AscendingCons(a: Member, s: seq<Member>)
    requires StrictlyAscending(s)
    requires forall x :: x in s ==> a.instanceId < x.instanceId
    ensures StrictlyAscending([a] + s)
    ensures ([a] + s)[1..] == s
  {
    forall i, j | 0 <= i < j < |[a] + s| ensures ([a] + s)[i].instanceId < ([a] + s)[j].instanceId {
      if i == 0 {
        assert s[j - 1] in s;
      }
    }
  }

  /** TreeSet.addAll: the members added one by one in arrival order. */
  function AddAll(acc: seq<Member>, members: seq<Member>): (r: seq<Member>)
    requires StrictlyAscending(acc)
    ensures StrictlyAscending(r)
    ensures IdsOf(r) == IdsOf(acc) + IdsOf(members)
    ensures forall x :: x in r ==> x in acc || x in members
    decreases |members|
  {
    if members == [] then acc
    else
      assert forall x :: x in members[1..] ==> x in members;
      AddAll(Insert(acc, members[0]), members[1..])
  }

  /** The sorted member set the election builds. */
  function SortedById(members: seq<Member>): (r: seq<Member>)
    ensures StrictlyAscending(r)
    ensures IdsOf(r) == IdsOf(members)
  {
    AddAll([], members)
  }

  /** Every member in the sorted set is the first member to arrive with its id. */
  predicate KeptFirst(r: seq<Member>, seen: seq<Member>)
  {
    forall x :: x in r ==> x.instanceId in IdsOf(seen) && x == FirstWithId(seen, x.instanceId)
  }

  lemma {:induction false} AddAllKeepsFirst(acc: seq<Member>, seen: seq<Member>, members: seq<Member>)
    requires StrictlyAscending(acc)
    requires IdsOf(acc) == IdsOf(seen)
    requires KeptFirst(acc, seen)
    ensures KeptFirst(AddAll(acc, members), seen + members)
    decreases |members|
  {
    if members == [] {
      assert seen + members == seen;
    } else {
      var m := members[0];
      var next := Insert(acc, m);
      var seen' := seen + [m];
      IdsOfAppend(seen, [m]);
      forall x | x in next ensures x.instanceId in IdsOf(seen') && x == FirstWithId(seen', x.instanceId) {
        FirstWithIdAppend(seen, [m], x.instanceId);
      }
      assert seen' + members[1..] == seen + members;
      AddAllKeepsFirst(next, seen', members[1..]);
    }
  }

  /**
   * The election's outcome for these members: no coordinator for an empty
   * set, none when the first member of the sorted set is not local, and
   * otherwise that member's instance id.
   */
  function ElectedCoordinator(members: seq<Member>): Option<int>
  {
    var sorted := SortedById(members);
    if sorted == [] then None
    else if !sorted[0].isLocal then None
    else Some(sorted[0].instanceId)
  }

  /** The first member of a strictly ascending sequence holds its smallest id. */
  lemma {:induction false} FirstOfAscendingIsMin(r: seq<Member>, id: int)
    requires StrictlyAscending(r) && id in IdsOf(r)
    ensures r != [] && r[0].instanceId <= id
  {
    var m := FirstWithId(r, id);
    var j :| 0 <= j < |r| && r[j] == m;
  }

  /**
   * The outcome stated without the sorted set: the coordinator is the
   * minimum instance id, announced exactly when the first member to arrive
   * with that id is local.
   */
  lemma CoordinatorIsMinimumId(members: seq<Member>)
    ensures members == [] ==> ElectedCoordinator(members) == None
    ensures members != [] ==>
              var first := FirstWithId(members, MinId(members));
              ElectedCoordinator(members) == (if first.isLocal then Some(MinId(members)) else None)
  {
    var sorted := SortedById(members);
    if members != [] {
      var low := MinId(members);
      FirstOfAscendingIsMin(sorted, low);
      SortedHeadIsMin(members, sorted);
      assert sorted[0].instanceId == low;
      SortedHeadIsFirst(members, sorted);
    }
  }

  lemma SortedHeadIsMin(members: seq<Member>, sorted: seq<Member>)
    requires members != [] && sorted == SortedById(members) && sorted != []
    ensures MinId(members) <= sorted[0].instanceId
  {
    IdOfMemberIn(sorted, sorted[0]);
    MinIdBelowAll(members, sorted[0].instanceId);
  }

  lemma SortedHeadIsFirst(members: seq<Member>, sorted: seq<Member>)
    requires sorted == SortedById(members) && sorted != []
    ensures sorted[0].instanceId in IdsOf(members)
    ensures sorted[0] == FirstWithId(members, sorted[0].instanceId)
  {
    assert [] + members == members;
    AddAllKeepsFirst([], [], members);
    assert sorted[0] in sorted;
  }

  /** No two members of the set carry the same instance id. */
  predicate UniqueIds(s: seq<Member>)
  {
    forall i, j :: 0 <= i < |s| && 0 <= j < |s| && s[i].instanceId == s[j].instanceId ==> s[i] == s[j]
  }

  lemma {:induction false} IdsOfSameMembers(a: seq<Member>, b: seq<Member>)
    requires forall x :: x in a <==> x in b
    ensures IdsOf(a) == IdsOf(b)
  {
    forall id | id in IdsOf(a) ensures id in IdsOf(b) {
      IdOfMemberIn(b, FirstWithId(a, id));
    }
    forall id | id in IdsOf(b) ensures id in IdsOf(a) {
      IdOfMemberIn(a, FirstWithId(b, id));
    }
  }

  /**
   * When no two members share an instance id, the outcome depends only on
   * which members there are, not on the order the set yields them in.
   */
  lemma ElectionIgnoresArrivalOrder(a: seq<Member>, b: seq<Member>)
    requires forall x :: x in a <==> x in b
    requires UniqueIds(a)
    ensures ElectedCoordinator(a) == ElectedCoordinator(b)
  {
    CoordinatorIsMinimumId(a);
    CoordinatorIsMinimumId(b);
    if a != [] {
      assert a[0] in b;
      IdsOfSameMembers(a, b);
      MinIdBelowAll(a, MinId(b));
      MinIdBelowAll(b, MinId(a));
      var fa, fb := FirstWithId(a, MinId(a)), FirstWithId(b, MinId(b));
      var i :| 0 <= i < |a| && a[i] == fa;
      var j :| 0 <= j < |a| && a[j] == fb;
    } else {
      IdsOfSameMembers(a, b);
    }
  }

  /** Listeners.notifyListeners: each listener, in registration order, is told the coordinator's id. */
  method NotifyAll(listeners: seq<ListenerId>, coordinator: int) returns (sent: seq<Notification>)
    ensures |sent| == |listeners|
    ensures forall i :: 0 <= i < |listeners| ==> sent[i] == CoordinatorIsElected(listeners[i], coordinator)
  {
    sent := [];
    var i := 0;
    while i < |listeners|
      invariant 0 <= i <= |listeners|
      invariant |sent| == i
      invariant forall k :: 0 <= k < i ==> sent[k] == CoordinatorIsElected(listeners[k], coordinator)
    {
      sent := sent + [CoordinatorIsElected(listeners[i], coordinator)];
      i := i + 1;
    }
  }
}

/** The coordinator election of the core-edge edition. */
module CoreEdgeElection {
  import opened Wrappers
  import opened CoordinatorRule

  class Election {
    /** The registered outcome listeners, in registration order. */
    var listeners: seq<ListenerId>

    constructor ()
      ensures listeners == []
    {
      listeners := [];
    }

    method AddOutcomeListener(listener: ListenerId)
      modifies this
      ensures listeners == old(listeners) + [listener]
    {
      listeners := listeners + [listener];
    }

    /**
     * Runs the election over the members: every listener hears of the
     * coordinator when the smallest-id member is local, and nobody hears
     * anything otherwise.
     */
    method TriggerElection(members: seq<Member>) returns (sent: seq<Notification>)
      ensures ElectedCoordinator(members).None? ==> sent == []
      ensures ElectedCoordinator(members).Some? ==>
                |sent| == |listeners|
                && forall i :: 0 <= i < |listeners| ==>
                     sent[i] == CoordinatorIsElected(listeners[i], ElectedCoordinator(members).value)
    {
      var sorted := SortedById(members);
      if sorted == [] {
        return [];
      }
      if !sorted[0].isLocal {
        return [];
      }
      var master := sorted[0];
      sent := NotifyAll(listeners, master.instanceId);
    }
  }
}

/** The same election rule in the HA edition. */
module HaElection {
  import opened Wrappers
  import opened CoordinatorRule

  class MyElection {
    /** The registered outcome listeners, in registration order. */
    var listeners: seq<ListenerId>

    constructor ()
      ensures listeners == []
    {
      listeners := [];
    }

    method AddOutcomeListener(listener: ListenerId)
      modifies this
      ensures listeners == old(listeners) + [listener]
    {
      listeners := listeners + [listener];
    }

    /** The same rule as the core-edge election: only a local smallest-id member gets announced. */
    method TriggerElection(members: seq<Member>) returns (sent: seq<Notification>)
      ensures ElectedCoordinator(members).None? ==> sent == []
      ensures ElectedCoordinator(members).Some? ==>
                |sent| == |listeners|
                && forall i :: 0 <= i < |listeners| ==>
                     sent[i] == CoordinatorIsElected(listeners[i], ElectedCoordinator(members).value)
    {
      var sorted := SortedById(members);
      if sorted == [] || !sorted[0].isLocal {
        sent := [];
      } else {
        sent := NotifyAll(listeners, sorted[0].instanceId);
      }
    }
  }
}
