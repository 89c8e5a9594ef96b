/**
 * The quorum arithmetic the leader uses to find its commit index. Neo4j's
 * Followers.quorumAppendIndex and FollowerStates are not part of this model;
 * they are given here by their contract: the quorum append index is the
 * highest log index that a strict majority of the voting members have matched,
 * or -1 when no index has such a majority.
 */
module Followers {
  import opened RaftTypes
  import opened Wrappers

  /** A member's match index; a member without a follower state counts as having matched nothing (-1). */
  function MatchIndexOf<M>(states: map<M, FollowerState>, m: M): int
  {
    if m in states then states[m].matchIndex else -1
  }

  /** How many of the given members have matched at least index v. */
  function CountAtLeast<M>(members: seq<M>, states: map<M, FollowerState>, v: int): (n: nat)
    ensures n <= |members|
  {
    if members == [] then 0
    else (if MatchIndexOf(states, members[0]) >= v then 1 else 0) + CountAtLeast(members[1..], states, v)
  }

  /** A strict majority of the voting members have matched at least index v. */
  predicate IsMajority<M>(voting: seq<M>, states: map<M, FollowerState>, v: int)
  {
    2 * CountAtLeast(voting, states, v) > |voting|
  }

  /**
   * The largest match index among `candidates` that a majority of `voting` has
   * reached, or -1 when there is none.
   */
  function BestQuorumIndex<M>(voting: seq<M>, states: map<M, FollowerState>, candidates: seq<M>): (r: int)
    ensures r >= -1
    ensures r == -1 || IsMajority(voting, states, r)
    ensures forall i :: 0 <= i < |candidates| && IsMajority(voting, states, MatchIndexOf(states, candidates[i]))
                        ==> MatchIndexOf(states, candidates[i]) <= r
  {
    if candidates == [] then -1
    else
      var rest := BestQuorumIndex(voting, states, candidates[1..]);
      var c := MatchIndexOf(states, candidates[0]);
      if IsMajority(voting, states, c) && c > rest then c else rest
  }

  /** The smallest match index of a member that is at least v, if any member has one. */
  function LeastMatchAtLeast<M>(members: seq<M>, states: map<M, FollowerState>, v: int): (r: Option<int>)
    ensures r.None? ==> CountAtLeast(members, states, v) == 0
    ensures r.None? ==> forall k :: 0 <= k < |members| ==> MatchIndexOf(states, members[k]) < v
    ensures r.Some? ==> r.value >= v
    ensures r.Some? ==> exists k :: 0 <= k < |members| && MatchIndexOf(states, members[k]) == r.value
    ensures r.Some? ==> forall k :: 0 <= k < |members| ==> !(v <= MatchIndexOf(states, members[k]) < r.value)
  {
    if members == [] then None
    else
      var c := MatchIndexOf(states, members[0]);
      var rest := LeastMatchAtLeast(members[1..], states, v);
      assert forall k :: 0 < k < |members| ==> members[k] == members[1..][k - 1];
      if c < v then rest
      else if rest.None? || c <= rest.value then Some(c)
      else rest
  }

  /** When no member's match index falls in [v, w), counting from v or from w gives the same number. */
  lemma {:induction false} CountAcrossGap<M>(members: seq<M>, states: map<M, FollowerState>, v: int, w: int)
    requires v <= w
    requires forall k :: 0 <= k < |members| ==> !(v <= MatchIndexOf(states, members[k]) < w)
    ensures CountAtLeast(members, states, v) == CountAtLeast(members, states, w)
  {
    if members != [] {
      assert !(v <= MatchIndexOf(states, members[0]) < w);
      forall k | 0 <= k < |members[1..]|
        ensures !(v <= MatchIndexOf(states, members[1..][k]) < w)
      {
        assert members[1..][k] == members[k + 1];
      }
      CountAcrossGap(members[1..], states, v, w);
    }
  }

  /** The quorum append index of the voting members, as Followers.quorumAppendIndex promises it. */
  function QuorumAppendIndex<M>(voting: seq<M>, states: map<M, FollowerState>): (r: int)
    ensures r >= -1
    ensures r == -1 || IsMajority(voting, states, r)
    ensures forall v :: v > r ==> !IsMajority(voting, states, v)
  {
    var r := BestQuorumIndex(voting, states, voting);
    assert forall v :: v > r ==> !IsMajority(voting, states, v) by {
      forall v | v > r
        ensures !IsMajority(voting, states, v)
      {
        var least := LeastMatchAtLeast(voting, states, v);
        if least.Some? {
          var c := least.value;
          CountAcrossGap(voting, states, v, c);
          var k :| 0 <= k < |voting| && MatchIndexOf(states, voting[k]) == c;
        }
      }
    }
    r
  }

  /** Counting from a higher index never finds more members. */
  lemma {:induction false} CountAntitone<M>(members: seq<M>, states: map<M, FollowerState>, v: int, w: int)
    requires v <= w
    ensures CountAtLeast(members, states, w) <= CountAtLeast(members, states, v)
  {
    if members != [] {
      CountAntitone(members[1..], states, v, w);
    }
  }

  /** Every index at or below the quorum append index (and above -1) is matched by a majority. */
  lemma QuorumCoversBelow<M>(voting: seq<M>, states: map<M, FollowerState>, v: int)
    requires v <= QuorumAppendIndex(voting, states)
    requires QuorumAppendIndex(voting, states) != -1
    ensures IsMajority(voting, states, v)
  {
    CountAntitone(voting, states, v, QuorumAppendIndex(voting, states));
  }

  /** Raising any follower's match index never lowers the quorum append index. */
  lemma {:induction false} CountMonotoneInStates<M>(members: seq<M>, s1: map<M, FollowerState>, s2: map<M, FollowerState>, v: int)
    requires forall m :: MatchIndexOf(s1, m) <= MatchIndexOf(s2, m)
    ensures CountAtLeast(members, s1, v) <= CountAtLeast(members, s2, v)
  {
    if members != [] {
      CountMonotoneInStates(members[1..], s1, s2, v);
    }
  }

  lemma QuorumMonotone<M>(voting: seq<M>, s1: map<M, FollowerState>, s2: map<M, FollowerState>)
    requires forall m :: MatchIndexOf(s1, m) <= MatchIndexOf(s2, m)
    ensures QuorumAppendIndex(voting, s1) <= QuorumAppendIndex(voting, s2)
  {
    var q1, q2 := QuorumAppendIndex(voting, s1), QuorumAppendIndex(voting, s2);
    if q1 != -1 {
      CountMonotoneInStates(voting, s1, s2, q1);
      assert IsMajority(voting, s2, q1);
    }
  }
}
