/**
 * The message-drop action of the Raft state explorer: it loses the message
 * at the head of one member's inbound queue and leaves everything else as it
 * was.
 */
module ExplorerActions {
  import opened Wrappers

  /** The explored cluster state, reduced to the inbound message queue of each member. */
  datatype ClusterState<M, Msg> = ClusterState(queues: map<M, seq<Msg>>)

  /** Copying a member's queue fails when the member has none (Java's NullPointerException in DropMessage.advance). */
  datatype ActionError = NoQueueForMember

  /**
   * DropMessage.advance for a member: the previous state itself when its
   * queue is empty, otherwise a new state in which its queue has lost its
   * head.
   */
  function DropMessage<M, Msg>(previous: ClusterState<M, Msg>, member: M): (r: Result<ClusterState<M, Msg>, ActionError>)
    ensures r.Err? <==> member !in previous.queues
    ensures r.Ok? ==> r.value.queues.Keys == previous.queues.Keys
    ensures r.Ok? && previous.queues[member] == [] ==> r.value == previous
    ensures r.Ok? && previous.queues[member] != [] ==>
              [previous.queues[member][0]] + r.value.queues[member] == previous.queues[member]
    ensures r.Ok? ==> forall other :: other in previous.queues && other != member ==>
              r.value.queues[other] == previous.queues[other]
  {
    if member !in previous.queues then Err(NoQueueForMember)
    else
      var inbound := previous.queues[member];
      if inbound == [] then Ok(previous)
      else Ok(ClusterState(previous.queues[member := inbound[1..]]))
  }

  /** The state after dropping n messages for the same member, one at a time. */
  function DropMany<M, Msg>(s: ClusterState<M, Msg>, member: M, n: nat): Result<ClusterState<M, Msg>, ActionError>
    decreases n
  {
    if n == 0 then Ok(s)
    else
      match DropMessage(s, member)
      case Err(e) => Err(e)
      case Ok(next) => DropMany(next, member, n - 1)
  }

  /**
   * Dropping n messages from a member's queue leaves the queue without its
   * first n messages (or empty, once they run out), and no other member's
   * queue changes.
   */
  lemma {:induction false} DropManyRemovesPrefix<M, Msg>(s: ClusterState<M, Msg>, member: M, n: nat)
    requires member in s.queues
    ensures DropMany(s, member, n).Ok?
    ensures DropMany(s, member, n).value.queues.Keys == s.queues.Keys
    ensures var q := s.queues[member];
            DropMany(s, member, n).value.queues[member] == (if n <= |q| then q[n..] else [])
    ensures forall other :: other in s.queues && other != member ==>
              DropMany(s, member, n).value.queues[other] == s.queues[other]
    decreases n
  {
    if n > 0 {
      var next := DropMessage(s, member).value;
      DropManyRemovesPrefix(next, member, n - 1);
      var q := s.queues[member];
      if q != [] {
        assert next.queues[member] == q[1..];
        if n <= |q| {
          assert q[1..][n - 1..] == q[n..];
        }
      }
    }
  }

  /** Once a member's queue is empty, dropping is the identity: the explorer reaches a fixed point. */
  lemma {:induction false} DropOnEmptyIsIdentity<M, Msg>(s: ClusterState<M, Msg>, member: M, n: nat)
    requires member in s.queues && s.queues[member] == []
    ensures DropMany(s, member, n) == Ok(s)
  {
    if n > 0 {
      DropOnEmptyIsIdentity(s, member, n - 1);
    }
  }

  /** For a member without a queue, every non-empty run of drops fails. */
  lemma DropWithoutQueueFails<M, Msg>(s: ClusterState<M, Msg>, member: M, n: nat)
    requires member !in s.queues && n > 0
    ensures DropMany(s, member, n) == Err(NoQueueForMember)
  {
  }
}
