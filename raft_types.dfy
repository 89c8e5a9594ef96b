/**
 * The values a Raft role handler works on: the messages members exchange, the
 * read-only view of one member's state, and the Outcome a handler returns.
 * Member identities are a type parameter M: the engine only compares them.
 */
module RaftTypes {
  import opened Wrappers

  /** The replicated payload of a log entry; the engine never looks inside it. */
  type Content = seq<int>

  datatype Role = Follower | Candidate | Leader

  /** A log entry: the term it was written in and its content. Its index is its position. */
  datatype LogEntry = LogEntry(term: int, content: Content)

  datatype Message<M> =
    | Heartbeat(from: M, leaderTerm: int, commitIndex: int, commitIndexTerm: int)
    | HeartbeatTimeout(from: M)
    | ElectionTimeout(from: M)
    | AppendRequest(from: M, leaderTerm: int, prevLogIndex: int, prevLogTerm: int,
                    entries: seq<LogEntry>, leaderCommit: int)
    | AppendResponse(from: M, term: int, success: bool, matchIndex: int)
    | VoteRequest(from: M, term: int, candidate: M, lastLogIndex: int, lastLogTerm: int)
    | VoteResponse(from: M, term: int, voteGranted: bool)
    | NewEntryRequest(from: M, content: Content)

  /** A message together with the member it is addressed to. */
  datatype Directed<M> = Directed(to: M, message: Message<M>)

  datatype LogCommand =
    | AppendLogEntry(index: int, entry: LogEntry)
    | CommitCommand(commitIndex: int)
    | TruncateLog(fromIndex: int)

  /** Commands for the per-follower log shipping manager. */
  datatype ShipCommand<M> =
    | Match(matchIndex: int, target: M)
    | Mismatch(lastRemoteAppendIndex: int, target: M)
    | NewEntry(prevLogIndex: int, prevLogTerm: int, entry: LogEntry)
    | CommitUpdate

  datatype FollowerState = FollowerState(matchIndex: int)

  /**
   * What a handler may read of the replicated log: the terms of its entries,
   * in index order, and the log's commit index.
   */
  datatype LogView = LogView(terms: seq<int>, commitIndex: int)
  {
    /** Index of the last appended entry; -1 for an empty log. */
    function AppendIndex(): (r: int)
      ensures r == -1 <==> terms == []
      ensures r >= 0 ==> r == |terms| - 1
    {
      |terms| - 1
    }

    /** Term of the entry at index i, or -1 when the log has no entry there. */
    function ReadEntryTerm(i: int): (r: int)
      ensures 0 <= i <= AppendIndex() ==> r == terms[i]
      ensures !(0 <= i <= AppendIndex()) ==> r == -1
    {
      if 0 <= i < |terms| then terms[i] else -1
    }
  }

  /** The read-only view of one member's Raft state that a role handler receives. */
  datatype RaftState<M> = RaftState(
    myself: M,
    term: int,
    leader: Option<M>,
    leaderCommit: int,
    votingMembers: seq<M>,
    replicationMembers: seq<M>,
    followerStates: map<M, FollowerState>,
    log: LogView,
    lastLogIndexBeforeWeBecameLeader: int)

  /** An immutable description of one state transition, applied by the driver. */
  datatype Outcome<M> = Outcome(
    nextRole: Role,
    term: int,
    leader: Option<M>,
    leaderCommit: int,
    votedFor: Option<M>,
    votesForMe: set<M>,
    lastLogIndexBeforeWeBecameLeader: int,
    followerStates: map<M, FollowerState>,
    renewElectionTimeout: bool,
    logCommands: seq<LogCommand>,
    outgoing: seq<Directed<M>>,
    shipCommands: seq<ShipCommand<M>>)

  /** The sequences standing for Java sets hold each member at most once. */
  predicate Distinct<M(==)>(s: seq<M>)
  {
    forall i, j :: 0 <= i < j < |s| ==> s[i] != s[j]
  }
}
