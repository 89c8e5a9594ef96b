/**
 * The leader role of the Raft consensus algorithm (Ongaro and Ousterhout, "In
 * Search of an Understandable Consensus Algorithm"): a pure function from an
 * incoming message and a read-only view of the member's state to an Outcome.
 */
module Leader {
  import opened Wrappers
  import opened RaftTypes
  import opened Followers

  /** The one message the leader refuses to handle: another leader in its own term. */
  datatype HandlerError = TwoLeadersInSameTerm

  /** The elements of s other than x, in order. */
  function Without<M(==)>(s: seq<M>, x: M): (r: seq<M>)
    ensures forall i :: 0 <= i < |r| ==> r[i] in s && r[i] != x
    ensures forall i :: 0 <= i < |s| && s[i] != x ==> s[i] in r
    ensures |r| <= |s|
  {
    if s == [] then []
    else if s[0] == x then Without(s[1..], x)
    else [s[0]] + Without(s[1..], x)
  }

  /** The replication members the leader ships to: all of them except itself. */
  function ReplicationTargets<M(==)>(ctx: RaftState<M>): seq<M>
  {
    Without(ctx.replicationMembers, ctx.myself)
  }

  /** The heartbeat a leader sends: its term, its commit index and the term of the entry there. */
  function HeartbeatOf<M>(ctx: RaftState<M>): Message<M>
  {
    Heartbeat(ctx.myself, ctx.term, ctx.leaderCommit, ctx.log.ReadEntryTerm(ctx.leaderCommit))
  }

  /** One heartbeat for each replication target, in the targets' order. */
  function Heartbeats<M(==)>(ctx: RaftState<M>): (r: seq<Directed<M>>)
    ensures |r| == |ReplicationTargets(ctx)|
  {
    var targets := ReplicationTargets(ctx);
    seq(|targets|, i requires 0 <= i < |targets| => Directed(targets[i], HeartbeatOf(ctx)))
  }

  /** Appends one heartbeat per replication target to the caller's outgoing messages. */
  method SendHeartbeats<M(==)>(ctx: RaftState<M>, outgoing: seq<Directed<M>>) returns (out: seq<Directed<M>>)
    ensures out == outgoing + Heartbeats(ctx)
  {
    out := outgoing;
    var targets := ReplicationTargets(ctx);
    for i := 0 to |targets|
      invariant out == outgoing + Heartbeats(ctx)[..i]
    {
      var commitIndex := ctx.leaderCommit;
      var commitIndexTerm := ctx.log.ReadEntryTerm(commitIndex);
      var heartbeat := Heartbeat(ctx.myself, ctx.term, commitIndex, commitIndexTerm);
      out := out + [Directed(targets[i], heartbeat)];
      assert heartbeat == HeartbeatOf(ctx);
      assert Heartbeats(ctx)[i] == Directed(targets[i], heartbeat);
      assert Heartbeats(ctx)[..i + 1] == Heartbeats(ctx)[..i] + [Heartbeats(ctx)[i]];
    }
    assert Heartbeats(ctx)[..|targets|] == Heartbeats(ctx);
  }

  /** Without preserves the absence of duplicates. */
  lemma {:induction false} WithoutDistinct<M>(s: seq<M>, x: M)
    requires Distinct(s)
    ensures Distinct(Without(s, x))
  {
    if s != [] {
      assert Distinct(s[1..]) by {
        forall i, j | 0 <= i < j < |s[1..]| ensures s[1..][i] != s[1..][j] {
          assert s[1..][i] == s[i + 1] && s[1..][j] == s[j + 1];
        }
      }
      WithoutDistinct(s[1..], x);
      if s[0] != x {
        var rest := Without(s[1..], x);
        assert s[0] !in s[1..] by {
          forall j | 0 <= j < |s[1..]| ensures s[1..][j] != s[0] {
            assert s[1..][j] == s[j + 1];
          }
        }
        assert s[0] !in rest;
        var r := [s[0]] + rest;
        forall i, j | 0 <= i < j < |r| ensures r[i] != r[j] {
          if i == 0 {
            assert r[j] == rest[j - 1];
          } else {
            assert r[i] == rest[i - 1] && r[j] == rest[j - 1];
          }
        }
      }
    }
  }

  /**
   * On a heartbeat timeout every replication member except the leader itself
   * receives exactly one heartbeat, and every heartbeat carries the leader's
   * term, its commit index and the term of the entry at that index.
   */
  lemma HeartbeatsReachEachTargetOnce<M>(ctx: RaftState<M>)
    requires Distinct(ctx.replicationMembers)
    ensures forall m :: (exists i :: 0 <= i < |Heartbeats(ctx)| && Heartbeats(ctx)[i].to == m)
                        <==> m in ctx.replicationMembers && m != ctx.myself
    ensures forall i, j :: 0 <= i < j < |Heartbeats(ctx)| ==> Heartbeats(ctx)[i].to != Heartbeats(ctx)[j].to
    ensures forall i :: 0 <= i < |Heartbeats(ctx)| ==>
              Heartbeats(ctx)[i].message == Heartbeat(ctx.myself, ctx.term, ctx.leaderCommit,
                                                      ctx.log.ReadEntryTerm(ctx.leaderCommit))
  {
    var targets := ReplicationTargets(ctx);
    assert forall i :: 0 <= i < |Heartbeats(ctx)| ==> Heartbeats(ctx)[i] == Directed(targets[i], HeartbeatOf(ctx));
    WithoutDistinct(ctx.replicationMembers, ctx.myself);
    forall m ensures (exists i :: 0 <= i < |Heartbeats(ctx)| && Heartbeats(ctx)[i].to == m)
                     <==> m in ctx.replicationMembers && m != ctx.myself
    {
      if m in ctx.replicationMembers && m != ctx.myself {
        var i :| 0 <= i < |targets| && targets[i] == m;
        assert Heartbeats(ctx)[i].to == m;
      }
    }
  }

  /** The outcome when the leader keeps its role and does nothing. */
  function Unchanged<M>(ctx: RaftState<M>): Outcome<M>
  {
    Outcome(Leader, ctx.term, ctx.leader, ctx.log.commitIndex, None, {},
            ctx.lastLogIndexBeforeWeBecameLeader, ctx.followerStates, false, [], [], [])
  }

  /** The follower table after a successful response: the match index only ever grows. */
  function OnSuccessResponse<M>(states: map<M, FollowerState>, from: M, matchIndex: int): (r: map<M, FollowerState>)
    ensures r.Keys == states.Keys + {from}
    ensures MatchIndexOf(r, from) == if MatchIndexOf(states, from) > matchIndex then MatchIndexOf(states, from) else matchIndex
    ensures forall m :: m in states && m != from ==> r[m] == states[m]
  {
    var previous := MatchIndexOf(states, from);
    states[from := FollowerState(if previous > matchIndex then previous else matchIndex)]
  }

  /**
   * The commit decision of Leader.java as written: it tests the term of the
   * entry the responding follower matched, and then commits the quorum index,
   * whatever the term of the entry there.
   */
  function CommitAsWritten<M>(ctx: RaftState<M>, from: M, matchIndex: int): (r: Option<int>)
    ensures r.Some? <==> matchIndex > MatchIndexOf(ctx.followerStates, from)
                         && ctx.log.ReadEntryTerm(matchIndex) == ctx.term
                         && QuorumAppendIndex(ctx.votingMembers, OnSuccessResponse(ctx.followerStates, from, matchIndex))
                            > ctx.log.commitIndex
    ensures r.Some? ==> r.value > ctx.log.commitIndex
  {
    var progressed := matchIndex > MatchIndexOf(ctx.followerStates, from);
    var matchInCurrentTerm := ctx.log.ReadEntryTerm(matchIndex) == ctx.term;
    if progressed && matchInCurrentTerm then
      var quorum := QuorumAppendIndex(ctx.votingMembers, OnSuccessResponse(ctx.followerStates, from, matchIndex));
      if quorum > ctx.log.commitIndex then Some(quorum) else None
    else None
  }

  /**
   * A leader that commits an entry from an older term. Term 4, log terms
   * [1, 1, 2, 4], commit index 0, voting members 1 (the leader), 2 and 3;
   * member 2 had matched 2 and now matches 3, member 3 has matched 2. The
   * entry at 3 is from term 4, so the rule as written goes on, and commits the
   * quorum index 2, whose entry is from term 2.
   */
  lemma CommitAsWrittenCommitsOldTermEntry()
    ensures var ctx := RaftState(1, 4, None, 0, [1, 2, 3], [1, 2, 3],
                                 map[2 := FollowerState(2), 3 := FollowerState(2)],
                                 LogView([1, 1, 2, 4], 0), 2);
            CommitAsWritten(ctx, 2, 3) == Some(2) && ctx.log.ReadEntryTerm(2) != ctx.term
  {
    var ctx := RaftState(1, 4, None, 0, [1, 2, 3], [1, 2, 3],
                         map[2 := FollowerState(2), 3 := FollowerState(2)],
                         LogView([1, 1, 2, 4], 0), 2);
    var updated := OnSuccessResponse(ctx.followerStates, 2, 3);
    assert MatchIndexOf(updated, 1) == -1 && MatchIndexOf(updated, 2) == 3 && MatchIndexOf(updated, 3) == 2;
    assert CountAtLeast([3], updated, 2) == 1;
    assert CountAtLeast([2, 3], updated, 2) == 2;
    assert [1, 2, 3][1..] == [2, 3] && [2, 3][1..] == [3];
    assert IsMajority([1, 2, 3], updated, 2);
    assert CountAtLeast([3], updated, 3) == 0;
    assert CountAtLeast([1, 2, 3], updated, 3) == 1;
    assert !IsMajority([1, 2, 3], updated, 3);
    var q := QuorumAppendIndex(ctx.votingMembers, updated);
    if q > 2 {
      CountAntitone([1, 2, 3], updated, 3, q);
    }
  }

  /**
   * The commit decision as section 5.4.2 of the Raft paper states it: commit
   * the quorum index only when the entry there is from the leader's own term.
   */
  function CommitOnMatch<M>(ctx: RaftState<M>, from: M, matchIndex: int): (r: Option<int>)
    ensures r.Some? <==> matchIndex > MatchIndexOf(ctx.followerStates, from)
                         && QuorumAppendIndex(ctx.votingMembers, OnSuccessResponse(ctx.followerStates, from, matchIndex))
                            > ctx.log.commitIndex
                         && ctx.log.ReadEntryTerm(QuorumAppendIndex(ctx.votingMembers,
                              OnSuccessResponse(ctx.followerStates, from, matchIndex))) == ctx.term
    ensures r.Some? ==> r.value > ctx.log.commitIndex && ctx.log.ReadEntryTerm(r.value) == ctx.term
    ensures r.Some? && ctx.log.commitIndex >= -1 ==>
              IsMajority(ctx.votingMembers, OnSuccessResponse(ctx.followerStates, from, matchIndex), r.value)
  {
    var progressed := matchIndex > MatchIndexOf(ctx.followerStates, from);
    if progressed then
      var quorum := QuorumAppendIndex(ctx.votingMembers, OnSuccessResponse(ctx.followerStates, from, matchIndex));
      if quorum > ctx.log.commitIndex && ctx.log.ReadEntryTerm(quorum) == ctx.term then Some(quorum) else None
    else None
  }

  /** What Leader.java asserts of a message before handling it: a successful match lies within the leader's log. */
  predicate Admissible<M>(message: Message<M>, ctx: RaftState<M>)
  {
    match message
    case AppendResponse(_, term, success, matchIndex) =>
      term == ctx.term && success ==> matchIndex <= ctx.log.AppendIndex()
    case _ => true
  }

  /**
   * The term of the entry a new entry follows, as the leader reports it to the
   * shipping manager: the term of the entry at prevLogIndex, which a follower
   * checks against its own log. Past the last index it held before becoming
   * leader it answers with its own term without reading the log, which is that
   * entry's term as long as every entry appended since is of the leader's term.
   */
  function PrevLogTerm<M>(ctx: RaftState<M>): (r: int)
    ensures ctx.log.AppendIndex() <= ctx.lastLogIndexBeforeWeBecameLeader ==> r == ctx.log.ReadEntryTerm(ctx.log.AppendIndex())
    ensures (forall i :: ctx.lastLogIndexBeforeWeBecameLeader < i <= ctx.log.AppendIndex() && 0 <= i ==> ctx.log.terms[i] == ctx.term)
              ==> r == ctx.log.ReadEntryTerm(ctx.log.AppendIndex())
    ensures ctx.log.AppendIndex() > ctx.lastLogIndexBeforeWeBecameLeader && ctx.log.AppendIndex() != -1 ==> r == ctx.term
  {
    var prevLogIndex := ctx.log.AppendIndex();
    if prevLogIndex == -1 then -1
    else if prevLogIndex > ctx.lastLogIndexBeforeWeBecameLeader then ctx.term
    else ctx.log.terms[prevLogIndex]
  }

  /** How the leader handles one message. */
  function Handle<M(==)>(message: Message<M>, ctx: RaftState<M>): (r: Result<Outcome<M>, HandlerError>)
    requires Admissible(message, ctx)
    ensures r.Err? <==> message.AppendRequest? && message.leaderTerm == ctx.term
    ensures r.Ok? ==> r.value.term >= ctx.term
    ensures r.Ok? ==> r.value.leaderCommit >= ctx.log.commitIndex
    ensures r.Ok? && r.value.nextRole == Leader ==> r.value.term == ctx.term
    ensures r.Ok? ==> r.value.nextRole in {Leader, Follower}
  {
    var stay := Unchanged(ctx);
    match message
    case Heartbeat(_, leaderTerm, _, _) =>
      if leaderTerm < ctx.term then Ok(stay)
      else Ok(stay.(nextRole := Follower, outgoing := [Directed(ctx.myself, message)]))

    case HeartbeatTimeout(_) =>
      Ok(stay.(outgoing := Heartbeats(ctx)))

    case AppendRequest(from, leaderTerm, prevLogIndex, _, _, _) =>
      if leaderTerm < ctx.term then
        Ok(stay.(outgoing := [Directed(from, AppendResponse(ctx.myself, ctx.term, false, prevLogIndex))]))
      else if leaderTerm == ctx.term then
        Err(TwoLeadersInSameTerm)
      else
        // A leader in a later term exists: step down (section 5.1).
        Ok(stay.(nextRole := Follower, outgoing := [Directed(ctx.myself, message)]))

    case AppendResponse(from, term, success, matchIndex) =>
      if term < ctx.term then Ok(stay)
      else if term > ctx.term then Ok(stay.(term := term, nextRole := Follower, followerStates := map[]))
      else if success then
        var updated := OnSuccessResponse(ctx.followerStates, from, matchIndex);
        var matched := stay.(followerStates := updated, shipCommands := [Match(matchIndex, from)]);
        match CommitOnMatch(ctx, from, matchIndex)
        case None => Ok(matched)
        case Some(quorum) =>
          Ok(matched.(leaderCommit := quorum, logCommands := [CommitCommand(quorum)],
                      shipCommands := [Match(matchIndex, from), CommitUpdate]))
      else
        Ok(stay.(shipCommands := [Mismatch(ctx.log.AppendIndex(), from)]))

    case VoteRequest(from, term, _, _, _) =>
      if term > ctx.term then
        Ok(stay.(term := term, nextRole := Follower, outgoing := [Directed(ctx.myself, message)]))
      else
        Ok(stay.(outgoing := [Directed(from, VoteResponse(ctx.myself, ctx.term, false))]))

    case NewEntryRequest(_, content) =>
      var prevLogIndex := ctx.log.AppendIndex();
      var entry := LogEntry(ctx.term, content);
      Ok(stay.(shipCommands := [NewEntry(prevLogIndex, PrevLogTerm(ctx), entry)],
               logCommands := [AppendLogEntry(prevLogIndex + 1, entry)]))

    case ElectionTimeout(_) => Ok(stay)
    case VoteResponse(_, _, _) => Ok(stay)
  }

  /**
   * A heartbeat from an older term leaves the leader as it was, with nothing
   * sent; one from its own or a later term makes it a follower in the same
   * term, and the heartbeat is handed back to itself to handle as a follower.
   */
  lemma HeartbeatStepsDown<M>(ctx: RaftState<M>, from: M, leaderTerm: int, commitIndex: int, commitIndexTerm: int)
    ensures var message := Heartbeat(from, leaderTerm, commitIndex, commitIndexTerm);
            var r := Handle(message, ctx);
            r.Ok?
            && (leaderTerm < ctx.term ==> r.value == Unchanged(ctx))
            && (leaderTerm >= ctx.term ==>
                  r.value.nextRole == Follower && r.value.term == ctx.term
                  && r.value.outgoing == [Directed(ctx.myself, message)]
                  && r.value.logCommands == [] && r.value.shipCommands == []
                  && r.value.leaderCommit == ctx.log.commitIndex && r.value.followerStates == ctx.followerStates)
  {
  }

  /** A heartbeat timeout sends the heartbeats and changes nothing else. */
  lemma HeartbeatTimeoutBroadcasts<M>(ctx: RaftState<M>, from: M)
    ensures var r := Handle(HeartbeatTimeout(from), ctx);
            r.Ok? && r.value == Unchanged(ctx).(outgoing := Heartbeats(ctx))
  {
  }

  /**
   * An append request from an older term is refused with the leader's term and
   * the request's prevLogIndex; one from the leader's own term is the "two
   * leaders in the same term" error; one from a later term makes the leader a
   * follower without adopting that term, and the request is handed back to it.
   */
  lemma AppendRequestCases<M>(ctx: RaftState<M>, from: M, leaderTerm: int, prevLogIndex: int,
                                  prevLogTerm: int, entries: seq<LogEntry>, leaderCommit: int)
    ensures var message := AppendRequest(from, leaderTerm, prevLogIndex, prevLogTerm, entries, leaderCommit);
            var r := Handle(message, ctx);
            (leaderTerm < ctx.term ==>
               r.Ok? && r.value.nextRole == Leader && r.value.term == ctx.term
               && r.value.outgoing == [Directed(from, AppendResponse(ctx.myself, ctx.term, false, prevLogIndex))]
               && r.value.logCommands == [] && r.value.shipCommands == [])
            && (leaderTerm == ctx.term ==> r == Err(TwoLeadersInSameTerm))
            && (leaderTerm > ctx.term ==>
                  r.Ok? && r.value.nextRole == Follower && r.value.term == ctx.term
                  && r.value.outgoing == [Directed(ctx.myself, message)]
                  && r.value.logCommands == [] && r.value.shipCommands == [])
  {
  }

  /**
   * A response from an older term is ignored; one from a later term makes the
   * leader adopt that term, become a follower and drop its follower table.
   */
  lemma AppendResponseFromOtherTerm<M>(ctx: RaftState<M>, from: M, term: int, success: bool, matchIndex: int)
    requires term != ctx.term
    ensures var r := Handle(AppendResponse(from, term, success, matchIndex), ctx);
            (term < ctx.term ==> r == Ok(Unchanged(ctx)))
            && (term > ctx.term ==>
                  r.Ok? && r.value.term == term && r.value.nextRole == Follower && r.value.followerStates == map[]
                  && r.value.outgoing == [] && r.value.logCommands == [] && r.value.shipCommands == [])
  {
  }

  /**
   * A successful response in the leader's term raises the follower's match
   * index to the larger of the old and the reported one, leaves every other
   * follower alone, and asks the shipping manager to continue from the match;
   * a failed one only reports a mismatch at the leader's append index.
   */
  lemma AppendResponseInTerm<M>(ctx: RaftState<M>, from: M, success: bool, matchIndex: int)
    requires Admissible(AppendResponse(from, ctx.term, success, matchIndex), ctx)
    ensures var r := Handle(AppendResponse(from, ctx.term, success, matchIndex), ctx);
            r.Ok? && r.value.nextRole == Leader && r.value.term == ctx.term && r.value.outgoing == []
            && (success ==>
                  MatchIndexOf(r.value.followerStates, from)
                    == (if matchIndex > MatchIndexOf(ctx.followerStates, from) then matchIndex
                        else MatchIndexOf(ctx.followerStates, from))
                  && r.value.followerStates.Keys == ctx.followerStates.Keys + {from}
                  && (forall m :: m in ctx.followerStates && m != from ==> r.value.followerStates[m] == ctx.followerStates[m])
                  && r.value.shipCommands[0] == Match(matchIndex, from))
            && (!success ==>
                  r.value == Unchanged(ctx).(shipCommands := [Mismatch(ctx.log.AppendIndex(), from)]))
  {
  }

  /**
   * The commit index moves exactly when a successful response in the leader's
   * term shows the follower progressed and the new quorum index lies beyond
   * the commit index and holds an entry of the leader's own term; it then
   * becomes that quorum index, with one commit command and a commit update.
   */
  lemma CommitAdvancesOnlyUnderRule<M>(message: Message<M>, ctx: RaftState<M>)
    requires Admissible(message, ctx)
    requires Handle(message, ctx).Ok?
    ensures var o := Handle(message, ctx).value;
            o.leaderCommit != ctx.log.commitIndex
            <==> message.AppendResponse? && message.term == ctx.term && message.success
                 && CommitOnMatch(ctx, message.from, message.matchIndex).Some?
    ensures var o := Handle(message, ctx).value;
            o.leaderCommit != ctx.log.commitIndex ==>
              o.leaderCommit > ctx.log.commitIndex
              && ctx.log.ReadEntryTerm(o.leaderCommit) == ctx.term
              && o.leaderCommit == QuorumAppendIndex(ctx.votingMembers, o.followerStates)
              && o.logCommands == [CommitCommand(o.leaderCommit)]
              && CommitUpdate in o.shipCommands
  {
  }

  /**
   * Match indices never go down while the leader keeps its role; the table is
   * dropped only when a response from a later term makes it a follower.
   */
  lemma MatchIndicesOnlyGrow<M>(message: Message<M>, ctx: RaftState<M>)
    requires Admissible(message, ctx)
    requires Handle(message, ctx).Ok?
    ensures var o := Handle(message, ctx).value;
            o.nextRole == Leader ==>
              forall m :: m in ctx.followerStates ==>
                m in o.followerStates && o.followerStates[m].matchIndex >= ctx.followerStates[m].matchIndex
    ensures var o := Handle(message, ctx).value;
            o.followerStates != ctx.followerStates && o.nextRole == Follower ==>
              o.followerStates == map[] && o.term > ctx.term
  {
  }

  /**
   * A vote request from a later term makes the leader adopt that term, become
   * a follower and hand the request back to itself; any other vote request is
   * refused to the candidate with the leader's term.
   */
  lemma VoteRequestCases<M>(ctx: RaftState<M>, from: M, term: int, candidate: M, lastLogIndex: int, lastLogTerm: int)
    ensures var message := VoteRequest(from, term, candidate, lastLogIndex, lastLogTerm);
            var r := Handle(message, ctx);
            r.Ok?
            && (term > ctx.term ==>
                  r.value.term == term && r.value.nextRole == Follower
                  && r.value.outgoing == [Directed(ctx.myself, message)])
            && (term <= ctx.term ==>
                  r.value.term == ctx.term && r.value.nextRole == Leader
                  && r.value.outgoing == [Directed(from, VoteResponse(ctx.myself, ctx.term, false))])
            && r.value.logCommands == [] && r.value.shipCommands == []
  {
  }

  /**
   * A new entry goes at the index after the last one, in the leader's term,
   * and the shipping manager is told which index and term precede it.
   */
  lemma NewEntryAppends<M>(ctx: RaftState<M>, from: M, content: Content)
    ensures var r := Handle(NewEntryRequest(from, content), ctx);
            r.Ok? && r.value.nextRole == Leader && r.value.outgoing == []
            && r.value.logCommands == [AppendLogEntry(|ctx.log.terms|, LogEntry(ctx.term, content))]
            && r.value.shipCommands == [NewEntry(|ctx.log.terms| - 1, PrevLogTerm(ctx), LogEntry(ctx.term, content))]
  {
  }

  /**
   * A leader never truncates its log: the only log commands it issues are one
   * append of an entry in its own term right after its last entry, or one
   * commit beyond the current commit index.
   */
  lemma LeaderOnlyAppends<M>(message: Message<M>, ctx: RaftState<M>)
    requires Admissible(message, ctx)
    requires Handle(message, ctx).Ok?
    ensures var cmds := Handle(message, ctx).value.logCommands;
            |cmds| <= 1
            && forall c :: c in cmds ==>
                 (c.AppendLogEntry? && c.index == ctx.log.AppendIndex() + 1 && c.entry.term == ctx.term)
                 || (c.CommitCommand? && c.commitIndex > ctx.log.commitIndex)
  {
  }

  /**
   * Election safety as the leader sees it: a heartbeat, an append request, an
   * append response or a vote request from a later term makes it step down.
   * A vote response is not among them; see VoteResponseIgnored.
   */
  lemma StepsDownOnLaterTerm<M>(message: Message<M>, ctx: RaftState<M>)
    requires Admissible(message, ctx)
    requires (message.Heartbeat? && message.leaderTerm > ctx.term)
             || (message.AppendRequest? && message.leaderTerm > ctx.term)
             || (message.AppendResponse? && message.term > ctx.term)
             || (message.VoteRequest? && message.term > ctx.term)
    ensures Handle(message, ctx).Ok? && Handle(message, ctx).value.nextRole == Follower
  {
  }

  /**
   * Leader.java has no case for a vote response, so the leader ignores one
   * whatever its term: even a later term neither changes the leader's term
   * nor makes it step down, unlike the rule of section 5.1 of the Raft paper
   * that any later-term response does.
   */
  lemma VoteResponseIgnored<M>(ctx: RaftState<M>, from: M, term: int, voteGranted: bool)
    ensures Handle(VoteResponse(from, term, voteGranted), ctx) == Ok(Unchanged(ctx))
    ensures term > ctx.term ==>
              Handle(VoteResponse(from, term, voteGranted), ctx).value.nextRole == Leader
              && Handle(VoteResponse(from, term, voteGranted), ctx).value.term == ctx.term
  {
  }
}
