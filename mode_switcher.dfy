/**
 * The event dispatch of the HA mode switcher: how a member-state change
 * event turns into availability announcements, updates of the available
 * master URI and the target state, and the switch task that gets scheduled;
 * plus the self-as-master guard of the switch to slave, the capped
 * exponential retry delay, and the single-use cancellation handle.
 */
module ModeSwitching {
  import opened Wrappers

  /** The states an HA member moves through. */
  datatype MemberState = Pending | ToMaster | Master | ToSlave | Slave

  /** The two roles a member announces itself available or unavailable in. */
  datatype HaRole = MasterRole | SlaveRole

  /** An HA URI, reduced to what the switcher reads of it: an address and the serverId query parameter, if present. */
  datatype Uri = Uri(address: int, serverId: Option<int>)

  /** A state change event: the old and the new state, and the URI of the server it concerns (None for null). */
  datatype MemberChangeEvent = MemberChangeEvent(oldState: MemberState, newState: MemberState, serverHaUri: Option<Uri>)

  /** The calls the switcher makes on the cluster member availability service. */
  datatype Announcement =
    | MemberIsAvailable(role: HaRole, uri: Option<Uri>)
    | MemberIsUnavailable(role: HaRole)

  /** The switch work a transition hands to the mode switcher's executor. */
  datatype SwitchTask =
    | SwitchToMasterTask
    | SwitchToSlaveTask(master: Uri)
    | SwitchToPendingTask

  /**
   * Why switchToSlave stops before it schedules anything: the available
   * master is ourselves (the error it logs), or there is no master URI to
   * read a server id from (the exception getServerId throws on null).
   */
  datatype SlaveGuardError = SelfAsMaster | NoMasterUri

  /** The server id of an HA URI: its serverId parameter, -1 when it has none. */
  function ServerId(uri: Uri): int
  {
    if uri.serverId.Some? then uri.serverId.value else -1
  }

  /**
   * The defensive guard at the start of switchToSlave: never become a slave
   * of ourselves. Only when it lets the switch through is a task scheduled,
   * toward the available master.
   */
  function SlaveSwitch(availableMaster: Option<Uri>, instanceId: int): (r: Result<Uri, SlaveGuardError>)
    ensures r == Err(SelfAsMaster) <==> availableMaster.Some? && ServerId(availableMaster.value) == instanceId
    ensures r.Ok? <==> availableMaster.Some? && ServerId(availableMaster.value) != instanceId
    ensures r.Ok? ==> r.value == availableMaster.value
    ensures r == Err(NoMasterUri) <==> availableMaster.None?
  {
    match availableMaster
    case None => Err(NoMasterUri)
    case Some(uri) => if ServerId(uri) == instanceId then Err(SelfAsMaster) else Ok(uri)
  }

  /** The switcher's fields the dispatch reads and writes. */
  datatype SwitcherState = SwitcherState(
    availableMasterId: Option<Uri>,
    currentTargetState: Option<MemberState>,
    masterHaUri: Option<Uri>,
    slaveHaUri: Option<Uri>)

  /**
   * What handling one event does: announcements made, the new fields, the
   * switch task scheduled if any, and the guard error if switchToSlave
   * stopped before scheduling.
   */
  datatype Reaction = Reaction(
    announcements: seq<Announcement>,
    next: SwitcherState,
    task: Option<SwitchTask>,
    guardError: Option<SlaveGuardError>)

  /** The unavailability a real transition announces: the role being left for TO_MASTER and PENDING. */
  function LeavingAnnouncements(e: MemberChangeEvent): seq<Announcement>
  {
    match e.newState
    case ToMaster => if e.oldState == Slave then [MemberIsUnavailable(SlaveRole)] else []
    case Pending =>
      if e.oldState == Slave then [MemberIsUnavailable(SlaveRole)]
      else if e.oldState == Master then [MemberIsUnavailable(MasterRole)]
      else []
    case _ => []
  }

  /** stateChanged: the shared handling of an event. */
  function StateChanged(e: MemberChangeEvent, s: SwitcherState, instanceId: int): Reaction
  {
    if e.newState == e.oldState then
      var available := if e.serverHaUri.Some? then e.serverHaUri else s.availableMasterId;
      Reaction([], s.(availableMasterId := available), None, None)
    else
      var next := s.(availableMasterId := e.serverHaUri, currentTargetState := Some(e.newState));
      var announcements := LeavingAnnouncements(e);
      match e.newState
      case ToMaster => Reaction(announcements, next, Some(SwitchToMasterTask), None)
      case Pending => Reaction(announcements, next, Some(SwitchToPendingTask), None)
      case ToSlave =>
        (match SlaveSwitch(e.serverHaUri, instanceId)
         case Ok(master) => Reaction(announcements, next, Some(SwitchToSlaveTask(master)), None)
         case Err(error) => Reaction(announcements, next, None, Some(error)))
      case _ => Reaction(announcements, next, None, None)
  }

  /** masterIsElected: a MASTER to MASTER event re-announces the master role; anything else is a state change. */
  function MasterIsElected(e: MemberChangeEvent, s: SwitcherState, instanceId: int): Reaction
  {
    if e.newState == e.oldState && e.oldState == Master then
      Reaction([MemberIsAvailable(MasterRole, s.masterHaUri)], s, None, None)
    else StateChanged(e, s, instanceId)
  }

  /** masterIsAvailable: a SLAVE to SLAVE event re-announces the slave role; anything else is a state change. */
  function MasterIsAvailable(e: MemberChangeEvent, s: SwitcherState, instanceId: int): Reaction
  {
    if e.newState == e.oldState && e.oldState == Slave then
      Reaction([MemberIsAvailable(SlaveRole, s.slaveHaUri)], s, None, None)
    else StateChanged(e, s, instanceId)
  }

  /** The role a state stands for, when it is a settled role. */
  function RoleOf(state: MemberState): Option<HaRole>
  {
    match state
    case Master => Some(MasterRole)
    case Slave => Some(SlaveRole)
    case _ => None
  }

  /**
   * An event that does not change state announces nothing, schedules
   * nothing and leaves the target state alone; it only records a non-null
   * master URI.
   */
  lemma SameStateOnlyRecordsUri(e: MemberChangeEvent, s: SwitcherState, instanceId: int)
    requires e.newState == e.oldState
    ensures var r := StateChanged(e, s, instanceId);
            && r.announcements == [] && r.task.None? && r.guardError.None?
            && r.next.currentTargetState == s.currentTargetState
            && r.next.masterHaUri == s.masterHaUri && r.next.slaveHaUri == s.slaveHaUri
            && (e.serverHaUri.Some? ==> r.next.availableMasterId == e.serverHaUri)
            && (e.serverHaUri.None? ==> r.next.availableMasterId == s.availableMasterId)
  {
  }

  /** A real transition records the event's URI, null included, and targets the new state. */
  lemma TransitionRecordsTarget(e: MemberChangeEvent, s: SwitcherState, instanceId: int)
    requires e.newState != e.oldState
    ensures var r := StateChanged(e, s, instanceId);
            && r.next.availableMasterId == e.serverHaUri
            && r.next.currentTargetState == Some(e.newState)
            && r.next.masterHaUri == s.masterHaUri && r.next.slaveHaUri == s.slaveHaUri
  {
  }

  /**
   * The announcement table of a real transition: the only announcements are
   * unavailabilities, made exactly when moving to TO_MASTER from SLAVE or to
   * PENDING from a settled role, and always for the role being left.
   */
  lemma TransitionAnnouncements(e: MemberChangeEvent, s: SwitcherState, instanceId: int)
    requires e.newState != e.oldState
    ensures var r := StateChanged(e, s, instanceId);
            && |r.announcements| <= 1
            && (forall a :: a in r.announcements ==> a.MemberIsUnavailable? && RoleOf(e.oldState) == Some(a.role))
            && (r.announcements != [] <==>
                  (e.newState == ToMaster && e.oldState == Slave)
                  || (e.newState == Pending && RoleOf(e.oldState).Some?))
  {
  }

  /**
   * Which switch a real transition schedules: to master for TO_MASTER, to
   * pending for PENDING, to slave for TO_SLAVE when the guard lets it
   * through, and none for a settled state or a switch to slave the guard
   * stops, which reports the guard's error instead.
   */
  lemma TransitionTask(e: MemberChangeEvent, s: SwitcherState, instanceId: int)
    requires e.newState != e.oldState
    ensures var r := StateChanged(e, s, instanceId);
            && (r.task == Some(SwitchToMasterTask) <==> e.newState == ToMaster)
            && (r.task == Some(SwitchToPendingTask) <==> e.newState == Pending)
            && (r.task.None? <==>
                  || e.newState == Master || e.newState == Slave
                  || (e.newState == ToSlave && SlaveSwitch(e.serverHaUri, instanceId).Err?))
            && (e.newState == ToSlave && SlaveSwitch(e.serverHaUri, instanceId).Ok? ==>
                  r.task == Some(SwitchToSlaveTask(SlaveSwitch(e.serverHaUri, instanceId).value)))
            && (r.guardError.Some? <==> e.newState == ToSlave && SlaveSwitch(e.serverHaUri, instanceId).Err?)
            && (r.guardError.Some? ==> Err(r.guardError.value) == SlaveSwitch(e.serverHaUri, instanceId))
  {
  }

  /**
   * No switch to slave is ever scheduled toward ourselves; the guard reports
   * that error, scheduling nothing, exactly when the new master is this very
   * instance.
   */
  lemma NeverSlaveOfSelf(e: MemberChangeEvent, s: SwitcherState, instanceId: int)
    ensures var r := StateChanged(e, s, instanceId);
            r.task.Some? && r.task.value.SwitchToSlaveTask? ==>
              e.newState == ToSlave && ServerId(r.task.value.master) != instanceId
    ensures var r := StateChanged(e, s, instanceId);
            r.guardError == Some(SelfAsMaster) ==> r.task.None?
    ensures var r := StateChanged(e, s, instanceId);
            r.guardError == Some(SelfAsMaster) <==>
              e.newState != e.oldState && e.newState == ToSlave
              && e.serverHaUri.Some? && ServerId(e.serverHaUri.value) == instanceId
  {
  }

  /** A MASTER to MASTER election re-announces the master role at the master URI and changes nothing else. */
  lemma MasterReelectedReannounces(e: MemberChangeEvent, s: SwitcherState, instanceId: int)
    requires e.oldState == Master && e.newState == Master
    ensures MasterIsElected(e, s, instanceId) == Reaction([MemberIsAvailable(MasterRole, s.masterHaUri)], s, None, None)
  {
  }

  /** A SLAVE to SLAVE master availability re-announces the slave role at the slave URI and changes nothing else. */
  lemma SlaveStillSlaveReannounces(e: MemberChangeEvent, s: SwitcherState, instanceId: int)
    requires e.oldState == Slave && e.newState == Slave
    ensures MasterIsAvailable(e, s, instanceId) == Reaction([MemberIsAvailable(SlaveRole, s.slaveHaUri)], s, None, None)
  {
  }

  /** Every other event reaching masterIsElected or masterIsAvailable is handled as a state change. */
  lemma OtherEventsAreStateChanges(e: MemberChangeEvent, s: SwitcherState, instanceId: int)
    ensures !(e.oldState == Master && e.newState == Master) ==>
              MasterIsElected(e, s, instanceId) == StateChanged(e, s, instanceId)
    ensures !(e.oldState == Slave && e.newState == Slave) ==>
              MasterIsAvailable(e, s, instanceId) == StateChanged(e, s, instanceId)
  {
  }

  /**
   * The switcher's mutable part: its fields, and the logs of announcements
   * made, of the switches handed to the executor, and of the switches to
   * slave the guard stopped before anything was scheduled.
   */
  class ModeSwitcher {
    const instanceId: int
    var state: SwitcherState
    var announced: seq<Announcement>
    var scheduled: seq<SwitchTask>
    var guardErrors: seq<SlaveGuardError>

    constructor (instanceId: int)
      ensures this.instanceId == instanceId
      ensures state == SwitcherState(None, None, None, None) && announced == [] && scheduled == [] && guardErrors == []
    {
      this.instanceId := instanceId;
      state := SwitcherState(None, None, None, None);
      announced, scheduled, guardErrors := [], [], [];
    }

    /** Applies a reaction: its announcements, task and guard error are appended to the logs, its fields replace ours. */
    method Apply(r: Reaction)
      modifies this
      ensures state == r.next
      ensures announced == old(announced) + r.announcements
      ensures scheduled == old(scheduled) + (if r.task.Some? then [r.task.value] else [])
      ensures guardErrors == old(guardErrors) + (if r.guardError.Some? then [r.guardError.value] else [])
    {
      state := r.next;
      announced := announced + r.announcements;
      if r.task.Some? {
        scheduled := scheduled + [r.task.value];
      }
      if r.guardError.Some? {
        guardErrors := guardErrors + [r.guardError.value];
      }
    }

    method OnMasterIsElected(e: MemberChangeEvent)
      modifies this
      ensures var r := MasterIsElected(e, old(state), instanceId);
              state == r.next && announced == old(announced) + r.announcements
              && scheduled == old(scheduled) + (if r.task.Some? then [r.task.value] else [])
              && guardErrors == old(guardErrors) + (if r.guardError.Some? then [r.guardError.value] else [])
    {
      Apply(MasterIsElected(e, state, instanceId));
    }

    method OnMasterIsAvailable(e: MemberChangeEvent)
      modifies this
      ensures var r := MasterIsAvailable(e, old(state), instanceId);
              state == r.next && announced == old(announced) + r.announcements
              && scheduled == old(scheduled) + (if r.task.Some? then [r.task.value] else [])
              && guardErrors == old(guardErrors) + (if r.guardError.Some? then [r.guardError.value] else [])
    {
      Apply(MasterIsAvailable(e, state, instanceId));
    }

    /** Slave availability events never cause a mode switch. */
    method OnSlaveIsAvailable(e: MemberChangeEvent)
      ensures unchanged(this)
    {
    }

    method OnInstanceStops(e: MemberChangeEvent)
      modifies this
      ensures var r := StateChanged(e, old(state), instanceId);
              state == r.next && announced == old(announced) + r.announcements
              && scheduled == old(scheduled) + (if r.task.Some? then [r.task.value] else [])
              && guardErrors == old(guardErrors) + (if r.guardError.Some? then [r.guardError.value] else [])
    {
      Apply(StateChanged(e, state, instanceId));
    }
  }

  /** The longest retry delay, in seconds: five minutes. */
  const MaxWait := 5 * 60

  /** One step of the retry delay after a failed switch to slave: doubled plus one, capped at five minutes. */
  function NextWait(wait: int): (r: int)
    ensures wait >= 0 ==> 1 <= r
    ensures r <= MaxWait
    ensures 0 <= wait <= MaxWait ==> wait <= r
    ensures r == MaxWait || r == 1 + 2 * wait
    ensures r < MaxWait ==> r == 1 + 2 * wait
  {
    var doubled := 1 + wait * 2;
    if doubled < MaxWait then doubled else MaxWait
  }

  /** The delay after n failed attempts, starting from no delay. */
  function WaitAfter(n: nat): int
  {
    if n == 0 then 0 else NextWait(WaitAfter(n - 1))
  }

  function Pow2(n: nat): (r: nat)
    ensures r >= 1
  {
    if n == 0 then 1 else 2 * Pow2(n - 1)
  }

  /** The delays never decrease and, after the first failure, stay within one second and five minutes. */
  lemma {:induction false} WaitBounds(n: nat)
    ensures 0 <= WaitAfter(n) <= MaxWait
    ensures n >= 1 ==> 1 <= WaitAfter(n)
    ensures WaitAfter(n) <= WaitAfter(n + 1)
  {
    if n > 0 {
      WaitBounds(n - 1);
    }
  }

  /** The delays double plus one (1, 3, 7, ..., 255 seconds) until they reach the five-minute cap and stay there. */
  lemma {:induction false} WaitIsCappedDoubling(n: nat)
    ensures n <= 8 ==> WaitAfter(n) == Pow2(n) - 1
    ensures n >= 9 ==> WaitAfter(n) == MaxWait
  {
    if n > 0 {
      WaitIsCappedDoubling(n - 1);
      if n <= 8 {
        Pow2Bound(n - 1);
      }
    }
  }

  lemma {:induction false} Pow2Bound(n: nat)
    requires n <= 7
    ensures Pow2(n) <= 128
  {
    Pow2Monotone(n, 7);
    assert Pow2(7) == 128;
  }

  lemma {:induction false} Pow2Monotone(a: nat, b: nat)
    requires a <= b
    ensures Pow2(a) <= Pow2(b)
    decreases b
  {
    if a < b {
      Pow2Monotone(a, b - 1);
    }
  }

  /** The retry delay of one switch-to-slave task, kept across its attempts. */
  class RetryBackoff {
    var wait: int
    ghost var failures: nat

    ghost predicate Valid()
      reads this
    {
      wait == WaitAfter(failures)
    }

    constructor ()
      ensures Valid() && wait == 0 && failures == 0
    {
      wait := 0;
      failures := 0;
    }

    /** Records a failed attempt and returns the delay before the next one. */
    method Failed() returns (delay: int)
      requires Valid()
      modifies this
      ensures Valid() && failures == old(failures) + 1
      ensures delay == wait == NextWait(old(wait))
      ensures 1 <= delay <= MaxWait && old(wait) <= delay
    {
      WaitBounds(failures);
      wait := 1 + wait * 2;
      wait := if wait < MaxWait then wait else MaxWait;
      failures := failures + 1;
      delay := wait;
    }
  }

  /** A cancellation request that can be made once. */
  class CancellationHandle {
    var cancelled: bool

    constructor ()
      ensures !cancelled
    {
      cancelled := false;
    }

    function CancellationRequested(): bool
      reads this
    {
      cancelled
    }

    /** Cancelling twice breaks the handle's assertion, so a second cancel is not allowed. */
    method Cancel()
      requires !cancelled
      modifies this
      ensures cancelled
    {
      cancelled := true;
    }
  }
}
