/** Network connectivity and the futures that wait for it. */
module Network {
  import opened Options

  datatype Status = Online | Offline

  /** The calls a client makes. */
  datatype Call = ReachabilityChanged(reachable: bool) | WaitUntilOnline

  /** The model as a value: conditions are numbered in the order of their creation, and a wait future holds the number
      of the condition it waits for, if any. */
  datatype State = State(
    status: Status,
    pending: Option<nat>,
    conditions: seq<bool>,
    waits: seq<Option<nat>>,
    events: seq<Status>)

  const START := State(Online, None, [], [], [])

  function Step(s: State, call: Call): State {
    match call
    case WaitUntilOnline => s.(waits := s.waits + [s.pending])
    case ReachabilityChanged(reachable) =>
      var status := if reachable then Online else Offline;
      if status == s.status then s
      else if reachable then
        s.(status := Online, events := s.events + [Online], pending := None,
           conditions :=
             if s.pending.Some? && s.pending.value < |s.conditions| then s.conditions[s.pending.value := true]
             else s.conditions)
      else
        s.(status := Offline, events := s.events + [Offline], pending := Some(|s.conditions|),
           conditions := s.conditions + [false])
  }

  /** The first `m` calls. */
  function RunOf(calls: seq<Call>, m: nat): State
    requires m <= |calls|
  {
    if m == 0 then START else Step(RunOf(calls, m - 1), calls[m - 1])
  }

  // ----- the mutable objects

  /** A set-once condition variable; its clones are the same object. */
  class Condition {
    var flag: bool

    constructor ()
      ensures !flag
    {
      flag := false;
    }

    method Set()
      modifies this
      ensures flag
    {
      flag := true;
    }
  }

  class NetworkStatus {
    var status: Status
    var pendingReconnect: Condition?
    /** All conditions ever created, in order. */
    ghost var created: seq<Condition>
    /** The status events emitted so far. */
    ghost var events: seq<Status>
    /** The futures handed out so far, each by the condition it waits for, if any. */
    ghost var waits: seq<Option<nat>>

    ghost predicate Valid()
      reads this
    {
      && (forall i, j :: 0 <= i < j < |created| ==> created[i] != created[j])
      && (pendingReconnect != null ==> created != [] && created[|created| - 1] == pendingReconnect)
    }

    ghost function AsState(): State
      reads this, created
    {
      State(status, if pendingReconnect == null then None else Some(if created == [] then 0 else |created| - 1),
            seq(|created|, i requires 0 <= i < |created| reads this, created => created[i].flag), waits, events)
    }

    constructor ()
      ensures Valid() && AsState() == START
    {
      status, pendingReconnect, created, events, waits := Online, null, [], [], [];
    }

    method ReachabilityChange(reachable: bool)
      requires Valid()
      modifies this, pendingReconnect
      ensures Valid()
      ensures AsState() == Step(old(AsState()), ReachabilityChanged(reachable))
      ensures status == (if reachable then Online else Offline)
      ensures events == if status == old(status) then old(events) else old(events) + [status]
      ensures status == old(status) ==> pendingReconnect == old(pendingReconnect)
      // Coming online wakes up whoever waits; going offline makes a new condition to wait for.
      ensures old(status) == Offline && reachable ==>
                pendingReconnect == null && (old(pendingReconnect) != null ==> old(pendingReconnect).flag)
      ensures old(status) == Online && !reachable ==>
                pendingReconnect != null && fresh(pendingReconnect) && !pendingReconnect.flag
    {
      var oldStatus := status;
      var newStatus := if reachable then Online else Offline;
      ghost var flags := AsState().conditions;
      if oldStatus != newStatus {
        status := newStatus;
        match newStatus {
          case Online =>
            var condition := pendingReconnect;
            pendingReconnect := null;
            if condition != null {
              condition.Set();
              assert AsState().conditions == flags[|created| - 1 := true];
            }
          case Offline =>
            pendingReconnect := new Condition();
            created := created + [pendingReconnect];
            assert AsState().conditions == flags + [false];
        }
        events := events + [newStatus];
      }
    }

    /** The future is the condition it shares, the one that is recorded for it, or nothing to wait for. */
    method WaitForOnline() returns (future: Condition?)
      requires Valid()
      modifies this`waits
      ensures Valid() && AsState() == Step(old(AsState()), WaitUntilOnline)
      ensures Coherent(AsState()) ==> (future == null <==> status == Online)
      ensures var wait := waits[|waits| - 1];
              if wait.Some? then wait.value < |created| && future == created[wait.value] else future == null
    {
      future := pendingReconnect;
      waits := waits + [if future == null then None else Some(|created| - 1)];
    }
  }

  // ----- whole runs

  /** There is a pending condition iff the client is offline; it is the latest one and not set, and all others are. */
  predicate Coherent(s: State) {
    && (s.pending.Some? <==> s.status == Offline)
    && (s.pending.Some? ==> s.conditions != [] && s.pending.value == |s.conditions| - 1)
    && (forall c :: 0 <= c < |s.conditions| ==> (s.conditions[c] <==> s.pending != Some(c)))
    && (forall w :: 0 <= w < |s.waits| && s.waits[w].Some? ==> s.waits[w].value < |s.conditions|)
  }

  lemma {:induction false} RunsAreCoherent(calls: seq<Call>, m: nat)
    requires m <= |calls|
    ensures Coherent(RunOf(calls, m))
  {
    if m > 0 {
      RunsAreCoherent(calls, m - 1);
    }
  }

  /** The emitted events strictly alternate, beginning with Offline, and the last one is the current status. */
  predicate Alternating(s: State) {
    && (forall i :: 0 <= i < |s.events| ==> s.events[i] == if i % 2 == 0 then Offline else Online)
    && s.status == if s.events == [] then Online else s.events[|s.events| - 1]
  }

  lemma {:induction false} EventsAlternate(calls: seq<Call>, m: nat)
    requires m <= |calls|
    ensures Alternating(RunOf(calls, m))
  {
    if m > 0 {
      EventsAlternate(calls, m - 1);
    }
  }

  /** The future of wait number `w` is ready. */
  predicate Released(s: State, w: nat)
    requires Coherent(s) && w < |s.waits|
  {
    s.waits[w].None? || s.conditions[s.waits[w].value]
  }

  /** The status after `m` calls by the calls alone: what was last reported, or Online before any report. */
  function LastReport(calls: seq<Call>, m: nat): Status
    requires m <= |calls|
  {
    if m == 0 then Online
    else if calls[m - 1].ReachabilityChanged? then (if calls[m - 1].reachable then Online else Offline)
    else LastReport(calls, m - 1)
  }

  lemma {:induction false} StatusIsTheLastReport(calls: seq<Call>, m: nat)
    requires m <= |calls|
    ensures RunOf(calls, m).status == LastReport(calls, m)
  {
    if m > 0 {
      StatusIsTheLastReport(calls, m - 1);
    }
  }

  /** The client was online after `m` calls, according to what was reported. */
  predicate OnlineAfter(calls: seq<Call>, m: nat) {
    m <= |calls| && LastReport(calls, m) == Online
  }

  lemma NextReleased(s: State, call: Call, next: State, w: nat)
    requires Coherent(s) && next == Step(s, call)
    ensures Coherent(next) && |s.waits| <= |next.waits| && (call.WaitUntilOnline? ==> |next.waits| == |s.waits| + 1)
    ensures w < |s.waits| ==>
              next.waits[w] == s.waits[w] && (Released(next, w) <==> Released(s, w) || next.status == Online)
    ensures w == |s.waits| < |next.waits| ==>
              next.waits[w] == s.pending && (Released(next, w) <==> next.status == Online)
  {
  }

  predicate OnlineSince(calls: seq<Call>, k: nat, m: nat)
    requires m <= |calls|
  {
    exists j :: k <= j <= m && OnlineAfter(calls, j)
  }

  lemma NextOnlineSince(calls: seq<Call>, k: nat, m: nat)
    requires k <= m < |calls|
    ensures OnlineSince(calls, k, m + 1) <==> OnlineSince(calls, k, m) || OnlineAfter(calls, m + 1)
  {
  }

  /** No wake-up is lost and none is spurious: a future made by call `k` is ready after `m` calls iff the client was
      online when it was made or at some point since, however many disconnections lie in between. */
  lemma {:induction false} ReleasedIffOnlineSince(calls: seq<Call>, k: nat, m: nat)
    requires k < m <= |calls| && calls[k].WaitUntilOnline?
    ensures Coherent(RunOf(calls, m)) && |RunOf(calls, k).waits| < |RunOf(calls, m).waits|
    ensures Released(RunOf(calls, m), |RunOf(calls, k).waits|) <==> OnlineSince(calls, k, m)
    ensures RunOf(calls, m).waits[|RunOf(calls, k).waits|] == RunOf(calls, k).pending
  {
    RunsAreCoherent(calls, m - 1);
    var s, next, w := RunOf(calls, m - 1), RunOf(calls, m), |RunOf(calls, k).waits|;
    NextReleased(s, calls[m - 1], next, w);
    StatusIsTheLastReport(calls, m);
    StatusIsTheLastReport(calls, k);
    NextOnlineSince(calls, k, m - 1);
    assert OnlineAfter(calls, m) <==> next.status == Online;
    if m > k + 1 {
      ReleasedIffOnlineSince(calls, k, m - 1);
      assert Released(next, w) <==> Released(s, w) || next.status == Online;
    } else {
      assert OnlineAfter(calls, k) <==> OnlineAfter(calls, m);
      assert OnlineSince(calls, k, k) <==> OnlineAfter(calls, k);
    }
  }
}
