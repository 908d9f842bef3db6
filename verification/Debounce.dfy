/** The debounce operator: an item is passed on once no other item has arrived for a whole period. */
module DebounceStream {
  import opened Options
  import opened TimedSource

  /** The fields of the operator, with the pending item named by its index in the script. */
  datatype State = State(pos: nat, timer: Option<nat>, last: Option<nat>, expired: bool)

  const START := State(0, None, None, false)

  predicate InScript<T>(script: Script<T>, i: Option<nat>) {
    i.Some? ==> i.value < |script.arrivals|
  }

  /** One poll. `Some(i)` in the answer is item `i`. */
  function Step<T>(script: Script<T>, period: nat, s: State, now: nat): (r: (State, Poll<Option<nat>>))
    requires s.pos <= |script.arrivals| && InScript(script, s.last)
    ensures r.0.pos <= |script.arrivals| && InScript(script, r.0.last)
    ensures r.1.Ready? ==> InScript(script, r.1.value)
  {
    if s.expired then (s, Ready(None))
    else
      var pos := script.ArrivedFrom(s.pos, now);
      var advanced := pos > s.pos;
      var last := if advanced then Some(pos - 1) else s.last;
      var timer := if advanced then Some(now + period) else s.timer;
      if pos == |script.arrivals| && script.ClosedBy(now) then (State(pos, None, None, true), Ready(last))
      else if timer.Some? && timer.value <= now then (State(pos, None, None, false), Ready(last))
      else (State(pos, timer, last, false), Pending)
  }

  function ItemAt<T>(script: Script<T>, i: Option<nat>): Option<T>
    requires InScript(script, i)
  {
    if i.Some? then Some(script.arrivals[i.value].item) else None
  }

  /** One poll, answered with items. */
  function StepAnswer<T>(script: Script<T>, period: nat, s: State, now: nat): (State, Poll<Option<T>>)
    requires s.pos <= |script.arrivals| && InScript(script, s.last)
  {
    var (next, answer) := Step(script, period, s, now);
    (next, if answer.Ready? then Ready(ItemAt(script, answer.value)) else Pending)
  }

  /** What a poll answers and changes, unless the end has been announced: everything that has arrived is read, and the
      latest item is pending from now on, with a new timer. It is the answer if the stream has ended, or if the timer is
      over; a poll that sees the end with nothing pending announces it. */
  ghost predicate PollEffect<T>(
    script: Script<T>, period: nat, now: nat, before: State, after: State, answer: Poll<Option<T>>)
  {
    if before.expired then
      answer == Ready(None) && after == before
    else
      && before.pos <= after.pos <= |script.arrivals|
      && (forall i :: before.pos <= i < after.pos ==> script.arrivals[i].at <= now)
      && (after.pos < |script.arrivals| ==> script.arrivals[after.pos].at > now)
      && var last := if after.pos > before.pos then Some(after.pos - 1) else before.last;
         var timer := if after.pos > before.pos then Some(now + period) else before.timer;
         var ended := after.pos == |script.arrivals| && script.ClosedBy(now);
         InScript(script, last) &&
         if ended || (timer.Some? && timer.value <= now) then
           && after == State(after.pos, None, None, ended)
           && answer == Ready(if last.Some? then Some(script.arrivals[last.value].item) else None)
         else
           answer == Pending && after == State(after.pos, timer, last, false)
  }

  lemma {:induction false} StepHasPollEffect<T>(script: Script<T>, period: nat, s: State, now: nat)
    requires s.pos <= |script.arrivals| && InScript(script, s.last)
    ensures var (next, answer) := StepAnswer(script, period, s, now);
            PollEffect(script, period, now, s, next, answer)
  {
  }

  class Debounce<T> {
    const period: nat
    const stream: Source<T>
    var timer: Option<nat>
    var lastItem: Option<T>
    var hasExpired: bool
    /** The index of `lastItem` in the script. */
    ghost var lastIndex: Option<nat>

    ghost predicate Valid()
      reads this, stream
    {
      stream.Valid() && InScript(stream.script, lastIndex) && lastItem == ItemAt(stream.script, lastIndex)
    }

    ghost function AsState(): State
      reads this, stream
    {
      State(stream.pos, timer, lastIndex, hasExpired)
    }

    constructor (period: nat, stream: Source<T>)
      requires stream.Valid() && stream.pos == 0
      ensures Valid() && this.period == period && this.stream == stream && AsState() == START
    {
      this.period, this.stream := period, stream;
      timer, lastItem, hasExpired := None, None, false;
      lastIndex := None;
    }

    /** The loop of `poll_next`: read out everything that has arrived. */
    method Drain(now: nat) returns (closed: bool)
      requires Valid()
      modifies this`timer, this`lastItem, this`lastIndex, stream
      ensures Valid() && stream.pos == stream.script.ArrivedFrom(old(stream.pos), now)
      ensures closed == (stream.pos == |stream.script.arrivals| && stream.script.ClosedBy(now))
      ensures if stream.pos > old(stream.pos) then lastIndex == Some(stream.pos - 1) && timer == Some(now + period)
              else lastIndex == old(lastIndex) && timer == old(timer)
    {
      ghost var pos := stream.script.ArrivedFrom(stream.pos, now);
      while true
        invariant Valid()
        invariant old(stream.pos) <= stream.pos <= pos && stream.script.ArrivedFrom(stream.pos, now) == pos
        invariant if stream.pos > old(stream.pos) then lastIndex == Some(stream.pos - 1) && timer == Some(now + period)
                  else lastIndex == old(lastIndex) && timer == old(timer)
        decreases pos - stream.pos
      {
        var polled := stream.PollNext(now);
        if polled.Pending? {
          return false;
        }
        match polled.value {
          case Some(item) =>
            lastItem, lastIndex := Some(item), Some(stream.pos - 1);
            timer := Some(now + period);
          case None =>
            return true;
        }
      }
    }

    method PollNext(now: nat) returns (r: Poll<Option<T>>)
      requires Valid()
      modifies this, stream
      ensures Valid()
      ensures (AsState(), r) == StepAnswer(stream.script, period, old(AsState()), now)
      ensures PollEffect(stream.script, period, now, old(AsState()), AsState(), r)
    {
      StepHasPollEffect(stream.script, period, AsState(), now);
      if hasExpired {
        return Ready(None);
      }
      var closed := Drain(now);
      if closed {
        timer := None;
        hasExpired := true;
        r := Ready(lastItem);
        lastItem, lastIndex := None, None;
      } else if timer.Some? {
        if now < timer.value {
          return Pending;
        }
        timer := None;
        r := Ready(lastItem);
        lastItem, lastIndex := None, None;
      } else {
        r := Pending;
      }
    }
  }

  // ----- runs

  /** The state after some polls, and the items passed on so far. */
  datatype Run = Run(state: State, emitted: seq<Emission>)

  function Passed(answer: Poll<Option<nat>>, now: nat): seq<Emission> {
    if answer.Ready? && answer.value.Some? then [Emission(now, answer.value.value)] else []
  }

  function Next<T>(script: Script<T>, period: nat, r: Run, now: nat): (r': Run)
    requires r.state.pos <= |script.arrivals| && InScript(script, r.state.last)
    ensures r'.state.pos <= |script.arrivals| && InScript(script, r'.state.last)
  {
    var (state, answer) := Step(script, period, r.state, now);
    Run(state, r.emitted + Passed(answer, now))
  }

  /** The first `m` polls of a schedule. */
  function RunOf<T>(script: Script<T>, period: nat, polls: seq<nat>, m: nat): (r: Run)
    requires m <= |polls|
    ensures r.state.pos <= |script.arrivals| && InScript(script, r.state.last)
  {
    if m == 0 then Run(START, []) else Next(script, period, RunOf(script, period, polls, m - 1), polls[m - 1])
  }

  /** The answer to poll `k`. */
  function AnswerTo<T>(script: Script<T>, period: nat, polls: seq<nat>, k: nat): (r: Poll<Option<nat>>)
    requires k < |polls|
    ensures r.Ready? ==> InScript(script, r.value)
  {
    Step(script, period, RunOf(script, period, polls, k).state, polls[k]).1
  }

  predicate Follows<T>(script: Script<T>, period: nat, runs: seq<Run>, polls: seq<nat>, k: nat) {
    && k + 1 < |runs| && k < |polls| && runs[k].state.pos <= |script.arrivals| && InScript(script, runs[k].state.last)
    && runs[k + 1] == Next(script, period, runs[k], polls[k])
  }

  /** The runs of the first polls, of any number of them. */
  function Trace<T>(script: Script<T>, period: nat, polls: seq<nat>): (runs: seq<Run>)
    ensures |runs| == |polls| + 1
  {
    seq(|polls| + 1, k requires 0 <= k <= |polls| => RunOf(script, period, polls, k))
  }

  lemma {:induction false} TraceFollows<T>(script: Script<T>, period: nat, polls: seq<nat>, k: nat)
    requires k < |polls|
    ensures Follows(script, period, Trace(script, period, polls), polls, k)
  {
    assert RunOf(script, period, polls, k + 1) == Next(script, period, RunOf(script, period, polls, k), polls[k]);
  }

  /** The items answered by the polls of a run up to `runs[m]`. */
  function ItemsOf<T>(script: Script<T>, period: nat, runs: seq<Run>, polls: seq<nat>, m: nat): seq<T>
    requires forall k: nat :: k < m ==> Follows(script, period, runs, polls, k)
  {
    if m == 0 then []
    else
      assert Follows(script, period, runs, polls, m - 1);
      ItemsOf(script, period, runs, polls, m - 1) +
      Answered(StepAnswer(script, period, runs[m - 1].state, polls[m - 1]).1)
  }

  lemma {:induction false} ItemsOfTrace<T>(script: Script<T>, period: nat, polls: seq<nat>, runs: seq<Run>, m: nat)
    requires m < |runs| && runs[0].emitted == []
    requires forall k: nat :: k < m ==> Follows(script, period, runs, polls, k)
    ensures ItemsMatch(script, ItemsOf(script, period, runs, polls, m), runs[m].emitted)
  {
    if m > 0 {
      ItemsOfTrace(script, period, polls, runs, m - 1);
      assert Follows(script, period, runs, polls, m - 1);
    }
  }

  /** The answers of a run are the items of its emissions, in order. */
  lemma {:induction false} AnswersAreTheItems<T>(
    script: Script<T>, period: nat, polls: seq<nat>, m: nat, runs: seq<Run>)
    requires m <= |polls| && runs == Trace(script, period, polls)
    ensures forall k: nat :: k < m ==> Follows(script, period, runs, polls, k)
    ensures ItemsMatch(script, ItemsOf(script, period, runs, polls, m), runs[m].emitted)
  {
    forall k: nat | k < m ensures Follows(script, period, runs, polls, k) {
      TraceFollows(script, period, polls, k);
    }
    ItemsOfTrace(script, period, polls, runs, m);
  }

  /** A timer runs iff an item is pending, and the pending item is the last one read. */
  predicate Consistent(s: State) {
    && (s.timer.Some? <==> s.last.Some?)
    && (s.last.Some? ==> s.last.value + 1 == s.pos && !s.expired)
  }

  /** Indices below `bound`, in increasing order. */
  predicate Increasing(emitted: seq<Emission>, bound: nat) {
    && (forall d, e :: 0 <= d < e < |emitted| ==> emitted[d].index < emitted[e].index)
    && (forall e :: 0 <= e < |emitted| ==> emitted[e].index < bound)
  }

  lemma AppendIncreasing(emitted: seq<Emission>, bound: nat, e: Emission)
    requires Increasing(emitted, bound) && bound <= e.index
    ensures Increasing(emitted + [e], e.index + 1)
  {
  }

  /** The number of items read and no longer pending. */
  function Settled(s: State): nat {
    if s.last.Some? then s.last.value else s.pos
  }

  /** Items are passed on in order, each at most once, none that was not read; when nothing is pending, the last item
      read has been passed on. */
  predicate InOrder(r: Run) {
    && Increasing(r.emitted, Settled(r.state))
    && (r.state.last.None? && r.state.pos > 0 ==>
          r.emitted != [] && r.emitted[|r.emitted| - 1].index == r.state.pos - 1)
  }

  lemma StepKeepsConsistent<T>(script: Script<T>, period: nat, s: State, now: nat)
    requires script.Valid() && s.pos <= script.Arrived(now) && Consistent(s)
    requires s.expired ==> script.ClosedBy(now) && s.pos == |script.arrivals|
    ensures var s' := Step(script, period, s, now).0;
            Consistent(s') && s'.pos == script.Arrived(now) && (s'.expired <==> script.ClosedBy(now))
  {
    script.FromArrived(s.pos, now);
  }

  lemma StepKeepsInOrder<T>(script: Script<T>, period: nat, r: Run, now: nat)
    requires r.state.pos <= |script.arrivals| && Consistent(r.state) && InOrder(r)
    requires InScript(script, r.state.last)
    ensures InOrder(Next(script, period, r, now))
  {
    var answer := Step(script, period, r.state, now).1;
    if answer.Ready? && answer.value.Some? {
      AppendIncreasing(r.emitted, Settled(r.state), Emission(now, answer.value.value));
    }
  }

  /** Poll `j` is the one that read item `i`. */
  predicate ReadAt<T>(script: Script<T>, polls: seq<nat>, j: nat, i: nat) {
    j < |polls| && i < |script.arrivals| && script.arrivals[i].at <= polls[j] &&
    forall h :: 0 <= h < j ==> script.arrivals[i].at > polls[h]
  }

  /** The pending item was read by an earlier poll, which set the timer. */
  ghost predicate TimerSet<T>(script: Script<T>, period: nat, polls: seq<nat>, m: nat, s: State) {
    s.last.Some? ==>
      exists j: nat :: ReadAt(script, polls, j, s.last.value) && j < m && s.timer == Some(polls[j] + period)
  }

  lemma StepKeepsTimerSet<T>(script: Script<T>, period: nat, polls: seq<nat>, m: nat, s: State)
    requires script.Valid() && m < |polls| && NonDecreasing(polls)
    requires s.pos == (if m == 0 then 0 else script.Arrived(polls[m - 1])) && InScript(script, s.last)
    requires Consistent(s) && TimerSet(script, period, polls, m, s)
    ensures TimerSet(script, period, polls, m + 1, Step(script, period, s, polls[m]).0)
  {
    var next := Step(script, period, s, polls[m]).0;
    if next.last.Some? && next.pos > s.pos {
      ReadNow(script, polls, m, next.pos - 1);
    }
  }

  /** An item past those that had arrived by the previous poll is read by the next one. */
  lemma ReadNow<T>(script: Script<T>, polls: seq<nat>, m: nat, i: nat)
    requires script.Valid() && m < |polls| && NonDecreasing(polls)
    requires (if m == 0 then 0 else script.Arrived(polls[m - 1])) <= i < script.Arrived(polls[m])
    ensures ReadAt(script, polls, m, i)
  {
    if m > 0 {
      var seen := script.Arrived(polls[m - 1]);
      assert script.arrivals[seen].at > polls[m - 1];
      assert script.arrivals[i].at >= script.arrivals[seen].at;
    }
  }

  /** What holds between polls, whatever the schedule. */
  ghost predicate Inv<T>(script: Script<T>, period: nat, polls: seq<nat>, m: nat, r: Run)
    requires m <= |polls|
  {
    && r.state.pos == (if m == 0 then 0 else script.Arrived(polls[m - 1]))
    && (r.state.expired <==> m > 0 && script.ClosedBy(polls[m - 1]))
    && Consistent(r.state) && InOrder(r) && TimerSet(script, period, polls, m, r.state)
  }

  lemma StepKeepsInv<T>(script: Script<T>, period: nat, polls: seq<nat>, m: nat, r: Run)
    requires script.Valid() && NonDecreasing(polls) && m < |polls| && InScript(script, r.state.last)
    requires Inv(script, period, polls, m, r)
    ensures Inv(script, period, polls, m + 1, Next(script, period, r, polls[m]))
  {
    if m > 0 {
      script.ArrivedMonotone(polls[m - 1], polls[m]);
    }
    StepKeepsTimerSet(script, period, polls, m, r.state);
    StepKeepsConsistent(script, period, r.state, polls[m]);
    StepKeepsInOrder(script, period, r, polls[m]);
  }

  lemma {:induction false} RunsKeepInv<T>(script: Script<T>, period: nat, polls: seq<nat>, m: nat)
    requires script.Valid() && NonDecreasing(polls) && m <= |polls|
    ensures Inv(script, period, polls, m, RunOf(script, period, polls, m))
  {
    if m > 0 {
      RunsKeepInv(script, period, polls, m - 1);
      StepKeepsInv(script, period, polls, m - 1, RunOf(script, period, polls, m - 1));
    }
  }

  // ----- what an arbitrary schedule passes on

  /** Poll `k` finds item `i` ready to be passed on: it is the latest item by then, and a whole period has gone by
      since some poll that already saw it, or the stream has closed. */
  predicate ReadyAt<T>(script: Script<T>, period: nat, polls: seq<nat>, k: nat, i: nat) {
    && k < |polls| && i + 1 == script.Arrived(polls[k])
    && (script.ClosedBy(polls[k]) ||
        exists j :: 0 <= j <= k && script.arrivals[i].at <= polls[j] && polls[j] + period <= polls[k])
  }

  /** Poll `k` is the first to find it ready. */
  predicate FirstReadyAt<T>(script: Script<T>, period: nat, polls: seq<nat>, k: nat, i: nat) {
    ReadyAt(script, period, polls, k, i) && forall h :: 0 <= h < k ==> !ReadyAt(script, period, polls, h, i)
  }

  lemma {:induction false} FirstReady<T>(script: Script<T>, period: nat, polls: seq<nat>, k: nat, i: nat)
    returns (first: nat)
    requires ReadyAt(script, period, polls, k, i)
    ensures first <= k && FirstReadyAt(script, period, polls, first, i)
  {
    if h: nat :| h < k && ReadyAt(script, period, polls, h, i) {
      first := FirstReady(script, period, polls, h, i);
    } else {
      first := k;
    }
  }

  /** Item `i` was passed on at time `t` within the first `m` polls. */
  predicate PassedOn<T>(script: Script<T>, period: nat, polls: seq<nat>, m: nat, t: nat, i: nat)
    requires m <= |polls|
  {
    Emission(t, i) in RunOf(script, period, polls, m).emitted
  }

  ghost predicate FirstReadyBy<T>(script: Script<T>, period: nat, polls: seq<nat>, m: nat, t: nat, i: nat)
    requires m <= |polls|
  {
    exists k: nat :: FirstReadyAt(script, period, polls, k, i) && k < m && polls[k] == t
  }

  lemma NextPassesOn<T>(script: Script<T>, period: nat, r: Run, now: nat, e: Emission)
    requires r.state.pos <= |script.arrivals| && InScript(script, r.state.last)
    ensures e in Next(script, period, r, now).emitted <==>
            e in r.emitted || (e.time == now && Step(script, period, r.state, now).1 == Ready(Some(e.index)))
  {
  }

  /** Whatever the schedule, item `i` is passed on at time `t` iff `t` is the time of the first poll that finds it
      ready. */
  lemma {:induction false} PassedOnIff<T>(script: Script<T>, period: nat, polls: seq<nat>, m: nat, t: nat, i: nat)
    requires script.Valid() && NonDecreasing(polls) && m <= |polls|
    ensures PassedOn(script, period, polls, m, t, i) <==> FirstReadyBy(script, period, polls, m, t, i)
    decreases m, 0
  {
    if m > 0 {
      var k := m - 1;
      PassedOnIff(script, period, polls, k, t, i);
      PassedOnNext(script, period, polls, k, t, i);
      LastPollPassesIff(script, period, polls, k, i);
      FirstReadyByNext(script, period, polls, k, t, i);
      assert PassedOn(script, period, polls, m, t, i) <==>
             || FirstReadyBy(script, period, polls, k, t, i)
             || (polls[k] == t && FirstReadyAt(script, period, polls, k, i));
    }
  }

  lemma PassedOnNext<T>(script: Script<T>, period: nat, polls: seq<nat>, k: nat, t: nat, i: nat)
    requires k < |polls|
    ensures PassedOn(script, period, polls, k + 1, t, i) <==>
            || PassedOn(script, period, polls, k, t, i)
            || (polls[k] == t && AnswerTo(script, period, polls, k) == Ready(Some(i)))
  {
    NextPassesOn(script, period, RunOf(script, period, polls, k), polls[k], Emission(t, i));
  }

  lemma FirstReadyByNext<T>(script: Script<T>, period: nat, polls: seq<nat>, k: nat, t: nat, i: nat)
    requires k < |polls|
    ensures FirstReadyBy(script, period, polls, k + 1, t, i) <==>
            FirstReadyBy(script, period, polls, k, t, i) || (polls[k] == t && FirstReadyAt(script, period, polls, k, i))
  {
  }

  lemma {:induction false} LastPollPassesIff<T>(script: Script<T>, period: nat, polls: seq<nat>, k: nat, i: nat)
    requires script.Valid() && NonDecreasing(polls) && k < |polls|
    ensures AnswerTo(script, period, polls, k) == Ready(Some(i)) <==> FirstReadyAt(script, period, polls, k, i)
    decreases k, 1
  {
    RunsKeepInv(script, period, polls, k);
    var r := RunOf(script, period, polls, k);
    if AnswerTo(script, period, polls, k) == Ready(Some(i)) {
      AnswerIsReady(script, period, polls, k, r, i);
      if h: nat :| h < k && ReadyAt(script, period, polls, h, i) {
        var f := FirstReady(script, period, polls, h, i);
        PassedOnIff(script, period, polls, k, polls[f], i);
      }
    }
    if FirstReadyAt(script, period, polls, k, i) {
      if r.state.last.None? && r.state.pos == i + 1 {
        var t := r.emitted[|r.emitted| - 1].time;
        assert r.emitted[|r.emitted| - 1] == Emission(t, i);
        PassedOnIff(script, period, polls, k, t, i);
      } else {
        ReadyIsAnswer(script, period, polls, k, r, i);
      }
    }
  }

  /** What a poll passes on is ready, and was not passed on before. */
  lemma AnswerIsReady<T>(script: Script<T>, period: nat, polls: seq<nat>, k: nat, r: Run, i: nat)
    requires script.Valid() && NonDecreasing(polls) && k < |polls| && InScript(script, r.state.last)
    requires Inv(script, period, polls, k, r) && Step(script, period, r.state, polls[k]).1 == Ready(Some(i))
    ensures ReadyAt(script, period, polls, k, i)
    ensures forall e :: e in r.emitted ==> e.index < i
  {
    if k > 0 {
      script.ArrivedMonotone(polls[k - 1], polls[k]);
    }
    script.FromArrived(r.state.pos, polls[k]);
  }

  lemma ReadyOnceClosed<T>(script: Script<T>, period: nat, polls: seq<nat>, k: nat, i: nat)
    requires script.Valid() && NonDecreasing(polls) && 0 < k < |polls| && script.ClosedBy(polls[k - 1])
    requires ReadyAt(script, period, polls, k, i)
    ensures ReadyAt(script, period, polls, k - 1, i)
  {
    script.ClosedMeansAll(polls[k - 1]);
    script.ClosedMeansAll(polls[k]);
  }

  /** A pending or newly read item that is ready is passed on. */
  lemma ReadyIsAnswer<T>(script: Script<T>, period: nat, polls: seq<nat>, k: nat, r: Run, i: nat)
    requires script.Valid() && NonDecreasing(polls) && k < |polls| && InScript(script, r.state.last)
    requires Inv(script, period, polls, k, r) && FirstReadyAt(script, period, polls, k, i)
    requires r.state.last.Some? || r.state.pos != i + 1
    ensures Step(script, period, r.state, polls[k]).1 == Ready(Some(i))
  {
    var now := polls[k];
    if k > 0 {
      script.ArrivedMonotone(polls[k - 1], now);
      if script.ClosedBy(polls[k - 1]) {
        ReadyOnceClosed(script, period, polls, k, i);
      }
    }
    script.FromArrived(r.state.pos, now);
    if script.ClosedBy(now) {
      script.ClosedMeansAll(now);
    } else {
      var j :| 0 <= j <= k && script.arrivals[i].at <= polls[j] && polls[j] + period <= now;
      if r.state.pos <= i {
        ReadNow(script, polls, k, i);
      } else {
        var j0: nat :| ReadAt(script, polls, j0, i) && j0 < k && r.state.timer == Some(polls[j0] + period);
        assert j0 <= j;
      }
    }
  }

  // ----- consequences

  /** When item `i` is due, from the arrivals alone: a period after it arrived, unless another item arrives by then
      or the stream closes first; the last item is due at the close at the latest. */
  function DueTime<T>(script: Script<T>, period: nat, i: nat): Option<nat>
    requires i < |script.arrivals|
  {
    var deadline := script.arrivals[i].at + period;
    if i + 1 < |script.arrivals| then
      if script.arrivals[i + 1].at > deadline then Some(deadline) else None
    else if script.ClosedBy(deadline) then script.closeAt
    else Some(deadline)
  }

  /** The schedule has a poll at the due time of every item that is due, and one at its arrival, unless it is due at the
      close. It need not have any other. */
  predicate Covers<T>(script: Script<T>, period: nat, polls: seq<nat>) {
    forall i: nat :: i < |script.arrivals| ==> CoversItem(script, period, polls, i)
  }

  predicate CoversItem<T>(script: Script<T>, period: nat, polls: seq<nat>, i: nat)
    requires i < |script.arrivals|
  {
    var due := DueTime(script, period, i);
    due.Some? ==> due.value in polls && (script.ClosedBy(due.value) || script.arrivals[i].at in polls)
  }

  lemma DueMeansLatest<T>(script: Script<T>, period: nat, i: nat)
    requires script.Valid() && i < |script.arrivals| && DueTime(script, period, i).Some?
    ensures var due := DueTime(script, period, i).value;
            && script.Arrived(due) == i + 1
            && (script.ClosedBy(due) ==> script.closeAt == Some(due))
            && (!script.ClosedBy(due) ==> due == script.arrivals[i].at + period)
  {
    script.ArrivedIs(DueTime(script, period, i).value, i + 1);
  }

  /** A due item is ready at a poll at its due time. */
  lemma ReadyWhenDue<T>(script: Script<T>, period: nat, polls: seq<nat>, i: nat) returns (k: nat)
    requires script.Valid() && NonDecreasing(polls) && i < |script.arrivals| && CoversItem(script, period, polls, i)
    requires DueTime(script, period, i).Some?
    ensures ReadyAt(script, period, polls, k, i) && DueTime(script, period, i) == Some(polls[k])
  {
    var due := DueTime(script, period, i).value;
    DueMeansLatest(script, period, i);
    k :| 0 <= k < |polls| && polls[k] == due;
    if !script.ClosedBy(due) {
      var j: nat :| j < |polls| && polls[j] == script.arrivals[i].at;
      if k < j {
        assert period == 0 && script.arrivals[i].at <= polls[k];
      }
    }
  }

  /** No poll finds an item ready that is not due, or before it is due. */
  lemma ReadyMeansDue<T>(script: Script<T>, period: nat, polls: seq<nat>, k: nat, i: nat)
    requires script.Valid() && ReadyAt(script, period, polls, k, i)
    ensures i < |script.arrivals| && DueTime(script, period, i).Some? && DueTime(script, period, i).value <= polls[k]
  {
    var deadline := script.arrivals[i].at + period;
    if script.ClosedBy(polls[k]) {
      script.ClosedMeansAll(polls[k]);
    } else {
      script.ArrivedMonotone(deadline, polls[k]);
      script.ArrivedMonotone(script.arrivals[i].at, deadline);
    }
  }

  /** Under a schedule that covers it, an item is passed on exactly at its due time. */
  lemma CoveredItemIsExact<T>(script: Script<T>, period: nat, polls: seq<nat>, t: nat, i: nat)
    requires script.Valid() && NonDecreasing(polls) && i < |script.arrivals| && CoversItem(script, period, polls, i)
    ensures PassedOn(script, period, polls, |polls|, t, i) <==> DueTime(script, period, i) == Some(t)
  {
    PassedOnIff(script, period, polls, |polls|, t, i);
    if PassedOn(script, period, polls, |polls|, t, i) {
      var k: nat :| FirstReadyAt(script, period, polls, k, i) && polls[k] == t;
      ReadyMeansDue(script, period, polls, k, i);
      var d := ReadyWhenDue(script, period, polls, i);
    }
    if DueTime(script, period, i) == Some(t) {
      var d := ReadyWhenDue(script, period, polls, i);
      var k := FirstReady(script, period, polls, d, i);
      ReadyMeansDue(script, period, polls, k, i);
    }
  }

  /** An item that is passed on at its due time is covered. */
  lemma ExactItemIsCovered<T>(script: Script<T>, period: nat, polls: seq<nat>, i: nat)
    requires script.Valid() && NonDecreasing(polls) && i < |script.arrivals| && DueTime(script, period, i).Some?
    requires PassedOn(script, period, polls, |polls|, DueTime(script, period, i).value, i)
    ensures CoversItem(script, period, polls, i)
  {
    var due := DueTime(script, period, i).value;
    PassedOnIff(script, period, polls, |polls|, due, i);
    var k: nat :| FirstReadyAt(script, period, polls, k, i) && polls[k] == due;
    DueMeansLatest(script, period, i);
    if !script.ClosedBy(due) {
      var j :| 0 <= j <= k && script.arrivals[i].at <= polls[j] && polls[j] + period <= polls[k];
      assert polls[j] == script.arrivals[i].at;
    }
  }

  /** Item `i` is passed on at its due time and at no other, or not at all if it is not due. */
  ghost predicate ExactItem<T>(script: Script<T>, period: nat, polls: seq<nat>, i: nat)
    requires i < |script.arrivals|
  {
    forall t: nat :: PassedOn(script, period, polls, |polls|, t, i) <==> DueTime(script, period, i) == Some(t)
  }

  /** The output of a schedule is the documented one, item for item and time for time, iff the schedule covers it. */
  lemma {:induction false} ScheduleIsExactIff<T>(script: Script<T>, period: nat, polls: seq<nat>)
    requires script.Valid() && NonDecreasing(polls)
    ensures (forall i: nat :: i < |script.arrivals| ==> ExactItem(script, period, polls, i)) <==>
            Covers(script, period, polls)
    ensures forall e :: e in RunOf(script, period, polls, |polls|).emitted ==> e.index < |script.arrivals|
  {
    forall i: nat | i < |script.arrivals|
      ensures ExactItem(script, period, polls, i) <==> CoversItem(script, period, polls, i)
    {
      if CoversItem(script, period, polls, i) {
        forall t: nat
          ensures PassedOn(script, period, polls, |polls|, t, i) <==> DueTime(script, period, i) == Some(t)
        {
          CoveredItemIsExact(script, period, polls, t, i);
        }
      } else if DueTime(script, period, i).Some? && ExactItem(script, period, polls, i) {
        ExactItemIsCovered(script, period, polls, i);
      }
    }
    RunsKeepInv(script, period, polls, |polls|);
  }

  /** Under a covering schedule item `i` is passed on exactly at its due time. */
  lemma {:induction false} CoveringScheduleIsExact<T>(script: Script<T>, period: nat, polls: seq<nat>, t: nat, i: nat)
    requires script.Valid() && NonDecreasing(polls) && Covers(script, period, polls)
    ensures PassedOn(script, period, polls, |polls|, t, i) <==>
            i < |script.arrivals| && DueTime(script, period, i) == Some(t)
  {
    if i < |script.arrivals| {
      CoveredItemIsExact(script, period, polls, t, i);
    } else {
      ScheduleIsExactIff(script, period, polls);
    }
  }

  // ----- an executor's schedule covers

  /** A timer that runs after `k` polls is not slept through. */
  predicate TimerIsKept<T>(script: Script<T>, period: nat, polls: seq<nat>, k: nat) {
    k <= |polls| ==>
      var timer := RunOf(script, period, polls, k).state.timer;
      timer.Some? ==> k < |polls| && polls[k] <= timer.value
  }

  /** What wakes the operator: the stream at every arrival and at the close, and whichever timer still runs when it is
      over. */
  ghost predicate PollsAtWakeUps<T>(script: Script<T>, period: nat, polls: seq<nat>) {
    && (forall i :: 0 <= i < |script.arrivals| ==> script.arrivals[i].at in polls)
    && (script.closeAt.Some? ==> script.closeAt.value in polls)
    && (forall k: nat :: TimerIsKept(script, period, polls, k))
  }

  /** While nothing else arrives the timer of item `i` runs until it is polled at its deadline. */
  lemma {:induction false} TimerIsPolled<T>(
    script: Script<T>, period: nat, polls: seq<nat>, i: nat, due: nat, m: nat, s: State)
    requires m <= |polls| && forall k: nat :: TimerIsKept(script, period, polls, k)
    requires script.Arrived(due) == i + 1 && !script.ClosedBy(due)
    requires s == RunOf(script, period, polls, m).state && s == State(i + 1, Some(due), Some(i), false)
    ensures due in polls
    decreases |polls| - m
  {
    assert TimerIsKept(script, period, polls, m);
    var now := polls[m];
    if now < due {
      assert script.ArrivedFrom(i + 1, now) == i + 1;
      assert Step(script, period, s, now) == (s, Pending);
      TimerIsPolled(script, period, polls, i, due, m + 1, s);
    }
  }

  lemma {:induction false} StateBeforeRead<T>(script: Script<T>, period: nat, polls: seq<nat>, j: nat, i: nat)
    requires script.Valid() && NonDecreasing(polls) && ReadAt(script, polls, j, i)
    ensures var s := RunOf(script, period, polls, j).state; s.pos <= i && !s.expired
  {
    RunsKeepInv(script, period, polls, j);
  }

  /** The poll that reads an item sets its timer. */
  lemma {:induction false} StepReads<T>(script: Script<T>, period: nat, s: State, now: nat, i: nat)
    requires script.Valid() && period > 0 && s.pos <= i && InScript(script, s.last) && !s.expired
    requires script.Arrived(now) == i + 1 && !script.ClosedBy(now)
    ensures Step(script, period, s, now).0 == State(i + 1, Some(now + period), Some(i), false)
  {
    script.FromArrived(s.pos, now);
  }

  lemma {:induction false} FirstPollAt<T>(script: Script<T>, polls: seq<nat>, i: nat) returns (j: nat)
    requires NonDecreasing(polls) && i < |script.arrivals| && script.arrivals[i].at in polls
    ensures ReadAt(script, polls, j, i) && polls[j] == script.arrivals[i].at
  {
    j :| 0 <= j < |polls| && polls[j] == script.arrivals[i].at;
    while j > 0 && polls[j - 1] == script.arrivals[i].at
      invariant j < |polls| && polls[j] == script.arrivals[i].at
    {
      j := j - 1;
    }
  }

  lemma {:induction false} StateAfterRead<T>(script: Script<T>, period: nat, polls: seq<nat>, j: nat, i: nat)
    requires script.Valid() && NonDecreasing(polls) && period > 0 && ReadAt(script, polls, j, i)
    requires script.Arrived(polls[j]) == i + 1 && !script.ClosedBy(polls[j])
    ensures RunOf(script, period, polls, j + 1).state == State(i + 1, Some(polls[j] + period), Some(i), false)
  {
    var before := RunOf(script, period, polls, j).state;
    StateBeforeRead(script, period, polls, j, i);
    StepReads(script, period, before, polls[j], i);
  }

  /** A due item that is not due at the close is polled at its deadline. */
  lemma {:induction false} DeadlineIsPolled<T>(
    script: Script<T>, period: nat, polls: seq<nat>, i: nat, due: nat, j: nat)
    requires script.Valid() && NonDecreasing(polls) && period > 0
    requires forall k: nat :: TimerIsKept(script, period, polls, k)
    requires ReadAt(script, polls, j, i) && polls[j] == script.arrivals[i].at && due == polls[j] + period
    requires script.Arrived(due) == i + 1 && !script.ClosedBy(due)
    ensures due in polls
  {
    script.ArrivedIs(polls[j], i + 1);
    StateAfterRead(script, period, polls, j, i);
    TimerIsPolled(script, period, polls, i, due, j + 1, State(i + 1, Some(due), Some(i), false));
  }

  /** A schedule that polls whenever something wakes the operator covers what is due. */
  lemma {:induction false} WakeUpsCover<T>(script: Script<T>, period: nat, polls: seq<nat>)
    requires script.Valid() && NonDecreasing(polls) && PollsAtWakeUps(script, period, polls)
    ensures Covers(script, period, polls)
  {
    forall i: nat | i < |script.arrivals| ensures CoversItem(script, period, polls, i) {
      if DueTime(script, period, i).Some? {
        var due := DueTime(script, period, i).value;
        DueMeansLatest(script, period, i);
        if !script.ClosedBy(due) && period > 0 {
          var j := FirstPollAt(script, polls, i);
          DeadlineIsPolled(script, period, polls, i, due, j);
        }
      }
    }
  }

  /** The run of the documentation, polled when something wakes the operator: of the items at 0, 30, 60 and 200, the
      third is passed on at 110 and the fourth at 250. */
  lemma {:induction false} DocumentedExample(script: Script<int>, polls: seq<nat>)
    requires script == Script([Arrival(0, 1), Arrival(30, 2), Arrival(60, 3), Arrival(200, 4)], None)
    requires polls == [0, 30, 60, 110, 200, 250]
    ensures script.Valid() && NonDecreasing(polls) && Covers(script, 50, polls)
    ensures RunOf(script, 50, polls, |polls|).emitted == [Emission(110, 2), Emission(250, 3)]
  {
    DocumentedSchedule(script, polls);
    DocumentedRun(script, polls);
  }

  lemma {:induction false} DocumentedSchedule(script: Script<int>, polls: seq<nat>)
    requires script == Script([Arrival(0, 1), Arrival(30, 2), Arrival(60, 3), Arrival(200, 4)], None)
    requires polls == [0, 30, 60, 110, 200, 250]
    ensures script.Valid() && NonDecreasing(polls) && Covers(script, 50, polls)
  {
    assert polls[2] == 60 && polls[3] == 110 && polls[4] == 200 && polls[5] == 250;
    assert DueTime(script, 50, 0) == None && DueTime(script, 50, 1) == None;
    assert DueTime(script, 50, 2) == Some(110) && DueTime(script, 50, 3) == Some(250);
  }

  lemma {:induction false} DocumentedRun(script: Script<int>, polls: seq<nat>)
    requires script == Script([Arrival(0, 1), Arrival(30, 2), Arrival(60, 3), Arrival(200, 4)], None)
    requires polls == [0, 30, 60, 110, 200, 250]
    ensures RunOf(script, 50, polls, |polls|).emitted == [Emission(110, 2), Emission(250, 3)]
  {
    var k := |polls| - 3;
    var r3 := Run(State(3, Some(110), Some(2), false), []);
    var r4 := Run(State(3, None, None, false), [Emission(110, 2)]);
    var r5 := Run(State(4, Some(250), Some(3), false), r4.emitted);
    DocumentedStart(script, polls, k);
    DocumentedEnd(script);
    assert polls[k] == 110 && polls[k + 1] == 200 && polls[k + 2] == 250;
    NextTo(script, 50, polls, k, r3, r4);
    NextTo(script, 50, polls, k + 1, r4, r5);
    NextTo(script, 50, polls, k + 2, r5, Run(State(4, None, None, false), [Emission(110, 2), Emission(250, 3)]));
  }

  lemma {:induction false} DocumentedEnd(script: Script<int>)
    requires script == Script([Arrival(0, 1), Arrival(30, 2), Arrival(60, 3), Arrival(200, 4)], None)
    ensures var r3 := Run(State(3, Some(110), Some(2), false), []);
            var r4 := Run(State(3, None, None, false), [Emission(110, 2)]);
            var r5 := Run(State(4, Some(250), Some(3), false), r4.emitted);
            && Next(script, 50, r3, 110) == r4 && Next(script, 50, r4, 200) == r5
            && Next(script, 50, r5, 250)
            == Run(State(4, None, None, false), [Emission(110, 2), Emission(250, 3)])
  {
  }

  lemma {:induction false} DocumentedStart(script: Script<int>, polls: seq<nat>, k: nat)
    requires script == Script([Arrival(0, 1), Arrival(30, 2), Arrival(60, 3), Arrival(200, 4)], None)
    requires polls == [0, 30, 60, 110, 200, 250] && k == 3
    ensures RunOf(script, 50, polls, k) == Run(State(3, Some(110), Some(2), false), [])
  {
    var r1, r2 := Run(State(1, Some(50), Some(0), false), []), Run(State(2, Some(80), Some(1), false), []);
    NextTo(script, 50, polls, k - 3, Run(START, []), r1);
    NextTo(script, 50, polls, k - 2, r1, r2);
    NextTo(script, 50, polls, k - 1, r2, Run(State(3, Some(110), Some(2), false), []));
  }

  /** One poll of a run. */
  lemma {:induction false} NextTo<T>(script: Script<T>, period: nat, polls: seq<nat>, k: nat, r: Run, next: Run)
    requires k < |polls| && r.state.pos <= |script.arrivals| && InScript(script, r.state.last)
    requires RunOf(script, period, polls, k) == r && Next(script, period, r, polls[k]) == next
    ensures RunOf(script, period, polls, k + 1) == next
  {
  }

  /** The end is announced only after the source has ended, and by every poll after the one that saw the close. */
  lemma EndIsTheEndOfTheSource<T>(script: Script<T>, period: nat, polls: seq<nat>, k: nat)
    requires script.Valid() && NonDecreasing(polls) && k < |polls|
    ensures AnswerTo(script, period, polls, k) == Ready(None) ==> script.ClosedBy(polls[k])
    ensures k > 0 && script.ClosedBy(polls[k - 1]) ==> AnswerTo(script, period, polls, k) == Ready(None)
  {
    RunsKeepInv(script, period, polls, k);
  }

  /** The end is announced by exactly the polls after one that saw the close, and by that one itself if nothing is
      pending or unread. */
  lemma {:induction false} EndIsAnnouncedIff<T>(script: Script<T>, period: nat, polls: seq<nat>, k: nat)
    requires script.Valid() && NonDecreasing(polls) && k < |polls|
    ensures AnswerTo(script, period, polls, k) == Ready(None) <==>
            var s := RunOf(script, period, polls, k).state;
            && script.ClosedBy(polls[k])
            && ((k > 0 && script.ClosedBy(polls[k - 1])) || (s.last.None? && s.pos == |script.arrivals|))
  {
    var s := RunOf(script, period, polls, k).state;
    RunsKeepInv(script, period, polls, k);
    if script.ClosedBy(polls[k]) {
      script.ClosedMeansAll(polls[k]);
      script.FromArrived(s.pos, polls[k]);
    }
  }

  /** Once the close has been seen, the last item of the source is the last one passed on: nothing is lost. */
  lemma CloseFlushes<T>(script: Script<T>, period: nat, polls: seq<nat>, m: nat)
    requires script.Valid() && NonDecreasing(polls) && 0 < m <= |polls|
    requires script.ClosedBy(polls[m - 1]) && script.arrivals != []
    ensures var emitted := RunOf(script, period, polls, m).emitted;
            emitted != [] && emitted[|emitted| - 1].index == |script.arrivals| - 1
  {
    RunsKeepInv(script, period, polls, m);
    script.ClosedMeansAll(polls[m - 1]);
  }

  /** An item passed on by the timer comes more than a period after the one before it, whatever the schedule. */
  lemma TimerKeepsTheDistance<T>(script: Script<T>, period: nat, polls: seq<nat>, m: nat, d: nat, e: nat)
    requires script.Valid() && NonDecreasing(polls) && m <= |polls|
    requires d < e < |RunOf(script, period, polls, m).emitted|
    requires !script.ClosedBy(RunOf(script, period, polls, m).emitted[e].time)
    ensures var emitted := RunOf(script, period, polls, m).emitted;
            emitted[e].time > emitted[d].time + period
  {
    var emitted := RunOf(script, period, polls, m).emitted;
    RunsKeepInv(script, period, polls, m);
    PassedOnIff(script, period, polls, m, emitted[d].time, emitted[d].index);
    PassedOnIff(script, period, polls, m, emitted[e].time, emitted[e].index);
    assert script.Arrived(emitted[d].time) == emitted[d].index + 1;
    var k: nat :| FirstReadyAt(script, period, polls, k, emitted[e].index) && k < m && polls[k] == emitted[e].time;
    assert script.arrivals[emitted[d].index + 1].at > emitted[d].time;
  }

  /** The number of items before `n` that were not passed on. */
  function Superseded(emitted: seq<Emission>, n: nat): nat {
    if n == 0 then 0
    else Superseded(emitted, n - 1) + if exists e :: e in emitted && e.index == n - 1 then 0 else 1
  }

  lemma {:induction false} SupersededPrefix(emitted: seq<Emission>, e: Emission, n: nat)
    requires n <= e.index
    ensures Superseded(emitted + [e], n) == Superseded(emitted, n)
  {
    if n > 0 {
      SupersededPrefix(emitted, e, n - 1);
      assert forall x :: x in emitted + [e] <==> x in emitted || x == e;
    }
  }

  lemma {:induction false} IncreasingCounts(emitted: seq<Emission>, n: nat)
    requires Increasing(emitted, n)
    ensures |emitted| + Superseded(emitted, n) == n
  {
    if n > 0 {
      if emitted != [] && emitted[|emitted| - 1].index == n - 1 {
        var init, e := emitted[..|emitted| - 1], emitted[|emitted| - 1];
        assert emitted == init + [e];
        IncreasingCounts(init, n - 1);
        SupersededPrefix(init, e, n - 1);
        assert e in emitted && e.index == n - 1;
      } else {
        IncreasingCounts(emitted, n - 1);
        assert forall e :: e in emitted ==> e.index != n - 1;
      }
    }
  }

  /** Every item read is passed on, pending or superseded, and an item is superseded only by a later one that was
      read as well. */
  lemma ReadItemsAreAccountedFor<T>(script: Script<T>, period: nat, polls: seq<nat>, m: nat)
    requires script.Valid() && NonDecreasing(polls) && m <= |polls|
    ensures var r := RunOf(script, period, polls, m);
            r.state.pos == |r.emitted| + Superseded(r.emitted, Settled(r.state)) + (if r.state.last.Some? then 1 else 0)
    ensures var r := RunOf(script, period, polls, m);
            forall i ::
              0 <= i < r.state.pos && (forall e :: e in r.emitted ==> e.index != i) && r.state.last != Some(i) ==>
              i + 1 < r.state.pos
  {
    RunsKeepInv(script, period, polls, m);
    var r := RunOf(script, period, polls, m);
    IncreasingCounts(r.emitted, Settled(r.state));
  }
}
