/** The throttle operator: an item is passed on at once when none was passed on for a period; the items that arrive
    within the period are replaced by the latest of them, which is passed on at the end of the period. */
module ThrottleStream {
  import opened Options
  import opened TimedSource

  datatype State = State(pos: nat, timer: Option<nat>)

  const START := State(0, None)

  /** One poll. `Some(i)` in the answer is item `i`. */
  function Step<T>(script: Script<T>, period: nat, s: State, now: nat): (r: (State, Poll<Option<nat>>))
    requires s.pos <= |script.arrivals|
    ensures r.0.pos <= |script.arrivals|
    ensures r.1.Ready? && r.1.value.Some? ==> r.1.value.value < |script.arrivals|
  {
    if s.timer.Some? then
      if now < s.timer.value then (s, Pending)
      else
        var pos := script.ArrivedFrom(s.pos, now);
        if pos == |script.arrivals| && script.ClosedBy(now) then (State(pos, None), Ready(None))
        else if pos > s.pos then (State(pos, Some(now + period)), Ready(Some(pos - 1)))
        else (State(pos, None), Pending)
    else if s.pos < |script.arrivals| && script.arrivals[s.pos].at <= now then
      (State(s.pos + 1, Some(now + period)), Ready(Some(s.pos)))
    else if s.pos == |script.arrivals| && script.ClosedBy(now) then (State(s.pos, Some(now + period)), Ready(None))
    else (s, Pending)
  }

  function StepAnswer<T>(script: Script<T>, period: nat, s: State, now: nat): (State, Poll<Option<T>>)
    requires s.pos <= |script.arrivals|
  {
    var (next, answer) := Step(script, period, s, now);
    (next,
     match answer
     case Ready(Some(i)) => Ready(Some(script.arrivals[i].item))
     case Ready(None) => Ready(None)
     case Pending => Pending)
  }

  /** What a poll answers and changes. While a timer runs nothing is read. When the timer is over everything that has
      arrived is read, and the latest item is the answer, unless the stream has ended. Without a timer one item is read
      and is the answer, or the end is. */
  ghost predicate PollEffect<T>(
    script: Script<T>, period: nat, now: nat, before: State, after: State, answer: Poll<Option<T>>)
  {
    && before.pos <= after.pos <= |script.arrivals|
    && (forall i :: before.pos <= i < after.pos ==> script.arrivals[i].at <= now)
    && if before.timer.Some? && now < before.timer.value then
         answer == Pending && after == before
       else if before.timer.Some? then
         && (after.pos < |script.arrivals| ==> script.arrivals[after.pos].at > now)
         && after.timer == (if answer.Ready? && answer.value.Some? then Some(now + period) else None)
         && answer ==
              if after.pos == |script.arrivals| && script.ClosedBy(now) then Ready(None)
              else if after.pos == before.pos then Pending
              else Ready(Some(script.arrivals[after.pos - 1].item))
       else
         && after.timer == (if answer.Ready? then Some(now + period) else None)
         && if after.pos > before.pos then
              after.pos == before.pos + 1 && answer == Ready(Some(script.arrivals[before.pos].item))
            else
              && (after.pos < |script.arrivals| ==> script.arrivals[after.pos].at > now)
              && answer == if after.pos == |script.arrivals| && script.ClosedBy(now) then Ready(None) else Pending
  }

  lemma {:induction false} StepHasPollEffect<T>(script: Script<T>, period: nat, s: State, now: nat)
    requires s.pos <= |script.arrivals|
    ensures var (next, answer) := StepAnswer(script, period, s, now);
            PollEffect(script, period, now, s, next, answer)
  {
  }

  class Throttle<T> {
    const period: nat
    const stream: Source<T>
    var timer: Option<nat>

    ghost predicate Valid()
      reads this, stream
    {
      stream.Valid()
    }

    ghost function AsState(): State
      reads this, stream
    {
      State(stream.pos, timer)
    }

    constructor (period: nat, stream: Source<T>)
      requires stream.Valid() && stream.pos == 0
      ensures Valid() && this.period == period && this.stream == stream && AsState() == START
    {
      this.period, this.stream := period, stream;
      timer := None;
    }

    method PollNext(now: nat) returns (r: Poll<Option<T>>)
      requires Valid()
      modifies this, stream
      ensures Valid()
      ensures (AsState(), r) == StepAnswer(stream.script, period, old(AsState()), now)
      ensures PollEffect(stream.script, period, now, old(AsState()), AsState(), r)
    {
      StepHasPollEffect(stream.script, period, AsState(), now);
      if timer.Some? {
        if now < timer.value {
          return Pending;
        }
        ghost var pos := stream.script.ArrivedFrom(stream.pos, now);
        var lastPoll: Poll<Option<T>> := Pending;
        while true
          invariant Valid() && timer == old(timer)
          invariant old(stream.pos) <= stream.pos <= pos
          invariant stream.script.ArrivedFrom(stream.pos, now) == pos
          invariant lastPoll == if stream.pos == old(stream.pos) then Pending
                                else Ready(Some(stream.script.arrivals[stream.pos - 1].item))
          decreases pos - stream.pos
        {
          var polled := stream.PollNext(now);
          if polled.Pending? {
            break;
          }
          if polled.value.None? {
            // The stream has been closed.
            timer := None;
            return Ready(None);
          }
          lastPoll := polled;
        }
        assert stream.pos == pos && !(pos == |stream.script.arrivals| && stream.script.ClosedBy(now));
        timer := if lastPoll.Ready? then Some(now + period) else None;
        return lastPoll;
      } else {
        r := stream.PollNext(now);
        if r.Ready? {
          timer := Some(now + period);
        }
      }
    }
  }

  // ----- runs

  datatype Run = Run(state: State, emitted: seq<Emission>)

  function Passed(answer: Poll<Option<nat>>, now: nat): seq<Emission> {
    if answer.Ready? && answer.value.Some? then [Emission(now, answer.value.value)] else []
  }

  function Next<T>(script: Script<T>, period: nat, r: Run, now: nat): (r': Run)
    requires r.state.pos <= |script.arrivals|
    ensures r'.state.pos <= |script.arrivals|
  {
    var (state, answer) := Step(script, period, r.state, now);
    Run(state, r.emitted + Passed(answer, now))
  }

  /** The first `m` polls of a schedule. */
  function RunOf<T>(script: Script<T>, period: nat, polls: seq<nat>, m: nat): (r: Run)
    requires m <= |polls|
    ensures r.state.pos <= |script.arrivals|
  {
    if m == 0 then Run(START, []) else Next(script, period, RunOf(script, period, polls, m - 1), polls[m - 1])
  }

  function AnswerTo<T>(script: Script<T>, period: nat, polls: seq<nat>, k: nat): Poll<Option<nat>>
    requires k < |polls|
  {
    Step(script, period, RunOf(script, period, polls, k).state, polls[k]).1
  }

  predicate Follows<T>(script: Script<T>, period: nat, runs: seq<Run>, polls: seq<nat>, k: nat) {
    && k + 1 < |runs| && k < |polls| && runs[k].state.pos <= |script.arrivals|
    && runs[k + 1] == Next(script, period, runs[k], polls[k])
  }

  /** The runs of the first polls, of any number of them. */
  function Trace<T>(script: Script<T>, period: nat, polls: seq<nat>): (runs: seq<Run>)
    ensures |runs| == |polls| + 1
  {
    seq(|polls| + 1, k requires 0 <= k <= |polls| => RunOf(script, period, polls, k))
  }

  lemma {:induction false} TraceFollows<T>(script: Script<T>, period: nat, polls: seq<nat>, k: nat)
    requires k < |polls|
    ensures Follows(script, period, Trace(script, period, polls), polls, k)
  {
    assert RunOf(script, period, polls, k + 1) == Next(script, period, RunOf(script, period, polls, k), polls[k]);
  }

  /** The items answered by the polls of a run up to `runs[m]`. */
  function ItemsOf<T>(script: Script<T>, period: nat, runs: seq<Run>, polls: seq<nat>, m: nat): seq<T>
    requires forall k: nat :: k < m ==> Follows(script, period, runs, polls, k)
  {
    if m == 0 then []
    else
      assert Follows(script, period, runs, polls, m - 1);
      ItemsOf(script, period, runs, polls, m - 1) +
      Answered(StepAnswer(script, period, runs[m - 1].state, polls[m - 1]).1)
  }

  lemma {:induction false} ItemsOfTrace<T>(script: Script<T>, period: nat, polls: seq<nat>, runs: seq<Run>, m: nat)
    requires m < |runs| && runs[0].emitted == []
    requires forall k: nat :: k < m ==> Follows(script, period, runs, polls, k)
    ensures ItemsMatch(script, ItemsOf(script, period, runs, polls, m), runs[m].emitted)
  {
    if m > 0 {
      ItemsOfTrace(script, period, polls, runs, m - 1);
      assert Follows(script, period, runs, polls, m - 1);
    }
  }

  /** The answers of a run are the items of its emissions, in order. */
  lemma {:induction false} AnswersAreTheItems<T>(
    script: Script<T>, period: nat, polls: seq<nat>, m: nat, runs: seq<Run>)
    requires m <= |polls| && runs == Trace(script, period, polls)
    ensures forall k: nat :: k < m ==> Follows(script, period, runs, polls, k)
    ensures ItemsMatch(script, ItemsOf(script, period, runs, polls, m), runs[m].emitted)
  {
    forall k: nat | k < m ensures Follows(script, period, runs, polls, k) {
      TraceFollows(script, period, polls, k);
    }
    ItemsOfTrace(script, period, polls, runs, m);
  }

  // ----- any schedule: order and distance

  /** Items are passed on in their order, each at most once and only after it was read, and a period apart. */
  predicate Spaced(emitted: seq<Emission>, period: nat, bound: nat) {
    && (forall d, e :: 0 <= d < e < |emitted| ==>
          emitted[d].index < emitted[e].index && emitted[d].time + period <= emitted[e].time)
    && (forall e :: 0 <= e < |emitted| ==> emitted[e].index < bound)
  }

  /** Until when nothing may be passed on: the deadline if a timer runs, or else until now. */
  function QuietUntil(s: State, clock: nat): nat {
    if s.timer.Some? then s.timer.value else clock
  }

  /** Nothing may be passed on before the period of the last item is over. */
  predicate Quiet(r: Run, period: nat, clock: nat) {
    r.emitted != [] ==> r.emitted[|r.emitted| - 1].time + period <= QuietUntil(r.state, clock)
  }

  predicate SpacedRun(r: Run, period: nat, clock: nat) {
    Spaced(r.emitted, period, r.state.pos) && Quiet(r, period, clock)
  }

  lemma AppendSpaced(emitted: seq<Emission>, period: nat, bound: nat, e: Emission, longer: seq<Emission>)
    requires Spaced(emitted, period, bound) && bound <= e.index && longer == emitted + [e]
    requires emitted != [] ==> emitted[|emitted| - 1].time + period <= e.time
    ensures Spaced(longer, period, e.index + 1)
  {
    if emitted != [] {
      var last := |emitted| - 1;
      forall d | 0 <= d <= last ensures emitted[d].time + period <= e.time {
        assert emitted[d].time <= emitted[last].time;
      }
    }
  }

  lemma {:induction false} StepIsQuiet<T>(script: Script<T>, period: nat, s: State, clock: nat, now: nat)
    requires s.pos <= |script.arrivals| && clock <= now
    ensures var (next, answer) := Step(script, period, s, now);
            if answer.Ready? && answer.value.Some? then
              && QuietUntil(s, clock) <= now && s.pos <= answer.value.value
              && next == State(answer.value.value + 1, Some(now + period))
            else QuietUntil(s, clock) <= QuietUntil(next, now) && s.pos <= next.pos
  {
  }

  lemma {:induction false} StepKeepsSpaced<T>(script: Script<T>, period: nat, r: Run, clock: nat, now: nat, next: Run)
    requires r.state.pos <= |script.arrivals| && clock <= now && SpacedRun(r, period, clock)
    requires next == Next(script, period, r, now)
    ensures SpacedRun(next, period, now)
  {
    var answer := Step(script, period, r.state, now).1;
    StepIsQuiet(script, period, r.state, clock, now);
    if answer.Ready? && answer.value.Some? {
      AppendSpaced(r.emitted, period, r.state.pos, Emission(now, answer.value.value), next.emitted);
    } else {
      assert next.emitted == r.emitted;
    }
  }

  /** Under any schedule whose clock does not run backwards, the output is a subsequence of the source, with at least
      a period between any two items. */
  lemma {:induction false} OutputIsSpacedSubsequence<T>(script: Script<T>, period: nat, polls: seq<nat>, m: nat)
    requires NonDecreasing(polls) && m <= |polls|
    ensures SpacedRun(RunOf(script, period, polls, m), period, if m == 0 then 0 else polls[m - 1])
  {
    if m > 0 {
      var clock := if m == 1 then 0 else polls[m - 2];
      OutputIsSpacedSubsequence(script, period, polls, m - 1);
      assert clock <= polls[m - 1];
      StepKeepsSpaced(script, period, RunOf(script, period, polls, m - 1), clock, polls[m - 1],
                      RunOf(script, period, polls, m));
    }
  }

  /** The number of items passed on within a closed interval. */
  function CountWithin(emitted: seq<Emission>, from: nat, to: nat): nat {
    if emitted == [] then 0
    else
      var last := emitted[|emitted| - 1];
      CountWithin(emitted[..|emitted| - 1], from, to) + if from <= last.time <= to then 1 else 0
  }

  /** The `c` items within the interval put the last of them `c - 1` periods after its start. */
  lemma {:induction false} SpacedCount(emitted: seq<Emission>, period: nat, bound: nat, from: nat, to: nat)
    returns (e: nat)
    requires Spaced(emitted, period, bound) && CountWithin(emitted, from, to) > 0
    ensures e < |emitted| && from <= emitted[e].time <= to
    ensures from + (CountWithin(emitted, from, to) - 1) * period <= emitted[e].time
  {
    var last := |emitted| - 1;
    var before := CountWithin(emitted[..last], from, to);
    if from <= emitted[last].time <= to {
      if before > 0 {
        e := SpacedCount(emitted[..last], period, bound, from, to);
        assert emitted[e].time + period <= emitted[last].time;
        OneMore(before, period);
      }
      e := last;
    } else {
      e := SpacedCount(emitted[..last], period, bound, from, to);
    }
  }

  lemma OneMore(n: int, k: int)
    ensures (n - 1) * k + k == n * k
  {
  }

  lemma {:induction false} SpacedThroughput(emitted: seq<Emission>, period: nat, bound: nat, from: nat, to: nat)
    requires Spaced(emitted, period, bound) && period > 0 && from <= to
    ensures CountWithin(emitted, from, to) <= (to - from) / period + 1
  {
    var c := CountWithin(emitted, from, to);
    if c > 0 {
      var e := SpacedCount(emitted, period, bound, from, to);
      var q: nat := c - 1;
      assert q * period <= to - from;
      QuotientBound(q, period, to - from);
    }
  }

  lemma QuotientBound(q: nat, period: nat, length: nat)
    requires period > 0 && q * period <= length
    ensures q <= length / period
  {
    var whole := length / period;
    assert length < (whole + 1) * period;
    if q > whole {
      MulMonotone(whole + 1, q, period);
    }
  }

  lemma MulMonotone(a: nat, b: nat, k: nat)
    requires a <= b
    ensures a * k <= b * k
  {
  }

  /** Hence a closed interval of length `to - from` sees at most one item more than it has whole periods. */
  lemma ThroughputIsBounded<T>(script: Script<T>, period: nat, polls: seq<nat>, m: nat, from: nat, to: nat)
    requires NonDecreasing(polls) && m <= |polls| && period > 0 && from <= to
    ensures CountWithin(RunOf(script, period, polls, m).emitted, from, to) <= (to - from) / period + 1
  {
    OutputIsSpacedSubsequence(script, period, polls, m);
    var r := RunOf(script, period, polls, m);
    SpacedThroughput(r.emitted, period, r.state.pos, from, to);
  }

  // ----- any schedule: what reading and closing do

  /** The end is announced only after the source has ended. */
  lemma EndIsTheEndOfTheSource<T>(script: Script<T>, period: nat, polls: seq<nat>, k: nat)
    requires k < |polls|
    ensures AnswerTo(script, period, polls, k) == Ready(None) ==> script.ClosedBy(polls[k])
  {
  }

  /** The end is announced by exactly the polls after the close that find the timer over, or none and nothing unread. */
  lemma {:induction false} EndIsAnnouncedIff<T>(script: Script<T>, period: nat, polls: seq<nat>, k: nat)
    requires script.Valid() && k < |polls|
    ensures AnswerTo(script, period, polls, k) == Ready(None) <==>
            var s := RunOf(script, period, polls, k).state;
            && script.ClosedBy(polls[k])
            && if s.timer.Some? then s.timer.value <= polls[k] else s.pos == |script.arrivals|
  {
    var s := RunOf(script, period, polls, k).state;
    if script.ClosedBy(polls[k]) {
      script.ClosedMeansAll(polls[k]);
      script.FromArrived(s.pos, polls[k]);
    }
  }

  /** The last item read is the last one passed on. */
  predicate UpToDate(r: Run) {
    if r.emitted == [] then r.state.pos == 0 else r.emitted[|r.emitted| - 1].index + 1 == r.state.pos
  }

  lemma StepKeepsUpToDate<T>(script: Script<T>, period: nat, r: Run, now: nat)
    requires r.state.pos <= |script.arrivals| && UpToDate(r)
    requires Step(script, period, r.state, now).1 != Ready(None)
    ensures UpToDate(Next(script, period, r, now))
  {
  }

  /** Until the end is announced, throttle never sits on an item: whatever it has read, the latest is already out. */
  lemma {:induction false} UpToDateUntilTheEnd<T>(script: Script<T>, period: nat, polls: seq<nat>, k: nat)
    requires k <= |polls|
    requires forall h :: 0 <= h < k ==> AnswerTo(script, period, polls, h) != Ready(None)
    ensures UpToDate(RunOf(script, period, polls, k))
  {
    if k > 0 {
      UpToDateUntilTheEnd(script, period, polls, k - 1);
      assert AnswerTo(script, period, polls, k - 1) != Ready(None);
      StepKeepsUpToDate(script, period, RunOf(script, period, polls, k - 1), polls[k - 1]);
    }
  }

  lemma StepAfterTheEnd<T>(script: Script<T>, period: nat, r: Run, now: nat)
    requires r.state.pos == |script.arrivals|
    ensures Next(script, period, r, now).emitted == r.emitted
    ensures Next(script, period, r, now).state.pos == |script.arrivals|
  {
  }

  lemma StepAtTheEnd<T>(script: Script<T>, period: nat, r: Run, now: nat)
    requires r.state.pos <= |script.arrivals| && Step(script, period, r.state, now).1 == Ready(None)
    ensures Next(script, period, r, now).emitted == r.emitted
    ensures Next(script, period, r, now).state.pos == |script.arrivals|
  {
  }

  /** After a poll `k` that announces the end nothing is passed on any more, whatever that poll has read. */
  lemma {:induction false} NothingAfterTheEnd<T>(script: Script<T>, period: nat, polls: seq<nat>, k: nat, m: nat)
    requires k < m <= |polls| && AnswerTo(script, period, polls, k) == Ready(None)
    ensures RunOf(script, period, polls, m).emitted == RunOf(script, period, polls, k).emitted
    ensures RunOf(script, period, polls, m).state.pos == |script.arrivals|
  {
    if m == k + 1 {
      StepAtTheEnd(script, period, RunOf(script, period, polls, k), polls[k]);
    } else {
      NothingAfterTheEnd(script, period, polls, k, m - 1);
      StepAfterTheEnd(script, period, RunOf(script, period, polls, m - 1), polls[m - 1]);
    }
  }

  predicate PendingAt<T>(script: Script<T>, period: nat, polls: seq<nat>, k: nat) {
    k < |polls| ==> AnswerTo(script, period, polls, k) == Pending
  }

  predicate Waits<T>(script: Script<T>, period: nat, runs: seq<Run>, polls: seq<nat>, k: nat) {
    && Follows(script, period, runs, polls, k) && script.ClosedBy(polls[k])
    && Step(script, period, runs[k].state, polls[k]).1 == Pending
  }

  lemma {:induction false} StateAfterTheEnd<T>(
    script: Script<T>, period: nat, polls: seq<nat>, j: nat, m: nat, runs: seq<Run>)
    requires j < m < |runs| && Follows(script, period, runs, polls, j)
    requires Step(script, period, runs[j].state, polls[j]).1 == Ready(None)
    requires forall k: nat :: j < k < m ==> Waits(script, period, runs, polls, k)
    ensures runs[m].state
         == State(|script.arrivals|, if runs[j].state.timer.None? then Some(polls[j] + period) else None)
  {
    StepAnnounces(script, period, runs[j].state, polls[j]);
    for k := j + 1 to m
      invariant runs[k].state == runs[j + 1].state
    {
      assert Waits(script, period, runs, polls, k);
      StepWhenOver(script, period, runs[k].state, polls[k]);
    }
  }

  /** The poll `m` after the latest announcement, by poll `j`, is answered with the end once more, unless `j` announced
      it without a running timer: that poll has started one, and until it is over the answer is Pending. Whether a timer
      runs at the next announcement is thereby settled too: the two kinds of announcement alternate. */
  lemma {:induction false} AfterTheEndIff<T>(script: Script<T>, period: nat, polls: seq<nat>, j: nat, m: nat)
    requires NonDecreasing(polls) && j < m < |polls| && AnswerTo(script, period, polls, j) == Ready(None)
    requires forall i: nat :: j < i < m ==> PendingAt(script, period, polls, i)
    ensures var idle := RunOf(script, period, polls, j).state.timer.None?;
            && (RunOf(script, period, polls, m).state.timer.Some? <==> idle)
            && AnswerTo(script, period, polls, m)
            == if idle && polls[m] < polls[j] + period then Pending else Ready(None)
  {
    var runs := Trace(script, period, polls);
    EndIsTheEndOfTheSource(script, period, polls, j);
    TraceFollows(script, period, polls, j);
    forall k: nat | j < k < m ensures Waits(script, period, runs, polls, k) {
      TraceFollows(script, period, polls, k);
      assert PendingAt(script, period, polls, k);
    }
    StateAfterTheEnd(script, period, polls, j, m, runs);
    StepWhenOver(script, period, runs[m].state, polls[m]);
  }

  lemma {:induction false} StepAnnounces<T>(script: Script<T>, period: nat, s: State, now: nat)
    requires s.pos <= |script.arrivals| && Step(script, period, s, now).1 == Ready(None)
    ensures Step(script, period, s, now).0
         == State(|script.arrivals|, if s.timer.None? then Some(now + period) else None)
  {
  }

  lemma {:induction false} StepWhenOver<T>(script: Script<T>, period: nat, s: State, now: nat)
    requires s.pos == |script.arrivals| && script.ClosedBy(now)
    ensures var (next, answer) := Step(script, period, s, now);
            if s.timer.Some? && now < s.timer.value then answer == Pending && next == s else answer == Ready(None)
  {
  }

  predicate PassedOn(r: Run, i: nat) {
    exists e :: e in r.emitted && e.index == i
  }

  /** The last item is not passed on and never will be: a poll after the close that reads it sees the close as well. */
  predicate LastItemLost<T>(script: Script<T>, r: Run) {
    && script.arrivals != [] && !PassedOn(r, |script.arrivals| - 1)
    && (r.state.pos == |script.arrivals| || r.state.timer.Some? || r.state.pos + 1 < |script.arrivals|)
  }

  lemma {:induction false} LostStaysLost<T>(script: Script<T>, period: nat, r: Run, now: nat, next: Run)
    requires script.Valid() && script.ClosedBy(now) && r.state.pos <= |script.arrivals| && LastItemLost(script, r)
    requires next == Next(script, period, r, now)
    ensures LastItemLost(script, next)
  {
    script.ClosedMeansAll(now);
    script.FromArrived(r.state.pos, now);
    forall e | e in next.emitted ensures e.index != |script.arrivals| - 1 {
      assert e in r.emitted || e in Passed(Step(script, period, r.state, now).1, now);
    }
  }

  lemma {:induction false} LostForever<T>(
    script: Script<T>, period: nat, polls: seq<nat>, q: nat, m: nat, runs: seq<Run>)
    requires script.Valid() && q <= m < |runs| && LastItemLost(script, runs[q])
    requires forall k: nat :: q <= k < m ==> Follows(script, period, runs, polls, k) && script.ClosedBy(polls[k])
    ensures LastItemLost(script, runs[m])
  {
    for k := q to m
      invariant LastItemLost(script, runs[k])
    {
      assert Follows(script, period, runs, polls, k);
      LostStaysLost(script, period, runs[k], polls[k], runs[k + 1]);
    }
  }

  lemma {:induction false} LastItemLostForever<T>(
    script: Script<T>, period: nat, polls: seq<nat>, q: nat, m: nat, runs: seq<Run>)
    requires script.Valid() && NonDecreasing(polls) && q < m <= |polls| && script.ClosedBy(polls[q])
    requires |runs| == |polls| + 1 && forall k: nat :: k < |polls| ==> Follows(script, period, runs, polls, k)
    requires LastItemLost(script, runs[q])
    ensures LastItemLost(script, runs[m])
  {
    forall k: nat | q <= k < m ensures Follows(script, period, runs, polls, k) && script.ClosedBy(polls[k]) {
      assert polls[q] <= polls[k];
    }
    LostForever(script, period, polls, q, m, runs);
  }

  lemma {:induction false} PassedOnForever<T>(script: Script<T>, period: nat, polls: seq<nat>, q: nat, m: nat, i: nat)
    requires q <= m <= |polls| && PassedOn(RunOf(script, period, polls, q), i)
    ensures PassedOn(RunOf(script, period, polls, m), i)
  {
    if m > q {
      PassedOnForever(script, period, polls, q, m - 1, i);
      var e :| e in RunOf(script, period, polls, m - 1).emitted && e.index == i;
      assert e in RunOf(script, period, polls, m).emitted;
    }
  }

  /** What has been read when the source has not closed by the previous poll: the latest item is out, no later one. */
  lemma {:induction false} UpToDateUntilTheClose<T>(script: Script<T>, period: nat, polls: seq<nat>, q: nat)
    requires NonDecreasing(polls) && q < |polls| && (q > 0 ==> !script.ClosedBy(polls[q - 1]))
    ensures var r := RunOf(script, period, polls, q);
            forall i: nat :: i + 1 >= r.state.pos ==> (PassedOn(r, i) <==> i + 1 == r.state.pos)
  {
    var r := RunOf(script, period, polls, q);
    forall h | 0 <= h < q ensures AnswerTo(script, period, polls, h) != Ready(None) {
      EndIsTheEndOfTheSource(script, period, polls, h);
    }
    UpToDateUntilTheEnd(script, period, polls, q);
    OutputIsSpacedSubsequence(script, period, polls, q);
    if r.emitted != [] {
      assert r.emitted[|r.emitted| - 1] in r.emitted;
    }
  }

  /** Unlike debounce, throttle drops what it reads in the poll that sees the close. Let `q` be the first poll after the
      source has closed. The last item of the source is ever passed on iff, when `q` comes, it has been read already, or
      it is the next to be read and no timer runs. */
  lemma {:induction false} LastItemSurvivesIff<T>(script: Script<T>, period: nat, polls: seq<nat>, q: nat, m: nat)
    requires script.Valid() && NonDecreasing(polls) && q < m <= |polls| && script.arrivals != []
    requires script.ClosedBy(polls[q]) && (q > 0 ==> !script.ClosedBy(polls[q - 1]))
    ensures PassedOn(RunOf(script, period, polls, m), |script.arrivals| - 1) <==>
            var s := RunOf(script, period, polls, q).state;
            s.pos == |script.arrivals| || (s.pos + 1 == |script.arrivals| && s.timer.None?)
  {
    var last := |script.arrivals| - 1;
    var r := RunOf(script, period, polls, q);
    UpToDateUntilTheClose(script, period, polls, q);
    if r.state.pos == last + 1 {
      PassedOnForever(script, period, polls, q, m, last);
    } else if r.state.pos == last && r.state.timer.None? {
      assert Emission(polls[q], last) in RunOf(script, period, polls, q + 1).emitted;
      PassedOnForever(script, period, polls, q + 1, m, last);
    } else {
      forall k: nat | k < |polls| ensures Follows(script, period, Trace(script, period, polls), polls, k) {
        TraceFollows(script, period, polls, k);
      }
      LastItemLostForever(script, period, polls, q, m, Trace(script, period, polls));
    }
  }

  // ----- the schedules that realize the specification

  /** What is due once the timer set to `deadline` runs and `pos` items have been read. */
  function DueAfter<T>(script: Script<T>, period: nat, deadline: nat, pos: nat): seq<Emission>
    requires pos <= |script.arrivals|
    decreases |script.arrivals| - pos, 1
  {
    var latest := script.ArrivedFrom(pos, deadline);
    if latest == |script.arrivals| && script.ClosedBy(deadline) then []
    else if latest > pos then [Emission(deadline, latest - 1)] + DueAfter(script, period, deadline + period, latest)
    else DueWhenIdle(script, period, pos)
  }

  /** What is due when no timer runs: the next item at once, and so on. */
  function DueWhenIdle<T>(script: Script<T>, period: nat, pos: nat): seq<Emission>
    requires pos <= |script.arrivals|
    decreases |script.arrivals| - pos, 0
  {
    if pos == |script.arrivals| then []
    else
      var at := script.arrivals[pos].at;
      [Emission(at, pos)] + DueAfter(script, period, at + period, pos + 1)
  }

  /** What is still due. */
  function Due<T>(script: Script<T>, period: nat, s: State): seq<Emission>
    requires s.pos <= |script.arrivals|
  {
    if s.timer.Some? then DueAfter(script, period, s.timer.value, s.pos) else DueWhenIdle(script, period, s.pos)
  }

  /** Everything is read, or will be by a poll that sees the close. */
  predicate Finished<T>(script: Script<T>, s: State) {
    s.pos == |script.arrivals| || (s.timer.Some? && script.ClosedBy(s.timer.value))
  }

  /** What is due first, while something is. */
  lemma {:induction false} DueFirst<T>(script: Script<T>, period: nat, s: State)
    requires script.Valid() && s.pos <= |script.arrivals| && !Finished(script, s)
    ensures var next := script.arrivals[s.pos].at;
            if s.timer.None? || s.timer.value < next then
              Due(script, period, s)
           == [Emission(next, s.pos)] + DueAfter(script, period, next + period, s.pos + 1)
            else
              var d := s.timer.value;
              var latest := script.ArrivedFrom(s.pos, d);
              latest > s.pos &&
              Due(script, period, s) == [Emission(d, latest - 1)] + DueAfter(script, period, d + period, latest)
  {
    if s.timer.Some? {
      var d := s.timer.value;
      if d < script.arrivals[s.pos].at {
        assert script.ArrivedFrom(s.pos, d) == s.pos;
        assert DueAfter(script, period, d, s.pos) == DueWhenIdle(script, period, s.pos);
      } else {
        assert DueAfter(script, period, d, s.pos) != [];
      }
    }
  }

  lemma {:induction false} NothingDueIff<T>(script: Script<T>, period: nat, s: State)
    requires script.Valid() && s.pos <= |script.arrivals|
    ensures Due(script, period, s) == [] <==> Finished(script, s)
  {
    if !Finished(script, s) {
      DueFirst(script, period, s);
    } else if s.timer.Some? {
      if script.ClosedBy(s.timer.value) {
        script.ClosedMeansAll(s.timer.value);
        script.FromArrived(s.pos, s.timer.value);
      } else {
        assert script.ArrivedFrom(s.pos, s.timer.value) == s.pos;
        assert DueWhenIdle(script, period, s.pos) == [];
      }
    }
  }

  /** A poll in state `s` does not come too late. Without a timer it has to come by the next arrival; with one by the
      deadline, or else by the next arrival, if that is later than the deadline. At such an arrival it must find that
      item only, and not the close. */
  predicate Timely<T>(script: Script<T>, s: State, now: nat) {
    || Finished(script, s)
    || (s.pos < |script.arrivals| &&
        var next := script.arrivals[s.pos].at;
        || now < next
        || (s.timer.None? && now == next)
        || (s.timer.Some? && now <= s.timer.value)
        || (now == next && script.ArrivedFrom(s.pos, now) == s.pos + 1 && !script.ClosedBy(now)))
  }

  /** A timely poll that reads nothing leaves what is due. */
  lemma {:induction false} TimelyWait<T>(script: Script<T>, period: nat, s: State, now: nat, next: State)
    requires script.Valid() && s.pos <= |script.arrivals| && Timely(script, s, now) && !Finished(script, s)
    requires next == Step(script, period, s, now).0 && next.pos == s.pos
    ensures Step(script, period, s, now).1 == Pending && Due(script, period, next) == Due(script, period, s)
  {
    if next != s {
      DueFirst(script, period, s);
      DueFirst(script, period, next);
    }
  }

  lemma {:induction false} ReadAtDeadline<T>(script: Script<T>, period: nat, s: State, now: nat, next: State)
    requires script.Valid() && s.pos <= |script.arrivals| && !Finished(script, s) && s.timer == Some(now)
    requires next == Step(script, period, s, now).0 && next.pos > s.pos
    ensures Step(script, period, s, now) == (State(next.pos, Some(now + period)), Ready(Some(next.pos - 1)))
    ensures Due(script, period, s) == [Emission(now, next.pos - 1)] + DueAfter(script, period, now + period, next.pos)
  {
    DueFirst(script, period, s);
  }

  lemma {:induction false} ReadAtArrival<T>(script: Script<T>, period: nat, s: State, now: nat, next: State)
    requires script.Valid() && s.pos < |script.arrivals| && now == script.arrivals[s.pos].at && !Finished(script, s)
    requires s.timer.Some? ==>
               s.timer.value < now && script.ArrivedFrom(s.pos, now) == s.pos + 1 && !script.ClosedBy(now)
    requires next == Step(script, period, s, now).0
    ensures Step(script, period, s, now) == (State(s.pos + 1, Some(now + period)), Ready(Some(s.pos)))
    ensures Due(script, period, s) == [Emission(now, s.pos)] + DueAfter(script, period, now + period, s.pos + 1)
  {
    DueFirst(script, period, s);
  }

  /** A timely poll that reads something passes on what is due first. */
  lemma {:induction false} TimelyRead<T>(script: Script<T>, period: nat, s: State, now: nat, next: State)
    requires script.Valid() && s.pos <= |script.arrivals| && Timely(script, s, now) && !Finished(script, s)
    requires next == Step(script, period, s, now).0 && next.pos > s.pos
    ensures next.timer == Some(now + period) && Step(script, period, s, now).1 == Ready(Some(next.pos - 1))
    ensures Due(script, period, s) == [Emission(now, next.pos - 1)] + DueAfter(script, period, now + period, next.pos)
  {
    if s.timer == Some(now) {
      ReadAtDeadline(script, period, s, now, next);
    } else {
      ReadAtArrival(script, period, s, now, next);
    }
  }

  /** A timely poll passes on the first of what is due, or nothing. */
  lemma {:induction false} TimelyStepIsExact<T>(
    script: Script<T>, period: nat, s: State, now: nat, next: State, answer: Poll<Option<nat>>)
    requires script.Valid() && s.pos <= |script.arrivals| && Timely(script, s, now)
    requires (next, answer) == Step(script, period, s, now)
    ensures Due(script, period, s) == Passed(answer, now) + Due(script, period, next)
  {
    if Finished(script, s) {
      FinishedStep(script, period, s, now);
      NothingDueIff(script, period, s);
      NothingDueIff(script, period, next);
    } else if next.pos > s.pos {
      TimelyRead(script, period, s, now, next);
    } else {
      StepReadsOn(script, period, s, now);
      TimelyWait(script, period, s, now, next);
    }
  }

  lemma {:induction false} StepReadsOn<T>(script: Script<T>, period: nat, s: State, now: nat)
    requires s.pos <= |script.arrivals|
    ensures s.pos <= Step(script, period, s, now).0.pos
  {
  }

  lemma {:induction false} FinishedStep<T>(script: Script<T>, period: nat, s: State, now: nat)
    requires script.Valid() && s.pos <= |script.arrivals| && Finished(script, s)
    ensures var (next, answer) := Step(script, period, s, now); Finished(script, next) && Passed(answer, now) == []
  {
    if s.timer.Some? && script.ClosedBy(s.timer.value) && s.timer.value <= now {
      script.ClosedMeansAll(now);
      script.FromArrived(s.pos, now);
    }
  }

  /** What has been passed on, and what is still due. */
  function Output<T>(script: Script<T>, period: nat, r: Run): seq<Emission>
    requires r.state.pos <= |script.arrivals|
  {
    r.emitted + Due(script, period, r.state)
  }

  lemma {:induction false} NextIsExact<T>(script: Script<T>, period: nat, r: Run, now: nat, next: Run)
    requires script.Valid() && r.state.pos <= |script.arrivals| && Timely(script, r.state, now)
    requires next == Next(script, period, r, now)
    ensures Output(script, period, next) == Output(script, period, r)
  {
    var (s, answer) := Step(script, period, r.state, now);
    TimelyStepIsExact(script, period, r.state, now, s, answer);
    var passed, due := Passed(answer, now), Due(script, period, s);
    assert r.emitted + (passed + due) == r.emitted + passed + due;
  }

  predicate TimelyAt<T>(script: Script<T>, period: nat, polls: seq<nat>, k: nat) {
    k < |polls| ==> Timely(script, RunOf(script, period, polls, k).state, polls[k])
  }

  /** No poll comes too late, and at the end nothing is due any more. */
  ghost predicate Covers<T>(script: Script<T>, period: nat, polls: seq<nat>) {
    && (forall k: nat :: TimelyAt(script, period, polls, k))
    && Finished(script, RunOf(script, period, polls, |polls|).state)
  }

  lemma {:induction false} RunIsExact<T>(script: Script<T>, period: nat, polls: seq<nat>, m: nat, r: Run)
    requires script.Valid() && m <= |polls| && forall k: nat :: k < m ==> TimelyAt(script, period, polls, k)
    requires r == RunOf(script, period, polls, m)
    ensures Output(script, period, r) == DueWhenIdle(script, period, 0)
  {
    if m > 0 {
      var before := RunOf(script, period, polls, m - 1);
      RunIsExact(script, period, polls, m - 1, before);
      assert TimelyAt(script, period, polls, m - 1);
      NextIsExact(script, period, before, polls[m - 1], r);
    } else {
      assert Output(script, period, r) == [] + DueWhenIdle(script, period, 0);
    }
  }

  // ----- a poll that is not timely

  /** `longer` begins with `emitted` and goes on, if at all, with items passed on from `now` on. */
  ghost predicate GoesOn(emitted: seq<Emission>, longer: seq<Emission>, now: nat) {
    emitted <= longer && forall e :: |emitted| <= e < |longer| ==> longer[e].time >= now
  }

  lemma {:induction false} NextGoesOn<T>(
    script: Script<T>, period: nat, emitted: seq<Emission>, r: Run, now: nat, next: Run, from: nat)
    requires r.state.pos <= |script.arrivals| && next == Next(script, period, r, now)
    requires GoesOn(emitted, r.emitted, from) && from <= now
    ensures GoesOn(emitted, next.emitted, from)
  {
  }

  lemma {:induction false} RunGoesOn<T>(
    script: Script<T>, period: nat, polls: seq<nat>, k: nat, m: nat, from: nat, r: Run)
    requires k <= m <= |polls| && forall h :: k <= h < m ==> from <= polls[h]
    requires r == RunOf(script, period, polls, m)
    ensures GoesOn(RunOf(script, period, polls, k).emitted, r.emitted, from)
  {
    if m > k {
      var before := RunOf(script, period, polls, m - 1);
      RunGoesOn(script, period, polls, k, m - 1, from, before);
      NextGoesOn(script, period, RunOf(script, period, polls, k).emitted, before, polls[m - 1], r, from);
    }
  }

  /** A poll that comes too late passes on something else than what is due first, or announces the end; and what is due
      first is not due after it. */
  lemma {:induction false} LateStep<T>(script: Script<T>, period: nat, s: State, now: nat)
    requires script.Valid() && s.pos <= |script.arrivals| && !Timely(script, s, now)
    ensures var due, answer := Due(script, period, s), Step(script, period, s, now).1;
            && due != [] && due[0].time <= now
            && (due[0].time == now ==>
                  answer == Ready(None) || (answer.Ready? && answer.value.Some? && answer.value.value != due[0].index))
  {
    DueFirst(script, period, s);
    if script.ClosedBy(now) {
      script.ClosedMeansAll(now);
      script.FromArrived(s.pos, now);
    }
  }

  lemma {:induction false} LateIsNotExact<T>(
    script: Script<T>, period: nat, r: Run, now: nat, next: Run, all: seq<Emission>)
    requires script.Valid() && r.state.pos <= |script.arrivals| && !Timely(script, r.state, now)
    requires next == Next(script, period, r, now)
    requires GoesOn(r.emitted, all, now) && next.emitted <= all
    requires Step(script, period, r.state, now).1 == Ready(None) ==> all == r.emitted
    ensures all != r.emitted + Due(script, period, r.state)
  {
    LateStep(script, period, r.state, now);
    NotExact(r.emitted, Due(script, period, r.state), next.emitted, all, now);
  }

  lemma {:induction false} RunGoesOnFrom<T>(script: Script<T>, period: nat, polls: seq<nat>, k: nat, last: Run)
    requires NonDecreasing(polls) && k < |polls| && last == RunOf(script, period, polls, |polls|)
    ensures GoesOn(RunOf(script, period, polls, k).emitted, last.emitted, polls[k])
    ensures RunOf(script, period, polls, k + 1).emitted <= last.emitted
  {
    RunGoesOn(script, period, polls, k, |polls|, polls[k], last);
    RunGoesOn(script, period, polls, k + 1, |polls|, polls[k], last);
  }

  lemma {:induction false} LateRunIsNotExact<T>(
    script: Script<T>, period: nat, polls: seq<nat>, k: nat, r: Run, last: Run)
    requires script.Valid() && NonDecreasing(polls) && k < |polls| && !Timely(script, r.state, polls[k])
    requires r == RunOf(script, period, polls, k) && last == RunOf(script, period, polls, |polls|)
    ensures last.emitted != Output(script, period, r)
  {
    RunGoesOnFrom(script, period, polls, k, last);
    if AnswerTo(script, period, polls, k) == Ready(None) {
      NothingAfterTheEnd(script, period, polls, k, |polls|);
    }
    LateIsNotExact(script, period, r, polls[k], RunOf(script, period, polls, k + 1), last.emitted);
  }

  /** Two ways to go on after `emitted` that differ at once. */
  lemma {:induction false} NotExact(
    emitted: seq<Emission>, due: seq<Emission>, next: seq<Emission>, all: seq<Emission>, now: nat)
    requires GoesOn(emitted, all, now) && due != [] && due[0].time <= now && next <= all
    requires due[0].time == now ==>
               all == emitted || (|next| == |emitted| + 1 && emitted <= next && next[|emitted|].index != due[0].index)
    ensures all != emitted + due
  {
    assert (emitted + due)[|emitted|] == due[0];
  }

  /** The output is the specified one, item for item and time for time, iff no poll comes too late and nothing is due at
      the end. */
  lemma {:induction false} ScheduleIsExactIff<T>(script: Script<T>, period: nat, polls: seq<nat>)
    requires script.Valid() && NonDecreasing(polls)
    ensures RunOf(script, period, polls, |polls|).emitted == DueWhenIdle(script, period, 0) <==>
            Covers(script, period, polls)
  {
    if k: nat :| !TimelyAt(script, period, polls, k) {
      var first := FirstLate(script, period, polls, k);
      RunIsExact(script, period, polls, first, RunOf(script, period, polls, first));
      LateRunIsNotExact(script, period, polls, first, RunOf(script, period, polls, first),
                        RunOf(script, period, polls, |polls|));
    } else {
      var r := RunOf(script, period, polls, |polls|);
      RunIsExact(script, period, polls, |polls|, r);
      NothingDueIff(script, period, r.state);
    }
  }

  lemma {:induction false} FirstLate<T>(script: Script<T>, period: nat, polls: seq<nat>, k: nat) returns (first: nat)
    requires !TimelyAt(script, period, polls, k)
    ensures first < |polls| && !TimelyAt(script, period, polls, first)
    ensures forall h: nat :: h < first ==> TimelyAt(script, period, polls, h)
  {
    if h: nat :| h < k && !TimelyAt(script, period, polls, h) {
      first := FirstLate(script, period, polls, h);
    } else {
      first := k;
    }
  }

  /** Under a covering schedule the output is the specified one. */
  lemma {:induction false} CoveringScheduleIsExact<T>(script: Script<T>, period: nat, polls: seq<nat>)
    requires script.Valid() && NonDecreasing(polls) && Covers(script, period, polls)
    ensures RunOf(script, period, polls, |polls|).emitted == DueWhenIdle(script, period, 0)
  {
    ScheduleIsExactIff(script, period, polls);
  }

  // ----- an executor's schedule covers

  /** Poll `k` or a later one is at the given time. */
  predicate PolledFrom(polls: seq<nat>, k: nat, time: nat) {
    exists q :: k <= q < |polls| && polls[q] == time
  }

  /** What wakes the operator in state `s`: a running timer at its deadline, and without one the stream at the next
      arrival. */
  predicate Wakes<T>(script: Script<T>, polls: seq<nat>, k: nat, s: State) {
    if s.timer.Some? then PolledFrom(polls, k, s.timer.value)
    else s.pos < |script.arrivals| ==> PolledFrom(polls, k, script.arrivals[s.pos].at)
  }

  predicate WakesAt<T>(script: Script<T>, period: nat, polls: seq<nat>, k: nat) {
    k <= |polls| ==>
      var s := RunOf(script, period, polls, k).state;
      Finished(script, s) || Wakes(script, polls, k, s)
  }

  lemma {:induction false} WokenIsTimely<T>(script: Script<T>, polls: seq<nat>, k: nat, s: State)
    requires NonDecreasing(polls) && k < |polls| && s.pos <= |script.arrivals|
    requires Finished(script, s) || Wakes(script, polls, k, s)
    ensures Timely(script, s, polls[k])
  {
  }

  /** A schedule that polls whenever something wakes the operator, for as long as something is due, covers. */
  lemma {:induction false} WakeUpsCover<T>(script: Script<T>, period: nat, polls: seq<nat>)
    requires script.Valid() && NonDecreasing(polls) && forall k: nat :: WakesAt(script, period, polls, k)
    ensures Covers(script, period, polls)
  {
    forall k: nat ensures TimelyAt(script, period, polls, k) {
      assert WakesAt(script, period, polls, k);
      if k < |polls| {
        WokenIsTimely(script, polls, k, RunOf(script, period, polls, k).state);
      }
    }
    assert WakesAt(script, period, polls, |polls|);
    var s := RunOf(script, period, polls, |polls|).state;
    assert Finished(script, s) || Wakes(script, polls, |polls|, s);
  }

  /** The contrast with debounce in one run: with a period of 50, items at 0 and 10 and a close at 20, only the first
      item is passed on. The polls are those that something wakes. */
  lemma {:induction false} TheLastItemCanBeLost(script: Script<char>, polls: seq<nat>)
    requires script == Script([Arrival(0, 'a'), Arrival(10, 'b')], Some(20)) && polls == [0, 50]
    ensures script.Valid() && NonDecreasing(polls) && Covers(script, 50, polls)
    ensures RunOf(script, 50, polls, 2).emitted == [Emission(0, 0)]
  {
    var r1 := Run(State(1, Some(50)), [Emission(0, 0)]);
    assert RunOf(script, 50, polls, 0) == Run(START, []);
    assert RunOf(script, 50, polls, 1) == r1;
    assert script.ArrivedFrom(1, 50) == 2;
    assert RunOf(script, 50, polls, 2) == Run(State(2, None), [Emission(0, 0)]);
  }
}
