/** Time, streams and polls, as the stream operators see them. A stream is a script of timed arrivals that may end
    in a close; polling it at a time yields what has arrived by then. A timer is its deadline: a poll at `now` finds
    it ready iff `now` has reached it. */
module TimedSource {
  import opened Options

  datatype Poll<+T> = Pending | Ready(value: T)

  datatype Arrival<+T> = Arrival(at: nat, item: T)

  datatype Script<+T> = Script(arrivals: seq<Arrival<T>>, closeAt: Option<nat>) {
    /** Arrivals come in order of time, none after the close. */
    ghost predicate Valid() {
      && (forall i, j :: 0 <= i < j < |arrivals| ==> arrivals[i].at <= arrivals[j].at)
      && (closeAt.Some? ==> forall i :: 0 <= i < |arrivals| ==> arrivals[i].at <= closeAt.value)
    }

    predicate ClosedBy(now: nat) {
      closeAt.Some? && closeAt.value <= now
    }

    /** The number of items that have arrived by `now`. */
    function Arrived(now: nat): (n: nat)
      ensures n <= |arrivals|
      ensures forall i :: 0 <= i < n ==> arrivals[i].at <= now
      ensures n < |arrivals| ==> arrivals[n].at > now
    {
      ArrivedFrom(0, now)
    }

    function ArrivedFrom(k: nat, now: nat): (n: nat)
      requires k <= |arrivals|
      ensures k <= n <= |arrivals|
      ensures forall i :: k <= i < n ==> arrivals[i].at <= now
      ensures n < |arrivals| ==> arrivals[n].at > now
      decreases |arrivals| - k
    {
      if k < |arrivals| && arrivals[k].at <= now then ArrivedFrom(k + 1, now) else k
    }

    lemma ArrivedIs(now: nat, n: nat)
      requires Valid() && n <= |arrivals|
      requires forall i :: 0 <= i < n ==> arrivals[i].at <= now
      requires n < |arrivals| ==> arrivals[n].at > now
      ensures Arrived(now) == n
    {
    }

    lemma ClosedMeansAll(now: nat)
      requires Valid() && ClosedBy(now)
      ensures Arrived(now) == |arrivals|
    {
    }

    lemma ArrivedMonotone(earlier: nat, later: nat)
      requires Valid() && earlier <= later
      ensures Arrived(earlier) <= Arrived(later)
    {
    }

    lemma FromArrived(k: nat, now: nat)
      requires Valid() && k <= Arrived(now)
      ensures ArrivedFrom(k, now) == Arrived(now)
    {
    }
  }

  /** A fused stream that plays a script. */
  class Source<T> {
    const script: Script<T>
    var pos: nat

    ghost predicate Valid()
      reads this
    {
      script.Valid() && pos <= |script.arrivals|
    }

    constructor (script: Script<T>)
      requires script.Valid()
      ensures Valid() && this.script == script && pos == 0
    {
      this.script := script;
      pos := 0;
    }

    method PollNext(now: nat) returns (r: Poll<Option<T>>)
      requires Valid()
      modifies this
      ensures Valid()
      ensures old(pos) < |script.arrivals| && script.arrivals[old(pos)].at <= now ==>
                r == Ready(Some(script.arrivals[old(pos)].item)) && pos == old(pos) + 1
      ensures old(pos) < |script.arrivals| && script.arrivals[old(pos)].at > now ==> r == Pending && pos == old(pos)
      ensures old(pos) == |script.arrivals| ==>
                pos == old(pos) && r == if script.ClosedBy(now) then Ready(None) else Pending
    {
      if pos < |script.arrivals| && script.arrivals[pos].at <= now {
        r := Ready(Some(script.arrivals[pos].item));
        pos := pos + 1;
      } else if pos == |script.arrivals| && script.ClosedBy(now) {
        r := Ready(None);
      } else {
        r := Pending;
      }
    }
  }

  /** The clock does not run backwards. */
  predicate NonDecreasing(polls: seq<nat>) {
    forall i, j :: 0 <= i < j < |polls| ==> polls[i] <= polls[j]
  }

  /** An operator passed on item `index` at time `time`. */
  datatype Emission = Emission(time: nat, index: nat)

  /** The item of an answer, if there is one. */
  function Answered<T>(answer: Poll<Option<T>>): seq<T> {
    if answer.Ready? && answer.value.Some? then [answer.value.value] else []
  }

  /** The items are those that were passed on, in order. */
  ghost predicate ItemsMatch<T>(script: Script<T>, items: seq<T>, emitted: seq<Emission>) {
    && |items| == |emitted|
    && forall e :: 0 <= e < |emitted| ==>
         emitted[e].index < |script.arrivals| && items[e] == script.arrivals[emitted[e].index].item
  }
}
