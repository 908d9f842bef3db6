/** Saving the open windows, and opening windows from a saved session or a launch configuration. */
module WindowRestore {
  import opened Options

  datatype Snapshot<T> = Snapshot(quakeMode: bool, tabs: seq<T>)

  datatype AppState<T> = AppState(windows: seq<Snapshot<T>>, activeWindowIndex: Option<nat>)

  /** A window template is a value of type `W`. */
  datatype LaunchConfig<W> = LaunchConfig(windows: seq<W>, activeWindowIndex: Option<nat>)

  datatype Source<T, W> = Restored(snapshot: Snapshot<T>) | FromTemplate(template: W) | Empty

  datatype Window<T, W> = Window(source: Source<T, W>, hidden: bool)

  // ----- filtering and positions

  function Filter<X>(xs: seq<X>, keep: X -> bool): (kept: seq<X>)
    ensures |kept| <= |xs|
  {
    if xs == [] then []
    else
      var last := xs[|xs| - 1];
      Filter(xs[..|xs| - 1], keep) + if keep(last) then [last] else []
  }

  /** Where the kept elements stand in the whole sequence. */
  function Positions<X>(xs: seq<X>, keep: X -> bool): (at: seq<nat>)
    ensures |at| == |Filter(xs, keep)|
  {
    if xs == [] then []
    else Positions(xs[..|xs| - 1], keep) + if keep(xs[|xs| - 1]) then [|xs| - 1] else []
  }

  lemma {:induction false} PositionsPointAtTheKept<X>(xs: seq<X>, keep: X -> bool, j: nat)
    requires j < |Positions(xs, keep)|
    ensures j <= Positions(xs, keep)[j] < |xs| && xs[Positions(xs, keep)[j]] == Filter(xs, keep)[j]
  {
    var init := xs[..|xs| - 1];
    if j < |Positions(init, keep)| {
      PositionsPointAtTheKept(init, keep, j);
    }
  }

  predicate AllKept<X>(xs: seq<X>, keep: X -> bool) {
    forall i :: 0 <= i < |xs| ==> keep(xs[i])
  }

  lemma {:induction false} FilterAll<X>(xs: seq<X>, keep: X -> bool)
    ensures |Filter(xs, keep)| == |xs| <==> AllKept(xs, keep)
    ensures |Filter(xs, keep)| == |xs| ==> Filter(xs, keep) == xs
  {
    if xs != [] {
      FilterAll(xs[..|xs| - 1], keep);
    }
  }

  /** The last kept element is `xs[r]` iff it is kept and nothing after it is. */
  lemma {:induction false} LastPositionIff<X>(xs: seq<X>, keep: X -> bool, r: nat)
    requires r < |xs|
    ensures (Positions(xs, keep) != [] && Positions(xs, keep)[|Positions(xs, keep)| - 1] == r) <==>
            keep(xs[r]) && Filter(xs[r + 1..], keep) == []
  {
    var last := |xs| - 1;
    var init := xs[..last];
    if r < last {
      LastPositionIff(init, keep, r);
      assert xs[r + 1..][..last - r - 1] == init[r + 1..];
    } else {
      assert xs[r + 1..] == [];
      if Positions(init, keep) != [] {
        PositionsPointAtTheKept(init, keep, |Positions(init, keep)| - 1);
      }
    }
  }

  lemma {:induction false} PositionsIncrease<X>(xs: seq<X>, keep: X -> bool, j: nat, k: nat)
    requires j < k < |Positions(xs, keep)|
    ensures Positions(xs, keep)[j] < Positions(xs, keep)[k]
  {
    var init := xs[..|xs| - 1];
    if k < |Positions(init, keep)| {
      PositionsIncrease(init, keep, j, k);
    } else {
      PositionsPointAtTheKept(init, keep, j);
    }
  }

  lemma {:induction false} KeptAt<X>(xs: seq<X>, keep: X -> bool, j: nat)
    requires j < |Positions(xs, keep)|
    ensures Positions(xs, keep)[j] < |xs| && keep(xs[Positions(xs, keep)[j]])
  {
    PositionsPointAtTheKept(xs, keep, j);
    FilterKeepsMembers(xs, keep);
    assert Filter(xs, keep)[j] in Filter(xs, keep);
  }

  /** The kept elements before a kept one, that one, and the kept elements after it. */
  lemma {:induction false} PositionOfKept<X>(xs: seq<X>, keep: X -> bool, i: nat)
    requires i < |xs| && keep(xs[i])
    ensures Filter(xs, keep) == Filter(xs[..i], keep) + [xs[i]] + Filter(xs[i + 1..], keep)
    ensures Positions(xs, keep)[|Filter(xs[..i], keep)|] == i
  {
    var last := |xs| - 1;
    if i < last {
      PositionOfKept(xs[..last], keep, i);
      assert xs[..last][..i] == xs[..i];
      assert xs[i + 1..][..last - i - 1] == xs[..last][i + 1..];
    } else {
      assert xs[i + 1..] == [];
    }
  }

  lemma {:induction false} FilterOfConcat<X>(a: seq<X>, b: seq<X>, keep: X -> bool)
    ensures Filter(a + b, keep) == Filter(a, keep) + Filter(b, keep)
  {
    if b == [] {
      assert a + b == a;
    } else {
      assert (a + b)[..|a + b| - 1] == a + b[..|b| - 1];
      FilterOfConcat(a, b[..|b| - 1], keep);
    }
  }

  // ----- opening windows

  predicate IsNormal<T>(s: Snapshot<T>) { !s.quakeMode }

  predicate IsQuake<T>(s: Snapshot<T>) { s.quakeMode }

  predicate IsVisible<T, W>(w: Window<T, W>) { !w.hidden }

  predicate IsHidden<T, W>(w: Window<T, W>) { w.hidden }

  /** The index is that of a normal window. */
  predicate NamesNormal<T>(ss: seq<Snapshot<T>>, active: Option<nat>) {
    active.Some? && active.value < |ss| && IsNormal(ss[active.value])
  }

  function Shown<T, W>(ss: seq<Snapshot<T>>): seq<Window<T, W>> {
    seq(|ss|, i requires 0 <= i < |ss| => Window(Restored(ss[i]), false))
  }

  /** The windows that the loop over the snapshots opens, before it has seen `Some(active)`. */
  function Opened<T, W>(ss: seq<Snapshot<T>>, active: Option<nat>, onWindows: bool): seq<Window<T, W>> {
    if ss == [] then []
    else
      var idx := |ss| - 1;
      Opened<T, W>(ss[..idx], active, onWindows) + OpenedFor(ss[idx], active == Some(idx), onWindows)
  }

  /** The window that the loop opens for one snapshot, if any. */
  function OpenedFor<T, W>(s: Snapshot<T>, active: bool, onWindows: bool): seq<Window<T, W>> {
    if s.quakeMode then (if onWindows then [] else [Window(Restored(s), true)])
    else if active then []
    else [Window(Restored(s), false)]
  }

  /** All windows that restoring a session opens. */
  function Plan<T, W>(ss: seq<Snapshot<T>>, active: Option<nat>, onWindows: bool): seq<Window<T, W>> {
    Opened<T, W>(ss, active, onWindows) +
    (if Filter(ss, IsNormal) == [] then [Window(Empty, false)] else []) +
    (if NamesNormal(ss, active) then [Window(Restored(ss[active.value]), false)] else [])
  }

  /** The hotkey window after windows with ids from `base` on were opened: the last hidden one. */
  function QuakeAfter<T, W>(before: Option<nat>, base: nat, ws: seq<Window<T, W>>): Option<nat> {
    if ws == [] then before
    else if ws[|ws| - 1].hidden then Some(base + |ws| - 1)
    else QuakeAfter(before, base, ws[..|ws| - 1])
  }

  class App<T, W> {
    /** All windows opened so far; the id of a window is its index. */
    var windows: seq<Window<T, W>>
    /** The id of the hotkey window. */
    var quake: Option<nat>
    /** The templates opened inside the active window. */
    var reused: seq<W>

    constructor ()
      ensures windows == [] && quake == None && reused == []
    {
      windows, quake, reused := [], None, [];
    }

    method AddWindow(source: Source<T, W>) returns (id: nat)
      modifies this`windows
      ensures id == |old(windows)| && windows == old(windows) + [Window(source, false)]
    {
      id := |windows|;
      windows := windows + [Window(source, false)];
    }

    method HideWindow(id: nat)
      requires id < |windows|
      modifies this`windows
      ensures windows == old(windows)[id := old(windows)[id].(hidden := true)]
    {
      windows := windows[id := windows[id].(hidden := true)];
    }

    /** The body of the loop of `open_from_restored`, as far as it opens windows. */
    method OpenSnapshot(s: Snapshot<T>, isActive: bool, onWindows: bool)
      modifies this`windows, this`quake
      ensures windows == old(windows) + OpenedFor(s, isActive, onWindows)
      ensures quake == if s.quakeMode && !onWindows then Some(|old(windows)|) else old(quake)
    {
      if s.quakeMode {
        if onWindows {
          return;
        }
        var id := AddWindow(Restored(s));
        HideWindow(id);
        quake := Some(id);
      } else if !isActive {
        var _ := AddWindow(Restored(s));
      }
    }

    /** The loop of `open_from_restored`. */
    method OpenSnapshots(ss: seq<Snapshot<T>>, active: Option<nat>, onWindows: bool)
      returns (activeIndex: Option<nat>, normalWindowCount: nat)
      modifies this`windows, this`quake
      ensures windows == old(windows) + Opened(ss, active, onWindows)
      ensures quake == QuakeAfter(old(quake), |old(windows)|, Opened<T, W>(ss, active, onWindows))
      ensures normalWindowCount == |Filter(ss, IsNormal)|
      ensures activeIndex == if NamesNormal(ss, active) then active else None
    {
      activeIndex, normalWindowCount := None, 0;
      for idx := 0 to |ss|
        invariant SoFar(ss[..idx], active, onWindows, old(windows), windows, old(quake), quake)
        invariant Counted(ss[..idx], active, normalWindowCount, activeIndex)
      {
        ghost var before, quakeBefore, countBefore, indexBefore := windows, quake, normalWindowCount, activeIndex;
        OpenSnapshot(ss[idx], active == Some(idx), onWindows);
        if !ss[idx].quakeMode {
          normalWindowCount := normalWindowCount + 1;
          if active == Some(idx) {
            activeIndex := Some(idx);
          }
        }
        NextCounted(ss, idx, active, countBefore, normalWindowCount, indexBefore, activeIndex);
        NextOpened(ss, idx, active, onWindows, old(windows), before, windows, old(quake), quakeBefore, quake);
      }
      assert ss[..|ss|] == ss;
    }

    method OpenFromRestored(appState: Option<AppState<T>>, restoreSession: bool, onWindows: bool)
      modifies this`windows, this`quake
      ensures appState.None? || !restoreSession ==> windows == old(windows) && quake == old(quake)
      ensures appState.Some? && restoreSession ==>
                var ss, active := appState.value.windows, appState.value.activeWindowIndex;
                && windows == old(windows) + Plan(ss, active, onWindows)
                && quake == QuakeAfter(old(quake), |old(windows)|, Opened<T, W>(ss, active, onWindows))
    {
      if appState.Some? && restoreSession {
        var ss, active := appState.value.windows, appState.value.activeWindowIndex;
        var activeIndex, normalWindowCount := OpenSnapshots(ss, active, onWindows);
        ghost var looped := windows;
        if normalWindowCount == 0 {
          var _ := AddWindow(Empty);
        }
        ghost var filled := windows;
        if activeIndex.Some? {
          var _ := AddWindow(Restored(ss[activeIndex.value]));
        }
        PlanOpened(ss, active, onWindows, old(windows), looped, filled, windows);
      }
    }

    method OpenLaunchConfig(config: LaunchConfig<W>, openInActiveWindow: bool, hasActiveWorkspace: bool)
      modifies this`windows, this`reused
      ensures config.windows == [] ==> windows == old(windows) + [Window(Empty, false)] && reused == old(reused)
      ensures |config.windows| == 1 && openInActiveWindow && hasActiveWorkspace ==>
                windows == old(windows) && reused == old(reused) + config.windows
      ensures |config.windows| > 1 || (|config.windows| == 1 && !(openInActiveWindow && hasActiveWorkspace)) ==>
                && windows == old(windows) + Templates(ActiveLast(config.windows, config.activeWindowIndex))
                && reused == old(reused)
    {
      var ts, active := config.windows, config.activeWindowIndex;
      if ts == [] {
        var _ := AddWindow(Empty);
      } else if openInActiveWindow && |ts| == 1 && hasActiveWorkspace {
        reused := reused + [ts[0]];
      } else {
        var activeIndex := None;
        for idx := 0 to |ts|
          invariant reused == old(reused)
          invariant windows == old(windows) + Templates(Others(ts[..idx], active))
          invariant activeIndex == if active.Some? && active.value < idx then active else None
        {
          ghost var before := Others(ts[..idx], active);
          OthersNext(ts, active, idx);
          if active == Some(idx) {
            activeIndex := Some(idx);
          } else {
            var _ := AddWindow(FromTemplate(ts[idx]));
            assert Templates<T, W>(before + [ts[idx]]) == Templates(before) + [Window(FromTemplate(ts[idx]), false)];
          }
        }
        assert ts[..|ts|] == ts;
        if activeIndex.Some? {
          ghost var others := Others(ts, active);
          assert Templates<T, W>(others + [ts[active.value]])
              == Templates(others) + [Window(FromTemplate(ts[active.value]), false)];
          var _ := AddWindow(FromTemplate(ts[activeIndex.value]));
        }
      }
    }
  }

  /** The windows opened for some snapshots, and the hotkey window after that. */
  ghost predicate SoFar<T, W>(
    ss: seq<Snapshot<T>>, active: Option<nat>, onWindows: bool, first: seq<Window<T, W>>, now: seq<Window<T, W>>,
    quakeFirst: Option<nat>, quakeNow: Option<nat>)
  {
    && now == first + Opened(ss, active, onWindows)
    && quakeNow == QuakeAfter(quakeFirst, |first|, Opened<T, W>(ss, active, onWindows))
  }

  /** The normal ones among some snapshots are counted, and the active one is found if it is normal. */
  ghost predicate Counted<T>(ss: seq<Snapshot<T>>, active: Option<nat>, count: nat, activeIndex: Option<nat>) {
    count == |Filter(ss, IsNormal)| && activeIndex == if NamesNormal(ss, active) then active else None
  }

  lemma {:induction false} NextCounted<T>(
    ss: seq<Snapshot<T>>, idx: nat, active: Option<nat>, count: nat, next: nat,
    index: Option<nat>, nextIndex: Option<nat>)
    requires idx < |ss| && Counted(ss[..idx], active, count, index)
    requires next == (if ss[idx].quakeMode then count else count + 1)
    requires nextIndex == (if !ss[idx].quakeMode && active == Some(idx) then Some(idx) else index)
    ensures Counted(ss[..idx + 1], active, next, nextIndex)
  {
    assert ss[..idx + 1][..idx] == ss[..idx];
  }

  /** One pass of the loop over the snapshots: `now` and `quakeNow` follow from `before` and `quakeBefore`. */
  lemma {:induction false} NextOpened<T, W>(
    ss: seq<Snapshot<T>>, idx: nat, active: Option<nat>, onWindows: bool,
    first: seq<Window<T, W>>, before: seq<Window<T, W>>, now: seq<Window<T, W>>,
    quakeFirst: Option<nat>, quakeBefore: Option<nat>, quakeNow: Option<nat>)
    requires idx < |ss| && SoFar(ss[..idx], active, onWindows, first, before, quakeFirst, quakeBefore)
    requires now == before + OpenedFor(ss[idx], active == Some(idx), onWindows)
    requires quakeNow == if ss[idx].quakeMode && !onWindows then Some(|before|) else quakeBefore
    ensures SoFar(ss[..idx + 1], active, onWindows, first, now, quakeFirst, quakeNow)
  {
    OpenedNext<T, W>(ss, idx, active, onWindows);
    Appended(Opened(ss[..idx], active, onWindows), OpenedFor(ss[idx], active == Some(idx), onWindows),
             Opened(ss[..idx + 1], active, onWindows), first, before, now, quakeFirst);
  }

  lemma OpenedNext<T, W>(ss: seq<Snapshot<T>>, idx: nat, active: Option<nat>, onWindows: bool)
    requires idx < |ss|
    ensures Opened<T, W>(ss[..idx + 1], active, onWindows)
         == Opened<T, W>(ss[..idx], active, onWindows) + OpenedFor(ss[idx], active == Some(idx), onWindows)
  {
    assert ss[..idx + 1][..idx] == ss[..idx];
  }

  lemma Appended<T, W>(prefix: seq<Window<T, W>>, next: seq<Window<T, W>>, both: seq<Window<T, W>>,
                       first: seq<Window<T, W>>, before: seq<Window<T, W>>, now: seq<Window<T, W>>,
                       quake: Option<nat>)
    requires both == prefix + next && |next| <= 1
    requires before == first + prefix && now == before + next
    ensures now == first + both
    ensures QuakeAfter(quake, |first|, both)
         == if |next| == 1 && next[0].hidden then Some(|before|) else QuakeAfter(quake, |first|, prefix)
  {
    if next == [] {
      assert both == prefix;
    } else {
      assert both[..|both| - 1] == prefix;
    }
  }

  lemma PlanOpened<T, W>(ss: seq<Snapshot<T>>, active: Option<nat>, onWindows: bool, first: seq<Window<T, W>>,
                         looped: seq<Window<T, W>>, filled: seq<Window<T, W>>, all: seq<Window<T, W>>)
    requires looped == first + Opened(ss, active, onWindows)
    requires filled == looped + if Filter(ss, IsNormal) == [] then [Window(Empty, false)] else []
    requires all == filled + if NamesNormal(ss, active) then [Window(Restored(ss[active.value]), false)] else []
    ensures all == first + Plan(ss, active, onWindows)
  {
  }

  // ----- launch configurations

  function Templates<T, W>(ts: seq<W>): seq<Window<T, W>> {
    seq(|ts|, i requires 0 <= i < |ts| => Window(FromTemplate(ts[i]), false))
  }

  /** All but the active one. */
  function Others<W>(ts: seq<W>, active: Option<nat>): seq<W> {
    if active.Some? && active.value < |ts| then ts[..active.value] + ts[active.value + 1..] else ts
  }

  /** The active one moved to the end. */
  function ActiveLast<W>(ts: seq<W>, active: Option<nat>): seq<W> {
    if active.Some? && active.value < |ts| then Others(ts, active) + [ts[active.value]] else ts
  }

  lemma OthersNext<W>(ts: seq<W>, active: Option<nat>, idx: nat)
    requires idx < |ts|
    ensures Others(ts[..idx + 1], active)
         == Others(ts[..idx], active) + if active == Some(idx) then [] else [ts[idx]]
  {
    if active.Some? && active.value < idx {
      assert ts[..idx + 1][active.value + 1..] == ts[..idx][active.value + 1..] + [ts[idx]];
    } else if active == Some(idx) {
      assert ts[..idx + 1][idx + 1..] == [];
    } else {
      assert ts[..idx + 1] == ts[..idx] + [ts[idx]];
    }
  }

  // ----- what restoring a session does

  function Hidden<T, W>(ss: seq<Snapshot<T>>): seq<Window<T, W>> {
    seq(|ss|, i requires 0 <= i < |ss| => Window(Restored(ss[i]), true))
  }

  lemma ShownOfConcat<T, W>(a: seq<Snapshot<T>>, b: seq<Snapshot<T>>)
    ensures Shown<T, W>(a + b) == Shown(a) + Shown(b)
    ensures Hidden<T, W>(a + b) == Hidden(a) + Hidden(b)
  {
  }

  lemma FilterOne<X>(x: X, keep: X -> bool)
    ensures Filter([x], keep) == if keep(x) then [x] else []
  {
    assert [x][..0] == [];
  }

  /** The snapshots that the loop shows at once: all normal ones but the active one. */
  function ShownAtOnce<T>(ss: seq<Snapshot<T>>, active: Option<nat>): seq<Snapshot<T>> {
    Filter(Others(ss, active), IsNormal)
  }

  lemma NextShownAtOnce<T>(ss: seq<Snapshot<T>>, active: Option<nat>)
    requires ss != []
    ensures ShownAtOnce(ss, active)
         == ShownAtOnce(ss[..|ss| - 1], active) +
            if IsNormal(ss[|ss| - 1]) && active != Some(|ss| - 1) then [ss[|ss| - 1]] else []
  {
    var idx := |ss| - 1;
    assert ss[..idx + 1] == ss;
    OthersNext(ss, active, idx);
    if active != Some(idx) {
      FilterOfConcat(Others(ss[..idx], active), [ss[idx]], IsNormal);
      FilterOne(ss[idx], IsNormal);
    } else {
      assert Others(ss, active) == Others(ss[..idx], active);
      assert ShownAtOnce(ss[..idx], active) + [] == ShownAtOnce(ss[..idx], active);
    }
  }

  lemma FilterOpenedFor<T, W>(s: Snapshot<T>, active: bool, onWindows: bool)
    ensures Filter(OpenedFor<T, W>(s, active, onWindows), IsVisible)
         == Shown(if IsNormal(s) && !active then [s] else [])
    ensures Filter(OpenedFor<T, W>(s, active, onWindows), IsHidden)
         == Hidden(if IsQuake(s) && !onWindows then [s] else [])
  {
    if IsQuake(s) && !onWindows {
      var w := Window<T, W>.Window(Restored(s), true);
      FilterOne(w, IsVisible);
      FilterOne(w, IsHidden);
      assert Hidden<T, W>([s]) == [w];
    } else if IsNormal(s) && !active {
      var w := Window<T, W>.Window(Restored(s), false);
      FilterOne(w, IsVisible);
      FilterOne(w, IsHidden);
      assert Shown<T, W>([s]) == [w];
    } else {
      assert OpenedFor<T, W>(s, active, onWindows) == [];
    }
  }

  /** What one more snapshot adds to the visible and to the hidden windows. */
  lemma NextFiltered<T, W>(ss: seq<Snapshot<T>>, active: Option<nat>, onWindows: bool,
                           init: seq<Window<T, W>>, all: seq<Window<T, W>>)
    requires ss != []
    requires init == Opened(ss[..|ss| - 1], active, onWindows) && all == Opened(ss, active, onWindows)
    ensures var s, isActive := ss[|ss| - 1], active == Some(|ss| - 1);
            && Filter(all, IsVisible) == Filter(init, IsVisible) + Shown(if IsNormal(s) && !isActive then [s] else [])
            && Filter(all, IsHidden) == Filter(init, IsHidden) + Hidden(if IsQuake(s) && !onWindows then [s] else [])
  {
    var s, isActive := ss[|ss| - 1], active == Some(|ss| - 1);
    var next := OpenedFor<T, W>(s, isActive, onWindows);
    assert all == init + next;
    FilterOfConcat(init, next, IsVisible);
    FilterOfConcat(init, next, IsHidden);
    FilterOpenedFor<T, W>(s, isActive, onWindows);
  }

  lemma {:induction false} OpenedWindows<T, W>(ss: seq<Snapshot<T>>, active: Option<nat>, onWindows: bool,
                                               all: seq<Window<T, W>>)
    requires all == Opened(ss, active, onWindows)
    ensures Filter(all, IsVisible) == Shown(ShownAtOnce(ss, active))
    ensures Filter(all, IsHidden) == Hidden(if onWindows then [] else Filter(ss, IsQuake))
  {
    if ss != [] {
      var idx := |ss| - 1;
      var s := ss[idx];
      var init := Opened<T, W>(ss[..idx], active, onWindows);
      OpenedWindows(ss[..idx], active, onWindows, init);
      NextFiltered(ss, active, onWindows, init, all);
      NextShownAtOnce(ss, active);
      ShownOfConcat<T, W>(ShownAtOnce(ss[..idx], active), if IsNormal(s) && active != Some(idx) then [s] else []);
      ShownOfConcat<T, W>(Filter(ss[..idx], IsQuake), if IsQuake(s) then [s] else []);
    }
  }

  /** Moving the active window to the end and keeping the normal ones is what the last steps of the plan do. */
  lemma NormalActiveLast<T>(ss: seq<Snapshot<T>>, active: Option<nat>)
    ensures Filter(ActiveLast(ss, active), IsNormal)
         == ShownAtOnce(ss, active) + if NamesNormal(ss, active) then [ss[active.value]] else []
  {
    if active.Some? && active.value < |ss| {
      FilterOfConcat(Others(ss, active), [ss[active.value]], IsNormal);
      FilterOne(ss[active.value], IsNormal);
    }
  }

  /** Every normal window is opened once and visible, in the saved order except that the active one comes last; if
      there is none, one empty window is opened. Every hotkey window is opened hidden, except on Windows. */
  lemma {:induction false} RestoredWindows<T, W>(
    ss: seq<Snapshot<T>>, active: Option<nat>, onWindows: bool, plan: seq<Window<T, W>>)
    requires plan == Plan(ss, active, onWindows)
    ensures Filter(plan, IsVisible)
         == if Filter(ss, IsNormal) == [] then [Window(Empty, false)]
            else Shown(Filter(ActiveLast(ss, active), IsNormal))
    ensures Filter(plan, IsHidden) == Hidden(if onWindows then [] else Filter(ss, IsQuake))
  {
    var looped := Opened<T, W>(ss, active, onWindows);
    var empty := if Filter(ss, IsNormal) == [] then [Window<T, W>.Window(Empty, false)] else [];
    var last := if NamesNormal(ss, active) then [ss[active.value]] else [];
    OpenedWindows(ss, active, onWindows, looped);
    FilterParts(looped, empty, last, plan);
    NormalActiveLast(ss, active);
    ActiveLastIsPermutation(ss, active, IsNormal);
    JoinParts(ShownAtOnce(ss, active), Filter(ActiveLast(ss, active), IsNormal), last, empty, Filter(plan, IsVisible));
  }

  lemma FilterParts<T, W>(looped: seq<Window<T, W>>, empty: seq<Window<T, W>>, last: seq<Snapshot<T>>,
                          plan: seq<Window<T, W>>)
    requires plan == looped + empty + Shown(last) && |last| <= 1
    requires empty == [] || empty == [Window(Empty, false)]
    ensures Filter(plan, IsVisible) == Filter(looped, IsVisible) + empty + Shown(last)
    ensures Filter(plan, IsHidden) == Filter(looped, IsHidden)
  {
    FilterOfConcat(looped + empty, Shown(last), IsVisible);
    FilterOfConcat(looped, empty, IsVisible);
    FilterOfConcat(looped + empty, Shown(last), IsHidden);
    FilterOfConcat(looped, empty, IsHidden);
    FilterAtMostOne(empty);
    FilterAtMostOne<T, W>(Shown(last));
  }

  lemma JoinParts<T, W>(atOnce: seq<Snapshot<T>>, all: seq<Snapshot<T>>, last: seq<Snapshot<T>>,
                        empty: seq<Window<T, W>>, visible: seq<Window<T, W>>)
    requires all == atOnce + last
    requires visible == Shown(atOnce) + empty + Shown(last)
    requires all != [] ==> empty == []
    ensures visible == if all == [] then empty else Shown(all)
  {
    ShownOfConcat<T, W>(atOnce, last);
  }

  lemma FilterAtMostOne<T, W>(ws: seq<Window<T, W>>)
    requires |ws| <= 1 && forall w <- ws :: IsVisible(w)
    ensures Filter(ws, IsVisible) == ws && Filter(ws, IsHidden) == []
  {
    if ws != [] {
      FilterOne(ws[0], IsVisible);
      FilterOne(ws[0], IsHidden);
    }
  }

  /** Nothing is lost or doubled, whatever the index is. */
  lemma ActiveLastIsPermutation<X>(xs: seq<X>, active: Option<nat>, keep: X -> bool)
    ensures multiset(ActiveLast(xs, active)) == multiset(xs)
    ensures multiset(Filter(ActiveLast(xs, active), keep)) == multiset(Filter(xs, keep))
    ensures |Filter(ActiveLast(xs, active), keep)| == |Filter(xs, keep)|
  {
    if active.Some? && active.value < |xs| {
      var before, x, after := xs[..active.value], xs[active.value], xs[active.value + 1..];
      assert xs == before + [x] + after;
      FilterOfConcat(before + [x], after, keep);
      FilterOfConcat(before, [x], keep);
      FilterOfConcat(before + after, [x], keep);
      FilterOfConcat(before, after, keep);
    }
  }

  /** Something visible is always opened, and the last window opened is the active one if the index is that of a normal
      window. */
  lemma SomethingIsVisibleAndTheActiveIsLast<T, W>(ss: seq<Snapshot<T>>, active: Option<nat>, onWindows: bool,
                                                   plan: seq<Window<T, W>>)
    requires plan == Plan(ss, active, onWindows)
    ensures exists w :: w in plan && IsVisible(w)
    ensures NamesNormal(ss, active) ==> plan[|plan| - 1] == Window(Restored(ss[active.value]), false)
  {
    RestoredWindows(ss, active, onWindows, plan);
    ActiveLastIsPermutation(ss, active, IsNormal);
    var visible := Filter(plan, IsVisible);
    assert visible != [];
    FilterKeepsMembers(plan, IsVisible);
    assert visible[0] in visible;
  }

  lemma {:induction false} FilterKeepsMembers<X>(xs: seq<X>, keep: X -> bool)
    ensures forall x :: x in Filter(xs, keep) ==> x in xs && keep(x)
  {
    if xs != [] {
      FilterKeepsMembers(xs[..|xs| - 1], keep);
    }
  }

  /** The hotkey window is the last hidden window opened, or the one there was before if none was. */
  lemma {:induction false} QuakeIsTheLastHidden<T, W>(before: Option<nat>, base: nat, ws: seq<Window<T, W>>)
    ensures Filter(ws, IsHidden) == [] ==> QuakeAfter(before, base, ws) == before
    ensures Filter(ws, IsHidden) != [] ==>
              var q := QuakeAfter(before, base, ws);
              && q.Some? && base <= q.value < base + |ws|
              && ws[q.value - base] == Filter(ws, IsHidden)[|Filter(ws, IsHidden)| - 1]
              && forall i :: q.value - base < i < |ws| ==> IsVisible(ws[i])
  {
    if ws != [] && !ws[|ws| - 1].hidden {
      QuakeIsTheLastHidden(before, base, ws[..|ws| - 1]);
    }
  }

  // ----- saving

  datatype Workspace<T> = Workspace(dragPreview: bool, tabs: seq<T>)

  datatype OpenWindow<T> = OpenWindow(id: nat, workspace: Option<Workspace<T>>)

  /** The windows that are saved: those with a workspace that has tabs and is not the preview of a drag. */
  predicate IsSaved<T>(w: OpenWindow<T>) {
    w.workspace.Some? && !w.workspace.value.dragPreview && w.workspace.value.tabs != []
  }

  /** A window without a workspace, one that is the preview of a drag, and one without tabs are not saved; any other
      is. */
  lemma {:induction false} IsSavedIff<T>(w: OpenWindow<T>)
    ensures IsSaved(w) <==> exists tabs :: tabs != [] && w.workspace == Some(Workspace(false, tabs))
  {
    if IsSaved(w) {
      assert w.workspace == Some(Workspace(false, w.workspace.value.tabs));
    }
  }

  function SnapshotOf<T>(w: OpenWindow<T>, quakeId: Option<nat>): Snapshot<T> {
    Snapshot(quakeId == Some(w.id), if w.workspace.Some? then w.workspace.value.tabs else [])
  }

  function Snapshots<T>(ws: seq<OpenWindow<T>>, quakeId: Option<nat>): seq<Snapshot<T>> {
    seq(|ws|, i requires 0 <= i < |ws| => SnapshotOf(ws[i], quakeId))
  }

  lemma {:induction false} SavedHaveTabs<T>(open: seq<OpenWindow<T>>, quakeId: Option<nat>)
    ensures forall s :: s in Snapshots(Filter(open, IsSaved), quakeId) ==> s.tabs != []
  {
    var kept := Filter(open, IsSaved);
    FilterKeepsMembers(open, IsSaved);
    forall i | 0 <= i < |kept| ensures IsSaved(kept[i]) {
      assert kept[i] in kept;
    }
  }

  predicate DistinctIds<T>(ws: seq<OpenWindow<T>>) {
    forall i, j :: 0 <= i < j < |ws| ==> ws[i].id != ws[j].id
  }

  method GetAppState<T>(open: seq<OpenWindow<T>>, activeId: Option<nat>, quakeId: Option<nat>)
    returns (state: AppState<T>)
    requires DistinctIds(open)
    ensures state.windows == Snapshots(Filter(open, IsSaved), quakeId)
    ensures forall s :: s in state.windows ==> s.tabs != []
    ensures forall i :: 0 <= i < |open| ==> (state.activeWindowIndex == Some(i) <==> activeId == Some(open[i].id))
    ensures state.activeWindowIndex.Some? ==> state.activeWindowIndex.value < |open|
  {
    var activeWindowIndex: Option<nat> := None;
    var windows := [];
    for index := 0 to |open|
      invariant windows == Snapshots(Filter(open[..index], IsSaved), quakeId)
      invariant activeWindowIndex.Some? ==>
                  activeWindowIndex.value < index && activeId == Some(open[activeWindowIndex.value].id)
      invariant activeWindowIndex.None? ==> forall i :: 0 <= i < index ==> activeId != Some(open[i].id)
    {
      assert open[..index + 1][..index] == open[..index];
      var w := open[index];
      if activeId == Some(w.id) {
        activeWindowIndex := Some(index);
      }
      if w.workspace.Some? {
        if w.workspace.value.dragPreview {
          continue;
        }
        var snapshot := SnapshotOf(w, quakeId);
        if snapshot.tabs != [] {
          windows := windows + [snapshot];
        }
      }
    }
    assert open[..|open|] == open;
    SavedHaveTabs(open, quakeId);
    state := AppState(windows, activeWindowIndex);
  }

  // ----- which window is opened last

  /** The window opened for snapshot `from`, or the empty window. */
  function WindowFrom<T, W>(ss: seq<Snapshot<T>>, from: Option<nat>): Window<T, W>
    requires from.Some? ==> from.value < |ss|
  {
    if from.Some? then Window(Restored(ss[from.value]), ss[from.value].quakeMode) else Window(Empty, false)
  }

  ghost predicate ComeFrom<T, W>(ss: seq<Snapshot<T>>, ws: seq<Window<T, W>>, from: seq<Option<nat>>) {
    && |ws| == |from|
    && forall i :: 0 <= i < |ws| ==> (from[i].Some? ==> from[i].value < |ss|) && ws[i] == WindowFrom(ss, from[i])
  }

  function OpensOn<T>(onWindows: bool): Snapshot<T> -> bool {
    (s: Snapshot<T>) => !s.quakeMode || !onWindows
  }

  function Somes(xs: seq<nat>): seq<Option<nat>> {
    seq(|xs|, i requires 0 <= i < |xs| => Some(xs[i]))
  }

  /** The positions of the snapshots that the loop opens. */
  function OpenedAt<T>(ss: seq<Snapshot<T>>, active: Option<nat>, onWindows: bool): seq<nat> {
    if ss == [] then []
    else
      var idx := |ss| - 1;
      OpenedAt(ss[..idx], active, onWindows) +
      if OpensOn(onWindows)(ss[idx]) && (active != Some(idx) || IsQuake(ss[idx])) then [idx] else []
  }

  /** The origins of all windows that restoring opens, in the order of opening. */
  function Origins<T>(ss: seq<Snapshot<T>>, active: Option<nat>, onWindows: bool): (from: seq<Option<nat>>) {
    Somes(OpenedAt(ss, active, onWindows)) +
    (if Filter(ss, IsNormal) == [] then [None] else []) +
    (if NamesNormal(ss, active) then [active] else [])
  }

  lemma {:induction false} ComeFromConcat<T, W>(
    ss: seq<Snapshot<T>>, a: seq<Window<T, W>>, fromA: seq<Option<nat>>, b: seq<Window<T, W>>, fromB: seq<Option<nat>>)
    requires ComeFrom(ss, a, fromA) && ComeFrom(ss, b, fromB)
    ensures ComeFrom(ss, a + b, fromA + fromB)
  {
  }

  lemma {:induction false} ComeFromLonger<T, W>(
    init: seq<Snapshot<T>>, ss: seq<Snapshot<T>>, ws: seq<Window<T, W>>, from: seq<Option<nat>>)
    requires init <= ss && ComeFrom(init, ws, from)
    ensures ComeFrom(ss, ws, from)
  {
  }

  lemma {:induction false} OpenedComeFrom<T, W>(
    ss: seq<Snapshot<T>>, active: Option<nat>, onWindows: bool, ws: seq<Window<T, W>>, at: seq<nat>)
    requires ws == Opened(ss, active, onWindows) && at == OpenedAt(ss, active, onWindows)
    ensures ComeFrom(ss, ws, Somes(at))
  {
    if ss != [] {
      var idx := |ss| - 1;
      var init, atInit := Opened<T, W>(ss[..idx], active, onWindows), OpenedAt(ss[..idx], active, onWindows);
      var next := OpenedFor<T, W>(ss[idx], active == Some(idx), onWindows);
      var atNext := if next == [] then [] else [idx];
      OpenedComeFrom(ss[..idx], active, onWindows, init, atInit);
      ComeFromLonger(ss[..idx], ss, init, Somes(atInit));
      ComeFromConcat(ss, init, Somes(atInit), next, Somes(atNext));
      assert at == atInit + atNext;
      assert Somes(at) == Somes(atInit) + Somes(atNext);
    }
  }

  /** The origins are those of the plan. */
  lemma {:induction false} PlanComesFromOrigins<T, W>(ss: seq<Snapshot<T>>, active: Option<nat>, onWindows: bool)
    ensures ComeFrom(ss, Plan<T, W>(ss, active, onWindows), Origins(ss, active, onWindows))
    ensures Origins(ss, active, onWindows) != []
  {
    var looped, at := Opened<T, W>(ss, active, onWindows), OpenedAt(ss, active, onWindows);
    var empty := if Filter(ss, IsNormal) == [] then [None] else [];
    var last := if NamesNormal(ss, active) then [active] else [];
    OpenedComeFrom(ss, active, onWindows, looped, at);
    ComeFromConcat<T, W>(ss, looped, Somes(at), if empty == [] then [] else [WindowFrom(ss, None)], empty);
    ComeFromConcat<T, W>(ss, looped + if empty == [] then [] else [WindowFrom(ss, None)], Somes(at) + empty,
                         if last == [] then [] else [WindowFrom(ss, active)], last);
    if empty == [] && last == [] {
      OpenedWithoutActive(ss, active, onWindows);
      NormalIsOpened(ss, onWindows);
    }
  }

  lemma {:induction false} OpenedWithoutActive<T>(ss: seq<Snapshot<T>>, active: Option<nat>, onWindows: bool)
    requires !NamesNormal(ss, active)
    ensures OpenedAt(ss, active, onWindows) == Positions(ss, OpensOn(onWindows))
  {
    if ss != [] {
      OpenedWithoutActive(ss[..|ss| - 1], active, onWindows);
    }
  }

  lemma {:induction false} NormalIsOpened<T>(ss: seq<Snapshot<T>>, onWindows: bool)
    requires Filter(ss, IsNormal) != []
    ensures Filter(ss, OpensOn(onWindows)) != []
  {
    if !IsNormal(ss[|ss| - 1]) {
      NormalIsOpened(ss[..|ss| - 1], onWindows);
    }
  }

  /** The last origin: the active window's if its index is that of a normal one, else the last one that opens. */
  lemma {:induction false} LastOriginIff<T>(ss: seq<Snapshot<T>>, active: Option<nat>, onWindows: bool, r: nat)
    requires r < |ss| && Origins(ss, active, onWindows) != []
    ensures var from := Origins(ss, active, onWindows);
            from[|from| - 1] == Some(r) <==>
            if NamesNormal(ss, active) then active == Some(r)
            else
              && Filter(ss, IsNormal) != []
              && OpensOn(onWindows)(ss[r]) && Filter(ss[r + 1..], OpensOn(onWindows)) == []
  {
    if !NamesNormal(ss, active) {
      OpenedWithoutActive(ss, active, onWindows);
      LastPositionIff(ss, OpensOn(onWindows), r);
    }
  }

  /** The position among the open windows of the one that restoring opens last, unless that is an empty window. */
  function LastRestored<T>(open: seq<OpenWindow<T>>, quakeId: Option<nat>, active: Option<nat>, onWindows: bool)
    : Option<nat>
  {
    var from := Origins(Snapshots(Filter(open, IsSaved), quakeId), active, onWindows);
    if from == [] then None
    else
      match from[|from| - 1]
      case Some(r) => if r < |Positions(open, IsSaved)| then Some(Positions(open, IsSaved)[r]) else None
      case None => None
  }

  /** The index of the active window counts all open windows, the saved windows are only some of them. Restoring ends
      with the window that was active iff it was saved, and either no unsaved window came before it and it is not the
      hotkey window; or the index happens to be that of no normal snapshot, so that nothing is moved to the end, there
      is some normal snapshot, and the active window is opened and nothing that restoring opens came after it. */
  lemma {:induction false} RestoringEndsWithTheActiveWindowIff<T>(
    open: seq<OpenWindow<T>>, quakeId: Option<nat>, a: nat, onWindows: bool)
    requires a < |open|
    ensures var ss := Snapshots(Filter(open, IsSaved), quakeId);
            var after := Snapshots(Filter(open[a + 1..], IsSaved), quakeId);
            LastRestored(open, quakeId, Some(a), onWindows) == Some(a) <==>
            && IsSaved(open[a])
            && (|| (AllKept(open[..a], IsSaved) && quakeId != Some(open[a].id))
                || (!NamesNormal(ss, Some(a)) && Filter(ss, IsNormal) != [] &&
                    OpensOn(onWindows)(SnapshotOf(open[a], quakeId)) && Filter(after, OpensOn(onWindows)) == []))
  {
    if IsSaved(open[a]) {
      SavedActiveIsLastIff(open, quakeId, a, onWindows);
    } else {
      var from := Origins(Snapshots(Filter(open, IsSaved), quakeId), Some(a), onWindows);
      if from != [] && from[|from| - 1].Some? && from[|from| - 1].value < |Positions(open, IsSaved)| {
        KeptAt(open, IsSaved, from[|from| - 1].value);
      }
    }
  }

  lemma {:induction false} SavedActiveIsLastIff<T>(
    open: seq<OpenWindow<T>>, quakeId: Option<nat>, a: nat, onWindows: bool)
    requires a < |open| && IsSaved(open[a])
    ensures var ss := Snapshots(Filter(open, IsSaved), quakeId);
            var after := Snapshots(Filter(open[a + 1..], IsSaved), quakeId);
            LastRestored(open, quakeId, Some(a), onWindows) == Some(a) <==>
            || (AllKept(open[..a], IsSaved) && quakeId != Some(open[a].id))
            || (!NamesNormal(ss, Some(a)) && Filter(ss, IsNormal) != [] &&
                OpensOn(onWindows)(SnapshotOf(open[a], quakeId)) && Filter(after, OpensOn(onWindows)) == [])
  {
    var ss := Snapshots(Filter(open, IsSaved), quakeId);
    var r := |Filter(open[..a], IsSaved)|;
    SnapshotOfTheActive(open, quakeId, a, ss, r);
    PlanComesFromOrigins<T, T>(ss, Some(a), onWindows);
    LastOriginIff(ss, Some(a), onWindows, r);
    LastRestoredIff(open, quakeId, Some(a), onWindows, r);
  }

  /** The snapshot of the active window is number `r`, and that is its index iff all windows before it are saved. */
  lemma {:induction false} SnapshotOfTheActive<T>(
    open: seq<OpenWindow<T>>, quakeId: Option<nat>, a: nat, ss: seq<Snapshot<T>>, r: nat)
    requires a < |open| && IsSaved(open[a])
    requires ss == Snapshots(Filter(open, IsSaved), quakeId) && r == |Filter(open[..a], IsSaved)|
    ensures r < |ss| == |Positions(open, IsSaved)| && Positions(open, IsSaved)[r] == a
    ensures ss[r] == SnapshotOf(open[a], quakeId)
    ensures ss[r + 1..] == Snapshots(Filter(open[a + 1..], IsSaved), quakeId)
    ensures r == a <==> AllKept(open[..a], IsSaved)
  {
    PositionOfKept(open, IsSaved, a);
    FilterAll(open[..a], IsSaved);
  }

  lemma {:induction false} LastRestoredIff<T>(
    open: seq<OpenWindow<T>>, quakeId: Option<nat>, active: Option<nat>, onWindows: bool, r: nat)
    requires r < |Positions(open, IsSaved)|
    ensures var from := Origins(Snapshots(Filter(open, IsSaved), quakeId), active, onWindows);
            LastRestored(open, quakeId, active, onWindows) == Some(Positions(open, IsSaved)[r]) <==>
            from != [] && from[|from| - 1] == Some(r)
  {
    var from := Origins(Snapshots(Filter(open, IsSaved), quakeId), active, onWindows);
    if from != [] && from[|from| - 1].Some? {
      var k := from[|from| - 1].value;
      if k < r {
        PositionsIncrease(open, IsSaved, k, r);
      } else if r < k < |Positions(open, IsSaved)| {
        PositionsIncrease(open, IsSaved, r, k);
      }
    }
  }

  /** `LaunchConfig::from_snapshot`; `into` makes a template from a snapshot. */
  function FromSnapshot<T, W>(state: AppState<T>, into: Snapshot<T> -> W): LaunchConfig<W> {
    var normal := Filter(state.windows, IsNormal);
    LaunchConfig(seq(|normal|, i requires 0 <= i < |normal| => into(normal[i])), state.activeWindowIndex)
  }

  /** The open windows whose templates a launch configuration has: those that are saved, but not the hotkey window. */
  function InConfig<T>(quakeId: Option<nat>): OpenWindow<T> -> bool {
    (w: OpenWindow<T>) => IsSaved(w) && quakeId != Some(w.id)
  }

  /** The positions of these windows among the open ones, in the order in which the configuration opens them. */
  function LaunchedAt<T>(open: seq<OpenWindow<T>>, quakeId: Option<nat>, active: Option<nat>): (at: seq<nat>)
    ensures |at| == |Filter(open, InConfig(quakeId))|
  {
    ActiveLast(Positions(open, InConfig(quakeId)), active)
  }

  /** Where the window that is opened as number `j` of `n` stood. */
  function MovedFrom(n: nat, active: Option<nat>, j: nat): (from: nat)
    requires j < n
    ensures from < n
  {
    if active.None? || active.value >= n || j < active.value then j
    else if j == n - 1 then active.value
    else j + 1
  }

  lemma {:induction false} ActiveLastAt<X>(xs: seq<X>, active: Option<nat>, j: nat)
    requires j < |xs|
    ensures |ActiveLast(xs, active)| == |xs| && ActiveLast(xs, active)[j] == xs[MovedFrom(|xs|, active, j)]
  {
  }

  lemma {:induction false} SnapshotsOfConcat<T>(a: seq<OpenWindow<T>>, b: seq<OpenWindow<T>>, quakeId: Option<nat>)
    ensures Snapshots(a + b, quakeId) == Snapshots(a, quakeId) + Snapshots(b, quakeId)
  {
  }

  lemma {:induction false} OneNormalSnapshot<T>(w: OpenWindow<T>, quakeId: Option<nat>)
    ensures Filter(Snapshots(if IsSaved(w) then [w] else [], quakeId), IsNormal)
         == Snapshots(if InConfig(quakeId)(w) then [w] else [], quakeId)
  {
    assert Snapshots([w], quakeId) == [SnapshotOf(w, quakeId)] && Snapshots<T>([], quakeId) == [];
    FilterOne(SnapshotOf(w, quakeId), IsNormal);
  }

  /** Saving leaves out some windows and making a configuration leaves out more: the normal snapshots are those of the
      windows in the configuration. */
  lemma {:induction false} NormalSnapshots<T>(
    open: seq<OpenWindow<T>>, quakeId: Option<nat>, saved: seq<OpenWindow<T>>, config: seq<OpenWindow<T>>)
    requires saved == Filter(open, IsSaved) && config == Filter(open, InConfig(quakeId))
    ensures Filter(Snapshots(saved, quakeId), IsNormal) == Snapshots(config, quakeId)
  {
    if open != [] {
      var init, w := open[..|open| - 1], open[|open| - 1];
      var before, configBefore := Filter(init, IsSaved), Filter(init, InConfig(quakeId));
      var next := if IsSaved(w) then [w] else [];
      var configNext := if InConfig(quakeId)(w) then [w] else [];
      assert saved == before + next && config == configBefore + configNext;
      NormalSnapshots(init, quakeId, before, configBefore);
      SnapshotsOfConcat(before, next, quakeId);
      SnapshotsOfConcat(configBefore, configNext, quakeId);
      FilterOfConcat(Snapshots(before, quakeId), Snapshots(next, quakeId), IsNormal);
      OneNormalSnapshot(w, quakeId);
    }
  }

  /** The templates of any saved state, in the order of opening, are those of its normal snapshots at these
      positions. */
  lemma {:induction false} TemplatesComeFromSnapshots<T, W>(state: AppState<T>, into: Snapshot<T> -> W, j: nat)
    requires j < |Filter(state.windows, IsNormal)|
    ensures var config := FromSnapshot(state, into);
            var order := ActiveLast(config.windows, config.activeWindowIndex);
            var at := ActiveLast(Positions(state.windows, IsNormal), state.activeWindowIndex);
            |order| == |at| == |Filter(state.windows, IsNormal)| &&
            at[j] < |state.windows| && order[j] == into(state.windows[at[j]])
  {
    var at := Positions(state.windows, IsNormal);
    ActiveLastAt(at, state.activeWindowIndex, j);
    ActiveLastAt(FromSnapshot(state, into).windows, state.activeWindowIndex, j);
    PositionsPointAtTheKept(state.windows, IsNormal, MovedFrom(|at|, state.activeWindowIndex, j));
  }

  /** From the open windows over the saved state to the configuration: its templates, in the order of opening, are those
      of the open windows at these positions. */
  lemma {:induction false} TemplatesComeFrom<T, W>(
    open: seq<OpenWindow<T>>, quakeId: Option<nat>, active: Option<nat>, into: Snapshot<T> -> W, j: nat)
    requires j < |LaunchedAt(open, quakeId, active)|
    ensures var config := FromSnapshot(AppState(Snapshots(Filter(open, IsSaved), quakeId), active), into);
            var order, at := ActiveLast(config.windows, config.activeWindowIndex), LaunchedAt(open, quakeId, active);
            |order| == |at| && at[j] < |open| && order[j] == into(SnapshotOf(open[at[j]], quakeId))
  {
    var config := FromSnapshot(AppState(Snapshots(Filter(open, IsSaved), quakeId), active), into);
    var at := Positions(open, InConfig(quakeId));
    NormalSnapshots(open, quakeId, Filter(open, IsSaved), Filter(open, InConfig(quakeId)));
    ActiveLastAt(at, active, j);
    ActiveLastAt(config.windows, active, j);
    PositionsPointAtTheKept(open, InConfig(quakeId), MovedFrom(|at|, active, j));
  }

  /** Moving to the end by an index into a sequence, of which only some elements were kept, ends with the element the
      index is that of iff it was kept, and either all elements before it were, or the index is past the end of those
      that were kept and none after it was. */
  lemma {:induction false} ActiveLastEndsIff<X>(xs: seq<X>, keep: X -> bool, a: nat)
    requires a < |xs|
    ensures var at := ActiveLast(Positions(xs, keep), Some(a));
            at != [] && at[|at| - 1] == a <==>
            && keep(xs[a])
            && (AllKept(xs[..a], keep) || (a >= |Filter(xs, keep)| && Filter(xs[a + 1..], keep) == []))
  {
    var at := Positions(xs, keep);
    LastPositionIff(xs, keep, a);
    if keep(xs[a]) {
      var r := |Filter(xs[..a], keep)|;
      PositionOfKept(xs, keep, a);
      FilterAll(xs[..a], keep);
      if a < |at| && r < a {
        PositionsIncrease(xs, keep, r, a);
      }
    } else if a < |at| {
      KeptAt(xs, keep, a);
    }
  }

  /** The index counts all open windows when it is saved, and a launch configuration has only some of them but keeps
      the index. Opening it ends with the template of the window that was active iff that is in the configuration, and
      either all windows before it are, or the index is past the end of the templates, so that nothing is moved, and no
      window in the configuration comes after it. */
  lemma {:induction false} LaunchEndsWithTheActiveWindowIff<T>(open: seq<OpenWindow<T>>, quakeId: Option<nat>, a: nat)
    requires a < |open|
    ensures var at, keep := LaunchedAt(open, quakeId, Some(a)), InConfig(quakeId);
            at != [] && at[|at| - 1] == a <==>
            && keep(open[a])
            && (AllKept(open[..a], keep) || (a >= |Filter(open, keep)| && Filter(open[a + 1..], keep) == []))
  {
    ActiveLastEndsIff(open, InConfig(quakeId), a);
  }

  /** With a window that is not saved before the active one and another window after it, that other one is launched
      last, though the saved state has no hotkey window. */
  lemma {:induction false} LaunchAfterSavingCanEndWithAnotherWindow(into: Snapshot<char> -> string)
    requires forall s :: into(s) == s.tabs
    ensures var open := [OpenWindow(0, None), OpenWindow(1, Some(Workspace(false, "active"))),
                         OpenWindow(2, Some(Workspace(false, "other")))];
            var state := AppState(Snapshots(Filter(open, IsSaved), None), Some(1));
            var config := FromSnapshot(state, into);
            && state.windows == [Snapshot(false, "active"), Snapshot(false, "other")]
            && ActiveLast(config.windows, config.activeWindowIndex) == ["active", "other"]
  {
    var u, x, y := OpenWindow(0, None), OpenWindow(1, Some(Workspace(false, "active"))),
                   OpenWindow(2, Some(Workspace(false, "other")));
    FilterLeavesOut(u, x, y, IsSaved);
    var active, other := Snapshot(false, "active"), Snapshot(false, "other");
    assert Snapshots([x, y], None) == [active, other];
    assert [active][..0] == [] && [active, other][..1] == [active];
    assert Filter([active], IsNormal) == [active];
    assert Filter([active, other], IsNormal) == [active, other];
  }

  /** With a hotkey window before the active one and another window after it, that other one is opened last. */
  lemma {:induction false} LaunchCanEndWithAnotherWindow(into: Snapshot<char> -> string)
    requires forall s :: into(s) == s.tabs
    ensures var state := AppState([Snapshot(true, "h"), Snapshot(false, "active"), Snapshot(false, "other")], Some(1));
            var config := FromSnapshot(state, into);
            ActiveLast(config.windows, config.activeWindowIndex) == ["active", "other"]
  {
    var h, x, y := Snapshot(true, "h"), Snapshot(false, "active"), Snapshot(false, "other");
    FilterLeavesOut(h, x, y, IsNormal);
    var config := FromSnapshot(AppState([h, x, y], Some(1)), into);
    assert Filter([h, x, y], IsNormal) == [x, y];
    assert config.windows == ["active", "other"];
  }

  lemma {:induction false} FilterLeavesOut<X>(x: X, y: X, z: X, keep: X -> bool)
    requires !keep(x) && keep(y) && keep(z)
    ensures Filter([x, y, z], keep) == [y, z]
  {
    assert [x][..0] == [] && [x, y][..1] == [x] && [x, y, z][..2] == [x, y];
    assert Filter([x], keep) == [];
    assert Filter([x, y], keep) == [y];
  }

  /** With a window that is not saved before the active one and another window after it, that other one is opened
      last. */
  lemma {:induction false} RestoringCanEndWithAnotherWindow()
    ensures var open := [OpenWindow(0, None), OpenWindow(1, Some(Workspace(false, "active"))),
                         OpenWindow(2, Some(Workspace(false, "other")))];
            var active, other := Snapshot(false, "active"), Snapshot(false, "other");
            && Snapshots(Filter(open, IsSaved), None) == [active, other]
            && Plan<char, string>([active, other], Some(1), false)
            == [Window(Restored(active), false), Window(Restored(other), false)]
  {
    var u, x, y := OpenWindow(0, None), OpenWindow(1, Some(Workspace(false, "active"))),
                   OpenWindow(2, Some(Workspace(false, "other")));
    FilterLeavesOut(u, x, y, IsSaved);
    var active, other := Snapshot(false, "active"), Snapshot(false, "other");
    assert [active][..0] == [] && [active, other][..1] == [active];
    assert Opened<char, string>([active], Some(1), false) == [Window(Restored(active), false)];
    assert Filter([active], IsNormal) == [active];
  }

  /** A wrong index can also be harmless: past the end of what was saved nothing is moved, and here the active window is
      the only one anyway. */
  lemma {:induction false} WrongIndexCanBeHarmless()
    ensures var open := [OpenWindow(0, None), OpenWindow(1, Some(Workspace(false, "active")))];
            LastRestored(open, None, Some(1), false) == Some(1) && !AllKept(open[..1], IsSaved)
  {
    var open := [OpenWindow(0, None), OpenWindow(1, Some(Workspace(false, "active")))];
    RestoringEndsWithTheActiveWindowIff(open, None, 1, false);
    PositionOfKept(open, IsSaved, 1);
    assert open[..1] == [open[0]] && open[2..] == [];
    FilterOne(open[0], IsSaved);
    assert !IsSaved(open[..1][0]);
    var ss := Snapshots(Filter(open, IsSaved), None);
    assert ss == [Snapshot(false, "active")];
    FilterOne(ss[0], IsNormal);
  }
}
