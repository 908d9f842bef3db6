# Menus, timers, recovery and restoration: a verified model

This project models the parts of a terminal application that behave like small state machines or
transformations, and proves what holds of all their inputs, all their runs, or all polling schedules.
Code that updates objects in place is modelled by classes whose methods are proved against a step
function or a two-state contract; the theorems about runs are lemmas about that step function.

| file | what it models |
|---|---|
| `MenuNavigation.dfy` | the cursor of one menu: the two cyclic searches over selectable rows |
| `MenuTree.dfy`, `Menu.dfy` | the tree of submenus on the heap, the active path, the action handlers |
| `SafeTriangle.dfy` | hover suppression: the triangle over the reals, and runs of hovers |
| `TimedSource.dfy`, `Debounce.dfy`, `Throttle.dfy` | poll-driven stream operators over a clock |
| `CrashRecovery.dfy` | the frame monitor that kills the recovery child or exits |
| `RepositoryUpdates.dfy` | restricting a change set to some paths |
| `Network.dfy` | reachability and the futures that wait for it |
| `ControlCodes.dfy` | rendering raw bytes with `<...>` tokens |
| `Utf8.dfy`, `CommonPrefix.dfy` | UTF-8 lengths and boundaries, the longest common prefix |
| `WindowRestore.dfy` | saving the open windows, restoring a session, opening a launch configuration |
| `AgentTips.dfy` | inline code in tips |
| `HistorySearch.dfy` | history suggestions by prefix |

## How the model reads the code

* **Time.** A poll is a call with the value of a clock that does not run backwards. A timer is ready iff
  the clock has reached its creation time plus the period. A stream is a script of timed arrivals, ending
  in a close or not; it stays closed once it is.
* **Emitted events** are logs in the state of the model.
* **Process exit** is a flag after which no further call is made.
* **Coordinates** are reals; a rectangle contains its border.
* **Paths** are lists of components, so that one path starts with another iff the lists do.
* **Conditions** are one-shot objects whose clones are the same object.
* **`Repr`** of a menu is the set of menus in its subtree. Items own their submenus, so the subtrees of
  two items share no menu.

## What the proofs found

* Navigation without a selection goes to (0, 0) unchecked, and the arrow keys stay in the first row, also
  when that cannot be selected, until they lead past one of its ends
  (`MenuNavigation.CursorIsValidIff`). In an empty menu the second press indexes past the end of the items;
  no other run of arrow keys does (`MenuNavigation.PressesPanicIff`).
* `Menu::set_items` leaves the depths of the new items alone, so they are the nesting levels iff there is
  no submenu among them (`MenuView.Menu.SetItems`).
* `Throttle` drops what it reads in the poll that sees the close. The last item survives iff, at the first
  poll after the close, it has been read already, or it is the next to be read and no timer runs
  (`ThrottleStream.LastItemSurvivesIff`); `Debounce` never loses it. After the end `Throttle` alternates
  between announcing it and, for a period, answering Pending (`ThrottleStream.AfterTheEndIff`).
* When the anchor is level with the near side of the target, the safe triangle has no area and the sign
  test accepts the whole vertical line through the anchor. The test is membership in the triangle iff the
  anchor is not level (`SafeTriangleHover.SafeTriangleIsHullIff`).
* The index of the active window counts all open windows when it is saved. A restored session and a launch
  configuration use it with shorter lists: that of the saved windows, and that without the hotkey window as
  well. The window that was active is still opened last iff it is in the list and every window before it is
  too, or the index happens to be that of no window that can be moved to the end and the active window is the
  last one opened anyway (`WindowRestore.RestoringEndsWithTheActiveWindowIff`,
  `WindowRestore.LaunchEndsWithTheActiveWindowIff`). In both cases there are inputs for which another window
  is opened last, for the configuration also without any hotkey window.
* Both stream operators meet their specifications exactly under some schedules of polls, which
  `DebounceStream.ScheduleIsExactIff` and `ThrottleStream.ScheduleIsExactIff` characterise. A schedule that
  polls whenever something wakes the operator is one of them.
* A keystroke is put into a tip before the tip is split at backticks. The tip is shown as intended iff it
  has no placeholder or the keystroke has no backtick (`AgentTips.TipsAreAsIntendedIff`). With `Ctrl` and
  the backtick, a default binding of another action, the rest of the tip would be shown as code
  (`AgentTips.CancelTipWithTickedKey`).
* An update that touches nothing under a prefix still survives the filter if one of its two flags is set
  (`RepositoryUpdates.FilterIsNoneIff`).
* The comment on `handle_frame_drawn` (`app/src/crash_recovery.rs:120`) promises a boolean result; the
  code returns nothing. The message on exit (`app/src/crash_recovery.rs:102`) speaks of the last 10 frames
  but has the whole history, which is up to 30 results long.

## Model

| member | source | states |
|---|---|---|
| `MenuNavigation.NextRowIsFirstAfter` | `app/src/menu.rs:1690-1708` | the forward iterator chain finds the cyclically first selectable row after the current one, coming back to it only last, and stays iff no row is selectable |
| `MenuNavigation.PreviousRowIsFirstBefore` | `app/src/menu.rs:1657-1679` | the reversed chain with its different skip count finds the cyclically last selectable row before the current one |
| `MenuNavigation.StepReaches` | `app/src/menu.rs:1646-1715` | from any stored selection, also one past the end: a given index is taken as it is; an arrow key moves within the row while it has items in that direction, and otherwise to the cyclically next selectable row in that direction, to its first or last item |
| `MenuNavigation.NextRowFromOutside` | `app/src/menu.rs:1690-1708` | from a row past the end the forward search wraps around as often as it takes |
| `MenuNavigation.FirstSelectableRow` | `app/src/menu.rs:1779-1790` | reading from the top, the row found is selectable and no row before it is; none is found iff none is selectable |
| `MenuNavigation.NextAddsOne` | `app/src/menu.rs:1681-1708` | Next takes a valid position to the valid position of the following rank in reading order, modulo the number of positions |
| `MenuNavigation.PreviousTakesOne` | `app/src/menu.rs:1650-1680` | Previous takes a valid position to the valid position of the preceding rank, modulo the number of positions |
| `MenuNavigation.RankInjective` | `app/src/menu.rs:1279-1290` | a position is determined by its rank, the sum of the lengths of the selectable rows before it plus its item |
| `MenuNavigation.NextAndPreviousAreInverse` | `app/src/menu.rs:1646-1715` | on every valid position each direction undoes the other |
| `MenuNavigation.NextHasThePeriod` | `app/src/menu.rs:1646-1715` | as many presses of Next as there are positions lead back to the start |
| `MenuNavigation.NextVisitsEveryPositionOnce` | `app/src/menu.rs:1646-1715` | there is one orbit: from any position each position is reached by exactly one number of presses below the period |
| `MenuNavigation.FirstPressIsValidIffFirstRowIsSelectable` | `app/src/menu.rs:1709` | without a selection both directions store (0, 0), which is a valid position iff the first row is selectable |
| `MenuNavigation.SelectPanicsIff` | `app/src/menu.rs:1646-1715` | exactly which stored selections make a step index past the end of the items |
| `MenuNavigation.EmptyMenuPanicsOnTheSecondPress` | `app/src/menu.rs:1681-1709` | in an empty menu the first press stores row 0 and the next one in either direction dereferences it |
| `MenuNavigation.PressesPanicIff` | `app/src/menu.rs:1646-1715` | a run of arrow keys from no selection indexes past the end of the items iff the menu is empty and there are at least two presses |
| `MenuNavigation.CursorIsValidIff` | `app/src/menu.rs:1646-1715` | after any run of arrow keys from no selection the cursor is on a valid position iff some row is selectable, and the first row is or the presses have led past one of its ends |
| `MenuNavigation.CursorCanBeInvalid` | `app/src/menu.rs:1681-1709` | two rows, the first not selectable, and two presses that leave the cursor in the first row |
| `MenuTree.SelectableRowsHaveItems` | `app/src/menu.rs:1279-1314` | every selectable item offers at least one cursor position, as the navigation theorems assume |
| `MenuTree.NotSelectableIff` | `app/src/menu.rs:1299-1314` | what keeps each kind of row from being selected |
| `MenuTree.LengthOfRow` | `app/src/menu.rs:1279-1290` | the cursor positions of each kind of row |
| `MenuTree.SubMenu.constructor` | `app/src/menu.rs:1562-1574` | from subtrees whose depths are their nesting levels the new tree has depth = nesting level everywhere, and nothing is selected |
| `MenuTree.SubMenu.IncrementDepth` | `app/src/menu.rs:1576-1583` | every menu below goes exactly one level down, for every level it may be on |
| `MenuTree.SubMenu.ActivePathDepths` | `app/src/menu.rs:1761-1777` | in a tree with depth = nesting level the active path has one menu of each depth |
| `MenuTree.SubMenu.ActiveIsLastOfPath` | `app/src/menu.rs:1761-1777` | the active menu is the last one of the active path |
| `MenuTree.SubMenu.ActiveMenu` | `app/src/menu.rs:1761-1777` | finds the deepest menu that remembered selections lead to |
| `MenuTree.SubMenu.SelectInternal` | `app/src/menu.rs:1646-1715` | the cursor goes where the action leads, a given index being stored as it is, and its row becomes the hovered one |
| `MenuTree.SubMenu.SelectWithSource` | `app/src/menu.rs:1717-1738` | moves the cursor, records the source, and reports one selection |
| `MenuTree.SubMenu.ResetSelection` | `app/src/menu.rs:1595-1600` | forgets row, item and source, and keeps the hovered row |
| `MenuTree.SubMenu.SelectFirstSelectable` | `app/src/menu.rs:1779-1790` | succeeds iff some row is selectable, then the cursor is on the first such row; otherwise changes nothing |
| `MenuTree.SubMenu.PathIsKept` | `app/src/menu.rs:1761-1777` | when the menus above the active one keep their selections the old active path is a prefix of the new one, longer iff the formerly active cursor is on a submenu with a selection |
| `MenuTree.SubMenu.OpenSelectedSubmenu` | `app/src/menu.rs:1792-1797` | succeeds iff the active cursor is on a submenu with a selectable row; then that submenu is appended to the active path on its first selectable row with a keyboard selection, and no other menu changes |
| `MenuTree.SubMenu.SelectedActionForEnter` | `app/src/menu.rs:1799-1823` | returns the action under the active cursor; without one it opens the submenu there, if it can, and otherwise changes nothing |
| `MenuTree.SubMenu.EnterRunsTheItemUnderTheCursor` | `app/src/menu.rs:1799-1823` | with the active cursor on an item, Enter has the action of that item: of the only one of a row or of the one at its place |
| `MenuTree.SubMenu.SelectActive` | `app/src/menu.rs:2407` | moves the cursor of the deepest active menu, as a keyboard selection, changes no other menu, and keeps the path to it |
| `MenuTree.SubMenu.HandleAction` | `app/src/menu.rs:2374-2433` | for each action the whole effect on the tree and on the events: which menu may change and to what, with the recorded source, that all others keep every field, and that hover actions for another depth do nothing |
| `MenuTree.SubMenu.CannotHandleIff` | `app/src/menu.rs:2380-2407` | exactly which actions index past the end of the items: steps in the menu they are meant for, when its selected row is past the end in one of two situations |
| `MenuView.Menu.SetItems` | `app/src/menu.rs:2170-2178` | the new items are not relabelled, so that depths are nesting levels iff there is no submenu among them |
| `MenuView.Menu.HandleAction` | `app/src/menu.rs:2447-2459` | a suppressed leaf hover changes nothing but the suppression; every other action has its whole effect on the tree, and a leaf hover also moves the anchor |
| `SafeTriangleHover.PointInTriangleIffConvexCombination` | `app/src/safe_triangle.rs:99-114` | for a triangle with an area, of either orientation, the sign test accepts exactly the convex combinations of the corners |
| `SafeTriangleHover.SafeTriangleIsTransit` | `app/src/safe_triangle.rs:75-91` | with t the fraction of the way to the near side, on either side of the target, the test accepts iff t <= 1 and the vertical move is at most 80 t; with the anchor level with the near side it accepts the vertical line |
| `SafeTriangleHover.SafeTriangleIsHullIff` | `app/src/safe_triangle.rs:75-114` | the test accepts exactly the points of the safe triangle, for all points, iff the anchor is not level with the near side |
| `SafeTriangleHover.SafeTriangleIsHullOrLine` | `app/src/safe_triangle.rs:75-114` | the accepted points are those of the triangle or, for a level anchor, those of the vertical line through it |
| `SafeTriangleHover.LevelAnchorSuppressesFarAway` | `app/src/safe_triangle.rs:75-91` | an anchor above a corner of the target that suppresses a hover 900 points away from it and outside of the triangle |
| `SafeTriangleHover.SuppressesIff` | `app/src/safe_triangle.rs:51-92` | nothing is suppressed without a target or an anchor or with the anchor inside the target; a movement too small to count repeats the previous answer; any other is suppressed iff it leads into the triangle, or along the vertical line of a level anchor |
| `SafeTriangleHover.NearXIsNearer` | `app/src/safe_triangle.rs:75-81` | the side the triangle is built on is the nearer one of the two |
| `SafeTriangleHover.SafeTriangle.SetTargetRect` | `app/src/safe_triangle.rs:37-43` | sets the target; removing it forgets the anchor and ends suppression |
| `SafeTriangleHover.SafeTriangle.ShouldSuppressHover` | `app/src/safe_triangle.rs:51-92` | the answer on each path, in terms of the anchor, the target and the triangle, which is also what the flag holds afterwards; suppression implies a target and an anchor |
| `SafeTriangleHover.SafeTriangle.UpdatePosition` | `app/src/safe_triangle.rs:94-96` | moves the anchor and nothing else |
| `SafeTriangleHover.RunsAreCoherent` | `app/src/safe_triangle.rs:45-97` | in every run of hovers suppression implies that target and anchor are set |
| `SafeTriangleHover.SuppressedStretch` | `app/src/menu.rs:2447-2459` | while hovers are suppressed the anchor and the hovered row stand still, and each suppressed position is in the hull of the one triangle of that anchor, or on the vertical line through it if it is level with the target, or within squared distance 4 of it |
| `SafeTriangleHover.StretchStartsInTheTriangle` | `app/src/menu.rs:2447-2459` | the first suppressed hover after one that was not is a movement of at least squared distance 4 into the triangle of the position before it, or along the vertical line if that is level with the target |
| `DebounceStream.Debounce.Drain` | `app/src/debounce.rs:102-115` | the loop reads everything that has arrived, keeping the last item, with the timer restarted iff something was read |
| `DebounceStream.Debounce.PollNext` | `app/src/debounce.rs:92-127` | one poll reads everything that has arrived; the latest item becomes pending with a new timer, and is the answer if the stream has ended or the timer is over; with nothing pending the end is announced |
| `DebounceStream.AnswersAreTheItems` | `app/src/debounce.rs:92-127` | the answers of a run are the items of its emissions, in order |
| `DebounceStream.PassedOnIff` | `app/src/debounce.rs:92-127` | under any schedule an item is passed on at a time iff that is the time of the first poll that finds it the latest arrival and a period after the poll that read it, or the source closed |
| `DebounceStream.ScheduleIsExactIff` | `app/src/debounce.rs:9-23` | every item is passed on at its due time and no other, or not at all if it is superseded, iff each due item has a poll at its due time and, unless it is due at the close, one at its arrival |
| `DebounceStream.CoveringScheduleIsExact` | `app/src/debounce.rs:9-23` | under such a schedule an item is passed on exactly at its due time: a period after its arrival iff no other item arrives by then, the last one at the latest at the close |
| `DebounceStream.WakeUpsCover` | `app/src/debounce.rs:92-127` | a schedule that polls at every arrival, at the close, and no later than the deadline of whichever timer still runs is one |
| `DebounceStream.DocumentedExample` | `app/src/debounce.rs:12-23` | the documented run: items at 0, 30, 60 and 200, a period of 50 and polls at 0, 30, 60, 110, 200 and 250 pass on the third item at 110 and the fourth at 250, and nothing else |
| `DebounceStream.EndIsTheEndOfTheSource` | `app/src/debounce.rs:95-113` | the end is never announced before the source has ended, and always after the poll that saw the close |
| `DebounceStream.EndIsAnnouncedIff` | `app/src/debounce.rs:95-113` | the end is announced by exactly the polls after one that saw the close, and by that one if nothing is pending or unread |
| `DebounceStream.CloseFlushes` | `app/src/debounce.rs:109-112` | once the close has been seen the last item of the source is the last one passed on |
| `DebounceStream.TimerKeepsTheDistance` | `app/src/debounce.rs:117-124` | an item passed on by the timer comes more than a period after the one before it, under any schedule |
| `DebounceStream.RunsKeepInv` | `app/src/debounce.rs:92-127` | after every poll of every schedule a timer runs iff an item is pending, the pending item is the last one read, and items were passed on in order and at most once |
| `DebounceStream.ReadItemsAreAccountedFor` | `app/src/debounce.rs:103-107` | items read = passed on + superseded + pending |
| `TimedSource.Source.PollNext` | `app/src/debounce.rs:103` | the assumed stream: yields the arrivals in order once they are due, then the close for good |
| `ThrottleStream.Throttle.PollNext` | `app/src/throttle.rs:25-53` | one poll reads nothing while a timer runs; when it is over it reads everything that has arrived and answers with the latest item, or with the end; without a timer it reads and answers one item |
| `ThrottleStream.AnswersAreTheItems` | `app/src/throttle.rs:25-53` | the answers of a run are the items of its emissions, in order |
| `ThrottleStream.OutputIsSpacedSubsequence` | `app/src/throttle.rs:25-53` | under any schedule the output is a subsequence of the source with consecutive items at least a period apart |
| `ThrottleStream.ThroughputIsBounded` | `app/src/throttle.rs:25-53` | any closed interval of length T sees at most floor(T / period) + 1 items |
| `ThrottleStream.EndIsTheEndOfTheSource` | `app/src/throttle.rs:31-36` | the end is announced only after the source has ended |
| `ThrottleStream.EndIsAnnouncedIff` | `app/src/throttle.rs:25-53` | the end is announced by exactly the polls after the close that find the timer over, or none and nothing unread |
| `ThrottleStream.UpToDateUntilTheEnd` | `app/src/throttle.rs:40-46` | until the end is announced the latest item read is already passed on |
| `ThrottleStream.NothingAfterTheEnd` | `app/src/throttle.rs:31-36` | nothing is passed on after the end was announced |
| `ThrottleStream.AfterTheEndIff` | `app/src/throttle.rs:31-51` | a poll after an announcement of the end is answered Pending iff the announcement was made without a running timer and less than a period ago, otherwise with the end; the two kinds of announcement alternate |
| `ThrottleStream.LastItemSurvivesIff` | `app/src/throttle.rs:25-53` | under any schedule the last item of the source is passed on iff, at the first poll after the close, it has been read already, or it is the next to be read and no timer runs |
| `ThrottleStream.ScheduleIsExactIff` | `app/src/throttle.rs:25-53` | the output is the recursive specification over the arrivals, item for item and time for time, iff no poll comes too late and nothing is due at the end |
| `ThrottleStream.CoveringScheduleIsExact` | `app/src/throttle.rs:25-53` | under such a schedule the output is the specification |
| `ThrottleStream.WakeUpsCover` | `app/src/throttle.rs:26-52` | a schedule that polls a running timer at its deadline, and without one the stream at the next arrival, for as long as something is due, is one |
| `ThrottleStream.TheLastItemCanBeLost` | `app/src/throttle.rs:32-36` | the run with items at 0 and 10, a close at 20, a period of 50 and polls at 0 and 50 passes on the first item only |
| `CrashRecovery.CrashRecoveryProcess.Kill` | `app/src/crash_recovery.rs:71-83` | the child is dead afterwards; the running flag is cleared only if it was alive |
| `CrashRecovery.CrashRecoveryProcess.HandleDrawFrameError` | `app/src/crash_recovery.rs:85-113` | records the error for its window only, and exits iff it is the third in a row there |
| `CrashRecovery.CrashRecoveryProcess.HandleFrameDrawn` | `app/src/crash_recovery.rs:122-154` | records the success for its window only, resets its errors, and kills the child iff it is the tenth success there |
| `CrashRecovery.Monitor.constructor` | `app/src/crash_recovery.rs:186-210` | the running flag is set iff there is a child |
| `CrashRecovery.Monitor.OnDrawFrameError` | `app/src/crash_recovery.rs:237-241` | forwards to the child if there is one |
| `CrashRecovery.Monitor.OnFrameDrawn` | `app/src/crash_recovery.rs:243-266` | the child is put back iff it is still alive, otherwise it is dead and one torn-down event is emitted |
| `CrashRecovery.Monitor.TearDown` | `app/src/crash_recovery.rs:268-272` | afterwards there is no child, the former one is dead and the running flag cleared, and no event is emitted |
| `CrashRecovery.RunsAgree` | `app/src/crash_recovery.rs:237-272` | in every run running flag, child presence and child liveness agree, and the torn-down event is emitted at most once |
| `CrashRecovery.ExitsOnlyWithALivingChild` | `app/src/crash_recovery.rs:100-112` | the process exits only on a draw error and only while the child that takes over is alive |
| `CrashRecovery.RunsEndAsTheirCallsSay` | `app/src/crash_recovery.rs:85-272` | how every run ends, as a function of its calls alone: the child is there until a teardown or a tenth success of one window, the process exits exactly on a third error in a row, and the torn-down event is emitted exactly if a tenth success comes first |
| `CrashRecovery.ChildIsPresentIff` | `app/src/crash_recovery.rs:122-272` | while the process has not exited there is a child iff one was spawned, no teardown has been called and no window has had ten successes |
| `CrashRecovery.NothingWithoutAChild` | `app/src/crash_recovery.rs:237-272` | if no child was spawned nothing ever changes |
| `CrashRecovery.CountersAreTheHistory` | `app/src/crash_recovery.rs:85-154` | in every run, up to and including an exit, each window's records are the frame results of the calls made, its error counter is the trailing error run and its success counter the number of successes |
| `CrashRecovery.NextFrameEndsIff` | `app/src/crash_recovery.rs:100-153` | while a child lives a draw error exits iff the two frames of the window before it failed, and a success ends the child iff nine of that window were successful before |
| `CrashRecovery.AtMost29Frames` | `app/src/crash_recovery.rs:85-154` | while the child lives no window has had more than 29 frame results |
| `CrashRecovery.ThirtiethFrameEndsTheRecovery` | `app/src/crash_recovery.rs:85-154` | the 30th frame result of a window always ends in a killed child or an exit |
| `CrashRecovery.BoundIsReached` | `app/src/crash_recovery.rs:85-154` | a run with 29 frame results for one window and a living child |
| `RepositoryUpdates.KeepTargets` | `app/src/warp_managed_paths_watcher.rs:94-110` | the loop keeps exactly the targets whose paths pass the test |
| `RepositoryUpdates.FilterRepositoryUpdate` | `app/src/warp_managed_paths_watcher.rs:84-133` | in whatever order the moves come, each kept target stays in its own set, a move inside stays a move, one from outside is an addition and one to the outside a deletion, and there is nothing else; the answer is nothing if that is empty |
| `RepositoryUpdates.FilteredRefreshes` | `app/src/warp_managed_paths_watcher.rs:94-130` | the filtered update adds, modifies or moves something to a path iff the path passes the test and the update does |
| `RepositoryUpdates.FilteredRemoves` | `app/src/warp_managed_paths_watcher.rs:94-130` | the filtered update deletes a path or moves it away iff the path passes the test and the update does |
| `RepositoryUpdates.FilterCommutesWithApply` | `app/src/warp_managed_paths_watcher.rs:84-133` | applying the update and keeping some paths is keeping them and applying the filtered update, including moves across the boundary |
| `RepositoryUpdates.FilterTwiceIsFilterByBoth` | `app/src/warp_managed_paths_watcher.rs:84-133` | filtering by one test and then another is filtering by both, also when nothing is left in between |
| `RepositoryUpdates.NestedPrefixes` | `app/src/warp_managed_paths_watcher.rs:67-72` | filtering by a prefix and then by a longer one is filtering by the longer one |
| `RepositoryUpdates.TouchesIffAnEntrySurvives` | `app/src/warp_managed_paths_watcher.rs:64-83` | an update touches a prefix iff some entry survives the filter |
| `RepositoryUpdates.FilterIsNoneIff` | `app/src/warp_managed_paths_watcher.rs:132` | the filter answers nothing iff the prefix is untouched and neither flag is set |
| `Network.Condition.Set` | `app/src/util/sync.rs:48-52` | the condition is set, for all its clones |
| `Network.NetworkStatus.ReachabilityChange` | `app/src/network.rs:50-76` | the status is what was reported; on a change an event is emitted, coming online sets the pending condition, and going offline makes a new one; all conditions ever created change as the step function says |
| `Network.NetworkStatus.WaitForOnline` | `app/src/network.rs:80-88` | takes the step of the model: the future is recorded with the condition it shares, and waits for nothing iff the client is online |
| `Network.StatusIsTheLastReport` | `app/src/network.rs:50-59` | after any run the status is the last one reported, or online if none was |
| `Network.RunsAreCoherent` | `app/src/network.rs:50-88` | in every run there is a pending condition iff the client is offline, it is the latest one and not set, and all others are set |
| `Network.EventsAlternate` | `app/src/network.rs:58-75` | the emitted events strictly alternate, and the last one is the current status |
| `Network.ReleasedIffOnlineSince` | `app/src/network.rs:78-88` | no lost wake-up and no spurious one: a future is released iff, by the reports, the client was online when it was made or at some point since |
| `ControlCodes.ParseWith` | `app/src/ai/control_code_parser.rs:26-52` | the loop produces the rendering, for any table of control codes |
| `ControlCodes.ParseControlCodes` | `app/src/ai/control_code_parser.rs:26-101` | with the actual table the display is the texts of the bytes: a control code as its key in brackets after a space, a printable character as itself, any other byte as two hexadecimal digits |
| `ControlCodes.TokenIsText` | `app/src/ai/control_code_parser.rs:34-45` | the text of every byte |
| `ControlCodes.RenderIsHomomorphic` | `app/src/ai/control_code_parser.rs:26-52` | rendering two chunks together is rendering them one after the other, the ranges of the second shifted |
| `ControlCodes.RangesDelimitTheControlCodes` | `app/src/ai/control_code_parser.rs:34-38` | one range per control byte, ordered, disjoint, in bounds, each exactly the bracketed name of that byte after a space |
| `ControlCodes.ByteToKeystroke` | `app/src/ai/control_code_parser.rs:57-101` | which bytes are control codes, and that their keys are printable and without brackets |
| `ControlCodes.ControlKeysAreAsciiControls` | `app/src/ai/control_code_parser.rs:58-84` | six codes have a key of their own; any other is sent by control and the character 0x40 above it, in lower case if that is a letter |
| `ControlCodes.KeystrokesIdentifyTheirBytes` | `app/src/ai/control_code_parser.rs:57-101` | no two control codes have the same keystroke, except line feed and carriage return, which are both enter |
| `ControlCodes.ControlCodesRenderCleanly` | `app/src/ai/control_code_parser.rs:34-45` | the display is printable ASCII, so character positions are byte positions, and no name contains a bracket |
| `Utf8.Encode` | `app/src/prefix.rs:17` | the encoding of a character has its length, a leading byte that is no continuation byte, and continuation bytes after it (section 3 of RFC 3629) |
| `Utf8.DecodeEncode` | `app/src/prefix.rs:17` | decoding an encoding gives the character back, and the leading byte tells its length (section 3 of RFC 3629) |
| `Utf8.BoundaryIffWholeCharacters` | `app/src/prefix.rs:25` | a byte position is a character boundary iff some number of whole characters ends there |
| `Utf8.SliceTo` | `app/src/prefix.rs:25` | slicing at a boundary gives the whole characters before it |
| `CommonPrefix.CommonByteLenIsOffset` | `app/src/prefix.rs:13-18` | the sum of the lengths of the equal leading characters is the byte length of that many characters of the first string |
| `CommonPrefix.LongestCommonPrefix` | `app/src/prefix.rs:5-27` | slices only at a character boundary; the result is a non-empty prefix of every input that every common prefix is a prefix of, and there is none iff there are no inputs or they share no prefix |
| `WindowRestore.App.OpenFromRestored` | `app/src/root_view.rs:534-694` | opens the windows of the plan, and remembers the last hotkey window; nothing without saved state or with restoring switched off |
| `WindowRestore.App.OpenLaunchConfig` | `app/src/root_view.rs:353-401` | one empty window, or reuse of the active one, or every template once in order with the active one last, whatever the index is |
| `WindowRestore.App.OpenSnapshots` | `app/src/root_view.rs:553-637` | the loop opens every snapshot but the active one, hides the hotkey windows, counts the normal ones, and finds the active index iff it is that of a normal one |
| `WindowRestore.RestoredWindows` | `app/src/root_view.rs:551-692` | every normal window is opened once and visible, in the saved order but the active one last; an empty one if there is none; hotkey windows are opened hidden, none on Windows |
| `WindowRestore.ActiveLastIsPermutation` | `app/src/root_view.rs:366-399` | moving the active window to the end loses and doubles nothing, also for an index past the end |
| `WindowRestore.SomethingIsVisibleAndTheActiveIsLast` | `app/src/root_view.rs:639-692` | a visible window is always opened, and the active one is last if the index is that of a normal window |
| `WindowRestore.QuakeIsTheLastHidden` | `app/src/root_view.rs:597-604` | the remembered hotkey window is the last hidden one opened, or the former one if none was |
| `WindowRestore.GetAppState` | `app/src/app_state.rs:290-335` | saves the windows with a workspace that has tabs and is no drag preview, in order, and the index of the active window among all open ones |
| `WindowRestore.IsSavedIff` | `app/src/app_state.rs:307-326` | a window is saved iff it has a workspace with tabs that is no drag preview |
| `WindowRestore.PlanComesFromOrigins` | `app/src/root_view.rs:551-692` | the windows of the plan, one by one, come from the snapshots at these positions or are empty |
| `WindowRestore.RestoringEndsWithTheActiveWindowIff` | `app/src/app_state.rs:298-328` | saving and restoring opens the window that was active last iff it was saved, and either it is not the hotkey window and no unsaved window came before it; or its index is that of no normal snapshot, some snapshot is normal, and restoring opens the active one and nothing that came after it |
| `WindowRestore.RestoringCanEndWithAnotherWindow` | `app/src/app_state.rs:298-328` | three windows, the first not saved, for which another window than the active one is opened last |
| `WindowRestore.WrongIndexCanBeHarmless` | `app/src/app_state.rs:298-328` | two windows for which the saved index is past the end and the active window is opened last all the same |
| `WindowRestore.TemplatesComeFrom` | `app/src/launch_configs/launch_config.rs:23-33` | from the open windows over the saved state to the configuration: the templates, in the order of opening, are those of the open windows at these positions |
| `WindowRestore.TemplatesComeFromSnapshots` | `app/src/launch_configs/launch_config.rs:23-33` | the same from any saved state to the configuration, with the positions among its snapshots |
| `WindowRestore.LaunchEndsWithTheActiveWindowIff` | `app/src/launch_configs/launch_config.rs:23-33` | saving and launching opens the window that was active last iff it is in the configuration, and either all windows before it are, or its index is past the end of the templates and no window in the configuration comes after it |
| `WindowRestore.ActiveLastEndsIff` | `app/src/root_view.rs:366-399` | the same for any list of which only some elements are kept while the index is not adapted, in particular for the snapshots of a saved state |
| `WindowRestore.LaunchAfterSavingCanEndWithAnotherWindow` | `app/src/launch_configs/launch_config.rs:23-33` | three open windows, the first not saved and none the hotkey window, for which another window than the active one is launched last |
| `WindowRestore.LaunchCanEndWithAnotherWindow` | `app/src/launch_configs/launch_config.rs:23-33` | three windows, the hotkey window first, for which another template is opened last |
| `AgentTips.FormatText` | `app/src/ai/agent_tips.rs:39-52` | fragments are never empty and show the text as a scan that switches the style at each backtick |
| `AgentTips.ToFormattedText` | `app/src/ai/agent_tips.rs:310-334` | the same for the whole tip, with its prefix and with its placeholders replaced by the keystroke, if there is one |
| `AgentTips.CodeIffOddTicksBefore` | `app/src/ai/agent_tips.rs:39-52` | a character that is no backtick is shown, in its place, as code iff an odd number of backticks precede it |
| `AgentTips.TextsAreTheTextWithoutTicks` | `app/src/ai/agent_tips.rs:39-52` | the texts of the fragments together are the text without its backticks |
| `AgentTips.ReplaceThenScan` | `app/src/ai/agent_tips.rs:313-316` | how replacing the placeholders first styles the keystroke and everything after it |
| `AgentTips.ReplaceFirst` | `app/src/ai/agent_tips.rs:313-316` | replacing puts the keystroke in the place of the first placeholder and goes on after it |
| `AgentTips.TipsAreAsIntendedIff` | `app/src/ai/agent_tips.rs:310-334` | a tip shows its keystroke whole and the rest in its own style iff it has no placeholder or the keystroke has no backtick |
| `AgentTips.TickedKeyTurnsTheRestIntoCode` | `app/src/ai/agent_tips.rs:310-334` | a tip that begins with a keystroke ending in a backtick loses the backtick and shows everything after the keystroke as code |
| `AgentTips.CancelTipWithTickedKey` | `app/src/ai/agent_tips.rs:268` | the same for the tip about cancelling and the displayed keystroke of control and backtick |
| `HistorySearch.MatchesIff` | `app/src/input_suggestions.rs:452-461` | for a query that is not blank, an entry matches, untrimmed, iff its trimmed text starts with the trimmed query and it has no leading whitespace |
| `HistorySearch.HighlightsAreTheQuery` | `app/src/input_suggestions.rs:461-466` | the highlighted byte indices are in range of the trimmed text and are exactly the bytes of the query |
| `HistorySearch.TrimIsExact` | `app/src/input_suggestions.rs:456-462` | trimming takes away whitespace at both ends, and all of it |
| `HistorySearch.ResultsAreTheMatchesInOrder` | `app/src/input_suggestions.rs:456-477` | for any query the filtering loop keeps the matching entries in their order, none lost and none invented |
| `HistorySearch.SearchFindsTheMatches` | `app/src/input_suggestions.rs:452-478` | the search finds exactly the entries whose text starts with the trimmed prefix, in order, each with its trimmed text, its other fields, and exactly the leading bytes of the prefix highlighted |
| `HistorySearch.BlankQuerySuggestsEverything` | `app/src/input_suggestions.rs:450-457` | a blank query suggests every entry and highlights nothing |

## Left out

- Rendering, layout, accessibility, key bindings, `notify`, and scrolling to the selected row: no state of
  the modelled machines depends on them.
- Selecting by name or by action, menu variants, heights: single searches and setters.
- Wakers, pinning and the executor: a poll is an explicit call. That an executor polls when the stream or the
  running timer wakes the operator is the assumption of the two lemmas `WakeUpsCover`; the other results
  about the operators hold for any schedule, or say exactly for which.
- Rounding of 32-bit floats in the safe triangle: coordinates are reals.
- Spawning, waiting for and signalling processes, preferences, and the choice of a recovery mechanism.
- File watching, and turning file system events into updates: one-to-one conversions.
- Window bounds, style, blur, GPU callbacks and the contents of tabs in `WindowRestore`: a window is its
  source and whether it is hidden. Turning a snapshot into a template is a parameter.
- Overflow of machine integers: counters and indices are unbounded, and the saturating additions and
  subtractions of the navigation code are modelled only where they can saturate, at zero.
- `font_fallback.rs`, the clipboard, voice input, persistence and platform code: tables and wrappers.
- MenuTree.SubMenu.HandleAction: says nothing about an action that indexes past the end of the items, which
  `MenuTree.SubMenu.CannotHandleIff` characterises; the panic itself ends the run.
- MenuView.Menu.SetItems: states what becomes of the depths for items built by `SubMenu::new`; that other
  items keep theirs follows from its frame alone.
