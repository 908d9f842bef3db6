/** Keyboard navigation inside one menu: the cursor (row, item in row) that `SubMenu::select_internal`
    moves cyclically over the rows, skipping the rows that cannot be selected.

    The two directions are written with different iterator chains. Both are related here to one number,
    the rank of a position in reading order: Next adds one to it and Previous takes one away, modulo the
    number of positions. That the two are inverse and that there is a single orbit follows. */
module MenuNavigation {
  import opened Options

  /** What navigation reads of a menu item: `selectable()` and `items_len()`. */
  datatype Row = Row(selectable: bool, len: Option<nat>) {
    /** `items_len().map_or(0, |l| l.saturating_sub(1))` */
    function LastItem(): nat {
      match len
      case Some(l) => if l == 0 then 0 else l - 1
      case None => 0
    }

    /** The number of cursor positions the row offers. */
    function Positions(): nat {
      if selectable && len.Some? then len.value else 0
    }
  }

  datatype SelectAction = Previous | Next | Index(row: nat, item: nat)

  datatype Position = Position(row: nat, item: nat)

  /** `select_internal` indexes `self.items` without a bounds check, hence the second case. */
  datatype Outcome = Moved(pos: Position) | Panic

  // ----- the iterator chains

  function Indices(n: nat): seq<nat> {
    seq(n, i => i)
  }

  function Reversed(s: seq<nat>): seq<nat> {
    seq(|s|, i requires 0 <= i < |s| => s[|s| - 1 - i])
  }

  /** `s.cycle().skip(skip).take(take)` */
  function CycleSkipTake(s: seq<nat>, skip: nat, take: nat): seq<nat> {
    if s == [] then [] else seq(take, k requires 0 <= k => s[(skip + k) % |s|])
  }

  predicate Selectable(rows: seq<Row>, i: nat) {
    i < |rows| && rows[i].selectable
  }

  /** `candidates.find(|i| rows[i].selectable)` */
  function Find(rows: seq<Row>, candidates: seq<nat>): (r: Option<nat>)
    ensures r.Some? ==> exists k :: 0 <= k < |candidates| && candidates[k] == r.value && Selectable(rows, r.value) &&
                                    forall j :: 0 <= j < k ==> !Selectable(rows, candidates[j])
    ensures r.None? ==> forall j :: 0 <= j < |candidates| ==> !Selectable(rows, candidates[j])
  {
    if candidates == [] then None
    else if Selectable(rows, candidates[0]) then Some(candidates[0])
    else
      var rest := Find(rows, candidates[1..]);
      assert rest.Some? ==> exists k :: 1 <= k < |candidates| && candidates[k] == rest.value &&
                                        forall j :: 0 <= j < k ==> !Selectable(rows, candidates[j]) by {
        if rest.Some? {
          var k :| 0 <= k < |candidates[1..]| && candidates[1..][k] == rest.value &&
                   forall j :: 0 <= j < k ==> !Selectable(rows, candidates[1..][j]);
          assert candidates[k + 1] == rest.value;
          assert forall j :: 1 <= j < k + 1 ==> candidates[j] == candidates[1..][j - 1];
        }
      }
      assert rest.None? ==> forall j :: 1 <= j < |candidates| ==> candidates[j] == candidates[1..][j - 1];
      rest
  }

  /** `unwrap_or(row)` on the forward search. */
  function NextRow(rows: seq<Row>, row: nat): nat {
    match Find(rows, CycleSkipTake(Indices(|rows|), row + 1, |rows|))
    case Some(r) => r
    case None => row
  }

  /** `unwrap_or(row)` on the backward search; the number of skipped elements is a saturating difference. */
  function PreviousRow(rows: seq<Row>, row: nat): nat {
    var skip := if row <= |rows| then |rows| - row else 0;
    match Find(rows, CycleSkipTake(Reversed(Indices(|rows|)), skip, |rows|))
    case Some(r) => r
    case None => row
  }

  /** `SubMenu::select_internal`, as a function of the rows and the stored selection. */
  function SelectStep(rows: seq<Row>, action: SelectAction, row: Option<nat>, item: Option<nat>): Outcome {
    match action
    case Index(r, i) => Moved(Position(r, i))
    case Previous =>
      if row.None? then Moved(Position(0, 0))
      else if item.Some? && item.value > 0 then Moved(Position(row.value, item.value - 1))
      else
        var r := PreviousRow(rows, row.value);
        if r < |rows| then Moved(Position(r, rows[r].LastItem())) else Panic
    case Next =>
      if row.None? then Moved(Position(0, 0))
      else if item.Some? && row.value >= |rows| then Panic
      else if item.Some? && item.value < rows[row.value].LastItem() then Moved(Position(row.value, item.value + 1))
      else Moved(Position(NextRow(rows, row.value), 0))
  }

  // ----- which row a search reaches

  predicate NoneSelectable(rows: seq<Row>, lo: nat, hi: nat) {
    forall i :: lo <= i < hi ==> !Selectable(rows, i)
  }

  /** Going forward from `row` and around the end, `r` is the first selectable row. */
  predicate FirstAfter(rows: seq<Row>, row: nat, r: nat) {
    && Selectable(rows, r)
    && if r > row then NoneSelectable(rows, row + 1, r)
       else NoneSelectable(rows, row + 1, |rows|) && NoneSelectable(rows, 0, r)
  }

  /** Going backward from `row` and around the start, `r` is the first selectable row. */
  predicate FirstBefore(rows: seq<Row>, row: nat, r: nat) {
    && Selectable(rows, r)
    && if r < row then NoneSelectable(rows, r + 1, row)
       else NoneSelectable(rows, 0, row) && NoneSelectable(rows, r + 1, |rows|)
  }

  /** The rows in the order the forward chain offers them. */
  lemma ForwardChain(n: nat, row: nat)
    requires row < n
    ensures var c := CycleSkipTake(Indices(n), row + 1, n);
            |c| == n && forall k :: 0 <= k < n ==> c[k] == if row + 1 + k < n then row + 1 + k else row + 1 + k - n
  {
    var c := CycleSkipTake(Indices(n), row + 1, n);
    forall k | 0 <= k < n ensures c[k] == if row + 1 + k < n then row + 1 + k else row + 1 + k - n {
      WrapOnce(row + 1 + k, n);
    }
  }

  /** The rows in the order the backward chain, which reverses before it cycles, offers them. */
  lemma BackwardChain(n: nat, row: nat)
    requires row < n
    ensures var c := CycleSkipTake(Reversed(Indices(n)), n - row, n);
            |c| == n && forall k :: 0 <= k < n ==> c[k] == if k < row then row - 1 - k else row + n - 1 - k
  {
    var c := CycleSkipTake(Reversed(Indices(n)), n - row, n);
    forall k | 0 <= k < n ensures c[k] == if k < row then row - 1 - k else row + n - 1 - k {
      WrapOnce(n - row + k, n);
    }
  }

  /** No selectable row is ever skipped: the forward chain finds the cyclically next selectable row, and
      stays where it is exactly when no row is selectable. */
  lemma {:induction false} NextRowIsFirstAfter(rows: seq<Row>, row: nat)
    requires row < |rows|
    ensures if NoneSelectable(rows, 0, |rows|) then NextRow(rows, row) == row
            else FirstAfter(rows, row, NextRow(rows, row))
  {
    var n := |rows|;
    var c := CycleSkipTake(Indices(n), row + 1, n);
    ForwardChain(n, row);
    var found := Find(rows, c);
    if found.None? {
      forall i | 0 <= i < n ensures !Selectable(rows, i) {
        assert c[if i > row then i - row - 1 else i + n - row - 1] == i;
      }
    } else {
      var k :| 0 <= k < n && c[k] == found.value && forall j :: 0 <= j < k ==> !Selectable(rows, c[j]);
      forall i | row < i < n && (found.value > row ==> i < found.value) ensures !Selectable(rows, i) {
        assert c[i - row - 1] == i;
      }
      forall i | found.value <= row && 0 <= i < found.value ensures !Selectable(rows, i) {
        assert c[i + n - row - 1] == i;
      }
    }
  }

  /** The same for the backward chain. */
  lemma {:induction false} PreviousRowIsFirstBefore(rows: seq<Row>, row: nat)
    requires row < |rows|
    ensures if NoneSelectable(rows, 0, |rows|) then PreviousRow(rows, row) == row
            else FirstBefore(rows, row, PreviousRow(rows, row))
  {
    var n := |rows|;
    var c := CycleSkipTake(Reversed(Indices(n)), n - row, n);
    BackwardChain(n, row);
    var found := Find(rows, c);
    if found.None? {
      forall i | 0 <= i < n ensures !Selectable(rows, i) {
        assert c[if i < row then row - 1 - i else row + n - 1 - i] == i;
      }
    } else {
      var k :| 0 <= k < n && c[k] == found.value && forall j :: 0 <= j < k ==> !Selectable(rows, c[j]);
      FirstInBackwardChain(rows, row, c, k);
    }
  }

  lemma FirstInBackwardChain(rows: seq<Row>, row: nat, c: seq<nat>, k: nat)
    requires row < |rows| && |c| == |rows| && k < |c|
    requires forall j :: 0 <= j < |c| ==> c[j] == if j < row then row - 1 - j else row + |rows| - 1 - j
    requires Selectable(rows, c[k]) && forall j :: 0 <= j < k ==> !Selectable(rows, c[j])
    ensures FirstBefore(rows, row, c[k])
  {
    forall i | 0 <= i < row && (c[k] < row ==> i > c[k]) ensures !Selectable(rows, i) {
      assert c[row - 1 - i] == i;
    }
    forall i | c[k] >= row && c[k] < i < |rows| ensures !Selectable(rows, i) {
      assert c[row + |rows| - 1 - i] == i;
    }
  }

  /** The first selectable row of a menu, read from the top. */
  lemma FirstSelectableRow(rows: seq<Row>)
    ensures var first := Find(rows, Indices(|rows|));
            if first.None? then NoneSelectable(rows, 0, |rows|)
            else Selectable(rows, first.value) && NoneSelectable(rows, 0, first.value)
  {
    var first := Find(rows, Indices(|rows|));
    if first.None? {
      forall i | 0 <= i < |rows| ensures !Selectable(rows, i) {
        assert Indices(|rows|)[i] == i;
      }
    } else {
      var k :| 0 <= k < |rows| && Indices(|rows|)[k] == first.value &&
               forall j :: 0 <= j < k ==> !Selectable(rows, Indices(|rows|)[j]);
      forall i | 0 <= i < k ensures !Selectable(rows, i) {
        assert Indices(|rows|)[i] == i;
      }
    }
  }

  lemma WrapOnce(x: nat, n: nat)
    requires 0 < n && x < 2 * n
    ensures x % n == if x < n then x else x - n
  {
  }

  // ----- positions, their rank, and the orbit

  /** The rows of a menu: a selectable row offers at least one position (`SelectableRowsHaveItems` in MenuTree). */
  predicate WellFormed(rows: seq<Row>) {
    forall i :: 0 <= i < |rows| && rows[i].selectable ==> rows[i].len.Some? && rows[i].len.value > 0
  }

  predicate ValidPosition(rows: seq<Row>, p: Position) {
    Selectable(rows, p.row) && p.item < rows[p.row].Positions()
  }

  /** The sum of `items_len` over the selectable rows before row `r`. */
  function PositionsBefore(rows: seq<Row>, r: nat): nat
    requires r <= |rows|
  {
    if r == 0 then 0 else PositionsBefore(rows, r - 1) + rows[r - 1].Positions()
  }

  /** The number of positions of the menu, the period of navigation. */
  function Period(rows: seq<Row>): nat {
    PositionsBefore(rows, |rows|)
  }

  function Rank(rows: seq<Row>, p: Position): nat
    requires ValidPosition(rows, p)
  {
    PositionsBefore(rows, p.row) + p.item
  }

  function Move(rows: seq<Row>, action: SelectAction, p: Position): Outcome {
    SelectStep(rows, action, Some(p.row), Some(p.item))
  }

  lemma {:induction false} PositionsBeforeMonotone(rows: seq<Row>, lo: nat, hi: nat)
    requires lo <= hi <= |rows|
    ensures PositionsBefore(rows, lo) <= PositionsBefore(rows, hi)
    ensures NoneSelectable(rows, lo, hi) ==> PositionsBefore(rows, lo) == PositionsBefore(rows, hi)
  {
    if lo < hi {
      PositionsBeforeMonotone(rows, lo, hi - 1);
      assert NoneSelectable(rows, lo, hi) ==> !Selectable(rows, hi - 1);
    }
  }

  lemma RankInRange(rows: seq<Row>, p: Position)
    requires ValidPosition(rows, p)
    ensures Rank(rows, p) < PositionsBefore(rows, p.row + 1) <= Period(rows)
  {
    PositionsBeforeMonotone(rows, p.row + 1, |rows|);
  }

  /** Two positions with the same rank are the same position. */
  lemma RankInjective(rows: seq<Row>, p: Position, q: Position)
    requires ValidPosition(rows, p) && ValidPosition(rows, q)
    requires Rank(rows, p) == Rank(rows, q)
    ensures p == q
  {
    if p.row < q.row {
      PositionsBeforeMonotone(rows, p.row + 1, q.row);
    } else if q.row < p.row {
      PositionsBeforeMonotone(rows, q.row + 1, p.row);
    }
  }

  /** No position lies between the end of row `row` and the start of the first selectable row after it. */
  lemma RankOfFirstAfter(rows: seq<Row>, row: nat, r: nat)
    requires WellFormed(rows) && row < |rows| && FirstAfter(rows, row, r)
    ensures if r > row then PositionsBefore(rows, r) == PositionsBefore(rows, row + 1) < Period(rows)
            else PositionsBefore(rows, r) == 0 && PositionsBefore(rows, row + 1) == Period(rows)
  {
    if r > row {
      PositionsBeforeMonotone(rows, row + 1, r);
      RankInRange(rows, Position(r, 0));
    } else {
      PositionsBeforeMonotone(rows, row + 1, |rows|);
      PositionsBeforeMonotone(rows, 0, r);
    }
  }

  /** Next moves to the position of the following rank, wrapping at the period. */
  lemma NextAddsOne(rows: seq<Row>, p: Position)
    requires WellFormed(rows) && ValidPosition(rows, p)
    ensures var q := Move(rows, Next, p);
            q.Moved? && ValidPosition(rows, q.pos) &&
            Rank(rows, q.pos) == if Rank(rows, p) + 1 == Period(rows) then 0 else Rank(rows, p) + 1
  {
    RankInRange(rows, p);
    if p.item < rows[p.row].LastItem() {
      RankInRange(rows, Position(p.row, p.item + 1));
    } else {
      NextRowIsFirstAfter(rows, p.row);
      RankOfFirstAfter(rows, p.row, NextRow(rows, p.row));
    }
  }

  /** The last position of the first selectable row before row `row` comes right before the start of that row. */
  lemma RankOfFirstBefore(rows: seq<Row>, row: nat, r: nat)
    requires WellFormed(rows) && row < |rows| && FirstBefore(rows, row, r)
    ensures PositionsBefore(rows, r) + rows[r].LastItem() + 1 ==
            if r < row then PositionsBefore(rows, row) else Period(rows)
    ensures r >= row ==> PositionsBefore(rows, row) == 0
    ensures r < row ==> PositionsBefore(rows, row) > 0
  {
    if r < row {
      PositionsBeforeMonotone(rows, r + 1, row);
    } else {
      PositionsBeforeMonotone(rows, 0, row);
      PositionsBeforeMonotone(rows, r + 1, |rows|);
    }
  }

  /** Previous moves to the position of the preceding rank, wrapping below zero. */
  lemma {:induction false} PreviousTakesOne(rows: seq<Row>, p: Position)
    requires WellFormed(rows) && ValidPosition(rows, p)
    ensures var q := Move(rows, Previous, p);
            q.Moved? && ValidPosition(rows, q.pos) &&
            Rank(rows, q.pos) == if Rank(rows, p) == 0 then Period(rows) - 1 else Rank(rows, p) - 1
  {
    RankInRange(rows, p);
    if p.item == 0 {
      PreviousRowIsFirstBefore(rows, p.row);
      RankOfFirstBefore(rows, p.row, PreviousRow(rows, p.row));
    }
  }

  /** Next and Previous undo each other on every valid position. */
  lemma {:induction false} NextAndPreviousAreInverse(rows: seq<Row>, p: Position)
    requires WellFormed(rows) && ValidPosition(rows, p)
    ensures Move(rows, Next, p).Moved? && Move(rows, Previous, Move(rows, Next, p).pos) == Moved(p)
    ensures Move(rows, Previous, p).Moved? && Move(rows, Next, Move(rows, Previous, p).pos) == Moved(p)
  {
    NextAddsOne(rows, p);
    var q := Move(rows, Next, p).pos;
    PreviousTakesOne(rows, q);
    RankInRange(rows, p);
    RankInjective(rows, Move(rows, Previous, q).pos, p);
    PreviousTakesOne(rows, p);
    var o := Move(rows, Previous, p).pos;
    NextAddsOne(rows, o);
    RankInjective(rows, Move(rows, Next, o).pos, p);
  }

  /** `k` presses of Next. */
  function Presses(rows: seq<Row>, p: Position, k: nat): Outcome {
    if k == 0 then Moved(p)
    else match Presses(rows, p, k - 1)
      case Moved(q) => Move(rows, Next, q)
      case Panic => Panic
  }

  lemma {:induction false} PressesAddRank(rows: seq<Row>, p: Position, k: nat)
    requires WellFormed(rows) && ValidPosition(rows, p)
    requires k <= Period(rows)
    ensures var q := Presses(rows, p, k);
            q.Moved? && ValidPosition(rows, q.pos) &&
            Rank(rows, q.pos) == if Rank(rows, p) + k < Period(rows) then Rank(rows, p) + k
                                 else Rank(rows, p) + k - Period(rows)
  {
    RankInRange(rows, p);
    if k > 0 {
      PressesAddRank(rows, p, k - 1);
      NextAddsOne(rows, Presses(rows, p, k - 1).pos);
    }
  }

  /** Pressing Next as often as there are positions returns to the start. */
  lemma NextHasThePeriod(rows: seq<Row>, p: Position)
    requires WellFormed(rows) && ValidPosition(rows, p)
    ensures Presses(rows, p, Period(rows)) == Moved(p)
  {
    PressesAddRank(rows, p, Period(rows));
    RankInRange(rows, p);
    RankInjective(rows, Presses(rows, p, Period(rows)).pos, p);
  }

  /** There is one orbit: from any position, every position is reached by exactly one number of presses
      below the period. */
  lemma NextVisitsEveryPositionOnce(rows: seq<Row>, p: Position, q: Position)
    requires WellFormed(rows) && ValidPosition(rows, p) && ValidPosition(rows, q)
    ensures exists k: nat :: k < Period(rows) && Presses(rows, p, k) == Moved(q) &&
                             forall j: nat :: j < Period(rows) && Presses(rows, p, j) == Moved(q) ==> j == k
  {
    RankInRange(rows, p);
    RankInRange(rows, q);
    var k := if Rank(rows, p) <= Rank(rows, q) then Rank(rows, q) - Rank(rows, p)
             else Rank(rows, q) + Period(rows) - Rank(rows, p);
    PressesAddRank(rows, p, k);
    RankInjective(rows, Presses(rows, p, k).pos, q);
    forall j: nat | j < Period(rows) && Presses(rows, p, j) == Moved(q) ensures j == k {
      PressesAddRank(rows, p, j);
    }
  }

  // ----- where the code leaves the valid positions

  /** Without a selection both directions go to (0, 0) unchecked: that is a valid position exactly when the
      first row is selectable. */
  lemma FirstPressIsValidIffFirstRowIsSelectable(rows: seq<Row>, action: SelectAction, item: Option<nat>)
    requires WellFormed(rows) && !action.Index?
    ensures SelectStep(rows, action, None, item) == Moved(Position(0, 0))
    ensures ValidPosition(rows, Position(0, 0)) <==> Selectable(rows, 0)
  {
  }

  /** From any stored selection, an out-of-range row is dereferenced exactly in these two situations. */
  lemma {:induction false} SelectPanicsIff(rows: seq<Row>, action: SelectAction, row: Option<nat>, item: Option<nat>)
    ensures SelectStep(rows, action, row, item).Panic? <==>
            row.Some? && row.value >= |rows| &&
            ((action.Next? && item.Some?) ||
             (action.Previous? && (item.None? || item.value == 0) && NoneSelectable(rows, 0, |rows|)))
  {
    if action.Previous? && row.Some? {
      if row.value < |rows| {
        PreviousRowIsFirstBefore(rows, row.value);
      } else {
        PreviousRowFromOutside(rows, row.value);
      }
    }
  }

  /** From a row past the end the backward search starts at the last row. */
  lemma {:induction false} PreviousRowFromOutside(rows: seq<Row>, row: nat)
    requires row >= |rows|
    ensures PreviousRow(rows, row) == row <==> NoneSelectable(rows, 0, |rows|)
    ensures PreviousRow(rows, row) == row ||
            (Selectable(rows, PreviousRow(rows, row)) &&
             NoneSelectable(rows, PreviousRow(rows, row) + 1, |rows|))
  {
    var c := CycleSkipTake(Reversed(Indices(|rows|)), 0, |rows|);
    assert |c| == |rows| && forall k :: 0 <= k < |rows| ==> c[k] == |rows| - 1 - k;
    var found := Find(rows, c);
    assert PreviousRow(rows, row) == if found.Some? then found.value else row;
    if found.None? {
      forall i | 0 <= i < |rows| ensures !Selectable(rows, i) {
        assert c[|rows| - 1 - i] == i;
      }
    } else {
      var k :| 0 <= k < |rows| && c[k] == found.value && forall j :: 0 <= j < k ==> !Selectable(rows, c[j]);
      forall i | found.value < i < |rows| ensures !Selectable(rows, i) {
        assert c[|rows| - 1 - i] == i;
      }
    }
  }

  lemma {:induction false} MultipleIsLarge(d: nat, n: nat)
    requires d > 0
    ensures d * n >= n
  {
  }

  lemma {:induction false} RemainderIsUnique(a: nat, q: nat, r: nat, p: nat, t: nat, n: nat)
    requires a == q * n + r && a == p * n + t && r < n && t < n
    ensures r == t
  {
    if q > p {
      assert (q - p) * n == q * n - p * n;
      MultipleIsLarge(q - p, n);
    } else if p > q {
      assert (p - q) * n == p * n - q * n;
      MultipleIsLarge(p - q, n);
    }
  }

  lemma {:induction false} Distribute(q: nat, p: nat, n: nat)
    ensures (q + p) * n == q * n + p * n
  {
  }

  lemma {:induction false} QuotientAndRemainder(a: nat, n: nat) returns (q: nat, r: nat)
    requires n > 0
    ensures a == q * n + r && r < n && r == a % n
  {
    q, r := a / n, a % n;
  }

  lemma {:induction false} ModOfSum(x: nat, y: nat, n: nat, s: nat)
    requires n > 0 && s == x % n
    ensures (x + y) % n == (s + y) % n
  {
    var q, s' := QuotientAndRemainder(x, n);
    var p, t := QuotientAndRemainder(s + y, n);
    var u, v := QuotientAndRemainder(x + y, n);
    Distribute(q, p, n);
    RemainderIsUnique(x + y, q + p, t, u, v, n);
  }

  lemma {:induction false} SameLink(n: nat, row: nat, inside: nat, k: nat)
    requires k < n && inside == row % n
    ensures CycleSkipTake(Indices(n), row + 1, n)[k] == CycleSkipTake(Indices(n), inside + 1, n)[k]
  {
    ModOfSum(row, 1 + k, n, inside);
    assert (row + 1 + k) % n == (inside + 1 + k) % n;
  }

  /** From a row past the end the forward search wraps around as often as it takes. */
  lemma {:induction false} NextRowFromOutside(rows: seq<Row>, row: nat)
    requires rows != []
    ensures if NoneSelectable(rows, 0, |rows|) then NextRow(rows, row) == row
            else FirstAfter(rows, row % |rows|, NextRow(rows, row))
  {
    var n, inside := |rows|, row % |rows|;
    var c, c' := CycleSkipTake(Indices(n), row + 1, n), CycleSkipTake(Indices(n), inside + 1, n);
    forall k | 0 <= k < n ensures c[k] == c'[k] {
      SameLink(n, row, inside, k);
    }
    SameChain(rows, row, inside, c, c');
  }

  lemma {:induction false} SameChain(rows: seq<Row>, row: nat, inside: nat, c: seq<nat>, c': seq<nat>)
    requires inside < |rows|
    requires c == CycleSkipTake(Indices(|rows|), row + 1, |rows|)
    requires c' == CycleSkipTake(Indices(|rows|), inside + 1, |rows|)
    requires forall k :: 0 <= k < |rows| ==> c[k] == c'[k]
    ensures if NoneSelectable(rows, 0, |rows|) then NextRow(rows, row) == row
            else FirstAfter(rows, inside, NextRow(rows, row))
  {
    assert c == c';
    NextRowIsFirstAfter(rows, inside);
    if r :| Find(rows, c) == Some(r) {
      assert NextRow(rows, row) == r == NextRow(rows, inside);
    } else {
      NothingFound(rows, inside);
    }
  }

  lemma {:induction false} NothingFound(rows: seq<Row>, row: nat)
    requires row < |rows| && Find(rows, CycleSkipTake(Indices(|rows|), row + 1, |rows|)).None?
    ensures NoneSelectable(rows, 0, |rows|)
  {
    var n := |rows|;
    var c := CycleSkipTake(Indices(n), row + 1, n);
    ForwardChain(n, row);
    forall i | 0 <= i < n ensures !Selectable(rows, i) {
      assert c[if i > row then i - row - 1 else i + n - row - 1] == i;
    }
  }

  /** Where a step leads, from any stored selection: within the row while it has items in that direction, or else to the
      cyclically next selectable row in that direction, to its first or last item. */
  ghost predicate Reached(rows: seq<Row>, action: SelectAction, row: Option<nat>, item: Option<nat>, pos: Position) {
    match action
    case Index(r, i) => pos == Position(r, i)
    case Next =>
      if row.None? then pos == Position(0, 0)
      else if item.Some? && row.value < |rows| && rows[row.value].len.Some? &&
              item.value + 1 < rows[row.value].len.value then
        pos == Position(row.value, item.value + 1)
      else
        && pos.item == 0
        && if NoneSelectable(rows, 0, |rows|) then pos.row == row.value
           else FirstAfter(rows, row.value % |rows|, pos.row)
    case Previous =>
      if row.None? then pos == Position(0, 0)
      else if item.Some? && item.value > 0 then pos == Position(row.value, item.value - 1)
      else
        && pos.row < |rows|
        && (rows[pos.row].len.Some? && rows[pos.row].len.value > 0 ==> pos.item + 1 == rows[pos.row].len.value)
        && (rows[pos.row].len.None? || rows[pos.row].len.value == 0 ==> pos.item == 0)
        && if NoneSelectable(rows, 0, |rows|) then pos.row == row.value
           else if row.value < |rows| then FirstBefore(rows, row.value, pos.row)
           else Selectable(rows, pos.row) && NoneSelectable(rows, pos.row + 1, |rows|)
  }

  lemma {:induction false} StepReaches(rows: seq<Row>, action: SelectAction, row: Option<nat>, item: Option<nat>)
    requires SelectStep(rows, action, row, item).Moved?
    ensures Reached(rows, action, row, item, SelectStep(rows, action, row, item).pos)
  {
    if row.Some? {
      if action.Next? && rows != [] {
        NextRowFromOutside(rows, row.value);
      } else if action.Previous? {
        if row.value < |rows| {
          PreviousRowIsFirstBefore(rows, row.value);
        } else {
          PreviousRowFromOutside(rows, row.value);
        }
      }
    }
  }

  /** An empty menu: the first press stores row 0, and the next one dereferences it. */
  lemma EmptyMenuPanicsOnTheSecondPress()
    ensures SelectStep([], Next, None, None) == Moved(Position(0, 0))
    ensures Move([], Next, Position(0, 0)).Panic? && Move([], Previous, Position(0, 0)).Panic?
  {
    SelectPanicsIff([], Next, Some(0), Some(0));
    SelectPanicsIff([], Previous, Some(0), Some(0));
  }

  // ----- whole runs of arrow keys, from no selection

  predicate OnlyArrows(presses: seq<SelectAction>) {
    forall i :: 0 <= i < |presses| ==> !presses[i].Index?
  }

  /** The cursor after some presses, in a menu that had no selection. */
  function Cursor(rows: seq<Row>, presses: seq<SelectAction>): Outcome
    requires presses != []
  {
    var last := presses[|presses| - 1];
    if |presses| == 1 then SelectStep(rows, last, None, None)
    else
      match Cursor(rows, presses[..|presses| - 1])
      case Moved(p) => Move(rows, last, p)
      case Panic => Panic
  }

  /** A step from a row of the menu, in either direction, leads to a row of the menu. */
  lemma {:induction false} MoveStaysInside(rows: seq<Row>, action: SelectAction, p: Position)
    requires p.row < |rows| && !action.Index?
    ensures Move(rows, action, p).Moved? && Move(rows, action, p).pos.row < |rows|
  {
    SelectPanicsIff(rows, action, Some(p.row), Some(p.item));
    if action.Next? {
      NextRowIsFirstAfter(rows, p.row);
    } else {
      PreviousRowIsFirstBefore(rows, p.row);
    }
  }

  /** No run of arrow keys indexes past the end of the items, except the second press in an empty menu. */
  lemma {:induction false} PressesPanicIff(rows: seq<Row>, presses: seq<SelectAction>)
    requires presses != [] && OnlyArrows(presses)
    ensures Cursor(rows, presses).Panic? <==> rows == [] && |presses| >= 2
    ensures rows != [] ==> Cursor(rows, presses).pos.row < |rows|
  {
    if |presses| > 1 {
      var init, last := presses[..|presses| - 1], presses[|presses| - 1];
      PressesPanicIff(rows, init);
      if rows != [] {
        MoveStaysInside(rows, last, Cursor(rows, init).pos);
      } else if |presses| == 2 {
        SelectPanicsIff(rows, last, Some(0), Some(0));
      }
    }
  }

  /** How many more presses go forward than backward. */
  function Net(presses: seq<SelectAction>): int {
    if presses == [] then 0
    else Net(presses[..|presses| - 1]) + if presses[|presses| - 1].Next? then 1 else -1
  }

  /** After the first press, the others never lead past either end of the first row. */
  predicate StaysInFirstRow(rows: seq<Row>, presses: seq<SelectAction>)
    requires rows != []
  {
    forall k :: 1 <= k <= |presses| ==> 0 <= Net(presses[1..k]) <= rows[0].LastItem()
  }

  lemma {:induction false} NextStaysIff(rows: seq<Row>, presses: seq<SelectAction>, init: seq<SelectAction>)
    requires rows != [] && |presses| > 1 && init == presses[..|presses| - 1]
    ensures Net(presses[1..]) == Net(init[1..]) + if presses[|presses| - 1].Next? then 1 else -1
    ensures StaysInFirstRow(rows, presses) <==>
            StaysInFirstRow(rows, init) && 0 <= Net(presses[1..]) <= rows[0].LastItem()
  {
    assert presses[1..][..|presses| - 2] == init[1..];
    assert presses[1..|presses|] == presses[1..];
    assert forall k :: 1 <= k <= |init| ==> init[1..k] == presses[1..k];
  }

  /** While the presses stay in the first row, the cursor is on the item they count to. */
  lemma {:induction false} CursorInFirstRow(rows: seq<Row>, presses: seq<SelectAction>)
    requires rows != [] && presses != [] && OnlyArrows(presses) && StaysInFirstRow(rows, presses)
    ensures Net(presses[1..]) >= 0 && Cursor(rows, presses) == Moved(Position(0, Net(presses[1..])))
  {
    if |presses| > 1 {
      var init := presses[..|presses| - 1];
      NextStaysIff(rows, presses, init);
      CursorInFirstRow(rows, init);
    }
  }

  /** Leaving the first row at either end leads to a selectable row, if there is one. */
  lemma {:induction false} LeavingTheFirstRow(rows: seq<Row>, action: SelectAction, item: nat)
    requires WellFormed(rows) && rows != [] && !action.Index? && !NoneSelectable(rows, 0, |rows|)
    requires if action.Next? then item == rows[0].LastItem() else item == 0
    ensures var next := Move(rows, action, Position(0, item)); next.Moved? && ValidPosition(rows, next.pos)
  {
    MoveStaysInside(rows, action, Position(0, item));
    NextRowIsFirstAfter(rows, 0);
    PreviousRowIsFirstBefore(rows, 0);
  }

  lemma {:induction false} MoveKeepsValid(rows: seq<Row>, action: SelectAction, p: Position)
    requires WellFormed(rows) && ValidPosition(rows, p) && !action.Index?
    ensures Move(rows, action, p).Moved? && ValidPosition(rows, Move(rows, action, p).pos)
  {
    if action.Next? {
      NextAddsOne(rows, p);
    } else {
      PreviousTakesOne(rows, p);
    }
  }

  lemma {:induction false} NextCursor(rows: seq<Row>, presses: seq<SelectAction>, p: Position)
    requires |presses| > 1 && Cursor(rows, presses[..|presses| - 1]) == Moved(p)
    ensures Cursor(rows, presses) == Move(rows, presses[|presses| - 1], p)
  {
  }

  /** Once the presses have led past an end of the first row the cursor is valid. */
  lemma {:induction false} CursorHasLeft(rows: seq<Row>, presses: seq<SelectAction>)
    requires WellFormed(rows) && rows != [] && presses != [] && OnlyArrows(presses)
    requires !NoneSelectable(rows, 0, |rows|) && !StaysInFirstRow(rows, presses)
    ensures Cursor(rows, presses).Moved? && ValidPosition(rows, Cursor(rows, presses).pos)
  {
    var init, last := presses[..|presses| - 1], presses[|presses| - 1];
    NextStaysIff(rows, presses, init);
    if StaysInFirstRow(rows, init) {
      CursorInFirstRow(rows, init);
      assert init[1..|init|] == init[1..];
      LeavingTheFirstRow(rows, last, Net(init[1..]));
      NextCursor(rows, presses, Position(0, Net(init[1..])));
    } else {
      CursorHasLeft(rows, init);
      MoveKeepsValid(rows, last, Cursor(rows, init).pos);
      NextCursor(rows, presses, Cursor(rows, init).pos);
    }
  }

  /** The cursor of a menu that had no selection is on a valid position iff some row is selectable, and the first row is
      or the presses have led past one of its ends. Hence it stays valid once it is. */
  lemma {:induction false} CursorIsValidIff(rows: seq<Row>, presses: seq<SelectAction>)
    requires WellFormed(rows) && rows != [] && presses != [] && OnlyArrows(presses)
    ensures Cursor(rows, presses).Moved?
    ensures ValidPosition(rows, Cursor(rows, presses).pos) <==>
            !NoneSelectable(rows, 0, |rows|) && (Selectable(rows, 0) || !StaysInFirstRow(rows, presses))
  {
    PressesPanicIff(rows, presses);
    if StaysInFirstRow(rows, presses) {
      CursorInFirstRow(rows, presses);
      assert presses[1..|presses|] == presses[1..];
      assert 0 <= Net(presses[1..]) <= rows[0].LastItem();
    } else if !NoneSelectable(rows, 0, |rows|) {
      CursorHasLeft(rows, presses);
    }
  }

  /** Two presses that leave the cursor in a row that cannot be selected, though another row can. */
  lemma {:induction false} CursorCanBeInvalid(rows: seq<Row>, presses: seq<SelectAction>)
    requires rows == [Row(false, Some(2)), Row(true, Some(1))] && presses == [Next, Next]
    ensures WellFormed(rows) && !NoneSelectable(rows, 0, 2)
    ensures Cursor(rows, presses) == Moved(Position(0, 1)) && !ValidPosition(rows, Position(0, 1))
  {
    assert presses[..1] == [Next] && Selectable(rows, 1);
    assert Cursor(rows, [Next]) == Moved(Position(0, 0));
  }
}
