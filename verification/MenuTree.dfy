/** A menu and its tree of submenus, each remembering its own selection, as the mutable objects they are.

    The frames name single fields: an operation that only moves selections leaves `items` and `Repr` alone,
    so the shape of the tree is untouched by construction. */
module MenuTree {
  import opened Options
  import opened MenuNavigation
  import opened SafeTriangleHover

  type ActionId = nat

  datatype ItemFields = ItemFields(disabled: bool, noInteractionOnHover: bool, onSelectAction: Option<ActionId>)

  datatype MenuItem =
    | Item(fields: ItemFields)
    | Separator
    | ItemsRow(items: seq<ItemFields>)
    | Submenu(fields: ItemFields, menu: SubMenu)
    | Header(fields: ItemFields, clickable: bool, rightSideFields: Option<ItemFields>)

  datatype SelectionSource = KeyboardOrProgrammatic | Pointer

  datatype MenuAction =
    | Select(select: SelectAction)
    | OpenSubmenu
    | UnhoverSubmenuParent(depth: nat)
    | HoverSubmenuWithChildren(depth: nat, select: SelectAction)
    | HoverSubmenuLeafNode(depth: nat, rowIndex: nat, position: Point)
    | CloseSubmenu(depth: nat)
    | Close(viaSelectItem: bool)
    | Enter

  /** What a handler reports to its surroundings. */
  datatype Event =
    | ItemSelected
    | ItemHovered
    | Closed(viaSelectItem: bool)
    | Dispatched(action: ActionId)

  /** The view context: the log of what was emitted. */
  class ViewContext {
    var events: seq<Event>

    constructor ()
      ensures events == []
    {
      events := [];
    }
  }

  /** Every menu below a list of items. */
  ghost function Below(items: seq<MenuItem>): set<SubMenu>
    reads (set i | 0 <= i < |items| && items[i].Submenu? :: items[i].menu)`Repr
  {
    set i, m | 0 <= i < |items| && items[i].Submenu? && m in items[i].menu.Repr :: m
  }

  /** Items own their submenus: each submenu is a tree and no two of them share a menu. */
  ghost predicate ItemsValid(items: seq<MenuItem>)
    reads (set i | 0 <= i < |items| && items[i].Submenu? :: items[i].menu)`items,
          (set i | 0 <= i < |items| && items[i].Submenu? :: items[i].menu)`Repr,
          Below(items)`items, Below(items)`Repr
  {
    && (forall i :: 0 <= i < |items| && items[i].Submenu? ==> items[i].menu.Valid())
    && (forall i, j :: 0 <= i < j < |items| && items[i].Submenu? && items[j].Submenu? ==>
          items[i].menu.Repr !! items[j].menu.Repr)
  }

  /** `MenuItem::selectable` */
  predicate IsSelectable(item: MenuItem)
    reads (if item.Submenu? then {item.menu} else {})`items
  {
    match item
    case Item(fields) => !fields.disabled && !fields.noInteractionOnHover
    case ItemsRow(items) => exists i :: 0 <= i < |items| && !items[i].disabled && !items[i].noInteractionOnHover
    case Separator => false
    case Submenu(_, menu) => menu.items != []
    case Header(_, clickable, _) => clickable
  }

  /** `MenuItem::items_len` */
  function ItemsLen(item: MenuItem): Option<nat>
    reads (if item.Submenu? then {item.menu} else {})`items
  {
    match item
    case Item(_) => Some(1)
    case Separator => None
    case ItemsRow(items) => Some(|items|)
    case Submenu(_, menu) => Some(|menu.items| + 1)
    case Header(_, clickable, _) => Some(if clickable then 1 else 0)
  }

  /** What navigation reads of the items. */
  function RowsOf(items: seq<MenuItem>): (rows: seq<Row>)
    reads (set i | 0 <= i < |items| && items[i].Submenu? :: items[i].menu)`items
    ensures |rows| == |items|
    ensures forall i :: 0 <= i < |items| ==> rows[i] == Row(IsSelectable(items[i]), ItemsLen(items[i]))
  {
    if items == [] then []
    else
      var last := |items| - 1;
      RowsOf(items[..last]) + [Row(IsSelectable(items[last]), ItemsLen(items[last]))]
  }

  /** The assumption of the navigation theorems holds of every menu: what is selectable has an item. */
  lemma SelectableRowsHaveItems(items: seq<MenuItem>)
    ensures WellFormed(RowsOf(items))
  {
  }

  /** An item is kept from being selected by being disabled or without interaction, a row by all its items being so, a
      submenu by being empty, a header by not being clickable. A separator never is. */
  lemma {:induction false} NotSelectableIff(item: MenuItem)
    ensures item.Item? ==> (!IsSelectable(item) <==> Blocked(item.fields))
    ensures item.ItemsRow? ==>
              (!IsSelectable(item) <==> forall i :: 0 <= i < |item.items| ==> Blocked(item.items[i]))
    ensures item.Submenu? ==> (!IsSelectable(item) <==> item.menu.items == [])
    ensures item.Header? ==> (!IsSelectable(item) <==> !item.clickable)
    ensures item.Separator? ==> !IsSelectable(item)
  {
  }

  /** The cursor positions of a row: one per item, in a submenu one more for its label, none in a separator. */
  lemma {:induction false} LengthOfRow(item: MenuItem)
    ensures item.Item? ==> ItemsLen(item) == Some(1)
    ensures item.ItemsRow? ==> ItemsLen(item) == Some(|item.items|)
    ensures item.Submenu? ==> ItemsLen(item) == Some(|item.menu.items| + 1)
    ensures item.Separator? ==> ItemsLen(item) == None
    ensures item.Header? ==> ItemsLen(item) == Some(if item.clickable then 1 else 0)
  {
  }

  predicate Blocked(fields: ItemFields) {
    fields.disabled || fields.noInteractionOnHover
  }

  /** The action of item `i` of a row, as `selected_action_for_enter` looks it up. */
  function ItemAction(item: MenuItem, i: nat): Option<ActionId> {
    match item
    case Item(fields) => fields.onSelectAction
    case ItemsRow(items) => if i < |items| then items[i].onSelectAction else None
    case Header(fields, clickable, _) => if clickable then fields.onSelectAction else None
    case _ => None
  }

  class SubMenu {
    var depth: nat
    var items: seq<MenuItem>
    var selectedRow: Option<nat>
    var selectedItem: Option<nat>
    var hoveredRow: Option<nat>
    var lastSource: Option<SelectionSource>
    /** This menu and every menu below it. */
    ghost var Repr: set<SubMenu>

    ghost predicate Valid()
      reads this`items, this`Repr, Repr`items, Repr`Repr
      decreases Repr
    {
      && this in Repr
      && (forall i :: 0 <= i < |items| && items[i].Submenu? ==>
            items[i].menu in Repr && items[i].menu.Repr <= Repr && this !in items[i].menu.Repr && items[i].menu.Valid())
      && (forall i, j :: 0 <= i < j < |items| && items[i].Submenu? && items[j].Submenu? ==>
            items[i].menu.Repr !! items[j].menu.Repr)
    }

    /** The depth of every menu is its nesting level, counted from `level`. */
    ghost predicate DepthsFrom(level: nat)
      requires Valid()
      reads this`items, this`Repr, Repr`items, Repr`Repr, Repr`depth
      decreases Repr
    {
      depth == level && forall i :: 0 <= i < |items| && items[i].Submenu? ==> items[i].menu.DepthsFrom(level + 1)
    }

    ghost predicate ChildrenFrom(level: nat)
      requires Valid()
      reads this`items, this`Repr, Repr`items, Repr`Repr, (Repr - {this})`depth
    {
      forall i :: 0 <= i < |items| && items[i].Submenu? ==> items[i].menu.DepthsFrom(level)
    }

    /** `SubMenu::new`, given trees that were themselves built by it. */
    constructor (items: seq<MenuItem>)
      requires ItemsValid(items)
      requires forall i :: 0 <= i < |items| && items[i].Submenu? ==> items[i].menu.DepthsFrom(0)
      modifies Below(items)`depth
      ensures Valid() && this.items == items && DepthsFrom(0)
      ensures selectedRow == selectedItem == hoveredRow == None && lastSource == None
      ensures Repr == {this} + old(Below(items))
    {
      depth := 0;
      this.items := items;
      selectedRow, selectedItem, hoveredRow, lastSource := None, None, None, None;
      Repr := {this} + Below(items);
      new;
      assert Valid() && ChildrenFrom(0);
      IncrementDepth();
      assert ChildrenFrom(1);
    }

    /** `SubMenu::increment_depth` on the items of this menu: every menu below goes one level down. */
    method IncrementDepth()
      requires Valid()
      modifies (Repr - {this})`depth
      ensures forall level: nat :: old(ChildrenFrom(level)) ==> ChildrenFrom(level + 1)
      decreases Repr
    {
      for i := 0 to |items|
        invariant forall level: nat, k :: 0 <= k < i && items[k].Submenu? && old(items[k].menu.DepthsFrom(level)) ==>
                    items[k].menu.DepthsFrom(level + 1)
        invariant forall level: nat, k ::
                    i <= k < |items| && items[k].Submenu? && old(items[k].menu.DepthsFrom(level)) ==>
                    items[k].menu.DepthsFrom(level)
      {
        if items[i].Submenu? {
          var menu := items[i].menu;
          label Before:
          menu.depth := menu.depth + 1;
          label Raised:
          menu.IncrementDepth();
          forall level: nat | old(menu.DepthsFrom(level)) ensures menu.DepthsFrom(level + 1) {
            assert old@Before(menu.DepthsFrom(level)) && old@Before(menu.ChildrenFrom(level + 1));
            assert old@Raised(menu.ChildrenFrom(level + 1));
          }
        }
      }
    }

    // ----- the active menu

    ghost predicate HasOpenChild()
      reads this`items, this`selectedRow, (set i | 0 <= i < |items| && items[i].Submenu? :: items[i].menu)`selectedRow
    {
      && selectedRow.Some? && selectedRow.value < |items| && items[selectedRow.value].Submenu?
      && items[selectedRow.value].menu.selectedRow.Some?
    }

    /** The menus from this one down to the deepest one that the remembered selections lead to. */
    ghost function ActivePath(): (path: seq<SubMenu>)
      requires Valid()
      reads this`items, this`Repr, this`selectedRow, Repr`items, Repr`Repr, Repr`selectedRow
      ensures path != [] && path[0] == this
      ensures forall m :: m in path ==> m in Repr && m.Repr <= Repr && m.Valid()
      decreases Repr
    {
      if HasOpenChild() then [this] + items[selectedRow.value].menu.ActivePath() else [this]
    }

    /** In a tree whose depths are its levels, the active path has one menu of each depth. */
    lemma {:induction false} ActivePathDepths(level: nat)
      requires Valid() && DepthsFrom(level)
      ensures forall k :: 0 <= k < |ActivePath()| ==> ActivePath()[k].depth == level + k
      decreases Repr
    {
      if HasOpenChild() {
        var child := items[selectedRow.value].menu;
        child.ActivePathDepths(level + 1);
        assert forall k :: 0 < k < |ActivePath()| ==> ActivePath()[k] == child.ActivePath()[k - 1];
      }
    }

    ghost function Active(): (m: SubMenu)
      requires Valid()
      reads this`items, this`Repr, this`selectedRow, Repr`items, Repr`Repr, Repr`selectedRow
      ensures m in Repr && m.Repr <= Repr && m.Valid() && !m.HasOpenChild()
      decreases Repr
    {
      if HasOpenChild() then items[selectedRow.value].menu.Active() else this
    }

    /** The active menu is the end of the active path. */
    lemma {:induction false} ActiveIsLastOfPath()
      requires Valid()
      ensures ActivePath()[|ActivePath()| - 1] == Active()
      decreases Repr
    {
      if HasOpenChild() {
        items[selectedRow.value].menu.ActiveIsLastOfPath();
      }
    }

    /** `SubMenu::active_menu_mut` */
    method ActiveMenu() returns (m: SubMenu)
      requires Valid()
      ensures m == Active() == ActivePath()[|ActivePath()| - 1]
      decreases Repr
    {
      ActiveIsLastOfPath();
      if selectedRow.Some? && selectedRow.value < |items| && items[selectedRow.value].Submenu? {
        var menu := items[selectedRow.value].menu;
        if menu.selectedRow.Some? {
          m := menu.ActiveMenu();
          return;
        }
      }
      m := this;
    }

    /** Once the menus above the active one keep their selections, the old path is still there. It goes on
        exactly when the selected row of the formerly active menu is a submenu with a remembered selection. */
    twostate lemma PathIsKept()
      requires old(Valid()) && Valid() && Repr == old(Repr)
      requires forall m :: m in old(Repr) ==> m.items == old(m.items) && m.Repr == old(m.Repr)
      requires forall m :: m in old(Repr) && m != old(Active()) && old(m.selectedRow.Some?) ==>
                 m.selectedRow == old(m.selectedRow)
      requires old(Active()) != this ==> old(Active()).selectedRow.Some?
      ensures old(ActivePath()) <= ActivePath()
      ensures var a := old(Active());
              if a.HasOpenChild() then old(ActivePath()) + [a.items[a.selectedRow.value].menu] <= ActivePath()
              else ActivePath() == old(ActivePath())
      decreases old(Repr)
    {
      if old(HasOpenChild()) {
        items[selectedRow.value].menu.PathIsKept();
      }
    }

    // ----- moving the selection

    /** `select_internal` would index past the end of the items. */
    ghost predicate SelectPanics(action: SelectAction)
      reads this`items, this`selectedRow, this`selectedItem,
            (set i | 0 <= i < |items| && items[i].Submenu? :: items[i].menu)`items
    {
      SelectStep(RowsOf(items), action, selectedRow, selectedItem).Panic?
    }

    /** The cursor is at `pos`, which is also the hovered row. */
    ghost predicate CursorAt(pos: Position)
      reads this`selectedRow, this`selectedItem, this`hoveredRow
    {
      selectedRow == Some(pos.row) && selectedItem == Some(pos.item) && hoveredRow == selectedRow
    }

    /** The cursor is where the action leads from the former selection; a given index is taken as it is. */
    twostate predicate MovedBy(action: SelectAction)
      requires old(!SelectPanics(action))
      reads this
    {
      && CursorAt(old(SelectStep(RowsOf(items), action, selectedRow, selectedItem)).pos)
      && (action.Index? ==> CursorAt(Position(action.row, action.item)))
    }

    /** `SubMenu::select_internal` */
    method SelectInternal(action: SelectAction)
      requires !SelectPanics(action)
      modifies this`selectedRow, this`selectedItem, this`hoveredRow
      ensures MovedBy(action)
    {
      var rows := RowsOf(items);
      var row, item := 0, 0;
      match action {
        case Index(r, i) =>
          row, item := r, i;
        case Previous =>
          if selectedRow.Some? {
            if selectedItem.Some? && selectedItem.value > 0 {
              row, item := selectedRow.value, selectedItem.value - 1;
            } else {
              row := PreviousRow(rows, selectedRow.value);
              item := rows[row].LastItem();
            }
          }
        case Next =>
          if selectedRow.Some? {
            if selectedItem.Some? && selectedItem.value < rows[selectedRow.value].LastItem() {
              row, item := selectedRow.value, selectedItem.value + 1;
            } else {
              row := NextRow(rows, selectedRow.value);
            }
          }
      }
      selectedRow, selectedItem, hoveredRow := Some(row), Some(item), Some(row);
    }

    /** `SubMenu::select_with_source`; scrolling is not modelled. */
    method SelectWithSource(action: SelectAction, source: SelectionSource, ctx: ViewContext)
      requires !SelectPanics(action)
      modifies this`selectedRow, this`selectedItem, this`hoveredRow, this`lastSource, ctx
      ensures MovedBy(action)
      ensures lastSource == Some(source) && ctx.events == old(ctx.events) + [ItemSelected]
    {
      SelectInternal(action);
      lastSource := Some(source);
      ctx.events := ctx.events + [ItemSelected];
    }

    /** `SubMenu::reset_selection` */
    method ResetSelection()
      modifies this`selectedRow, this`selectedItem, this`lastSource
      ensures selectedRow == None && selectedItem == None && lastSource == None
    {
      selectedRow, selectedItem, lastSource := None, None, None;
    }

    ghost predicate HasSelectableRow()
      reads this`items, (set i | 0 <= i < |items| && items[i].Submenu? :: items[i].menu)`items
    {
      !NoneSelectable(RowsOf(items), 0, |items|)
    }

    /** The cursor is on the first selectable row. */
    ghost predicate OnFirstSelectable()
      reads this`items, this`selectedRow, this`selectedItem, this`hoveredRow,
            (set i | 0 <= i < |items| && items[i].Submenu? :: items[i].menu)`items
    {
      && selectedRow.Some? && CursorAt(Position(selectedRow.value, 0))
      && Selectable(RowsOf(items), selectedRow.value) && NoneSelectable(RowsOf(items), 0, selectedRow.value)
    }

    /** `SubMenu::select_first_selectable` */
    method SelectFirstSelectable(ctx: ViewContext) returns (found: bool)
      modifies this`selectedRow, this`selectedItem, this`hoveredRow, this`lastSource, ctx
      ensures found <==> old(HasSelectableRow())
      ensures found ==> OnFirstSelectable() && lastSource == Some(KeyboardOrProgrammatic)
      ensures found ==> ctx.events == old(ctx.events) + [ItemSelected]
      ensures !found ==> unchanged(this) && unchanged(ctx)
    {
      var rows := RowsOf(items);
      var first := Find(rows, Indices(|rows|));
      FirstSelectableRow(rows);
      if first.None? {
        return false;
      }
      SelectWithSource(Index(first.value, 0), KeyboardOrProgrammatic, ctx);
      assert RowsOf(items) == rows;
      return true;
    }

    /** `SubMenu::selected_submenu_mut` */
    function SelectedSubmenu(): Option<SubMenu>
      reads this`items, this`selectedRow
    {
      if selectedRow.Some? && selectedRow.value < |items| && items[selectedRow.value].Submenu?
      then Some(items[selectedRow.value].menu) else None
    }

    /** The submenu under the active cursor, if there is one. */
    ghost function ActiveSubmenu(): (submenu: Option<SubMenu>)
      requires Valid()
      reads this`items, this`Repr, this`selectedRow, Repr`items, Repr`Repr, Repr`selectedRow
      ensures submenu.Some? ==>
                var m := submenu.value; m in Repr && m.Repr <= Repr && m.Valid() && m.selectedRow.None?
    {
      Active().SelectedSubmenu()
    }

    /** The active cursor is on a submenu with a selectable row. */
    ghost predicate CanOpen()
      requires Valid()
      reads this`items, this`Repr, this`selectedRow, Repr`items, Repr`Repr, Repr`selectedRow
    {
      ActiveSubmenu().Some? && ActiveSubmenu().value.HasSelectableRow()
    }

    /** No menu of the tree changes, except possibly the given ones. */
    twostate predicate OnlyChanged(menus: set<SubMenu>)
      requires Repr == old(Repr)
      reads this`Repr, Repr
    {
      forall m :: m in old(Repr) && m !in menus ==> unchanged(m)
    }

    /** What opening does: the submenu under the active cursor gets the cursor on its first selectable row and
        joins the active path, and no other menu changes; when nothing can be opened, nothing changes. */
    twostate predicate OpenEffect(ctx: ViewContext)
      requires old(Valid()) && Valid() && Repr == old(Repr)
      reads this, Repr, ctx
    {
      if old(CanOpen()) then
        var m := old(ActiveSubmenu()).value;
        && old(ActivePath()) + [m] <= ActivePath() && m in ActivePath() && m.OnFirstSelectable()
        && m.lastSource == Some(KeyboardOrProgrammatic)
        && OnlyChanged({m})
        && ctx.events == old(ctx.events) + [ItemSelected]
      else
        OnlyChanged({}) && unchanged(ctx)
    }

    twostate lemma OpeningExtendsThePath(submenu: SubMenu)
      requires old(Valid()) && Valid() && Repr == old(Repr)
      requires forall m :: m in old(Repr) ==> m.items == old(m.items) && m.Repr == old(m.Repr)
      requires old(ActiveSubmenu()) == Some(submenu) && submenu.selectedRow.Some?
      requires forall m :: m in old(Repr) && m != submenu ==> m.selectedRow == old(m.selectedRow)
      ensures old(ActivePath()) + [submenu] <= ActivePath() && submenu in ActivePath()
    {
      PathIsKept();
      assert (old(ActivePath()) + [submenu])[|old(ActivePath())|] == submenu;
    }

    /** `select_first_selectable` on the submenu under the active cursor. */
    method OpenUnderCursor(submenu: SubMenu, ctx: ViewContext) returns (success: bool)
      requires Valid() && ActiveSubmenu() == Some(submenu)
      modifies submenu`selectedRow, submenu`selectedItem, submenu`hoveredRow, submenu`lastSource, ctx
      ensures Valid() && Repr == old(Repr)
      ensures success == old(CanOpen()) && OpenEffect(ctx)
    {
      success := submenu.SelectFirstSelectable(ctx);
      if success {
        OpeningExtendsThePath(submenu);
      }
    }

    /** `SubMenu::open_selected_submenu` */
    method OpenSelectedSubmenu(ctx: ViewContext) returns (success: bool)
      requires Valid()
      modifies Repr`selectedRow, Repr`selectedItem, Repr`hoveredRow, Repr`lastSource, ctx
      ensures Valid() && Repr == old(Repr)
      ensures success == old(CanOpen()) && OpenEffect(ctx)
    {
      var active := ActiveMenu();
      var submenu := active.SelectedSubmenu();
      if submenu.None? {
        return false;
      }
      success := OpenUnderCursor(submenu.value, ctx);
    }

    /** The action of the item under the active cursor. */
    ghost function ActionUnderCursor(): Option<ActionId>
      requires Valid()
      reads this`items, this`Repr, this`selectedRow, Repr`items, Repr`Repr, Repr`selectedRow, Repr`selectedItem
    {
      var a := Active();
      if a.selectedRow.None? || a.selectedRow.value >= |a.items| then None
      else ItemAction(a.items[a.selectedRow.value], if a.selectedItem.Some? then a.selectedItem.value else 0)
    }

    /** `SubMenu::selected_action_for_enter`: the action under the active cursor; on a submenu, Enter opens it. */
    method SelectedActionForEnter(ctx: ViewContext) returns (action: Option<ActionId>)
      requires Valid()
      modifies Repr`selectedRow, Repr`selectedItem, Repr`hoveredRow, Repr`lastSource, ctx
      ensures Valid() && Repr == old(Repr)
      ensures action == old(ActionUnderCursor())
      ensures if action.Some? then OnlyChanged({}) && unchanged(ctx) else OpenEffect(ctx)
    {
      var active := ActiveMenu();
      assert active.SelectedSubmenu().None? ==> !CanOpen();
      if active.selectedRow.None? || active.selectedRow.value >= |active.items| {
        return None;
      }
      var item := active.items[active.selectedRow.value];
      if item.Submenu? {
        var _ := OpenUnderCursor(item.menu, ctx);
        return None;
      }
      return ItemAction(item, if active.selectedItem.Some? then active.selectedItem.value else 0);
    }

    /** `active_menu_mut().select(..)`: moves the cursor of the deepest active menu and no other; the path to that
        menu stays. */
    method SelectActive(action: SelectAction, ctx: ViewContext)
      requires Valid() && !Active().SelectPanics(action)
      modifies Active()`selectedRow, Active()`selectedItem, Active()`hoveredRow, Active()`lastSource, ctx
      ensures Valid() && Repr == old(Repr) && OnlyChanged({old(Active())})
      ensures var a := old(Active());
              a.MovedBy(action) && a.lastSource == Some(KeyboardOrProgrammatic)
      ensures old(ActivePath()) <= ActivePath() && ctx.events == old(ctx.events) + [ItemSelected]
    {
      var active := ActiveMenu();
      active.SelectWithSource(action, KeyboardOrProgrammatic, ctx);
      PathIsKept();
    }

    /** With the active cursor on item `i` of a row, Enter runs the action of that very item: of the only one, or of the
        one at this place in a row of several; a header has one if it can be clicked, and a separator has none. */
    lemma {:induction false} EnterRunsTheItemUnderTheCursor(pos: Position)
      requires Valid() && Active().CursorAt(pos) && pos.row < |Active().items|
      ensures var row, action := Active().items[pos.row], ActionUnderCursor();
              && (row.Item? ==> action == row.fields.onSelectAction)
              && (row.ItemsRow? && pos.item < |row.items| ==> action == row.items[pos.item].onSelectAction)
              && (row.ItemsRow? && pos.item >= |row.items| ==> action == None)
              && (row.Header? && row.clickable ==> action == row.fields.onSelectAction)
              && (row.Separator? || row.Submenu? || (row.Header? && !row.clickable) ==> action == None)
    {
    }

    /** The actions that `handle_action` can take without indexing past the end of the items. */
    ghost predicate CanHandle(action: MenuAction)
      requires Valid()
      reads Repr
    {
      match action
      case Select(select) => !Active().SelectPanics(select)
      case HoverSubmenuWithChildren(d, select) => d == depth ==> !SelectPanics(select)
      case _ => true
    }

    /** The selected row is past the end of the items, in one of the two situations in which a step needs it. */
    ghost predicate RowIsMissed(select: SelectAction)
      reads this`items, this`selectedRow, this`selectedItem,
            (set i | 0 <= i < |items| && items[i].Submenu? :: items[i].menu)`items
    {
      && selectedRow.Some? && selectedRow.value >= |items|
      && ((select.Next? && selectedItem.Some?) ||
          (select.Previous? && (selectedItem.None? || selectedItem.value == 0) && !HasSelectableRow()))
    }

    /** Exactly which actions index past the end: steps of the menu they are meant for, once its items have become fewer
        than its selected row needs. */
    lemma {:induction false} CannotHandleIff(action: MenuAction)
      requires Valid()
      ensures !CanHandle(action) <==>
              || (action.Select? && Active().RowIsMissed(action.select))
              || (action.HoverSubmenuWithChildren? && action.depth == depth && RowIsMissed(action.select))
    {
      if action.Select? {
        var a := Active();
        SelectPanicsIff(RowsOf(a.items), action.select, a.selectedRow, a.selectedItem);
      } else if action.HoverSubmenuWithChildren? {
        SelectPanicsIff(RowsOf(items), action.select, selectedRow, selectedItem);
      }
    }

    /** What each action does, to this menu, to the menus below it and to the surroundings. The hover actions reach
        this menu only, and only if they are meant for its depth. */
    twostate predicate Handled(action: MenuAction, dispatchItemActions: bool, ctx: ViewContext)
      requires old(Valid() && CanHandle(action)) && Valid() && Repr == old(Repr)
      reads this, Repr, ctx
    {
      match action
      case Select(select) =>
        var a := old(Active());
        && OnlyChanged({a}) && old(ActivePath()) <= ActivePath()
        && a.MovedBy(select) && a.lastSource == Some(KeyboardOrProgrammatic)
        && ctx.events == old(ctx.events) + [ItemSelected]
      case OpenSubmenu => OpenEffect(ctx)
      case Enter =>
        if old(ActionUnderCursor()).None? then OpenEffect(ctx)
        else
          && OnlyChanged({})
          && ctx.events == old(ctx.events) +
               [if dispatchItemActions then Dispatched(old(ActionUnderCursor()).value) else ItemSelected, Closed(true)]
      case HoverSubmenuWithChildren(d, select) =>
        OnlyChanged({this}) &&
        if d != old(depth) then unchanged(this) && unchanged(ctx)
        else
          && MovedBy(select) && lastSource == Some(Pointer) && ctx.events == old(ctx.events) + [ItemSelected]
      case HoverSubmenuLeafNode(d, rowIndex, _) =>
        OnlyChanged({this}) &&
        if d != old(depth) then unchanged(this) && unchanged(ctx)
        else
          && hoveredRow == Some(rowIndex) && unchanged(`selectedRow) && unchanged(`selectedItem)
          && unchanged(`lastSource) && ctx.events == old(ctx.events) + [ItemHovered]
      case UnhoverSubmenuParent(d) => OnlyChanged({this}) && SelectionClosed(d, ctx)
      case CloseSubmenu(d) => OnlyChanged({this}) && SelectionClosed(d, ctx)
      case Close(viaSelectItem) => OnlyChanged({}) && ctx.events == old(ctx.events) + [Closed(viaSelectItem)]
    }

    /** The selection is gone if the action is meant for this depth. */
    twostate predicate SelectionClosed(d: nat, ctx: ViewContext)
      reads this, ctx
    {
      if d != old(depth) then unchanged(this) && unchanged(ctx)
      else selectedRow == selectedItem == None && lastSource == None && unchanged(`hoveredRow) && unchanged(ctx)
    }

    /** `SubMenu::handle_action` */
    method HandleAction(action: MenuAction, dispatchItemActions: bool, ctx: ViewContext)
      requires Valid() && CanHandle(action)
      modifies Repr`selectedRow, Repr`selectedItem, Repr`hoveredRow, Repr`lastSource, ctx
      ensures Valid() && Repr == old(Repr)
      ensures Handled(action, dispatchItemActions, ctx)
      decreases if action.UnhoverSubmenuParent? then 1 else 0
    {
      match action {
        case HoverSubmenuWithChildren(d, select) =>
          if d == depth {
            SelectWithSource(select, Pointer, ctx);
          }
        case UnhoverSubmenuParent(d) =>
          if d == depth {
            HandleAction(CloseSubmenu(depth), dispatchItemActions, ctx);
          }
        case HoverSubmenuLeafNode(d, rowIndex, _) =>
          if d == depth {
            hoveredRow := Some(rowIndex);
            ctx.events := ctx.events + [ItemHovered];
          }
        case Select(select) =>
          SelectActive(select, ctx);
        case OpenSubmenu =>
          var _ := OpenSelectedSubmenu(ctx);
        case CloseSubmenu(d) =>
          if d == depth {
            ResetSelection();
          }
        case Close(viaSelectItem) =>
          ctx.events := ctx.events + [Closed(viaSelectItem)];
        case Enter =>
          var chosen := SelectedActionForEnter(ctx);
          if chosen.None? {
            return;
          } else {
            ctx.events := ctx.events + [if dispatchItemActions then Dispatched(chosen.value) else ItemSelected];
            ctx.events := ctx.events + [Closed(true)];
          }
      }
    }
  }
}
