/** The menu view: a tree of menus, an optional safe triangle, and the dispatch between them. */
module MenuView {
  import opened Options
  import opened MenuNavigation
  import opened MenuTree
  import opened SafeTriangleHover

  class Menu {
    var menu: SubMenu
    var safeTriangle: SafeTriangle?
    var dispatchItemActions: bool

    ghost predicate Valid()
      reads this, menu, menu.Repr
    {
      menu.Valid()
    }

    /** What a leaf hover reads and changes. */
    ghost function Hovering(): HoverState
      requires safeTriangle != null
      reads this, menu, safeTriangle
    {
      HoverState(safeTriangle.State(), menu.hoveredRow)
    }

    constructor (menu: SubMenu, safeTriangle: SafeTriangle?, dispatchItemActions: bool)
      requires menu.Valid()
      ensures Valid() && this.menu == menu && this.safeTriangle == safeTriangle
      ensures this.dispatchItemActions == dispatchItemActions
    {
      this.menu, this.safeTriangle, this.dispatchItemActions := menu, safeTriangle, dispatchItemActions;
    }

    /** `Menu::set_items`: the new items keep the depths they come with. When these are trees built by
        `SubMenu::new`, the direct submenus end up on the depth of the root instead of one below it; so the depths
        are the nesting levels exactly when there is no submenu at all. */
    method SetItems(items: seq<MenuItem>)
      requires Valid() && ItemsValid(items) && menu !in Below(items)
      modifies menu`items, menu`Repr, menu`selectedRow, menu`selectedItem, menu`lastSource
      ensures Valid() && menu.items == items && menu.Repr == {menu} + old(Below(items))
      ensures menu.selectedRow == menu.selectedItem == None && menu.lastSource == None
      ensures menu.depth == 0 &&
              old(forall i :: 0 <= i < |items| && items[i].Submenu? ==> items[i].menu.DepthsFrom(0)) ==>
                menu.ChildrenFrom(0) && (menu.DepthsFrom(0) <==> forall i :: 0 <= i < |items| ==> !items[i].Submenu?)
    {
      assert forall i :: 0 <= i < |items| && items[i].Submenu? ==> menu !in items[i].menu.Repr;
      menu.Repr := {menu} + Below(items);
      menu.items := items;
      menu.ResetSelection();
      forall i | 0 <= i < |items| && items[i].Submenu?
        ensures items[i].menu.Valid() && (old(items[i].menu.DepthsFrom(0)) ==> items[i].menu.DepthsFrom(0))
      {
        assert menu !in items[i].menu.Repr;
      }
    }

    /** `Menu::handle_action`: a leaf hover goes through the safe triangle first; a suppressed one reaches nothing. */
    method HandleAction(action: MenuAction, ctx: ViewContext)
      requires Valid() && menu.CanHandle(action)
      modifies safeTriangle, ctx
      modifies menu.Repr`selectedRow, menu.Repr`selectedItem, menu.Repr`hoveredRow, menu.Repr`lastSource
      ensures Valid() && menu.Repr == old(menu.Repr)
      ensures action.HoverSubmenuLeafNode? && safeTriangle != null ==>
                var hover := Hover(action.depth, action.rowIndex, action.position);
                Hovering() == HoverStep(menu.depth, old(Hovering()), hover)
      ensures if action.HoverSubmenuLeafNode? && safeTriangle != null &&
                 old(Suppresses(safeTriangle.State(), action.position))
              then menu.OnlyChanged({}) && unchanged(ctx)
              else menu.Handled(action, dispatchItemActions, ctx)
      ensures !action.HoverSubmenuLeafNode? && safeTriangle != null ==> unchanged(safeTriangle)
    {
      if action.HoverSubmenuLeafNode? && safeTriangle != null {
        var suppress := safeTriangle.ShouldSuppressHover(action.position);
        if suppress {
          return;
        }
        safeTriangle.UpdatePosition(action.position);
      }
      menu.HandleAction(action, dispatchItemActions, ctx);
    }
  }
}
