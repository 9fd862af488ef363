/** The stack overlay: a reactive surface parented into the window group
    that covers the visible sliver of the window stacked at one screen edge,
    so that a click there only activates that window. One instance guards
    the left edge and one the right; both run this same code. */
module StackOverlays {
  import opened Seqs
  import opened SceneGraph
  import opened Geometry

  class StackOverlay {
    /** Whether the target's application icon is drawn on the overlay. */
    const showIcon: bool
    /** The overlay's own scene-graph node. */
    const node: Actor
    /** The window group the overlay is parented into, shared with the host
        and with the other overlay instance. */
    const group: WindowGroup
    /** Size of the primary monitor, read once at construction. */
    const monitorWidth: int
    const monitorHeight: int

    /** The window the overlay currently stands for. */
    var target: Option<Window>
    /** The overlay's geometry and visibility. */
    var x: int
    var y: int
    var width: int
    var height: int
    var visible: bool
    /** The current icon, and the overlay's own children. */
    var icon: Option<Icon>
    var iconChildren: seq<Icon>
    /** Every window a release on the overlay asked the host to activate. */
    ghost var activated: seq<Window>

    ghost predicate Valid()
      reads this, group
    {
      group.Valid() &&
      node.OverlayActor? && node in group.children &&
      (visible <==> target.Some?) &&
      IconOwned()
    }

    /** The overlay's only child is its current icon, if it has one. */
    ghost predicate IconOwned()
      reads this
    {
      iconChildren == (if icon.Some? then [icon.value] else [])
    }

    /** A hidden overlay below the top panel, as tall as the rest of the
        monitor and one stack margin wide, added on top of the window
        group. */
    constructor (showIcon: bool, id: nat, group: WindowGroup,
                 monitorWidth: int, monitorHeight: int, panelHeight: int, margin: int)
      requires group.Valid() && OverlayActor(id) !in group.children
      modifies group
      ensures Valid()
      ensures this.showIcon == showIcon && this.group == group && node == OverlayActor(id)
      ensures this.monitorWidth == monitorWidth && this.monitorHeight == monitorHeight
      ensures target == None && !visible && icon == None && activated == []
      ensures y == panelHeight && height == monitorHeight - panelHeight && width == margin && x == 0
      ensures group.children == old(group.children) + [OverlayActor(id)]
    {
      this.showIcon := showIcon;
      this.node := OverlayActor(id);
      this.group := group;
      this.monitorWidth := monitorWidth;
      this.monitorHeight := monitorHeight;
      target := None;
      x := 0;
      y := panelHeight;
      height := monitorHeight - panelHeight;
      width := margin;
      visible := false;
      icon := None;
      iconChildren := [];
      activated := [];
      new;
      group.AddChild(OverlayActor(id));
    }

    /** A press on the overlay is swallowed. */
    method OnButtonPress() returns (consumed: bool)
      ensures consumed
    {
      consumed := true;
    }

    /** A release activates the target and is swallowed. Only a shown
        overlay receives pointer events, and a shown overlay has a target. */
    method OnButtonRelease() returns (consumed: bool)
      requires target.Some?
      modifies this`activated
      ensures consumed
      ensures activated == old(activated) + [target.value]
    {
      activated := activated + [target.value];
      consumed := true;
    }

    /** The host's restack notification: while there is a target, put the
        overlay back directly above the target's actor; otherwise do
        nothing. `actorAlive` says whether the target still has its
        compositor actor: once the window is gone the actor is null, and
        the host then raises the overlay to the top of the group. */
    method OnRestacked(actorAlive: bool)
      requires Valid()
      modifies group
      ensures Valid()
      ensures target.None? ==> group.children == old(group.children)
      ensures target.Some? && actorAlive ==>
        group.children == PlaceAbove(old(group.children), node, WindowActor(target.value.id))
      ensures target.Some? && actorAlive && WindowActor(target.value.id) in old(group.children) ==>
        DirectlyAbove(group.children, node, WindowActor(target.value.id))
      ensures target.Some? && !actorAlive ==>
        group.children == PlaceOnTop(old(group.children), node) &&
        group.children[|group.children| - 1] == node
      ensures Without(group.children, node) == Without(old(group.children), node)
      ensures multiset(group.children) == multiset(old(group.children))
    {
      if target.None? {
        return;
      }
      var actor := if actorAlive then Some(WindowActor(target.value.id)) else None;
      group.SetChildAboveSibling(node, actor);
    }

    /** Replace the icon: destroy the old one (removing it from the
        overlay), then add a fresh one for the target, flush with the
        overlay's outer side and level with the window's visible part.
        `iconSize` and `dy` are supplied by the caller. */
    method UpdateIcon(margin: int, iconSize: int, dy: int)
      requires IconOwned() && target.Some?
      modifies this`icon, this`iconChildren
      ensures IconOwned()
      ensures icon == Some(Icon(target.value.id, iconSize,
                                IconX(target.value.actorX, margin, width, iconSize),
                                IconY(target.value.actorY, dy, y)))
      ensures iconChildren == [icon.value]
    {
      if icon.Some? {
        assert Without([icon.value], icon.value) == [] by {
          assert [icon.value][1..] == [];
        }
        iconChildren := Without(iconChildren, icon.value);
        icon := None;
      }
      var w := target.value;
      var made := Icon(w.id, iconSize, IconX(w.actorX, margin, width, iconSize), IconY(w.actorY, dy, y));
      icon := Some(made);
      iconChildren := iconChildren + [made];
    }

    /** Make `metaWindow` the target. With no window, or no neighbour to
        bound the overlay, the target is cleared, the overlay hidden and
        nothing else changes. Otherwise the overlay takes the resolved
        extent, gets a new icon when icons are shown, is raised directly
        above the window's actor and shown. `space` is the window's space;
        `margin` the stack margin. */
    method SetTarget(metaWindow: Option<Window>, space: seq<Window>, margin: int,
                     iconSize: int, dy: int) returns (ok: bool)
      requires Valid()
      modifies this, group
      ensures Valid()
      ensures ok <==> metaWindow.Some? && Resolve(metaWindow.value, space, margin, monitorWidth).Some?
      ensures y == old(y) && height == old(height) && activated == old(activated)
      ensures !ok ==>
        target == None && !visible &&
        x == old(x) && width == old(width) && icon == old(icon) &&
        group.children == old(group.children)
      ensures ok ==>
        var w := metaWindow.value;
        target == metaWindow && visible &&
        Resolve(w, space, margin, monitorWidth) == Some(Placement(x, width)) &&
        group.children == PlaceAbove(old(group.children), node, WindowActor(w.id)) &&
        icon == (if showIcon
                 then Some(Icon(w.id, iconSize, IconX(w.actorX, margin, width, iconSize), IconY(w.actorY, dy, y)))
                 else old(icon))
    {
      target := metaWindow;
      if metaWindow.None? {
        ok := Bail();
        return;
      }
      var w := metaWindow.value;
      var placement := Resolve(w, space, margin, monitorWidth);
      if placement.None? {
        ok := Bail();
        return;
      }
      x := placement.value.x;
      width := placement.value.width;
      if showIcon {
        UpdateIcon(margin, iconSize, dy);
      }
      group.SetChildAboveSibling(node, Some(WindowActor(w.id)));
      visible := true;
      ok := true;
    }

    /** Clear the target and hide the overlay. */
    method Bail() returns (ok: bool)
      requires group.Valid() && node.OverlayActor? && node in group.children && IconOwned()
      modifies this`target, this`visible
      ensures Valid()
      ensures !ok && target == None && !visible
    {
      target := None;
      visible := false;
      ok := false;
    }
  }

  /** Calling `SetTarget` twice with the same window and unchanged geometry
      leaves the overlay exactly as one call does: same answer, extent, icon
      and stacking order. */
  method SetTargetTwice(o: StackOverlay, w: Window, space: seq<Window>, margin: int,
                        iconSize: int, dy: int) returns (first: bool, second: bool)
    requires o.Valid()
    modifies o, o.group
    ensures o.Valid()
    ensures first == second
    ensures second ==>
      o.target == Some(w) && o.visible &&
      Resolve(w, space, margin, o.monitorWidth) == Some(Placement(o.x, o.width)) &&
      o.group.children == PlaceAbove(old(o.group.children), o.node, WindowActor(w.id)) &&
      o.icon == (if o.showIcon
                 then Some(Icon(w.id, iconSize, IconX(w.actorX, margin, o.width, iconSize),
                                IconY(w.actorY, dy, o.y)))
                 else old(o.icon))
    ensures !second ==>
      o.target == None && !o.visible && o.x == old(o.x) && o.width == old(o.width) &&
      o.icon == old(o.icon) && o.group.children == old(o.group.children)
  {
    first := o.SetTarget(Some(w), space, margin, iconSize, dy);
    second := o.SetTarget(Some(w), space, margin, iconSize, dy);
    if first {
      PlaceAboveIdempotent(old(o.group.children), o.node, WindowActor(w.id));
    }
  }
}
