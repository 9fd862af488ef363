/** Placement arithmetic of the stack overlay: which neighbour of the target
    window bounds the overlay, where the overlay goes, and where its icon
    goes inside it. Everything here is a value computed from the window
    geometry handed in; coordinates are monitor-local pixels. */
module Geometry {
  import opened Seqs

  /** A managed window as the overlay sees it: an identity (JavaScript
      object identity), the position of its backing actor, its frame
      rectangle's x and width, and the x it is animating towards, if any. */
  datatype Window = Window(
    id: nat,
    actorX: int,
    actorY: int,
    frameX: int,
    frameWidth: int,
    destinationX: Option<int>)

  /** Which screen edge an overlay guards. */
  datatype Edge = Left | Right

  /** The overlay's horizontal extent. */
  datatype Placement = Placement(x: int, width: int)

  /** The overlay's icon: the window it was made for, its size and its
      position relative to the overlay. */
  datatype Icon = Icon(window: nat, size: int, x: int, y: int)

  /** Approximate width of a window's resize border, kept clear of the
      overlay. */
  const ResizeBorder := 5
  /** Horizontal gap between the icon and the overlay's outer side. */
  const IconMarginX := 2
  /** Vertical offset of the icon below the window's visible top. */
  const IconMarginY := 4

  function Ids(space: seq<Window>): seq<nat> {
    seq(|space|, i requires 0 <= i < |space| => space[i].id)
  }

  /** A window left of the stack margin is stacked at the left edge; any
      other window is treated as stacked at the right edge. */
  function EdgeOf(w: Window, margin: int): Edge {
    if w.actorX < margin then Left else Right
  }

  /** The neighbour's x: its destination while it is animating, else its
      frame x. A destination of 0 is falsy in JavaScript and so counts as
      absent. */
  function NeighbourX(n: Window): int {
    if n.destinationX.Some? && n.destinationX.value != 0 then n.destinationX.value
    else n.frameX
  }

  /** The window that bounds the overlay: the one after the target in the
      space for the left edge, the one before it for the right edge. The
      target's index is -1 when it is not in the space, so the left edge
      then picks the first window and the right edge finds none. */
  function Neighbour(w: Window, space: seq<Window>, edge: Edge): Option<Window> {
    var i := IndexOf(Ids(space), w.id);
    var j := if edge == Left then i + 1 else i - 1;
    if 0 <= j < |space| then Some(space[j]) else None
  }

  /** The overlay's extent for target `w`, or None when there is no
      neighbour to bound it. */
  function Resolve(w: Window, space: seq<Window>, margin: int, monitorWidth: int): Option<Placement> {
    var edge := EdgeOf(w, margin);
    match Neighbour(w, space, edge)
    case None => None
    case Some(n) =>
      if edge == Left then
        Some(Placement(0, Min(margin, Max(0, NeighbourX(n) - ResizeBorder))))
      else
        var x := Max(monitorWidth - margin, NeighbourX(n) + n.frameWidth + ResizeBorder);
        Some(Placement(x, monitorWidth - x))
  }

  function Min(a: int, b: int): int { if a <= b then a else b }
  function Max(a: int, b: int): int { if a >= b then a else b }

  /** The icon's x inside the overlay: flush left when the target is at or
      left of the stack margin, flush right otherwise. */
  function IconX(actorX: int, margin: int, overlayWidth: int, iconSize: int): int {
    if actorX <= margin then IconMarginX else overlayWidth - IconMarginX - iconSize
  }

  /** The icon's y inside the overlay, from the window's actor y and the
      vertical offset of its visible part. */
  function IconY(actorY: int, dy: int, overlayY: int): int {
    actorY + dy + IconMarginY - overlayY
  }

  /** For a target at position `p` of its space (its first occurrence),
      the left edge is bounded by the next window and the right edge by the
      previous one; there is none past either end. */
  lemma NeighbourOfMember(w: Window, space: seq<Window>, p: int)
    requires 0 <= p < |space| && space[p].id == w.id
    requires forall q :: 0 <= q < p ==> space[q].id != w.id
    ensures Neighbour(w, space, Left) == if p + 1 < |space| then Some(space[p + 1]) else None
    ensures Neighbour(w, space, Right) == if 0 < p then Some(space[p - 1]) else None
  {
    var ids := Ids(space);
    assert w.id !in ids[..p] by {
      forall q | 0 <= q < p ensures ids[..p][q] != w.id {
        assert ids[..p][q] == space[q].id;
      }
    }
    IndexOfUnique(ids, w.id, p);
  }

  /** A target missing from its space gets the space's first window as its
      left-edge neighbour and no right-edge neighbour. */
  lemma NeighbourOfStranger(w: Window, space: seq<Window>)
    requires forall q :: 0 <= q < |space| ==> space[q].id != w.id
    ensures Neighbour(w, space, Left) == if space == [] then None else Some(space[0])
    ensures Neighbour(w, space, Right) == None
  {
  }

  /** Placement fails exactly when the guarded edge has no neighbour. */
  lemma ResolveFailsWithoutNeighbour(w: Window, space: seq<Window>, margin: int, monitorWidth: int)
    ensures Resolve(w, space, margin, monitorWidth).None? <==> Neighbour(w, space, EdgeOf(w, margin)).None?
  {
  }

  /** A window alone in its space has no stack boundary on either side. */
  lemma SoleWindowFails(w: Window, margin: int, monitorWidth: int)
    ensures Resolve(w, [w], margin, monitorWidth) == None
  {
  }

  /** Left edge: the overlay starts at x = 0, is as wide as the stack
      margin allows without reaching into the neighbour's resize border,
      and is never negative. */
  lemma LeftPlacement(w: Window, space: seq<Window>, margin: int, monitorWidth: int)
    requires EdgeOf(w, margin) == Left && Neighbour(w, space, Left).Some?
    ensures
      var p := Resolve(w, space, margin, monitorWidth);
      var limit := Max(0, NeighbourX(Neighbour(w, space, Left).value) - ResizeBorder);
      p.Some? && p.value.x == 0 &&
      p.value.width <= margin && p.value.width <= limit &&
      (p.value.width == margin || p.value.width == limit) &&
      (0 <= margin ==> 0 <= p.value.width)
  {
  }

  /** Right edge: the overlay ends at the monitor's right side, starts no
      further left than the stack margin and clear of the neighbour's right
      edge plus its resize border, and is as wide as that allows. Its width
      is non-negative only when that boundary lies on the monitor. */
  lemma RightPlacement(w: Window, space: seq<Window>, margin: int, monitorWidth: int)
    requires EdgeOf(w, margin) == Right && Neighbour(w, space, Right).Some?
    ensures
      var p := Resolve(w, space, margin, monitorWidth);
      var n := Neighbour(w, space, Right).value;
      var edge := NeighbourX(n) + n.frameWidth + ResizeBorder;
      p.Some? &&
      p.value.x + p.value.width == monitorWidth &&
      p.value.x >= monitorWidth - margin && p.value.x >= edge &&
      (p.value.x == monitorWidth - margin || p.value.x == edge) &&
      p.value.width <= margin &&
      (0 <= p.value.width <==> 0 <= margin && edge <= monitorWidth)
  {
  }

  /** The icon sits flush against the overlay's outer side: at the left for
      a left-edge target, ending at the right for a target right of the
      margin. At `actorX == margin` the two tests disagree: the overlay is
      placed for the right edge but the icon goes to the left. */
  lemma IconPlacement(w: Window, margin: int, overlayWidth: int, iconSize: int)
    ensures EdgeOf(w, margin) == Left ==> IconX(w.actorX, margin, overlayWidth, iconSize) == IconMarginX
    ensures w.actorX > margin ==>
      EdgeOf(w, margin) == Right &&
      IconX(w.actorX, margin, overlayWidth, iconSize) + iconSize + IconMarginX == overlayWidth
    ensures w.actorX == margin ==>
      EdgeOf(w, margin) == Right && IconX(w.actorX, margin, overlayWidth, iconSize) == IconMarginX
  {
  }

  /** The worked example: a 1920-pixel monitor, a stack margin of 50, the
      target first of three windows and its neighbour at x = 50. A resting
      neighbour leaves 45 pixels; one animating towards 800 gives the full
      margin; a destination of 0 is ignored in favour of the frame x. */
  lemma NeighbourXExample()
    ensures
      var t := Window(1, 0, 0, 0, 40, None);
      var other := Window(3, 900, 0, 900, 600, None);
      var resting := Window(2, 50, 0, 50, 600, None);
      var moving := resting.(destinationX := Some(800));
      var zero := resting.(destinationX := Some(0));
      Resolve(t, [t, resting, other], 50, 1920) == Some(Placement(0, 45)) &&
      Resolve(t, [t, moving, other], 50, 1920) == Some(Placement(0, 50)) &&
      Resolve(t, [t, zero, other], 50, 1920) == Some(Placement(0, 45))
  {
  }
}
