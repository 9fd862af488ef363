# Stack overlay (PaperWM) in Dafny

PaperWM tiles windows side by side on a scrolling strip; windows pushed off
either side of the monitor are "stacked" so that only a sliver of each, one
stack margin wide, stays visible at the screen edge. The stack overlay is a
reactive surface laid over that sliver: a click on it only activates the
stacked window, instead of landing somewhere in a window that is still
animating. Two instances exist, one per edge, running the same code.

This project models that component:

- `Geometry` (`geometry.dfy`): the window record the overlay reads (identity,
  actor position, frame x and width, optional animation destination x), the
  choice of edge and neighbour, the placement arithmetic of `setTarget`
  (`Resolve`) and the icon arithmetic of `updateIcon` (`IconX`, `IconY`).
- `SceneGraph` (`scene_graph.dfy`): the window group's children as a sequence
  of actors drawn back to front, with `set_child_above_sibling` as the
  function `PlaceAbove` ("take the overlay out, put it back right after the
  actor"), or `PlaceOnTop` when the sibling is null, and the group itself as a class whose methods reorder it in place.
- `StackOverlays` (`stack_overlay.dfy`): the `StackOverlay` class with the
  fields the source mutates (target, x, y, width, height, visibility, icon,
  the overlay's children), its constructor, `SetTarget` with its `Bail` path,
  `UpdateIcon`, the restack handler and the two button handlers.
- `Seqs` (`seqs.dfy`): `Option` (null or a value), `IndexOf` (JavaScript's `indexOf`, -1 when absent) and
  `Without` (removal of a child), with the lemmas the other modules need.

Host queries become parameters: the window's space, the stack margin, the
icon size and the vertical offset of the window's visible part are passed to
each call; the monitor size and panel height are passed to the constructor.
Window identity (JavaScript `===`) is the window's `id`.

Three behaviours of the code that the model keeps as written:

- The bail path (stackoverlay.js:131-135) only hides the overlay, so the old
  icon stays its child; `SetTarget` keeps `icon` unchanged on failure.
- The icon side is decided with `actor.x <= stack_margin`
  (stackoverlay.js:117), the edge with `<` (stackoverlay.js:153); at
  equality a right-edge overlay gets its icon on the left
  (`Geometry.IconPlacement` states both).
- The right-edge width is not clamped and is negative whenever the
  neighbour's right edge plus the resize border lies beyond the monitor
  (`Geometry.RightPlacement` states exactly when).

## Model

| member | source | states |
|---|---|---|
| `Seqs.IndexOf` | stackoverlay.js:154 | the index of the first window with the target's identity, -1 exactly when there is none |
| `Geometry.NeighbourOfMember` | stackoverlay.js:153-169 | for a target at position p of its space the left edge's neighbour is the window at p+1 and the right edge's the one at p-1, none past either end |
| `Geometry.NeighbourOfStranger` | stackoverlay.js:154-169 | a target missing from its space gets the first window as left neighbour (index -1 + 1) and no right neighbour |
| `Geometry.ResolveFailsWithoutNeighbour` | stackoverlay.js:153-169 | placement fails exactly when the edge chosen by `actor.x < stack_margin` has no neighbour |
| `Geometry.SoleWindowFails` | stackoverlay.js:153-169 | a window alone in its space gets no placement on either edge |
| `Geometry.LeftPlacement` | stackoverlay.js:153-165 | left edge: x is 0, the width is the largest value within both the stack margin and the neighbour's x minus the resize border of 5, and is non-negative when the margin is |
| `Geometry.RightPlacement` | stackoverlay.js:166-178 | right edge: the overlay ends at the monitor width, starts at the larger of width minus margin and the neighbour's right edge plus 5, so its width is at most the margin and non-negative exactly when that edge is on the monitor |
| `Geometry.NeighbourXExample` | stackoverlay.js:158-159 | a destination x of 800 overrides a frame x of 50 (width 50 instead of 45), and a destination x of 0 is ignored |
| `Geometry.IconPlacement` | stackoverlay.js:110-121 | the icon is 2 pixels from the overlay's left side for a left-edge target, ends 2 pixels from its right side for a target right of the margin, and goes left at `actor.x == stack_margin` although the edge is right |
| `SceneGraph.PlaceAboveCorrect` | stackoverlay.js:100-101 | moving the overlay above an actor keeps the same children once each, puts the overlay directly after the actor, and keeps every other child in its relative order |
| `SceneGraph.PlaceAboveIdempotent` | stackoverlay.js:96-102 | re-placing the overlay above the same actor a second time changes nothing |
| `SceneGraph.PlaceOnTopCorrect` | stackoverlay.js:99-101 | moving the overlay above a null sibling (a target whose actor is gone) keeps the same children once each, makes the overlay the topmost child, and keeps every other child in its relative order |
| `SceneGraph.PlaceAboveStable` | stackoverlay.js:92-102 | when the overlay already sits directly above the actor, the reorder leaves the order as it is |
| `SceneGraph.WindowGroup.AddChild` | stackoverlay.js:87 | a new child is appended on top of the group |
| `SceneGraph.WindowGroup.SetChildAboveSibling` | stackoverlay.js:100-101 | the group's new order is the reorder of the old one: the child ends directly above the sibling when both are children, or on top when the sibling is null, with the other children in their order |
| `StackOverlays.StackOverlay.constructor` | stackoverlay.js:61-90 | the overlay starts hidden with no target, y at the panel height, height the monitor height minus the panel height, width the stack margin, and is added on top of the window group |
| `StackOverlays.StackOverlay.OnButtonPress` | stackoverlay.js:78-80 | a press is always consumed |
| `StackOverlays.StackOverlay.OnButtonRelease` | stackoverlay.js:81-85 | a release on the shown overlay is always consumed and asks for the current target to be activated |
| `StackOverlays.StackOverlay.OnRestacked` | stackoverlay.js:96-102 | with no target the order is untouched; otherwise the overlay ends directly above the target's actor, or on top of the group when that actor is null, and all other children keep their relative order |
| `StackOverlays.StackOverlay.UpdateIcon` | stackoverlay.js:104-127 | the previous icon is removed from the overlay before the new one is added, so the overlay holds exactly the new icon, placed by the icon arithmetic |
| `StackOverlays.StackOverlay.Bail` | stackoverlay.js:131-135 | the target is cleared, the overlay hidden, and false returned |
| `StackOverlays.StackOverlay.SetTarget` | stackoverlay.js:128-190 | returns true exactly when a window is given and it has a neighbour on its edge; on false the target is cleared, the overlay hidden and no geometry, icon or order changes; on true the target is stored, the overlay shown with the resolved extent, placed directly above the window's actor, and given a new icon exactly when icons are shown |
| `StackOverlays.SetTargetTwice` | stackoverlay.js:128-190 | calling `setTarget` twice with the same window and geometry gives the same answer, extent, icon and order as calling it once |

## Left out

- `createAppIcon` (application lookup, texture creation, placeholder glyph): the icon is a value recording the window, size and position.
- `fadeOut`: an opacity animation with no effect on the modelled state.
- `enable`, `disable`, signal connection and disconnection, and `_trackActor`: extension lifecycle against the host's event loop.
- `Main.activateWindow`: a host call; the release handler records the window in a ghost log instead.
- `Minimap.calcOffset` and the icon size `margin_lr`: foreign values, passed in as `dy` and `iconSize`.
- `Tiling.spaces.spaceOfWindow` and `Tiling.stack_margin`: passed in to each call; the primary monitor and the panel box are read once by the constructor.
- Coordinates are integers; JavaScript numbers and Clutter's float geometry, and Clutter's own handling of a negative width, are not modelled.
- A `destinationX` is present or absent; other falsy values such as `NaN` are not modelled, only 0.
- In `setTarget` and `updateIcon`, a window whose compositor actor is null, or whose space is undefined, is not modelled (the source would throw there). The restack handler does model a null actor: the overlay is raised to the top of the group.
- A release on an overlay with no target (the source would call `Main.activateWindow(null)`) is not modelled; a hidden overlay receives no pointer events.
- Clutter's scene graph beyond the order of the window group's children. The refusals of `set_child_above_sibling` (same node, or a node that is not a child) are modelled as leaving the order unchanged; only Clutter's warning is left out.
