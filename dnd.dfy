/**
 * The drag context of etkdocking/dnd.py: the bookkeeping of one drag
 * gesture (a handle drag in a paned, or a tab drag out of a group).
 */
module Dnd {
  import opened Options

  /** The seven fields of a `DockDragContext`, as one value. */
  datatype DragFields<T> = DragFields(
    dragging: bool,
    draggedObject: Option<T>,
    sourceX: Option<int>,
    sourceY: Option<int>,
    sourceButton: Option<int>,
    offsetX: Option<int>,
    offsetY: Option<int>)

  /** What `reset` leaves: not dragging, every other field `None`. */
  function Cleared<T>(): (f: DragFields<T>)
    ensures !f.dragging && f.draggedObject.None? && f.sourceButton.None?
    ensures f.sourceX.None? && f.sourceY.None? && f.offsetX.None? && f.offsetY.None?
  {
    DragFields(false, None, None, None, None, None, None)
  }

  /** `DockDragContext`; `T` is the kind of object being dragged. */
  class DockDragContext<T> {
    var dragging: bool
    var draggedObject: Option<T>
    var sourceX: Option<int>
    var sourceY: Option<int>
    var sourceButton: Option<int>
    var offsetX: Option<int>
    var offsetY: Option<int>

    function Fields(): DragFields<T>
      reads this
    {
      DragFields(dragging, draggedObject, sourceX, sourceY, sourceButton, offsetX, offsetY)
    }

    /** A fresh context is a reset one. */
    constructor ()
      ensures Fields() == Cleared()
    {
      dragging := false;
      draggedObject := None;
      sourceX := None;
      sourceY := None;
      sourceButton := None;
      offsetX := None;
      offsetY := None;
    }

    /** Clears every field. The new state does not depend on the old one, so
        resetting twice leaves what resetting once does. */
    method Reset()
      modifies this
      ensures Fields() == Cleared()
    {
      dragging := false;
      draggedObject := None;
      sourceX := None;
      sourceY := None;
      sourceButton := None;
      offsetX := None;
      offsetY := None;
    }
  }
}
