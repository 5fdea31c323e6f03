/**
 * The draggable clue panel: a two-state machine (idle, dragging) over the
 * panel's top-left position and the pointer offset recorded on press-down.
 * Pixel coordinates are integers; the panel's bounding rectangle is taken to
 * be its current position.
 */
module Panel {
  import opened Wrappers

  datatype Point = Point(x: int, y: int)

  class ClueModal {
    var isDragging: bool
    var position: Point
    /** `modalRef.current.offset`: undefined until the first press. */
    var offset: Option<Point>

    /** While dragging, an offset has been recorded. */
    ghost predicate Valid()
      reads this
    {
      isDragging ==> offset.Some?
    }

    /** A fresh panel: idle, at (100, 100), no offset yet. */
    constructor ()
      ensures Valid()
      ensures !isDragging && position == Point(100, 100) && offset == None
    {
      isDragging := false;
      position := Point(100, 100);
      offset := None;
    }

    /** `startDrag` (mouse down): enter dragging and record pointer minus top-left. */
    method StartDrag(clientX: int, clientY: int)
      requires Valid()
      modifies this
      ensures Valid()
      ensures isDragging && position == old(position)
      ensures offset == Some(Point(clientX - position.x, clientY - position.y))
    {
      isDragging := true;
      offset := Some(Point(clientX - position.x, clientY - position.y));
    }

    /** `onDrag`: while dragging, put the top-left at pointer minus the recorded offset. */
    method OnDrag(clientX: int, clientY: int)
      requires Valid()
      modifies this`position
      ensures Valid()
      ensures isDragging ==> position == Point(clientX - offset.value.x, clientY - offset.value.y)
      ensures !isDragging ==> position == old(position)
    {
      if isDragging {
        position := Point(clientX - offset.value.x, clientY - offset.value.y);
      }
    }

    /** Mouse move: the `onDrag` handler is attached only while dragging. */
    method MouseMove(clientX: int, clientY: int)
      requires Valid()
      modifies this`position
      ensures Valid()
      ensures isDragging ==> position == Point(clientX - offset.value.x, clientY - offset.value.y)
      ensures !isDragging ==> position == old(position)
    {
      if isDragging {
        OnDrag(clientX, clientY);
      }
    }

    /** `stopDrag` (mouse up or mouse leave): back to idle; the panel stays where it is. */
    method StopDrag()
      requires Valid()
      modifies this`isDragging
      ensures Valid()
      ensures !isDragging
    {
      isDragging := false;
    }

    /**
     * What is drawn: nothing when closed, otherwise the panel at its position.
     * Being closed does not touch `isDragging` or `position`, which survive a close
     * and reopen; the recorded offset lives on the rendered element and would not.
     */
    function Render(isOpen: bool): (view: Option<Point>)
      reads this
      ensures view.Some? <==> isOpen
      ensures isOpen ==> view.value == position
    {
      if isOpen then Some(position) else None
    }

    /**
     * A press at `press`, then the pointer moves through `moves`: after the last
     * move the panel has moved by exactly the pointer's displacement from the press.
     */
    method Drag(press: Point, moves: seq<Point>)
      requires Valid()
      modifies this
      ensures Valid() && isDragging
      ensures offset == Some(Point(press.x - old(position).x, press.y - old(position).y))
      ensures |moves| == 0 ==> position == old(position)
      ensures |moves| > 0 ==>
                position == Point(old(position).x + moves[|moves| - 1].x - press.x,
                                  old(position).y + moves[|moves| - 1].y - press.y)
    {
      StartDrag(press.x, press.y);
      var i := 0;
      while i < |moves|
        invariant 0 <= i <= |moves|
        invariant Valid() && isDragging
        invariant offset == Some(Point(press.x - old(position).x, press.y - old(position).y))
        invariant i == 0 ==> position == old(position)
        invariant i > 0 ==> position == Point(old(position).x + moves[i - 1].x - press.x,
                                              old(position).y + moves[i - 1].y - press.y)
      {
        MouseMove(moves[i].x, moves[i].y);
        i := i + 1;
      }
    }
  }

  /** From (100, 100), a press at (150, 130) then a move to (200, 180) leaves the panel at (150, 150). */
  method DragExample() returns (p: Point)
    ensures p == Point(150, 150)
  {
    var panel := new ClueModal();
    panel.StartDrag(150, 130);
    panel.MouseMove(200, 180);
    panel.StopDrag();
    p := panel.position;
  }

  /**
   * Any press-and-move gesture on a fresh panel, released afterwards, moves it
   * by the pointer's displacement; a move after release does nothing.
   */
  method DragThenRelease(press: Point, to: Point, after: Point) returns (p: Point)
    ensures p == Point(100 + to.x - press.x, 100 + to.y - press.y)
  {
    var panel := new ClueModal();
    panel.Drag(press, [to]);
    panel.StopDrag();
    panel.MouseMove(after.x, after.y);
    p := panel.position;
  }

  /** After a drag gesture, a further move still places the panel at pointer minus the press offset. */
  method DragThenMove(press: Point, moves: seq<Point>, q: Point) returns (p: Point)
    ensures p == Point(100 + q.x - press.x, 100 + q.y - press.y)
  {
    var panel := new ClueModal();
    panel.Drag(press, moves);
    panel.MouseMove(q.x, q.y);
    p := panel.position;
  }
}
