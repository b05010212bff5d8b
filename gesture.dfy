/** Turning a swipe on the touch screen into an arrow key. */
module Gesture {
  import opened Wrappers
  import Rules

  /** A touch position in screen coordinates; y grows downwards. */
  datatype Point = Point(x: int, y: int)

  function Min(a: int, b: int): int { if a <= b then a else b }
  function Max(a: int, b: int): int { if a >= b then a else b }
  function Abs(a: int): int { if a < 0 then -a else a }

  /**
   * The key a swipe from `start` to `end` stands for. A swipe that keeps
   * its x or its y stands for nothing; otherwise the longer axis decides
   * (ties go to the horizontal one) and the sign of the motion picks the key.
   */
  function ManageGesture(start: Point, end: Point): (key: Option<string>)
    ensures key.None? <==> start.x == end.x || start.y == end.y
    ensures key.Some? ==> Rules.IsArrow(key.value)
    ensures key == Some("ArrowLeft") <==>
      key.Some? && Abs(end.x - start.x) >= Abs(end.y - start.y) && start.x > end.x
    ensures key == Some("ArrowRight") <==>
      key.Some? && Abs(end.x - start.x) >= Abs(end.y - start.y) && start.x < end.x
    ensures key == Some("ArrowUp") <==>
      key.Some? && Abs(end.x - start.x) < Abs(end.y - start.y) && start.y > end.y
    ensures key == Some("ArrowDown") <==>
      key.Some? && Abs(end.x - start.x) < Abs(end.y - start.y) && start.y < end.y
  {
    if start.x != end.x && start.y != end.y then
      var nearest := Point(Min(start.x, end.x), Min(start.y, end.y));
      var farthest := Point(Max(start.x, end.x), Max(start.y, end.y));
      var diffX := farthest.x - nearest.x;
      var diffY := farthest.y - nearest.y;
      if diffX >= diffY then
        if start.x > end.x then Some("ArrowLeft") else Some("ArrowRight")
      else
        if start.y > end.y then Some("ArrowUp") else Some("ArrowDown")
    else
      None
  }

  function Opposite(key: string): string {
    match key
    case "ArrowLeft" => "ArrowRight"
    case "ArrowRight" => "ArrowLeft"
    case "ArrowUp" => "ArrowDown"
    case "ArrowDown" => "ArrowUp"
    case _ => key
  }

  /** Swiping back along the same line gives the opposite key. */
  lemma ReversedSwipe(start: Point, end: Point)
    ensures ManageGesture(end, start).None? <==> ManageGesture(start, end).None?
    ensures ManageGesture(start, end).Some? ==>
      ManageGesture(end, start) == Some(Opposite(ManageGesture(start, end).value))
  {
  }
}
