/**
 * The point-to-point selection tool: a selection is a path of straight
 * segments starting at `start`; once finished (state `Selected`) the path
 * is a closed polygon, and `MovePoint` drags one of its vertices.
 */
module Selection {
  import opened Exceptions

  datatype Option<T> = None | Some(value: T)

  datatype Point = Point(x: int, y: int)

  /** A straight segment, the only kind of `PolyLine` this tool creates. */
  datatype PolyLine = PolyLine(start: Point, end: Point)

  /** The states a selection model passes through. */
  datatype SelectionState = NoSelection | Selecting | Selected | Processing

  /** Each segment begins where the one before it ends, and the first at `start`. */
  predicate Chained(start: Point, segs: seq<PolyLine>)
  {
    (|segs| > 0 ==> segs[0].start == start)
    && forall i :: 0 < i < |segs| ==> segs[i - 1].end == segs[i].start
  }

  /** A chain through `start` that ends where it began: a finished selection. */
  predicate Closed(start: Point, segs: seq<PolyLine>)
  {
    |segs| > 0 && Chained(start, segs) && segs[|segs| - 1].end == start
  }

  /**
   * The segments after `movePoint(index, newPos)` as the code is written:
   * segment `index` now starts at `newPos`, and the segment before it, if
   * any, now ends there; when the first vertex moves and there are several
   * segments, the last segment is replaced by one from the old first
   * vertex to `newPos`.
   */
  function MovedAsWritten(segs: seq<PolyLine>, index: int, newPos: Point): (r: seq<PolyLine>)
    requires 0 <= index < |segs|
    ensures |r| == |segs|
    ensures r[index] == PolyLine(newPos, segs[index].end)
    ensures index > 0 ==> r[index - 1] == PolyLine(segs[index - 1].start, newPos)
    ensures index == 0 && |segs| > 1 ==> r[|segs| - 1] == PolyLine(segs[0].start, newPos)
    ensures forall i :: (0 <= i < |segs| && i != index && i != index - 1
                         && !(index == 0 && i == |segs| - 1)) ==> r[i] == segs[i]
  {
    var moved := segs[index := PolyLine(newPos, segs[index].end)];
    var joined := if index > 0 then moved[index - 1 := PolyLine(segs[index - 1].start, newPos)] else moved;
    if index == 0 && |segs| > 1 then joined[|segs| - 1 := PolyLine(segs[0].start, newPos)] else joined
  }

  /**
   * The segments after moving vertex `index` to `newPos` as the method's
   * documentation describes it: segment `index` starts at `newPos`, and the
   * segment before it, wrapping around from the first to the last, ends there.
   */
  function Moved(segs: seq<PolyLine>, index: int, newPos: Point): (r: seq<PolyLine>)
    requires 0 <= index < |segs|
    ensures |r| == |segs|
  {
    var prev := if index == 0 then |segs| - 1 else index - 1;
    var moved := segs[index := PolyLine(newPos, segs[index].end)];
    moved[prev := PolyLine(moved[prev].start, newPos)]
  }

  /** The start point after moving vertex `index`: only the first vertex is `start`. */
  function MovedStart(start: Point, index: int, newPos: Point): Point
  {
    if index == 0 then newPos else start
  }

  /** Moving any vertex of a closed polygon, as documented, leaves it closed. */
  lemma MovedKeepsClosed(start: Point, segs: seq<PolyLine>, index: int, newPos: Point)
    requires Closed(start, segs) && 0 <= index < |segs|
    ensures Closed(MovedStart(start, index, newPos), Moved(segs, index, newPos))
  {
    var r, start' := Moved(segs, index, newPos), MovedStart(start, index, newPos);
    var n, prev := |segs|, if index == 0 then |segs| - 1 else index - 1;
    assert r[index].start == newPos && r[prev].end == newPos;
    forall i | 0 < i < n
      ensures r[i - 1].end == r[i].start
    {
      if i == index {
      } else {
        assert segs[i - 1].end == segs[i].start;
      }
    }
  }

  /** Away from the first vertex, the code does what its documentation says. */
  lemma MovedAsWrittenAgrees(segs: seq<PolyLine>, index: int, newPos: Point)
    requires 0 < index < |segs|
    ensures MovedAsWritten(segs, index, newPos) == Moved(segs, index, newPos)
  {
  }

  /**
   * Moving the first vertex of the closed polygon A -> B -> A, as the code
   * is written, leaves segments (C, B) and (A, C): B and A no longer meet.
   */
  lemma MovedAsWrittenBreaksClosed()
    ensures var a, b, c := Point(0, 0), Point(1, 0), Point(2, 2);
            var segs := [PolyLine(a, b), PolyLine(b, a)];
            Closed(a, segs) && !Closed(MovedStart(a, 0, c), MovedAsWritten(segs, 0, c))
  {
    var a, b, c := Point(0, 0), Point(1, 0), Point(2, 2);
    var segs := [PolyLine(a, b), PolyLine(b, a)];
    var r := MovedAsWritten(segs, 0, c);
    assert r[0].end == b && r[1].start == a;
  }

  /**
   * `PointToPointSelectionModel` with the state it keeps in its superclass:
   * the selection state, the segments of the selection, and its start point.
   */
  class PointToPointSelectionModel {
    var state: SelectionState
    var start: Point
    var selection: seq<PolyLine>

    /** `lastPoint`: the end of the path, where the next segment begins. */
    function LastPoint(): (p: Point)
      reads this
      ensures |selection| > 0 ==> p == selection[|selection| - 1].end
      ensures |selection| == 0 ==> p == start
    {
      if |selection| == 0 then start else selection[|selection| - 1].end
    }

    /** The straight segment from the last point to `p`, which continues the path. */
    function LiveWire(p: Point): (r: PolyLine)
      reads this
      ensures r.end == p
      ensures Chained(start, selection) ==> Chained(start, selection + [r])
    {
      PolyLine(LastPoint(), p)
    }

    /** Appends the live wire to `p` to the selection, which then ends at `p`. */
    method AppendToSelection(p: Point)
      modifies this
      ensures selection == old(selection) + [old(LiveWire(p))]
      ensures start == old(start) && state == old(state)
      ensures LastPoint() == p
      ensures old(Chained(start, selection)) ==> Chained(start, selection)
    {
      selection := selection + [PolyLine(LastPoint(), p)];
    }

    /**
     * Moves vertex `index` of a finished selection to `newPos`, walking the
     * segments with an iterator as the code does; `IllegalState` unless the
     * selection is finished, `IllegalArgument` for an index that names no segment.
     */
    method MovePoint(index: int, newPos: Point) returns (outcome: Outcome)
      modifies this
      ensures state == old(state)
      ensures old(state) != Selected ==> outcome == Fail(IllegalState)
      ensures old(state) == Selected && !(0 <= index < |old(selection)|) ==> outcome == Fail(IllegalArgument)
      ensures outcome.Fail? ==> selection == old(selection) && start == old(start)
      ensures outcome.Pass? <==> old(state) == Selected && 0 <= index < |old(selection)|
      ensures outcome.Pass? ==> (selection == MovedAsWritten(old(selection), index, newPos)
                                 && start == MovedStart(old(start), index, newPos))
    {
      if state != Selected {
        return Fail(IllegalState);
      }
      if index < 0 || index >= |selection| {
        return Fail(IllegalArgument);
      }
      ghost var segs, start0 := selection, start;
      ghost var moved := segs[index := PolyLine(newPos, segs[index].end)];
      ghost var joined := if index > 0 then moved[index - 1 := PolyLine(segs[index - 1].start, newPos)] else moved;
      var count := 0;
      var previousSegment: Option<PolyLine> := None;
      while count < |selection|
        invariant 0 <= count <= index && |selection| == |segs|
        invariant previousSegment == if count == 0 then None else Some(segs[count - 1])
        invariant state == Selected
        invariant selection == segs && start == start0
        decreases |selection| - count
      {
        var current := selection[count];
        if count == index {
          selection := selection[count := PolyLine(newPos, current.end)];
          if index == 0 {
            start := newPos;
          }
          if index > 0 && previousSegment.Some? {
            selection := selection[count - 1 := PolyLine(previousSegment.value.start, newPos)];
          }
        }
        previousSegment := Some(current);
        count := count + 1;
        if count > index {
          break;
        }
      }
      assert count == index + 1;
      if index == 0 && |selection| > 1 {
        // the list iterator stands just after segment `count - 1`; walk it to the end
        var cursor := count;
        while cursor < |selection|
          invariant cursor <= |selection| && state == Selected
          invariant selection == joined && start == MovedStart(start0, index, newPos)
          decreases |selection| - cursor
        {
          cursor := cursor + 1;
        }
        cursor := cursor - 1;
        selection := selection[cursor := PolyLine(previousSegment.value.start, newPos)];
      }
      return Pass;
    }
  }

}
