/** The drag gesture replayed over the four pattern circles (crack.py, `move`).
    The browser is abstracted to the list of actions it is asked to perform. */
module Gesture {
  import opened Errors

  /** A circle element: its location (top-left corner) and its size. */
  datatype Circle = Circle(x: int, y: int, width: int, height: int)

  datatype Action =
    | PressAndHold(on: Circle)        // move to the circle's offset (width / 2, height / 2), press and hold
    | MoveBy(dx: int, dy: int, times: nat)  // one `move_by_offset(dx / times, dy / times)`
    | Release

  /** Number of small moves one segment of the drag is split into. */
  const Times: nat := 30

  /** Python's `circles[k]`: a negative index counts from the end. */
  function PyIndex(k: int, n: nat): (r: Option<nat>)
    ensures r.Some? <==> -(n as int) <= k < n
    ensures r.Some? ==> r.value < n && r.value % n == k % n
  {
    if 0 <= k < n then Some(k) else if -(n as int) <= k < 0 then Some(k + n) else None
  }

  /** The circles `circles[numbers[k] - 1]` the loop gets to, for k = from, ...,
      3, up to the first index that raises IndexError. */
  function Targets(numbers: seq<int>, circles: seq<Circle>, from: nat): (ts: seq<Circle>)
    requires from <= 4
    ensures |ts| <= 4 - from
    decreases 4 - from
  {
    if from == 4 || from >= |numbers| then []
    else match PyIndex(numbers[from] - 1, |circles|)
      case None => []
      case Some(i) => [circles[i]] + Targets(numbers, circles, from + 1)
  }

  /** The first four numbers all index the circle list. */
  predicate ValidOrder(numbers: seq<int>, circles: seq<Circle>) {
    |numbers| >= 4 && forall k | 0 <= k < 4 :: PyIndex(numbers[k] - 1, |circles|).Some?
  }

  /** The `times` small moves from one circle to the next: their offset is the
      difference of the two locations. */
  function Segment(from: Circle, to: Circle): seq<Action>
  {
    Repeat(MoveBy(to.x - from.x, to.y - from.y, Times), Times)
  }

  /** `n` copies of one action. */
  function Repeat(a: Action, n: nat): (s: seq<Action>)
    ensures |s| == n && forall i | 0 <= i < n :: s[i] == a
  {
    if n == 0 then [] else Repeat(a, n - 1) + [a]
  }

  /** The segments between consecutive targets. */
  function Drag(ts: seq<Circle>): (moves: seq<Action>)
    ensures |moves| == if |ts| < 2 then 0 else (|ts| - 1) * Times
  {
    if |ts| < 2 then [] else Drag(ts[..|ts| - 1]) + Segment(ts[|ts| - 2], ts[|ts| - 1])
  }

  /** The actions `move(numbers)` performs: press on the first target, drag
      along the others, release after the fourth. */
  function Plan(numbers: seq<int>, circles: seq<Circle>): seq<Action>
  {
    var ts := Targets(numbers, circles, 0);
    if ts == [] then []
    else [PressAndHold(ts[0])] + Drag(ts) + (if |ts| == 4 then [Release] else [])
  }

  /** `move(numbers)`: for index 0..3 takes `circles[numbers[index] - 1]`;
      presses on it at index 0, otherwise replays the pending offset as
      `Times` small moves; releases at index 3, otherwise computes the offset
      to the next circle.  `completed` is false when an IndexError stopped the
      loop, in which case `performed` is what had been done before it. */
  method Move(numbers: seq<int>, circles: seq<Circle>) returns (performed: seq<Action>, completed: bool)
    ensures performed == Plan(numbers, circles)
    ensures completed <==> ValidOrder(numbers, circles)
  {
    performed, completed := [], false;
    ghost var ts := Targets(numbers, circles, 0);
    ValidOrderReachesAll(numbers, circles);
    TargetAt(numbers, circles, 0);
    if |numbers| == 0 {
      return;
    }
    var first := PyIndex(numbers[0] - 1, |circles|);
    if first.None? {
      return;
    }
    // the index of `circle` in `circles`; later iterations reuse the index
    // the previous one resolved for the next circle
    var cur := first.value;
    var dx, dy := 0, 0;
    var index := 0;
    while index < 4
      invariant 0 <= index <= 4
      invariant 0 <= cur < |circles|
      invariant index < 4 ==> index < |ts|
      invariant index < 4 ==> circles[cur] == ts[index]
      invariant index == 4 ==> |ts| == 4
      invariant 0 < index < 4 ==> dx == ts[index].x - ts[index - 1].x && dy == ts[index].y - ts[index - 1].y
      invariant performed == Partial(ts, index)
    {
      var circle := circles[cur];
      if index == 0 {
        performed := performed + [PressAndHold(circle)];
        assert Drag(ts[..1]) == [];
      } else {
        ghost var before := performed;
        var i := 0;
        while i < Times
          invariant 0 <= i <= Times
          invariant performed == before + Repeat(MoveBy(dx, dy, Times), i)
        {
          performed := performed + [MoveBy(dx, dy, Times)];
          i := i + 1;
        }
        PartialStep(ts, index);
      }
      assert performed == [PressAndHold(ts[0])] + Drag(ts[..index + 1]);
      if index == 3 {
        performed := performed + [Release];
        assert ts[..4] == ts;
      } else {
        TargetAt(numbers, circles, index + 1);
        if index + 1 >= |numbers| {
          assert ts[..index + 1] == ts;
          return;
        }
        var next := PyIndex(numbers[index + 1] - 1, |circles|);
        if next.None? {
          assert ts[..index + 1] == ts;
          return;
        }
        dx := circles[next.value].x - circle.x;
        dy := circles[next.value].y - circle.y;
        cur := next.value;
      }
      index := index + 1;
    }
    assert ts[..4] == ts;
    completed := true;
  }

  /** The actions performed before loop index `index` (0..4) starts. */
  ghost function Partial(ts: seq<Circle>, index: nat): seq<Action>
    requires 0 < index ==> 0 < |ts| && index <= |ts|
  {
    if index == 0 then []
    else [PressAndHold(ts[0])] + Drag(ts[..index]) + (if index == 4 then [Release] else [])
  }

  lemma PartialStep(ts: seq<Circle>, index: nat)
    requires 0 < index < |ts| && index < 4
    ensures Partial(ts, index) + Segment(ts[index - 1], ts[index]) ==
      [PressAndHold(ts[0])] + Drag(ts[..index + 1])
  {
    assert ts[..index + 1][..index] == ts[..index];
  }

  /** The loop gets past index k exactly when `numbers[k]` is present and
      indexes the circle list; the circle it takes is `circles[numbers[k] - 1]`. */
  lemma TargetAt(numbers: seq<int>, circles: seq<Circle>, k: nat)
    requires k < 4 && k <= |Targets(numbers, circles, 0)|
    ensures k < |Targets(numbers, circles, 0)| <==> k < |numbers| && PyIndex(numbers[k] - 1, |circles|).Some?
    ensures k < |Targets(numbers, circles, 0)| ==>
      Targets(numbers, circles, 0)[k] == circles[PyIndex(numbers[k] - 1, |circles|).value]
  {
    TargetsValid(numbers, circles, 0);
  }

  /** The gesture is complete exactly when the order is valid. */
  lemma ValidOrderReachesAll(numbers: seq<int>, circles: seq<Circle>)
    ensures ValidOrder(numbers, circles) <==> |Targets(numbers, circles, 0)| == 4
  {
    TargetsValid(numbers, circles, 0);
  }

  /** Targets from `from` on reach index 4 exactly when every number from
      `from` to 3 is a valid index; they stop at the first one that is not. */
  lemma {:induction false} TargetsValid(numbers: seq<int>, circles: seq<Circle>, from: nat)
    requires from <= 4
    ensures forall k | from <= k < from + |Targets(numbers, circles, from)| ::
      k < |numbers| && PyIndex(numbers[k] - 1, |circles|).Some? &&
      Targets(numbers, circles, from)[k - from] == circles[PyIndex(numbers[k] - 1, |circles|).value]
    ensures from + |Targets(numbers, circles, from)| < 4 ==>
      var k := from + |Targets(numbers, circles, from)|;
      k >= |numbers| || PyIndex(numbers[k] - 1, |circles|).None?
    decreases 4 - from
  {
    if from < 4 && from < |numbers| && PyIndex(numbers[from] - 1, |circles|).Some? {
      TargetsValid(numbers, circles, from + 1);
    }
  }

  /** With four circles, a number is a valid index when it lies in -3..4;
      the digit 0 selects the last circle, as `circles[-1]` does. */
  lemma FourCircleIndices(numbers: seq<int>, circles: seq<Circle>)
    requires |circles| == 4
    ensures ValidOrder(numbers, circles) <==>
      |numbers| >= 4 && forall k | 0 <= k < 4 :: -3 <= numbers[k] <= 4
    ensures PyIndex(0 - 1, |circles|) == Some(3)
  {
  }

  /** The circle `circles[numbers[k] - 1]` of a valid order. */
  function Pick(numbers: seq<int>, circles: seq<Circle>, k: nat): Circle
    requires ValidOrder(numbers, circles) && k < 4
  {
    circles[PyIndex(numbers[k] - 1, |circles|).value]
  }

  lemma {:induction false} DragMovesOnly(ts: seq<Circle>)
    ensures forall i | 0 <= i < |Drag(ts)| :: Drag(ts)[i].MoveBy?
  {
    if |ts| >= 2 {
      DragMovesOnly(ts[..|ts| - 1]);
    }
  }

  lemma DragOfFour(ts: seq<Circle>)
    requires |ts| == 4
    ensures Drag(ts) == Segment(ts[0], ts[1]) + Segment(ts[1], ts[2]) + Segment(ts[2], ts[3])
  {
    assert ts[..3][..2] == ts[..2] && ts[..2][..1] == ts[..1];
    assert Drag(ts[..2]) == Segment(ts[0], ts[1]);
  }

  lemma Sections(press: Action, s1: seq<Action>, s2: seq<Action>, s3: seq<Action>)
    requires |s1| == |s2| == |s3| == Times
    ensures ([press] + s1 + s2 + s3 + [Release])[1..31] == s1
    ensures ([press] + s1 + s2 + s3 + [Release])[31..61] == s2
    ensures ([press] + s1 + s2 + s3 + [Release])[61..91] == s3
  {
  }

  /** A valid order gives one press at the first circle, then thirty moves by
      one thirtieth of each of the three offsets between consecutive circles,
      then one release. */
  lemma CompleteGestureShape(numbers: seq<int>, circles: seq<Circle>)
    requires ValidOrder(numbers, circles)
    ensures |Plan(numbers, circles)| == 2 + 3 * Times
    ensures Plan(numbers, circles)[0] == PressAndHold(Pick(numbers, circles, 0))
    ensures Plan(numbers, circles)[1..31] == Segment(Pick(numbers, circles, 0), Pick(numbers, circles, 1))
    ensures Plan(numbers, circles)[31..61] == Segment(Pick(numbers, circles, 1), Pick(numbers, circles, 2))
    ensures Plan(numbers, circles)[61..91] == Segment(Pick(numbers, circles, 2), Pick(numbers, circles, 3))
    ensures Plan(numbers, circles)[91] == Release
  {
    var ts := Targets(numbers, circles, 0);
    ValidOrderReachesAll(numbers, circles);
    TargetsValid(numbers, circles, 0);
    assert ts == [Pick(numbers, circles, 0), Pick(numbers, circles, 1), Pick(numbers, circles, 2), Pick(numbers, circles, 3)];
    DragOfFour(ts);
    Sections(PressAndHold(ts[0]), Segment(ts[0], ts[1]), Segment(ts[1], ts[2]), Segment(ts[2], ts[3]));
  }

  /** The only press is the first action, and a release happens exactly when
      the order is valid, as the very last action. */
  lemma PressFirstReleaseLast(numbers: seq<int>, circles: seq<Circle>)
    ensures forall i | 0 < i < |Plan(numbers, circles)| :: !Plan(numbers, circles)[i].PressAndHold?
    ensures Plan(numbers, circles) != [] ==> Plan(numbers, circles)[0].PressAndHold?
    ensures Release in Plan(numbers, circles) <==> ValidOrder(numbers, circles)
    ensures ValidOrder(numbers, circles) ==>
      Plan(numbers, circles)[|Plan(numbers, circles)| - 1] == Release &&
      Release !in Plan(numbers, circles)[..|Plan(numbers, circles)| - 1]
  {
    var ts := Targets(numbers, circles, 0);
    ValidOrderReachesAll(numbers, circles);
    DragMovesOnly(ts);
    var g := Plan(numbers, circles);
    if ts != [] {
      var tail := if |ts| == 4 then [Release] else [];
      assert g == [PressAndHold(ts[0])] + Drag(ts) + tail;
      assert forall i | 1 <= i < 1 + |Drag(ts)| :: g[i] == Drag(ts)[i - 1];
      assert g[..1 + |Drag(ts)|] == [PressAndHold(ts[0])] + Drag(ts);
    }
  }

  /** The press on the first circle is performed before the second number is
      looked at: a bad second number leaves the mouse held down. */
  lemma PressBeforeValidation(numbers: seq<int>, circles: seq<Circle>)
    requires |numbers| >= 1 && PyIndex(numbers[0] - 1, |circles|).Some?
    requires |numbers| == 1 || PyIndex(numbers[1] - 1, |circles|).None?
    ensures Plan(numbers, circles) == [PressAndHold(circles[PyIndex(numbers[0] - 1, |circles|).value])]
  {
    TargetsValid(numbers, circles, 0);
  }
}
