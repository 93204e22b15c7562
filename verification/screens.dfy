/**
 The swipeable screen container: it shows one of its `count` children at a
 time, and a horizontal swipe moves to the neighbouring child, wrapping
 around at both ends. Only the sign of the gesture's horizontal velocity
 matters: a leftward swipe (negative velocity) moves right through the
 children, a rightward swipe moves left, and a swipe with no horizontal
 velocity leaves the screen as it is.
 */
module Screens {

  datatype Option<T> = None | Some(value: T)

  /** `screenLeft`: the previous screen, the last one before the first. */
  function ScreenLeft(count: int, id: int): (r: int)
    ensures 1 <= count && 0 <= id < count ==> 0 <= r < count
    ensures 1 <= count && 0 <= id < count ==> r == (id - 1) % count
  {
    if id - 1 < 0 then count - 1 else id - 1
  }

  /** `screenRight`: the next screen, the first one after the last. */
  function ScreenRight(count: int, id: int): (r: int)
    ensures 1 <= count && 0 <= id < count ==> 0 <= r < count
    ensures 1 <= count && 0 <= id < count ==> r == (id + 1) % count
  {
    if id + 1 > count - 1 then 0 else id + 1
  }

  /** The sign of the gesture's horizontal velocity. */
  function Sign(velocityX: real): (s: int)
    ensures s == -1 <==> velocityX < 0.0
    ensures s == 1 <==> velocityX > 0.0
    ensures s == 0 <==> velocityX == 0.0
  {
    if velocityX < 0.0 then -1 else if velocityX > 0.0 then 1 else 0
  }

  /**
   `onGestureEvent`: the active screen after a swipe ends. The screen moves
   against the swipe, so the index steps by minus the velocity's sign,
   modulo the number of screens.
   */
  function OnGestureEnd(count: int, active: int, velocityX: real): (r: int)
    ensures 1 <= count && 0 <= active < count ==> 0 <= r < count
    ensures 1 <= count && 0 <= active < count ==> r == (active - Sign(velocityX)) % count
  {
    if velocityX < 0.0 then
      assert active - Sign(velocityX) == active + 1;
      ScreenRight(count, active)
    else if velocityX > 0.0 then
      assert active - Sign(velocityX) == active - 1;
      ScreenLeft(count, active)
    else
      assert active - Sign(velocityX) == active;
      active
  }

  /** The first screen goes left to the last, and the last goes right to the first. */
  lemma Wraparound(count: int)
    requires 1 <= count
    ensures ScreenLeft(count, 0) == count - 1
    ensures ScreenRight(count, count - 1) == 0
  {
  }

  /** Away from the ends, the steps move by exactly one. */
  lemma InteriorSteps(count: int, id: int)
    ensures 0 < id ==> ScreenLeft(count, id) == id - 1
    ensures id < count - 1 ==> ScreenRight(count, id) == id + 1
  {
  }

  /** Stepping left and right undo each other. */
  lemma LeftRightInverse(count: int, id: int)
    requires 1 <= count && 0 <= id < count
    ensures ScreenRight(count, ScreenLeft(count, id)) == id
    ensures ScreenLeft(count, ScreenRight(count, id)) == id
  {
  }

  /** With a single screen neither step moves. */
  lemma SingleScreenFixed(velocityX: real)
    ensures ScreenLeft(1, 0) == 0 && ScreenRight(1, 0) == 0
    ensures OnGestureEnd(1, 0, velocityX) == 0
  {
  }

  /** With no children at all, stepping left from the first position leaves the valid range. */
  lemma NoScreensLeftEscapes()
    ensures ScreenLeft(0, 0) == -1
    ensures ScreenRight(0, 0) == 0
  {
  }

  /** The active screen after each swipe in `swipes` has ended, in order. */
  function Swipes(count: int, active: int, swipes: seq<real>): int
    decreases |swipes|
  {
    if |swipes| == 0 then active
    else Swipes(count, OnGestureEnd(count, active, swipes[0]), swipes[1..])
  }

  /** The net number of screens a run of swipes moves left. */
  function NetLeft(swipes: seq<real>): int
    decreases |swipes|
  {
    if |swipes| == 0 then 0 else Sign(swipes[0]) + NetLeft(swipes[1..])
  }

  /** Taking the remainder before subtracting changes nothing modulo the divisor. */
  lemma ModThenSubtract(a: int, b: int, n: int)
    requires 1 <= n
    ensures (a % n - b) % n == (a - b) % n
  {
    var q := a / n;
    assert a == q * n + a % n;
    var x := a % n - b;
    var y := a - b;
    assert y == x + q * n;
    var r := x % n;
    assert x == (x / n) * n + r;
    assert y == (x / n + q) * n + r;
    ModUnique(y, x / n + q, r, n);
  }

  lemma ModUnique(x: int, q: int, r: int, n: int)
    requires 1 <= n && 0 <= r < n
    requires x == q * n + r
    ensures x % n == r
  {
    var q' := x / n;
    var r' := x % n;
    assert (q - q') * n == r' - r;
    MulSign(q - q', n);
  }

  lemma MulSign(d: int, n: int)
    requires 1 <= n
    ensures 1 <= d ==> n <= d * n
    ensures d <= -1 ==> d * n <= -n
  {
  }

  /** Any run of swipes lands where its net movement says, modulo the number of screens. */
  lemma {:induction false} SwipesNet(count: int, active: int, swipes: seq<real>)
    requires 1 <= count && 0 <= active < count
    ensures Swipes(count, active, swipes) == (active - NetLeft(swipes)) % count
    decreases |swipes|
  {
    if |swipes| > 0 {
      var s := Sign(swipes[0]);
      var rest := NetLeft(swipes[1..]);
      assert NetLeft(swipes) == s + rest;
      SwipesNet(count, OnGestureEnd(count, active, swipes[0]), swipes[1..]);
      ModThenSubtract(active - s, rest, count);
      assert active - s - rest == active - NetLeft(swipes);
    }
  }

  /** Whatever the swipes, the active index always names one of the screens. */
  lemma {:induction false} SwipesStayInRange(count: int, active: int, swipes: seq<real>)
    requires 1 <= count && 0 <= active < count
    ensures 0 <= Swipes(count, active, swipes) < count
    decreases |swipes|
  {
    if |swipes| > 0 {
      SwipesStayInRange(count, OnGestureEnd(count, active, swipes[0]), swipes[1..]);
    }
  }

  /** `React.Children.toArray(children)[activeIndex]`: the child on show, if the index names one. */
  function ActiveChild<T>(children: seq<T>, activeIndex: int): (c: Option<T>)
    ensures c.Some? <==> 0 <= activeIndex < |children|
    ensures c.Some? ==> c.value == children[activeIndex]
  {
    if 0 <= activeIndex < |children| then Some(children[activeIndex]) else None
  }

  /**
   Starting from the first child, some child is on show after any run of
   swipes, as long as the count the steps wrap around is at least one and
   no larger than the child array. `React.Children.count` also counts empty
   children (`null`, booleans) that `toArray` drops, so the count can
   exceed the array's length; `EmptyChildBlanksScreen` shows what then goes
   wrong.
   */
  lemma AlwaysShowsAChild<T>(children: seq<T>, count: int, swipes: seq<real>)
    requires 1 <= count
    ensures count <= |children| ==> ActiveChild(children, Swipes(count, 0, swipes)).Some?
  {
    SwipesStayInRange(count, 0, swipes);
  }

  /**
   One real child next to an empty one (`<A/>{false}`): the count is 2 but
   the array holds one child, and a single leftward swipe moves to index 1,
   where nothing is shown.
   */
  lemma EmptyChildBlanksScreen()
    ensures Swipes(2, 0, [-1.0]) == 1
    ensures ActiveChild([0], Swipes(2, 0, [-1.0])).None?
  {
    assert [-1.0][1..] == [];
  }
}
