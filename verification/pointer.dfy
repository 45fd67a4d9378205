/** Scrolling: pointer_axis and pointer_frame (src/pointer.c), and the click loop of
    on_pointer_event (src/main.c). Axis values are wl_fixed_t, so exact multiples of 1/256. */
module Pointer {

  /** STEP_SIZE, in units of 1/256 */
  const STEP: int := 15 * 256

  /** trunc(v / STEP_SIZE) */
  function Trunc(v: int): int {
    if v < 0 then -(-v / STEP) else v / STEP
  }

  /** What so many steps make up. */
  function Whole(steps: int): int {
    steps * STEP
  }

  /** What is left after taking out whole steps is less than a step, and points the same way. */
  lemma {:induction false} Remainder(v: int)
    ensures var rest := v - Whole(Trunc(v));
            -STEP < rest < STEP && (v >= 0 ==> rest >= 0) && (v <= 0 ==> rest <= 0)
  {
  }

  /** A click is 15 units; what is left is less than one, and points the same way. */
  predicate TakenOut(before: int, rest: int, clicks: int) {
    && before == rest + clicks * 15 * 256 && -15 * 256 < rest < 15 * 256
    && (before >= 0 ==> rest >= 0) && (before <= 0 ==> rest <= 0)
  }

  /** A pointer event's button mask: the pressed buttons, and the scroll directions as buttons. */
  datatype Mask = Mask(buttons: nat, up: bool, down: bool, left: bool, right: bool)

  function Plain(buttons: nat): Mask {
    Mask(buttons, false, false, false, false)
  }

  datatype Direction = Up | Down | Left | Right

  predicate Has(m: Mask, d: Direction) {
    match d
    case Up => m.up
    case Down => m.down
    case Left => m.left
    case Right => m.right
  }

  /** Clicks of a scroll button: each event with it is followed by one without. */
  function Clicks(sent: seq<Mask>, d: Direction): nat {
    if sent == [] then 0 else Clicks(sent[..|sent| - 1], d) + (if Has(sent[|sent| - 1], d) then 1 else 0)
  }

  function Positive(v: int): nat {
    if v > 0 then v else 0
  }

  /** Every press of a scroll button is released by the next event; other buttons stay as they are. */
  ghost predicate Alternates(sent: seq<Mask>, buttons: nat) {
    && |sent| % 2 == 0
    && (forall k :: 0 <= k < |sent| ==> sent[k].buttons == buttons)
    && forall k :: 0 <= k < |sent| && k % 2 == 1 ==> sent[k] == Plain(buttons)
  }

  lemma {:induction false} NoClicks()
    ensures forall d :: Clicks([], d) == 0
  {
  }

  lemma {:induction false} ClicksNext(sent: seq<Mask>, m: Mask, d: Direction)
    ensures Clicks(sent + [m], d) == Clicks(sent, d) + (if Has(m, d) then 1 else 0)
  {
    assert (sent + [m])[..|sent|] == sent;
  }

  /** One press and release. */
  lemma {:induction false} ClicksPair(sent: seq<Mask>, m: Mask, d: Direction)
    ensures Clicks(sent + [m, Plain(m.buttons)], d) == Clicks(sent, d) + (if Has(m, d) then 1 else 0)
  {
    ClicksNext(sent, m, d);
    ClicksNext(sent + [m], Plain(m.buttons), d);
    assert sent + [m] + [Plain(m.buttons)] == sent + [m, Plain(m.buttons)];
  }

  lemma {:induction false} ClicksAdd(a: seq<Mask>, b: seq<Mask>, d: Direction)
    ensures Clicks(a + b, d) == Clicks(a, d) + Clicks(b, d)
  {
    if b == [] {
      assert a + b == a;
    } else {
      ClicksAdd(a, b[..|b| - 1], d);
      assert (a + b)[..|a + b| - 1] == a + b[..|b| - 1];
    }
  }

  /** on_pointer_event: one event when nothing was scrolled, else as many clicks in each direction as
      there are steps; the loop ends after as many turns as the larger number of steps. */
  method OnPointerEvent(pressed: nat, verticalSteps: int, horizontalSteps: int) returns (sent: seq<Mask>)
    ensures verticalSteps == 0 == horizontalSteps ==> sent == [Plain(pressed)]
    ensures verticalSteps != 0 || horizontalSteps != 0 ==> Alternates(sent, pressed)
    ensures Clicks(sent, Up) == Positive(-verticalSteps) && Clicks(sent, Down) == Positive(verticalSteps)
    ensures Clicks(sent, Left) == Positive(-horizontalSteps) && Clicks(sent, Right) == Positive(horizontalSteps)
  {
    if verticalSteps == 0 && horizontalSteps == 0 {
      sent := [Plain(pressed)];
      return;
    }
    var v, h, mask := verticalSteps, horizontalSteps, Plain(pressed);
    if v < 0 {
      v, mask := -v, mask.(up := true);
    } else if v > 0 {
      mask := mask.(down := true);
    }
    if h < 0 {
      h, mask := -h, mask.(left := true);
    } else if h > 0 {
      mask := mask.(right := true);
    }
    sent := [];
    while h > 0 || v > 0
      invariant Alternates(sent, pressed) && mask.buttons == pressed
      invariant mask.up <==> verticalSteps < 0 && v > 0
      invariant mask.down <==> verticalSteps > 0 && v > 0
      invariant mask.left <==> horizontalSteps < 0 && h > 0
      invariant mask.right <==> horizontalSteps > 0 && h > 0
      invariant Positive(v) <= Positive(verticalSteps) + Positive(-verticalSteps)
      invariant Positive(h) <= Positive(horizontalSteps) + Positive(-horizontalSteps)
      invariant Clicks(sent, Up) == if verticalSteps < 0 then -verticalSteps - Positive(v) else 0
      invariant Clicks(sent, Down) == if verticalSteps > 0 then verticalSteps - Positive(v) else 0
      invariant Clicks(sent, Left) == if horizontalSteps < 0 then -horizontalSteps - Positive(h) else 0
      invariant Clicks(sent, Right) == if horizontalSteps > 0 then horizontalSteps - Positive(h) else 0
      decreases Positive(v) + Positive(h)
    {
      ClicksPair(sent, mask, Up);
      ClicksPair(sent, mask, Down);
      ClicksPair(sent, mask, Left);
      ClicksPair(sent, mask, Right);
      sent := sent + [mask, Plain(pressed)];
      v := v - 1;
      if v <= 0 {
        mask := mask.(up := false, down := false);
      }
      h := h - 1;
      if h <= 0 {
        mask := mask.(left := false, right := false);
      }
    }
  }

  /** The clicks forward less those back, in steps of STEP_SIZE, and the remainder make up the total. */
  ghost predicate Balanced(total: int, axis: int, log: seq<Mask>, forth: Direction, back: Direction) {
    total == Whole(Clicks(log, forth) - Clicks(log, back)) + axis
  }

  lemma {:induction false} Rebalanced(total: int, axis: int, log: seq<Mask>, sent: seq<Mask>, forth: Direction,
                                      back: Direction, steps: int)
    requires Balanced(total, axis, log, forth, back)
    requires Clicks(sent, forth) == Positive(steps) && Clicks(sent, back) == Positive(-steps)
    ensures Balanced(total, axis - Whole(steps), log + sent, forth, back)
  {
    ClicksAdd(log, sent, forth);
    ClicksAdd(log, sent, back);
  }

  /** One axis in a frame: its whole steps are taken out and sent as clicks. */
  lemma {:induction false} AxisTaken(total: int, axis: int, log: seq<Mask>, sent: seq<Mask>, forth: Direction,
                                     back: Direction)
    requires Balanced(total, axis, log, forth, back)
    requires Clicks(sent, forth) == Positive(Trunc(axis)) && Clicks(sent, back) == Positive(-Trunc(axis))
    ensures var rest := axis - Whole(Trunc(axis));
            && Balanced(total, rest, log + sent, forth, back) && -STEP < rest < STEP
            && TakenOut(axis, rest, Clicks(sent, forth) - Clicks(sent, back))
            && (Clicks(sent, forth) == 0 || Clicks(sent, back) == 0)
  {
    hide Trunc, Clicks, Balanced;
    Remainder(axis);
    Rebalanced(total, axis, log, sent, forth, back, Trunc(axis));
  }

  class ScrollState {
    var handling: bool
    var pressed: nat
    var verticalAxisValue: int
    var horizontalAxisValue: int
    var verticalScrollSteps: int
    var horizontalScrollSteps: int
    /** All axis values taken in, and all events sent. */
    ghost var verticalTotal: int
    ghost var horizontalTotal: int
    ghost var log: seq<Mask>

    /** Nothing scrolled is lost or repeated: the clicks sent, in steps of STEP_SIZE, and the
        remainder add up to the axis values. */
    ghost predicate Valid()
      reads this
    {
      && verticalScrollSteps == 0 == horizontalScrollSteps
      && Balanced(verticalTotal, verticalAxisValue, log, Down, Up)
      && Balanced(horizontalTotal, horizontalAxisValue, log, Right, Left)
    }

    constructor ()
      ensures Valid() && verticalTotal == 0 == horizontalTotal && log == []
    {
      handling, pressed := false, 0;
      verticalAxisValue, horizontalAxisValue := 0, 0;
      verticalScrollSteps, horizontalScrollSteps := 0, 0;
      verticalTotal, horizontalTotal, log := 0, 0, [];
    }

    /** pointer_axis; events while no surface handles them are dropped. */
    method Axis(vertical: bool, value: int)
      requires Valid()
      modifies this`verticalAxisValue, this`horizontalAxisValue, this`verticalTotal, this`horizontalTotal
      ensures Valid()
      ensures verticalTotal == old(verticalTotal) + (if handling && vertical then value else 0)
      ensures horizontalTotal == old(horizontalTotal) + (if handling && !vertical then value else 0)
    {
      if !handling {
        return;
      }
      if vertical {
        verticalAxisValue, verticalTotal := verticalAxisValue + value, verticalTotal + value;
      } else {
        horizontalAxisValue, horizontalTotal := horizontalAxisValue + value, horizontalTotal + value;
      }
    }

    /** pointer_frame. The totals stay; less than a step remains on either axis. */
    method Frame() returns (sent: seq<Mask>)
      requires Valid()
      modifies this`verticalAxisValue, this`horizontalAxisValue, this`verticalScrollSteps, this`horizontalScrollSteps,
               this`log
      ensures Valid() && log == old(log) + sent
      ensures !handling ==> sent == []
      ensures handling ==>
                && -STEP < verticalAxisValue < STEP && -STEP < horizontalAxisValue < STEP
                && (|sent| == 1 || Alternates(sent, pressed))
      ensures handling ==>
                TakenOut(old(verticalAxisValue), verticalAxisValue, Clicks(sent, Down) - Clicks(sent, Up))
      ensures handling ==>
                TakenOut(old(horizontalAxisValue), horizontalAxisValue, Clicks(sent, Right) - Clicks(sent, Left))
      ensures Clicks(sent, Up) == 0 || Clicks(sent, Down) == 0
      ensures Clicks(sent, Left) == 0 || Clicks(sent, Right) == 0
    {
      hide Trunc, Clicks, Balanced, TakenOut, Alternates, Positive, Whole;
      sent := [];
      if !handling {
        assert log == log + sent;
        NoClicks();
        return;
      }
      ghost var vertical0, horizontal0 := verticalAxisValue, horizontalAxisValue;
      var verticalSteps := Trunc(verticalAxisValue);
      verticalAxisValue := verticalAxisValue - Whole(verticalSteps);
      var horizontalSteps := Trunc(horizontalAxisValue);
      horizontalAxisValue := horizontalAxisValue - Whole(horizontalSteps);
      verticalScrollSteps := verticalScrollSteps + verticalSteps;
      horizontalScrollSteps := horizontalScrollSteps + horizontalSteps;
      sent := OnPointerEvent(pressed, verticalScrollSteps, horizontalScrollSteps);
      AxisTaken(verticalTotal, vertical0, log, sent, Down, Up);
      AxisTaken(horizontalTotal, horizontal0, log, sent, Right, Left);
      log := log + sent;
      verticalScrollSteps, horizontalScrollSteps := 0, 0;
    }
  }
}
