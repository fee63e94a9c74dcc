/** Seconds to frames. The cut and split scripts take `int(t * fps)`, which
    truncates toward zero; `sec2frame` takes `int(round(sec * fps))`, which
    rounds to the nearest frame with ties to the even one. Both are modelled
    over exact reals. */
module Timing {

  /** Python's `int(x)` on a float: truncation toward zero. */
  function Trunc(x: real): (n: int)
    ensures 0.0 <= x ==> n as real <= x < n as real + 1.0
    ensures x < 0.0 ==> n as real - 1.0 < x <= n as real
  {
    if 0.0 <= x then x.Floor else -((-x).Floor)
  }

  /** Truncation is symmetric around zero, unlike `Floor`. */
  lemma TruncNegate(x: real)
    ensures Trunc(-x) == -Trunc(x)
  {
  }

  /** Python's `round(x)`: the nearest integer, ties to the even one. */
  function RoundHalfEven(x: real): (n: int)
    ensures x - 0.5 <= n as real <= x + 0.5
    ensures (n as real - x == 0.5 || x - n as real == 0.5) ==> n % 2 == 0
  {
    var f := x.Floor;
    var d := x - f as real;
    if d < 0.5 then f
    else if d > 0.5 then f + 1
    else if f % 2 == 0 then f else f + 1
  }

  function Abs(x: real): real {
    if x < 0.0 then -x else x
  }

  /** No integer is closer to `x` than `round(x)`. */
  lemma RoundIsNearest(x: real, m: int)
    ensures Abs(x - RoundHalfEven(x) as real) <= Abs(x - m as real)
  {
    var n := RoundHalfEven(x);
    if m < n {
      assert m as real <= n as real - 1.0;
    } else if m > n {
      assert m as real >= n as real + 1.0;
    }
  }

  /** `sec2frame(sec, fps)`. */
  function Sec2Frame(sec: real, fps: int): (n: int)
    ensures sec * fps as real - 0.5 <= n as real <= sec * fps as real + 0.5
  {
    RoundHalfEven(sec * fps as real)
  }

  /** `int(t * fps)`, the frame the split and cut scripts compute. */
  function FrameAt(t: real, fps: int): (n: int)
    ensures 0.0 <= t * fps as real ==> n as real <= t * fps as real < n as real + 1.0
    ensures t * fps as real < 0.0 ==> n as real - 1.0 < t * fps as real <= n as real
  {
    Trunc(t * fps as real)
  }

  /** `[int(t * fps) for t in times]`. */
  function FramesAt(times: seq<real>, fps: int): (r: seq<int>)
    ensures |r| == |times|
    ensures forall j :: 0 <= j < |times| ==> r[j] == FrameAt(times[j], fps)
  {
    if times == [] then [] else [FrameAt(times[0], fps)] + FramesAt(times[1..], fps)
  }
}
