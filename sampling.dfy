/**
 The per-frame sampling rule: the frame counter goes up by one for every
 frame read, the frame is saved for inspection when the counter is a
 multiple of `save_frames_every`, and detection runs only when it is a
 multiple of `detection_skip_frames`.
 */
module Sampling {

  /** Defaults used when the configuration file leaves a setting out. */
  const DEFAULT_DETECTION_SKIP := 5
  const DEFAULT_SAVE_FRAMES_EVERY := 30

  /** Python's `//`: the quotient rounded towards minus infinity. */
  function PyDiv(a: int, b: int): int
    requires b != 0
  {
    if b < 0 && a % b != 0 then a / b - 1 else a / b
  }

  /**
   Python's `%`, the remainder of `PyDiv`: it takes the sign of the divisor
   (Dafny's own `%` is Euclidean and never negative).
   */
  function PyMod(a: int, b: int): (r: int)
    requires b != 0
    ensures b > 0 ==> 0 <= r < b
    ensures b < 0 ==> b < r <= 0
    ensures a == b * PyDiv(a, b) + r
  {
    var e := a % b;
    if b < 0 && e != 0 then
      assert b * (a / b - 1) == b * (a / b) - b;
      e + b
    else
      e
  }

  /** What the loop does with one frame once the counter has been advanced. */
  datatype FramePlan =
    | Run(save: bool, detect: bool)
      /** A zero setting makes Python raise ZeroDivisionError, which nothing catches;
          `saved` says whether the inspection frame was written before it. */
    | ZeroDivision(saved: bool)

  /**
   The decision for frame number `frame`: save the inspection frame first,
   then skip the frame unless detection is due. Either test divides by its
   setting and fails on zero.
   */
  function Plan(frame: int, saveEvery: int, skip: int): (p: FramePlan)
    ensures p.ZeroDivision? <==> saveEvery == 0 || skip == 0
    ensures p.Run? ==> (p.save <==> frame % saveEvery == 0) && (p.detect <==> frame % skip == 0)
    ensures p.ZeroDivision? ==> (p.saved <==> saveEvery != 0 && frame % saveEvery == 0)
  {
    if saveEvery == 0 then ZeroDivision(false)
    else
      var save := PyMod(frame, saveEvery) == 0;
      if skip == 0 then ZeroDivision(save)
      else Run(save, PyMod(frame, skip) == 0)
  }

  /** Python's remainder is zero exactly when Dafny's is: only divisibility decides sampling. */
  lemma PyModZero(a: int, b: int)
    requires b != 0
    ensures PyMod(a, b) == 0 <==> a % b == 0
  {
  }

  /** With the default settings, frame 30 is both saved and searched for faces, frame 5 only searched. */
  lemma DefaultSampling()
    ensures Plan(30, DEFAULT_SAVE_FRAMES_EVERY, DEFAULT_DETECTION_SKIP) == Run(true, true)
    ensures Plan(5, DEFAULT_SAVE_FRAMES_EVERY, DEFAULT_DETECTION_SKIP) == Run(false, true)
    ensures Plan(7, DEFAULT_SAVE_FRAMES_EVERY, DEFAULT_DETECTION_SKIP) == Run(false, false)
  {
  }

  /** Detection comes round every `skip` frames: frame f + skip is searched exactly when frame f is. */
  lemma DetectionPeriod(frame: int, saveEvery: int, skip: int)
    requires saveEvery != 0 && skip != 0
    ensures Plan(frame + skip, saveEvery, skip).detect == Plan(frame, saveEvery, skip).detect
  {
    PyModZero(frame, skip);
    PyModZero(frame + skip, skip);
    ModShift(frame, skip);
  }

  /** Adding the divisor does not change the remainder. */
  lemma ModShift(a: int, b: int)
    requires b != 0
    ensures (a + b) % b == a % b
  {
    var q, r := a / b, a % b;
    var q', r' := (a + b) / b, (a + b) % b;
    assert b * (q + 1 - q') == r' - r by {
      assert b * (q + 1 - q') == b * q + b - b * q';
    }
    SmallMultiple(b, q + 1 - q', r' - r);
  }

  /** The only multiple of `b` strictly between -|b| and |b| is zero. */
  lemma SmallMultiple(b: int, d: int, e: int)
    requires b != 0 && b * d == e
    requires -b < e < b || b < e < -b
    ensures d == 0
  {
    assert b * (d - 1) == e - b;
    assert b * (-d - 1) == -e - b;
    MulSign(b, d - 1);
    MulSign(b, -d - 1);
    MulSign(-b, d - 1);
    MulSign(-b, -d - 1);
  }

  lemma MulSign(x: int, y: int)
    ensures x >= 0 && y >= 0 ==> x * y >= 0
  {
  }
}
