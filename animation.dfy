/** The animation loop of the lumen example application: each tick fills the global pixel
    buffer with a rainbow spread over the strip, hands it to the strip, and advances the phase. */
module Animation {
  import opened Wheel

  /** The phase counter wraps at 256 * 5. */
  const PhaseBound: int := 256 * 5

  /** The hue offset of pixel `i` on a strip of `n` pixels: `i * 256 / n` (C integer division
      of nonnegative operands, which agrees with Dafny's). */
  function Offset(i: int, n: int): (o: int)
    requires 0 <= i < n
    ensures 0 <= o < 256
  {
    OffsetBelow(i, n);
    i * 256 / n
  }

  /** The wheel position of pixel `i` at phase `j`: `((i * 256 / n) + j) & 255`. On a two's
      complement `int`, `& 255` keeps the value modulo 256, as Dafny's `%` does. */
  function WheelIndex(i: int, n: int, j: int): Byte
    requires 0 <= i < n
  {
    (Offset(i, n) + j) % 256
  }

  /** The buffer contents the fill loop produces at phase `j` on a strip of `n` pixels. */
  function Frame(n: nat, j: int): seq<Rgb>
  {
    seq(n, i requires 0 <= i < n => ColorWheel(WheelIndex(i, n, j)))
  }

  /** The phase update at the end of a tick: `if (++j >= 256 * 5) j = 0;`. */
  function NextPhase(j: int): (r: int)
    ensures 0 <= j < PhaseBound ==> 0 <= r < PhaseBound && r == (j + 1) % PhaseBound
  {
    if j + 1 >= PhaseBound then 0 else j + 1
  }

  /** The phase after `k` ticks starting from phase `j0`. */
  function PhaseAfter(j0: int, k: nat): int
  {
    if k == 0 then j0 else NextPhase(PhaseAfter(j0, k - 1))
  }

  lemma OffsetBelow(i: int, n: int)
    requires 0 <= i < n
    ensures 0 <= i * 256 / n < 256
  {
  }

  /** The pixel offsets start at 0 and never decrease along the strip. */
  lemma OffsetMonotone(i: int, k: int, n: int)
    requires 0 <= i <= k < n
    ensures Offset(0, n) == 0
    ensures Offset(i, n) <= Offset(k, n)
  {
    assert i * 256 <= k * 256;
    DivMonotone(i * 256, k * 256, n);
  }

  lemma DivMonotone(a: int, b: int, n: int)
    requires 0 <= a <= b && 0 < n
    ensures 0 <= a / n <= b / n
  {
    var qa, qb := a / n, b / n;
    assert qa * n <= a;
    assert b < (qb + 1) * n;
    MulStrictCancel(qa, qb + 1, n);
  }

  lemma MulStrictCancel(x: int, y: int, n: int)
    requires 0 < n && x * n < y * n
    ensures x < y
  {
  }

  /** The frame depends on the phase only modulo 256. */
  lemma {:induction false} FrameDependsOnPhaseMod256(n: nat, j1: int, j2: int)
    requires j1 % 256 == j2 % 256
    ensures Frame(n, j1) == Frame(n, j2)
  {
    forall i | 0 <= i < n
      ensures Frame(n, j1)[i] == Frame(n, j2)[i]
    {
      ModAddCongruent(Offset(i, n), j1, j2);
    }
  }

  lemma ModAddCongruent(o: int, a: int, b: int)
    requires a % 256 == b % 256
    ensures (o + a) % 256 == (o + b) % 256
  {
  }

  /** Phases `j` and `j + 256` produce identical frames. */
  lemma FramePhasePeriod(n: nat, j: int)
    ensures Frame(n, j) == Frame(n, j + 256)
  {
    FrameDependsOnPhaseMod256(n, j, j + 256);
  }

  /** After `k` ticks from a phase in range, the phase is the start plus `k`, modulo 256 * 5. */
  lemma {:induction false} PhaseAfterIsModularSum(j0: int, k: nat)
    requires 0 <= j0 < PhaseBound
    ensures 0 <= PhaseAfter(j0, k) < PhaseBound
    ensures PhaseAfter(j0, k) == (j0 + k) % PhaseBound
  {
    if k > 0 {
      PhaseAfterIsModularSum(j0, k - 1);
      ModIncrement(j0 + k - 1);
    }
  }

  /** Running `a` ticks and then `b` more is running `a + b` ticks. */
  lemma {:induction false} PhaseAfterCompose(j0: int, a: nat, b: nat)
    ensures PhaseAfter(PhaseAfter(j0, a), b) == PhaseAfter(j0, a + b)
  {
    if b > 0 {
      PhaseAfterCompose(j0, a, b - 1);
    }
  }

  lemma ModIncrement(x: int)
    requires 0 <= x
    ensures (x % PhaseBound + 1) % PhaseBound == (x + 1) % PhaseBound
  {
  }

  /** Counted from the start of `main` (phase 0), the animation repeats every 256 ticks:
      the frame filled on tick `k` equals the one filled on tick `k + 256`, although the
      phase counter itself only returns to its value after 256 * 5 ticks. */
  lemma {:induction false} FrameTickPeriod(n: nat, k: nat)
    ensures Frame(n, PhaseAfter(0, k)) == Frame(n, PhaseAfter(0, k + 256))
    ensures PhaseAfter(0, k) == PhaseAfter(0, k + PhaseBound)
  {
    PhaseAfterIsModularSum(0, k);
    PhaseAfterIsModularSum(0, k + 256);
    PhaseAfterIsModularSum(0, k + PhaseBound);
    ModOfMod(k);
    ModOfMod(k + 256);
    ModAddCongruent(k, 0, 256);
    FrameDependsOnPhaseMod256(n, PhaseAfter(0, k), PhaseAfter(0, k + 256));
    ModAddCongruentBound(k);
  }

  lemma ModOfMod(x: int)
    requires 0 <= x
    ensures (x % PhaseBound) % 256 == x % 256
  {
  }

  lemma ModAddCongruentBound(k: int)
    requires 0 <= k
    ensures (k + PhaseBound) % PhaseBound == k % PhaseBound
  {
  }

  /** Every pixel of every frame shows a wheel colour: channels summing to 255, one of them dark. */
  lemma FramePixelsOnWheel(n: nat, j: int, i: int)
    requires 0 <= i < n
    ensures Frame(n, j)[i].r + Frame(n, j)[i].g + Frame(n, j)[i].b == 255
    ensures Frame(n, j)[i].r == 0 || Frame(n, j)[i].g == 0 || Frame(n, j)[i].b == 0
  {
    ColorWheelChannelSum(WheelIndex(i, n, j));
  }

  /** The application state `main` works on: the global buffer `pixels` and the counter `j`. */
  class LedStrip {
    /** `pixels[STRIP_NUM_PIXELS]`; the buffer itself is never replaced, only its entries. */
    const pixels: array<Rgb>
    /** The phase counter `j` of `main`. */
    var j: int

    ghost predicate Valid()
      reads this
    {
      0 <= j < PhaseBound
    }

    /** The zero-initialised global buffer and `j = 0`, as `main` starts. */
    constructor (n: nat)
      ensures Valid() && fresh(pixels)
      ensures pixels[..] == seq(n, _ => Rgb(0, 0, 0))
      ensures j == 0
    {
      pixels := new Rgb[n](_ => Rgb(0, 0, 0));
      j := 0;
    }

    /** The `for` loop of a tick: pixel `i` gets the wheel colour of its position at phase `j`.
        Only the buffer's entries change; `j` does not. */
    method FillFrame()
      modifies pixels
      ensures pixels[..] == Frame(pixels.Length, j)
    {
      var i := 0;
      while i < pixels.Length
        invariant 0 <= i <= pixels.Length
        invariant forall k :: 0 <= k < i ==> pixels[k] == ColorWheel(WheelIndex(k, pixels.Length, j))
      {
        pixels[i] := ColorWheel(WheelIndex(i, pixels.Length, j));
        i := i + 1;
      }
    }

    /** One pass of the `while (1)` body. The strip update is outside the model: its return
        code `sinkResult` only decides whether an error line is printed (the result), and the
        frame is filled and the phase advanced whatever it was. */
    method Tick(sinkResult: int) returns (reportedError: bool)
      requires Valid()
      modifies this, pixels
      ensures Valid()
      ensures pixels[..] == Frame(pixels.Length, old(j))
      ensures j == NextPhase(old(j))
      ensures reportedError <==> sinkResult < 0
    {
      FillFrame();
      reportedError := sinkResult < 0;
      j := j + 1;
      if j >= PhaseBound {
        j := 0;
      }
    }

    /** The `while (1)` loop over as many ticks as `sinkResults` has entries, tick `t` seeing
        the strip update return `sinkResults[t]`. A failed update never stops the animation. */
    method Run(sinkResults: seq<int>) returns (reported: seq<bool>)
      requires Valid()
      modifies this, pixels
      ensures Valid()
      ensures j == PhaseAfter(old(j), |sinkResults|)
      ensures |sinkResults| == 0 ==> pixels[..] == old(pixels[..])
      ensures |sinkResults| > 0 ==> pixels[..] == Frame(pixels.Length, PhaseAfter(old(j), |sinkResults| - 1))
      ensures |reported| == |sinkResults|
      ensures forall t :: 0 <= t < |sinkResults| ==> (reported[t] <==> sinkResults[t] < 0)
    {
      var t := 0;
      reported := [];
      while t < |sinkResults|
        invariant 0 <= t <= |sinkResults|
        invariant Valid()
        invariant j == PhaseAfter(old(j), t)
        invariant t == 0 ==> pixels[..] == old(pixels[..])
        invariant t > 0 ==> pixels[..] == Frame(pixels.Length, PhaseAfter(old(j), t - 1))
        invariant |reported| == t
        invariant forall s :: 0 <= s < t ==> (reported[s] <==> sinkResults[s] < 0)
      {
        var e := Tick(sinkResults[t]);
        reported := reported + [e];
        t := t + 1;
      }
    }
  }

  /** `main` on a strip of `n` pixels: when the strip device is not ready it returns before
      the loop; otherwise it runs one tick per entry of `sinkResults` from phase 0. */
  method Start(n: nat, stripReady: bool, sinkResults: seq<int>) returns (strip: LedStrip, reported: seq<bool>)
    ensures fresh(strip.pixels) && strip.pixels.Length == n && strip.Valid()
    ensures !stripReady ==> strip.j == 0 && strip.pixels[..] == seq(n, _ => Rgb(0, 0, 0)) && reported == []
    ensures stripReady ==> strip.j == |sinkResults| % PhaseBound
    ensures stripReady && |sinkResults| == 0 ==> strip.pixels[..] == seq(n, _ => Rgb(0, 0, 0))
    ensures stripReady && |sinkResults| > 0 ==>
      strip.pixels[..] == Frame(n, (|sinkResults| - 1) % PhaseBound)
    ensures stripReady ==> |reported| == |sinkResults|
    ensures stripReady ==> forall t :: 0 <= t < |sinkResults| ==> (reported[t] <==> sinkResults[t] < 0)
  {
    strip := new LedStrip(n);
    reported := [];
    if stripReady {
      reported := strip.Run(sinkResults);
      PhaseAfterIsModularSum(0, |sinkResults|);
      if |sinkResults| > 0 {
        PhaseAfterIsModularSum(0, |sinkResults| - 1);
      }
    }
  }
}
