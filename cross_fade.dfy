/** The colour cycle of the sketch's loop(): a three-channel colour that starts
    as pure blue and is cross-faded blue > green > red > blue, one unit per
    step, 255 steps per pass.  This module holds the specification: the values
    the sketch's variables take, the step it performs, the frames it writes and
    the waits it inserts, and the lemmas about them. */
module CrossFade {

  /** Delay between colour changes, in milliseconds (SPEED). */
  const Speed: nat := 35

  /** The sketch keeps its colour in `unsigned int`, 16 bits wide on the AVR
      boards it drives; arithmetic on it wraps modulo 2^16. */
  const UintModulus: int := 0x1_0000
  const UintMax: int := UintModulus - 1

  type Uint = x: int | 0 <= x < UintModulus

  /** Channel indices of rgbColor, in the order setColorRgb takes them. */
  type Channel = k: int | 0 <= k < 3
  const RedChannel: Channel := 0
  const GreenChannel: Channel := 1
  const BlueChannel: Channel := 2

  /** The contents of rgbColor: red, green and blue. */
  type Colour = c: seq<Uint> | |c| == 3 witness [0, 0, 0]

  /** Steps in one cross-fade pass, and passes in one cycle. */
  const PassLength: nat := 255
  const CycleLength: nat := 3 * PassLength

  /** Unsigned `unsigned int` arithmetic: the result of `x -= 1` / `x += 1`. */
  function Wrap(x: int): (r: Uint)
    ensures 0 <= x < UintModulus ==> r == x
    ensures x == -1 ==> r == UintMax
    ensures x == UintModulus ==> r == 0
  {
    x % UintModulus
  }

  /** The channel that grows while channel `dec` fades: the previous one,
      cyclically. */
  function IncColour(dec: Channel): (inc: Channel)
    ensures inc != dec
    ensures inc == (dec + 2) % 3
  {
    if dec == 0 then 2 else dec - 1
  }

  /** The one channel a pass over `dec` leaves alone. */
  function Untouched(dec: Channel): (k: Channel)
    ensures k != dec && k != IncColour(dec)
    ensures k == (dec + 1) % 3
  {
    if dec == 2 then 0 else dec + 1
  }

  function Sum(c: Colour): (s: int)
  {
    c[0] as int + c[1] as int + c[2] as int
  }

  /** Full intensity on channel `k`, nothing on the others. */
  function Primary(k: Channel): (c: Colour)
  {
    [0, 0, 0][k := 255]
  }

  const Red: Colour := Primary(RedChannel)
  const Green: Colour := Primary(GreenChannel)
  const Blue: Colour := Primary(BlueChannel)

  /** A colour on the fade circle: every channel at most 255, total 255. */
  predicate Balanced(c: Colour)
  {
    c[0] <= 255 && c[1] <= 255 && c[2] <= 255 && Sum(c) == 255
  }

  /** Some channel is at full intensity: the test that adds the extra delay.
      On the fade circle it picks out exactly the solid colours. */
  predicate Saturated(c: Colour)
    ensures Balanced(c) ==> (Saturated(c) <==> c == Red || c == Green || c == Blue)
  {
    c[0] == 255 || c[1] == 255 || c[2] == 255
  }

  /** One step of the pass over `dec`, in unsigned arithmetic:
      `rgbColor[decColour] -= 1; rgbColor[incColour] += 1;`. */
  function Step(c: Colour, dec: Channel): (r: Colour)
    ensures r[Untouched(dec)] == c[Untouched(dec)]
    ensures 1 <= c[dec] && c[IncColour(dec)] < UintMax ==> Sum(r) == Sum(c)
    ensures c[dec] == 0 ==> r[dec] == UintMax
  {
    var inc := IncColour(dec);
    c[dec := Wrap(c[dec] as int - 1)][inc := Wrap(c[inc] as int + 1)]
  }

  /** The wait before a step taken from colour `c`: SPEED, and twice SPEED more
      when some channel is saturated. */
  function StepDelay(c: Colour): (d: nat)
    ensures d == Speed || d == 3 * Speed
    ensures d == 3 * Speed <==> Saturated(c)
    ensures Balanced(c) ==> (d == 3 * Speed <==> c == Red || c == Green || c == Blue)
  {
    Speed + if Saturated(c) then 2 * Speed else 0
  }

  /** The colour after `i` steps of the pass over `dec`, started from the
      primary `dec`: `dec` is down by i, its successor up by i. */
  function Fading(dec: Channel, i: nat): (c: Colour)
    requires i <= PassLength
    ensures Balanced(c)
    ensures c[Untouched(dec)] == 0
  {
    Primary(dec)[dec := 255 - i][IncColour(dec) := i]
  }

  /** What one pass writes to the output: the colour after each step. */
  function PassFrames(dec: Channel): (fs: seq<Colour>)
    ensures |fs| == PassLength
  {
    seq(PassLength, i requires 0 <= i < PassLength => Fading(dec, i + 1))
  }

  /** The wait before each step of one pass. */
  function PassWaits(dec: Channel): (ws: seq<nat>)
    ensures |ws| == PassLength
  {
    seq(PassLength, i requires 0 <= i < PassLength => StepDelay(Fading(dec, i)))
  }

  /** The frames of the passes that precede the pass over `dec` in a cycle:
      passes run over channel 2, then 1, then 0. */
  function FramesBefore(dec: int): (fs: seq<Colour>)
    requires -1 <= dec <= 2
    decreases 2 - dec
  {
    if dec == 2 then [] else FramesBefore(dec + 1) + PassFrames(dec + 1)
  }

  function WaitsBefore(dec: int): (ws: seq<nat>)
    requires -1 <= dec <= 2
    decreases 2 - dec
  {
    if dec == 2 then [] else WaitsBefore(dec + 1) + PassWaits(dec + 1)
  }

  /** One cycle: the body of the sketch's `while(1)`. */
  function CycleFrames(): (fs: seq<Colour>)
  {
    FramesBefore(-1)
  }

  function CycleWaits(): (ws: seq<nat>)
  {
    WaitsBefore(-1)
  }

  /** `s` written `n` times one after the other. */
  function Repeat<T>(s: seq<T>, n: nat): (r: seq<T>)
  {
    if n == 0 then [] else Repeat(s, n - 1) + s
  }

  /** The sum of a sequence of waits. */
  function Total(ws: seq<nat>): (t: nat)
  {
    if ws == [] then 0 else ws[0] + Total(ws[1..])
  }

  // ---------------------------------------------------------------------------
  // Lemmas about a single step

  /** On a balanced colour whose fading channel is not empty, a step neither
      wraps nor leaves the fade circle: the fading channel loses one, the
      growing one gains one, the third is untouched and the sum is kept. */
  lemma StepPreservesBalance(c: Colour, dec: Channel)
    requires Balanced(c) && c[dec] >= 1
    ensures Step(c, dec)[dec] == c[dec] - 1
    ensures Step(c, dec)[IncColour(dec)] == c[IncColour(dec)] + 1
    ensures Step(c, dec)[Untouched(dec)] == c[Untouched(dec)]
    ensures Sum(Step(c, dec)) == Sum(c)
    ensures Balanced(Step(c, dec))
  {
  }

  /** A step taken when the fading channel is already empty wraps it round to
      the largest unsigned value: the reason a pass must stop after 255 steps. */
  lemma StepFromEmptyWraps(c: Colour, dec: Channel)
    requires c[dec] == 0
    ensures !Balanced(Step(c, dec))
  {
  }

  /** The closed form follows the step: one step of the pass takes the colour
      after `i` steps to the colour after `i + 1`. */
  lemma StepFading(dec: Channel, i: nat)
    requires i < PassLength
    ensures Fading(dec, i)[dec] >= 1
    ensures Step(Fading(dec, i), dec) == Fading(dec, i + 1)
  {
  }

  /** Ends of a pass: it starts on the primary `dec` and finishes on the
      primary of the channel that grew. */
  lemma PassEndpoints(dec: Channel)
    ensures Fading(dec, 0) == Primary(dec)
    ensures Fading(dec, PassLength) == Primary(IncColour(dec))
  {
  }

  /** The passes chain up blue > green > red > blue: each ends where the next
      one (decColour one lower, then back to 2) starts. */
  lemma PassOrder()
    ensures Fading(BlueChannel, 0) == Blue && Fading(BlueChannel, PassLength) == Green
    ensures Fading(GreenChannel, 0) == Green && Fading(GreenChannel, PassLength) == Red
    ensures Fading(RedChannel, 0) == Red && Fading(RedChannel, PassLength) == Blue
  {
  }

  /** Pacing within a pass: the extra delay comes before the first step only. */
  lemma StepDelayInPass(dec: Channel, i: nat)
    requires i < PassLength
    ensures StepDelay(Fading(dec, i)) == if i == 0 then 3 * Speed else Speed
  {
  }

  // ---------------------------------------------------------------------------
  // Lemmas about a pass and a cycle

  /** A colour is the one after `i` steps of the pass over `dec` as soon as
      its three channels are. */
  lemma FadingByChannels(dec: Channel, i: nat, c: Colour)
    requires i <= PassLength
    requires c[dec] == 255 - i && c[IncColour(dec)] == i && c[Untouched(dec)] == 0
    ensures c == Fading(dec, i)
  {
    forall k: Channel
      ensures c[k] == Fading(dec, i)[k]
    {
      assert k == dec || k == IncColour(dec) || k == Untouched(dec);
    }
  }

  /** The frames of a pass written so far grow by the colour after the next
      step. */
  lemma PassFramesPrefix(dec: Channel, i: nat)
    requires i < PassLength
    ensures PassFrames(dec)[..i + 1] == PassFrames(dec)[..i] + [Fading(dec, i + 1)]
  {
  }

  /** The waits of a pass recorded so far grow by the wait before the next
      step. */
  lemma PassWaitsPrefix(dec: Channel, i: nat)
    requires i < PassLength
    ensures PassWaits(dec)[..i + 1] == PassWaits(dec)[..i] + [StepDelay(Fading(dec, i))]
  {
  }

  /** Every frame written during a pass is on the fade circle, has the third
      channel at zero, and the last one is the next primary. */
  lemma PassFramesShape(dec: Channel)
    ensures forall n :: 0 <= n < PassLength ==>
      Balanced(PassFrames(dec)[n]) && PassFrames(dec)[n][Untouched(dec)] == 0
    ensures PassFrames(dec)[PassLength - 1] == Primary(IncColour(dec))
  {
  }

  /** The waits of a pass: three times SPEED first, then SPEED. */
  lemma PassWaitsShape(dec: Channel)
    ensures PassWaits(dec)[0] == 3 * Speed
    ensures forall n :: 0 < n < PassLength ==> PassWaits(dec)[n] == Speed
  {
  }

  lemma {:induction false} TotalAppend(a: seq<nat>, b: seq<nat>)
    ensures Total(a + b) == Total(a) + Total(b)
  {
    if a == [] {
      assert a + b == b;
    } else {
      assert (a + b)[1..] == a[1..] + b;
      TotalAppend(a[1..], b);
    }
  }

  lemma {:induction false} TotalConstant(ws: seq<nat>, v: nat)
    requires forall n :: 0 <= n < |ws| ==> ws[n] == v
    ensures Total(ws) == |ws| * v
  {
    if ws != [] {
      TotalConstant(ws[1..], v);
      assert Total(ws) == v + (|ws| - 1) * v;
    }
  }

  /** One pass waits 257 times SPEED in all. */
  lemma PassDuration(dec: Channel)
    ensures Total(PassWaits(dec)) == (PassLength + 2) * Speed
  {
    var ws := PassWaits(dec);
    PassWaitsShape(dec);
    TotalConstant(ws[1..], Speed);
    assert Total(ws) == 3 * Speed + Total(ws[1..]);
  }

  /** A cycle is the passes over blue, green and red, one after the other:
      765 frames and 765 waits. */
  lemma CycleLengths()
    ensures CycleFrames() == PassFrames(BlueChannel) + PassFrames(GreenChannel) + PassFrames(RedChannel)
    ensures CycleWaits() == PassWaits(BlueChannel) + PassWaits(GreenChannel) + PassWaits(RedChannel)
    ensures |CycleFrames()| == CycleLength && |CycleWaits()| == CycleLength
  {
    assert FramesBefore(1) == PassFrames(2);
    assert FramesBefore(0) == PassFrames(2) + PassFrames(1);
    assert WaitsBefore(1) == PassWaits(2);
    assert WaitsBefore(0) == PassWaits(2) + PassWaits(1);
  }

  /** Every frame of a sequence is on the fade circle. */
  predicate AllBalanced(fs: seq<Colour>)
  {
    forall n :: 0 <= n < |fs| ==> Balanced(fs[n])
  }

  lemma AllBalancedAppend(a: seq<Colour>, b: seq<Colour>)
    requires AllBalanced(a) && AllBalanced(b)
    ensures AllBalanced(a + b)
  {
    forall n | 0 <= n < |a + b|
      ensures Balanced((a + b)[n])
    {
      if n >= |a| {
        assert (a + b)[n] == b[n - |a|];
      }
    }
  }

  /** Shape of a cycle: the pass boundaries are green, red and finally blue
      again, and every frame is on the fade circle. */
  lemma CycleShape()
    ensures CycleFrames()[PassLength - 1] == Green
    ensures CycleFrames()[2 * PassLength - 1] == Red
    ensures CycleFrames()[CycleLength - 1] == Blue
    ensures AllBalanced(CycleFrames())
  {
    CycleLengths();
    var p2, p1, p0 := PassFrames(2), PassFrames(1), PassFrames(0);
    PassFramesShape(2);
    PassFramesShape(1);
    PassFramesShape(0);
    assert CycleFrames()[PassLength - 1] == p2[PassLength - 1];
    assert CycleFrames()[2 * PassLength - 1] == p1[PassLength - 1];
    assert CycleFrames()[CycleLength - 1] == p0[PassLength - 1];
    AllBalancedAppend(p2, p1);
    AllBalancedAppend(p2 + p1, p0);
  }

  /** A cycle lasts 3 * 257 * SPEED milliseconds of waiting (26985 ms). */
  lemma CycleDuration()
    ensures Total(CycleWaits()) == 3 * (PassLength + 2) * Speed
  {
    CycleLengths();
    TotalAppend(PassWaits(2) + PassWaits(1), PassWaits(0));
    TotalAppend(PassWaits(2), PassWaits(1));
    PassDuration(2);
    PassDuration(1);
    PassDuration(0);
  }

  /** Repeating a sequence of one cycle's length gives a sequence with that
      period. */
  lemma {:induction false} RepeatAt<T>(s: seq<T>, n: nat)
    requires |s| == CycleLength
    ensures |Repeat(s, n)| == n * CycleLength
    ensures forall k :: 0 <= k < |Repeat(s, n)| ==> Repeat(s, n)[k] == s[k % CycleLength]
  {
    if n > 0 {
      RepeatAt(s, n - 1);
      var prev := Repeat(s, n - 1);
      forall k | 0 <= k < |Repeat(s, n)|
        ensures Repeat(s, n)[k] == s[k % CycleLength]
      {
        if k >= |prev| {
          ModuloShift(k - |prev|, n - 1);
        }
      }
    }
  }

  /** Position j of the (m + 1)-th cycle is position j of the cycle. */
  lemma ModuloShift(j: nat, m: nat)
    requires j < CycleLength
    ensures (m * CycleLength + j) % CycleLength == j
  {
  }
}
