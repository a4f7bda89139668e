# RGB LED cross-fade sketch, modelled in Dafny

The sketch drives one RGB LED through PWM. Its `loop()` keeps the colour in a
three-element `unsigned int` array `rgbColor` (red, green, blue), starting at
pure blue `{0, 0, 255}`. It then repeats forever three cross-fade passes with
`decColour` = 2, 1, 0. In each pass, channel `incColour` (the previous channel,
cyclically) grows while channel `decColour` fades. A pass is 255 steps. Each
step waits `SPEED` (35 ms), plus `2 * SPEED` more when some channel is at 255.
It then moves one unit from `decColour` to `incColour` and writes the colour
with `setColorRgb`. The colour therefore fades blue > green > red > blue.

The project has two modules:

- `CrossFade` (`cross_fade.dfy`) is the specification. It holds the step
  `Step` in 16-bit unsigned arithmetic, the closed form `Fading(dec, i)` of the
  colour after `i` steps of a pass, the pacing rule `StepDelay`, and the frames
  and waits of a pass and of a cycle. Its lemmas state what the sketch
  guarantees: a step keeps the channel sum at 255 and never wraps, the third
  channel stays at zero, passes chain blue > green > red > blue, the extra
  delay falls only on the first step of a pass, and the waits of a cycle add
  up to 771 * SPEED ms.
- `Sketch` (`sketch.dfy`) is `loop()` as it runs. `FadePass` is the inner
  `for` loop over the array, `Cycle` is one iteration of `while(1)`, and `Loop`
  allocates `rgbColor` and runs a given number of cycles. Each method is proved
  against the functions of `CrossFade`.

`setColorRgb` is an output sink: each call appends the colour it is given to
the `frames` sequence a method returns. `delay()` is modelled by its amount:
the total wait before each step is appended to `waits`.

The sketch names no board. The model assumes an AVR target, where `unsigned
int` is 16 bits wide; the PWM pins 9, 10 and 11 it uses suggest one. `Wrap`
models that width, so `x -= 1` on 0 gives 65535. The width changes no result:
the lemmas show that no step of a pass ever wraps.

## Model

| member | source | states |
|---|---|---|
| CrossFade.Wrap | src/main.cpp:51-52 | unsigned `-= 1` / `+= 1` leave an in-range result unchanged, take 0 - 1 to 65535 and 65536 to 0 |
| CrossFade.IncColour | src/main.cpp:41 | the growing channel is a valid index, differs from `decColour`, and is `(decColour + 2) mod 3` |
| CrossFade.Untouched | src/main.cpp:51-52 | the channel a pass never writes is neither `decColour` nor `incColour`; it is `(decColour + 1) mod 3` |
| CrossFade.Saturated | src/main.cpp:45-47 | on a colour whose channels sum to 255, the test holds exactly when the colour is a solid colour: pure red, green or blue |
| CrossFade.Step | src/main.cpp:51-52 | one step in unsigned arithmetic leaves the third channel unchanged, keeps the channel sum when the fading channel is not empty and the growing one is below 65535, and wraps an empty fading channel to 65535 |
| CrossFade.StepDelay | src/main.cpp:45-49 | the wait before a step is SPEED or 3 * SPEED; on a colour whose channels sum to 255 it is 3 * SPEED exactly when the colour is pure red, green or blue |
| CrossFade.Fading | src/main.cpp:44-52 | after any number of steps (0 to 255) of a pass the channels sum to 255, each is at most 255, and the untouched channel is 0 |
| CrossFade.StepPreservesBalance | src/main.cpp:51-52 | a step from a colour with sum 255 and a non-empty fading channel takes one unit from `decColour` to `incColour` without wrap-around, leaves the third channel alone and keeps the sum at 255 |
| CrossFade.StepFromEmptyWraps | src/main.cpp:51 | a step from an empty fading channel would wrap it to 65535 and leave the fade circle, so the 255-step bound is what keeps the colour valid |
| CrossFade.StepFading | src/main.cpp:44-52 | before each of the 255 steps the fading channel is at least 1, and the step takes the colour after i steps to the colour after i + 1 |
| CrossFade.PassEndpoints | src/main.cpp:39-52 | a pass starts on the pure `decColour` primary and ends on the pure `incColour` primary |
| CrossFade.PassOrder | src/main.cpp:39-41 | the passes for `decColour` 2, 1, 0 go blue > green, green > red, red > blue, as the comment on line 39 says |
| CrossFade.StepDelayInPass | src/main.cpp:46-49 | within a pass the extra `2 * SPEED` delay falls on step 0 and on no other step |
| CrossFade.PassFramesShape | src/main.cpp:51-54 | every colour written during a pass has sum 255 and the untouched channel at 0, and the last one is the `incColour` primary |
| CrossFade.PassWaitsShape | src/main.cpp:44-49 | the waits of a pass are 3 * SPEED for the first step and SPEED for each of the other 254 |
| CrossFade.PassDuration | src/main.cpp:44-49 | the waits of one pass add up to 257 * SPEED ms |
| CrossFade.CycleLengths | src/main.cpp:40-54 | one `while(1)` iteration is the passes for `decColour` 2, 1, 0 in that order, 765 colours and 765 waits |
| CrossFade.CycleShape | src/main.cpp:40-54 | every colour a cycle writes has sum 255, and the colours at the ends of the passes are green, red, then blue again |
| CrossFade.CycleDuration | src/main.cpp:40-49 | the waits of one cycle add up to 771 * SPEED ms (26985 ms) |
| CrossFade.RepeatAt | src/main.cpp:38 | repeating a cycle's output gives a sequence whose n-th element is the cycle's (n mod 765)-th |
| Sketch.FadePass | src/main.cpp:44-61 | the in-place pass over `rgbColor` turns the `decColour` primary into the `incColour` primary, writes exactly the colour after each step, once per step, and waits as `StepDelay` says |
| Sketch.Cycle | src/main.cpp:40-62 | one `while(1)` iteration brings `rgbColor` from blue back to blue, writing the three passes' colours and waits in order |
| Sketch.Loop | src/main.cpp:33-64 | from `{0, 0, 255}`, each `while(1)` iteration writes the same 765 colours with the same waits, so the output is periodic with period 765 |

## Left out

- `setup()` (src/main.cpp:24-31): the serial port setup and the initial `setColorRgb(0, 0, 0)` are boilerplate outside `loop()`.
- `setColorRgb`'s `analogWrite` calls and the pin constants (src/main.cpp:11-21): hardware PWM output. The sink is a recorded frame.
- `Serial.print` and `Serial.println` (src/main.cpp:55-60): debug logging with no effect on the colour.
- `delay()` (src/main.cpp:46-48): only the waiting time is modelled. The two `delay` calls before a step are recorded as one total.
- Sketch.Loop: runs a given number of iterations of the `while(1)` (src/main.cpp:38), which in the sketch never ends; periodicity is proved for every finite number of cycles.
