/** The sketch's loop(), written as it runs: the colour lives in a
    three-element array updated in place, the output sink setColorRgb is a
    frame appended to `frames`, and each step's delay() amount is appended to
    `waits`.  Every method is proved against the specification in CrossFade. */
module Sketch {
  import opened CrossFade

  /** The inner `for (i = 0; i < 255; i++)` loop for one value of decColour:
      wait, cross-fade one unit from `dec` to its predecessor, write the colour. */
  method FadePass(rgbColor: array<Uint>, dec: Channel) returns (frames: seq<Colour>, waits: seq<nat>)
    requires rgbColor.Length == 3 && rgbColor[..] == Primary(dec)
    modifies rgbColor
    ensures rgbColor[..] == Primary(IncColour(dec))
    ensures frames == PassFrames(dec)
    ensures waits == PassWaits(dec)
  {
    var inc := IncColour(dec);
    frames, waits := [], [];
    PassEndpoints(dec);
    for i := 0 to PassLength
      invariant rgbColor[..] == Fading(dec, i)
      invariant frames == PassFrames(dec)[..i]
      invariant waits == PassWaits(dec)[..i]
    {
      var wait: nat := Speed;
      if rgbColor[0] == 255 || rgbColor[1] == 255 || rgbColor[2] == 255 {
        wait := wait + Speed * 2;
      }
      assert wait == StepDelay(Fading(dec, i));
      PassWaitsPrefix(dec, i);
      waits := waits + [wait];

      assert rgbColor[dec] == 255 - i && rgbColor[inc] == i && rgbColor[Untouched(dec)] == 0;
      rgbColor[dec] := Wrap(rgbColor[dec] as int - 1);
      rgbColor[inc] := Wrap(rgbColor[inc] as int + 1);

      var frame: Colour := rgbColor[..];
      FadingByChannels(dec, i + 1, frame);
      PassFramesPrefix(dec, i);
      frames := frames + [frame];
    }
  }

  /** One iteration of `while(1)`: the passes for decColour = 2, 1, 0, which
      fade blue > green > red > blue. */
  method Cycle(rgbColor: array<Uint>) returns (frames: seq<Colour>, waits: seq<nat>)
    requires rgbColor.Length == 3 && rgbColor[..] == Blue
    modifies rgbColor
    ensures rgbColor[..] == Blue
    ensures frames == CycleFrames()
    ensures waits == CycleWaits()
  {
    frames, waits := [], [];
    var dec := 2;
    while dec >= 0
      invariant -1 <= dec <= 2
      invariant rgbColor[..] == if dec == -1 then Blue else Primary(dec)
      invariant frames == FramesBefore(dec)
      invariant waits == WaitsBefore(dec)
    {
      var f, w := FadePass(rgbColor, dec);
      frames, waits := frames + f, waits + w;
      dec := dec - 1;
    }
  }

  /** loop() with its `while(1)` cut off after `cycles` iterations: from pure
      blue, every cycle writes the same 765 frames with the same waits. */
  method Loop(cycles: nat) returns (frames: seq<Colour>, waits: seq<nat>)
    ensures |frames| == |waits| == cycles * CycleLength
    ensures forall n :: 0 <= n < |frames| ==> frames[n] == CycleFrames()[n % CycleLength]
    ensures forall n :: 0 <= n < |waits| ==> waits[n] == CycleWaits()[n % CycleLength]
  {
    var rgbColor := new Uint[3] [0, 0, 255];
    frames, waits := [], [];
    CycleLengths();
    for c := 0 to cycles
      invariant rgbColor[..] == Blue
      invariant frames == Repeat(CycleFrames(), c)
      invariant waits == Repeat(CycleWaits(), c)
    {
      var f, w := Cycle(rgbColor);
      frames, waits := frames + f, waits + w;
    }
    RepeatAt(CycleFrames(), cycles);
    RepeatAt(CycleWaits(), cycles);
  }
}
