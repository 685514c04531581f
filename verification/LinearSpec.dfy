/** The simple form of the linear resampler: interpolate a whole stream at once.
    Positions count output-rate ticks: output frame k sits at k * inputRate and source
    frame f at f * outputRate. */
module LinearSpec {
  import opened Prelude
  import opened Interleaved

  datatype Config = Config(inputRate: nat, outputRate: nat, channels: nat) {
    predicate Valid() {
      inputRate > 0 && outputRate > 0 && channels > 0
    }
  }

  ghost predicate Stream(frames: seq<Frame>, cfg: Config) {
    forall f :: 0 <= f < |frames| ==> |frames[f]| == cfg.channels
  }

  /** The position of a frame on the common time line. */
  function At(frame: nat, rate: nat): nat {
    frame * rate
  }

  lemma AtStep(frame: nat, rate: nat)
    ensures At(frame + 1, rate) == At(frame, rate) + rate
    ensures At(0, rate) == 0
  {
  }

  lemma AtAdd(a: nat, b: nat, rate: nat)
    ensures At(a + b, rate) == At(a, rate) + At(b, rate)
  {
  }

  lemma AtOrder(a: nat, b: nat, rate: nat)
    ensures a <= b ==> At(a, rate) <= At(b, rate)
    ensures a < b ==> At(a, rate) + rate <= At(b, rate)
  {
    MultiplesApart(a, b, rate);
  }

  /** The two source frames that a position lies between; the same one when it hits it exactly. */
  function FirstSource(position: nat, rate: nat): nat
    requires rate > 0
  {
    position / rate
  }

  function LastSource(position: nat, rate: nat): nat
    requires rate > 0
  {
    position / rate + (if position % rate != 0 then 1 else 0)
  }

  function Mix(current: real, next: real, weight: real): real {
    current + (next - current) * weight
  }

  function Fraction(position: nat, rate: nat): (w: real)
    requires rate > 0
    ensures 0.0 <= w < 1.0
    ensures w == 0.0 <==> position % rate == 0
  {
    WeightBounds(position % rate, rate);
    (position % rate) as real / rate as real
  }

  lemma WeightBounds(fraction: nat, rate: nat)
    requires rate > 0 && fraction < rate
    ensures fraction as real / rate as real == 0.0 <==> fraction == 0
    ensures 0.0 <= fraction as real / rate as real < 1.0
  {
  }

  /** The frame interpolated at a position between its two source frames. */
  function Interpolate(frames: seq<Frame>, cfg: Config, position: nat): (r: Frame)
    requires cfg.Valid() && Stream(frames, cfg) && LastSource(position, cfg.outputRate) < |frames|
    ensures |r| == cfg.channels
  {
    var current := frames[FirstSource(position, cfg.outputRate)];
    var next := frames[LastSource(position, cfg.outputRate)];
    seq(cfg.channels, (channel: nat) requires channel < cfg.channels =>
      Mix(current[channel], next[channel], Fraction(position, cfg.outputRate)))
  }

  /** How many output frames a stream of the given number of source frames has. */
  function FrameCount(sourceFrames: nat, cfg: Config): nat
    requires cfg.Valid()
  {
    if sourceFrames == 0 then 0 else At(sourceFrames - 1, cfg.outputRate) / cfg.inputRate + 1
  }

  /** Output frame k can be interpolated exactly when k is below the frame count. */
  lemma AvailableBelowCount(sourceFrames: nat, cfg: Config, k: nat)
    requires cfg.Valid()
    ensures LastSource(At(k, cfg.inputRate), cfg.outputRate) < sourceFrames <==> k < FrameCount(sourceFrames, cfg)
  {
    if sourceFrames > 0 {
      ReachedIffWithin(k * cfg.inputRate, cfg.outputRate, sourceFrames);
      AtMostQuotient(k, (sourceFrames - 1) * cfg.outputRate, cfg.inputRate);
    }
  }

  lemma ReachedIffWithin(position: nat, rate: nat, frames: nat)
    requires rate > 0 && frames > 0
    ensures LastSource(position, rate) < frames <==> position <= (frames - 1) * rate
  {
    MultiplesApart(position / rate, frames - 1, rate);
    MultiplesApart(frames - 1, position / rate, rate);
  }

  /** The whole stream, resampled at once. */
  function Resample(frames: seq<Frame>, cfg: Config): (r: seq<Frame>)
    requires cfg.Valid() && Stream(frames, cfg)
    ensures |r| == FrameCount(|frames|, cfg)
    ensures Stream(r, cfg)
  {
    seq(FrameCount(|frames|, cfg), (k: nat) requires k < FrameCount(|frames|, cfg) =>
      AvailableBelowCount(|frames|, cfg, k);
      Interpolate(frames, cfg, At(k, cfg.inputRate)))
  }

  lemma CountMonotone(a: nat, b: nat, cfg: Config)
    requires cfg.Valid() && a <= b
    ensures FrameCount(a, cfg) <= FrameCount(b, cfg)
  {
    if a > 0 {
      MultiplesApart(a - 1, b - 1, cfg.outputRate);
      QuotientMonotone((a - 1) * cfg.outputRate, (b - 1) * cfg.outputRate, cfg.inputRate);
    }
  }

  /** Reading a stream from frame `base` on, at a position counted from there, changes nothing. */
  lemma WindowInterpolates(frames: seq<Frame>, cfg: Config, base: nat, position: nat)
    requires cfg.Valid() && Stream(frames, cfg) && base <= |frames| && base * cfg.outputRate <= position
    ensures position - base * cfg.outputRate >= 0
    ensures LastSource(position - base * cfg.outputRate, cfg.outputRate) + base == LastSource(position, cfg.outputRate)
    ensures LastSource(position, cfg.outputRate) < |frames| ==>
      Interpolate(frames[base..], cfg, position - base * cfg.outputRate) == Interpolate(frames, cfg, position)
  {
    QuotientShift(position, cfg.outputRate, base);
  }

  /** Resampling a longer stream only appends: what was emitted stays emitted. */
  lemma ResampleExtends(a: seq<Frame>, b: seq<Frame>, cfg: Config)
    requires cfg.Valid() && Stream(a, cfg) && Stream(b, cfg)
    ensures Resample(a, cfg) <= Resample(a + b, cfg)
  {
    CountMonotone(|a|, |a + b|, cfg);
    forall k: nat | k < FrameCount(|a|, cfg)
      ensures Resample(a, cfg)[k] == Resample(a + b, cfg)[k]
    {
      AvailableBelowCount(|a|, cfg, k);
    }
  }

  /** The closed form. A stream of F frames yields no frame when F is 0 and otherwise
      floor((F - 1) * out / in) + 1, and frame k mixes source frame floor(k * in / out)
      with its successor by the weight (k * in mod out) / out. */
  lemma ClosedForm(frames: seq<Frame>, cfg: Config, k: nat, channel: nat)
    requires cfg.Valid() && Stream(frames, cfg) && channel < cfg.channels
    ensures |frames| == 0 ==> Resample(frames, cfg) == []
    ensures |frames| > 0 ==> |Resample(frames, cfg)| == (|frames| - 1) * cfg.outputRate / cfg.inputRate + 1
    ensures k < |Resample(frames, cfg)| ==>
      var position := k * cfg.inputRate;
      var left := position / cfg.outputRate;
      var weight := (position % cfg.outputRate) as real / cfg.outputRate as real;
      && left < |frames|
      && (position % cfg.outputRate == 0 ==> Resample(frames, cfg)[k] == frames[left])
      && (position % cfg.outputRate != 0 ==>
            && left + 1 < |frames|
            && Resample(frames, cfg)[k][channel]
               == (1.0 - weight) * frames[left][channel] + weight * frames[left + 1][channel])
  {
    if k < |Resample(frames, cfg)| {
      AvailableBelowCount(|frames|, cfg, k);
      MixedFrame(frames, cfg, k * cfg.inputRate, channel);
    }
  }

  lemma MixedFrame(frames: seq<Frame>, cfg: Config, position: nat, channel: nat)
    requires cfg.Valid() && Stream(frames, cfg) && channel < cfg.channels
    requires LastSource(position, cfg.outputRate) < |frames|
    ensures position % cfg.outputRate == 0 ==>
      Interpolate(frames, cfg, position) == frames[FirstSource(position, cfg.outputRate)]
    ensures position % cfg.outputRate != 0 ==>
      Interpolate(frames, cfg, position)[channel]
      == (1.0 - Fraction(position, cfg.outputRate)) * frames[FirstSource(position, cfg.outputRate)][channel]
         + Fraction(position, cfg.outputRate) * frames[position / cfg.outputRate + 1][channel]
  {
  }

  predicate Between(a: real, x: real, b: real) {
    a <= x <= b || b <= x <= a
  }

  lemma MixBetween(a: real, b: real, w: real)
    requires 0.0 <= w < 1.0
    ensures Between(a, Mix(a, b, w), b)
  {
    if a <= b {
      MixRises(a, b, w);
    } else {
      MixRises(b, a, 1.0 - w);
      MixSwap(a, b, w);
    }
  }

  lemma MixRises(a: real, b: real, w: real)
    requires 0.0 <= w <= 1.0 && a <= b
    ensures a <= Mix(a, b, w) <= b
  {
    var rise := b - a;
    assert rise * w >= 0.0;
    assert rise * (1.0 - w) >= 0.0;
    assert rise * (1.0 - w) == rise - rise * w;
  }

  lemma MixSwap(a: real, b: real, w: real)
    ensures Mix(a, b, w) == Mix(b, a, 1.0 - w)
  {
  }

  /** Every output sample lies between the two source samples it was made from. */
  lemma StaysBetweenSources(frames: seq<Frame>, cfg: Config, k: nat, channel: nat)
    requires cfg.Valid() && Stream(frames, cfg) && channel < cfg.channels && k < |Resample(frames, cfg)|
    ensures
      var left := k * cfg.inputRate / cfg.outputRate;
      var right := LastSource(At(k, cfg.inputRate), cfg.outputRate);
      && left <= right <= left + 1 && right < |frames|
      && Between(frames[left][channel], Resample(frames, cfg)[k][channel], frames[right][channel])
  {
    AvailableBelowCount(|frames|, cfg, k);
    MixBetween(frames[k * cfg.inputRate / cfg.outputRate][channel],
      frames[LastSource(At(k, cfg.inputRate), cfg.outputRate)][channel],
      Fraction(k * cfg.inputRate, cfg.outputRate));
  }

  /** Equal rates copy the stream. */
  lemma EqualRatesAreIdentity(frames: seq<Frame>, cfg: Config)
    requires cfg.Valid() && Stream(frames, cfg) && cfg.inputRate == cfg.outputRate
    ensures Resample(frames, cfg) == frames
  {
    if |frames| > 0 {
      ExactQuotient(|frames| - 1, cfg.inputRate);
    }
    forall k: nat | k < |frames|
      ensures Resample(frames, cfg)[k] == frames[k]
    {
      ExactQuotient(k, cfg.outputRate);
      ClosedForm(frames, cfg, k, 0);
    }
  }
}
