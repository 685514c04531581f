/** The streaming linear resampler, which keeps at most one source frame between calls, and the
    packetizer that cuts its output into fixed-size packets. */
module AudioResampler {
  import opened Prelude
  import opened Interleaved
  import opened LinearSpec
  import opened RustVec

  const INTERPOLATION_MARGIN_FRAMES: nat := 2
  const PENDING_PACKET_CAPACITY: nat := 2

  datatype ResamplerError =
    | InvalidConfig(config: Config)
    | InvalidOutputFrameSize(outputFrames: nat)
    | IncompleteFrame(samples: nat, channels: nat)
    | CapacityOverflow

  function CheckedMul(a: nat, b: nat): Option<nat> {
    if a * b <= USIZE_MAX then Some(a * b) else None
  }

  function CheckedAdd(a: nat, b: nat): Option<nat> {
    if a + b <= USIZE_MAX then Some(a + b) else None
  }

  /** Samples one call may append, with a margin for the frames at its edges. */
  function OutputCapacity(inputSamples: nat, cfg: Config): Option<nat>
    requires cfg.Valid()
  {
    match CheckedMul(inputSamples / cfg.channels, cfg.outputRate)
    case None => None
    case Some(scaled) =>
      match CheckedAdd(scaled / cfg.inputRate, INTERPOLATION_MARGIN_FRAMES)
      case None => None
      case Some(frames) => CheckedMul(frames, cfg.channels)
  }

  function ValidateInput(samples: nat, channels: nat): (r: Result<(), ResamplerError>)
    requires channels > 0
    ensures r.Ok? <==> Whole(samples, channels)
  {
    if samples % channels != 0 then Err(IncompleteFrame(samples, channels)) else Ok(())
  }

  /** The calls that are answered: whole frames, with both products within 64 bits. */
  predicate Answerable(samples: nat, cfg: Config)
    requires cfg.Valid()
  {
    && samples % cfg.channels == 0
    && samples / cfg.channels * cfg.outputRate < 0x1_0000_0000_0000_0000
    && (samples / cfg.channels * cfg.outputRate / cfg.inputRate + 2) * cfg.channels < 0x1_0000_0000_0000_0000
  }

  lemma AnswerableIff(samples: nat, cfg: Config)
    requires cfg.Valid()
    ensures Answerable(samples, cfg) <==> ValidateInput(samples, cfg.channels).Ok? && OutputCapacity(samples, cfg).Some?
    ensures ValidateInput(samples, cfg.channels).Err? <==> samples % cfg.channels != 0
    ensures ValidateInput(samples, cfg.channels).Err? ==>
      ValidateInput(samples, cfg.channels).error == IncompleteFrame(samples, cfg.channels)
  {
    AnsweredIff(samples, cfg);
  }

  /** Exactly which calls are answered, and with what capacity: both products have to fit 64 bits. */
  lemma AnsweredIff(samples: nat, cfg: Config)
    requires cfg.Valid()
    ensures
      var scaled := samples / cfg.channels * cfg.outputRate;
      var needed := (scaled / cfg.inputRate + 2) * cfg.channels;
      && (OutputCapacity(samples, cfg).Some? <==> scaled < 0x1_0000_0000_0000_0000 && needed < 0x1_0000_0000_0000_0000)
      && (OutputCapacity(samples, cfg).Some? ==> OutputCapacity(samples, cfg).value == needed)
  {
    hide CheckedMul;
    var scaled := samples / cfg.channels * cfg.outputRate;
    var frames := scaled / cfg.inputRate + 2;
    CheckedMulIs(samples / cfg.channels, cfg.outputRate);
    CheckedMulIs(frames, cfg.channels);
  }

  lemma CheckedMulIs(a: nat, b: nat)
    requires b > 0
    ensures CheckedMul(a, b) == if a * b < 0x1_0000_0000_0000_0000 then Some(a * b) else None
    ensures a <= a * b
  {
    MultiplesApart(1, b, a);
  }

  /** So no input of up to 2^31 samples is refused, at any 32-bit rates and 16-bit channel count. */
  lemma UsualInputIsAnswered(samples: nat, cfg: Config)
    requires cfg.Valid() && samples <= 0x8000_0000
    requires cfg.inputRate < 0x1_0000_0000 && cfg.outputRate < 0x1_0000_0000 && cfg.channels < 0x1_0000
    ensures OutputCapacity(samples, cfg).Some?
  {
    hide OutputCapacity;
    var frames := samples / cfg.channels;
    AtMostQuotient(frames, samples, cfg.channels);
    AtMostQuotient(frames, samples, 1);
    MultiplesApart(1, cfg.channels, frames);
    ScaledIsSmall(frames, samples, cfg.outputRate, cfg.inputRate, cfg.channels);
    AnsweredIff(samples, cfg);
  }

  lemma ScaledIsSmall(frames: nat, samples: nat, outputRate: nat, inputRate: nat, channels: nat)
    requires frames * channels <= samples <= 0x8000_0000 && frames <= samples
    requires outputRate < 0x1_0000_0000 && 0 < inputRate && channels < 0x1_0000
    ensures frames * outputRate < 0x8000_0000_0000_0000
    ensures (frames * outputRate / inputRate + 2) * channels < 0x1_0000_0000_0000_0000
  {
    var scaled := frames * outputRate;
    MultiplesApart(frames, 0x8000_0000, outputRate);
    MultiplesApart(frames * channels, 0x8000_0000, outputRate);
    assert scaled * channels == frames * channels * outputRate;
    SmallerShare(scaled, inputRate, channels);
  }

  lemma SmallerShare(scaled: nat, inputRate: nat, channels: nat)
    requires inputRate > 0
    ensures (scaled / inputRate + 2) * channels <= scaled * channels + 2 * channels
  {
    var q := scaled / inputRate;
    AtMostQuotient(q, scaled, inputRate);
    MultiplesApart(1, inputRate, q);
    MultiplesApart(q, scaled, channels);
    assert (q + 2) * channels == q * channels + 2 * channels;
  }

  // ---- What is retained between calls is a function of how much was fed ----

  /** Source frames already dropped once the given number were fed. */
  function Consumed(sourceFrames: nat, cfg: Config): (r: nat)
    requires cfg.Valid()
    ensures r <= sourceFrames
    ensures At(r, cfg.outputRate) <= At(FrameCount(sourceFrames, cfg), cfg.inputRate)
  {
    var passed := At(FrameCount(sourceFrames, cfg), cfg.inputRate) / cfg.outputRate;
    MultiplesApart(sourceFrames, passed, cfg.outputRate);
    if passed <= sourceFrames then passed else sourceFrames
  }

  /** The next output position, counted from the first retained frame. */
  function Position(sourceFrames: nat, cfg: Config): (r: nat)
    requires cfg.Valid()
    ensures At(Consumed(sourceFrames, cfg), cfg.outputRate) + r == At(FrameCount(sourceFrames, cfg), cfg.inputRate)
  {
    At(FrameCount(sourceFrames, cfg), cfg.inputRate) - At(Consumed(sourceFrames, cfg), cfg.outputRate)
  }

  /** The next output position never runs more than one output frame past the last source frame. */
  lemma PositionBound(sourceFrames: nat, cfg: Config, k: nat)
    requires cfg.Valid() && sourceFrames > 0 && k <= FrameCount(sourceFrames, cfg)
    ensures At(k, cfg.inputRate) <= At(sourceFrames - 1, cfg.outputRate) + cfg.inputRate
    ensures k == FrameCount(sourceFrames, cfg) ==> At(sourceFrames - 1, cfg.outputRate) < At(k, cfg.inputRate)
  {
    AtMostQuotient(k - 1, At(sourceFrames - 1, cfg.outputRate), cfg.inputRate);
    AtMostQuotient(k, At(sourceFrames - 1, cfg.outputRate), cfg.inputRate);
    Stretch(k - 1, 0, cfg.inputRate);
  }

  /** Seen from a window that starts at frame `base`, inside a call the position stays within
      one input step of the last buffered frame. */
  lemma PositionInWindow(sourceFrames: nat, cfg: Config, base: nat, k: nat)
    requires cfg.Valid() && base < sourceFrames && k <= FrameCount(sourceFrames, cfg)
    requires At(base, cfg.outputRate) <= At(k, cfg.inputRate)
    ensures At(k, cfg.inputRate) - At(base, cfg.outputRate) <= At(sourceFrames - base - 1, cfg.outputRate) + cfg.inputRate
  {
  }

  /** Between calls at most one source frame is kept and the position stays below a full step. */
  lemma RetainedBound(sourceFrames: nat, cfg: Config)
    requires cfg.Valid()
    ensures sourceFrames - Consumed(sourceFrames, cfg) <= 1
    ensures Position(sourceFrames, cfg) < cfg.inputRate || Position(sourceFrames, cfg) < cfg.outputRate
  {
    if sourceFrames > 0 {
      var end := At(FrameCount(sourceFrames, cfg), cfg.inputRate);
      PositionBound(sourceFrames, cfg, FrameCount(sourceFrames, cfg));
      AtMostQuotient(sourceFrames - 1, end, cfg.outputRate);
      AtStep(sourceFrames - 1, cfg.outputRate);
    }
  }

  lemma QuotientSum(a: nat, b: nat, d: nat)
    requires d > 0
    ensures (a + b) / d <= a / d + b / d + 1
  {
    var q := a / d + b / d + 1;
    assert (q + 1) * d == (a / d) * d + (b / d) * d + 2 * d;
    AtMostQuotient(q + 1, a + b, d);
  }

  /** However the stream was cut, a call emits at most one frame more than its own input scales to. */
  lemma FramesPerCall(before: nat, added: nat, cfg: Config)
    requires cfg.Valid()
    ensures FrameCount(before, cfg) <= FrameCount(before + added, cfg)
    ensures FrameCount(before + added, cfg) - FrameCount(before, cfg) <= At(added, cfg.outputRate) / cfg.inputRate + 1
  {
    hide At;
    CountMonotone(before, before + added, cfg);
    if before > 0 {
      AtAdd(before - 1, added, cfg.outputRate);
      QuotientSum(At(before - 1, cfg.outputRate), At(added, cfg.outputRate), cfg.inputRate);
    } else if added > 0 {
      AtOrder(added - 1, added, cfg.outputRate);
      QuotientMonotone(At(added - 1, cfg.outputRate), At(added, cfg.outputRate), cfg.inputRate);
    }
  }

  lemma AppendedFits(before: nat, inputSamples: nat, cfg: Config)
    requires cfg.Valid() && OutputCapacity(inputSamples, cfg).Some?
    ensures FrameCount(before, cfg) <= FrameCount(before + Total(inputSamples, cfg.channels), cfg)
    ensures At(FrameCount(before + Total(inputSamples, cfg.channels), cfg) - FrameCount(before, cfg), cfg.channels)
            <= OutputCapacity(inputSamples, cfg).value
  {
    var added := Total(inputSamples, cfg.channels);
    FramesPerCall(before, added, cfg);
    AtOrder(FrameCount(before + added, cfg) - FrameCount(before, cfg),
      At(added, cfg.outputRate) / cfg.inputRate + INTERPOLATION_MARGIN_FRAMES, cfg.channels);
  }

  /** One turn of the loop: the retained window offers the next frame exactly when the whole
      stream has one, and it is the same frame. */
  lemma NextFrame(source: seq<Frame>, cfg: Config, base: nat, k: nat)
    requires cfg.Valid() && Stream(source, cfg)
    requires base <= |source| && At(base, cfg.outputRate) <= At(k, cfg.inputRate)
    ensures
      var position := At(k, cfg.inputRate) - At(base, cfg.outputRate);
      && (LastSource(position, cfg.outputRate) < |source| - base <==> k < FrameCount(|source|, cfg))
      && (k < FrameCount(|source|, cfg) ==>
            Interpolate(source[base..], cfg, position) == Resample(source, cfg)[k])
  {
    AvailableBelowCount(|source|, cfg, k);
    WindowInterpolates(source, cfg, base, At(k, cfg.inputRate));
  }

  /** A sample of an interpolated frame, read from the interleaved buffer. */
  lemma InterpolatedSample(samples: seq<real>, cfg: Config, position: nat, channel: nat)
    requires cfg.Valid() && channel < cfg.channels
    requires LastSource(position, cfg.outputRate) < Total(|samples|, cfg.channels)
    ensures Index(FirstSource(position, cfg.outputRate), cfg.channels, channel) < |samples|
    ensures Index(LastSource(position, cfg.outputRate), cfg.channels, channel) < |samples|
    ensures Interpolate(Frames(samples, cfg.channels), cfg, position)[channel]
      == Mix(samples[Index(FirstSource(position, cfg.outputRate), cfg.channels, channel)],
             samples[Index(LastSource(position, cfg.outputRate), cfg.channels, channel)],
             Fraction(position, cfg.outputRate))
  {
    FirstSourceWithin(position, cfg.outputRate);
    hide Frames, Total, Whole, FirstSource, LastSource, Mix, Fraction, Index;
    FramesAt(samples, cfg.channels, FirstSource(position, cfg.outputRate), channel);
    FramesAt(samples, cfg.channels, LastSource(position, cfg.outputRate), channel);
  }

  lemma FirstSourceWithin(position: nat, rate: nat)
    requires rate > 0
    ensures FirstSource(position, rate) <= LastSource(position, rate) <= FirstSource(position, rate) + 1
  {
  }

  /** How many buffered frames a position has passed. */
  function Passed(position: nat, available: nat, rate: nat): (r: nat)
    requires rate > 0
    ensures r <= available && At(r, rate) <= position
  {
    var passed := position / rate;
    MultiplesApart(available, passed, rate);
    if passed <= available then passed else available
  }

  /** Dropping what the position has passed lands on the state that depends only on the total. */
  lemma DiscardReachesConsumed(sourceFrames: nat, cfg: Config, base: nat)
    requires cfg.Valid() && base <= sourceFrames
    requires At(base, cfg.outputRate) <= At(FrameCount(sourceFrames, cfg), cfg.inputRate)
    ensures
      var position := At(FrameCount(sourceFrames, cfg), cfg.inputRate) - At(base, cfg.outputRate);
      var drop := Passed(position, sourceFrames - base, cfg.outputRate);
      && base + drop == Consumed(sourceFrames, cfg)
      && position - At(drop, cfg.outputRate) == Position(sourceFrames, cfg)
  {
    QuotientShift(At(FrameCount(sourceFrames, cfg), cfg.inputRate), cfg.outputRate, base);
    var drop := Consumed(sourceFrames, cfg) - base;
    assert drop * cfg.outputRate == At(Consumed(sourceFrames, cfg), cfg.outputRate) - At(base, cfg.outputRate);
  }

  function Grown(capacity: nat, needed: nat): nat {
    if needed <= capacity then capacity else needed
  }

  // ---- The streaming form ----

  class StreamingLinearResampler {
    const config: Config
    const channels: nat
    const buffered: Vec<real>
    var nextPosition: nat
    ghost var source: seq<Frame>  // every source frame accepted so far

    /** What holds inside a call as well as between calls. */
    ghost predicate Ready()
      reads this, buffered
    {
      config.Valid() && channels == config.channels && buffered.Valid() && Whole(|buffered.items|, channels)
    }

    ghost predicate Valid()
      reads this, buffered
    {
      && Ready()
      && Stream(source, config)
      && Frames(buffered.items, channels) == source[Consumed(|source|, config)..]
      && nextPosition == Position(|source|, config)
    }

    constructor (config: Config)
      requires config.Valid()
      ensures Valid() && this.config == config && source == []
      ensures fresh(buffered) && buffered.items == [] && buffered.capacity == 0
    {
      this.config := config;
      this.channels := config.channels;
      this.buffered := new Vec.WithCapacity(0);
      nextPosition := 0;
      source := [];
      new;
      hide At, Whole, Total;
      TotalStep(0, config.channels);
      AtStep(0, config.inputRate);
      AtStep(0, config.outputRate);
    }

    /** Appends the resampling of the input to the output. An error changes nothing. Otherwise
        the appended frames are exactly what resampling the whole source has beyond what it had
        before, so no cut of the stream into calls can change the output. */
    method ProcessInto(input: seq<real>, output: Vec<real>) 
      returns (status: Result<(), ResamplerError>, ghost emitted: seq<real>)
      requires Valid() && output.Valid() && output != buffered
      modifies this, buffered, output
      ensures Valid() && output.Valid()
      ensures status ==
        if ValidateInput(|input|, channels).Err? then ValidateInput(|input|, channels)
        else if OutputCapacity(|input|, config).None? then Err(CapacityOverflow)
        else Ok(())
      ensures status.Ok? <==> Answerable(|input|, config)
      ensures status.Err? ==>
        status.error == if |input| % channels == 0 then CapacityOverflow else IncompleteFrame(|input|, channels)
      ensures status.Err? ==> unchanged(this) && unchanged(buffered) && unchanged(output)
      ensures status.Ok? ==>
        && source == old(source) + Frames(input, channels)
        && output.items == old(output.items) + emitted
        && Whole(|emitted|, channels) && |emitted| <= OutputCapacity(|input|, config).value
        && Resample(source, config) == Resample(old(source), config) + Frames(emitted, channels)
        && output.capacity == Grown(old(output.capacity), |old(output.items)| + OutputCapacity(|input|, config).value)
        && buffered.capacity == Grown(old(buffered.capacity), |old(buffered.items)| + |input|)
    {
      hide ValidateInput, Whole, Total, At, FrameCount, Resample, Consumed, Position, Frames, Passed, OutputCapacity,
        Answerable;
      AnswerableIff(|input|, config);
      if ValidateInput(|input|, channels).Err? {
        return ValidateInput(|input|, channels), [];
      }
      var capacity := OutputCapacity(|input|, config);
      if capacity.None? {
        return Err(CapacityOverflow), [];
      }
      output.Reserve(capacity.value);
      buffered.Extend(input);

      ghost var base, before := Consumed(|source|, config), FrameCount(|source|, config);
      ghost var fed := Frames(input, channels);
      FramesAppend(old(buffered.items), input, channels);
      AppendedFits(|source|, |input|, config);
      ResampleExtends(source, fed, config);
      AtOrder(before, FrameCount(|source + fed|, config), config.inputRate);
      source := source + fed;
      emitted := EmitFrames(output, base, before);
      DiscardReachesConsumed(|source|, config, base);
      DiscardConsumedFrames();
      return Ok(()), emitted;
    }

    /** The loop of a call: writes every frame the buffer now completes. */
    method EmitFrames(output: Vec<real>, ghost base: nat, ghost before: nat) returns (ghost emitted: seq<real>)
      requires Ready() && output.Valid() && output != buffered && Stream(source, config)
      requires base <= |source| && Frames(buffered.items, channels) == source[base..]
      requires before <= FrameCount(|source|, config)
      requires At(base, config.outputRate) <= At(before, config.inputRate)
      requires nextPosition == At(before, config.inputRate) - At(base, config.outputRate)
      requires |output.items| + At(FrameCount(|source|, config) - before, channels) <= output.capacity
      modifies this`nextPosition, output
      ensures Ready() && output.Valid() && output.capacity == old(output.capacity)
      ensures output.items == old(output.items) + emitted
      ensures Whole(|emitted|, channels) && |emitted| == At(FrameCount(|source|, config) - before, channels)
      ensures Frames(emitted, channels) == Resample(source, config)[before..]
      ensures At(base, config.outputRate) <= At(FrameCount(|source|, config), config.inputRate)
      ensures nextPosition == At(FrameCount(|source|, config), config.inputRate) - At(base, config.outputRate)
    {
      hide Whole, Total, At, LastSource, Interpolate, FrameCount, Resample, Frames;
      ghost var k, total := before, FrameCount(|source|, config);
      emitted := [];
      TotalStep(0, channels);
      AtStep(0, channels);
      if base < |source| {
        PositionInWindow(|source|, config, base, before);
      }
      while true
        invariant Ready() && output.Valid() && output.capacity == old(output.capacity)
        invariant before <= k <= total && At(base, config.outputRate) <= At(k, config.inputRate)
        invariant nextPosition == At(k, config.inputRate) - At(base, config.outputRate)
        invariant base < |source| ==>
          nextPosition <= At(|source| - base - 1, config.outputRate) + config.inputRate
        invariant output.items == old(output.items) + emitted
        invariant |emitted| == At(k - before, channels) && Whole(|emitted|, channels)
        invariant Frames(emitted, channels) == Resample(source, config)[before..k]
        decreases total - k
      {
        NextFrame(source, config, base, k);
        var wrote := WriteNextFrame(output);
        if !wrote {
          break;
        }
        nextPosition := nextPosition + config.inputRate;
        ghost var frame := Resample(source, config)[k];
        FramesOfOne(frame);
        FramesAppend(emitted, frame, channels);
        AtStep(k - before, channels);
        AtStep(k, config.inputRate);
        AtOrder(k + 1 - before, total - before, channels);
        emitted := emitted + frame;
        k := k + 1;
        if base < |source| {
          PositionInWindow(|source|, config, base, k);
        }
      }
    }

    method WriteNextFrame(output: Vec<real>) returns (wrote: bool)
      requires Ready() && output.Valid() && output != buffered
      modifies output
      ensures output.Valid()
      ensures wrote <==> LastSource(nextPosition, config.outputRate) < Total(|buffered.items|, channels)
      ensures wrote ==>
        && Stream(Frames(buffered.items, channels), config)
        && output.items == old(output.items) + Interpolate(Frames(buffered.items, channels), config, nextPosition)
        && output.capacity == Grown(old(output.capacity), |output.items|)
      ensures !wrote ==> unchanged(output)
    {
      var frameCount := |buffered.items| / channels;
      var frame := nextPosition / config.outputRate;
      var fraction := nextPosition % config.outputRate;
      if frame >= frameCount || (fraction != 0 && frame + 1 >= frameCount) {
        return false;
      }
      var weight := fraction as real / config.outputRate as real;
      var nextFrame := frame + (if fraction != 0 then 1 else 0);
      assert frame == FirstSource(nextPosition, config.outputRate) && nextFrame == LastSource(nextPosition, config.outputRate);
      assert weight == Fraction(nextPosition, config.outputRate);
      hide Frames, Whole, Total, Interpolate, FirstSource, LastSource, Mix, Fraction, Index;
      ghost var interpolated := Interpolate(Frames(buffered.items, channels), config, nextPosition);
      for channel := 0 to channels
        invariant Ready() && output.Valid()
        invariant output.items == old(output.items) + interpolated[..channel]
        invariant output.capacity == Grown(old(output.capacity), |output.items|)
      {
        InterpolatedSample(buffered.items, config, nextPosition, channel);
        var current := buffered.items[Index(frame, channels, channel)];
        var next := buffered.items[Index(nextFrame, channels, channel)];
        output.Extend([Mix(current, next, weight)]);
      }
      return true;
    }

    method DiscardConsumedFrames()
      requires Ready()
      modifies this, buffered
      ensures Ready() && source == old(source) && buffered.capacity == old(buffered.capacity)
      ensures
        var drop := Passed(old(nextPosition), Total(|old(buffered.items)|, channels), config.outputRate);
        && Frames(buffered.items, channels) == Frames(old(buffered.items), channels)[drop..]
        && nextPosition == old(nextPosition) - At(drop, config.outputRate)
    {
      var available := |buffered.items| / channels;
      var passed := nextPosition / config.outputRate;
      var consumed := if passed <= available then passed else available;
      assert consumed == Passed(nextPosition, Total(|buffered.items|, channels), config.outputRate);
      assert consumed * config.outputRate == At(consumed, config.outputRate) <= nextPosition;
      hide Frames, Whole, Total, Passed, At;
      FramesDrop(buffered.items, channels, consumed);
      buffered.Drain(consumed * channels);
      nextPosition := nextPosition - consumed * config.outputRate;
    }
  }

  /** The retained samples and the position depend only on the stream, not on how it was cut. */
  lemma SameStreamSameState(a: StreamingLinearResampler, b: StreamingLinearResampler)
    requires a.Valid() && b.Valid() && a.config == b.config && a.source == b.source
    ensures a.buffered.items == b.buffered.items && a.nextPosition == b.nextPosition
    ensures Total(|a.buffered.items|, a.channels) <= 1
    ensures a.nextPosition < a.config.inputRate || a.nextPosition < a.config.outputRate
  {
    hide Whole, Total, At, FrameCount, Consumed, Position;
    FramesInjective(a.buffered.items, b.buffered.items, a.channels);
    RetainedBound(|a.source|, a.config);
  }

  /** A stream fed in any number of calls comes out as if it had been resampled at once. */
  method ProcessChunks(config: Config, chunks: seq<seq<real>>) returns (samples: seq<real>)
    requires config.Valid()
    requires forall i :: 0 <= i < |chunks| ==>
      Whole(|chunks[i]|, config.channels) && OutputCapacity(|chunks[i]|, config).Some?
    ensures Whole(|Concat(chunks)|, config.channels) && Whole(|samples|, config.channels)
    ensures Stream(Frames(Concat(chunks), config.channels), config)
    ensures Frames(samples, config.channels) == Resample(Frames(Concat(chunks), config.channels), config)
  {
    hide Whole, Total, At, FrameCount, Resample, Consumed, Position, Frames, OutputCapacity, ValidateInput, Concat;
    var resampler := new StreamingLinearResampler(config);
    var output := new Vec.WithCapacity(0);
    NothingFed(config);
    ConcatSnoc<real>([], []);
    assert chunks[..0] == [];
    for i := 0 to |chunks|
      invariant resampler.Valid() && output.Valid() && fresh(resampler) && fresh(resampler.buffered) && fresh(output)
      invariant output != resampler.buffered && resampler.config == config
      invariant Whole(|Concat(chunks[..i])|, config.channels) && Whole(|output.items|, config.channels)
      invariant resampler.source == Frames(Concat(chunks[..i]), config.channels)
      invariant Frames(output.items, config.channels) == Resample(resampler.source, config)
    {
      ghost var before := output.items;
      var status;
      ghost var emitted;
      status, emitted := resampler.ProcessInto(chunks[i], output);
      assert chunks[..i + 1] == chunks[..i] + [chunks[i]];
      ConcatSnoc(chunks[..i], chunks[i]);
      FramesAppend(Concat(chunks[..i]), chunks[i], config.channels);
      FramesAppend(before, emitted, config.channels);
    }
    assert chunks[..|chunks|] == chunks;
    samples := output.items;
  }

  lemma NothingFed(cfg: Config)
    requires cfg.Valid()
    ensures Resample([], cfg) == [] && Frames([], cfg.channels) == [] && Whole(0, cfg.channels)
  {
  }

  /** So two ways of cutting the same stream give the same output, sample for sample. */
  method CutTwoWays(config: Config, one: seq<seq<real>>, other: seq<seq<real>>) returns (a: seq<real>, b: seq<real>)
    requires config.Valid() && Concat(one) == Concat(other)
    requires forall i :: 0 <= i < |one| ==> Whole(|one[i]|, config.channels) && OutputCapacity(|one[i]|, config).Some?
    requires forall i :: 0 <= i < |other| ==> Whole(|other[i]|, config.channels) && OutputCapacity(|other[i]|, config).Some?
    ensures a == b
  {
    hide Whole, Total, Resample, Frames, OutputCapacity, Concat;
    a := ProcessChunks(config, one);
    b := ProcessChunks(config, other);
    FramesInjective(a, b, config.channels);
  }
}
