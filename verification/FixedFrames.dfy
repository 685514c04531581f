/** The packetizer: cuts the resampler's output into packets of a fixed number of frames. */
module FixedFrames {
  import opened Prelude
  import opened Interleaved
  import opened LinearSpec
  import opened RustVec
  import opened AudioResampler

  function CeilDiv(a: nat, b: nat): nat
    requires b > 0
  {
    (a + b - 1) / b
  }

  /** The most source frames one packet of output can need. */
  function PacketInput(outputFrames: nat, cfg: Config): nat
    requires cfg.Valid()
  {
    CeilDiv(At(outputFrames, cfg.inputRate), cfg.outputRate)
  }

  datatype Sizes = Sizes(outputSamples: nat, pendingCapacity: nat, inputCapacity: nat)

  /** The sizes `new` settles on, or the error it stops with. */
  function Plan(cfg: Config, outputFrames: nat): Result<Sizes, ResamplerError> {
    if outputFrames == 0 then Err(InvalidOutputFrameSize(outputFrames))
    else if !cfg.Valid() then Err(InvalidConfig(cfg))
    else if CheckedMul(outputFrames, cfg.channels).None? then Err(CapacityOverflow)
    else
      var outputSamples := CheckedMul(outputFrames, cfg.channels).value;
      if CheckedMul(outputFrames, cfg.inputRate).None? then Err(CapacityOverflow)
      else
        var inputFrames := CeilDiv(CheckedMul(outputFrames, cfg.inputRate).value, cfg.outputRate);
        match CheckedMul(outputSamples, PENDING_PACKET_CAPACITY)
        case None => Err(CapacityOverflow)
        case Some(samples) =>
          match CheckedAdd(samples, cfg.channels * INTERPOLATION_MARGIN_FRAMES)
          case None => Err(CapacityOverflow)
          case Some(pendingCapacity) =>
            match CheckedAdd(inputFrames, INTERPOLATION_MARGIN_FRAMES)
            case None => Err(CapacityOverflow)
            case Some(frames) =>
              match CheckedMul(frames, cfg.channels)
              case None => Err(CapacityOverflow)
              case Some(inputCapacity) => Ok(Sizes(outputSamples, pendingCapacity, inputCapacity))
  }

  /** The packetizers that can be built: every product has to fit 64 bits. */
  predicate Constructible(cfg: Config, outputFrames: nat) {
    && outputFrames > 0 && cfg.inputRate > 0 && cfg.outputRate > 0 && cfg.channels > 0
    && outputFrames * cfg.inputRate < 0x1_0000_0000_0000_0000
    && outputFrames * cfg.channels * 2 + cfg.channels * 2 < 0x1_0000_0000_0000_0000
    && ((outputFrames * cfg.inputRate + cfg.outputRate - 1) / cfg.outputRate + 2) * cfg.channels < 0x1_0000_0000_0000_0000
  }

  /** Exactly when there is a plan, which sizes it has, and which error there is otherwise. */
  lemma PlanIff(cfg: Config, outputFrames: nat)
    ensures Plan(cfg, outputFrames).Ok? <==> Constructible(cfg, outputFrames)
    ensures Constructible(cfg, outputFrames) ==>
      var sizes := Plan(cfg, outputFrames).value;
      && sizes.outputSamples == outputFrames * cfg.channels
      && sizes.pendingCapacity == outputFrames * cfg.channels * 2 + cfg.channels * 2
      && sizes.inputCapacity
         == ((outputFrames * cfg.inputRate + cfg.outputRate - 1) / cfg.outputRate + 2) * cfg.channels
    ensures !Constructible(cfg, outputFrames) ==>
      Plan(cfg, outputFrames).error
      == (if outputFrames == 0 then InvalidOutputFrameSize(0)
          else if cfg.inputRate == 0 || cfg.outputRate == 0 || cfg.channels == 0 then InvalidConfig(cfg)
          else CapacityOverflow)
  {
    if outputFrames > 0 && cfg.Valid() {
      var inputFrames := (outputFrames * cfg.inputRate + cfg.outputRate - 1) / cfg.outputRate;
      assert inputFrames == CeilDiv(outputFrames * cfg.inputRate, cfg.outputRate);
      MultiplesApart(1, cfg.channels, inputFrames + 2);
    }
  }

  /** So packets of up to 32768 frames are possible at any 32-bit rates and 16-bit channel count. */
  lemma UsualPacketsAreBuilt(cfg: Config, outputFrames: nat)
    requires cfg.Valid() && 0 < outputFrames <= 0x8000
    requires cfg.inputRate < 0x1_0000_0000 && cfg.outputRate < 0x1_0000_0000 && cfg.channels < 0x1_0000
    ensures Constructible(cfg, outputFrames)
  {
    var scaled := outputFrames * cfg.inputRate;
    MultiplesApart(outputFrames, 0x8000, cfg.inputRate);
    MultiplesApart(outputFrames, 0x8000, cfg.channels);
    CeilBounds(scaled, cfg.outputRate);
    CeilIsSmaller(scaled, cfg.outputRate);
    MultiplesApart(CeilDiv(scaled, cfg.outputRate) + 2, 0x8000_0000_0002, cfg.channels);
  }

  lemma CeilIsSmaller(a: nat, b: nat)
    requires b > 0
    ensures (a + b - 1) / b <= a
  {
    MultiplesApart(1, b, a);
    assert a * b + b == (a + 1) * b;
    if (a + b - 1) / b > a {
      AtMostQuotient(a + 1, a + b - 1, b);
    }
  }

  lemma PlanSizes(cfg: Config, outputFrames: nat)
    requires Plan(cfg, outputFrames).Ok?
    ensures outputFrames > 0 && cfg.Valid()
    ensures Plan(cfg, outputFrames).value
      == Sizes(At(outputFrames, cfg.channels), At(2 * outputFrames + 2, cfg.channels),
               At(PacketInput(outputFrames, cfg) + 2, cfg.channels))
  {
  }

  // ---- When the reserved memory is enough ----

  /** Whether the output of the largest input a packet needs stays within one packet and a frame. */
  predicate Steady(outputFrames: nat, cfg: Config)
    requires cfg.Valid()
  {
    At(PacketInput(outputFrames, cfg), cfg.outputRate) / cfg.inputRate <= outputFrames + 1
  }

  /** Downsampling, and packets that map to whole source frames, are steady. */
  lemma SteadyWhen(outputFrames: nat, cfg: Config)
    requires cfg.Valid()
    requires cfg.outputRate <= cfg.inputRate || At(outputFrames, cfg.inputRate) % cfg.outputRate == 0
    ensures Steady(outputFrames, cfg)
  {
    var n := PacketInput(outputFrames, cfg);
    CeilBounds(At(outputFrames, cfg.inputRate), cfg.outputRate);
    AtStep(outputFrames, cfg.inputRate);
    AtMostQuotient(outputFrames + 1, At(n, cfg.outputRate), cfg.inputRate);
  }

  lemma CeilBounds(a: nat, b: nat)
    requires b > 0
    ensures a <= At(CeilDiv(a, b), b) < a + b
    ensures a % b == 0 ==> At(CeilDiv(a, b), b) == a
  {
    if a % b == 0 {
      QuotientIs(a + b - 1, b, a / b);
    }
  }

  /** The frames a call asks the pending vector to hold. */
  function Request(pendingFrames: nat, inputFrames: nat, cfg: Config): nat
    requires cfg.Valid()
  {
    pendingFrames + At(inputFrames, cfg.outputRate) / cfg.inputRate + INTERPOLATION_MARGIN_FRAMES
  }

  /** After `fed` source frames, a packet-sized call asks for more than `new` has reserved. */
  ghost predicate Outgrows(fed: nat, inputFrames: nat, outputFrames: nat, cfg: Config)
    requires cfg.Valid() && outputFrames > 0
  {
    && inputFrames <= PacketInput(outputFrames, cfg)
    && OutputCapacity(At(inputFrames, cfg.channels), cfg).Some?
    && Request(FrameCount(fed, cfg) % outputFrames, inputFrames, cfg) > 2 * outputFrames + 2
  }

  /** No packet-sized call of any run ever does. */
  ghost predicate Sufficient(outputFrames: nat, cfg: Config)
    requires cfg.Valid() && outputFrames > 0
  {
    forall fed: nat, inputFrames: nat :: !Outgrows(fed, inputFrames, outputFrames, cfg)
  }

  /** A packet's worth of seconds brings as many source frames and a whole number of packets. */
  lemma CountIsPeriodic(fed: nat, outputFrames: nat, cfg: Config)
    requires cfg.Valid() && outputFrames > 0 && fed > At(outputFrames, cfg.inputRate)
    ensures FrameCount(fed, cfg) % outputFrames == FrameCount(fed - At(outputFrames, cfg.inputRate), cfg) % outputFrames
  {
    hide At;
    var earlier, frames := fed - At(outputFrames, cfg.inputRate), outputFrames * cfg.outputRate;
    AtAdd(earlier - 1, At(outputFrames, cfg.inputRate), cfg.outputRate);
    PeriodProduct(outputFrames, cfg.inputRate, cfg.outputRate);
    QuotientShift(At(fed - 1, cfg.outputRate), cfg.inputRate, frames);
    assert FrameCount(fed, cfg) == FrameCount(earlier, cfg) + cfg.outputRate * outputFrames;
    QuotientShift(FrameCount(fed, cfg), outputFrames, cfg.outputRate);
  }

  lemma PeriodProduct(outputFrames: nat, inputRate: nat, outputRate: nat)
    ensures At(At(outputFrames, inputRate), outputRate) == outputFrames * outputRate * inputRate
  {
  }

  /** So whatever is pending at some time is pending within the first of those periods. */
  lemma {:induction false} PendingRecurs(fed: nat, outputFrames: nat, cfg: Config) returns (early: nat)
    requires cfg.Valid() && outputFrames > 0
    ensures early <= At(outputFrames, cfg.inputRate)
    ensures FrameCount(early, cfg) % outputFrames == FrameCount(fed, cfg) % outputFrames
    decreases fed
  {
    if fed <= At(outputFrames, cfg.inputRate) {
      early := fed;
    } else {
      AtOrder(1, outputFrames, cfg.inputRate);
      AtStep(0, cfg.inputRate);
      CountIsPeriodic(fed, outputFrames, cfg);
      early := PendingRecurs(fed - At(outputFrames, cfg.inputRate), outputFrames, cfg);
    }
  }

  /** The exact condition, which takes finitely many checks: the reservation holds in every run if
      and only if it holds for the largest input at every count of source frames up to the product
      of a packet and the input rate. */
  lemma SufficientIff(outputFrames: nat, cfg: Config)
    requires cfg.Valid() && outputFrames > 0
    ensures Sufficient(outputFrames, cfg) <==>
      forall fed: nat, inputFrames: nat | fed <= At(outputFrames, cfg.inputRate) ::
        !Outgrows(fed, inputFrames, outputFrames, cfg)
    ensures OutputCapacity(At(PacketInput(outputFrames, cfg), cfg.channels), cfg).Some? ==>
      (Sufficient(outputFrames, cfg) <==>
        forall fed: nat | fed <= At(outputFrames, cfg.inputRate) ::
          FrameCount(fed, cfg) % outputFrames + At(PacketInput(outputFrames, cfg), cfg.outputRate) / cfg.inputRate
          <= 2 * outputFrames)
  {
    hide At, PacketInput, FrameCount, OutputCapacity;
    var largest := PacketInput(outputFrames, cfg);
    forall fed: nat, inputFrames: nat | Outgrows(fed, inputFrames, outputFrames, cfg)
      ensures exists early: nat ::
        && early <= At(outputFrames, cfg.inputRate) && Outgrows(early, inputFrames, outputFrames, cfg)
        && Request(FrameCount(early, cfg) % outputFrames, largest, cfg) > 2 * outputFrames + 2
    {
      var early := PendingRecurs(fed, outputFrames, cfg);
      RequestGrows(FrameCount(early, cfg) % outputFrames, inputFrames, largest, cfg);
      assert Outgrows(early, inputFrames, outputFrames, cfg);
    }
    if OutputCapacity(At(largest, cfg.channels), cfg).Some? {
      forall fed: nat
        ensures Outgrows(fed, largest, outputFrames, cfg) <==>
          FrameCount(fed, cfg) % outputFrames + At(largest, cfg.outputRate) / cfg.inputRate > 2 * outputFrames
      {
      }
    }
  }

  lemma RequestGrows(pendingFrames: nat, inputFrames: nat, more: nat, cfg: Config)
    requires cfg.Valid() && inputFrames <= more
    ensures Request(pendingFrames, inputFrames, cfg) <= Request(pendingFrames, more, cfg)
  {
    AtOrder(inputFrames, more, cfg.outputRate);
    QuotientMonotone(At(inputFrames, cfg.outputRate), At(more, cfg.outputRate), cfg.inputRate);
  }

  /** Steady rates are enough. */
  lemma SteadySuffices(outputFrames: nat, cfg: Config)
    requires cfg.Valid() && outputFrames > 0 && Steady(outputFrames, cfg)
    ensures Sufficient(outputFrames, cfg)
  {
    hide At, PacketInput, FrameCount, OutputCapacity;
    forall fed: nat, inputFrames: nat
      ensures !Outgrows(fed, inputFrames, outputFrames, cfg)
    {
      if inputFrames <= PacketInput(outputFrames, cfg) {
        RequestGrows(FrameCount(fed, cfg) % outputFrames, inputFrames, PacketInput(outputFrames, cfg), cfg);
      }
    }
  }

  /** They are not needed: from 2 to 15 in packets of five frames, the pending frames alternate
      between one and three. */
  lemma UnsteadyCanSuffice()
    ensures !Steady(5, Config(2, 15, 1)) && Sufficient(5, Config(2, 15, 1))
  {
    var cfg := Config(2, 15, 1);
    forall fed: nat | fed <= At(5, 2)
      ensures FrameCount(fed, cfg) % 5 <= 3
    {
      if fed > 0 {
        assert FrameCount(fed, cfg) == (fed - 1) * 15 / 2 + 1;
      }
    }
    SufficientIff(5, cfg);
  }

  /** Upsampling fourfold into packets of two frames is not enough: with the one frame that the
      first source frame leaves pending, the next source frame asks for more than was reserved. */
  lemma UnsteadyRatesOutgrow()
    ensures !Sufficient(2, Config(1, 4, 1)) && Outgrows(1, 1, 2, Config(1, 4, 1))
  {
    assert FrameCount(1, Config(1, 4, 1)) == 1;
    assert Outgrows(1, 1, 2, Config(1, 4, 1));
  }

  /** In samples: what a call asks the pending vector to hold. */
  lemma RequestInSamples(pendingSamples: nat, outputFrames: nat, inputSamples: nat, cfg: Config)
    requires cfg.Valid() && Whole(pendingSamples, cfg.channels) && pendingSamples < At(outputFrames, cfg.channels)
    requires OutputCapacity(inputSamples, cfg).Some?
    ensures pendingSamples + OutputCapacity(inputSamples, cfg).value
      == At(Request(Total(pendingSamples, cfg.channels), Total(inputSamples, cfg.channels), cfg), cfg.channels)
  {
    hide Whole, At;
    var pendingFrames, inputFrames := Total(pendingSamples, cfg.channels), Total(inputSamples, cfg.channels);
    PendingFrames(pendingSamples, outputFrames, cfg.channels);
    CapacityIs(inputSamples, cfg);
    AtAdd(pendingFrames, Request(0, inputFrames, cfg), cfg.channels);
  }

  /** Whether a call is answered depends on its number of frames only. */
  lemma CapacityOfFrames(inputSamples: nat, cfg: Config)
    requires cfg.Valid()
    ensures OutputCapacity(At(Total(inputSamples, cfg.channels), cfg.channels), cfg) == OutputCapacity(inputSamples, cfg)
  {
    ExactQuotient(inputSamples / cfg.channels, cfg.channels);
  }

  lemma SufficientFits(fed: nat, inputSamples: nat, outputFrames: nat, cfg: Config)
    requires cfg.Valid() && outputFrames > 0 && Sufficient(outputFrames, cfg)
    requires Total(inputSamples, cfg.channels) <= PacketInput(outputFrames, cfg) && OutputCapacity(inputSamples, cfg).Some?
    ensures At(Request(FrameCount(fed, cfg) % outputFrames, Total(inputSamples, cfg.channels), cfg), cfg.channels)
      <= At(2 * outputFrames + 2, cfg.channels)
  {
    hide At, Total, PacketInput, FrameCount, OutputCapacity, Request;
    CapacityOfFrames(inputSamples, cfg);
    assert !Outgrows(fed, Total(inputSamples, cfg.channels), outputFrames, cfg);
    AtOrder(Request(FrameCount(fed, cfg) % outputFrames, Total(inputSamples, cfg.channels), cfg),
      2 * outputFrames + 2, cfg.channels);
  }

  lemma SmallerIsAnswered(fewer: nat, more: nat, cfg: Config)
    requires cfg.Valid() && fewer <= more && OutputCapacity(At(more, cfg.channels), cfg).Some?
    ensures OutputCapacity(At(fewer, cfg.channels), cfg).Some?
  {
    ExactQuotient(fewer, cfg.channels);
    ExactQuotient(more, cfg.channels);
    MultiplesApart(fewer, more, cfg.outputRate);
    QuotientMonotone(fewer * cfg.outputRate, more * cfg.outputRate, cfg.inputRate);
    MultiplesApart(fewer * cfg.outputRate / cfg.inputRate + 2, more * cfg.outputRate / cfg.inputRate + 2, cfg.channels);
  }

  /** What is left of whole packets is the remainder of everything emitted. */
  lemma PendingIsRemainder(delivered: nat, pendingSamples: nat, emitted: nat, outputFrames: nat, channels: nat)
    requires outputFrames > 0 && channels > 0 && At(outputFrames, channels) > 0
    requires Whole(delivered, At(outputFrames, channels)) && pendingSamples < At(outputFrames, channels)
    requires Total(delivered, channels) + Total(pendingSamples, channels) == emitted
    ensures Total(pendingSamples, channels) == emitted % outputFrames
  {
    var packets := delivered / At(outputFrames, channels);
    assert delivered == packets * outputFrames * channels;
    ExactQuotient(packets * outputFrames, channels);
    AtMostQuotient(outputFrames, pendingSamples, channels);
    QuotientIs(emitted, outputFrames, packets);
  }

  lemma PendingFrames(pendingSamples: nat, outputFrames: nat, channels: nat)
    requires channels > 0 && Whole(pendingSamples, channels) && pendingSamples < At(outputFrames, channels)
    ensures pendingSamples == At(Total(pendingSamples, channels), channels)
    ensures Total(pendingSamples, channels) < outputFrames
  {
  }

  lemma CapacityIs(inputSamples: nat, cfg: Config)
    requires cfg.Valid() && OutputCapacity(inputSamples, cfg).Some?
    ensures OutputCapacity(inputSamples, cfg).value == At(Request(0, Total(inputSamples, cfg.channels), cfg), cfg.channels)
  {
  }

  /** In samples: one retained frame and a packet-sized input fit the input reservation. */
  lemma InputFits(bufferedSamples: nat, inputSamples: nat, frames: nat, channels: nat)
    requires channels > 0 && Whole(bufferedSamples, channels) && Whole(inputSamples, channels)
    requires Total(bufferedSamples, channels) <= 1 && Total(inputSamples, channels) <= frames
    ensures bufferedSamples + inputSamples <= At(frames + 2, channels)
  {
  }

  class FixedFrameAudioResampler {
    const resampler: StreamingLinearResampler
    const outputSamples: nat
    const pending: Vec<real>
    ghost const outputFrames: nat
    ghost var delivered: seq<real>  // everything handed out in packets so far

    ghost predicate Valid()
      reads this, pending, resampler, resampler.buffered
    {
      && resampler.Valid() && pending.Valid() && pending != resampler.buffered
      && outputFrames > 0 && outputSamples == At(outputFrames, resampler.channels)
      && |pending.items| < outputSamples && Whole(|delivered|, outputSamples)
      && Whole(|delivered|, resampler.channels) && Whole(|pending.items|, resampler.channels)
      && Frames(delivered, resampler.channels) + Frames(pending.items, resampler.channels)
         == Resample(resampler.source, resampler.config)
      && At(2 * outputFrames + 2, resampler.channels) <= pending.capacity
      && At(PacketInput(outputFrames, resampler.config) + 2, resampler.channels) <= resampler.buffered.capacity
    }

    constructor (resampler: StreamingLinearResampler, pending: Vec<real>, ghost outputFrames: nat, sizes: Sizes)
      requires resampler.Valid() && resampler.source == []
      requires pending.Valid() && pending.items == [] && pending != resampler.buffered
      requires Plan(resampler.config, outputFrames) == Ok(sizes)
      requires sizes.pendingCapacity <= pending.capacity && sizes.inputCapacity <= resampler.buffered.capacity
      ensures Valid() && delivered == [] && this.outputFrames == outputFrames
      ensures this.resampler == resampler && this.pending == pending
    {
      hide Plan, Whole, Total, At, PacketInput, Resample, FrameCount, Frames, Position, Consumed, Interpolate;
      PlanSizes(resampler.config, outputFrames);
      NothingFed(resampler.config);
      AtStep(0, resampler.channels);
      AtOrder(1, outputFrames, resampler.channels);
      TotalStep(0, sizes.outputSamples);
      this.resampler := resampler;
      this.pending := pending;
      this.outputFrames := outputFrames;
      outputSamples := sizes.outputSamples;
      delivered := [];
    }

    static method New(config: Config, outputFrames: nat) returns (r: Result<FixedFrameAudioResampler, ResamplerError>)
      ensures r.Ok? <==> Constructible(config, outputFrames)
      ensures r.Err? ==> r.error == Plan(config, outputFrames).error
      ensures r.Ok? ==> r.value.Valid() && r.value.delivered == [] && r.value.pending.items == []
      ensures r.Ok? ==> r.value.resampler.source == [] && r.value.resampler.config == config
      ensures r.Ok? ==> r.value.outputFrames == outputFrames
      ensures r.Ok? ==> r.value.pending.capacity == Plan(config, outputFrames).value.pendingCapacity
      ensures r.Ok? ==> fresh(r.value) && fresh(r.value.pending) && fresh(r.value.resampler) && fresh(r.value.resampler.buffered)
    {
      hide Plan, Whole, Total, At, PacketInput, Resample, FrameCount, Frames, Position, Consumed, Interpolate,
        Constructible;
      PlanIff(config, outputFrames);
      var plan := Plan(config, outputFrames);
      if plan.Err? {
        return Err(plan.error);
      }
      PlanSizes(config, outputFrames);
      var backend := new StreamingLinearResampler(config);
      backend.buffered.Reserve(plan.value.inputCapacity);
      var pending := new Vec.WithCapacity(plan.value.pendingCapacity);
      var made := new FixedFrameAudioResampler(backend, pending, outputFrames, plan.value);
      return Ok(made);
    }

    /** Resamples the input and hands out every complete packet. Everything handed out followed
        by what is pending is always the resampling of everything fed in. */
    method ProcessWith(input: seq<real>) returns (status: Result<(), ResamplerError>, packets: seq<seq<real>>)
      requires Valid()
      modifies this, pending, resampler, resampler.buffered
      ensures Valid()
      ensures status.Err? <==> !Whole(|input|, resampler.channels) || OutputCapacity(|input|, resampler.config).None?
      ensures status.Err? ==>
        packets == [] && unchanged(this) && unchanged(pending) && unchanged(resampler) && unchanged(resampler.buffered)
      ensures status.Ok? ==> resampler.source == old(resampler.source) + Frames(input, resampler.channels)
      ensures delivered == old(delivered) + Concat(packets)
      ensures forall i :: 0 <= i < |packets| ==> |packets[i]| == outputSamples
      ensures status.Ok? ==>
        pending.capacity == Grown(old(pending.capacity),
          At(Request(FrameCount(|old(resampler.source)|, resampler.config) % outputFrames,
                     Total(|input|, resampler.channels), resampler.config), resampler.channels))
      ensures Total(|input|, resampler.channels) <= PacketInput(outputFrames, resampler.config) ==>
        && resampler.buffered.capacity == old(resampler.buffered.capacity)
        && (Sufficient(outputFrames, resampler.config) ==> pending.capacity == old(pending.capacity))
    {
      hide Whole, Total, At, PacketInput, Resample, OutputCapacity, ValidateInput, Consumed, Position, FrameCount,
        Frames, Concat, Sufficient, Request;
      packets := [];
      ConcatSnoc<real>([], []);
      ghost var emitted: seq<real>;
      SameStreamSameState(resampler, resampler);
      PendingIsRemainder(|delivered|, |pending.items|, FrameCount(|resampler.source|, resampler.config),
        outputFrames, resampler.channels);
      ghost var fed := |resampler.source|;
      status, emitted := resampler.ProcessInto(input, pending);
      if status.Err? {
        return;
      }
      RequestInSamples(|old(pending.items)|, outputFrames, |input|, resampler.config);
      if Total(|input|, resampler.channels) <= PacketInput(outputFrames, resampler.config) {
        InputFits(|old(resampler.buffered.items)|, |input|,
          PacketInput(outputFrames, resampler.config), resampler.channels);
        if Sufficient(outputFrames, resampler.config) {
          SufficientFits(fed, |input|, outputFrames, resampler.config);
        }
      }
      FramesAppend(old(pending.items), emitted, resampler.channels);
      packets := CutPackets();
    }

    /** Takes the complete packets off the front of the pending samples. */
    method CutPackets() returns (packets: seq<seq<real>>)
      requires outputFrames > 0 && resampler.channels > 0 && outputSamples == At(outputFrames, resampler.channels)
      requires outputSamples > 0 && Whole(|delivered|, outputSamples)
      requires pending.Valid() && Whole(|delivered|, resampler.channels) && Whole(|pending.items|, resampler.channels)
      modifies this`delivered, pending
      ensures pending.Valid() && pending.capacity == old(pending.capacity)
      ensures delivered == old(delivered) + Concat(packets)
      ensures forall i :: 0 <= i < |packets| ==> |packets[i]| == outputSamples
      ensures |pending.items| < outputSamples && Whole(|delivered|, outputSamples)
      ensures Whole(|delivered|, resampler.channels) && Whole(|pending.items|, resampler.channels)
      ensures Frames(delivered, resampler.channels) + Frames(pending.items, resampler.channels)
        == Frames(old(delivered), resampler.channels) + Frames(old(pending.items), resampler.channels)
    {
      hide At, Whole, Total, Frames, Concat;
      PacketsAreWholeFrames(|pending.items|, outputFrames, resampler.channels);
      ConcatSnoc<real>([], []);
      var complete := CompleteSamples(|pending.items|, outputSamples);
      packets := [];
      var start := 0;
      while start < complete
        invariant delivered == old(delivered) && unchanged(pending)
        invariant start <= complete <= |pending.items| && Whole(complete - start, outputSamples)
        invariant Concat(packets) == pending.items[..start]
        invariant forall i :: 0 <= i < |packets| ==> |packets[i]| == outputSamples
      {
        TotalStep(complete - start, outputSamples);
        var packet := pending.items[start..start + outputSamples];
        ConcatSnoc(packets, packet);
        packets := packets + [packet];
        start := start + outputSamples;
      }
      ghost var head, rest := pending.items[..complete], pending.items[complete..];
      assert pending.items == head + rest;
      FramesAppend(head, rest, resampler.channels);
      FramesAppend(delivered, head, resampler.channels);
      WholeCombine(|delivered|, |head|, outputSamples);
      delivered := delivered + head;
      pending.Drain(complete);
    }
  }

  lemma PacketsAreWholeFrames(samples: nat, outputFrames: nat, channels: nat)
    requires outputFrames > 0 && channels > 0
    ensures At(outputFrames, channels) > 0
    ensures Whole(CompleteSamples(samples, At(outputFrames, channels)), channels)
  {
    var packets := samples / At(outputFrames, channels);
    assert packets * (outputFrames * channels) == (packets * outputFrames) * channels;
    ExactQuotient(packets * outputFrames, channels);
  }

  /** And when the condition fails, a run shows it: fed one frame at a time up to the count at which
      it fails, and then the input that is too much, a new packetizer has to grow its memory. */
  method OutgrowingRun(config: Config, outputFrames: nat, fed: nat, inputFrames: nat) returns (reserved: nat, needed: nat)
    requires Plan(config, outputFrames).Ok? && outputFrames > 0 && config.Valid()
    requires Outgrows(fed, inputFrames, outputFrames, config)
    ensures reserved == Plan(config, outputFrames).value.pendingCapacity < needed
  {
    hide Plan, Constructible, Whole, Total, At, PacketInput, Resample, OutputCapacity, FrameCount, Frames, Concat,
      Sufficient, Request;
    PlanSizes(config, outputFrames);
    PlanIff(config, outputFrames);
    OneFrameIsAnswered(fed, inputFrames, outputFrames, config);
    var made := FixedFrameAudioResampler.New(config, outputFrames);
    var packetizer := made.value;
    reserved := packetizer.pending.capacity;
    for i := 0 to fed
      invariant packetizer.Valid() && packetizer.resampler.config == config && packetizer.outputFrames == outputFrames
      invariant fresh(packetizer) && fresh(packetizer.pending)
      invariant fresh(packetizer.resampler) && fresh(packetizer.resampler.buffered)
      invariant |packetizer.resampler.source| == i && reserved <= packetizer.pending.capacity
    {
      var silence := seq(config.channels, _ => 0.0);
      SilentFrames(1, config.channels);
      var status, _ := packetizer.ProcessWith(silence);
    }
    SilentFrames(inputFrames, config.channels);
    var last := seq(inputFrames * config.channels, _ => 0.0);
    var status, _ := packetizer.ProcessWith(last);
    needed := packetizer.pending.capacity;
    AtOrder(2 * outputFrames + 2, Request(FrameCount(fed, config) % outputFrames, inputFrames, config), config.channels);
  }

  lemma SilentFrames(frames: nat, channels: nat)
    requires channels > 0
    ensures frames * channels == At(frames, channels) && At(1, channels) == channels
    ensures Whole(At(frames, channels), channels) && Total(At(frames, channels), channels) == frames
  {
    ExactQuotient(frames, channels);
  }

  lemma OneFrameIsAnswered(fed: nat, inputFrames: nat, outputFrames: nat, cfg: Config)
    requires cfg.Valid() && outputFrames > 0 && Outgrows(fed, inputFrames, outputFrames, cfg)
    ensures inputFrames >= 1 && OutputCapacity(At(1, cfg.channels), cfg).Some?
  {
    if inputFrames > 0 {
      SmallerIsAnswered(1, inputFrames, cfg);
    }
  }
}
