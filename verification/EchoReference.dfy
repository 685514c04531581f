/** The queue of played samples that the echo canceller takes as its reference. */
module EchoReference {
  import opened Interleaved
  import opened Prelude

  const CHUNKS_PER_SECOND: nat := 100
  const MAX_QUEUED_CHUNKS: nat := 20

  function Sum(frame: Frame): real {
    if frame == [] then 0.0 else Sum(frame[..|frame| - 1]) + frame[|frame| - 1]
  }

  /** The mono mix of the complete frames of a block. */
  function Mono(data: seq<real>, channels: nat): (r: seq<real>)
    requires channels > 0
    ensures |r| == Total(|data|, channels)
  {
    seq(Total(|data|, channels), (i: nat) requires i < Total(|data|, channels) =>
      Sum(Frames(data, channels)[i]) / channels as real)
  }

  class Playback {
    var sampleRate: nat
    var samples: seq<real>

    // Every mono sample pushed since the queue was last cleared, and how many of them, from the
    // front, had been queued before the last time the canceller took chunks off.
    ghost var pushed: seq<real>
    ghost var taken: nat

    function Chunk(): nat
      reads this
    {
      sampleRate / CHUNKS_PER_SECOND
    }

    function MaxSamples(): nat
      reads this
    {
      Chunk() * MAX_QUEUED_CHUNKS
    }

    /** The queue is the newest 20 chunks of what has not been taken yet. */
    ghost predicate Valid()
      reads this
    {
      taken <= |pushed| && samples == Last(pushed[taken..], MaxSamples())
    }

    constructor ()
      ensures Valid() && sampleRate == 0 && samples == [] && pushed == []
    {
      sampleRate, samples, pushed, taken := 0, [], [], 0;
    }

    /** Called from the output callback. It does nothing without a running canceller, without
        channels, or when the queue is in use. */
    method PushPlayback(data: seq<real>, channels: nat, rate: nat, activeCancellers: nat, locked: bool)
      requires Valid()
      modifies this
      ensures Valid()
      ensures activeCancellers == 0 || channels == 0 || locked ==> unchanged(this)
      ensures !(activeCancellers == 0 || channels == 0 || locked) ==>
        && sampleRate == rate
        && pushed == (if old(sampleRate) == rate then old(pushed) else []) + Mono(data, channels)
        && taken == (if old(sampleRate) == rate then old(taken) else 0)
        && samples == Last((if old(sampleRate) == rate then old(samples) else []) + Mono(data, channels), rate / 100 * 20)
    {
      hide Mono, Last;
      if activeCancellers == 0 || channels == 0 || locked {
        return;
      }
      if sampleRate != rate {
        sampleRate := rate;
        samples := [];
        pushed, taken := [], 0;
      }
      var mono := MixDown(data, channels);
      PushIsNewest(pushed, taken, samples, mono, MaxSamples());
      samples := samples + mono;
      pushed := pushed + mono;
      var excess := if |samples| > MaxSamples() then |samples| - MaxSamples() else 0;
      DropExcess(samples, excess, MaxSamples());
      samples := samples[excess..];
    }

    /** A new canceller starts with an empty queue. */
    method Clear()
      modifies this`samples, this`pushed, this`taken
      ensures Valid() && samples == [] && pushed == []
    {
      samples, pushed, taken := [], [], 0;
    }

    /** Takes every whole chunk off the queue, in order, and leaves less than one. */
    method TakeChunks() returns (pending: seq<real>)
      requires Valid()
      modifies this`samples, this`taken
      ensures Valid() && old(samples) == pending + samples
      ensures sampleRate / 100 == 0 ==> pending == []
      ensures sampleRate / 100 > 0 ==> |samples| < sampleRate / 100 && |pending| % (sampleRate / 100) == 0
    {
      var chunk := Chunk();
      if chunk == 0 {
        return [];
      }
      var available := CompleteSamples(|samples|, chunk);
      pending := samples[..available];
      RestIsNewest(pushed, taken, samples, available, MaxSamples());
      samples := samples[available..];
      taken := |pushed| - |samples|;
    }

    /** Hands the chunks to the processor one by one, up to and including the first that it refuses;
        the chunks after that one are dropped. `refuses` is the processor's answer to each. */
    method FeedPlayback(refuses: nat -> bool) returns (offered: seq<seq<real>>, failed: bool)
      requires Valid()
      modifies this`samples, this`taken
      ensures Valid() && Concat(offered) <= old(samples)
      ensures forall i :: 0 <= i < |offered| ==> |offered[i]| == sampleRate / 100
      ensures forall i: nat :: i < |offered| ==> (refuses(i) <==> failed && i == |offered| - 1)
      ensures failed ==> offered != []
      ensures !failed ==> Concat(offered) + samples == old(samples)
      ensures sampleRate / 100 > 0 ==> |samples| < sampleRate / 100
    {
      hide Concat, Last, Whole;
      ConcatSnoc<real>([], []);
      var pending := TakeChunks();
      if Chunk() == 0 {
        return [], false;
      }
      offered, failed := OfferBlocks(pending, Chunk(), refuses);
    }
  }

  method OfferBlocks(pending: seq<real>, chunk: nat, refuses: nat -> bool)
    returns (offered: seq<seq<real>>, failed: bool)
    requires chunk > 0 && |pending| % chunk == 0
    ensures Concat(offered) <= pending && (!failed ==> Concat(offered) == pending) && (failed ==> offered != [])
    ensures forall i :: 0 <= i < |offered| ==> |offered[i]| == chunk
    ensures forall i: nat :: i < |offered| ==> (refuses(i) <==> failed && i == |offered| - 1)
  {
    assert Whole(|pending|, chunk);
    hide Concat, Whole, Total;
    ConcatSnoc<real>([], []);
    offered, failed := [], false;
    var start := 0;
    while start < |pending|
      invariant start <= |pending| && Whole(|pending| - start, chunk) && !failed
      invariant Concat(offered) == pending[..start]
      invariant forall i :: 0 <= i < |offered| ==> |offered[i]| == chunk
      invariant forall i: nat :: i < |offered| ==> !refuses(i)
      decreases |pending| - start
    {
      TotalStep(|pending| - start, chunk);
      var block := pending[start..start + chunk];
      ConcatSnoc(offered, block);
      failed := refuses(|offered|);
      offered := offered + [block];
      start := start + chunk;
      if failed {
        return;
      }
    }
  }

  /** Each mono sample times the number of channels is the sum of the samples of its frame, and a
      sum is made of the sums of its parts. */
  lemma MonoIsMean(data: seq<real>, channels: nat, i: nat)
    requires channels > 0 && Index(i, channels, channels) <= |data| && i < Total(|data|, channels)
    ensures Mono(data, channels)[i] * channels as real == Sum(data[Index(i, channels, 0)..Index(i, channels, channels)])
  {
    hide Frames, Index, Total;
    FrameIsSlice(data, channels, i);
    TimesItself(Sum(Frames(data, channels)[i]), channels as real);
  }

  lemma FrameIsSlice(data: seq<real>, channels: nat, i: nat)
    requires channels > 0 && Index(i, channels, channels) <= |data| && i < Total(|data|, channels)
    ensures Index(i, channels, 0) <= Index(i, channels, channels)
    ensures Frames(data, channels)[i] == data[Index(i, channels, 0)..Index(i, channels, channels)]
  {
    hide Frames, Index, Total;
    IndexFrom(i, channels, channels);
    var frame, slice := Frames(data, channels)[i], data[Index(i, channels, 0)..Index(i, channels, channels)];
    forall channel: nat | channel < channels
      ensures frame[channel] == slice[channel]
    {
      IndexFrom(i, channels, channel);
      FramesAt(data, channels, i, channel);
    }
  }

  lemma IndexFrom(i: nat, channels: nat, channel: nat)
    ensures Index(i, channels, channel) == Index(i, channels, 0) + channel
  {
  }

  lemma TimesItself(sum: real, channels: real)
    requires channels > 0.0
    ensures sum / channels * channels == sum
  {
  }

  lemma {:induction false} SumOfParts(a: Frame, b: Frame, x: real)
    ensures Sum(a + b) == Sum(a) + Sum(b) && Sum([x]) == x
  {
    assert [x][..0] == [];
    if b == [] {
      assert a + b == a;
    } else {
      assert (a + b)[..|a + b| - 1] == a + b[..|b| - 1];
      SumOfParts(a, b[..|b| - 1], x);
    }
  }

  /** The mono mix, frame by frame. */
  method MixDown(data: seq<real>, channels: nat) returns (mono: seq<real>)
    requires channels > 0
    ensures mono == Mono(data, channels)
  {
    var frames := Frames(data, channels);
    mono := [];
    for i := 0 to |frames|
      invariant mono == Mono(data, channels)[..i]
    {
      var sum := SumOf(frames[i]);
      mono := mono + [sum / channels as real];
    }
  }

  /** The sum of a frame's samples, first to last. */
  method SumOf(frame: Frame) returns (sum: real)
    ensures sum == Sum(frame)
  {
    sum := 0.0;
    for i := 0 to |frame|
      invariant sum == Sum(frame[..i])
    {
      assert frame[..i + 1][..i] == frame[..i];
      sum := sum + frame[i];
    }
    assert frame[..|frame|] == frame;
  }

  lemma PushIsNewest(pushed: seq<real>, taken: nat, samples: seq<real>, mono: seq<real>, max: nat)
    requires taken <= |pushed| && samples == Last(pushed[taken..], max)
    ensures Last(samples + mono, max) == Last((pushed + mono)[taken..], max)
  {
    hide Last;
    LastOfSuffix(pushed[taken..], samples, mono, max);
    DropBeforeAppend(pushed, taken, mono);
  }

  lemma DropBeforeAppend(pushed: seq<real>, taken: nat, mono: seq<real>)
    requires taken <= |pushed|
    ensures pushed[taken..] + mono == (pushed + mono)[taken..]
  {
  }

  lemma DropExcess(samples: seq<real>, excess: nat, max: nat)
    requires excess == if |samples| > max then |samples| - max else 0
    ensures samples[excess..] == Last(samples, max)
  {
  }

  lemma RestIsNewest(pushed: seq<real>, taken: nat, samples: seq<real>, n: nat, max: nat)
    requires taken <= |pushed| && samples == Last(pushed[taken..], max) && n <= |samples|
    ensures samples[n..] == Last(pushed[|pushed| - (|samples| - n)..], max)
  {
  }
}
