/** Interleaved audio: a flat list of samples is a list of frames of `width` samples each. */
module Interleaved {
  import opened Prelude

  type Frame = seq<real>

  predicate Whole(samples: nat, width: nat)
    requires width > 0
  {
    samples % width == 0
  }

  function Total(samples: nat, width: nat): nat
    requires width > 0
  {
    samples / width
  }

  lemma TotalStep(samples: nat, width: nat)
    requires width > 0
    ensures samples < width ==> Total(samples, width) == 0 && (Whole(samples, width) <==> samples == 0)
    ensures samples >= width ==>
      Total(samples, width) == Total(samples - width, width) + 1 && Whole(samples, width) == Whole(samples - width, width)
  {
    if samples < width {
      QuotientIs(samples, width, 0);
    } else {
      QuotientShift(samples, width, 1);
    }
  }

  lemma {:induction false} TotalAdd(a: nat, b: nat, width: nat)
    requires width > 0 && Whole(a, width)
    ensures Total(a + b, width) == Total(a, width) + Total(b, width)
    ensures Whole(a + b, width) <==> Whole(b, width)
    decreases a
  {
    hide Whole, Total;
    TotalStep(a, width);
    TotalStep(a + b, width);
    if a >= width {
      TotalAdd(a - width, b, width);
    }
  }

  /** The samples that make up complete packets. */
  function CompleteSamples(samples: nat, packet: nat): (r: nat)
    requires packet > 0
    ensures r <= samples < r + packet && Whole(r, packet)
  {
    ExactQuotient(samples / packet, packet);
    samples / packet * packet
  }

  lemma WholeCombine(a: nat, b: nat, width: nat)
    requires width > 0 && Whole(a, width) && Whole(b, width)
    ensures Whole(a + b, width)
    ensures a >= b ==> Whole(a - b, width)
  {
    hide Whole, Total;
    TotalAdd(a, b, width);
    if a >= b {
      TotalAdd(b, a - b, width);
    }
  }

  /** The complete frames of a flat list, in order. */
  function Frames(samples: seq<real>, width: nat): (r: seq<Frame>)
    requires width > 0
    ensures |r| == Total(|samples|, width)
    ensures forall f :: 0 <= f < |r| ==> |r[f]| == width
    decreases |samples|
  {
    hide Whole, Total;
    TotalStep(|samples|, width);
    if |samples| < width then [] else [samples[..width]] + Frames(samples[width..], width)
  }

  /** Where a channel of a frame sits in the flat list. */
  function Index(frame: nat, width: nat, channel: nat): nat {
    frame * width + channel
  }

  lemma {:induction false} FramesAt(samples: seq<real>, width: nat, f: nat, channel: nat)
    requires width > 0 && f < Total(|samples|, width) && channel < width
    ensures Index(f, width, channel) < |samples|
    ensures Frames(samples, width)[f][channel] == samples[Index(f, width, channel)]
    decreases f
  {
    hide Whole, Total, Index;
    TotalStep(|samples|, width);
    IndexStep(f, width, channel);
    if f > 0 {
      FramesAt(samples[width..], width, f - 1, channel);
    }
  }

  lemma IndexStep(frame: nat, width: nat, channel: nat)
    ensures frame == 0 ==> Index(frame, width, channel) == channel
    ensures frame > 0 ==> Index(frame, width, channel) == Index(frame - 1, width, channel) + width
  {
    if frame > 0 {
      Stretch(frame - 1, 0, width);
    }
  }

  lemma {:induction false} FramesAppend(a: seq<real>, b: seq<real>, width: nat)
    requires width > 0 && Whole(|a|, width)
    ensures Frames(a + b, width) == Frames(a, width) + Frames(b, width)
    ensures Whole(|a| + |b|, width) <==> Whole(|b|, width)
    decreases |a|
  {
    hide Whole, Total;
    TotalStep(|a|, width);
    TotalAdd(|a|, |b|, width);
    if |a| < width {
      assert a + b == b;
    } else {
      FramesAppend(a[width..], b, width);
      var all := a + b;
      assert all[..width] == a[..width];
      assert all[width..] == a[width..] + b;
    }
  }

  lemma FramesOfOne(frame: Frame)
    requires |frame| > 0
    ensures Frames(frame, |frame|) == [frame] && Whole(|frame|, |frame|)
  {
    hide Whole, Total;
    TotalStep(|frame|, |frame|);
    TotalStep(0, |frame|);
    assert frame[..|frame|] == frame;
  }

  /** Dropping whole frames from the flat list drops them from the frames. */
  lemma {:induction false} FramesDrop(samples: seq<real>, width: nat, n: nat)
    requires width > 0 && n <= Total(|samples|, width) && Whole(|samples|, width)
    ensures n * width <= |samples|
    ensures Whole(|samples| - n * width, width)
    ensures Frames(samples[n * width..], width) == Frames(samples, width)[n..]
    decreases n
  {
    hide Whole, Total;
    if n > 0 {
      TotalStep(|samples|, width);
      FramesDrop(samples[width..], width, n - 1);
      assert n * width == (n - 1) * width + width;
      assert samples[width..][(n - 1) * width..] == samples[n * width..];
    } else {
      assert samples[0 * width..] == samples;
    }
  }

  /** A whole number of frames is determined by its frames: interleaving loses nothing. */
  lemma {:induction false} FramesInjective(a: seq<real>, b: seq<real>, width: nat)
    requires width > 0 && Whole(|a|, width) && Whole(|b|, width)
    requires Frames(a, width) == Frames(b, width)
    ensures a == b
    decreases |a|
  {
    hide Whole, Total;
    TotalStep(|a|, width);
    TotalStep(|b|, width);
    if |a| >= width {
      assert Frames(a, width)[0] == Frames(b, width)[0];
      assert Frames(a, width)[1..] == Frames(b, width)[1..];
      FramesInjective(a[width..], b[width..], width);
      assert a == a[..width] + a[width..] && b == b[..width] + b[width..];
    }
  }
}
