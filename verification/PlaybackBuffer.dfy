/** The playback buffer: an overwriting queue of samples with a histogram of its fill levels,
    from which it decides now and then how much old audio to drop. */
module PlaybackBuffer {
  import opened Interleaved
  import opened Prelude

  const AUDIO_BUFFER_MS: nat := 3000
  const LEVELS: nat := 30
  const SHRINK_INTERVAL_MS: nat := 12000
  const SHRINK_STEPS: nat := 4
  const GENERATIONS: nat := 0x1_0000_0000_0000_0000

  /** The process-wide time of the last shrink pass; 0 means that none was due yet. */
  class ShrinkClock {
    var tms: int
    constructor ()
      ensures tms == 0
    {
      tms := 0;
    }
  }

  /** A fill level seen after an append, the samples in a second at that time, and the histogram
      bin it was counted in. */
  datatype Reading = Reading(having: nat, base: nat, level: nat)

  ghost predicate Counted(readings: seq<Reading>) {
    forall r | r in readings :: r.base > 0 && r.level == Level(r.having, r.base)
  }

  /** No reading was taken when a second had fewer samples than it has now. */
  predicate NoLowerRate(readings: seq<Reading>, base: nat) {
    forall r | r in readings :: r.base >= base
  }

  /** The tenths of a second buffered, capped at the last bin. */
  function Level(having: nat, base: nat): (r: nat)
    requires base > 0
    ensures r < LEVELS
    ensures r * base <= having * 10
    ensures r < 29 ==> having * 10 < (r + 1) * base
  {
    AtMostQuotient(having * 10 / base, having * 10, base);
    AtMostQuotient(having * 10 / base + 1, having * 10, base);
    MultiplesApart(29, having * 10 / base, base);
    if having * 10 / base > 29 then 29 else having * 10 / base
  }

  function CountLevel(readings: seq<Reading>, level: nat): nat {
    if readings == [] then 0
    else CountLevel(readings[..|readings| - 1], level) + (if readings[|readings| - 1].level == level then 1 else 0)
  }

  lemma {:induction false} CountedLevel(readings: seq<Reading>, r: Reading)
    requires r in readings
    ensures CountLevel(readings, r.level) > 0
  {
    if readings[|readings| - 1] != r {
      CountedLevel(readings[..|readings| - 1], r);
    }
  }

  lemma CountOneMore(readings: seq<Reading>, r: Reading)
    ensures forall i :: CountLevel(readings + [r], i) == CountLevel(readings, i) + (if r.level == i then 1 else 0)
  {
  }

  function Histogram(readings: seq<Reading>): (h: seq<nat>)
    ensures |h| == LEVELS
  {
    seq(LEVELS, (i: nat) => CountLevel(readings, i))
  }

  /** The number of leading empty bins. */
  ghost predicate LeadingEmpty(bins: seq<nat>, zero: nat) {
    && zero <= |bins|
    && (forall i :: 0 <= i < zero ==> bins[i] == 0)
    && (zero < |bins| ==> bins[zero] != 0)
  }

  /** The first of the fullest bins above bin 0, or 0 when all of those are empty. */
  ghost predicate Peak(bins: seq<nat>, peak: nat) {
    && (peak == 0 ==> forall i :: 1 <= i < |bins| ==> bins[i] == 0)
    && (peak != 0 ==>
          && peak < |bins| && bins[peak] > 0
          && (forall i :: 1 <= i < |bins| ==> bins[i] <= bins[peak])
          && (forall i :: 1 <= i < peak ==> bins[i] < bins[peak]))
  }

  /** The level that a pass aims at, from the number of empty bins below and the fullest bin. */
  function Mark(zero: nat, peak: nat): nat {
    var safe := zero * 2 / 3;
    if peak < 6 then 0
    else if peak > safe * SHRINK_STEPS then safe * SHRINK_STEPS
    else peak
  }

  /** The code adds one and clears the lowest bit. */
  function EvenUp(n: nat): (r: nat)
    ensures r % 2 == 0 && n <= r <= n + 1
  {
    (n + 1) / 2 * 2
  }

  /** How many samples a pass would like to drop at a level: an even count. */
  function Share(mark: nat, capacity: nat): (r: nat)
    ensures r % 2 == 0
  {
    EvenUp(capacity * mark / (LEVELS * SHRINK_STEPS))
  }

  function SkipFor(zero: nat, peak: nat, capacity: nat): (r: nat)
    ensures r % 2 == 0
  {
    Share(Mark(zero, peak), capacity)
  }

  /** How many it drops. */
  function DropFor(buffered: nat, zero: nat, peak: nat, capacity: nat): nat {
    if buffered > SkipFor(zero, peak, capacity) * 3 then SkipFor(zero, peak, capacity) else 0
  }

  // ---- The bound of two thirds ----

  /** When no reading fell into the first `zero` bins, a pass drops at most two thirds of any
      reading that was taken at the present rate or a higher one, plus one sample of rounding. */
  lemma SkipIsSafe(zero: nat, peak: nat, base: nat, having: nat, rate: nat)
    requires 0 < base <= rate && zero <= Level(having, rate)
    ensures 3 * SkipFor(zero, peak, 3 * base) <= 2 * having + 3
  {
    hide Level;
    var safe, mark := zero * 2 / 3, Mark(zero, peak);
    assert mark <= 4 * safe;
    Scaled(mark, 4 * safe, base);
    Scaled(3 * safe, 2 * zero, base);
    Scaled(zero, Level(having, rate), rate);
    Rated(zero, base, rate);
    hide Mark;
    ShareIsSafe(mark, safe, zero, base, having);
  }

  lemma SkipIsSafeForAll(readings: seq<Reading>, base: nat, zero: nat, peak: nat)
    requires base > 0 && LeadingEmpty(Histogram(readings), zero)
    requires Counted(readings) && NoLowerRate(readings, base)
    ensures forall r | r in readings :: 3 * SkipFor(zero, peak, 3 * base) <= 2 * r.having + 3
  {
    hide Level, SkipFor;
    forall r | r in readings
      ensures 3 * SkipFor(zero, peak, 3 * base) <= 2 * r.having + 3
    {
      CountedLevel(readings, r);
      assert Histogram(readings)[r.level] == CountLevel(readings, r.level);
      SkipIsSafe(zero, peak, base, r.having, r.base);
    }
  }

  lemma Rated(zero: nat, base: nat, rate: nat)
    requires base <= rate
    ensures zero * base <= zero * rate
  {
  }

  lemma Scaled(a: nat, b: nat, base: nat)
    requires a <= b
    ensures a * base <= b * base
  {
  }

  lemma ShareIsSafe(mark: nat, safe: nat, zero: nat, base: nat, having: nat)
    requires mark * base <= (4 * safe) * base && (3 * safe) * base <= (2 * zero) * base && zero * base <= having * 10
    ensures 3 * Share(mark, 3 * base) <= 2 * having + 3
  {
  }

  // ---- The amount ----

  /** What a pass drops, from the number of empty bins below, the fullest bin and the samples
      buffered: about a fortieth of a second for each step of the smaller of the fullest bin and
      four times two thirds of the empty ones, when more than three times as much is buffered. */
  ghost predicate Amount(zero: nat, peak: nat, buffered: nat, base: nat, dropped: nat) {
    if peak < 6 || zero < 2 then dropped == 0
    else
      var safe := 4 * (2 * zero / 3);
      About(if peak <= safe then peak else safe, buffered, base, dropped)
  }

  ghost predicate About(mark: nat, buffered: nat, base: nat, dropped: nat) {
    exists d: nat ::
      && d % 2 == 0 && base * mark < 40 * d + 40 && 40 * d <= base * mark + 40
      && dropped == if buffered > 3 * d then d else 0
  }

  lemma AmountIs(zero: nat, peak: nat, buffered: nat, base: nat)
    ensures Amount(zero, peak, buffered, base, DropFor(buffered, zero, peak, 3 * base))
  {
    hide Share;
    SkipRounds(Mark(zero, peak), base);
    if peak >= 6 && zero >= 2 {
      var d := Share(Mark(zero, peak), 3 * base);
      assert d % 2 == 0 && DropFor(buffered, zero, peak, 3 * base) == if buffered > 3 * d then d else 0;
    }
  }

  // ---- The promise to leave less than 600 ms alone ----

  /** Whether a pass that found these two bins drops samples while less than 600 ms are buffered. */
  ghost predicate DropsBelow600ms(zero: nat, peak: nat, base: nat) {
    exists buffered: nat :: 10 * buffered < 6 * base && DropFor(buffered, zero, peak, 3 * base) > 0
  }

  /** The bins for which it never does, at 54 samples a second or more. The end of the last case is
      about rates that five does not divide, where rounding to an even count can let a pass drop
      at the very last sample below 600 ms. */
  predicate KeepsPromise(zero: nat, peak: nat, base: nat) {
    || peak < 6
    || zero < 2
    || (peak >= 8 && zero >= 3 && (base % 5 < 2 || base / 5 % 2 == 1 || (peak > 8 && zero > 4)))
  }

  /** A pass can break the promise exactly when the fullest bin is at 600 ms or above, nothing was
      seen below 200 ms, and either something was seen below 300 ms or the fullest bin is below
      800 ms. Below 54 samples a second, rounding leaves only the condition on the amount. */
  lemma PromiseKeptIff(zero: nat, peak: nat, base: nat)
    requires base > 0
    ensures DropsBelow600ms(zero, peak, base) <==>
      0 < SkipFor(zero, peak, 3 * base) && 30 * SkipFor(zero, peak, 3 * base) + 10 < 6 * base
    ensures base >= 54 ==> (DropsBelow600ms(zero, peak, base) <==> !KeepsPromise(zero, peak, base))
  {
    var skip := SkipFor(zero, peak, 3 * base);
    if 0 < skip && 30 * skip + 10 < 6 * base {
      assert DropFor(3 * skip + 1, zero, peak, 3 * base) > 0;
    }
    if base >= 54 {
      SmallSkipIff(Mark(zero, peak), base);
      SmallMark(zero, peak);
    }
  }

  lemma SmallMark(zero: nat, peak: nat)
    ensures 0 < Mark(zero, peak) < 8 <==> peak >= 6 && zero >= 2 && (zero == 2 || peak <= 7)
    ensures Mark(zero, peak) == 8 <==> peak >= 8 && zero >= 3 && (zero <= 4 || peak == 8)
  {
  }

  /** The amount is a fortieth of the mark times the rate, rounded to an even count; with a rate
      divisible by 80 nothing is rounded. */
  lemma SkipRounds(mark: nat, base: nat)
    ensures 40 * Share(mark, 3 * base) <= base * mark + 40 && base * mark < 40 * Share(mark, 3 * base) + 40
    ensures base % 80 == 0 ==> 40 * Share(mark, 3 * base) == base * mark
  {
    var product := base * mark;
    assert 3 * base * mark == 3 * product;
    assert 3 * product / 120 == product / 40;
    if base % 80 == 0 {
      var k := base / 80;
      assert product == 80 * (k * mark);
    }
  }

  lemma SmallSkipIff(mark: nat, base: nat)
    requires base >= 54
    ensures (0 < Share(mark, 3 * base) && 30 * Share(mark, 3 * base) + 10 < 6 * base)
      <==> 0 < mark < 8 || (mark == 8 && base % 5 >= 2 && base / 5 % 2 == 0)
  {
    hide Share;
    if mark == 0 {
      SkipRounds(0, base);
    } else if mark == 8 {
      ShareOfEight(base);
    } else {
      SkipRounds(mark, base);
      MultiplesApart(1, mark, base);
      MultiplesApart(mark, 7, base);
      MultiplesApart(9, mark, base);
      AwayFromEight(mark, base, base * mark, Share(mark, 3 * base));
    }
  }

  lemma ShareOfEight(base: nat)
    requires base >= 54
    ensures Share(8, 3 * base) == base / 5 + base / 5 % 2
    ensures (0 < Share(8, 3 * base) && 30 * Share(8, 3 * base) + 10 < 6 * base)
      <==> base % 5 >= 2 && base / 5 % 2 == 0
  {
    assert 3 * base * 8 / 120 == base / 5;
  }

  lemma AwayFromEight(mark: nat, base: nat, product: nat, skip: nat)
    requires base >= 54 && 40 * skip <= product + 40 && product < 40 * skip + 40
    requires 0 < mark < 8 ==> base <= product <= 7 * base
    requires mark > 8 ==> 9 * base <= product
    requires 0 < mark != 8
    ensures 0 < skip && (30 * skip + 10 < 6 * base <==> mark < 8)
  {
  }

  // ---- The buffer ----

  /** Nothing is reordered or repeated: what was appended is what was gone before the generation
      last moved, then what was read since, then what is buffered. */
  ghost predicate Conserved(appended: seq<real>, gone: seq<real>, consumed: seq<real>, pcm: seq<real>) {
    appended == gone + consumed + pcm
  }

  lemma AppendConserves(appended: seq<real>, gone: seq<real>, consumed: seq<real>, pcm: seq<real>,
                        more: seq<real>, lost: nat)
    requires Conserved(appended, gone, consumed, pcm) && lost <= |pcm + more|
    ensures Conserved(appended + more, gone, consumed, pcm + more)
    ensures Conserved(appended + more, gone + consumed + (pcm + more)[..lost], [], (pcm + more)[lost..])
  {
  }

  lemma ReadConserves(appended: seq<real>, gone: seq<real>, consumed: seq<real>, pcm: seq<real>, n: nat)
    requires Conserved(appended, gone, consumed, pcm) && n <= |pcm|
    ensures Conserved(appended, gone, consumed + pcm[..n], pcm[n..])
    ensures Conserved(appended, gone + consumed + pcm[..n], [], pcm[n..])
  {
  }

  /** So the buffer is always the newest part of what was appended. */
  lemma BufferIsSuffix(b: AudioBuffer)
    requires b.Valid()
    ensures |b.pcm| <= |b.appended| && b.pcm == Last(b.appended, |b.pcm|)
    ensures b.consumed + b.pcm == Last(b.appended, |b.consumed| + |b.pcm|)
  {
    assert b.appended == b.gone + (b.consumed + b.pcm);
  }

  /** Whole frames in keep every boundary, and so every overwrite, between frames. */
  lemma AppendAligns(capacity: nat, buffered: nat, appended: nat, more: nat, channels: nat)
    requires channels > 0
    requires Whole(capacity, channels) && Whole(buffered, channels) && Whole(appended, channels) && Whole(more, channels)
    ensures Whole(buffered + more, channels) && Whole(appended + more, channels)
    ensures buffered + more >= capacity ==> Whole(buffered + more - capacity, channels)
    ensures appended + more >= capacity ==> Whole(appended + more - capacity, channels)
    ensures Whole(0, channels)
  {
    hide Whole;
    WholeCombine(buffered, more, channels);
    WholeCombine(appended, more, channels);
    WholeCombine(buffered + more, capacity, channels);
    WholeCombine(appended + more, capacity, channels);
    WholeCombine(more, more, channels);
  }

  /** What a pass drops, given what it has seen: the first non-empty and the fullest bin decide. */
  ghost predicate Decides(seen: seq<Reading>, zero: nat, peak: nat, buffered: nat, base: nat, dropped: nat) {
    && LeadingEmpty(Histogram(seen), zero) && Peak(Histogram(seen), peak)
    && dropped == DropFor(buffered, zero, peak, 3 * base)
    && Amount(zero, peak, buffered, base, dropped)
    && (base >= 54 && KeepsPromise(zero, peak, base) && dropped > 0 ==> 10 * buffered >= 6 * base)
  }

  lemma PassDecides(seen: seq<Reading>, zero: nat, peak: nat, buffered: nat, base: nat)
    requires base > 0 && LeadingEmpty(Histogram(seen), zero) && Peak(Histogram(seen), peak)
    ensures Decides(seen, zero, peak, buffered, base, DropFor(buffered, zero, peak, 3 * base))
  {
    hide LeadingEmpty, Peak, Histogram, KeepsPromise, Amount;
    AmountIs(zero, peak, buffered, base);
    PromiseKeptIff(zero, peak, base);
  }

  class AudioBuffer {
    var pcm: seq<real>
    var capacity: nat
    var base: nat            // samples in a second
    const bins: array<nat>
    var generation: nat

    // Everything appended to the current ring, what of it had left the buffer when the generation
    // last moved, and what has been read since.
    ghost var appended: seq<real>
    ghost var gone: seq<real>
    ghost var consumed: seq<real>
    ghost var readings: seq<Reading>  // the fill levels seen since the last pass

    ghost predicate Valid()
      reads this, bins
    {
      && base > 0 && capacity == 3 * base && |pcm| <= capacity
      && generation < GENERATIONS
      && bins.Length == LEVELS
      && (forall i :: 0 <= i < LEVELS ==> bins[i] == CountLevel(readings, i))
      && Counted(readings)
      && Conserved(appended, gone, consumed, pcm)
    }

    /** Every boundary in the stream falls between frames. */
    ghost predicate Aligned(channels: nat)
      requires channels > 0
      reads this
    {
      Whole(capacity, channels) && Whole(|pcm|, channels) && Whole(|appended|, channels) && Whole(|gone|, channels)
    }

    constructor ()
      ensures Valid() && pcm == [] && base == 48000 * 2 && capacity == 48000 * 2 * AUDIO_BUFFER_MS / 1000
      ensures generation == 0 && appended == [] && readings == [] && fresh(bins)
      ensures Aligned(1) && Aligned(2)
    {
      pcm := [];
      capacity := 48000 * 2 * AUDIO_BUFFER_MS / 1000;
      base := 48000 * 2;
      bins := new nat[LEVELS](_ => 0);
      generation := 0;
      appended, gone, consumed := [], [], [];
      readings := [];
    }

    /** A ring of another size starts empty; the same size keeps everything. */
    method Resize(sampleRate: nat, channels: nat)
      requires Valid() && sampleRate * channels > 0
      modifies this
      ensures Valid() && base == sampleRate * channels && generation == old(generation)
      ensures base == old(base) ==> unchanged(this)
      ensures base != old(base) ==> pcm == [] && appended == [] && readings == old(readings)
    {
      var newCapacity := sampleRate * channels * AUDIO_BUFFER_MS / 1000;
      if newCapacity != capacity {
        pcm := [];
        capacity := newCapacity;
        base := sampleRate * channels;
        appended, gone, consumed := [], [], [];
      }
    }

    method SignalDiscontinuity()
      modifies this`generation
      ensures generation == (old(generation) + 1) % GENERATIONS
    {
      generation := (generation + 1) % GENERATIONS;
    }

    /** Appends, keeping the newest `capacity` samples; losing any moves the generation. */
    method AppendPcm2(buffer: seq<real>) returns (occupied: nat, ghost discarded: nat)
      requires Valid()
      modifies this`pcm, this`generation, this`appended, this`gone, this`consumed
      ensures Valid() && occupied == |pcm| && appended == old(appended) + buffer
      ensures pcm == Last(old(pcm) + buffer, capacity)
      ensures discarded == |old(pcm)| + |buffer| - |pcm|
      ensures generation == if discarded > 0 then (old(generation) + 1) % GENERATIONS else old(generation)
      ensures discarded == 0 ==> gone == old(gone) && consumed == old(consumed)
      ensures forall channels: nat | channels > 0 && old(Aligned(channels)) && Whole(|buffer|, channels) ::
        Aligned(channels) && Whole(discarded, channels)
    {
      hide Whole, Level, CountLevel, Conserved;
      var having := |pcm| + |buffer|;
      AppendConserves(appended, gone, consumed, pcm, buffer, if having > capacity then having - capacity else 0);
      pcm := Last(pcm + buffer, capacity);
      appended := appended + buffer;
      discarded := 0;
      if having > capacity {
        SignalDiscontinuity();
        discarded := having - capacity;
        gone, consumed := gone + consumed + (old(pcm) + buffer)[..discarded], [];
      }
      occupied := |pcm|;
      forall channels: nat | channels > 0 && old(Aligned(channels)) && Whole(|buffer|, channels)
        ensures Aligned(channels) && Whole(discarded, channels)
      {
        AppendAligns(capacity, |old(pcm)|, |old(appended)|, |buffer|, channels);
      }
    }

    /** The output callback takes whole frames off the front. */
    method ReadBuffer(requested: nat, channels: nat) returns (samples: seq<real>)
      requires Valid() && channels > 0
      modifies this`pcm, this`consumed
      ensures Valid() && old(pcm) == samples + pcm && consumed == old(consumed) + samples
      ensures |samples| == CompleteSamples(if |old(pcm)| <= requested then |old(pcm)| else requested, channels)
      ensures old(Aligned(channels)) ==> Aligned(channels)
    {
      hide Whole, Level, CountLevel, CompleteSamples, Conserved;
      var available := if |pcm| <= requested then |pcm| else requested;
      var n := CompleteSamples(available, channels);
      if Aligned(channels) {
        WholeCombine(|pcm|, n, channels);
      }
      ReadConserves(appended, gone, consumed, pcm, n);
      samples := pcm[..n];
      pcm := pcm[n..];
      consumed := consumed + samples;
    }

    /** Finds the first non-empty bin and the fullest one in a single pass that clears as it goes. */
    method ScanBins() returns (zero: nat, peak: nat)
      requires bins.Length == LEVELS
      modifies bins
      ensures LeadingEmpty(old(bins[..]), zero) && Peak(old(bins[..]), peak)
      ensures forall i :: 0 <= i < LEVELS ==> bins[i] == 0
    {
      ghost var h := bins[..];
      zero, peak := 0, 0;
      for i := 0 to LEVELS
        invariant forall j :: i <= j < LEVELS ==> bins[j] == h[j]
        invariant forall j :: 0 <= j < i && j != peak ==> bins[j] == 0
        invariant peak < i || i == peak == 0
        invariant peak == 0 && i > 0 ==> bins[0] == 0
        invariant zero <= i && (forall j :: 0 <= j < zero ==> h[j] == 0) && (zero < i ==> h[zero] != 0)
        invariant peak == 0 ==> forall j :: 1 <= j < i ==> h[j] == 0
        invariant peak != 0 ==> bins[peak] == h[peak] > 0
        invariant peak != 0 ==> forall j :: 1 <= j < i ==> h[j] <= h[peak] && (j < peak ==> h[j] < h[peak])
      {
        if bins[i] == 0 && zero == i {
          zero := zero + 1;
        }
        if bins[i] > bins[peak] {
          bins[peak] := 0;
          peak := i;
        } else {
          bins[i] := 0;
        }
      }
      bins[peak] := 0;
    }

    /** Counts a fill level and, when a pass is due, drops old samples. A pass never drops more than
        two thirds of the lowest level it has seen, plus one sample, unless some level was taken at
        a lower rate than the present one; and it keeps the 600 ms promise for just those bins. */
    method TryShrink(having: nat, now: int, clock: ShrinkClock) returns (ghost dropped: nat)
      requires Valid()
      modifies this`pcm, this`generation, this`gone, this`consumed, this`readings, bins, clock
      ensures Valid()
      ensures
        var seen := old(readings) + [Reading(having, base, Level(having, base))];
        var due := old(clock.tms) != 0 && now >= old(clock.tms) + 12000;
        && clock.tms == (if due || old(clock.tms) == 0 then now else old(clock.tms))
        && (!due ==> dropped == 0 && readings == seen)
        && (due ==>
              && readings == []
              && (exists zero: nat, peak: nat :: Decides(seen, zero, peak, |old(pcm)|, base, dropped))
              && (NoLowerRate(seen, base) ==> forall r | r in seen :: 3 * dropped <= 2 * r.having + 3))
      ensures dropped <= |old(pcm)| && pcm == old(pcm)[dropped..] && (dropped > 0 ==> |pcm| > 2 * dropped)
      ensures generation == if dropped > 0 then (old(generation) + 1) % GENERATIONS else old(generation)
      ensures dropped == 0 ==> gone == old(gone) && consumed == old(consumed)
      ensures dropped % 2 == 0
      ensures forall channels: nat | 1 <= channels <= 2 && old(Aligned(channels)) :: Aligned(channels)
    {
      hide Level, Conserved, CountLevel, Whole, SkipFor, Histogram, Decides, NoLowerRate;
      RecordLevel(having);
      if clock.tms == 0 {
        clock.tms := now;
        return 0;
      } else if now < clock.tms + SHRINK_INTERVAL_MS {
        return 0;
      }
      clock.tms := now;
      dropped := ShrinkPass();
    }

    /** The generation moves exactly when samples are lost, by overwriting or by shrinking; while
        it stands still, what is read and what is buffered are everything appended. */
    method AppendPcm(buffer: seq<real>, now: int, clock: ShrinkClock) returns (ghost discarded: nat, ghost dropped: nat)
      requires Valid()
      modifies this`pcm, this`generation, this`appended, this`gone, this`consumed, this`readings, bins, clock
      ensures Valid() && appended == old(appended) + buffer
      ensures discarded == |old(pcm)| + |buffer| - |Last(old(pcm) + buffer, capacity)|
      ensures dropped <= |Last(old(pcm) + buffer, capacity)| && pcm == Last(old(pcm) + buffer, capacity)[dropped..]
      ensures
        var having := |Last(old(pcm) + buffer, capacity)|;
        var seen := old(readings) + [Reading(having, base, Level(having, base))];
        var due := old(clock.tms) != 0 && now >= old(clock.tms) + 12000;
        && clock.tms == (if due || old(clock.tms) == 0 then now else old(clock.tms))
        && (!due ==> dropped == 0 && readings == seen)
        && (due ==> readings == [] && exists zero: nat, peak: nat :: Decides(seen, zero, peak, having, base, dropped))
      ensures discarded == 0 && dropped == 0 <==> generation == old(generation)
      ensures generation == old(generation) ==> gone == old(gone) && consumed == old(consumed)
      ensures forall channels: nat | 1 <= channels <= 2 && old(Aligned(channels)) && Whole(|buffer|, channels) ::
        Aligned(channels)
    {
      hide Valid, Level, Conserved, CountLevel, Whole, SkipFor, Histogram, Decides, NoLowerRate, Last;
      var having;
      having, discarded := AppendPcm2(buffer);
      dropped := TryShrink(having, now, clock);
    }

    method RecordLevel(having: nat)
      requires Valid()
      modifies this`readings, bins
      ensures Valid() && readings == old(readings) + [Reading(having, base, Level(having, base))]
    {
      hide Level, Conserved, CountLevel;
      var i := Level(having, base);
      CountOneMore(readings, Reading(having, base, i));
      bins[i] := bins[i] + 1;
      readings := readings + [Reading(having, base, i)];
    }

    /** The pass itself: decides from the histogram, clears it, and drops from the front. */
    method ShrinkPass() returns (ghost dropped: nat)
      requires Valid()
      modifies this`pcm, this`generation, this`gone, this`consumed, this`readings, bins
      ensures Valid() && readings == []
      ensures exists zero: nat, peak: nat :: Decides(old(readings), zero, peak, |old(pcm)|, base, dropped)
      ensures NoLowerRate(old(readings), base) ==> forall r | r in old(readings) :: 3 * dropped <= 2 * r.having + 3
      ensures dropped <= |old(pcm)| && pcm == old(pcm)[dropped..] && (dropped > 0 ==> |pcm| > 2 * dropped)
      ensures generation == if dropped > 0 then (old(generation) + 1) % GENERATIONS else old(generation)
      ensures dropped == 0 ==> gone == old(gone) && consumed == old(consumed)
      ensures dropped % 2 == 0
      ensures forall channels: nat | 1 <= channels <= 2 && old(Aligned(channels)) :: Aligned(channels)
    {
      hide Level, Conserved, CountLevel, Whole, SkipFor, LeadingEmpty, Peak, Decides, NoLowerRate;
      assert bins[..] == Histogram(readings);
      var zero, peak := ScanBins();
      if NoLowerRate(readings, base) {
        SkipIsSafeForAll(readings, base, zero, peak);
      }
      NoReadings();
      readings := [];
      var skip := SkipFor(zero, peak, capacity);
      dropped := 0;
      PassDecides(old(readings), zero, peak, |pcm|, base);
      if |pcm| > skip * 3 && skip > 0 {
        ReadConserves(appended, gone, consumed, pcm, skip);
        LengthsConserved(appended, gone, consumed, pcm);
        gone, consumed := gone + consumed + pcm[..skip], [];
        pcm := pcm[skip..];
        SignalDiscontinuity();
        dropped := skip;
        forall channels: nat | 1 <= channels <= 2 && old(Aligned(channels))
          ensures Aligned(channels)
        {
          EvenSkipAligns(|appended|, |old(pcm)|, skip, channels);
        }
      }
    }
  }

  lemma LengthsConserved(appended: seq<real>, gone: seq<real>, consumed: seq<real>, pcm: seq<real>)
    requires Conserved(appended, gone, consumed, pcm)
    ensures |appended| == |gone| + |consumed| + |pcm|
  {
  }

  lemma EvenSkipAligns(appended: nat, buffered: nat, skip: nat, channels: nat)
    requires 1 <= channels <= 2 && skip % 2 == 0 && skip <= buffered <= appended
    requires Whole(appended, channels) && Whole(buffered, channels)
    ensures Whole(buffered - skip, channels) && Whole(appended - (buffered - skip), channels)
  {
  }

  lemma NoReadings()
    ensures forall i :: CountLevel([], i) == 0
  {
  }

  // ---- The promise broken, and the bound broken by a lower rate ----

  /** The two bins that decide are functions of the histogram. */
  lemma BinsAreUnique(bins: seq<nat>, zero: nat, peak: nat, zero': nat, peak': nat)
    requires LeadingEmpty(bins, zero) && Peak(bins, peak) && LeadingEmpty(bins, zero') && Peak(bins, peak')
    ensures zero == zero' && peak == peak'
  {
  }

  lemma CountOfFour(low: Reading, high: Reading, last: Reading, i: nat)
    ensures CountLevel([low, high, high, last], i)
      == (if low.level == i then 1 else 0) + (if high.level == i then 2 else 0) + (if last.level == i then 1 else 0)
  {
    var one, two, three, four := [low], [low, high], [low, high, high], [low, high, high, last];
    assert [] + [low] == one && one + [high] == two && two + [high] == three && three + [last] == four;
    NoReadings();
    CountOneMore([], low);
    CountOneMore(one, high);
    CountOneMore(two, high);
    CountOneMore(three, last);
  }

  /** One low level, a higher one twice, and a last one that is above the first. */
  lemma FourBins(low: Reading, high: Reading, last: Reading)
    requires low.level < last.level < LEVELS && low.level < high.level < LEVELS
    ensures LeadingEmpty(Histogram([low, high, high, last]), low.level)
    ensures Peak(Histogram([low, high, high, last]), high.level)
  {
    hide CountLevel;
    var h := Histogram([low, high, high, last]);
    forall i: nat | i < LEVELS
      ensures h[i]
        == (if low.level == i then 1 else 0) + (if high.level == i then 2 else 0) + (if last.level == i then 1 else 0)
    {
      CountOfFour(low, high, last, i);
    }
  }

  lemma FourReadings(low: Reading, high: Reading, last: Reading, buffered: nat, base: nat, dropped: nat)
    requires low.level < last.level < LEVELS && low.level < high.level < LEVELS
    requires exists zero: nat, peak: nat :: Decides([low, high, high, last], zero, peak, buffered, base, dropped)
    ensures dropped == DropFor(buffered, low.level, high.level, 3 * base)
  {
    hide Histogram, LeadingEmpty, Peak, DropFor, KeepsPromise;
    var seen := [low, high, high, last];
    FourBins(low, high, last);
    var zero: nat, peak: nat :| Decides(seen, zero, peak, buffered, base, dropped);
    BinsAreUnique(Histogram(seen), zero, peak, low.level, high.level);
  }

  method Fill(b: AudioBuffer, samples: nat)
    requires b.Valid() && |b.pcm| + samples <= b.capacity
    modifies b`pcm, b`generation, b`appended, b`gone, b`consumed
    ensures b.Valid() && |b.pcm| == |old(b.pcm)| + samples
  {
    hide AudioBuffer.Valid, AudioBuffer.Aligned, Whole;
    var _, _ := b.AppendPcm2(seq(samples, _ => 0.0));
  }

  /** A level counted between two passes. */
  method CountOnly(b: AudioBuffer, now: int, clock: ShrinkClock)
    requires b.Valid() && (clock.tms == 0 || now < clock.tms + SHRINK_INTERVAL_MS)
    modifies b`pcm, b`generation, b`gone, b`consumed, b`readings, b.bins, clock
    ensures b.Valid() && b.pcm == old(b.pcm)
    ensures b.readings == old(b.readings) + [Reading(|b.pcm|, b.base, Level(|b.pcm|, b.base))]
    ensures clock.tms == if old(clock.tms) == 0 then now else old(clock.tms)
  {
    hide AudioBuffer.Valid, AudioBuffer.Aligned, Decides, NoLowerRate, Level;
    var _ := b.TryShrink(|b.pcm|, now, clock);
  }

  /** A due pass over four readings of such a kind. */
  method PassOver(b: AudioBuffer, ghost low: Reading, ghost high: Reading, now: int, clock: ShrinkClock)
    requires b.Valid() && b.readings == [low, high, high]
    requires clock.tms != 0 && now >= clock.tms + SHRINK_INTERVAL_MS
    requires low.level < high.level < LEVELS && low.level < Level(|b.pcm|, b.base)
    modifies b`pcm, b`generation, b`gone, b`consumed, b`readings, b.bins, clock
    ensures b.Valid() && |b.pcm| == |old(b.pcm)| - DropFor(|old(b.pcm)|, low.level, high.level, 3 * b.base)
  {
    hide AudioBuffer.Aligned, Decides, NoLowerRate, Level, DropFor, Conserved, CountLevel;
    ghost var last := Reading(|b.pcm|, b.base, Level(|b.pcm|, b.base));
    assert b.readings + [last] == [low, high, high, last];
    ghost var buffered, base := |b.pcm|, b.base;
    ghost var dropped := b.TryShrink(|b.pcm|, now, clock);
    FourReadings(low, high, last, buffered, base, dropped);
  }

  /** At 48 kHz and two channels: with levels of 200, 600, 600 and 400 ms the pass at 400 ms drops
      100 ms. */
  method DropsAt400ms() returns (before: nat, after: nat)
    ensures before == 4 * 48000 * 2 / 10 && after == before - 48000 * 2 / 10
  {
    hide AudioBuffer.Valid, AudioBuffer.Aligned;
    var b := new AudioBuffer();
    var clock := new ShrinkClock();
    Fill(b, 19200);
    CountOnly(b, 1, clock);
    Fill(b, 38400);
    CountOnly(b, 2, clock);
    CountOnly(b, 3, clock);
    var _ := b.ReadBuffer(19200, 2);
    before := |b.pcm|;
    PassOver(b, Reading(19200, 96000, 2), Reading(57600, 96000, 6), 12001, clock);
    after := |b.pcm|;
  }

  /** A level of nine tenths of a second at the old rate and one of 2.4 seconds at the new rate. */
  function LowLevel(rate: nat): nat {
    (9 * rate + 9) / 10
  }

  function HighLevel(rate: nat): nat {
    (24 * rate + 9) / 10
  }

  lemma LowAndHigh(oldRate: nat, newRate: nat)
    requires 10 <= oldRate && oldRate + 4 <= newRate
    ensures LowLevel(oldRate) <= 3 * oldRate && Level(LowLevel(oldRate), oldRate) == 9
    ensures HighLevel(newRate) <= 3 * newRate && Level(HighLevel(newRate), newRate) == 24
    ensures 3 * DropFor(HighLevel(newRate), 9, 24, 3 * newRate) > 2 * LowLevel(oldRate) + 3
  {
    QuotientIs(LowLevel(oldRate) * 10, oldRate, 9);
    QuotientIs(HighLevel(newRate) * 10, newRate, 24);
    assert Mark(9, 24) == 24;
    ShareOf24(newRate);
  }

  /** The last digit of the rate decides how much is rounded. */
  lemma ShareOf24(rate: nat)
    requires rate >= 14
    ensures 2 * ((9 * (rate - 4) + 9) / 10) + 3 < 3 * Share(24, 3 * rate) <= 2 * rate
  {
    var k, r := rate / 10, rate % 10;
    assert 3 * rate * 24 / 120 == 6 * k + 3 * r / 5;
    assert (9 * (rate - 4) + 9) / 10 == 9 * k + (9 * r - 27) / 10;
    assert EvenUp(6 * k + 3 * r / 5) == 6 * k + EvenUp(3 * r / 5);
  }

  /** Whenever the rate has risen, be it by four samples a second, a pass can drop more than two
      thirds of a level it has seen, and more than that sample. */
  method DropsTooMuch(oldRate: nat, newRate: nat) returns (lowest: nat, before: nat, after: nat)
    requires 10 <= oldRate && oldRate + 4 <= newRate
    ensures 3 * (before - after) > 2 * lowest + 3
  {
    hide AudioBuffer.Valid, AudioBuffer.Aligned, Whole, Level, DropFor, LowLevel, HighLevel;
    LowAndHigh(oldRate, newRate);
    var b := new AudioBuffer();
    var clock := new ShrinkClock();
    b.Resize(oldRate, 1);
    lowest := LowLevel(oldRate);
    Fill(b, lowest);
    CountOnly(b, 1, clock);
    b.Resize(newRate, 1);
    before := HighLevel(newRate);
    Fill(b, before);
    CountOnly(b, 2, clock);
    CountOnly(b, 3, clock);
    PassOver(b, Reading(lowest, oldRate, 9), Reading(before, newRate, 24), 12001, clock);
    after := |b.pcm|;
  }

  /** Whatever levels are counted at two rates, a pass at the second rate stays within two thirds of
      each of them, plus a sample. */
  ghost predicate BoundHolds(rate: nat, base: nat) {
    forall seen: seq<Reading>, zero: nat, peak: nat, buffered: nat, dropped: nat ::
      Counted(seen) && AtRates(seen, rate, base) && Decides(seen, zero, peak, buffered, base, dropped) ==>
        Bounded(seen, dropped)
  }

  predicate AtRates(seen: seq<Reading>, rate: nat, base: nat) {
    forall r | r in seen :: r.base == rate || r.base == base
  }

  predicate Bounded(seen: seq<Reading>, dropped: nat) {
    forall r | r in seen :: 3 * dropped <= 2 * r.having + 3
  }

  /** So the guard is exact, for rates divisible by four and for any two that differ by four or
      more: the bound holds if and only if the other rate is not lower. */
  lemma BoundHoldsIff(rate: nat, base: nat)
    requires rate >= 10 && base > 0
    ensures rate >= base ==> BoundHolds(rate, base)
    ensures rate + 4 <= base ==> !BoundHolds(rate, base)
    ensures rate % 4 == 0 && base % 4 == 0 ==> (BoundHolds(rate, base) <==> rate >= base)
  {
    hide Level, DropFor, Histogram, LeadingEmpty, Peak, KeepsPromise, LowLevel, HighLevel;
    if rate >= base {
      forall seen: seq<Reading>, zero: nat, peak: nat, buffered: nat, dropped: nat
        | Counted(seen) && AtRates(seen, rate, base) && Decides(seen, zero, peak, buffered, base, dropped)
        ensures Bounded(seen, dropped)
      {
        SkipIsSafeForAll(seen, base, zero, peak);
        AtMostSkip(buffered, zero, peak, 3 * base);
      }
    }
    if rate + 4 <= base {
      LowAndHigh(rate, base);
      var low, high := Reading(LowLevel(rate), rate, 9), Reading(HighLevel(base), base, 24);
      var seen, dropped := [low, high, high, high], DropFor(HighLevel(base), 9, 24, 3 * base);
      FourBins(low, high, high);
      PassDecides(seen, 9, 24, HighLevel(base), base);
      assert low in seen && !Bounded(seen, dropped);
    }
  }

  lemma AtMostSkip(buffered: nat, zero: nat, peak: nat, capacity: nat)
    ensures DropFor(buffered, zero, peak, capacity) <= SkipFor(zero, peak, capacity)
  {
  }

  // ---- A lag that stays is reduced ----

  lemma {:induction false} ConstantCount(seen: seq<Reading>, level: nat, i: nat)
    requires forall r | r in seen :: r.level == level
    ensures CountLevel(seen, i) == if i == level then |seen| else 0
  {
    if seen != [] {
      ConstantCount(seen[..|seen| - 1], level, i);
      assert seen[|seen| - 1] in seen;
    }
  }

  /** When every level was in the same bin, a pass aims at that bin. */
  lemma ConstantBins(seen: seq<Reading>, level: nat)
    requires seen != [] && 1 <= level < LEVELS && forall r | r in seen :: r.level == level
    ensures LeadingEmpty(Histogram(seen), level) && Peak(Histogram(seen), level)
  {
    hide CountLevel;
    forall i: nat | i < LEVELS
      ensures Histogram(seen)[i] == if i == level then |seen| else 0
    {
      ConstantCount(seen, level, i);
    }
  }

  /** However often a level of 600 ms or more has been counted and nothing else, a pass drops about
      a fortieth of a second for each tenth of a second of lag: a quarter of it. */
  lemma ConstantLagIsReduced(seen: seq<Reading>, level: nat, buffered: nat, base: nat, dropped: nat)
    requires seen != [] && 6 <= level < LEVELS && forall r | r in seen :: r.level == level
    requires base >= 24 && 10 * buffered >= base * level
    requires exists zero: nat, peak: nat :: Decides(seen, zero, peak, buffered, base, dropped)
    ensures base * level < 40 * dropped + 40 && 40 * dropped <= base * level + 40
  {
    hide Histogram, LeadingEmpty, Peak, DropFor, KeepsPromise;
    var zero: nat, peak: nat :| Decides(seen, zero, peak, buffered, base, dropped);
    ConstantBins(seen, level);
    BinsAreUnique(Histogram(seen), zero, peak, level, level);
    assert About(level, buffered, base, dropped);
    MultiplesApart(6, level, base);
  }

  lemma LagLevel(rate: nat, lag: nat)
    requires rate > 0 && 6 * rate <= 10 * lag
    ensures Level(lag, rate) >= 6 && Level(lag, rate) == if 10 * lag / rate <= 29 then 10 * lag / rate else 29
    ensures 10 * lag >= rate * Level(lag, rate)
  {
    AtMostQuotient(6, 10 * lag, rate);
  }

  /** The due pass at the end of such a run. */
  method LastPass(b: AudioBuffer, ghost level: nat, clock: ShrinkClock) returns (after: nat)
    requires b.Valid() && clock.tms == 1 && b.base >= 24 && 6 <= level < LEVELS
    requires level == Level(|b.pcm|, b.base) && forall r | r in b.readings :: r.level == level
    modifies b`pcm, b`generation, b`gone, b`consumed, b`readings, b.bins, clock
    ensures after == |b.pcm| <= |old(b.pcm)|
    ensures b.base * level < 40 * (|old(b.pcm)| - after) + 40 && 40 * (|old(b.pcm)| - after) <= b.base * level + 40
  {
    hide AudioBuffer.Aligned, Decides, NoLowerRate, Level, Conserved, CountLevel;
    ghost var seen := b.readings + [Reading(|b.pcm|, b.base, level)];
    ghost var buffered, base := |b.pcm|, b.base;
    ghost var dropped := b.TryShrink(|b.pcm|, 12001, clock);
    assert 10 * buffered >= base * level;
    ConstantLagIsReduced(seen, level, buffered, base, dropped);
    after := |b.pcm|;
  }

  /** And so does a run: a lag that stays in one bin at or above 600 ms, counted any number of times. */
  method ConstantLag(rate: nat, lag: nat, times: nat) returns (before: nat, after: nat)
    requires rate >= 24 && 6 * rate <= 10 * lag && lag <= 3 * rate
    ensures before == lag && after <= before
    ensures
      var bin := if 10 * lag / rate <= 29 then 10 * lag / rate else 29;
      rate * bin < 40 * (before - after) + 40 && 40 * (before - after) <= rate * bin + 40
  {
    hide AudioBuffer.Valid, AudioBuffer.Aligned, Decides, NoLowerRate, Level;
    var b := new AudioBuffer();
    var clock := new ShrinkClock();
    b.Resize(rate, 1);
    Fill(b, lag);
    before := |b.pcm|;
    CountOnly(b, 1, clock);
    ghost var level := Level(lag, rate);
    LagLevel(rate, lag);
    for i := 0 to times
      invariant b.Valid() && fresh(b) && fresh(b.bins) && fresh(clock) && clock.tms == 1
      invariant |b.pcm| == lag && b.base == rate
      invariant b.readings != [] && forall r | r in b.readings :: r.level == level
    {
      CountOnly(b, 2, clock);
    }
    after := LastPass(b, level, clock);
  }
}
