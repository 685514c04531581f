/** The race between the two rounds of a connection: when a WebRTC connection that the preferred
    round made is lost, neither returned nor closed. */
module OuterRace {
  import opened Prelude
  import opened TransportRace

  /** What a round returned, as far as the race looks at it, and which round it was. */
  datatype RoundResult = RoundResult(preferred: bool, webrtc: bool, direct: bool)

  predicate IsDirect(r: RoundResult) {
    r.direct
  }

  /** The fallback round's request carries no offer, so it never ends in WebRTC. */
  ghost predicate FromRounds(events: seq<Event<RoundResult>>) {
    && WellFormed({0}, events)
    && (forall i :: 0 <= i < |events| && events[i].WebRtcResolved? && events[i].result.Ok? ==> events[i].result.value.preferred)
    && (forall i :: 0 <= i < |events| && events[i].OtherResolved? && events[i].result.Ok? ==>
          !events[i].result.value.preferred && !events[i].result.value.webrtc)
  }

  /** How a race over these events went: it ended at event `ended` with an outcome, or it was still
      waiting after all of them, and was cancelled there. */
  ghost predicate WentThrough(events: seq<Event<RoundResult>>, windowMs: nat, ended: nat,
                              outcome: Option<Result<RoundResult, RaceError>>) {
    && ended <= |events| && Undecided({0}, events, IsDirect, windowMs, ended)
    && (outcome.None? <==> ended == |events|)
    && (outcome.Some? ==>
          Decides({0}, events, IsDirect, windowMs, ended) && Verdict(events, IsDirect, ended, outcome.value))
  }

  predicate MadeWebRtc(e: Event<RoundResult>) {
    e.WebRtcResolved? && e.result.Ok? && e.result.value.webrtc
  }

  /** The race has seen a WebRTC connection of the preferred round and returned something else, or
      nothing. */
  ghost predicate WebRtcLost(events: seq<Event<RoundResult>>, ended: nat, outcome: Option<Result<RoundResult, RaceError>>) {
    exists w: nat :: w <= ended && w < |events| && MadeWebRtc(events[w]) && outcome != Some(Ok(events[w].result.value))
  }

  /** A relayed WebRTC connection was held when the fallback round succeeded, or when the race was
      cancelled. */
  ghost predicate HeldThenDropped(events: seq<Event<RoundResult>>, ended: nat) {
    && ended <= |events|
    && (exists w: nat :: w < ended && MadeWebRtc(events[w]) && !events[w].result.value.direct)
    && (ended < |events| ==> events[ended].OtherResolved? && events[ended].result.Ok?)
  }

  /** The exact condition, over every trace and every end, a cancellation included. */
  lemma LostIff(events: seq<Event<RoundResult>>, windowMs: nat, ended: nat, outcome: Option<Result<RoundResult, RaceError>>)
    requires FromRounds(events) && WentThrough(events, windowMs, ended, outcome)
    ensures WebRtcLost(events, ended, outcome) <==> HeldThenDropped(events, ended)
  {
    if WebRtcLost(events, ended, outcome) {
      var w: nat :| w <= ended && w < |events| && MadeWebRtc(events[w]) && outcome != Some(Ok(events[w].result.value));
      assert w < ended && !Decides({0}, events, IsDirect, windowMs, w);
      assert Relayed(events[w], IsDirect);
      if ended < |events| && !Succeeds(events[ended]) {
        var r := FindFirstRelay(events, IsDirect, w);
        FirstRelayIsTheOne(events, windowMs, w, r, ended);
      }
    }
  }

  lemma FallbackDone(events: seq<Event<RoundResult>>, r: nat, w: nat)
    requires WellFormed({0}, events) && r <= w < |events|
    ensures events[r].OtherResolved? ==> OtherDone(events, w + 1, 0)
  {
  }

  /** Had the fallback's relay come first, the WebRTC result would have been the last to resolve. */
  lemma FirstRelayIsTheOne(events: seq<Event<RoundResult>>, windowMs: nat, w: nat, r: nat, ended: nat)
    requires WellFormed({0}, events) && r <= w < ended < |events| && Undecided({0}, events, IsDirect, windowMs, ended)
    requires FirstRelay(events, IsDirect, r) && events[w].WebRtcResolved?
    ensures r == w
  {
    assert !Decides({0}, events, IsDirect, windowMs, w);
    assert WebRtcDone(events, w + 1);
    FallbackDone(events, r, w);
  }

  /** Both ways happen: a relayed WebRTC connection at time 0, then a direct fallback within any
      window, or a cancellation. */
  lemma LostBothWays(windowMs: nat)
    ensures
      var held := WebRtcResolved(Ok(RoundResult(true, true, false)), 0);
      var direct := OtherResolved(0, Ok(RoundResult(false, false, true)), 1);
      && FromRounds([held, direct]) && FromRounds([held])
      && WentThrough([held, direct], windowMs, 1, Some(Ok(direct.result.value)))
      && WebRtcLost([held, direct], 1, Some(Ok(direct.result.value)))
      && WentThrough([held], windowMs, 1, None) && WebRtcLost([held], 1, None)
  {
    var held: Event<RoundResult> := WebRtcResolved(Ok(RoundResult(true, true, false)), 0);
    var direct: Event<RoundResult> := OtherResolved(0, Ok(RoundResult(false, false, true)), 1);
    assert [held, direct][0] == held && [held][0] == held;
    assert MadeWebRtc([held, direct][0]) && MadeWebRtc([held][0]);
    assert !OtherDone([held, direct], 1, 0) && !OtherDone([held], 1, 0);
    assert 0 in {0};
  }
}
