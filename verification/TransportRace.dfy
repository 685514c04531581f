/** The race between a WebRTC attempt and the other transports of a connection.
    The environment is a trace of events in the order in which the race observes them: attempts
    resolving, each at most once, and polls of the preference window. Any order is a trace, so
    what holds of every trace holds of every interleaving. */
module TransportRace {
  import opened Prelude

  datatype Event<T> =
    | WebRtcResolved(result: Result<T, string>, at: nat)
    | OtherResolved(attempt: nat, result: Result<T, string>, at: nat)
    | WindowPolled(at: nat)

  datatype RaceError = BothFailed(webrtc: string, fallback: string)

  /** What the environment guarantees: an attempt resolves at most once and was in the race. */
  ghost predicate WellFormed<T(!new)>(others: set<nat>, events: seq<Event<T>>) {
    && (forall i, j :: 0 <= i < j < |events| ==> !(events[i].WebRtcResolved? && events[j].WebRtcResolved?))
    && (forall i :: 0 <= i < |events| && events[i].OtherResolved? ==> events[i].attempt in others)
    && (forall i, j :: 0 <= i < j < |events| && events[i].OtherResolved? && events[j].OtherResolved? ==>
          events[i].attempt != events[j].attempt)
  }

  // ---- The choice rule, stated over the trace ----

  predicate Succeeds<T>(e: Event<T>) {
    !e.WindowPolled? && e.result.Ok?
  }

  predicate Direct<T>(e: Event<T>, isP2p: T -> bool) {
    Succeeds(e) && isP2p(e.result.value)
  }

  predicate Relayed<T>(e: Event<T>, isP2p: T -> bool) {
    Succeeds(e) && !isP2p(e.result.value)
  }

  ghost predicate FirstRelay<T(!new)>(events: seq<Event<T>>, isP2p: T -> bool, i: nat) {
    && i < |events| && Relayed(events[i], isP2p)
    && forall j :: 0 <= j < i ==> !Relayed(events[j], isP2p)
  }

  ghost predicate WebRtcDone<T(!new)>(events: seq<Event<T>>, n: nat)
    requires n <= |events|
  {
    exists i :: 0 <= i < n && events[i].WebRtcResolved?
  }

  ghost predicate OtherDone<T(!new)>(events: seq<Event<T>>, n: nat, attempt: nat)
    requires n <= |events|
  {
    exists i :: 0 <= i < n && events[i].OtherResolved? && events[i].attempt == attempt
  }

  /** Every attempt of the race has resolved within the first n events. */
  ghost predicate AllDone<T(!new)>(others: set<nat>, events: seq<Event<T>>, n: nat)
    requires n <= |events|
  {
    WebRtcDone(events, n) && forall a :: a in others ==> OtherDone(events, n, a)
  }

  /** The window is measured from the first relay, whatever arrives later. */
  ghost predicate WindowOver<T(!new)>(events: seq<Event<T>>, isP2p: T -> bool, windowMs: nat, i: nat)
    requires i < |events|
  {
    events[i].WindowPolled? && exists r: nat :: r < i && FirstRelay(events, isP2p, r) && events[r].at + windowMs <= events[i].at
  }

  /** The three ways the race can end at event i. */
  ghost predicate Decides<T(!new)>(others: set<nat>, events: seq<Event<T>>, isP2p: T -> bool, windowMs: nat, i: nat)
    requires i < |events|
  {
    || Direct(events[i], isP2p)
    || WindowOver(events, isP2p, windowMs, i)
    || (!events[i].WindowPolled? && AllDone(others, events, i + 1))
  }

  ghost predicate Undecided<T(!new)>(others: set<nat>, events: seq<Event<T>>, isP2p: T -> bool, windowMs: nat, n: nat)
    requires n <= |events|
  {
    forall i :: 0 <= i < n ==> !Decides(others, events, isP2p, windowMs, i)
  }

  ghost predicate LastOther<T(!new)>(events: seq<Event<T>>, n: nat, i: nat)
    requires n <= |events|
  {
    && i < n && events[i].OtherResolved?
    && forall j :: i < j < n ==> !events[j].OtherResolved?
  }

  /** What the race returns when it ends at event i: the result of that event if it is a success,
      otherwise the first relay, otherwise the WebRTC error with the last fallback error. */
  ghost predicate Verdict<T(!new)>(events: seq<Event<T>>, isP2p: T -> bool, i: nat, outcome: Result<T, RaceError>)
    requires i < |events|
  {
    if Succeeds(events[i]) then outcome == Ok(events[i].result.value)
    else if exists r: nat :: r < i && FirstRelay(events, isP2p, r) then
      exists r: nat :: r < i && FirstRelay(events, isP2p, r) && outcome == Ok(events[r].result.value)
    else
      exists w: nat, o: nat ::
        && w <= i && events[w].WebRtcResolved? && events[w].result.Err?
        && LastOther(events, i + 1, o) && events[o].result.Err?
        && outcome == Err(BothFailed(events[w].result.error, events[o].result.error))
  }

  // ---- The race ----

  /** One more event settles exactly the attempt it names. */
  lemma DoneStep<T(!new)>(others: set<nat>, events: seq<Event<T>>, n: nat)
    requires n < |events|
    ensures WebRtcDone(events, n + 1) <==> WebRtcDone(events, n) || events[n].WebRtcResolved?
    ensures forall a :: OtherDone(events, n + 1, a) <==>
      OtherDone(events, n, a) || (events[n].OtherResolved? && events[n].attempt == a)
    ensures WellFormed(others, events) ==>
      && (events[n].WebRtcResolved? ==> !WebRtcDone(events, n))
      && (events[n].OtherResolved? ==> events[n].attempt in others && !OtherDone(events, n, events[n].attempt))
  {
    forall a
      ensures OtherDone(events, n + 1, a) <==>
        OtherDone(events, n, a) || (events[n].OtherResolved? && events[n].attempt == a)
    {
    }
  }

  /** The variables of the race loop, and one method for each branch it selects from. */
  class RaceLoop<T(!new)> {
    const isP2p: T -> bool
    const windowMs: nat
    var webrtcFut: bool
    var othersFut: set<nat>  // the attempts still inside select_ok; with none left it is gone
    var held: Option<T>
    var webrtcErr: Option<string>
    var othersErr: Option<string>
    var windowStarted: bool
    var deadline: nat

    // The trace this race runs on, and where it saw its first relay and its latest resolutions.
    ghost const others: set<nat>
    ghost const events: seq<Event<T>>
    ghost var relay: nat
    ghost var web: nat
    ghost var other: nat

    /** What holds at the loop head after n events. */
    ghost predicate At(n: nat)
      reads this
    {
      && n <= |events| && others != {} && WellFormed(others, events)
      && Undecided(others, events, isP2p, windowMs, n)
      && (webrtcFut <==> !WebRtcDone(events, n))
      && (forall a :: a in othersFut <==> a in others && !OtherDone(events, n, a))
      // Something can always still resolve.
      && (webrtcFut || othersFut != {})
      // A relay is held from the first one on, with the window armed by that one.
      && (windowStarted <==> held.Some?)
      && (held.None? ==> forall j :: 0 <= j < n ==> !Succeeds(events[j]))
      && (held.Some? ==>
            && relay < n && FirstRelay(events, isP2p, relay) && held.value == events[relay].result.value
            && deadline == events[relay].at + windowMs)
      // The parked errors.
      && (!webrtcFut ==> web < n && events[web].WebRtcResolved?)
      && (othersFut != others ==> LastOther(events, n, other))
      && webrtcErr == (if !webrtcFut && events[web].result.Err? then Some(events[web].result.error) else None)
      && othersErr == (if othersFut == {} && events[other].result.Err? then Some(events[other].result.error) else None)
    }

    ghost predicate Ends(n: nat, outcome: Result<T, RaceError>)
      reads this
    {
      && n < |events| && Undecided(others, events, isP2p, windowMs, n)
      && Decides(others, events, isP2p, windowMs, n)
      && Verdict(events, isP2p, n, outcome)
    }

    constructor (others: set<nat>, isP2p: T -> bool, windowMs: nat, ghost events: seq<Event<T>>)
      requires others != {} && WellFormed(others, events)
      ensures At(0)
      ensures this.others == others && this.isP2p == isP2p && this.windowMs == windowMs && this.events == events
    {
      this.isP2p, this.windowMs := isP2p, windowMs;
      webrtcFut, othersFut := true, others;
      held, webrtcErr, othersErr := None, None, None;
      windowStarted, deadline := false, 0;
      this.others, this.events := others, events;
      relay, web, other := 0, 0, 0;
    }

    method OnWebRtc(result: Result<T, string>, at: nat, ghost n: nat) returns (end: Option<Result<T, RaceError>>)
      requires At(n) && n < |events| && events[n] == WebRtcResolved(result, at)
      modifies this
      ensures if end.Some? then Ends(n, end.value) else At(n + 1)
    {
      hide WebRtcDone, OtherDone;
      DoneStep(others, events, n);
      webrtcFut := false;
      web := n;
      match result {
        case Ok(conn) =>
          if isP2p(conn) || othersFut == {} {
            return Some(Ok(conn));
          }
          if held.None? {
            held, relay := Some(conn), n;
            deadline := at + windowMs;
            windowStarted := true;
          }
        case Err(error) =>
          if othersFut == {} {
            assert !Decides(others, events, isP2p, windowMs, other);
            if held.Some? {
              return Some(Ok(held.value));
            }
          }
          if othersErr.Some? {
            return Some(Err(BothFailed(error, othersErr.value)));
          } else if othersFut == {} {
            assert false;  // "WebRTC failed" alone is never reported
          } else {
            webrtcErr := Some(error);
          }
      }
      return None;
    }

    method OnOther(attempt: nat, result: Result<T, string>, at: nat, ghost n: nat) returns (end: Option<Result<T, RaceError>>)
      requires At(n) && n < |events| && events[n] == OtherResolved(attempt, result, at)
      modifies this
      ensures if end.Some? then Ends(n, end.value) else At(n + 1)
    {
      hide WebRtcDone, OtherDone;
      DoneStep(others, events, n);
      var unfinished := othersFut - {attempt};
      assert forall a :: a in unfinished <==> a in others && !OtherDone(events, n + 1, a);
      othersFut := unfinished;
      other := n;
      match result {
        case Ok(conn) =>
          if isP2p(conn) {
            return Some(Ok(conn));
          }
          if !webrtcFut && unfinished == {} {
            return Some(Ok(conn));
          }
          if held.None? {
            held, relay := Some(conn), n;
            deadline := at + windowMs;
            windowStarted := true;
          }
        case Err(error) =>
          // select_ok reports a failure only when it was the last of its attempts.
          if unfinished == {} {
            if webrtcErr.Some? {
              if held.Some? {
                return Some(Ok(held.value));
              }
              return Some(Err(BothFailed(webrtcErr.value, error)));
            } else if !webrtcFut {
              if held.Some? {
                return Some(Ok(held.value));
              }
              assert false;  // a lone fallback error is never reported
            } else {
              othersErr := Some(error);
            }
          }
      }
      return None;
    }

    method OnWindow(at: nat, ghost n: nat) returns (end: Option<Result<T, RaceError>>)
      requires At(n) && n < |events| && events[n] == WindowPolled(at)
      modifies this
      ensures if end.Some? then Ends(n, end.value) else At(n + 1)
    {
      hide WebRtcDone, OtherDone;
      DoneStep(others, events, n);
      if windowStarted && deadline <= at {
        if held.Some? {
          return Some(Ok(held.value));
        }
        assert false;  // an armed window always has a relay to commit
      }
      return None;
    }
  }

  /** Runs the race over a trace. It ends at the first event that decides, with that event's
      verdict; when no event decides, it is still waiting at the end of the trace. */
  method Race<T(!new)>(others: set<nat>, events: seq<Event<T>>, windowMs: nat, isP2p: T -> bool)
    returns (outcome: Option<Result<T, RaceError>>, ended: nat)
    requires others != {} && WellFormed(others, events)
    ensures ended <= |events| && Undecided(others, events, isP2p, windowMs, ended)
    ensures outcome.None? <==> ended == |events|
    ensures outcome.Some? ==>
      Decides(others, events, isP2p, windowMs, ended) && Verdict(events, isP2p, ended, outcome.value)
  {
    hide WellFormed, Undecided, Decides, Verdict;
    var race := new RaceLoop(others, isP2p, windowMs, events);
    ended := 0;
    outcome := None;
    while ended < |events|
      invariant race.At(ended) && fresh(race) && outcome.None?
    {
      match events[ended] {
        case WebRtcResolved(result, at) => outcome := race.OnWebRtc(result, at, ended);
        case OtherResolved(attempt, result, at) => outcome := race.OnOther(attempt, result, at, ended);
        case WindowPolled(at) => outcome := race.OnWindow(at, ended);
      }
      if outcome.Some? {
        return;
      }
      ended := ended + 1;
    }
  }

  // ---- What the rule means ----

  /** The attempts that can still resolve after n events; WebRTC is -1. */
  ghost function Unresolved<T(!new)>(others: set<nat>, events: seq<Event<T>>, n: nat): set<int>
    requires n <= |events|
  {
    (if WebRtcDone(events, n) then {} else {-1}) + set a: int | a in others && !OtherDone(events, n, a)
  }

  /** Every resolution leaves fewer attempts, and a poll of the window leaves them as they are;
      a race that has not ended always has one left. */
  lemma RaceProgresses<T(!new)>(others: set<nat>, events: seq<Event<T>>, isP2p: T -> bool, windowMs: nat, n: nat)
    requires others != {} && WellFormed(others, events) && n < |events|
    ensures if events[n].WindowPolled? then Unresolved(others, events, n + 1) == Unresolved(others, events, n)
            else Unresolved(others, events, n + 1) < Unresolved(others, events, n)
    ensures Undecided(others, events, isP2p, windowMs, n + 1) ==> Unresolved(others, events, n + 1) != {}
  {
    DoneStep(others, events, n);
    var before, after := Unresolved(others, events, n), Unresolved(others, events, n + 1);
    match events[n] {
      case WebRtcResolved(_, _) => assert -1 in before && -1 !in after;
      case OtherResolved(a, _, _) => assert a in before && a !in after;
      case WindowPolled(_) =>
    }
    if AllDone(others, events, n + 1) {
      AllResolvedEnds(others, events, isP2p, windowMs, n + 1);
    } else if WebRtcDone(events, n + 1) {
      var a :| a in others && !OtherDone(events, n + 1, a);
      assert a in after;
    }
  }

  /** A race whose attempts have all resolved has ended. */
  lemma AllResolvedEnds<T(!new)>(others: set<nat>, events: seq<Event<T>>, isP2p: T -> bool, windowMs: nat, n: nat)
    requires n <= |events| && AllDone(others, events, n)
    ensures !Undecided(others, events, isP2p, windowMs, n)
    decreases n
  {
    if events[n - 1].WindowPolled? {
      forall a | a in others
        ensures OtherDone(events, n - 1, a)
      {
      }
      AllResolvedEnds(others, events, isP2p, windowMs, n - 1);
    } else {
      assert Decides(others, events, isP2p, windowMs, n - 1);
    }
  }

  /** The race reports an error exactly when every attempt has failed: a relay is never lost. */
  lemma ErrorIffAllFailed<T(!new)>(others: set<nat>, events: seq<Event<T>>, isP2p: T -> bool, windowMs: nat,
                                   i: nat, outcome: Result<T, RaceError>)
    requires i < |events| && Undecided(others, events, isP2p, windowMs, i)
    requires Decides(others, events, isP2p, windowMs, i) && Verdict(events, isP2p, i, outcome)
    ensures outcome.Err? <==>
      AllDone(others, events, i + 1) && forall j :: 0 <= j <= i ==> !Succeeds(events[j])
  {
    if j: nat :| j < i && Succeeds(events[j]) {
      assert !Decides(others, events, isP2p, windowMs, j);
      var r := FindFirstRelay(events, isP2p, j);
    }
  }

  lemma FindFirstRelay<T(!new)>(events: seq<Event<T>>, isP2p: T -> bool, j: nat) returns (r: nat)
    requires j < |events| && Relayed(events[j], isP2p)
    ensures r <= j && FirstRelay(events, isP2p, r)
  {
    r := 0;
    while !Relayed(events[r], isP2p)
      invariant r <= j && forall k :: 0 <= k < r ==> !Relayed(events[k], isP2p)
      decreases j - r
    {
      r := r + 1;
    }
  }

  /** A relay is returned only when no direct connection has been observed, and then only once the
      first relay's window has passed or nothing can resolve any more. */
  lemma RelayOnlyAsLastResort<T(!new)>(others: set<nat>, events: seq<Event<T>>, isP2p: T -> bool, windowMs: nat,
                                       i: nat, conn: T)
    requires i < |events| && Undecided(others, events, isP2p, windowMs, i)
    requires Decides(others, events, isP2p, windowMs, i) && Verdict(events, isP2p, i, Ok(conn)) && !isP2p(conn)
    ensures forall j :: 0 <= j <= i ==> !Direct(events[j], isP2p)
    ensures WindowOver(events, isP2p, windowMs, i) || AllDone(others, events, i + 1)
  {
    forall j | 0 <= j <= i
      ensures !Direct(events[j], isP2p)
    {
      if j < i {
        assert !Decides(others, events, isP2p, windowMs, j);
      }
    }
  }

  /** The rule leaves no choice: a trace has at most one end and one outcome. */
  lemma OutcomeIsUnique<T(!new)>(others: set<nat>, events: seq<Event<T>>, isP2p: T -> bool, windowMs: nat,
                                 i: nat, a: Result<T, RaceError>, j: nat, b: Result<T, RaceError>)
    requires others != {} && WellFormed(others, events)
    requires i < |events| && Undecided(others, events, isP2p, windowMs, i)
    requires Decides(others, events, isP2p, windowMs, i) && Verdict(events, isP2p, i, a)
    requires j < |events| && Undecided(others, events, isP2p, windowMs, j)
    requires Decides(others, events, isP2p, windowMs, j) && Verdict(events, isP2p, j, b)
    ensures i == j && a == b
  {
    assert i == j;
    if r: nat, q: nat :| r < i && FirstRelay(events, isP2p, r) && q < i && FirstRelay(events, isP2p, q) {
      assert r == q;
    }
  }
}
