/** The two queues of ICE candidates around a WebRTC attempt: the remote candidates that arrive
    before the answer is applied, and the local ones that the bridge sends twice. */
module IceQueues {
  import opened Prelude

  const MAX_PENDING_WEBRTC_ICE: nat := 64
  const WEBRTC_ICE_RESEND_DELAY: nat := 400  // milliseconds

  // ---- Candidates that arrive while the hole is being punched ----

  datatype IceCandidate = IceCandidate(sessionKey: string, candidate: string)

  predicate Expected(ice: IceCandidate, sessionKey: string) {
    sessionKey != "" && ice.sessionKey == sessionKey && ice.candidate != ""
  }

  /** The candidates meant for this session, in the order they arrived. */
  function ExpectedOf(arrived: seq<IceCandidate>, sessionKey: string): seq<string> {
    if arrived == [] then []
    else
      var last := arrived[|arrived| - 1];
      ExpectedOf(arrived[..|arrived| - 1], sessionKey) + (if Expected(last, sessionKey) then [last.candidate] else [])
  }

  lemma NewestPush(accepted: seq<string>, pending: seq<string>, candidate: string)
    requires pending == Last(accepted, MAX_PENDING_WEBRTC_ICE)
    ensures Last(accepted + [candidate], MAX_PENDING_WEBRTC_ICE)
      == (if |pending| >= MAX_PENDING_WEBRTC_ICE then pending[1..] else pending) + [candidate]
  {
    hide Last;
    LastOfSuffix(accepted, pending, [candidate], MAX_PENDING_WEBRTC_ICE);
    PushedNewest(pending, candidate);
  }

  lemma PushedNewest(pending: seq<string>, candidate: string)
    requires |pending| <= MAX_PENDING_WEBRTC_ICE
    ensures Last(pending + [candidate], MAX_PENDING_WEBRTC_ICE)
      == (if |pending| >= MAX_PENDING_WEBRTC_ICE then pending[1..] else pending) + [candidate]
  {
  }

  lemma ExpectedIs(ice: IceCandidate, sessionKey: string)
    ensures Expected(ice, sessionKey) <==> sessionKey != "" && ice.sessionKey == sessionKey && ice.candidate != ""
  {
  }

  lemma PendingIsShort(pending: seq<string>, accepted: seq<string>)
    requires pending == Last(accepted, MAX_PENDING_WEBRTC_ICE)
    ensures |pending| <= 64
  {
  }

  class PunchBuffer {
    const sessionKey: string
    var pending: seq<string>
    ghost var arrived: seq<IceCandidate>  // every candidate message received

    ghost predicate Valid()
      reads this
    {
      pending == Last(ExpectedOf(arrived, sessionKey), 64)
    }

    constructor (sessionKey: string)
      ensures Valid() && this.sessionKey == sessionKey && arrived == []
    {
      this.sessionKey := sessionKey;
      pending, arrived := [], [];
    }

    /** The buffer always holds the newest 64 candidates of the session, oldest first. */
    method Receive(ice: IceCandidate)
      requires Valid()
      modifies this
      ensures Valid() && arrived == old(arrived) + [ice]
      ensures
        if sessionKey != "" && ice.sessionKey == sessionKey && ice.candidate != "" then
          pending == (if |old(pending)| < 64 then old(pending) else old(pending)[1..]) + [ice.candidate]
        else pending == old(pending)
    {
      hide Last, Expected;
      ExpectedIs(ice, sessionKey);
      PendingIsShort(pending, ExpectedOf(arrived, sessionKey));
      ghost var accepted := ExpectedOf(arrived, sessionKey);
      arrived := arrived + [ice];
      assert arrived[..|arrived| - 1] == old(arrived) && accepted + [] == accepted;
      if Expected(ice, sessionKey) {
        NewestPush(accepted, pending, ice.candidate);
        if |pending| >= MAX_PENDING_WEBRTC_ICE {
          pending := pending[1..];
        }
        pending := pending + [ice.candidate];
      }
    }
  }

  // ---- Candidates that the bridge sends, and sends once more ----

  /** A candidate and when its first copy went out. */
  datatype Pending = Pending(at: nat, candidate: string)

  /** Takes out element i and moves the last one into its place. */
  function SwapRemove<T>(s: seq<T>, i: nat): seq<T>
    requires i < |s|
  {
    s[i := s[|s| - 1]][..|s| - 1]
  }

  lemma SwapRemoveContents<T>(s: seq<T>, i: nat)
    requires i < |s|
    ensures multiset(s) == multiset(SwapRemove(s, i)) + multiset{s[i]}
  {
    var n := |s| - 1;
    assert s == s[..n] + [s[n]];
    if i < n {
      var middle := s[i + 1..n];
      assert s[..n] == s[..i] + ([s[i]] + middle);
      assert SwapRemove(s, i) == s[..i] + ([s[n]] + middle);
    } else {
      assert SwapRemove(s, i) == s[..n];
    }
  }

  lemma SwapRemovePrefix<T>(s: seq<T>, i: nat)
    requires i < |s|
    ensures |SwapRemove(s, i)| == |s| - 1 && forall k :: 0 <= k < i ==> SwapRemove(s, i)[k] == s[k]
  {
  }

  /** Time as the bridge reads it: later readings are never earlier. */
  class Clock {
    var now: nat

    method Now() returns (t: nat)
      modifies this
      ensures t == now >= old(now)
    {
      var later: nat :| later >= now;
      now := later;
      t := now;
    }
  }

  /** Every candidate sent once has been sent again, or waits to be, or is in hand: each once. */
  ghost predicate Balanced(first: multiset<Pending>, resent: multiset<Pending>, waiting: multiset<Pending>,
                           inHand: Option<Pending>) {
    first == resent + waiting + match inHand case None => multiset{} case Some(p) => multiset{p}
  }

  lemma SentOnce(first: multiset<Pending>, resent: multiset<Pending>, waiting: seq<Pending>, p: Pending)
    requires Balanced(first, resent, multiset(waiting), None)
    ensures Balanced(first + multiset{p}, resent, multiset(waiting + [p]), None)
  {
  }

  lemma TakeInHand(first: multiset<Pending>, resent: multiset<Pending>, waiting: multiset<Pending>,
                   rest: multiset<Pending>, p: Pending)
    requires Balanced(first, resent, waiting, None) && waiting == rest + multiset{p}
    ensures Balanced(first, resent, rest, Some(p)) && Balanced(first, resent + multiset{p}, rest, None)
  {
  }

  /** A candidate that went out again, and the time the bridge read before it did. */
  datatype Resend = Resend(what: Pending, at: nat)

  ghost function Whats(resent: seq<Resend>): multiset<Pending> {
    if resent == [] then multiset{} else Whats(resent[..|resent| - 1]) + multiset{resent[|resent| - 1].what}
  }

  lemma WhatsSnoc(resent: seq<Resend>, r: Resend)
    ensures Whats(resent + [r]) == Whats(resent) + multiset{r.what}
  {
  }

  function Names(pending: seq<Pending>): (r: seq<string>)
    ensures |r| == |pending| && forall i :: 0 <= i < |r| ==> r[i] == pending[i].candidate
  {
    seq(|pending|, i requires 0 <= i < |pending| => pending[i].candidate)
  }

  function ResentNames(resent: seq<Resend>): (r: seq<string>)
    ensures |r| == |resent| && forall i :: 0 <= i < |r| ==> r[i] == resent[i].what.candidate
  {
    seq(|resent|, i requires 0 <= i < |resent| => resent[i].what.candidate)
  }

  lemma NamesSnoc(pending: seq<Pending>, p: Pending, resent: seq<Resend>, r: Resend)
    ensures Names(pending + [p]) == Names(pending) + [p.candidate]
    ensures ResentNames(resent + [r]) == ResentNames(resent) + [r.what.candidate]
  {
  }

  lemma NamesSwapRemove(pending: seq<Pending>, i: nat)
    requires i < |pending|
    ensures multiset(Names(pending)) == multiset(Names(SwapRemove(pending, i))) + multiset{pending[i].candidate}
  {
    SwapRemoveContents(Names(pending), i);
    assert Names(SwapRemove(pending, i)) == SwapRemove(Names(pending), i);
  }

  /** What went over the wire is what was sent once and what was sent again; and with what waits,
      or is in hand, that is everything twice. */
  ghost predicate Wired(wire: seq<string>, first: seq<Pending>, resent: seq<Resend>, waiting: seq<Pending>,
                        inHand: Option<Pending>) {
    && multiset(wire) == multiset(Names(first)) + multiset(ResentNames(resent))
    && multiset(wire) + multiset(Names(waiting)) + (match inHand case None => multiset{} case Some(p) => multiset{p.candidate})
       == multiset(Names(first)) + multiset(Names(first))
  }

  lemma WiredOnce(wire: seq<string>, first: seq<Pending>, resent: seq<Resend>, waiting: seq<Pending>, p: Pending)
    requires Wired(wire, first, resent, waiting, None)
    ensures Wired(wire + [p.candidate], first + [p], resent, waiting + [p], None)
  {
    NamesSnoc(first, p, [], Resend(p, 0));
    NamesSnoc(waiting, p, [], Resend(p, 0));
    OneMore(wire, p.candidate);
    OneMore(Names(first), p.candidate);
    OneMore(Names(waiting), p.candidate);
    BothSides(multiset(wire), multiset(Names(waiting)), multiset(Names(first)), multiset{p.candidate});
  }

  lemma BothSides(wire: multiset<string>, waiting: multiset<string>, first: multiset<string>, one: multiset<string>)
    requires wire + waiting + multiset{} == first + first
    ensures (wire + one) + (waiting + one) + multiset{} == (first + one) + (first + one)
  {
    forall c: string
      ensures ((wire + one) + (waiting + one) + multiset{})[c] == ((first + one) + (first + one))[c]
    {
      assert (wire + waiting + multiset{})[c] == (first + first)[c];
    }
  }

  lemma OneMore(s: seq<string>, c: string)
    ensures multiset(s + [c]) == multiset(s) + multiset{c}
  {
  }

  lemma WiredInHand(wire: seq<string>, first: seq<Pending>, resent: seq<Resend>, waiting: seq<Pending>, i: nat, at: nat)
    requires i < |waiting| && Wired(wire, first, resent, waiting, None)
    ensures Wired(wire, first, resent, SwapRemove(waiting, i), Some(waiting[i]))
    ensures Wired(wire + [waiting[i].candidate], first, resent + [Resend(waiting[i], at)], SwapRemove(waiting, i), None)
  {
    NamesSwapRemove(waiting, i);
    NamesSnoc([], waiting[i], resent, Resend(waiting[i], at));
    OneMore(wire, waiting[i].candidate);
    OneMore(ResentNames(resent), waiting[i].candidate);
  }

  lemma ResentSince(earlier: seq<Resend>, resent: seq<Resend>, r: Resend)
    requires earlier <= resent
    ensures earlier <= resent + [r]
    ensures ResentNames((resent + [r])[|earlier|..]) == ResentNames(resent[|earlier|..]) + [r.what.candidate]
  {
    assert (resent + [r])[|earlier|..] == resent[|earlier|..] + [r];
  }

  class IceBridge {
    var pendingResend: seq<Pending>
    // Every candidate that went over the wire, in order; what went out once; and what went out a
    // second time and when.
    ghost var wire: seq<string>
    ghost var first: seq<Pending>
    ghost var resent: seq<Resend>

    /** No candidate went out again before its delay. */
    ghost predicate Delayed()
      reads this
    {
      forall r | r in resent :: r.what.at + 400 <= r.at
    }

    ghost predicate Accounted(inHand: Option<Pending>)
      reads this
    {
      && Balanced(multiset(first), Whats(resent), multiset(pendingResend), inHand)
      && Wired(wire, first, resent, pendingResend, inHand)
    }

    ghost predicate Valid()
      reads this
    {
      Accounted(None) && Delayed()
    }

    constructor ()
      ensures Valid() && first == [] && wire == []
    {
      pendingResend := [];
      wire, first, resent := [], [], [];
    }

    /** A send over the rendezvous socket fails or times out whenever the environment likes. */
    method Send(candidate: string) returns (ok: bool)
      modifies this`wire
      ensures wire == if ok then old(wire) + [candidate] else old(wire)
    {
      ok := *;
      if ok {
        wire := wire + [candidate];
      }
    }

    /** Sends a candidate for the first time and queues it with the time after that. */
    method SendFirst(candidate: string, clock: Clock) returns (sent: bool)
      requires Valid()
      modifies this`pendingResend, this`first, this`wire, clock
      ensures Valid() && clock.now >= old(clock.now)
      ensures sent ==>
        && pendingResend == old(pendingResend) + [Pending(clock.now, candidate)]
        && first == old(first) + [Pending(clock.now, candidate)]
        && wire == old(wire) + [candidate] && Names(first) == old(Names(first)) + [candidate]
      ensures !sent ==> pendingResend == old(pendingResend) && first == old(first) && wire == old(wire)
    {
      hide Balanced, Whats, Wired;
      sent := Send(candidate);
      if sent {
        var t := clock.Now();
        var p := Pending(t, candidate);
        SentOnce(multiset(first), Whats(resent), pendingResend, p);
        WiredOnce(old(wire), first, resent, pendingResend, p);
        NamesSnoc(first, p, [], Resend(p, t));
        assert multiset(first + [p]) == multiset(first) + multiset{p};
        pendingResend := pendingResend + [p];
        first := first + [p];
      }
    }

    /** Sends the local candidates gathered so far; the first failure ends the bridge. */
    method DrainLocal(gathered: seq<string>, clock: Clock) returns (ok: bool)
      requires Valid()
      modifies this`pendingResend, this`first, this`wire, clock
      ensures Valid() && clock.now >= old(clock.now)
      ensures
        var sent := |wire| - |old(wire)|;
        && 0 <= sent <= |gathered| && (ok <==> sent == |gathered|) && wire == old(wire) + gathered[..sent]
        && Names(first) == old(Names(first)) + gathered[..sent]
        && |pendingResend| == |old(pendingResend)| + sent && |first| == |old(first)| + sent
      ensures old(pendingResend) <= pendingResend && old(first) <= first
      ensures forall i :: |old(pendingResend)| <= i < |pendingResend| ==>
        && i - |old(pendingResend)| < |gathered| && pendingResend[i].candidate == gathered[i - |old(pendingResend)|]
        && old(clock.now) <= pendingResend[i].at <= clock.now
    {
      hide Balanced, Whats, Wired, Accounted, Names;
      for i := 0 to |gathered|
        invariant Valid() && clock.now >= old(clock.now) && wire == old(wire) + gathered[..i]
        invariant Names(first) == old(Names(first)) + gathered[..i]
        invariant old(pendingResend) <= pendingResend && |pendingResend| == |old(pendingResend)| + i
        invariant old(first) <= first && |first| == |old(first)| + i
        invariant forall k :: |old(pendingResend)| <= k < |pendingResend| ==>
          && pendingResend[k].candidate == gathered[k - |old(pendingResend)|]
          && old(clock.now) <= pendingResend[k].at <= clock.now
      {
        var sent := SendFirst(gathered[i], clock);
        if !sent {
          return false;
        }
        assert gathered[..i + 1] == gathered[..i] + [gathered[i]];
      }
      return true;
    }

    /** Takes a due candidate out; either it is in hand from then on, or it goes out again at `at`. */
    method TakeDue(i: nat, ghost at: nat) returns (due: Pending)
      requires Valid() && i < |pendingResend|
      modifies this`pendingResend
      ensures due == old(pendingResend[i]) && |pendingResend| == |old(pendingResend)| - 1
      ensures forall k :: 0 <= k < i ==> pendingResend[k] == old(pendingResend[k])
      ensures Accounted(Some(due))
      ensures Balanced(multiset(first), Whats(resent + [Resend(due, at)]), multiset(pendingResend), None)
      ensures Wired(wire + [due.candidate], first, resent + [Resend(due, at)], pendingResend, None)
    {
      hide SwapRemove, Balanced, Whats, Wired;
      due := pendingResend[i];
      SwapRemoveContents(pendingResend, i);
      SwapRemovePrefix(pendingResend, i);
      TakeInHand(multiset(first), Whats(resent), multiset(pendingResend), multiset(SwapRemove(pendingResend, i)), due);
      WhatsSnoc(resent, Resend(due, at));
      WiredInHand(wire, first, resent, pendingResend, i, at);
      pendingResend := SwapRemove(pendingResend, i);
    }

    /** Sends a due candidate again. */
    method Repeat(i: nat, t: nat) returns (due: Pending, sent: bool)
      requires Valid() && i < |pendingResend| && pendingResend[i].at + 400 <= t
      modifies this`pendingResend, this`resent, this`wire
      ensures due == old(pendingResend[i]) && |pendingResend| == |old(pendingResend)| - 1
      ensures forall k :: 0 <= k < i ==> pendingResend[k] == old(pendingResend[k])
      ensures sent ==> Valid() && resent == old(resent) + [Resend(due, t)] && wire == old(wire) + [due.candidate]
      ensures !sent ==> Accounted(Some(due)) && Delayed() && resent == old(resent) && wire == old(wire)
    {
      hide Balanced, Whats, Wired;
      due := TakeDue(i, t);
      sent := Send(due.candidate);
      if sent {
        resent := resent + [Resend(due, t)];
      }
    }

    /** One pass over the waiting candidates. It repeats every candidate whose delay had passed
        when it began, repeats none before its delay and none twice, and ends. A failed send ends
        the bridge with at most the one candidate in hand unaccounted for. */
    method ResendDue(clock: Clock) returns (ok: bool, ghost inHand: Option<Pending>)
      requires Valid()
      modifies this`pendingResend, this`resent, this`wire, clock
      ensures Accounted(inHand) && Delayed()
      ensures old(resent) <= resent && wire == old(wire) + ResentNames(resent[|old(resent)|..])
      ensures forall k :: |old(resent)| <= k < |resent| ==> old(clock.now) <= resent[k].at <= clock.now
      ensures ok ==> inHand == None
      ensures ok ==> forall k :: 0 <= k < |pendingResend| ==> old(clock.now) < pendingResend[k].at + 400
    {
      hide Balanced, Whats, Wired, ResentNames;
      inHand := None;
      var i := 0;
      while i < |pendingResend|
        invariant i <= |pendingResend| && Valid() && inHand == None
        invariant forall k :: 0 <= k < i ==> old(clock.now) < pendingResend[k].at + 400
        invariant clock.now >= old(clock.now) && old(resent) <= resent
        invariant wire == old(wire) + ResentNames(resent[|old(resent)|..])
        invariant forall k :: |old(resent)| <= k < |resent| ==> old(clock.now) <= resent[k].at <= clock.now
        decreases |pendingResend| - i
      {
        var t := clock.Now();
        if t >= pendingResend[i].at + WEBRTC_ICE_RESEND_DELAY {
          ghost var before := resent;
          var due, sent := Repeat(i, t);
          if !sent {
            inHand := Some(due);
            return false, inHand;
          }
          ResentSince(old(resent), before, Resend(due, t));
        } else {
          i := i + 1;
        }
      }
      return true, inHand;
    }

    /** Any number of turns of the bridge, until it is stopped or a send fails. What is sent for the
        first time is what was gathered, in order, from the front. */
    method Run(turns: seq<seq<string>>, clock: Clock) returns (ghost inHand: Option<Pending>)
      requires Valid()
      modifies this, clock
      ensures Accounted(inHand) && Delayed() && Names(first) <= old(Names(first)) + Concat(turns)
    {
      hide Balanced, Whats, Wired, Accounted, Names, Concat, Delayed;
      inHand := None;
      NothingYet();
      for i := 0 to |turns|
        invariant Valid() && inHand == None && Names(first) == old(Names(first)) + Concat(turns[..i])
      {
        FirstTurns(turns, i);
        var stopped: bool := *;
        if stopped {
          return;
        }
        ghost var before := Names(first);
        var drained := DrainLocal(turns[i], clock);
        if !drained {
          PrefixOfTurn(turns, i, old(Names(first)), Names(first), |Names(first)| - |before|);
          return;
        }
        var passed;
        passed, inHand := ResendDue(clock);
        if !passed {
          PrefixOfTurn(turns, i, old(Names(first)), Names(first), |turns[i]|);
          return;
        }
      }
      assert turns[..|turns|] == turns;
    }
  }

  lemma NothingYet()
    ensures Names([]) == [] && forall turns: seq<seq<string>> :: Concat(turns[..0]) == []
  {
  }

  lemma {:induction false} FirstTurns(turns: seq<seq<string>>, i: nat)
    requires i <= |turns|
    ensures Concat(turns[..i]) <= Concat(turns)
    ensures i < |turns| ==> Concat(turns[..i + 1]) == Concat(turns[..i]) + turns[i]
    decreases |turns| - i
  {
    if i < |turns| {
      assert turns[..i + 1] == turns[..i] + [turns[i]];
      ConcatSnoc(turns[..i], turns[i]);
      FirstTurns(turns, i + 1);
    } else {
      assert turns[..i] == turns;
    }
  }

  lemma PrefixOfTurn(turns: seq<seq<string>>, i: nat, earlier: seq<string>, names: seq<string>, sent: nat)
    requires i < |turns| && sent <= |turns[i]| && names == earlier + Concat(turns[..i]) + turns[i][..sent]
    ensures names <= earlier + Concat(turns)
  {
    FirstTurns(turns, i);
    FirstTurns(turns, i + 1);
    assert turns[i] == turns[i][..sent] + turns[i][sent..];
  }
}
