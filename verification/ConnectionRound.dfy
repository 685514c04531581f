/** One connection round: who owns the WebRTC peer connection at every suspension, how the round
    can end, and what it returns. Every outcome of the environment is a free choice, and the round
    can be cancelled whenever it is suspended; dropping its variables is one step after the body,
    whatever way the body ended. */
module ConnectionRound {
  import opened Prelude
  import OuterRace
  import TransportRace

  datatype Label = Tcp | Udp | Ipv6 | WebRtc | Relay | WebSocket

  class PeerConnection {
    var closes: nat
    constructor ()
      ensures closes == 0
    {
      closes := 0;
    }

    method CloseDetached()
      modifies this
      ensures closes == old(closes) + 1
    {
      closes := closes + 1;
    }
  }

  /** The sending half of the bridge's stop channel; sending on it and dropping it both end it. */
  class BridgeStop {
    var over: bool
    constructor ()
      ensures !over
    {
      over := false;
    }

    method End()
      modifies this
      ensures over
    {
      over := true;
    }
  }

  /** A transport that a race can return; only a WebRTC one carries the peer connection. */
  datatype Attempt = Attempt(typ: Label, kcp: bool, direct: bool)

  datatype Outcome =
    | Connected(typ: Label, direct: bool, kcp: bool, stream: PeerConnection?)
    | Failed
    | Cancelled

  predicate IsWebRtc(o: Outcome) {
    o.Connected? && o.typ == WebRtc
  }

  /** The peer connection is the returned, open transport or has been closed once: never both and
      never neither. */
  ghost predicate Settled(pc: PeerConnection?, o: Outcome)
    reads pc
  {
    && (o.Connected? ==> o.stream == (if o.typ == WebRtc then pc else null))
    && (IsWebRtc(o) ==> pc != null)
    && (pc != null ==> pc.closes == (if IsWebRtc(o) then 0 else 1))
  }

  /** What the label, the direct flag and the KCP handle of a result say about each other. */
  predicate Consistent(o: Outcome) {
    o.Connected? ==>
      && (o.kcp <==> o.typ == Udp || o.typ == Ipv6)
      && (o.typ == Relay || o.typ == WebSocket ==> !o.direct)
      && (o.typ == Tcp || o.typ == Udp || o.typ == Ipv6 ==> o.direct)
  }

  function AttemptOf(typ: Label, relayed: bool): Attempt {
    match typ
    case Tcp => Attempt(Tcp, false, true)
    case Udp => Attempt(Udp, true, true)
    case Ipv6 => Attempt(Ipv6, true, true)
    case WebRtc => Attempt(WebRtc, false, !relayed)
    case Relay => Attempt(Relay, false, false)
    case WebSocket => Attempt(WebSocket, false, false)
  }

  datatype Settings = Settings(forceRelay: bool, policyRelay: bool, useWs: bool, allowTcp: bool)

  /** A suspension that ends when it likes: with a result, with an error, or by cancellation. */
  datatype Step = Done | Error | Dropped

  /** How a round ends at a suspension that brought no result. */
  function Ended(step: Step): Outcome {
    if step == Dropped then Cancelled else Failed
  }

  method Await() returns (step: Step)
  {
    if * { step := Done; } else if * { step := Error; } else { step := Dropped; }
  }

  // ---- The awaited operations that decide a round, and the record they leave ----

  /** What was awaited and how it ended: a race over some transports and its winner, a relay, the
      authentication of a connection's peer, and the question whether a WebRTC one is relayed. */
  datatype Entry =
    | RaceEnded(attempts: set<Label>, step: Step, typ: Label, relayed: bool)
    | RelayOpened(step: Step, typ: Label)
    | Authenticated(step: Step, typ: Label)
    | Judged(step: Step, relayed: bool)

  /** The connection that was made last, if making it succeeded. */
  ghost function Made(log: seq<Entry>): Option<Label> {
    if log == [] then None
    else
      var last := log[|log| - 1];
      if last.RaceEnded? || last.RelayOpened? then (if last.step == Done then Some(last.typ) else None)
      else Made(log[..|log| - 1])
  }

  /** The connection whose peer was authenticated last, if that succeeded. */
  ghost function Proven(log: seq<Entry>): Option<Label> {
    if log == [] then None
    else
      var last := log[|log| - 1];
      if last.Authenticated? then (if last.step == Done then Some(last.typ) else None)
      else Proven(log[..|log| - 1])
  }

  /** Only the connection that was made last is authenticated. A relay is opened only after a race
      that failed, in place of another transport than WebRTC under forced relay, or after WebRTC
      failed to authenticate. Nothing follows a cancellation. */
  ghost predicate InOrder(log: seq<Entry>, forceRelay: bool) {
    log != [] ==>
      var earlier, last := log[..|log| - 1], log[|log| - 1];
      && InOrder(earlier, forceRelay)
      && (earlier != [] ==> earlier[|earlier| - 1].step != Dropped)
      && (last.RaceEnded? ==> earlier == [])
      && (last.Authenticated? ==> Made(earlier) == Some(last.typ))
      && (last.RelayOpened? ==>
            && (last.typ == Relay || last.typ == WebSocket)
            && earlier != [] && CallsForRelay(earlier[|earlier| - 1], forceRelay))
  }

  predicate CallsForRelay(e: Entry, forceRelay: bool) {
    match e
    case RaceEnded(_, step, typ, _) => step == Error || (forceRelay && typ != WebRtc)
    case Authenticated(step, typ) => step == Error && typ == WebRtc
    case _ => false
  }

  /** No answer in the record says that the path is relayed, or fails to say. */
  ghost predicate NeverRelayed(log: seq<Entry>) {
    forall e | e in log :: (e.RaceEnded? ==> !e.relayed) && (e.Judged? ==> e.step == Done && !e.relayed)
  }

  /** What one more entry does to all of these. */
  lemma OneEntryMore(log: seq<Entry>, e: Entry, forceRelay: bool)
    ensures Made(log + [e])
      == if e.RaceEnded? || e.RelayOpened? then (if e.step == Done then Some(e.typ) else None) else Made(log)
    ensures Proven(log + [e]) == if e.Authenticated? then (if e.step == Done then Some(e.typ) else None) else Proven(log)
    ensures NeverRelayed(log + [e]) <==>
      NeverRelayed(log) && (e.RaceEnded? ==> !e.relayed) && (e.Judged? ==> e.step == Done && !e.relayed)
    ensures InOrder(log + [e], forceRelay) <==>
      && InOrder(log, forceRelay)
      && (log != [] ==> log[|log| - 1].step != Dropped)
      && (e.RaceEnded? ==> log == [])
      && (e.Authenticated? ==> Made(log) == Some(e.typ))
      && (e.RelayOpened? ==> (e.typ == Relay || e.typ == WebSocket) && log != [] && CallsForRelay(log[|log| - 1], forceRelay))
  {
    assert (log + [e])[..|log|] == log;
  }

  lemma EmptyRecord()
    ensures Made([]) == None && Proven([]) == None && NeverRelayed([])
    ensures forall forceRelay :: InOrder([], forceRelay)
  {
  }

  /** The network, which answers as it likes and keeps the record. */
  class Network {
    ghost const forceRelay: bool
    ghost var log: seq<Entry>

    ghost predicate Ordered()
      reads this
    {
      InOrder(log, forceRelay)
    }

    /** Nothing has been cancelled. */
    ghost predicate Running()
      reads this
    {
      log != [] ==> log[|log| - 1].step != Dropped
    }

    constructor (ghost forceRelay: bool)
      ensures log == [] && this.forceRelay == forceRelay
    {
      this.forceRelay := forceRelay;
      log := [];
    }

    /** A race over some attempts returns one of them, an error, or nothing when cancelled. The
        relayedness of a WebRTC attempt is judged when it connects. */
    method Race(attempts: seq<Label>) returns (step: Step, won: Attempt, relayed: bool)
      requires log == []
      modifies this
      ensures log == [RaceEnded((set t | t in attempts), step, won.typ, relayed)]
      ensures step == Done ==> won.typ in attempts && won == AttemptOf(won.typ, relayed)
      ensures Ordered() && Proven(log) == None && (NeverRelayed(log) <==> !relayed)
      ensures Made(log) == if step == Done then Some(won.typ) else None
    {
      won := AttemptOf(Tcp, false);
      relayed := *;
      step := Await();
      if step == Done {
        if attempts == [] {
          step := Error;
        } else {
          var i :| 0 <= i < |attempts|;
          won := AttemptOf(attempts[i], relayed);
        }
      }
      EmptyRecord();
      OneEntryMore([], RaceEnded((set t | t in attempts), step, won.typ, relayed), forceRelay);
      log := [] + [RaceEnded((set t | t in attempts), step, won.typ, relayed)];
    }

    method OpenRelay(typ: Label) returns (step: Step)
      modifies this
      ensures log == old(log) + [RelayOpened(step, typ)]
      ensures old(Ordered() && Running() && log != [] && CallsForRelay(log[|log| - 1], forceRelay)) ==>
        typ == Relay || typ == WebSocket ==> Ordered()
      ensures Proven(log) == old(Proven(log)) && Made(log) == if step == Done then Some(typ) else None
    {
      step := Await();
      OneEntryMore(log, RelayOpened(step, typ), forceRelay);
      log := log + [RelayOpened(step, typ)];
    }

    /** Checks the identity of the peer at the other end of a connection. */
    method Authenticate(typ: Label) returns (step: Step)
      modifies this
      ensures log == old(log) + [Authenticated(step, typ)]
      ensures old(Ordered() && Running() && Made(log) == Some(typ)) ==> Ordered()
      ensures Made(log) == old(Made(log)) && Proven(log) == if step == Done then Some(typ) else None
      ensures NeverRelayed(log) <==> old(NeverRelayed(log))
    {
      step := Await();
      OneEntryMore(log, Authenticated(step, typ), forceRelay);
      log := log + [Authenticated(step, typ)];
    }

    method JudgeRelayed() returns (step: Step, relayed: bool)
      modifies this
      ensures log == old(log) + [Judged(step, relayed)]
      ensures old(Ordered() && Running()) ==> Ordered()
      ensures Made(log) == old(Made(log)) && Proven(log) == old(Proven(log))
      ensures NeverRelayed(log) <==> old(NeverRelayed(log)) && step == Done && !relayed
    {
      step := Await();
      relayed := *;
      OneEntryMore(log, Judged(step, relayed), forceRelay);
      log := log + [Judged(step, relayed)];
    }

    /** A WebRTC win that fails to authenticate gives way to a fresh relay connection. */
    method FreshRelay(typ: Label) returns (step: Step)
      requires typ == Relay || typ == WebSocket
      requires log != [] && log[|log| - 1] == Authenticated(Error, WebRtc) && Ordered() && Proven(log) == None
      modifies this
      ensures Ordered() && Proven(log) == (if step == Done then Some(typ) else None)
      ensures |log| > |old(log)| && log[0] == old(log[0])
      ensures log[|log| - 1] == RelayOpened(step, typ) || log[|log| - 1] == Authenticated(step, typ)
    {
      hide Made, Proven, InOrder, NeverRelayed;
      step := OpenRelay(typ);
      if step == Done {
        step := Authenticate(typ);
      }
    }
  }

  /** A connection is returned exactly when the peer at its other end has been authenticated last
      and nothing was cancelled after that. */
  ghost predicate Authentic(o: Outcome, log: seq<Entry>) {
    && (o.Connected? ==> Proven(log) == Some(o.typ))
    && (!o.Connected? && Proven(log).Some? ==> o.Cancelled? && log[|log| - 1].step == Dropped)
  }

  lemma NothingAuthentic()
    ensures Authentic(Failed, []) && Authentic(Cancelled, []) && Consistent(Failed) && Consistent(Cancelled)
  {
  }

  /** The transports a race after a punched hole is over. */
  ghost function Offered(tcp: bool, udp: bool, ipv6: bool, webrtc: bool): set<Label> {
    (if tcp then {Tcp} else {}) + (if udp then {Udp} else {}) + (if ipv6 then {Ipv6} else {}) + (if webrtc then {WebRtc} else {})
  }

  /** The transports a race after a relay offer is over. */
  ghost function RelayOffered(ipv6: bool, useWs: bool, webrtc: bool): set<Label> {
    (if ipv6 then {Ipv6} else {}) + (if useWs then {WebSocket} else {Relay}) + (if webrtc then {WebRtc} else {})
  }

  lemma RelayOfferedIs(ipv6: bool, useWs: bool, webrtc: bool)
    ensures Tcp !in RelayOffered(ipv6, useWs, webrtc) && (WebRtc in RelayOffered(ipv6, useWs, webrtc) <==> webrtc)
  {
  }

  /** Why `connect` gives up: nothing could be made and no relay server is known, a relay could not
      be opened, or the peer could not be authenticated and there is nothing to fall back to. */
  ghost predicate FailedFor(log: seq<Entry>, forceRelay: bool, relayServer: bool) {
    log != [] && match log[|log| - 1]
      case RaceEnded(_, step, typ, _) => !relayServer && (step == Error || (forceRelay && typ != WebRtc))
      case RelayOpened(step, _) => step == Error
      case Authenticated(step, typ) => step == Error && !(typ == WebRtc && relayServer)
      case Judged(_, _) => false
  }

  /** Why a relay offer leads nowhere: no transport could be made, or the peer could not be
      authenticated, over WebRTC and then over a fresh relay or over what was made. */
  ghost predicate OfferFailedFor(log: seq<Entry>) {
    log != [] && match log[|log| - 1]
      case RaceEnded(_, step, _, _) => step == Error
      case RelayOpened(step, _) => step == Error
      case Authenticated(step, typ) => step == Error && typ != WebRtc
      case Judged(_, _) => false
  }

  method ListOffered(tcp: bool, udp: bool, ipv6: bool, webrtc: bool) returns (attempts: seq<Label>)
    ensures (set t | t in attempts) == Offered(tcp, udp, ipv6, webrtc)
    ensures Tcp in attempts ==> tcp
    ensures Udp in attempts ==> udp
    ensures Ipv6 in attempts ==> ipv6
    ensures WebRtc in attempts ==> webrtc
    ensures Relay !in attempts && WebSocket !in attempts
  {
    attempts := [];
    if tcp { attempts := attempts + [Tcp]; }
    if udp { attempts := attempts + [Udp]; }
    if ipv6 { attempts := attempts + [Ipv6]; }
    if webrtc { attempts := attempts + [WebRtc]; }
  }

  // ---- connect: the attempts after a punched hole ----

  class ConnectFrame {
    var webrtcGuard: PeerConnection?  // in an armed guard
    var bridgeStop: BridgeStop?
    ghost const pc: PeerConnection?
    ghost const spawned: BridgeStop?

    constructor (pc: PeerConnection?, bridgeStop: BridgeStop?)
      requires pc != null ==> pc.closes == 0
      ensures Guarded() && this.pc == pc && this.spawned == bridgeStop && webrtcGuard == pc && this.bridgeStop == bridgeStop
    {
      webrtcGuard := pc;
      this.bridgeStop := bridgeStop;
      this.pc, this.spawned := pc, bridgeStop;
    }

    /** Holds at every suspension: exactly one armed guard, or closed exactly once. */
    ghost predicate Guarded()
      reads this, pc, spawned
    {
      && (webrtcGuard == null || webrtcGuard == pc)
      && (pc != null ==> pc.closes + (if webrtcGuard == null then 0 else 1) == 1)
      && (spawned != null ==> spawned.over || bridgeStop == spawned)
      && (bridgeStop == null || bridgeStop == spawned)
    }

    method DropWebrtcGuard()
      requires Guarded()
      modifies this`webrtcGuard, pc
      ensures Guarded() && webrtcGuard == null
    {
      if webrtcGuard != null {
        webrtcGuard.CloseDetached();
        webrtcGuard := null;
      }
    }

    method StopBridge()
      requires Guarded()
      modifies this`bridgeStop, spawned
      ensures Guarded() && bridgeStop == null
    {
      if bridgeStop != null {
        bridgeStop.End();
        bridgeStop := null;
      }
    }

    /** The direct attempts, raced; the bridge ends with the race. */
    method RaceDirect(net: Network, s: Settings, udp: bool, ipv6: bool) returns (step: Step, won: Attempt, relayed: bool)
      requires Guarded() && net.log == []
      modifies this`bridgeStop, spawned, net
      ensures Guarded() && (step != Dropped ==> bridgeStop == null)
      ensures step == Done ==> match won.typ
        case Tcp => s.allowTcp
        case Udp => udp
        case Ipv6 => ipv6
        case WebRtc => webrtcGuard != null
        case _ => false
      ensures net.log == [] ==> step == Dropped
      ensures net.log != [] ==>
        && net.log == [RaceEnded(Offered(s.allowTcp, udp, ipv6, webrtcGuard != null), step, won.typ, relayed)]
        && (NeverRelayed(net.log) <==> !relayed)
        && (step == Done ==> won == AttemptOf(won.typ, relayed))
      ensures net.Ordered() && Proven(net.log) == None && Made(net.log) == if step == Done then Some(won.typ) else None
    {
      hide Made, Proven, InOrder, NeverRelayed;
      EmptyRecord();
      won, relayed := AttemptOf(Tcp, false), false;
      step := Await();  // the NAT type may have to be asked for
      if step != Dropped {
        var attempts := ListOffered(s.allowTcp, udp, ipv6, webrtcGuard != null);
        step, won, relayed := net.Race(attempts);
        if step != Dropped {
          StopBridge();
        }
      }
    }

    /** One connection after a punched hole. A result is returned exactly when its peer has been
        authenticated, and the round fails only for the reasons that its record shows. */
    method Body(net: Network, s: Settings, udp: bool, ipv6: bool, relayServer: bool) returns (o: Outcome)
      requires Guarded() && webrtcGuard == pc && net.log == [] && net.forceRelay == s.forceRelay
      modifies this`webrtcGuard, this`bridgeStop, pc, spawned, net
      ensures spawned != null ==> spawned.over || bridgeStop == spawned
      ensures bridgeStop == null || bridgeStop == spawned
      ensures if IsWebRtc(o) then pc != null && pc.closes == 0 && webrtcGuard == null else Guarded()
      ensures o.Connected? ==> o.stream == (if o.typ == WebRtc then pc else null)
      ensures !(s.forceRelay && (udp || ipv6)) ==> Consistent(o)
      ensures s.forceRelay && o.Connected? ==> o.typ == Relay || o.typ == WebRtc
      ensures Authentic(o, net.log) && net.Ordered()
      ensures IsWebRtc(o) ==> (o.direct <==> NeverRelayed(net.log))
      ensures net.log != [] ==>
        net.log[0].RaceEnded? && net.log[0].attempts == Offered(s.allowTcp, udp, ipv6, pc != null)
      ensures o.Failed? ==> FailedFor(net.log, s.forceRelay, relayServer)
      ensures o.Cancelled? ==> net.log == [] || net.log[|net.log| - 1].step == Dropped
    {
      hide Made, Proven, InOrder, NeverRelayed, Offered;
      var step, won, _ := RaceDirect(net, s, udp, ipv6);
      if step == Dropped { return Cancelled; }
      var typ, direct := won.typ, step == Done && won.direct;
      var kcp := step == Done && won.kcp;
      if (s.forceRelay && !(step == Done && typ == WebRtc)) || step == Error {
        if !relayServer { return Failed; }
        var relay := net.OpenRelay(Relay);
        if relay != Done { return Ended(relay); }
        typ, direct := Relay, false;
      }
      o := Secure(net, typ, direct, kcp, relayServer);
    }

    /** From the connection that was kept to the result. */
    method Secure(net: Network, kept: Label, isDirect: bool, kcp: bool, relayServer: bool) returns (o: Outcome)
      requires Guarded() && webrtcGuard == pc && (kept == WebRtc ==> pc != null)
      requires net.log != [] && net.Ordered() && net.Running() && Made(net.log) == Some(kept) && Proven(net.log) == None
      requires kept == WebRtc ==> (isDirect <==> NeverRelayed(net.log))
      modifies this`webrtcGuard, pc, net
      ensures if IsWebRtc(o) then pc != null && pc.closes == 0 && webrtcGuard == null else Guarded()
      ensures o.Connected? ==>
        && o.stream == (if o.typ == WebRtc then pc else null) && o.kcp == kcp
        && (o.typ == kept || (kept == WebRtc && o.typ == Relay))
        && (o.typ == WebRtc || o.direct == (kept != WebRtc && isDirect))
      ensures Authentic(o, net.log) && net.Ordered()
      ensures IsWebRtc(o) ==> (o.direct <==> NeverRelayed(net.log))
      ensures net.log != [] && net.log[0] == old(net.log[0])
      ensures o.Failed? ==> match net.log[|net.log| - 1]
        case RelayOpened(step, _) => step == Error
        case Authenticated(step, typ) => step == Error && !(typ == WebRtc && relayServer)
        case _ => false
      ensures o.Cancelled? ==> net.log[|net.log| - 1].step == Dropped
    {
      hide Made, Proven, InOrder, NeverRelayed;
      var typ, direct := kept, isDirect;
      var secured := net.Authenticate(typ);
      if secured == Dropped { return Cancelled; }
      if secured == Error {
        if !(typ == WebRtc && relayServer) { return Failed; }
        DropWebrtcGuard();
        var relay := net.FreshRelay(Relay);
        if relay != Done { return Ended(relay); }
        typ, direct := Relay, false;
      }
      if typ != WebRtc {
        return Connected(typ, direct, kcp, null);
      }
      var judgement, relayedNow := net.JudgeRelayed();
      if judgement == Dropped { return Cancelled; }
      if judgement == Error || relayedNow {
        direct := false;  // relayed, or not known to be direct
      }
      var stream := webrtcGuard;
      webrtcGuard := null;
      return Connected(WebRtc, direct, kcp, stream);
    }

    method Drop()
      requires spawned != null ==> spawned.over || bridgeStop == spawned
      requires webrtcGuard == null || webrtcGuard == pc
      requires bridgeStop == null || bridgeStop == spawned
      modifies this`webrtcGuard, this`bridgeStop, pc, spawned
      ensures webrtcGuard == null && (spawned != null ==> spawned.over)
      ensures pc != null ==> pc.closes == old(pc.closes) + (if old(webrtcGuard) == null then 0 else 1)
    {
      if webrtcGuard != null {
        webrtcGuard.CloseDetached();
        webrtcGuard := null;
      }
      if bridgeStop != null {
        bridgeStop.End();
        bridgeStop := null;
      }
    }
  }

  method Connect(pc: PeerConnection?, bridgeStop: BridgeStop?, s: Settings, udp: bool, ipv6: bool, relayServer: bool)
    returns (o: Outcome, ghost log: seq<Entry>)
    requires pc != null ==> pc.closes == 0
    modifies pc, bridgeStop
    ensures Settled(pc, o) && (bridgeStop != null ==> bridgeStop.over)
    ensures !(s.forceRelay && (udp || ipv6)) ==> Consistent(o)
    ensures s.forceRelay && o.Connected? ==> o.typ == Relay || o.typ == WebRtc
    ensures Authentic(o, log) && InOrder(log, s.forceRelay)
    ensures IsWebRtc(o) ==> (o.direct <==> NeverRelayed(log))
    ensures log != [] ==> log[0].RaceEnded? && log[0].attempts == Offered(s.allowTcp, udp, ipv6, pc != null)
    ensures o.Failed? ==> FailedFor(log, s.forceRelay, relayServer)
    ensures o.Cancelled? ==> log == [] || log[|log| - 1].step == Dropped
  {
    hide Made, Proven, InOrder, NeverRelayed, FailedFor;
    var net := new Network(s.forceRelay);
    var frame := new ConnectFrame(pc, bridgeStop);
    o := frame.Body(net, s, udp, ipv6, relayServer);
    log := net.log;
    frame.Drop();
  }

  // ---- _start_inner: the punch, and what each answer leads to ----

  /** What the rendezvous server may send while the hole is being punched. */
  datatype Reply =
    | Refused
    | Punched(answer: bool, portKnown: bool, relayServer: bool, udpKept: bool, ipv6Kept: bool)
    | RelayOffer(answer: bool, ipv6Address: bool)
    | Candidate
    | OtherMessage
    | NothingInTime

  predicate Decisive(r: Reply) {
    r.Refused? || r.Punched? || r.RelayOffer?
  }

  function Timeouts(heard: seq<Reply>): nat {
    if heard == [] then 0 else Timeouts(heard[..|heard| - 1]) + (if heard[|heard| - 1].NothingInTime? then 1 else 0)
  }

  lemma OneReplyMore(heard: seq<Reply>, r: Reply)
    ensures Timeouts(heard + [r]) == Timeouts(heard) + (if r.NothingInTime? then 1 else 0)
  {
  }

  lemma NoReplyYet()
    ensures Timeouts([]) == 0 && NoneDecisive([])
  {
  }

  /** The rendezvous server and the local network before a connection is made, with a record of how
      many suspensions there were, how the latest one ended, and what was heard. */
  class Server {
    ghost var waits: nat
    ghost var errors: nat
    ghost var last: Step
    ghost var heard: seq<Reply>

    constructor ()
      ensures waits == 0 && heard == []
    {
      waits, errors, last, heard := 0, 0, Done, [];
    }

    method Wait() returns (step: Step)
      modifies this`waits, this`errors, this`last
      ensures waits == old(waits) + 1 && last == step && errors == old(errors) + (if step == Error then 1 else 0)
    {
      step := Await();
      waits, errors, last := waits + 1, errors + (if step == Error then 1 else 0), step;
    }

    method Receive(reply: Reply) returns (step: Step)
      modifies this
      ensures waits == old(waits) + 1 && last == step
      ensures heard == if step == Dropped then old(heard) else old(heard) + [reply]
    {
      step := Await();
      waits, last := waits + 1, step;
      if step != Dropped {
        heard := heard + [reply];
      }
    }
  }

  /** Listens after one punch request, until a decisive reply, a timeout or the end. */
  method Listen(server: Server, replies: seq<Reply>, start: nat, buffered: nat)
    returns (cancelled: bool, decision: Option<Reply>, next: nat, candidates: nat)
    requires start <= |replies| && server.heard == replies[..start] && NoneDecisive(replies[..start])
    modifies server
    ensures start <= next <= |replies| && server.heard == replies[..next] && server.waits >= old(server.waits)
    ensures next > start || next == |replies| || cancelled
    ensures if decision.Some? then
        next > start && decision.value == replies[next - 1] && Decisive(replies[next - 1]) && NoneDecisive(replies[..next - 1])
      else NoneDecisive(replies[..next])
    ensures decision.None? && !cancelled ==> next == |replies| || Timeouts(replies[..next]) > Timeouts(replies[..start])
  {
    hide Timeouts;
    next, candidates, decision, cancelled := start, buffered, None, false;
    while next < |replies|
      invariant start <= next <= |replies| && server.heard == replies[..next] && server.waits >= old(server.waits)
      invariant NoneDecisive(replies[..next]) && Timeouts(replies[..next]) >= Timeouts(replies[..start])
    {
      var reply := replies[next];
      var received := server.Receive(reply);
      if received == Dropped {
        cancelled := true;
        return;
      }
      OneReplyMore(replies[..next], reply);
      next := next + 1;
      assert replies[..next] == replies[..next - 1] + [reply];
      if Decisive(reply) {
        decision := Some(reply);
        return;
      }
      if reply.Candidate? {
        candidates := if candidates < 64 then candidates + 1 else candidates;
      } else if reply.NothingInTime? {
        return;
      }
    }
  }

  lemma HeardBefore(replies: seq<Reply>, next: nat)
    requires next <= |replies|
    ensures next > 0 ==> replies[..next][..next - 1] == replies[..next - 1]
    ensures next > 0 && NoneDecisive(replies[..next]) ==>
      NoneDecisive(replies[..next - 1]) && !Decisive(replies[..next][next - 1])
  {
    if next > 0 && NoneDecisive(replies[..next]) {
      assert forall i :: 0 <= i < next - 1 ==> replies[..next - 1][i] == replies[..next][i];
    }
  }

  predicate NoneDecisive(heard: seq<Reply>) {
    forall i :: 0 <= i < |heard| ==> heard[i].Candidate? || heard[i].OtherMessage? || heard[i].NothingInTime?
  }

  /** Why a round fails before any connection could be tried: a step on the way failed, the server
      refused, the peer has no port, or after three timeouts nothing had been heard. */
  ghost predicate GaveUp(server: Server, replies: seq<Reply>)
    reads server
  {
    || (server.waits > 0 && server.last == Error)
    || (if server.heard == [] then replies == []
        else match server.heard[|server.heard| - 1]
          case Refused => true
          case Punched(_, portKnown, _, _, _) => !portKnown
          case RelayOffer(_, _) => false
          case _ => server.heard == replies || Timeouts(server.heard) >= 3)
  }

  /** Why it fails after that, by what was heard last. */
  ghost predicate FailedAfter(heard: seq<Reply>, log: seq<Entry>, forceRelay: bool) {
    heard != [] && match heard[|heard| - 1]
      case Punched(_, portKnown, relayServer, _, _) => portKnown && FailedFor(log, forceRelay, relayServer)
      case RelayOffer(_, _) => OfferFailedFor(log)
      case _ => false
  }

  class RoundFrame {
    var webrtcOfferer: PeerConnection?  // in the armed guard the round starts with
    var guard: PeerConnection?          // in the armed guard of a branch's answer setup
    var webrtcForConnect: PeerConnection?  // adopted, and in no guard
    var webrtcGuard: PeerConnection?    // in the armed guard across the relay race
    var bridgeStop: BridgeStop?
    ghost const pc: PeerConnection?
    ghost var spawned: BridgeStop?

    constructor (pc: PeerConnection?)
      requires pc != null ==> pc.closes == 0
      ensures Guarded() && this.pc == pc && webrtcOfferer == pc
      ensures guard == null && webrtcForConnect == null && webrtcGuard == null && bridgeStop == null && spawned == null
    {
      webrtcOfferer := pc;
      guard, webrtcForConnect, webrtcGuard, bridgeStop := null, null, null, null;
      this.pc, spawned := pc, null;
    }

    ghost function Guards(): nat
      reads this
    {
      (if webrtcOfferer == null then 0 else 1) + (if guard == null then 0 else 1) + (if webrtcGuard == null then 0 else 1)
    }

    ghost predicate OnlyPc()
      reads this
    {
      && (webrtcOfferer == null || webrtcOfferer == pc) && (guard == null || guard == pc)
      && (webrtcForConnect == null || webrtcForConnect == pc) && (webrtcGuard == null || webrtcGuard == pc)
    }

    ghost predicate BridgeHeld()
      reads this, spawned
    {
      && (spawned != null ==> spawned.over || bridgeStop == spawned)
      && (bridgeStop == null || bridgeStop == spawned)
    }

    /** Holds at every suspension: exactly one armed guard, or closed exactly once. */
    ghost predicate Guarded()
      reads this, pc, spawned
    {
      OnlyPc() && BridgeHeld() && (pc != null ==> pc.closes + Guards() == 1)
    }

    /** Before any answer: at most the guard that the round starts with is armed. */
    ghost predicate Waiting()
      reads this, pc, spawned
    {
      Guarded() && guard == null && webrtcGuard == null && webrtcForConnect == null && bridgeStop == null && spawned == null
    }

    /** Between disarming one guard and arming the next, with no suspension in between. */
    ghost predicate Adopted()
      reads this, pc, spawned
    {
      OnlyPc() && BridgeHeld() && pc != null && pc.closes == 0 && Guards() == 0 && webrtcForConnect == pc
    }

    method DropOfferer()
      requires OnlyPc() && BridgeHeld()
      modifies this`webrtcOfferer, pc
      ensures OnlyPc() && BridgeHeld() && webrtcOfferer == null
      ensures pc != null ==> pc.closes == old(pc.closes) + (if old(webrtcOfferer) == null then 0 else 1)
    {
      if webrtcOfferer != null {
        webrtcOfferer.CloseDetached();
        webrtcOfferer := null;
      }
    }

    method DropGuard()
      requires OnlyPc() && BridgeHeld()
      modifies this`guard, pc
      ensures OnlyPc() && BridgeHeld() && guard == null
      ensures pc != null ==> pc.closes == old(pc.closes) + (if old(guard) == null then 0 else 1)
    {
      if guard != null {
        guard.CloseDetached();
        guard := null;
      }
    }

    method DropWebrtcGuard()
      requires OnlyPc() && BridgeHeld()
      modifies this`webrtcGuard, pc
      ensures OnlyPc() && BridgeHeld() && webrtcGuard == null
      ensures pc != null ==> pc.closes == old(pc.closes) + (if old(webrtcGuard) == null then 0 else 1)
    {
      if webrtcGuard != null {
        webrtcGuard.CloseDetached();
        webrtcGuard := null;
      }
    }

    method StopBridge()
      requires OnlyPc() && BridgeHeld()
      modifies this`bridgeStop, spawned
      ensures OnlyPc() && BridgeHeld() && bridgeStop == null
    {
      if bridgeStop != null {
        bridgeStop.End();
        bridgeStop := null;
      }
    }

    /** Applies an answer to the offerer. The awaited part runs inside a guard; adoption, which
        disarms the guard and starts the bridge, is not interrupted. */
    method SetUpAnswer(server: Server, candidates: nat) returns (step: Step)
      requires Guarded() && guard == null && webrtcGuard == null && webrtcForConnect == null
      requires bridgeStop == null && spawned == null
      modifies this`webrtcOfferer, this`guard, this`webrtcForConnect, this`bridgeStop, this`spawned, pc
      modifies server`waits, server`errors, server`last
      ensures webrtcGuard == null && webrtcOfferer == null
      ensures step == Dropped ==> Guarded() && webrtcForConnect == null && bridgeStop == null
      ensures step != Dropped ==> guard == null
      ensures step == Done ==> Adopted() && bridgeStop != null
      ensures step == Error ==> Guarded() && webrtcForConnect == null && bridgeStop == null && spawned == null
      ensures spawned == null || fresh(spawned)
      ensures server.waits >= old(server.waits)
      ensures spawned != null ==> old(webrtcOfferer) != null
      ensures step == Error ==> old(webrtcOfferer) == null || (server.waits > old(server.waits) && server.last == Error)
    {
      guard, webrtcOfferer := webrtcOfferer, null;
      if guard == null { return Error; }
      step := server.Wait();  // set_remote_endpoint
      if step == Dropped { return; }
      if step == Error {
        DropGuard();
        return;
      }
      for i := 0 to candidates
        invariant Guarded() && guard == pc && webrtcOfferer == null && webrtcGuard == null && webrtcForConnect == null
        invariant bridgeStop == null && spawned == null && server.waits > old(server.waits)
      {
        var added := server.Wait();  // a candidate that is refused is only logged
        if added == Dropped { return Dropped; }
      }
      var adopted := guard;
      guard := null;
      var stop := new BridgeStop();
      bridgeStop, spawned := stop, stop;
      webrtcForConnect := adopted;
      return Done;
    }

    /** What precedes the race of a relay offer: reaching the peer over IPv6, applying the answer,
        and giving up an offer that was not answered. */
    method AdoptOffer(server: Server, ipv6: bool, answer: bool, ipv6Address: bool, candidates: nat)
      returns (step: Step, reached: bool)
      requires Guarded() && guard == null && webrtcGuard == null && webrtcForConnect == null
      requires bridgeStop == null && spawned == null
      modifies this, pc, server`waits, server`errors, server`last
      ensures spawned == null || fresh(spawned)
      ensures webrtcGuard == null && (reached ==> ipv6)
      ensures step == Dropped ==> Guarded()
      ensures step != Dropped ==> webrtcOfferer == null && guard == null
      ensures step != Dropped ==> if webrtcForConnect == null then Guarded() else Adopted()
      ensures step != Dropped && answer && old(webrtcOfferer) != null && webrtcForConnect == null ==>
        server.waits > old(server.waits) && server.last == Error
    {
      reached := false;
      if ipv6 && ipv6Address {
        step := server.Wait();
        if step == Dropped { return; }
        reached := step == Done;
      }
      if answer {
        step := SetUpAnswer(server, candidates);
        if step == Dropped { return; }
      }
      DropOfferer();
      step := Done;
    }

    /** The transports of a relay offer, raced; the bridge ends with the race. An adopted peer
        connection goes into a new guard before the race is waited for. */
    method RaceRelay(net: Network, s: Settings, reached: bool) returns (step: Step, won: Attempt, relayed: bool)
      requires net.log == [] && webrtcGuard == null && webrtcOfferer == null && guard == null
      requires if webrtcForConnect == null then Guarded() else Adopted()
      modifies this`webrtcGuard, this`webrtcForConnect, this`bridgeStop, spawned, net
      ensures Guarded() && webrtcOfferer == null && guard == null && webrtcForConnect == null
      ensures step == Done ==>
        || (won.typ == Ipv6 && reached)
        || won.typ == (if s.useWs then WebSocket else Relay)
        || (won.typ == WebRtc && webrtcGuard == pc != null)
      ensures net.log == [RaceEnded(RelayOffered(reached, s.useWs, webrtcGuard != null), step, won.typ, relayed)]
      ensures (NeverRelayed(net.log) <==> !relayed) && (step == Done ==> won == AttemptOf(won.typ, relayed))
      ensures net.Ordered() && Proven(net.log) == None && Made(net.log) == if step == Done then Some(won.typ) else None
    {
      hide Made, Proven, InOrder, NeverRelayed;
      var attempts: seq<Label> := [];
      if reached { attempts := attempts + [Ipv6]; }
      attempts := attempts + [if s.useWs then WebSocket else Relay];
      if webrtcForConnect != null {
        webrtcGuard := webrtcForConnect;
        webrtcForConnect := null;
        attempts := attempts + [WebRtc];
      }
      assert (set t | t in attempts) == RelayOffered(reached, s.useWs, webrtcGuard != null);
      step, won, relayed := net.Race(attempts);
      if step != Dropped {
        StopBridge();
      }
    }

    /** The peer asked for a relay: the relay is raced against WebRTC and a direct IPv6 path. */
    method OnRelayOffer(server: Server, s: Settings, ipv6: bool, answer: bool, ipv6Address: bool, candidates: nat)
      returns (o: Outcome, ghost log: seq<Entry>)
      requires Guarded() && guard == null && webrtcGuard == null && webrtcForConnect == null
      requires bridgeStop == null && spawned == null
      modifies this, pc, server`waits, server`errors, server`last
      ensures OnlyPc() && BridgeHeld() && (spawned == null || fresh(spawned))
      ensures if IsWebRtc(o) then pc != null && pc.closes == 0 && Guards() == 0 else Guarded()
      ensures o.Connected? ==> o.stream == (if o.typ == WebRtc then pc else null)
      ensures Consistent(o)
      ensures Authentic(o, log) && InOrder(log, s.forceRelay)
      ensures IsWebRtc(o) ==> (o.direct <==> NeverRelayed(log))
      ensures o.Failed? ==> OfferFailedFor(log)
      ensures log != [] ==> log[0].RaceEnded? && Tcp !in log[0].attempts
      ensures log != [] && answer && old(webrtcOfferer) != null && WebRtc !in log[0].attempts ==>
        server.waits > old(server.waits) && server.last == Error
      ensures o.Cancelled? ==> log == [] || log[|log| - 1].step == Dropped
    {
      hide Made, Proven, InOrder, NeverRelayed, RelayOffered;
      var net := new Network(s.forceRelay);
      EmptyRecord();
      log := net.log;
      var adopted, reached := AdoptOffer(server, ipv6, answer, ipv6Address, candidates);
      if adopted == Dropped { return Cancelled, log; }
      var step, won, _ := RaceRelay(net, s, reached);
      log := net.log;
      RelayOfferedIs(reached, s.useWs, webrtcGuard != null);
      if step != Done { return Ended(step), log; }
      o := SecureOffer(net, s, won);
      log := net.log;
    }

    method SecureOffer(net: Network, s: Settings, won: Attempt) returns (o: Outcome)
      requires Guarded() && webrtcOfferer == null && guard == null && (won.typ == WebRtc ==> webrtcGuard == pc != null)
      requires net.log != [] && net.Ordered() && net.Running() && Made(net.log) == Some(won.typ) && Proven(net.log) == None
      requires exists relayed :: won == AttemptOf(won.typ, relayed)
      requires won.typ == WebRtc ==> (won.direct <==> NeverRelayed(net.log))
      modifies this`webrtcGuard, pc, net
      ensures if IsWebRtc(o) then pc != null && pc.closes == 0 && Guards() == 0 else Guarded()
      ensures o.Connected? ==> o.stream == (if o.typ == WebRtc then pc else null)
      ensures OnlyPc() && BridgeHeld() && Consistent(o)
      ensures Authentic(o, net.log) && net.Ordered()
      ensures IsWebRtc(o) ==> (o.direct <==> NeverRelayed(net.log))
      ensures o.Failed? ==> OfferFailedFor(net.log)
      ensures net.log != [] && net.log[0] == old(net.log[0])
      ensures o.Cancelled? ==> net.log != [] && net.log[|net.log| - 1].step == Dropped
    {
      hide Made, Proven, InOrder, NeverRelayed;
      var typ, direct := won.typ, won.direct;
      var secured := net.Authenticate(typ);
      if secured == Dropped { return Cancelled; }
      if secured == Error {
        if typ != WebRtc { return Failed; }
        DropWebrtcGuard();
        typ, direct := if s.useWs then WebSocket else Relay, false;
        var relay := net.FreshRelay(typ);
        if relay != Done { return Ended(relay); }
      }
      if typ != WebRtc {
        return Connected(typ, direct, won.kcp, null);
      }
      var stream := webrtcGuard;
      webrtcGuard := null;
      return Connected(WebRtc, direct, won.kcp, stream);
    }

    /** The hole was punched: an adopted peer connection is handed to `connect`, which guards it
        before its first suspension, or closed here when there is no port to connect to. */
    method OnPunched(server: Server, s: Settings, udp: bool, ipv6: bool, answer: bool, portKnown: bool, relayServer: bool,
                     candidates: nat)
      returns (o: Outcome, ghost log: seq<Entry>)
      requires Guarded() && guard == null && webrtcGuard == null && webrtcForConnect == null
      requires bridgeStop == null && spawned == null
      modifies this, pc, server`waits, server`errors, server`last
      ensures OnlyPc() && BridgeHeld() && (spawned == null || fresh(spawned))
      ensures if IsWebRtc(o) then pc != null && pc.closes == 0 && Guards() == 0 else Guarded()
      ensures o.Connected? ==> o.stream == (if o.typ == WebRtc then pc else null)
      ensures !(s.forceRelay && (udp || ipv6)) ==> Consistent(o)
      ensures Authentic(o, log) && InOrder(log, s.forceRelay)
      ensures IsWebRtc(o) ==> (o.direct <==> NeverRelayed(log))
      ensures o.Connected? ==> portKnown
      ensures o.Failed? ==> if portKnown then FailedFor(log, s.forceRelay, relayServer) else log == []
      ensures log != [] ==>
        log[0].RaceEnded? && log[0].attempts == Offered(s.allowTcp, udp, ipv6, spawned != null)
      ensures answer && old(webrtcOfferer) != null && !o.Cancelled? && spawned == null ==>
        server.waits > old(server.waits) && server.last == Error
      ensures spawned != null ==> old(webrtcOfferer) != null
    {
      hide Made, Proven, InOrder, NeverRelayed, FailedFor;
      log := [];
      EmptyRecord();
      if answer {
        var setUp := SetUpAnswer(server, candidates);
        if setUp == Dropped { return Cancelled, log; }
      }
      DropOfferer();
      if !portKnown {
        if webrtcForConnect != null {
          webrtcForConnect.CloseDetached();
          webrtcForConnect := null;
        }
        StopBridge();
        return Failed, log;
      }
      var handed, stop := webrtcForConnect, bridgeStop;
      webrtcForConnect, bridgeStop := null, null;
      o, log := Connect(handed, stop, s, udp, ipv6, relayServer);
    }

    /** Reaching the rendezvous server. Without an encrypted socket the offer is given up. */
    method Prepare(server: Server, legacySecure: bool) returns (step: Step)
      requires Guarded() && guard == null && webrtcGuard == null && webrtcForConnect == null
      modifies this`webrtcOfferer, pc, server`waits, server`errors, server`last
      ensures Guarded()
      ensures server.waits > 0 && (step == Error ==> server.last == Error)
      ensures step == Done && webrtcOfferer == null ==> old(webrtcOfferer) == null || server.errors > old(server.errors)
      ensures webrtcOfferer == null || webrtcOfferer == old(webrtcOfferer)
    {
      step := server.Wait();  // connect to the rendezvous server, or to another one
      if step != Done { return; }
      var exchanged := false;
      var natType := server.Wait();
      if natType == Dropped { return Dropped; }
      if webrtcOfferer != null {
        var exchange := server.Wait();
        if exchange == Dropped { return Dropped; }
        if exchange == Done {
          exchanged := true;
        } else {
          DropOfferer();
          step := server.Wait();
          if step != Done { return; }
        }
      }
      if !exchanged && legacySecure {
        step := server.Wait();
        if step != Done { return; }
      }
      var natTest := server.Wait();
      return if natTest == Dropped then Dropped else Done;
    }

    /** Up to three punch requests, each followed by whatever the server sends in time. A request
        that carries an offer keeps its socket for signalling, so it leads to no TCP punch. */
    method Body(server: Server, s: Settings, udp: bool, ipv6: bool, legacySecure: bool, replies: seq<Reply>)
      returns (o: Outcome, ghost log: seq<Entry>)
      requires Waiting() && server.heard == []
      modifies this, pc, server
      ensures OnlyPc() && BridgeHeld() && (spawned == null || fresh(spawned))
      ensures if IsWebRtc(o) then pc != null && pc.closes == 0 && Guards() == 0 else Guarded()
      ensures o.Connected? ==> o.stream == (if o.typ == WebRtc then pc else null)
      ensures !(s.forceRelay && (udp || ipv6)) ==> Consistent(o)
      ensures Authentic(o, log) && InOrder(log, s.forceRelay)
      ensures IsWebRtc(o) ==> (o.direct <==> NeverRelayed(log))
      ensures server.heard <= replies && (server.heard != [] ==> NoneDecisive(server.heard[..|server.heard| - 1]))
      ensures o.Failed? ==> if log == [] then GaveUp(server, replies) else FailedAfter(server.heard, log, s.forceRelay)
      ensures log != [] ==> log[0].RaceEnded? && !(Tcp in log[0].attempts && WebRtc in log[0].attempts)
    {
      hide Made, Proven, InOrder, NeverRelayed, FailedFor, OfferFailedFor, Timeouts, Consistent, Authentic;
      log := [];
      EmptyRecord();
      NothingAuthentic();
      var ready := Prepare(server, legacySecure);
      if ready != Done { return Ended(ready), log; }
      var mine := s.(allowTcp := s.allowTcp && webrtcOfferer == null);
      o, log := Punch(server, mine, udp, ipv6, replies);
    }

    method Punch(server: Server, s: Settings, udp: bool, ipv6: bool, replies: seq<Reply>)
      returns (o: Outcome, ghost log: seq<Entry>)
      requires Waiting() && server.heard == [] && server.waits > 0 && (webrtcOfferer != null ==> !s.allowTcp)
      modifies this, pc, server
      ensures OnlyPc() && BridgeHeld() && (spawned == null || fresh(spawned))
      ensures if IsWebRtc(o) then pc != null && pc.closes == 0 && Guards() == 0 else Guarded()
      ensures o.Connected? ==> o.stream == (if o.typ == WebRtc then pc else null)
      ensures !(s.forceRelay && (udp || ipv6)) ==> Consistent(o)
      ensures Authentic(o, log) && InOrder(log, s.forceRelay)
      ensures IsWebRtc(o) ==> (o.direct <==> NeverRelayed(log))
      ensures server.heard <= replies && (server.heard != [] ==> NoneDecisive(server.heard[..|server.heard| - 1]))
      ensures o.Failed? ==> if log == [] then GaveUp(server, replies) else FailedAfter(server.heard, log, s.forceRelay)
      ensures log != [] ==> log[0].RaceEnded? && !(Tcp in log[0].attempts && WebRtc in log[0].attempts)
    {
      hide Made, Proven, InOrder, NeverRelayed, FailedFor, OfferFailedFor, Timeouts, Consistent, Authentic,
        NoneDecisive;
      log := [];
      EmptyRecord();
      NoReplyYet();
      NothingAuthentic();
      var next, candidates := 0, 0;
      for attempt := 1 to 4
        invariant Waiting() && (webrtcOfferer != null ==> !s.allowTcp)
        invariant next <= |replies| && server.heard == replies[..next] && server.waits > 0
        invariant NoneDecisive(replies[..next])
        invariant next == |replies| || Timeouts(replies[..next]) >= attempt - 1
      {
        HeardBefore(replies, next);
        var sent := server.Wait();
        if sent != Done { return Ended(sent), log; }
        var cancelled, decision;
        cancelled, decision, next, candidates := Listen(server, replies, next, candidates);
        HeardBefore(replies, next);
        if cancelled { return Cancelled, log; }
        if decision.Some? {
          o, log := OnDecision(server, s, udp, ipv6, decision.value, candidates);
          return o, log;
        }
      }
      HeardBefore(replies, next);
      // No answer at all: there is no peer address to connect to.
      o, log := OnPunched(server, s, false, false, false, false, false, candidates);
    }

    /** What each of the decisive replies leads to. */
    method OnDecision(server: Server, s: Settings, udp: bool, ipv6: bool, reply: Reply, candidates: nat)
      returns (o: Outcome, ghost log: seq<Entry>)
      requires Waiting() && Decisive(reply) && (webrtcOfferer != null ==> !s.allowTcp)
      modifies this, pc, server`waits, server`errors, server`last
      ensures OnlyPc() && BridgeHeld() && (spawned == null || fresh(spawned))
      ensures if IsWebRtc(o) then pc != null && pc.closes == 0 && Guards() == 0 else Guarded()
      ensures o.Connected? ==> o.stream == (if o.typ == WebRtc then pc else null)
      ensures !(s.forceRelay && (udp || ipv6)) ==> Consistent(o)
      ensures Authentic(o, log) && InOrder(log, s.forceRelay)
      ensures IsWebRtc(o) ==> (o.direct <==> NeverRelayed(log))
      ensures o.Failed? ==> match reply
        case Punched(_, portKnown, relayServer, _, _) =>
          if portKnown then log != [] && FailedFor(log, s.forceRelay, relayServer) else log == []
        case RelayOffer(_, _) => log != [] && OfferFailedFor(log)
        case _ => log == []
      ensures o.Connected? ==> !reply.Refused?
      ensures log != [] ==> log[0].RaceEnded? && !(Tcp in log[0].attempts && WebRtc in log[0].attempts)
    {
      hide Made, Proven, InOrder, NeverRelayed;
      log := [];
      EmptyRecord();
      match reply {
        case Refused => return Failed, log;
        case Punched(answer, portKnown, relayServer, udpKept, ipv6Kept) =>
          var bound := server.Wait();  // the kept sockets are connected
          if bound == Dropped { return Cancelled, log; }
          o, log := OnPunched(server, s, udp && udpKept, ipv6 && ipv6Kept, answer, portKnown, relayServer, candidates);
        case RelayOffer(answer, ipv6Address) =>
          o, log := OnRelayOffer(server, s, ipv6, answer, ipv6Address, candidates);
      }
    }

    method Drop()
      requires OnlyPc() && BridgeHeld() && Guards() <= 1
      modifies this, pc, spawned
      ensures spawned == old(spawned) && (spawned != null ==> spawned.over)
      ensures pc != null ==> pc.closes == old(pc.closes) + old(Guards())
    {
      DropOfferer();
      DropGuard();
      DropWebrtcGuard();
      StopBridge();
    }
  }

  /** A whole round. Whichever way it ends, by a connection, an error or a cancellation at any
      suspension, the offerer's peer connection is settled and the bridge has been ended. */
  method StartInner(offerer: PeerConnection?, s: Settings, udp: bool, ipv6: bool, legacySecure: bool, replies: seq<Reply>)
    returns (o: Outcome, ghost log: seq<Entry>, ghost bridge: BridgeStop?, ghost server: Server)
    requires offerer != null ==> offerer.closes == 0
    modifies offerer
    ensures Settled(offerer, o)
    ensures bridge != null ==> bridge.over
    ensures !(s.forceRelay && (udp || ipv6)) ==> Consistent(o)
    ensures Authentic(o, log) && InOrder(log, s.forceRelay)
    ensures IsWebRtc(o) ==> (o.direct <==> NeverRelayed(log))
    ensures fresh(server) && server.heard <= replies
    ensures (server.heard != [] ==> NoneDecisive(server.heard[..|server.heard| - 1]))
    ensures o.Failed? ==> if log == [] then GaveUp(server, replies) else FailedAfter(server.heard, log, s.forceRelay)
    ensures log != [] ==> log[0].RaceEnded? && !(Tcp in log[0].attempts && WebRtc in log[0].attempts)
  {
    hide Made, Proven, InOrder, NeverRelayed, FailedFor, OfferFailedFor, Timeouts;
    var frame := new RoundFrame(offerer);
    var rendezvous := new Server();
    server := rendezvous;
    o, log := frame.Body(rendezvous, s, udp, ipv6, legacySecure, replies);
    frame.Drop();
    bridge := frame.spawned;
  }

  // ---- _start: one round, or two raced ----

  datatype Options = Options(
    incomingOnly: bool, peerIsAddress: bool, webrtcEnabled: bool, proxy: bool, turnServer: bool,
    udpEnabled: bool, ipv6Enabled: bool)

  type RaceEvent = TransportRace.Event<OuterRace.RoundResult>

  /** The event by which the race observes that a round has resolved with this outcome. */
  ghost predicate Observes(e: RaceEvent, preferred: bool, o: Outcome) {
    match e
    case WebRtcResolved(result, _) =>
      && preferred
      && (if o.Connected? then result == Ok(OuterRace.RoundResult(true, IsWebRtc(o), o.direct)) else o.Failed? && result.Err?)
    case OtherResolved(_, result, _) =>
      && !preferred
      && (if o.Connected? then result == Ok(OuterRace.RoundResult(false, false, o.direct)) else o.Failed? && result.Err?)
    case WindowPolled(_) => false
  }

  /** The race ran over what these two rounds returned. A round runs only when the race polls it, so
      a preferred round that was not dropped was observed before the race ended. */
  ghost predicate Produced(events: seq<RaceEvent>, ended: nat, first: Outcome, second: Outcome) {
    && ended <= |events|
    && (forall i :: 0 <= i < |events| && events[i].WebRtcResolved? ==> Observes(events[i], true, first))
    && (forall i :: 0 <= i < |events| && events[i].OtherResolved? ==> Observes(events[i], false, second))
    && (!first.Cancelled? ==> exists w :: 0 <= w <= ended && w < |events| && events[w].WebRtcResolved?)
  }

  /** The outcome of `_start` when the race returned one of the rounds, failed, or was cancelled. */
  function Returned(outcome: Option<Result<OuterRace.RoundResult, TransportRace.RaceError>>,
                    first: Outcome, second: Outcome): Outcome
  {
    match outcome
    case None => Cancelled
    case Some(Err(_)) => Failed
    case Some(Ok(r)) => if r.preferred then first else second
  }

  /** When the race that these rounds produced has ended, the peer connection is settled exactly
      when it was not lost to the race. */
  lemma SettledIff(pc: PeerConnection?, first: Outcome, second: Outcome, events: seq<RaceEvent>, windowMs: nat, ended: nat,
                   outcome: Option<Result<OuterRace.RoundResult, TransportRace.RaceError>>)
    requires Settled(pc, first) && Settled(null, second)
    requires TransportRace.WellFormed({0}, events) && OuterRace.WentThrough(events, windowMs, ended, outcome)
    requires Produced(events, ended, first, second)
    ensures Settled(pc, Returned(outcome, first, second)) <==> !OuterRace.HeldThenDropped(events, ended)
  {
    assert OuterRace.FromRounds(events);
    OuterRace.LostIff(events, windowMs, ended, outcome);
  }

  /** Rounds that produce the two traces of a lost connection, and leave it unsettled. */
  lemma UnsettledBothWays(pc: PeerConnection, windowMs: nat)
    requires pc.closes == 0
    ensures
      var held := TransportRace.WebRtcResolved(Ok(OuterRace.RoundResult(true, true, false)), 0);
      var direct := TransportRace.OtherResolved(0, Ok(OuterRace.RoundResult(false, false, true)), 1);
      var relayed, punched := Connected(WebRtc, false, false, pc), Connected(Tcp, true, false, null);
      && Settled(pc, relayed) && Settled(null, punched)
      && OuterRace.WentThrough([held, direct], windowMs, 1, Some(Ok(direct.result.value)))
      && Produced([held, direct], 1, relayed, punched)
      && !Settled(pc, Returned(Some(Ok(direct.result.value)), relayed, punched))
      && OuterRace.WentThrough([held], windowMs, 1, None)
      && Produced([held], 1, relayed, Cancelled) && !Settled(pc, Returned(None, relayed, Cancelled))
  {
    OuterRace.LostBothWays(windowMs);
    var held: RaceEvent := TransportRace.WebRtcResolved(Ok(OuterRace.RoundResult(true, true, false)), 0);
    var direct: RaceEvent := TransportRace.OtherResolved(0, Ok(OuterRace.RoundResult(false, false, true)), 1);
    assert [held, direct][0].WebRtcResolved? && [held][0].WebRtcResolved?;
  }

  /** A connection is returned only by a round that has authenticated it, unless the peer was given
      by its address. Forced relay withholds the UDP and IPv6 sockets from the rounds, which is what
      keeps every result consistent. The peer connection is settled on every exit, with one exception, given
      exactly: the raced preferred round had made a relayed WebRTC connection, and the fallback
      round succeeded or `_start` was cancelled while the race held it. The parameter `events` is
      how the race of the two rounds goes; the promise is about every way the rounds allow. */
  method Start(s: Settings, opts: Options, replies: seq<Reply>, fallbackReplies: seq<Reply>,
               events: seq<RaceEvent>, windowMs: nat)
    returns (o: Outcome, ghost pc: PeerConnection?, ghost raced: bool, ghost ended: nat,
             ghost first: Outcome, ghost second: Outcome, ghost firstLog: seq<Entry>, ghost secondLog: seq<Entry>)
    requires TransportRace.WellFormed({0}, events)
    ensures opts.incomingOnly ==> o.Failed?
    ensures pc != null ==> opts.webrtcEnabled && !opts.proxy && (s.policyRelay ==> opts.turnServer)
    ensures raced ==> pc != null && !s.forceRelay && s.allowTcp
    ensures Consistent(o)
    ensures Authentic(first, firstLog) && Authentic(second, secondLog)
    ensures o.Connected? && !opts.peerIsAddress ==> o == first || o == second
    ensures !raced ==> Settled(pc, o)
    ensures raced && Produced(events, ended, first, second) ==>
      && (Settled(pc, o) <==> !OuterRace.HeldThenDropped(events, ended))
      && exists outcome :: OuterRace.WentThrough(events, windowMs, ended, outcome) && o == Returned(outcome, first, second)
  {
    hide Made, Proven, InOrder, NeverRelayed;
    pc, raced, ended, first, second := null, false, 0, Failed, Failed;
    firstLog, secondLog := [], [];
    EmptyRecord();
    if opts.incomingOnly {
      o := Failed;
      return;
    }
    if opts.peerIsAddress {
      var tcp := Await();
      o := if tcp == Done then Connected(Tcp, true, false, null) else Ended(tcp);
      return;
    }
    var udpBound: bool, ipv6Bound: bool := *, *;
    var udp := opts.udpEnabled && !s.forceRelay && udpBound;
    var ipv6 := opts.ipv6Enabled && !s.forceRelay && ipv6Bound;
    var offerer: PeerConnection? := null;
    if opts.webrtcEnabled && !opts.proxy && !(s.policyRelay && !opts.turnServer) {
      var created := Await();
      if created == Dropped {
        o := Cancelled;
        return;
      }
      if created == Done { offerer := new PeerConnection(); }
    }
    pc := offerer;
    var legacySecure: bool, legacySecureFallback: bool := *, *;
    var preferred, log, _, _ := StartInner(offerer, s, udp, ipv6, legacySecure, replies);
    first, firstLog := preferred, log;
    if s.forceRelay || (!udp && offerer == null) || !s.allowTcp {
      o := preferred;
      return;
    }
    var fallback, fallbackLog, _, _ := StartInner(null, s, false, false, legacySecureFallback, fallbackReplies);
    second, secondLog := fallback, fallbackLog;
    if offerer == null {
      o := SelectOk(preferred, fallback);
      return;
    }
    var outcome, at := TransportRace.Race({0}, events, windowMs, OuterRace.IsDirect);
    raced, ended := true, at;
    o := Returned(outcome, preferred, fallback);
    if Produced(events, ended, first, second) {
      SettledIff(pc, first, second, events, windowMs, ended, outcome);
    }
  }

  /** The first of two rounds to succeed, in whichever order they end; an error when both fail. */
  method SelectOk(a: Outcome, b: Outcome) returns (o: Outcome)
    ensures o == a || o == b || o == Cancelled
    ensures o.Failed? ==> a.Failed? && b.Failed?
  {
    var firstEnds: bool := *;
    if a.Connected? && (firstEnds || !b.Connected?) {
      o := a;
    } else if b.Connected? {
      o := b;
    } else {
      o := if a.Failed? && b.Failed? then Failed else Cancelled;
    }
  }
}
