/** Which password a login uses, and which one is written to the stored configuration of a peer.
    A password carries a tag that says where it came from; the code never looks at the tag. */
module LoginPassword {
  import opened Prelude

  /** One's own, or derived from a shared or built-in text under the salt of some hash. */
  datatype Origin = Own | Shared(text: string, salt: string)

  /** A hashed password as the handler keeps it; no bytes is no password. */
  datatype Secret = Secret(bytes: seq<int>, origin: Origin) {
    predicate Empty() {
      bytes == []
    }
  }

  const NO_SECRET := Secret([], Own)

  datatype PasswordSource = PersonalAb(hash: seq<int>) | SharedAb(plain: string) | Undefined

  /** The digest of a password and a salt. */
  type Digest = (string, string) -> seq<int>

  ghost predicate NeverEmpty(sha: Digest) {
    forall plain, salt :: sha(plain, salt) != []
  }

  predicate IsPersonalAb(source: PasswordSource, password: Secret) {
    !password.Empty() && source.PersonalAb? && source.hash == password.bytes
  }

  predicate IsSharedAb(sha: Digest, source: PasswordSource, password: Secret, salt: string) {
    !password.Empty() && source.SharedAb? && sha(source.plain, salt) == password.bytes
  }

  function SharedSecret(sha: Digest, text: string, salt: string): Secret {
    Secret(sha(text, salt), Shared(text, salt))
  }

  // ---- The rules, on values ----

  /** Everything that decides about passwords, in a session and on disk. Before the first hash of a
      session the salt is empty. */
  datatype Login = Login(
    salt: string, password: Secret, source: PasswordSource, sharedPassword: Option<string>, switchSides: bool,
    config: Secret, remember: bool, stored: Secret)

  /** What a reconnecting session passes on. */
  datatype ConnToken = ConnToken(password: Secret, source: PasswordSource)

  datatype Event =
    | Open(withToken: bool, shared: Option<string>, switchSides: bool)
    | HashReceived(salt: string, switchTrusted: bool, preset: string, personalAb: Option<seq<int>>, builtin: string)
    | UiLogin(typed: string, remember: bool)
    | LoginError(passwordRefused: bool)
    | PeerInfo

  /** A hash that is answered by switching sides instead of a password. */
  predicate IsSwitchLogin(l: Login, e: Event) {
    e.HashReceived? && l.switchSides && e.switchTrusted
  }

  function Opened(stored: Secret, token: Option<ConnToken>, shared: Option<string>, switchSides: bool): Login {
    var last := token.GetOr(ConnToken(NO_SECRET, Undefined));
    Login("", last.password, last.source, shared, switchSides, stored, !stored.Empty(), stored)
  }

  /** The password of the next login, most preferred first. */
  function Preferred(sha: Digest, l: Login, e: Event): (Secret, PasswordSource)
    requires e.HashReceived?
  {
    if l.sharedPassword.GetOr("") != "" then
      (SharedSecret(sha, l.sharedPassword.value, e.salt), SharedAb(l.sharedPassword.value))
    else if !l.password.Empty() then (l.password, l.source)
    else if e.preset != "" then (Secret(sha(e.preset, e.salt), Own), Undefined)
    else if !l.config.Empty() then (l.config, Undefined)
    else if e.personalAb.GetOr([]) != [] then (Secret(e.personalAb.value, Own), PersonalAb(e.personalAb.value))
    else if e.builtin != "" then (SharedSecret(sha, e.builtin, e.salt), SharedAb(e.builtin))
    else (l.config, l.source)
  }

  function Hashed(sha: Digest, l: Login, e: Event): Login
    requires e.HashReceived?
  {
    if IsSwitchLogin(l, e) then l.(salt := e.salt, switchSides := false, source := Undefined)
    else
      l.(salt := e.salt, switchSides := false, sharedPassword := None,
         password := Preferred(sha, l, e).0, source := Preferred(sha, l, e).1)
  }

  function LoggedIn(sha: Digest, l: Login, typed: string, remember: bool): Login {
    if typed != "" then l.(password := Secret(sha(typed, l.salt), Own), source := Undefined, remember := remember)
    else if !l.password.Empty() then l
    else if !l.config.Empty() then l.(password := l.config, source := Undefined)
    else l.(password := l.config)
  }

  /** The password stored once the peer has accepted the login. */
  function Remembered(sha: Digest, l: Login): Secret {
    if l.remember then
      if !l.password.Empty() && l.password.bytes != l.stored.bytes && !IsSharedAb(sha, l.source, l.password, l.salt)
      then l.password else l.stored
    else if IsPersonalAb(l.source, l.password) then l.password
    else if !l.stored.Empty() then NO_SECRET
    else l.stored
  }

  /** What is then copied to the personal address book, on clients that keep one: the stored
      password, unless the source of the password in use marks it as shared or as taken from there. */
  function SyncedToAb(sha: Digest, l: Login): Option<Secret> {
    var stored := Remembered(sha, l);
    if !stored.Empty() && !IsSharedAb(sha, l.source, l.password, l.salt) && !IsPersonalAb(l.source, l.password)
    then Some(stored) else None
  }

  function TokenOf(l: Login): Option<ConnToken> {
    if l.password.Empty() then None else Some(ConnToken(l.password, l.source))
  }

  function Next(sha: Digest, l: Login, e: Event): Login {
    match e
    case Open(withToken, shared, switchSides) => Opened(l.stored, if withToken then TokenOf(l) else None, shared, switchSides)
    case HashReceived(_, _, _, _, _) => Hashed(sha, l, e)
    case UiLogin(typed, remember) => LoggedIn(sha, l, typed, remember)
    case LoginError(passwordRefused) => if passwordRefused then l.(password := NO_SECRET) else l
    case PeerInfo => l.(config := Remembered(sha, l), stored := Remembered(sha, l))
  }

  /** The state after any sequence of sessions with one peer, in any order of messages. */
  function After(sha: Digest, stored: Secret, events: seq<Event>): Login {
    if events == [] then Opened(stored, None, None, false)
    else Next(sha, After(sha, stored, events[..|events| - 1]), events[|events| - 1])
  }

  /** Who wins against whom when a hash is answered with a password: a shared password chosen for this
      session, then the last one, the preset one, the stored one, the one of the personal address
      book, and the built-in one. */
  lemma OrderOfPasswords(sha: Digest, l: Login, e: Event)
    requires e.HashReceived? && !(l.switchSides && e.switchTrusted)
    ensures
      var now := Hashed(sha, l, e);
      var shared := l.sharedPassword != None && l.sharedPassword != Some("");
      var personal := e.personalAb != None && e.personalAb != Some([]);
      && (shared ==>
            now.password.bytes == sha(l.sharedPassword.value, e.salt) && now.source == SharedAb(l.sharedPassword.value))
      && (!shared && l.password.bytes != [] ==> now.password == l.password && now.source == l.source)
      && (!shared && l.password.bytes == [] && e.preset != "" ==>
            now.password.bytes == sha(e.preset, e.salt) && now.source == Undefined)
      && (!shared && l.password.bytes == [] && e.preset == "" && l.config.bytes != [] ==>
            now.password == l.config && now.source == Undefined)
      && (!shared && l.password.bytes == [] && e.preset == "" && l.config.bytes == [] && personal ==>
            now.password.bytes == e.personalAb.value && now.source == PersonalAb(e.personalAb.value))
      && (!shared && l.password.bytes == [] && e.preset == "" && l.config.bytes == [] && !personal && e.builtin != "" ==>
            now.password.bytes == sha(e.builtin, e.salt) && now.source == SharedAb(e.builtin))
      && (!shared && l.password.bytes == [] && e.preset == "" && l.config.bytes == [] && !personal && e.builtin == "" ==>
            now.password.bytes == [] && now.source == l.source)
      && now.salt == e.salt && now.sharedPassword == None && !now.switchSides
      && now.config == l.config && now.stored == l.stored && now.remember == l.remember
  {
  }

  /** What an accepted login leaves on disk. To be remembered, a password has to be new and of a
      source that does not mark it as shared; without remembering, only a password of the personal
      address book is stored, and any other login clears what was stored. */
  lemma WhatIsRemembered(sha: Digest, l: Login)
    ensures
      var stored, bytes := Next(sha, l, PeerInfo).stored, l.password.bytes;
      && Next(sha, l, PeerInfo).config == stored
      && (l.remember && bytes != [] && !l.source.SharedAb? ==> stored.bytes == bytes)
      && (l.remember && l.source.SharedAb? && sha(l.source.plain, l.salt) == bytes ==> stored == l.stored)
      && (l.remember && (bytes == [] || bytes == l.stored.bytes) ==> stored == l.stored)
      && (!l.remember && bytes != [] && l.source == PersonalAb(bytes) ==> stored == l.password)
      && (!l.remember && (bytes == [] || l.source != PersonalAb(bytes)) ==> stored.bytes == [])
  {
  }

  /** And what the address book gets: the password that stays on disk, unless the one in use is
      marked as shared or as one of the address book. */
  lemma WhatIsSynced(sha: Digest, l: Login)
    ensures
      var stored, bytes := Next(sha, l, PeerInfo).stored, l.password.bytes;
      var shared := l.source.SharedAb? && sha(l.source.plain, l.salt) == bytes;
      var marked := bytes != [] && (l.source == PersonalAb(bytes) || shared);
      SyncedToAb(sha, l) == if stored.bytes == [] || marked then None else Some(stored)
  {
  }

  // ---- When a shared password is stored ----

  /** At the peer's information: the login is remembered, its shared password is new, and either its
      source has been forgotten or the salt in force does not give the password back. */
  ghost predicate Leaks(sha: Digest, l: Login) {
    && l.remember && l.password.origin.Shared? && !l.password.Empty() && l.password.bytes != l.stored.bytes
    && (l.source == Undefined || sha(l.password.origin.text, l.salt) != l.password.bytes)
  }

  /** A shared password is what its tag says, and its source still names it or is forgotten. */
  ghost predicate Traced(sha: Digest, l: Login) {
    && FromTag(sha, l.password) && FromTag(sha, l.config) && FromTag(sha, l.stored)
    && (l.password.origin.Shared? && !l.password.Empty() ==>
          l.source == SharedAb(l.password.origin.text) || l.source == Undefined)
  }

  ghost predicate FromTag(sha: Digest, s: Secret) {
    s.origin.Shared? && !s.Empty() ==> s == SharedSecret(sha, s.origin.text, s.origin.salt)
  }

  lemma {:induction false} AlwaysTraced(sha: Digest, stored: Secret, events: seq<Event>)
    requires stored.origin == Own
    ensures Traced(sha, After(sha, stored, events))
  {
    hide Next, Traced;
    if events == [] {
      NothingTraced(sha, stored);
    } else {
      AlwaysTraced(sha, stored, events[..|events| - 1]);
      TracedStep(sha, After(sha, stored, events[..|events| - 1]), events[|events| - 1]);
    }
  }

  lemma NothingTraced(sha: Digest, stored: Secret)
    requires stored.origin == Own
    ensures Traced(sha, Opened(stored, None, None, false))
  {
  }

  lemma TracedStep(sha: Digest, l: Login, e: Event)
    requires Traced(sha, l)
    ensures Traced(sha, Next(sha, l, e))
  {
  }

  /** In any run, the peer's information makes a shared password the stored one exactly when the
      state before it leaks; no other event changes what is stored. */
  lemma SharedIsStoredIff(sha: Digest, stored: Secret, events: seq<Event>, e: Event)
    requires stored.origin == Own
    ensures
      var before, after := After(sha, stored, events), After(sha, stored, events + [e]);
      && (e.PeerInfo? ==>
            (after.stored != before.stored && after.stored.origin.Shared? && !after.stored.Empty() <==> Leaks(sha, before)))
      && (e.PeerInfo? && Leaks(sha, before) ==> after.stored == before.password)
      && (!e.PeerInfo? ==> after.stored == before.stored)
  {
    AfterStep(sha, stored, events, e);
    AlwaysTraced(sha, stored, events);
  }

  lemma AfterNothing(sha: Digest, stored: Secret)
    ensures After(sha, stored, []) == Opened(stored, None, None, false)
  {
  }

  lemma AfterStep(sha: Digest, stored: Secret, events: seq<Event>, e: Event)
    ensures After(sha, stored, events + [e]) == Next(sha, After(sha, stored, events), e)
  {
    assert (events + [e])[..|events|] == events;
  }

  ghost predicate LeaksAt(sha: Digest, stored: Secret, events: seq<Event>, n: nat) {
    n < |events| && events[n].PeerInfo? && Leaks(sha, After(sha, stored, events[..n]))
  }

  /** So over a whole run the store keeps to one's own passwords if and only if no peer information
      of the run finds such a state. */
  lemma {:induction false} OwnThroughoutIff(sha: Digest, stored: Secret, events: seq<Event>)
    requires stored.origin == Own
    ensures (forall n: nat | n <= |events| :: OwnStored(sha, stored, events[..n]))
      <==> forall n: nat :: !LeaksAt(sha, stored, events, n)
  {
    if n: nat :| LeaksAt(sha, stored, events, n) {
      SharedIsStoredIff(sha, stored, events[..n], events[n]);
      assert events[..n + 1] == events[..n] + [events[n]];
      assert !OwnStored(sha, stored, events[..n + 1]);
    } else {
      forall n: nat | n <= |events|
        ensures OwnStored(sha, stored, events[..n])
      {
        OwnUpTo(sha, stored, events, n);
      }
    }
  }

  ghost predicate OwnStored(sha: Digest, stored: Secret, events: seq<Event>) {
    var now := After(sha, stored, events).stored;
    now.origin == Own || now.Empty()
  }

  lemma {:induction false} OwnUpTo(sha: Digest, stored: Secret, events: seq<Event>, n: nat)
    requires stored.origin == Own && n <= |events| && forall m: nat | m < n :: !LeaksAt(sha, stored, events, m)
    ensures OwnStored(sha, stored, events[..n])
  {
    if n > 0 {
      OwnUpTo(sha, stored, events, n - 1);
      assert events[..n] == events[..n - 1] + [events[n - 1]];
      assert !LeaksAt(sha, stored, events, n - 1);
      SharedIsStoredIff(sha, stored, events[..n - 1], events[n - 1]);
    }
  }

  // ---- When a shared password reaches the address book ----

  ghost predicate SyncsShared(sha: Digest, l: Login) {
    SyncedToAb(sha, l).Some? && SyncedToAb(sha, l).value.origin.Shared?
  }

  /** The stored password is a shared one already, the peer's information leaves it in place, and
      nothing marks the password in use. */
  ghost predicate KeepsShared(sha: Digest, l: Login) {
    && l.stored.origin.Shared? && !l.stored.Empty() && Remembered(sha, l) == l.stored
    && !IsSharedAb(sha, l.source, l.password, l.salt) && !IsPersonalAb(l.source, l.password)
  }

  /** At any point of any run, a shared password is copied there if and only if it is being stored
      or is kept unmarked. */
  lemma SharedIsSyncedIff(sha: Digest, stored: Secret, events: seq<Event>)
    requires stored.origin == Own
    ensures
      var l := After(sha, stored, events);
      SyncsShared(sha, l) <==> Leaks(sha, l) || KeepsShared(sha, l)
  {
    AlwaysTraced(sha, stored, events);
  }

  ghost predicate SyncsAt(sha: Digest, stored: Secret, events: seq<Event>, n: nat) {
    n < |events| && events[n].PeerInfo? && SyncsShared(sha, After(sha, stored, events[..n]))
  }

  /** So over a whole run no shared password reaches the address book if and only if none is stored. */
  lemma SyncedThroughoutIff(sha: Digest, stored: Secret, events: seq<Event>)
    requires stored.origin == Own
    ensures (forall n: nat :: !SyncsAt(sha, stored, events, n)) <==> forall n: nat :: !LeaksAt(sha, stored, events, n)
  {
    hide Remembered, SyncsShared, Leaks, KeepsShared;
    forall n: nat
      ensures LeaksAt(sha, stored, events, n) ==> SyncsAt(sha, stored, events, n)
      ensures SyncsAt(sha, stored, events, n) ==> exists m: nat :: LeaksAt(sha, stored, events, m)
    {
      if n < |events| {
        SharedIsSyncedIff(sha, stored, events[..n]);
        if SyncsAt(sha, stored, events, n) && !LeaksAt(sha, stored, events, n) {
          KeptIsShared(sha, After(sha, stored, events[..n]));
          if forall m: nat | m < n :: !LeaksAt(sha, stored, events, m) {
            OwnUpTo(sha, stored, events, n);
          }
        }
      }
    }
  }

  lemma KeptIsShared(sha: Digest, l: Login)
    ensures KeepsShared(sha, l) ==> l.stored.origin != Own && !l.stored.Empty()
  {
  }

  // ---- The ways to such a state ----

  ghost predicate Switched(sha: Digest, stored: Secret, events: seq<Event>, n: nat) {
    exists m: nat :: m < n && m < |events| && IsSwitchLogin(After(sha, stored, events[..m]), events[m])
  }

  /** As long as only one's own passwords are stored, a switch of sides is what forgets the source. */
  lemma {:induction false} ForgottenBySwitch(sha: Digest, stored: Secret, events: seq<Event>, n: nat)
    requires stored.origin == Own && n <= |events| && forall m: nat | m < n :: !LeaksAt(sha, stored, events, m)
    ensures
      var l := After(sha, stored, events[..n]);
      && (l.config.origin == Own || l.config.Empty())
      && (Forgotten(l) ==> Switched(sha, stored, events, n))
  {
    hide Next, After, IsSwitchLogin;
    if n == 0 {
      AfterNothing(sha, stored);
    } else {
      ForgottenBySwitch(sha, stored, events, n - 1);
      OwnUpTo(sha, stored, events, n - 1);
      OwnUpTo(sha, stored, events, n);
      assert events[..n] == events[..n - 1] + [events[n - 1]];
      AfterStep(sha, stored, events[..n - 1], events[n - 1]);
      ForgottenStep(sha, After(sha, stored, events[..n - 1]), events[n - 1]);
    }
  }

  predicate Forgotten(l: Login) {
    l.password.origin.Shared? && !l.password.Empty() && l.source == Undefined
  }

  lemma ForgottenStep(sha: Digest, l: Login, e: Event)
    requires l.config.origin == Own || l.config.Empty()
    requires l.stored.origin == Own || l.stored.Empty()
    ensures Forgotten(Next(sha, l, e)) ==> Forgotten(l) || IsSwitchLogin(l, e)
    ensures e.PeerInfo? || e.Open? ==> Next(sha, l, e).config == Next(sha, l, e).stored
    ensures !e.PeerInfo? && !e.Open? ==> Next(sha, l, e).config == l.config
  {
  }

  /** The first shared password that a run stores was stored because the sides had been switched,
      or because the salt in force was not the one it had been derived under. */
  lemma FirstLeakHasCause(sha: Digest, stored: Secret, events: seq<Event>, n: nat)
    requires stored.origin == Own && LeaksAt(sha, stored, events, n)
    requires forall m: nat | m < n :: !LeaksAt(sha, stored, events, m)
    ensures
      var l := After(sha, stored, events[..n]);
      Switched(sha, stored, events, n) || l.salt != l.password.origin.salt
  {
    ForgottenBySwitch(sha, stored, events, n);
    AlwaysTraced(sha, stored, events[..n]);
  }

  /** In the session in which event n comes, a hash has come before it. */
  ghost predicate HashedBefore(events: seq<Event>, n: nat) {
    exists m: nat :: m < n && m < |events| && events[m].HashReceived?
      && forall k :: m < k < n && k < |events| ==> !events[k].Open?
  }

  lemma {:induction false} OneSalt(sha: Digest, stored: Secret, events: seq<Event>, salt: string, n: nat)
    requires stored.origin == Own && n <= |events|
    requires forall i :: 0 <= i < |events| && events[i].HashReceived? ==> events[i].salt == salt
    requires forall m: nat | m < n :: !LeaksAt(sha, stored, events, m)
    ensures
      var l := After(sha, stored, events[..n]);
      && (HashedBefore(events, n) ==> l.salt == salt)
      && (l.password.origin.Shared? && !l.password.Empty() ==> l.password.origin.salt == salt)
  {
    hide Next, After;
    if n == 0 {
      AfterNothing(sha, stored);
    } else {
      OneSalt(sha, stored, events, salt, n - 1);
      ForgottenBySwitch(sha, stored, events, n - 1);
      assert events[..n] == events[..n - 1] + [events[n - 1]];
      AfterStep(sha, stored, events[..n - 1], events[n - 1]);
      SaltStep(sha, After(sha, stored, events[..n - 1]), events[n - 1]);
      if HashedBefore(events, n) && !events[n - 1].HashReceived? {
        assert HashedBefore(events, n - 1);
      }
    }
  }

  lemma SaltStep(sha: Digest, l: Login, e: Event)
    requires l.config.origin == Own || l.config.Empty()
    ensures
      var next := Next(sha, l, e);
      && (if e.HashReceived? then next.salt == e.salt else !e.Open? ==> next.salt == l.salt)
      && (next.password.origin.Shared? && !next.password.Empty() ==>
            || next.password == l.password
            || (e.HashReceived? && next.password.origin.salt == e.salt))
  {
  }

  /** Under one salt, with no switch of sides, and with a hash before the peer's information in each
      session, no run ever stores a shared password. */
  lemma {:induction false} SharedIsNeverStored(sha: Digest, stored: Secret, events: seq<Event>, salt: string)
    requires stored.origin == Own
    requires forall i :: 0 <= i < |events| && events[i].HashReceived? ==> events[i].salt == salt && !events[i].switchTrusted
    requires forall n: nat :: n < |events| && events[n].PeerInfo? ==> HashedBefore(events, n)
    ensures forall n: nat | n <= |events| :: OwnStored(sha, stored, events[..n])
  {
    forall n: nat
      ensures !LeaksAt(sha, stored, events, n)
    {
      NoLeak(sha, stored, events, salt, n);
    }
    OwnThroughoutIff(sha, stored, events);
  }

  lemma {:induction false} NoLeak(sha: Digest, stored: Secret, events: seq<Event>, salt: string, n: nat)
    requires stored.origin == Own
    requires forall i :: 0 <= i < |events| && events[i].HashReceived? ==> events[i].salt == salt && !events[i].switchTrusted
    requires forall n: nat :: n < |events| && events[n].PeerInfo? ==> HashedBefore(events, n)
    ensures !LeaksAt(sha, stored, events, n)
  {
    forall m: nat | m < n
      ensures !LeaksAt(sha, stored, events, m)
    {
      NoLeak(sha, stored, events, salt, m);
    }
    if LeaksAt(sha, stored, events, n) {
      FirstLeakHasCause(sha, stored, events, n);
      OneSalt(sha, stored, events, salt, n);
    }
  }

  /** A new session, with a shared password of the address book, gets its first hash. */
  function SharedSession(plain: string, salt: string): seq<Event> {
    [Open(false, Some(plain), false)] + [HashReceived(salt, false, "", None, "")]
  }

  lemma SharedSessionState(sha: Digest, own: Secret, plain: string, salt: string)
    requires plain != ""
    ensures After(sha, own, SharedSession(plain, salt))
      == Login(salt, SharedSecret(sha, plain, salt), SharedAb(plain), None, false, own, !own.Empty(), own)
  {
    hide After;
    var open, hash := Open(false, Some(plain), false), HashReceived(salt, false, "", None, "");
    var empty: seq<Event> := [];
    AfterNothing(sha, own);
    AfterStep(sha, own, empty, open);
    AfterStep(sha, own, [open], hash);
    assert empty + [open] == [open];
    assert [open] + [hash] == SharedSession(plain, salt);
  }

  /** The first way: a later session on its token answers a hash by switching sides. */
  lemma SwitchStoresShared(sha: Digest, own: Secret, plain: string, salt: string)
    requires NeverEmpty(sha) && own.origin == Own && !own.Empty() && plain != "" && sha(plain, salt) != own.bytes
    ensures
      var events := SharedSession(plain, salt)
        + [Open(true, None, true)] + [HashReceived(salt, true, "", None, "")] + [PeerInfo];
      After(sha, own, events).stored == SharedSecret(sha, plain, salt)
  {
    var first := SharedSession(plain, salt);
    SharedSessionState(sha, own, plain, salt);
    AfterStep(sha, own, first, Open(true, None, true));
    AfterStep(sha, own, first + [Open(true, None, true)], HashReceived(salt, true, "", None, ""));
    AfterStep(sha, own, first + [Open(true, None, true)] + [HashReceived(salt, true, "", None, "")], PeerInfo);
  }

  /** The second: the peer sends another hash, with a salt that gives another digest. */
  lemma ChangedSaltStoresShared(sha: Digest, own: Secret, plain: string, salt: string, other: string)
    requires NeverEmpty(sha) && own.origin == Own && !own.Empty() && plain != "" && sha(plain, salt) != own.bytes
    requires sha(plain, other) != sha(plain, salt)
    ensures
      var events := SharedSession(plain, salt) + [HashReceived(other, false, "", None, "")] + [PeerInfo];
      After(sha, own, events).stored == SharedSecret(sha, plain, salt)
  {
    var first := SharedSession(plain, salt);
    SharedSessionState(sha, own, plain, salt);
    AfterStep(sha, own, first, HashReceived(other, false, "", None, ""));
    AfterStep(sha, own, first + [HashReceived(other, false, "", None, "")], PeerInfo);
  }

  /** The third: a session on the token gets the peer's information before any hash. */
  lemma EarlyPeerInfoStoresShared(sha: Digest, own: Secret, plain: string, salt: string)
    requires NeverEmpty(sha) && own.origin == Own && !own.Empty() && plain != "" && sha(plain, salt) != own.bytes
    requires sha(plain, "") != sha(plain, salt)
    ensures
      var events := SharedSession(plain, salt) + [Open(true, None, false)] + [PeerInfo];
      After(sha, own, events).stored == SharedSecret(sha, plain, salt)
  {
    var first := SharedSession(plain, salt);
    SharedSessionState(sha, own, plain, salt);
    AfterStep(sha, own, first, Open(true, None, false));
    AfterStep(sha, own, first + [Open(true, None, false)], PeerInfo);
  }

  // ---- The handler ----

  /** The configuration of one peer on disk, of which only the password matters here. */
  class PeerStore {
    var password: Secret
    constructor (password: Secret)
      ensures this.password == password
    {
      this.password := password;
    }
  }

  class LoginConfigHandler {
    const sha: Digest
    const store: PeerStore
    var hashSalt: string
    var password: Secret
    var source: PasswordSource
    var sharedPassword: Option<string>
    var switchUuid: bool
    var config: Secret
    var remember: bool

    /** The fields, seen as one value. */
    function State(): Login
      reads this, store
    {
      Login(hashSalt, password, source, sharedPassword, switchUuid, config, remember, store.password)
    }

    constructor (sha: Digest, store: PeerStore)
      ensures this.sha == sha && this.store == store
      ensures hashSalt == "" && password == NO_SECRET && source == Undefined
    {
      this.sha, this.store := sha, store;
      hashSalt, password, source := "", NO_SECRET, Undefined;
      sharedPassword, switchUuid, config, remember := None, false, NO_SECRET, false;
    }

    /** A handler is initialized once, when it is new. */
    method Initialize(token: Option<ConnToken>, shared: Option<string>, switchSides: bool)
      requires hashSalt == "" && password == NO_SECRET && source == Undefined
      modifies this
      ensures State() == Opened(store.password, token, shared, switchSides)
      ensures config == store.password == old(store.password) && (remember <==> store.password.bytes != [])
      ensures token.Some? ==> password == token.value.password && source == token.value.source
      ensures sharedPassword == shared && switchUuid == switchSides && hashSalt == ""
    {
      config := store.password;
      remember := !config.Empty();
      if token.Some? {
        password, source := token.value.password, token.value.source;
      }
      switchUuid := switchSides;
      sharedPassword := shared;
    }

    /** Takes the most preferred password there is; a shared one is used once. A trusted request to
        switch sides is answered instead, once, and leaves the password with no source. */
    method HandleHash(salt: string, switchTrusted: bool, preset: string, personalAb: Option<seq<int>>, builtin: string)
      requires NeverEmpty(sha)
      modifies this
      ensures State() == Hashed(sha, old(State()), HashReceived(salt, switchTrusted, preset, personalAb, builtin))
    {
      hashSalt := salt;
      var uuid := switchUuid;
      switchUuid := false;
      if uuid && switchTrusted {
        source := Undefined;
        return;
      }
      var chosen := password;
      if chosen.Empty() && preset != "" {
        chosen, source := Secret(sha(preset, salt), Own), Undefined;
      }
      var shared := sharedPassword;
      sharedPassword := None;
      if shared.Some? && shared.value != "" {
        chosen, source := SharedSecret(sha, shared.value, salt), SharedAb(shared.value);
      }
      if chosen.Empty() {
        chosen := config;
        if !chosen.Empty() { source := Undefined; }
      }
      if chosen.Empty() && personalAb.Some? && personalAb.value != [] {
        chosen, source := Secret(personalAb.value, Own), PersonalAb(personalAb.value);
      }
      if chosen.Empty() && builtin != "" {
        chosen, source := SharedSecret(sha, builtin, salt), SharedAb(builtin);
      }
      password := chosen;
    }

    method HandleLoginFromUi(typed: string, rememberIt: bool)
      modifies this
      ensures State() == LoggedIn(sha, old(State()), typed, rememberIt)
      ensures typed != "" ==>
        password == Secret(sha(typed, hashSalt), Own) && source == Undefined && remember == rememberIt
      ensures hashSalt == old(hashSalt) && config == old(config) && sharedPassword == old(sharedPassword)
      ensures typed == "" ==> remember == old(remember) && password == (if old(password).Empty() then config else old(password))
    {
      var chosen;
      if typed == "" {
        chosen := password;
        if chosen.Empty() {
          chosen := config;
          if !chosen.Empty() { source := Undefined; }
        }
      } else {
        source := Undefined;
        chosen := Secret(sha(typed, hashSalt), Own);
        remember := rememberIt;
      }
      password := chosen;
    }

    /** An empty or wrong password is forgotten, and its source is not; other errors change nothing. */
    method HandleLoginError(passwordRefused: bool)
      modifies this`password
      ensures password == (if passwordRefused then NO_SECRET else old(password)) && source == old(source)
      ensures State() == Next(sha, old(State()), LoginError(passwordRefused))
    {
      if passwordRefused {
        password := NO_SECRET;
      }
    }

    /** The login was accepted, or so the peer says. A shared password is stored exactly in the states
        that leak, and then it is copied to the address book as well. */
    method HandlePeerInfo() returns (synced: Option<Secret>)
      modifies this`config, store
      ensures State() == Next(sha, old(State()), PeerInfo) && config == store.password
      ensures !old(remember) && (password.bytes == [] || source != PersonalAb(password.bytes)) ==> store.password.bytes == []
      ensures !old(remember) && password.bytes != [] && source == PersonalAb(password.bytes) ==> store.password == password
      ensures old(Traced(sha, State())) ==>
        (old(Leaks(sha, State())) <==>
          store.password != old(store.password) && store.password.origin.Shared? && !store.password.Empty())
      ensures synced == SyncedToAb(sha, old(State()))
      ensures old(Traced(sha, State()) && Leaks(sha, State())) ==> synced == Some(store.password)
      ensures synced.Some? ==> synced.value == store.password
    {
      var stored := store.password;
      if remember {
        if !password.Empty() && password.bytes != stored.bytes && !IsSharedAb(sha, source, password, hashSalt) {
          stored := password;
        }
      } else {
        if IsPersonalAb(source, password) {
          stored := password;
        } else if !stored.Empty() {
          stored := NO_SECRET;
        }
      }
      synced := None;
      if !stored.Empty() && !IsSharedAb(sha, source, password, hashSalt) && !IsPersonalAb(source, password) {
        synced := Some(stored);
      }
      store.password := stored;
      config := stored;
    }

    method GetConnToken() returns (token: Option<ConnToken>)
      ensures token.None? <==> password.Empty()
      ensures token.Some? ==> token.value == ConnToken(password, source)
      ensures token == TokenOf(State())
    {
      if password.Empty() {
        return None;
      }
      return Some(ConnToken(password, source));
    }
  }

  /** Any sequence of sessions with one peer, each new session with or without the token of the one
      before it, any salts, and the peer's messages in any order. */
  method Run(sha: Digest, store: PeerStore, events: seq<Event>)
    requires NeverEmpty(sha)
    modifies store
    ensures store.password == After(sha, old(store.password), events).stored
    ensures old(store.password).origin == Own && (forall n: nat :: !LeaksAt(sha, old(store.password), events, n)) ==>
      store.password.origin == Own || store.password.Empty()
  {
    ghost var own := store.password;
    var handler := OpenSession(sha, store, None, None, false);
    for i := 0 to |events|
      invariant fresh(handler) && handler.store == store && handler.sha == sha
      invariant handler.State() == After(sha, own, events[..i])
    {
      hide After, Hashed, LoggedIn, Opened, Remembered;
      assert events[..i + 1] == events[..i] + [events[i]];
      AfterStep(sha, own, events[..i], events[i]);
      match events[i] {
        case Open(withToken, shared, switchSides) =>
          var token := None;
          if withToken { token := handler.GetConnToken(); }
          handler := OpenSession(sha, store, token, shared, switchSides);
        case HashReceived(salt, trusted, preset, personalAb, builtin) =>
          handler.HandleHash(salt, trusted, preset, personalAb, builtin);
        case UiLogin(typed, remember) => handler.HandleLoginFromUi(typed, remember);
        case LoginError(passwordRefused) => handler.HandleLoginError(passwordRefused);
        case PeerInfo => var _ := handler.HandlePeerInfo();
      }
    }
    assert events[..|events|] == events;
    if own.origin == Own {
      OwnThroughoutIff(sha, own, events);
    }
  }

  method OpenSession(sha: Digest, store: PeerStore, token: Option<ConnToken>, shared: Option<string>, switchSides: bool)
    returns (handler: LoginConfigHandler)
    ensures fresh(handler) && handler.store == store && handler.sha == sha
    ensures handler.State() == Opened(store.password, token, shared, switchSides)
  {
    handler := new LoginConfigHandler(sha, store);
    handler.Initialize(token, shared, switchSides);
  }
}
