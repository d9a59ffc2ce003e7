/** Token rotation and invalidation (`services/auth_service.py`, `security/tokens.py`,
    `api/auth_deps.py`). Each service call is one transaction; ids are fresh numbers; a
    presented token decodes only if this service issued it. */
module Auth {
  import opened Options
  import Languages

  type UserId = nat
  type TokenId = nat

  datatype TokenType = Access | Refresh

  datatype Token = Token(kind: TokenType, subject: UserId, id: TokenId, version: nat, expires: int)

  datatype User = User(active: bool, version: nat, password: string, mustChange: bool)
  datatype Session = Session(user: UserId, revoked: bool, expires: int)
  datatype Reset = Reset(user: UserId, used: bool, expires: int, mustChange: bool)

  datatype TokenPair = TokenPair(access: Token, refresh: Token)

  /** What has happened, oldest first. */
  datatype Event =
    | Issued(token: Token)
    | Redeemed(token: Token, at: int)
    | Accepted(token: Token, at: int)
    | SignedOut(session: TokenId)
    | SignedOutAll(user: UserId)
    | Invalidated(user: UserId)
    | ResetUsed(reset: TokenId)

  type Users = map<UserId, User>
  type Sessions = map<TokenId, Session>
  type Resets = map<TokenId, Reset>

  // ---- The promises, over the whole history -------------------------------------------

  /** The session that an event ends: that of a refresh token redeemed or signed out. */
  function Spent(e: Event): Option<TokenId> {
    match e
    case Redeemed(t, _) => Some(t.id)
    case SignedOut(id) => Some(id)
    case _ => None
  }

  /** A refresh token is redeemed at most once, and not after it was signed out; a reset token
      is used at most once. */
  ghost predicate OnceOnly(log: seq<Event>) {
    forall i, j :: 0 <= i < j < |log| ==>
      && (log[j].Redeemed? ==> Spent(log[i]) != Some(log[j].token.id))
      && (log[i].ResetUsed? && log[j].ResetUsed? ==> log[i].reset != log[j].reset)
  }

  predicate Uses(e: Event, t: Token) {
    (e.Redeemed? || e.Accepted?) && e.token == t
  }

  /** Only refresh tokens are redeemed and only access tokens accepted, all before they
      expire. */
  predicate ProperUse(e: Event) {
    && (e.Redeemed? ==> e.token.kind == Refresh && e.at < e.token.expires)
    && (e.Accepted? ==> e.token.kind == Access && e.at < e.token.expires)
  }

  ghost predicate ProperUses(log: seq<Event>) {
    forall j :: 0 <= j < |log| ==> ProperUse(log[j])
  }

  /** Once a user signs out everywhere, no token issued to them before is redeemed again. */
  ghost predicate NeverAfterSignOut(log: seq<Event>) {
    forall i, k, j :: 0 <= i < k < j < |log| && log[i].Issued? && log[k] == SignedOutAll(log[i].token.subject) ==>
      !(log[j].Redeemed? && log[j].token == log[i].token)
  }

  /** Once a password changes, no token issued to that user before is accepted again. */
  ghost predicate NeverStale(log: seq<Event>) {
    forall i, k, j :: 0 <= i < k < j < |log| && log[i].Issued? && log[k] == Invalidated(log[i].token.subject) ==>
      !Uses(log[j], log[i].token)
  }

  /** Every use is of a token that had been issued. */
  ghost predicate NothingForged(log: seq<Event>) {
    forall j :: 0 <= j < |log| && (log[j].Redeemed? || log[j].Accepted?) ==> Issued(log[j].token) in log[..j]
  }

  // ---- What the tables say about the history ------------------------------------------

  /** Every issued token belongs to a user and carries a version that user has had. */
  ghost predicate VersionsOk(users: Users, issued: set<Token>, next: nat) {
    forall t :: t in issued ==> t.id < next && t.subject in users && t.version <= users[t.subject].version
  }

  ghost predicate IssuedAgrees(issued: set<Token>, log: seq<Event>) {
    forall t :: t in issued <==> Issued(t) in log
  }

  /** A token issued before an invalidation of its user is behind the user's version. */
  ghost predicate Outdated(users: Users, log: seq<Event>) {
    forall i, k :: 0 <= i < k < |log| && log[i].Issued? && log[k] == Invalidated(log[i].token.subject) ==>
      log[i].token.subject in users && log[i].token.version < users[log[i].token.subject].version
  }

  ghost predicate SpentOk(sessions: Sessions, resets: Resets, next: nat, log: seq<Event>) {
    && (forall j :: j in sessions ==> j < next)
    && (forall h :: h in resets ==> h < next)
    && (forall i :: 0 <= i < |log| && Spent(log[i]).Some? ==>
          var id := Spent(log[i]).value; id < next && (id in sessions ==> sessions[id].revoked))
    && (forall i :: 0 <= i < |log| && log[i].ResetUsed? ==>
          log[i].reset < next && (log[i].reset in resets ==> resets[log[i].reset].used))
  }

  /** A refresh token's session is its user's. */
  ghost predicate SessionsMatch(sessions: Sessions, issued: set<Token>) {
    forall t :: t in issued && t.kind == Refresh && t.id in sessions ==> sessions[t.id].user == t.subject
  }

  /** Refresh tokens issued before their user signed out everywhere have no live session. */
  ghost predicate SignedOutOk(sessions: Sessions, next: nat, log: seq<Event>) {
    forall i, k :: 0 <= i < k < |log| && log[i].Issued? && log[i].token.kind == Refresh &&
                   log[k] == SignedOutAll(log[i].token.subject) ==>
      log[i].token.id < next && (log[i].token.id in sessions ==> sessions[log[i].token.id].revoked)
  }

  ghost predicate Sound(users: Users, sessions: Sessions, resets: Resets, issued: set<Token>, next: nat,
                        log: seq<Event>)
  {
    && VersionsOk(users, issued, next) && IssuedAgrees(issued, log) && Outdated(users, log)
    && SpentOk(sessions, resets, next, log) && SessionsMatch(sessions, issued) && SignedOutOk(sessions, next, log)
    && OnceOnly(log) && NeverStale(log) && NothingForged(log) && ProperUses(log) && NeverAfterSignOut(log)
  }

  /** Users may appear and may change in any way that keeps their versions from falling. */
  ghost predicate Grows(users: Users, users': Users) {
    forall u :: u in users ==> u in users' && users[u].version <= users'[u].version
  }

  /** Sessions and resets may be removed, used up, or appear under new ids. */
  ghost predicate Wears(sessions: Sessions, sessions': Sessions, resets: Resets, resets': Resets,
                        next: nat, next': nat)
  {
    && next <= next'
    && (forall j :: j in sessions' ==>
          j < next' && (j < next ==> j in sessions && sessions'[j].user == sessions[j].user &&
                                     (sessions[j].revoked ==> sessions'[j].revoked)))
    && (forall h :: h in resets' ==> h < next' && (h < next ==> h in resets && (resets[h].used ==> resets'[h].used)))
  }

  lemma TablesMove(users: Users, sessions: Sessions, resets: Resets, issued: set<Token>, next: nat, log: seq<Event>,
                   users': Users, sessions': Sessions, resets': Resets, next': nat)
    requires Sound(users, sessions, resets, issued, next, log)
    requires Grows(users, users') && Wears(sessions, sessions', resets, resets', next, next')
    ensures Sound(users', sessions', resets', issued, next', log)
  {
    SpentMoves(sessions, resets, next, log, sessions', resets', next');
    hide SpentOk, OnceOnly, NeverStale, NothingForged, ProperUses, NeverAfterSignOut, IssuedAgrees;
  }

  lemma SpentMoves(sessions: Sessions, resets: Resets, next: nat, log: seq<Event>,
                   sessions': Sessions, resets': Resets, next': nat)
    requires SpentOk(sessions, resets, next, log) && Wears(sessions, sessions', resets, resets', next, next')
    ensures SpentOk(sessions', resets', next', log)
  {
    hide Spent;
  }

  ghost predicate NotYetSpent(log: seq<Event>, id: TokenId) {
    forall i :: 0 <= i < |log| ==> Spent(log[i]) != Some(id)
  }

  /** The token's user has not signed out everywhere since it was issued. */
  ghost predicate NotSignedOut(log: seq<Event>, t: Token) {
    forall i, k :: 0 <= i < k < |log| ==> !(log[i] == Issued(t) && log[k] == SignedOutAll(t.subject))
  }

  ghost predicate NotYetReset(log: seq<Event>, id: TokenId) {
    forall i :: 0 <= i < |log| && log[i].ResetUsed? ==> log[i].reset != id
  }

  predicate Current(users: Users, issued: set<Token>, t: Token) {
    t in issued && t.subject in users && t.version == users[t.subject].version
  }

  /** When an event may be added to a sound history. */
  ghost predicate MayHappen(users: Users, sessions: Sessions, resets: Resets, issued: set<Token>, next: nat,
                            log: seq<Event>, e: Event) {
    match e
    case Issued(t) =>
      && t.subject in users && t.version == users[t.subject].version && t.id < next && t !in issued
      && (t.kind == Refresh && t.id in sessions ==> sessions[t.id].user == t.subject)
    case Accepted(t, _) => Current(users, issued, t) && ProperUse(e)
    case Redeemed(t, _) =>
      && Current(users, issued, t) && ProperUse(e) && NotYetSpent(log, t.id) && NotSignedOut(log, t)
      && (t.id in sessions ==> sessions[t.id].revoked)
    case SignedOut(id) => id < next && (id in sessions ==> sessions[id].revoked)
    case SignedOutAll(u) =>
      forall t :: t in issued && t.kind == Refresh && t.subject == u ==>
        t.id < next && (t.id in sessions ==> sessions[t.id].revoked)
    case Invalidated(u) => u in users && forall t :: t in issued && t.subject == u ==> t.version < users[u].version
    case ResetUsed(h) => h < next && NotYetReset(log, h) && (h in resets ==> resets[h].used)
  }

  function IssuedWith(issued: set<Token>, e: Event): set<Token> {
    if e.Issued? then issued + {e.token} else issued
  }

  lemma OnceOnlyAppend(log: seq<Event>, e: Event)
    requires OnceOnly(log)
    requires e.Redeemed? ==> NotYetSpent(log, e.token.id)
    requires e.ResetUsed? ==> NotYetReset(log, e.reset)
    ensures OnceOnly(log + [e])
  {
    hide Spent;
  }

  lemma NeverAfterSignOutAppend(log: seq<Event>, e: Event)
    requires NeverAfterSignOut(log)
    requires e.Redeemed? ==> NotSignedOut(log, e.token)
    ensures NeverAfterSignOut(log + [e])
  {
    var longer := log + [e];
    forall i, k, j | 0 <= i < k < j < |longer| && longer[i].Issued? &&
                     longer[k] == SignedOutAll(longer[i].token.subject)
      ensures !(longer[j].Redeemed? && longer[j].token == longer[i].token)
    {
      assert longer[i] == log[i] && longer[k] == log[k];
    }
  }

  lemma SignedOutAppend(sessions: Sessions, issued: set<Token>, next: nat, log: seq<Event>, e: Event)
    requires SignedOutOk(sessions, next, log) && IssuedAgrees(issued, log)
    requires e.SignedOutAll? ==>
               forall t :: t in issued && t.kind == Refresh && t.subject == e.user ==>
                 t.id < next && (t.id in sessions ==> sessions[t.id].revoked)
    ensures SignedOutOk(sessions, next, log + [e])
  {
    var longer := log + [e];
    forall i, k | 0 <= i < k < |longer| && longer[i].Issued? && longer[i].token.kind == Refresh &&
                  longer[k] == SignedOutAll(longer[i].token.subject)
      ensures longer[i].token.id < next &&
              (longer[i].token.id in sessions ==> sessions[longer[i].token.id].revoked)
    {
      assert longer[i] == log[i];
      if k == |log| { assert Issued(log[i].token) in log; }
    }
  }

  lemma NeverStaleAppend(users: Users, issued: set<Token>, log: seq<Event>, e: Event)
    requires NeverStale(log) && Outdated(users, log)
    requires e.Redeemed? || e.Accepted? ==> Current(users, issued, e.token)
    ensures NeverStale(log + [e])
  {
  }

  lemma NothingForgedAppend(issued: set<Token>, log: seq<Event>, e: Event)
    requires NothingForged(log) && IssuedAgrees(issued, log)
    requires e.Redeemed? || e.Accepted? ==> e.token in issued
    ensures NothingForged(log + [e])
  {
    var longer := log + [e];
    forall j | 0 <= j < |longer| && (longer[j].Redeemed? || longer[j].Accepted?)
      ensures Issued(longer[j].token) in longer[..j]
    {
      assert longer[..j] == log[..j];
      if j == |log| { assert log[..j] == log; }
    }
  }

  lemma IssuedAgreesAppend(issued: set<Token>, log: seq<Event>, e: Event)
    requires IssuedAgrees(issued, log)
    ensures IssuedAgrees(IssuedWith(issued, e), log + [e])
  {
    assert forall t :: Issued(t) in log + [e] <==> Issued(t) in log || Issued(t) == e;
  }

  lemma OutdatedAppend(users: Users, issued: set<Token>, log: seq<Event>, e: Event)
    requires Outdated(users, log) && IssuedAgrees(issued, log)
    requires e.Invalidated? ==>
               e.user in users &&
               forall t :: t in issued && t.subject == e.user ==> t.version < users[e.user].version
    ensures Outdated(users, log + [e])
  {
    var longer := log + [e];
    forall i, k | 0 <= i < k < |longer| && longer[i].Issued? && longer[k] == Invalidated(longer[i].token.subject)
      ensures longer[i].token.subject in users && longer[i].token.version < users[longer[i].token.subject].version
    {
      assert longer[i] == log[i];
      if k == |log| { assert Issued(log[i].token) in log; }
    }
  }

  lemma SpentAppend(sessions: Sessions, resets: Resets, next: nat, log: seq<Event>, e: Event)
    requires SpentOk(sessions, resets, next, log)
    requires Spent(e).Some? ==>
               var id := Spent(e).value; id < next && (id in sessions ==> sessions[id].revoked)
    requires e.ResetUsed? ==> e.reset < next && (e.reset in resets ==> resets[e.reset].used)
    ensures SpentOk(sessions, resets, next, log + [e])
  {
    hide Spent;
  }

  /** Every event that the tables admit keeps the history sound. */
  lemma Happens(users: Users, sessions: Sessions, resets: Resets, issued: set<Token>, next: nat,
                log: seq<Event>, e: Event)
    requires Sound(users, sessions, resets, issued, next, log)
    requires MayHappen(users, sessions, resets, issued, next, log, e)
    ensures Sound(users, sessions, resets, IssuedWith(issued, e), next, log + [e])
  {
    OnceOnlyAppend(log, e);
    NeverStaleAppend(users, issued, log, e);
    NothingForgedAppend(issued, log, e);
    IssuedAgreesAppend(issued, log, e);
    OutdatedAppend(users, issued, log, e);
    SpentAppend(sessions, resets, next, log, e);
    SignedOutAppend(sessions, issued, next, log, e);
    NeverAfterSignOutAppend(log, e);
    hide OnceOnly, NeverStale, NothingForged, IssuedAgrees, Outdated, SpentOk, SignedOutOk, NeverAfterSignOut;
  }

  lemma UnspentSession(users: Users, sessions: Sessions, resets: Resets, issued: set<Token>, next: nat,
                       log: seq<Event>, id: TokenId)
    requires Sound(users, sessions, resets, issued, next, log)
    ensures id in sessions && !sessions[id].revoked ==> NotYetSpent(log, id)
    ensures id in resets && !resets[id].used ==> NotYetReset(log, id) && id < next
  {
  }

  lemma LiveTokenNotSignedOut(users: Users, sessions: Sessions, resets: Resets, issued: set<Token>, next: nat,
                              log: seq<Event>, t: Token)
    requires Sound(users, sessions, resets, issued, next, log)
    requires t.kind == Refresh && t.id in sessions && !sessions[t.id].revoked
    ensures NotSignedOut(log, t)
  {
  }

  lemma IdsBelow(users: Users, sessions: Sessions, resets: Resets, issued: set<Token>, next: nat, log: seq<Event>)
    requires Sound(users, sessions, resets, issued, next, log)
    ensures forall t :: t in issued ==> t.id < next
  {
  }

  lemma VersionBound(users: Users, sessions: Sessions, resets: Resets, issued: set<Token>, next: nat,
                     log: seq<Event>, t: Token)
    requires Sound(users, sessions, resets, issued, next, log) && t in issued
    ensures t.id < next && t.subject in users && t.version <= users[t.subject].version
  {
  }

  lemma TokensMatch(users: Users, sessions: Sessions, resets: Resets, issued: set<Token>, next: nat, log: seq<Event>)
    requires Sound(users, sessions, resets, issued, next, log)
    ensures SessionsMatch(sessions, issued) && forall t :: t in issued ==> t.id < next
  {
  }

  lemma NewSessionWears(users: Users, sessions: Sessions, resets: Resets, issued: set<Token>, next: nat,
                        log: seq<Event>, session: Session)
    requires Sound(users, sessions, resets, issued, next, log)
    ensures Wears(sessions, sessions[next + 1 := session], resets, resets, next, next + 2)
  {
  }

  lemma UsedResetWears(users: Users, sessions: Sessions, resets: Resets, issued: set<Token>, next: nat,
                       log: seq<Event>, id: TokenId)
    requires Sound(users, sessions, resets, issued, next, log) && id in resets
    ensures Wears(sessions, sessions, resets, resets[id := resets[id].(used := true)], next, next)
  {
  }

  // ---- The service --------------------------------------------------------------------

  datatype Outcome<+T> = Granted(value: T) | Denied

  /** `_validate_password`: present, not blank, and at least twelve characters. */
  predicate GoodPassword(p: string) {
    |p| >= 12 && !Languages.IsBlank(p)
  }

  /** `decode`: genuine, unexpired and of the expected type. */
  predicate Decodes(issued: set<Token>, t: Token, kind: TokenType, now: int) {
    t in issued && now < t.expires && t.kind == kind
  }

  /** The checks of `refresh`. */
  predicate MayRefresh(users: Users, sessions: Sessions, issued: set<Token>, t: Token, now: int) {
    && Decodes(issued, t, Refresh, now)
    && t.id in sessions && !sessions[t.id].revoked && now <= sessions[t.id].expires
    && t.subject in users && users[t.subject].active && users[t.subject].version == t.version
  }

  /** The checks of `_resolve_user`. */
  predicate MayEnter(users: Users, issued: set<Token>, t: Token, now: int) {
    && Decodes(issued, t, Access, now)
    && t.subject in users && users[t.subject].active && users[t.subject].version == t.version
  }

  class AuthService {
    var users: Users
    var sessions: Sessions
    var resets: Resets
    var next: nat
    /** The tokens signed with this service's key, and its history. */
    var issued: set<Token>
    ghost var log: seq<Event>

    ghost predicate Valid()
      reads this
    {
      Sound(users, sessions, resets, issued, next, log)
    }

    constructor ()
      ensures Valid() && users == map[] && sessions == map[] && resets == map[] && issued == {} && log == []
    {
      users, sessions, resets, next, issued, log := map[], map[], map[], 0, {}, [];
    }

    /** A token is signed and handed out. */
    method Issue(t: Token)
      requires Valid() && MayHappen(users, sessions, resets, issued, next, log, Issued(t))
      modifies `issued, `log
      ensures Valid()
      ensures issued == old(issued) + {t} && log == old(log) + [Issued(t)]
    {
      hide Sound;
      Happens(users, sessions, resets, issued, next, log, Issued(t));
      issued, log := issued + {t}, log + [Issued(t)];
    }

    /** Anything else that happens. */
    ghost method Note(e: Event)
      requires Valid() && !e.Issued? && MayHappen(users, sessions, resets, issued, next, log, e)
      modifies `log
      ensures Valid()
      ensures log == old(log) + [e]
    {
      hide Sound;
      Happens(users, sessions, resets, issued, next, log, e);
      log := log + [e];
    }

    /** `_issue_pair`: two tokens at the user's version, and a session for the refresh one. */
    method IssuePair(u: UserId, accessUntil: int, refreshUntil: int) returns (pair: TokenPair)
      requires Valid() && u in users
      modifies `sessions, `next, `issued, `log
      ensures Valid()
      ensures pair == NewPair(old(next), u, users[u].version, accessUntil, refreshUntil)
      ensures next == old(next) + 2
      ensures sessions == old(sessions)[pair.refresh.id := Session(u, false, refreshUntil)]
      ensures issued == old(issued) + {pair.access, pair.refresh}
      ensures pair.access !in old(issued) && pair.refresh !in old(issued) && pair.access.id != pair.refresh.id
      ensures log == old(log) + [Issued(pair.access), Issued(pair.refresh)]
      ensures users[u].active ==> forall at :: MayEnter(users, issued, pair.access, at) <==> at < accessUntil
      ensures users[u].active ==>
                forall at :: MayRefresh(users, sessions, issued, pair.refresh, at) <==> at < refreshUntil
    {
      hide Sound;
      pair := NewPair(next, u, users[u].version, accessUntil, refreshUntil);
      IdsBelow(users, sessions, resets, issued, next, log);
      OpenSession(u, refreshUntil);
      Issue(pair.access);
      Issue(pair.refresh);
    }

    /** Two ids are taken, and the second one's session is stored. */
    method OpenSession(u: UserId, until: int)
      requires Valid()
      modifies `sessions, `next
      ensures Valid()
      ensures next == old(next) + 2 && sessions == old(sessions)[old(next) + 1 := Session(u, false, until)]
    {
      hide Sound;
      NewSessionWears(users, sessions, resets, issued, next, log, Session(u, false, until));
      TablesMove(users, sessions, resets, issued, next, log,
                 users, sessions[next + 1 := Session(u, false, until)], resets, next + 2);
      sessions, next := sessions[next + 1 := Session(u, false, until)], next + 2;
    }

    /** `login`, for the account the login name was resolved to, if any. */
    method Login(u: UserId, password: string, accessUntil: int, refreshUntil: int) returns (r: Outcome<TokenPair>)
      requires Valid()
      modifies `sessions, `next, `issued, `log
      ensures Valid()
      ensures r.Granted? <==> u in users && users[u].active && users[u].password == password
      ensures r.Denied? ==> sessions == old(sessions) && issued == old(issued) && log == old(log)
      ensures r.Granted? ==>
                && r.value == NewPair(old(next), u, users[u].version, accessUntil, refreshUntil)
                && (forall at :: MayEnter(users, issued, r.value.access, at) <==> at < accessUntil)
                && (forall at :: MayRefresh(users, sessions, issued, r.value.refresh, at) <==> at < refreshUntil)
    {
      if u !in users || !users[u].active || users[u].password != password { return Denied; }
      var pair := IssuePair(u, accessUntil, refreshUntil);
      return Granted(pair);
    }

    /** `refresh`: denied without effect, or the old session is revoked and a pair issued. */
    method RefreshPair(t: Token, now: int, accessUntil: int, refreshUntil: int) returns (r: Outcome<TokenPair>)
      requires Valid()
      modifies `sessions, `next, `issued, `log
      ensures Valid()
      ensures r.Granted? <==> MayRefresh(users, old(sessions), old(issued), t, now)
      ensures r.Granted? <==>
                && t in old(issued) && now < t.expires && t.kind == Refresh
                && t.id in old(sessions) && !old(sessions)[t.id].revoked && now <= old(sessions)[t.id].expires
                && t.subject in users && users[t.subject].active && users[t.subject].version == t.version
      ensures r.Denied? ==> sessions == old(sessions) && issued == old(issued) && log == old(log)
      ensures r.Granted? ==>
                && r.value == NewPair(old(next), t.subject, t.version, accessUntil, refreshUntil)
                && sessions == Rotated(old(sessions), t, r.value.refresh.id, refreshUntil)
                && log == old(log) + [Redeemed(t, now), Issued(r.value.access), Issued(r.value.refresh)]
                && (forall at :: !MayRefresh(users, sessions, issued, t, at))
                && (forall at :: MayEnter(users, issued, r.value.access, at) <==> at < accessUntil)
                && (forall at :: MayRefresh(users, sessions, issued, r.value.refresh, at) <==> at < refreshUntil)
    {
      if !MayRefresh(users, sessions, issued, t, now) { return Denied; }
      var pair := Rotate(t, now, accessUntil, refreshUntil);
      return Granted(pair);
    }

    method Rotate(t: Token, now: int, accessUntil: int, refreshUntil: int) returns (pair: TokenPair)
      requires Valid() && MayRefresh(users, sessions, issued, t, now)
      modifies `sessions, `next, `issued, `log
      ensures Valid()
      ensures pair == NewPair(old(next), t.subject, t.version, accessUntil, refreshUntil)
      ensures sessions == Rotated(old(sessions), t, pair.refresh.id, refreshUntil)
      ensures log == old(log) + [Redeemed(t, now), Issued(pair.access), Issued(pair.refresh)]
      ensures pair.refresh.id == old(next) + 1 && t.id < old(next)
      ensures forall at :: MayEnter(users, issued, pair.access, at) <==> at < accessUntil
      ensures forall at :: MayRefresh(users, sessions, issued, pair.refresh, at) <==> at < refreshUntil
    {
      hide Sound, NotYetSpent, NotSignedOut;
      UnspentSession(users, sessions, resets, issued, next, log, t.id);
      LiveTokenNotSignedOut(users, sessions, resets, issued, next, log, t);
      IdsBelow(users, sessions, resets, issued, next, log);
      var revoked := Revoke(t.id);
      Note(Redeemed(t, now));
      pair := IssuePair(t.subject, accessUntil, refreshUntil);
    }

    /** The repository's `revoke`: a no-op on a missing or revoked session. */
    method Revoke(id: TokenId) returns (revoked: bool)
      requires Valid()
      modifies `sessions
      ensures Valid()
      ensures revoked <==> id in old(sessions) && !old(sessions)[id].revoked
      ensures sessions == if revoked then old(sessions)[id := old(sessions)[id].(revoked := true)] else old(sessions)
    {
      revoked := id in sessions && !sessions[id].revoked;
      if revoked {
        TablesMove(users, sessions, resets, issued, next, log,
                   users, sessions[id := sessions[id].(revoked := true)], resets, next);
        sessions := sessions[id := sessions[id].(revoked := true)];
      }
    }

    /** `logout`: the presented token's session ends, if the token decodes. */
    method Logout(t: Token, now: int)
      requires Valid()
      modifies `sessions, `log
      ensures Valid()
      ensures var genuine := t in issued && now < t.expires && t.kind == Refresh;
              && sessions == (if genuine && t.id in old(sessions)
                              then old(sessions)[t.id := old(sessions)[t.id].(revoked := true)] else old(sessions))
              && log == old(log) + (if genuine then [SignedOut(t.id)] else [])
              && (genuine ==> forall at :: !MayRefresh(users, sessions, issued, t, at))
    {
      if Decodes(issued, t, Refresh, now) {
        hide Sound;
        IdsBelow(users, sessions, resets, issued, next, log);
        var revoked := Revoke(t.id);
        Note(SignedOut(t.id));
      }
    }

    /** `logout_all`: every live session of the user, and how many there were. */
    method LogoutAll(u: UserId) returns (count: nat)
      requires Valid()
      modifies `sessions, `log
      ensures Valid()
      ensures sessions == RevokedFor(old(sessions), u)
      ensures sessions.Keys == old(sessions).Keys
      ensures forall id :: id in sessions ==>
                sessions[id] == if old(sessions)[id].user == u then old(sessions)[id].(revoked := true)
                                else old(sessions)[id]
      ensures count == |set id | id in old(sessions) && old(sessions)[id].user == u && !old(sessions)[id].revoked|
      ensures log == old(log) + [SignedOutAll(u)]
      ensures forall t: Token, at :: t.subject == u ==> !MayRefresh(users, sessions, issued, t, at)
      ensures forall t: Token, at :: t.subject != u ==>
                (MayRefresh(users, sessions, issued, t, at) <==> MayRefresh(users, old(sessions), issued, t, at))
    {
      count := |set id | id in sessions && sessions[id].user == u && !sessions[id].revoked|;
      TablesMove(users, sessions, resets, issued, next, log, users, RevokedFor(sessions, u), resets, next);
      TokensMatch(users, sessions, resets, issued, next, log);
      hide Sound;
      sessions := RevokedFor(sessions, u);
      Note(SignedOutAll(u));
    }

    /** What a new password does to a user: the version goes up and every session ends. */
    method Renew(u: UserId, user: User)
      requires Valid() && u in users && user.version == users[u].version + 1
      modifies `users, `sessions, `log
      ensures Valid()
      ensures users == old(users)[u := user]
      ensures sessions == RevokedFor(old(sessions), u)
      ensures log == old(log) + [Invalidated(u)]
      ensures forall id :: id in sessions && sessions[id].user == u ==> sessions[id].revoked
      ensures forall t: Token, at :: t.subject == u ==>
                      !MayRefresh(users, sessions, issued, t, at) && !MayEnter(users, issued, t, at)
    {
      TablesMove(users, sessions, resets, issued, next, log, users[u := user], RevokedFor(sessions, u), resets, next);
      hide Sound;
      forall t | t in issued && t.subject == u ensures t.version <= users[u].version {
        VersionBound(users, sessions, resets, issued, next, log, t);
      }
      users, sessions := users[u := user], RevokedFor(sessions, u);
      Note(Invalidated(u));
    }

    /** `change_password`. */
    method ChangePassword(u: UserId, current: string, newPassword: string) returns (ok: bool)
      requires Valid() && u in users
      modifies `users, `sessions, `log
      ensures Valid()
      ensures ok <==> old(users)[u].password == current && |newPassword| >= 12 && !Languages.IsBlank(newPassword)
      ensures !ok ==> users == old(users) && sessions == old(sessions) && log == old(log)
      ensures ok ==>
                && users == old(users)[u := old(users)[u].(password := newPassword, mustChange := false,
                                                           version := old(users)[u].version + 1)]
                && sessions == RevokedFor(old(sessions), u)
                && log == old(log) + [Invalidated(u)]
                && (forall id :: id in sessions && sessions[id].user == u ==> sessions[id].revoked)
                && (forall t: Token, at :: t.subject == u ==>
                      !MayRefresh(users, sessions, issued, t, at) && !MayEnter(users, issued, t, at))
    {
      if users[u].password != current || !GoodPassword(newPassword) { return false; }
      Renew(u, users[u].(password := newPassword, mustChange := false, version := users[u].version + 1));
      return true;
    }

    /** `request_password_reset`: the user's earlier reset tokens go, one new one comes. */
    method RequestReset(u: UserId, expires: int, mustChange: bool) returns (token: Option<TokenId>)
      requires Valid()
      modifies `resets, `next
      ensures Valid()
      ensures token.Some? <==> u in users && users[u].active
      ensures token.None? ==> resets == old(resets) && next == old(next)
      ensures token.Some? ==>
                && token.value == old(next) && next == old(next) + 1
                && resets == WithoutUser(old(resets), u)[token.value := Reset(u, false, expires, mustChange)]
                && (forall id :: id in resets && resets[id].user == u ==> id == token.value)
                && (forall id :: id in old(resets) && old(resets)[id].user != u ==>
                      id in resets && resets[id] == old(resets)[id])
    {
      if u !in users || !users[u].active { return None; }
      var after := WithoutUser(resets, u)[next := Reset(u, false, expires, mustChange)];
      TablesMove(users, sessions, resets, issued, next, log, users, sessions, after, next + 1);
      token := Some(next);
      resets, next := after, next + 1;
    }

    /** `confirm_password_reset`. */
    method ConfirmReset(id: TokenId, newPassword: string, now: int) returns (ok: bool)
      requires Valid()
      modifies `users, `sessions, `resets, `log
      ensures Valid()
      ensures ok <==>
                && |newPassword| >= 12 && !Languages.IsBlank(newPassword)
                && id in old(resets) && !old(resets)[id].used && now <= old(resets)[id].expires
                && old(resets)[id].user in old(users) && old(users)[old(resets)[id].user].active
      ensures !ok ==> users == old(users) && sessions == old(sessions) && resets == old(resets) && log == old(log)
      ensures ok ==>
                var u := old(resets)[id].user;
                var was := old(users)[u];
                && users == old(users)[u := was.(password := newPassword, version := was.version + 1,
                                                 mustChange := was.mustChange || old(resets)[id].mustChange)]
                && sessions == RevokedFor(old(sessions), u)
                && resets == old(resets)[id := old(resets)[id].(used := true)]
                && log == old(log) + [Invalidated(u), ResetUsed(id)]
                && (forall j :: j in sessions && sessions[j].user == u ==> sessions[j].revoked)
                && (forall t: Token, at :: t.subject == u ==>
                      !MayRefresh(users, sessions, issued, t, at) && !MayEnter(users, issued, t, at))
    {
      if !GoodPassword(newPassword) { return false; }
      if id !in resets || resets[id].used || resets[id].expires < now { return false; }
      var u := resets[id].user;
      if u !in users || !users[u].active { return false; }
      hide Sound, RevokedFor, MayRefresh, MayEnter;
      Renew(u, users[u].(password := newPassword, version := users[u].version + 1,
                         mustChange := users[u].mustChange || resets[id].mustChange));
      UseReset(id);
      return true;
    }

    /** A reset token is used up. */
    method UseReset(id: TokenId)
      requires Valid() && id in resets && !resets[id].used
      modifies `resets, `log
      ensures Valid()
      ensures resets == old(resets)[id := old(resets)[id].(used := true)]
      ensures log == old(log) + [ResetUsed(id)]
    {
      hide Sound;
      UnspentSession(users, sessions, resets, issued, next, log, id);
      UsedResetWears(users, sessions, resets, issued, next, log, id);
      TablesMove(users, sessions, resets, issued, next, log,
                 users, sessions, resets[id := resets[id].(used := true)], next);
      resets := resets[id := resets[id].(used := true)];
      Note(ResetUsed(id));
    }

    /** `current_user` with `_resolve_user`: whether an access token is accepted. */
    method Authenticate(t: Token, now: int) returns (ok: bool)
      requires Valid()
      modifies `log
      ensures Valid()
      ensures ok <==> MayEnter(users, issued, t, now)
      ensures ok <==>
                && t in issued && now < t.expires && t.kind == Access
                && t.subject in users && users[t.subject].active && users[t.subject].version == t.version
      ensures log == old(log) + if ok then [Accepted(t, now)] else []
    {
      ok := MayEnter(users, issued, t, now);
      if ok { Note(Accepted(t, now)); }
    }

    /** Registration, and an administrator switching an account on or off. */
    method SetUser(u: UserId, user: User)
      requires Valid()
      requires u in users ==> user.version == users[u].version
      modifies `users
      ensures Valid()
      ensures users == old(users)[u := user]
    {
      TablesMove(users, sessions, resets, issued, next, log, users[u := user], sessions, resets, next);
      users := users[u := user];
    }
  }

  function NewPair(next: nat, u: UserId, version: nat, accessUntil: int, refreshUntil: int): TokenPair {
    TokenPair(Token(Access, u, next, version, accessUntil), Token(Refresh, u, next + 1, version, refreshUntil))
  }

  function Rotated(sessions: Sessions, t: Token, id: TokenId, until: int): Sessions
    requires t.id in sessions
  {
    sessions[t.id := sessions[t.id].(revoked := true)][id := Session(t.subject, false, until)]
  }

  function RevokedFor(sessions: Sessions, u: UserId): Sessions {
    map id | id in sessions :: if sessions[id].user == u then sessions[id].(revoked := true) else sessions[id]
  }

  function WithoutUser(resets: Resets, u: UserId): Resets {
    map id | id in resets && resets[id].user != u :: resets[id]
  }

  /** In every run, whatever is redeemed after its user signed out everywhere was issued after
      that. */
  lemma RedeemedTokensAreNew(users: Users, sessions: Sessions, resets: Resets, issued: set<Token>, next: nat,
                             log: seq<Event>, t: Token, i: nat, j: nat)
    requires Sound(users, sessions, resets, issued, next, log)
    requires i < j < |log| && log[i] == SignedOutAll(t.subject) && log[j].Redeemed? && log[j].token == t
    ensures Issued(t) in log[i + 1..j] && Issued(t) !in log[..i]
  {
    hide VersionsOk, IssuedAgrees, Outdated, SpentOk, OnceOnly, SessionsMatch, SignedOutOk, NeverStale, ProperUses;
    assert Issued(t) in log[..j];
    var k :| 0 <= k < j && log[k] == Issued(t);
    assert !(k < i);
    assert log[i + 1..j][k - i - 1] == log[k];
  }

  /** In every run, whatever is accepted or redeemed after a user's password changed was
      issued to them after that change. */
  lemma UsedTokensAreNew(users: Users, sessions: Sessions, resets: Resets, issued: set<Token>, next: nat,
                         log: seq<Event>, t: Token, i: nat, j: nat)
    requires Sound(users, sessions, resets, issued, next, log)
    requires i < j < |log| && log[i] == Invalidated(t.subject) && Uses(log[j], t)
    ensures Issued(t) in log[i + 1..j] && Issued(t) !in log[..i]
  {
    hide VersionsOk, IssuedAgrees, Outdated, SpentOk, OnceOnly, SessionsMatch, SignedOutOk;
    hide NeverAfterSignOut, ProperUses;
    assert Issued(t) in log[..j];
    var k :| 0 <= k < j && log[k] == Issued(t);
    assert !(k < i);
    assert log[i + 1..j][k - i - 1] == log[k];
    forall m | 0 <= m < i ensures log[m] != Issued(t) {
      assert !(log[m].Issued? && log[i] == Invalidated(log[m].token.subject) && Uses(log[j], log[m].token));
    }
  }
}
