/** Safety of sessions over every run: break-glass access ends with its activation, and the
  throttled last-seen stamp still bounds idleness. */
module SessionRuns {
  import opened Options
  import opened Sessions

  datatype Event =
    | Provision(minutes: nat)
    | ExpireDue
    | LoginFallback(id: SessionId, passwordOk: bool, absolute: Time, later: Time)
    | LoginLdap(id: SessionId, named: bool, absolute: Time)
    | LogOut(id: SessionId, via: Via)
    | Ask(id: SessionId, matches: bool, idleMinutes: int, directory: Directory)

  /** A run: events with their times. */
  type Run = seq<(Time, Event)>

  const EMPTY := State(None, map[])

  function Step(s: State, now: Time, event: Event): State {
    match event
    case Provision(minutes) => Provisioned(s, now, minutes)
    case ExpireDue => LookedUp(s, now)
    case LoginFallback(id, passwordOk, absolute, later) => FallbackLogin(s, now, later, passwordOk, absolute, id)
    case LoginLdap(id, named, absolute) => LdapLogin(s, now, named, absolute, id)
    case LogOut(id, via) => Logout(s, id, via, now)
    case Ask(id, matches, idleMinutes, directory) => Request(s, id, matches, now, idleMinutes, directory).0
  }

  /** The state after the first k events. */
  function After(run: Run, k: nat): State
    requires k <= |run|
  {
    if k == 0 then EMPTY else Step(After(run, k - 1), run[k - 1].0, run[k - 1].1)
  }

  function OutcomeAt(run: Run, k: nat): Outcome
    requires k < |run| && run[k].1.Ask?
  {
    var ask := run[k].1;
    Request(After(run, k), ask.id, ask.matches, run[k].0, ask.idleMinutes, ask.directory).1
  }

  ghost predicate AcceptsAt(run: Run, k: nat, id: SessionId) {
    k < |run| && run[k].1.Ask? && run[k].1.id == id && OutcomeAt(run, k).Accepted?
  }

  /** When an event is over: a fallback login creates its session some time after it began. */
  function EndOf(now: Time, event: Event): Time {
    if event.LoginFallback? then event.later else now
  }

  function Finished(run: Run, k: nat): Time
    requires k < |run|
  {
    EndOf(run[k].0, run[k].1)
  }

  /** The clock never goes back. */
  ghost predicate Clocked(run: Run) {
    && (forall i :: 0 <= i < |run| ==> run[i].0 <= Finished(run, i))
    && (forall i, j :: 0 <= i < j < |run| ==> Finished(run, i) <= run[j].0)
  }

  predicate IsLogin(event: Event, id: SessionId) {
    (event.LoginFallback? && event.id == id) || (event.LoginLdap? && event.id == id)
  }

  /** Session ids are random: no login draws one that is in use. */
  ghost predicate FreshIds(run: Run) {
    forall k, id :: 0 <= k < |run| && IsLogin(run[k].1, id) ==> id !in After(run, k).sessions
  }

  /** The event looks up the activation: the timer, a fallback login, or a request of a live fallback
    session. */
  predicate LooksUp(s: State, event: Event) {
    match event
    case ExpireDue => true
    case LoginFallback(_, _, _, _) => true
    case Ask(id, matches, _, _) =>
      matches && id in s.sessions && s.sessions[id].revokedAt.None? && s.sessions[id].via.Fallback?
    case _ => false
  }

  /** Logout from a fallback session, re-provisioning, and expiry end an activation; one that is due
    expires whenever it is looked up. */
  predicate Ends(s: State, now: Time, event: Event) {
    || event.Provision?
    || (event.LogOut? && event.via.Fallback?)
    || (LooksUp(s, event) && Due(s, now))
  }

  ghost predicate FallbackDead(s: State) {
    forall id :: id in s.sessions && s.sessions[id].via.Fallback? ==> s.sessions[id].revokedAt.Some?
  }

  /** Fallback sessions carry the fallback user name. */
  ghost predicate FallbackNamed(s: State) {
    forall id :: id in s.sessions && s.sessions[id].via.Fallback? ==> s.sessions[id].named
  }

  // ----- One step ------------------------------------------------------------------------------

  /** Sessions are never removed, keep their kind and creation time, and stay revoked; a new one
    comes from a login. */
  lemma StepKeepsSessions(s: State, now: Time, event: Event, id: SessionId)
    requires IsLogin(event, id) ==> id !in s.sessions
    ensures var t := Step(s, now, event);
      && (id in s.sessions ==> id in t.sessions && Continues(s.sessions[id], t.sessions[id]))
      && (id !in s.sessions && id in t.sessions ==>
        IsLogin(event, id) && Starts(t.sessions[id], EndOf(now, event), event.LoginFallback?))
  {
    if event.Ask? {
      RequestKeepsSessions(s, event.id, event.matches, now, event.idleMinutes, event.directory, id);
    }
  }

  lemma RequestKeepsSessions(s: State, asked: SessionId, matches: bool, now: Time, idleMinutes: int,
                             directory: Directory, id: SessionId)
    ensures var after := Request(s, asked, matches, now, idleMinutes, directory).0;
      && (id in s.sessions <==> id in after.sessions)
      && (id in s.sessions ==> Continues(s.sessions[id], after.sessions[id]))
  {
    if asked in s.sessions && s.sessions[asked].revokedAt.None? {
      var (checked, live) := FallbackChecked(s, asked, now);
      assert id in s.sessions ==> id in checked.sessions && Continues(s.sessions[id], checked.sessions[id]);
    }
  }

  predicate Continues(before: Session, after: Session) {
    && after.via == before.via && after.createdAt == before.createdAt && after.named == before.named
    && (before.revokedAt.Some? ==> after == before)
  }

  predicate Starts(row: Session, now: Time, fallback: bool) {
    && row.createdAt == now == row.lastSeenAt && row.revokedAt.None?
    && (row.via.Fallback? <==> fallback) && (fallback ==> row.named)
  }

  lemma StepEndsFallback(s: State, now: Time, event: Event)
    requires FallbackNamed(s) && Ends(s, now, event)
    ensures FallbackDead(Step(s, now, event))
  {
  }

  /** An accepted fallback request lies within the running activation, after its start. */
  lemma AcceptedIsRunning(s: State, now: Time, id: SessionId, matches: bool, idleMinutes: int, directory: Directory)
    requires Request(s, id, matches, now, idleMinutes, directory).1.Accepted?
    ensures id in s.sessions && s.sessions[id].revokedAt.None? && now < s.sessions[id].expiresAt
    ensures s.sessions[id].via.Fallback? ==>
      Running(s, now) && s.activation.value.activatedAt <= s.sessions[id].createdAt
  {
  }

  /** The break-glass account may act: its activation is neither expired nor past its deadline. */
  ghost predicate Open(activation: Option<Activation>, now: Time) {
    && activation.Some? && activation.value.expiredAt == None
    && (activation.value.expiresAt != Never ==> now < activation.value.expiresAt.time)
  }

  /** A request is accepted exactly when its session is live, the row is that of the browser, and
    the absolute lifetime, the idle limit and the activation or the directory allow it. */
  lemma AcceptedIff(s: State, id: SessionId, matches: bool, now: Time, idleMinutes: int, directory: Directory)
    ensures Request(s, id, matches, now, idleMinutes, directory).1 == Accepted <==>
      && id in s.sessions && matches && s.sessions[id].revokedAt == None
      && now < s.sessions[id].expiresAt && now < s.sessions[id].lastSeenAt + 60.0 * idleMinutes as real
      && match s.sessions[id].via
         case Fallback => Open(s.activation, now) && s.activation.value.activatedAt <= s.sessions[id].createdAt
         case Ldap => directory == NotDue || directory == StillValid
  {
  }

  /** The other answers: an idle session, and a directory that cannot be asked. */
  lemma RefusedIdleIff(s: State, id: SessionId, matches: bool, now: Time, idleMinutes: int, directory: Directory)
    ensures var outcome := Request(s, id, matches, now, idleMinutes, directory).1;
      var live := id in s.sessions && matches && s.sessions[id].revokedAt == None && now < s.sessions[id].expiresAt
        && (s.sessions[id].via == Fallback ==>
              Open(s.activation, now) && s.activation.value.activatedAt <= s.sessions[id].createdAt);
      && (outcome == RefusedIdle <==> live && now >= s.sessions[id].lastSeenAt + 60.0 * idleMinutes as real)
      && (outcome == FailedClosed <==>
            && live && now < s.sessions[id].lastSeenAt + 60.0 * idleMinutes as real
            && s.sessions[id].via == Ldap && directory == Unavailable)
  {
  }

  /** A directory login with a positive lifetime creates its session. */
  lemma LdapLoginIff(s: State, now: Time, named: bool, absolute: Time, id: SessionId)
    requires id !in s.sessions
    ensures var after := LdapLogin(s, now, named, absolute, id);
      && (id in after.sessions <==> absolute > 0.0) && after.activation == s.activation
      && (id in after.sessions ==> after.sessions[id] == Session(Ldap, named, now, now, now + absolute, None))
  {
  }

  /** A request leaves the sessions as they are when it cannot use its own; else it revokes that
    one exactly when it is refused. An unavailable directory refuses it without revoking. */
  lemma RefusedIsRevoked(s: State, id: SessionId, matches: bool, now: Time, idleMinutes: int, directory: Directory)
    ensures var (after, outcome) := Request(s, id, matches, now, idleMinutes, directory);
      if id !in s.sessions || s.sessions[id].revokedAt != None || !matches then after == s && outcome == Refused
      else
        && id in after.sessions
        && (after.sessions[id].revokedAt != None <==> outcome == Refused || outcome == RefusedIdle)
        && (after.sessions[id].revokedAt == None <==> outcome == Accepted || outcome == FailedClosed)
        && (outcome == FailedClosed ==> directory == Unavailable && s.sessions[id].via == Ldap && after == s)
        && (s.sessions[id].via == Ldap && directory == NoLongerValid ==> after.sessions[id].revokedAt != None)
  {
    if id in s.sessions && s.sessions[id].revokedAt.None? && matches {
      assert FallbackChecked(s, id, now).0.sessions.Keys == s.sessions.Keys;
    }
  }

  /** A fallback login creates its session exactly under an open activation that is still open
    later, with the right password; the session ends with its own lifetime or the activation. */
  lemma FallbackLoginIff(s: State, now: Time, later: Time, passwordOk: bool, absolute: Time, id: SessionId)
    requires id !in s.sessions && now <= later
    ensures var after := FallbackLogin(s, now, later, passwordOk, absolute, id);
      && (id in after.sessions <==>
            passwordOk && absolute > 0.0 && Open(s.activation, now) && Open(s.activation, later))
      && (id in after.sessions ==>
        var (expiresAt, deadline) := (after.sessions[id].expiresAt, s.activation.value.expiresAt);
        && expiresAt <= later + absolute && (deadline != Never ==> expiresAt <= deadline.time)
        && (expiresAt == later + absolute || deadline == At(expiresAt)))
  {
  }

  /** What concerns the break-glass account or other sessions leaves the session of a directory
    user as it is. */
  lemma OthersKeepSession(s: State, now: Time, event: Event, id: SessionId)
    requires id in s.sessions && !s.sessions[id].named
    requires match event
      case LoginFallback(other, _, _, _) => other != id
      case LoginLdap(other, _, _) => other != id
      case LogOut(other, via) => other != id || via == Fallback
      case Ask(other, _, _, _) => other != id
      case _ => true
    ensures id in Step(s, now, event).sessions && Step(s, now, event).sessions[id] == s.sessions[id]
  {
    if event.Ask? && event.id in s.sessions && s.sessions[event.id].revokedAt.None? && event.matches {
      var (checked, live) := FallbackChecked(s, event.id, now);
      assert id in checked.sessions && checked.sessions[id] == s.sessions[id];
    }
  }

  // ----- Every run -----------------------------------------------------------------------------

  lemma {:induction false} RunNamesFallback(run: Run, k: nat)
    requires k <= |run| && FreshIds(run)
    ensures FallbackNamed(After(run, k))
  {
    if k > 0 {
      RunNamesFallback(run, k - 1);
      forall id | id in After(run, k).sessions && After(run, k).sessions[id].via.Fallback?
        ensures After(run, k).sessions[id].named
      {
        StepKeepsSessions(After(run, k - 1), run[k - 1].0, run[k - 1].1, id);
      }
    }
  }

  /** A session keeps its kind and creation time, and once revoked it stays so. */
  lemma {:induction false} SessionKept(run: Run, i: nat, k: nat, id: SessionId)
    requires i <= k <= |run| && FreshIds(run) && id in After(run, i).sessions
    ensures id in After(run, k).sessions
    ensures var (a, b) := (After(run, i).sessions[id], After(run, k).sessions[id]);
      a.via == b.via && a.createdAt == b.createdAt && (a.revokedAt.Some? ==> b.revokedAt.Some?)
    decreases k
  {
    if i < k {
      SessionKept(run, i, k - 1, id);
      StepKeepsSessions(After(run, k - 1), run[k - 1].0, run[k - 1].1, id);
    }
  }

  /** A session that exists later but not now is created by a login in between. */
  lemma {:induction false} SessionCreated(run: Run, i: nat, k: nat, id: SessionId) returns (l: nat)
    requires i <= k <= |run| && FreshIds(run)
    requires id !in After(run, i).sessions && id in After(run, k).sessions
    ensures i <= l < k && IsLogin(run[l].1, id) && id in After(run, l + 1).sessions
    ensures After(run, k).sessions[id].createdAt == Finished(run, l)
    ensures After(run, k).sessions[id].via.Fallback? <==> run[l].1.LoginFallback?
    decreases k
  {
    StepKeepsSessions(After(run, k - 1), run[k - 1].0, run[k - 1].1, id);
    if id in After(run, k - 1).sessions {
      l := SessionCreated(run, i, k - 1, id);
    } else {
      l := k - 1;
    }
  }

  /** After logout, expiry or re-provisioning no earlier fallback session is accepted again: an
    accepted one was created by a fallback login after every such event before it. */
  lemma EndedNeverAccepted(run: Run, i: nat, j: nat, id: SessionId)
    requires i < j && FreshIds(run) && AcceptsAt(run, j, id) && After(run, j).sessions[id].via.Fallback?
    requires i < |run| && Ends(After(run, i), run[i].0, run[i].1)
    ensures exists l ::
      && i < l < j && run[l].1.LoginFallback? && run[l].1.id == id
      && After(run, j).sessions[id].createdAt == Finished(run, l)
  {
    var ask := run[j].1;
    AcceptedIsRunning(After(run, j), run[j].0, id, ask.matches, ask.idleMinutes, ask.directory);
    RunNamesFallback(run, i);
    StepEndsFallback(After(run, i), run[i].0, run[i].1);
    if id in After(run, i + 1).sessions {
      SessionKept(run, i + 1, j, id);
    }
    var l := SessionCreated(run, i + 1, j, id);
  }

  /** The outcome of the request ends the session. */
  predicate IsFinal(outcome: Outcome) { outcome == Refused || outcome == RefusedIdle }

  ghost predicate IsRevoked(s: State, id: SessionId) {
    id in s.sessions && s.sessions[id].revokedAt != None
  }

  lemma RevokedStays(run: Run, i: nat, k: nat, id: SessionId)
    requires i <= k <= |run| && FreshIds(run) && IsRevoked(After(run, i), id)
    ensures IsRevoked(After(run, k), id)
  {
    SessionKept(run, i, k, id);
  }

  lemma RevokedNeverAccepted(run: Run, i: nat, j: nat, id: SessionId)
    requires i <= j < |run| && FreshIds(run) && IsRevoked(After(run, i), id)
    ensures !AcceptsAt(run, j, id)
  {
    RevokedStays(run, i, j, id);
    if run[j].1.Ask? && run[j].1.id == id {
      var ask := run[j].1;
      RevokedNotAccepted(After(run, j), run[j].0, id, ask.matches, ask.idleMinutes, ask.directory);
    }
  }

  lemma RevokedNotAccepted(s: State, now: Time, id: SessionId, matches: bool, idleMinutes: int, directory: Directory)
    requires id in s.sessions && s.sessions[id].revokedAt != None
    ensures Request(s, id, matches, now, idleMinutes, directory).1 != Accepted
  {
  }

  predicate IsLogout(event: Event, id: SessionId) {
    event.LogOut? && event.id == id && event.via == Ldap
  }

  /** After the logout from it, a directory session is never accepted again. */
  lemma LoggedOutNeverAccepted(run: Run, i: nat, j: nat, id: SessionId)
    requires i < j < |run| && FreshIds(run) && id in After(run, i).sessions && IsLogout(run[i].1, id)
    ensures !AcceptsAt(run, j, id)
  {
    LoggedOutStaysRevoked(run, i, j, id);
    RevokedNeverAccepted(run, j, j, id);
  }

  lemma {:induction false} LoggedOutStaysRevoked(run: Run, i: nat, j: nat, id: SessionId)
    requires i < j <= |run| && FreshIds(run) && id in After(run, i).sessions && IsLogout(run[i].1, id)
    ensures IsRevoked(After(run, j), id)
    decreases j
  {
    if j == i + 1 {
      LogoutLeavesRevoked(run, i, id);
    } else {
      LoggedOutStaysRevoked(run, i, j - 1, id);
      RevokedStays(run, j - 1, j, id);
    }
  }

  lemma LogoutLeavesRevoked(run: Run, i: nat, id: SessionId)
    requires i < |run| && id in After(run, i).sessions && IsLogout(run[i].1, id)
    ensures IsRevoked(After(run, i + 1), id)
  {
  }

  /** A session whose own request was refused stays revoked, so no later request is accepted. */
  lemma RefusedStaysRevoked(run: Run, i: nat, j: nat, id: SessionId)
    requires i < j <= |run| && FreshIds(run) && id in After(run, i).sessions
    requires run[i].1.Ask? && run[i].1.id == id && run[i].1.matches && IsFinal(OutcomeAt(run, i))
    ensures IsRevoked(After(run, j), id)
  {
    RefusalLeavesRevoked(run, i, id);
    RevokedStays(run, i + 1, j, id);
  }

  lemma RefusalLeavesRevoked(run: Run, i: nat, id: SessionId)
    requires i < |run| && id in After(run, i).sessions
    requires run[i].1.Ask? && run[i].1.id == id && run[i].1.matches && IsFinal(OutcomeAt(run, i))
    ensures IsRevoked(After(run, i + 1), id)
  {
    var ask := run[i].1;
    RefusedIsRevoked(After(run, i), id, true, run[i].0, ask.idleMinutes, ask.directory);
  }

  lemma StepKeepsLifetime(s: State, now: Time, event: Event, id: SessionId)
    requires IsLogin(event, id) ==> id !in s.sessions
    ensures var t := Step(s, now, event);
      && (id in s.sessions ==> id in t.sessions && t.sessions[id].expiresAt <= s.sessions[id].expiresAt)
      && (id !in s.sessions && id in t.sessions ==>
        IsLogin(event, id) && t.sessions[id].expiresAt <= EndOf(now, event) + event.absolute)
  {
    if event.Ask? && event.id in s.sessions && s.sessions[event.id].revokedAt.None? && event.matches {
      var (checked, live) := FallbackChecked(s, event.id, now);
      assert id in s.sessions <==> id in checked.sessions;
      assert id in s.sessions ==> checked.sessions[id].expiresAt <= s.sessions[id].expiresAt;
    }
  }

  lemma {:induction false} LifetimeBounded(run: Run, k: nat, id: SessionId) returns (l: nat)
    requires k <= |run| && FreshIds(run) && id in After(run, k).sessions
    ensures l < k && IsLogin(run[l].1, id)
    ensures After(run, k).sessions[id].expiresAt <= Finished(run, l) + run[l].1.absolute
    decreases k
  {
    StepKeepsLifetime(After(run, k - 1), run[k - 1].0, run[k - 1].1, id);
    if id in After(run, k - 1).sessions {
      l := LifetimeBounded(run, k - 1, id);
    } else {
      l := k - 1;
    }
  }

  /** However active, no session is accepted once its absolute lifetime has passed since its login. */
  lemma AcceptedWithinLifetime(run: Run, j: nat, id: SessionId) returns (l: nat)
    requires FreshIds(run) && AcceptsAt(run, j, id)
    ensures l < j && IsLogin(run[l].1, id) && run[j].0 < Finished(run, l) + run[l].1.absolute
  {
    var ask := run[j].1;
    AcceptedIsRunning(After(run, j), run[j].0, id, ask.matches, ask.idleMinutes, ask.directory);
    l := LifetimeBounded(run, j, id);
  }

  /** The last event that provisioned the activation of a state. */
  lemma {:induction false} ActivationProvisioned(run: Run, k: nat) returns (p: nat)
    requires k <= |run| && After(run, k).activation.Some?
    ensures p < k && run[p].1.Provision?
    ensures forall q :: p < q < k ==> !run[q].1.Provision?
    ensures var a := After(run, k).activation.value;
      && a.activatedAt == run[p].0
      && a.expiresAt == (if run[p].1.minutes == 0 then Never else At(run[p].0 + run[p].1.minutes as real * 60.0))
      && (a.expiredAt.None? ==> forall q :: p < q < k ==> !Ends(After(run, q), run[q].0, run[q].1))
  {
    if run[k - 1].1.Provision? {
      p := k - 1;
    } else {
      StepKeepsActivation(After(run, k - 1), run[k - 1].0, run[k - 1].1);
      p := ActivationProvisioned(run, k - 1);
    }
  }

  /** Only provisioning starts an activation; one that is not expired was not ended. */
  lemma StepKeepsActivation(s: State, now: Time, event: Event)
    requires !event.Provision? && Step(s, now, event).activation.Some?
    ensures s.activation.Some?
    ensures var (a, b) := (s.activation.value, Step(s, now, event).activation.value);
      && b.activatedAt == a.activatedAt && b.expiresAt == a.expiresAt
      && (b.expiredAt.None? ==> a.expiredAt.None? && !Ends(s, now, event))
  {
  }

  /** Every accepted break-glass request falls within the lifetime of the current activation and
    uses a session created under it; nothing has ended that activation in between. */
  lemma BreakGlassWithinActivation(run: Run, j: nat, id: SessionId)
    requires FreshIds(run) && Clocked(run) && AcceptsAt(run, j, id) && After(run, j).sessions[id].via.Fallback?
    ensures exists p: nat, l: nat ::
      && p < l < j && run[p].1.Provision? && run[l].1.LoginFallback? && run[l].1.id == id
      && After(run, j).sessions[id].createdAt == Finished(run, l)
      && (run[p].1.minutes > 0 ==> run[j].0 < run[p].0 + run[p].1.minutes as real * 60.0)
      && forall q :: p < q < j ==> !Ends(After(run, q), run[q].0, run[q].1)
  {
    var ask := run[j].1;
    AcceptedIsRunning(After(run, j), run[j].0, id, ask.matches, ask.idleMinutes, ask.directory);
    var p := ActivationProvisioned(run, j);
    EndedNeverAccepted(run, p, j, id);
    var l :| p < l < j && run[l].1.LoginFallback? && run[l].1.id == id
      && After(run, j).sessions[id].createdAt == Finished(run, l);
  }

  // ----- Idle timeout --------------------------------------------------------------------------

  /** The last login or accepted request of a session among the first k events. */
  ghost function LastActive(run: Run, k: nat, id: SessionId): Option<Time>
    requires k <= |run|
  {
    if k == 0 then None
    else if IsLogin(run[k - 1].1, id) && id in After(run, k).sessions then Some(Finished(run, k - 1))
    else if AcceptsAt(run, k - 1, id) then Some(Finished(run, k - 1))
    else LastActive(run, k - 1, id)
  }

  /** The stamp is at most one interval behind the last activity, and never ahead of it. */
  lemma {:induction false} StampFollows(run: Run, k: nat, id: SessionId)
    requires k <= |run| && FreshIds(run) && Clocked(run) && id in After(run, k).sessions
    ensures LastActive(run, k, id).Some? && (k > 0 ==> LastActive(run, k, id).value <= Finished(run, k - 1))
    ensures var stamp := After(run, k).sessions[id].lastSeenAt;
      stamp <= LastActive(run, k, id).value < stamp + STAMP_INTERVAL
  {
    if k > 0 {
      var (now, event) := run[k - 1];
      StepKeepsSessions(After(run, k - 1), now, event, id);
      if id in After(run, k - 1).sessions {
        StampFollows(run, k - 1, id);
        StepKeepsStamp(After(run, k - 1), now, event, id);
        if k > 1 {
          assert Finished(run, k - 2) <= run[k - 1].0 <= Finished(run, k - 1);
        }
      }
    }
  }

  lemma StepKeepsStamp(s: State, now: Time, event: Event, id: SessionId)
    requires id in s.sessions && !IsLogin(event, id)
    ensures id in Step(s, now, event).sessions
    ensures var after := Step(s, now, event).sessions[id].lastSeenAt;
      if event.Ask? && event.id == id
         && Request(s, id, event.matches, now, event.idleMinutes, event.directory).1.Accepted? then
        after == if now - s.sessions[id].lastSeenAt >= STAMP_INTERVAL then now else s.sessions[id].lastSeenAt
      else after == s.sessions[id].lastSeenAt
  {
    if event.Ask? {
      RequestKeepsStamp(s, event.id, event.matches, now, event.idleMinutes, event.directory, id);
    }
  }

  lemma RequestKeepsStamp(s: State, asked: SessionId, matches: bool, now: Time, idleMinutes: int, directory: Directory,
                          id: SessionId)
    requires id in s.sessions
    ensures var (after, outcome) := Request(s, asked, matches, now, idleMinutes, directory);
      && id in after.sessions
      && after.sessions[id].lastSeenAt ==
           if asked == id && outcome.Accepted? && now - s.sessions[id].lastSeenAt >= STAMP_INTERVAL then now
           else s.sessions[id].lastSeenAt
  {
    if asked in s.sessions && s.sessions[asked].revokedAt.None? {
      var (checked, live) := FallbackChecked(s, asked, now);
      assert id in checked.sessions && checked.sessions[id].lastSeenAt == s.sessions[id].lastSeenAt;
    }
  }

  /** With idle limit L and the last accepted request (or login) d seconds ago, a request is
    never accepted when d >= L, and never refused for idleness when d <= L - 60. */
  lemma IdleTimeoutBounded(run: Run, k: nat, id: SessionId)
    requires k < |run| && FreshIds(run) && Clocked(run)
    requires run[k].1.Ask? && run[k].1.id == id && id in After(run, k).sessions
    ensures LastActive(run, k, id).Some?
    ensures var (d, limit) := (run[k].0 - LastActive(run, k, id).value, run[k].1.idleMinutes as real * 60.0);
      && (d >= limit ==> !OutcomeAt(run, k).Accepted? && !OutcomeAt(run, k).FailedClosed?)
      && (d <= limit - 60.0 ==> !OutcomeAt(run, k).RefusedIdle?)
  {
    StampFollows(run, k, id);
    CheckedByStamp(After(run, k), id, run[k].1.matches, run[k].0, run[k].1.idleMinutes, run[k].1.directory);
  }

  lemma CheckedByStamp(s: State, id: SessionId, matches: bool, now: Time, idleMinutes: int, directory: Directory)
    requires id in s.sessions
    ensures var (idle, outcome) :=
      (now - s.sessions[id].lastSeenAt, Request(s, id, matches, now, idleMinutes, directory).1);
      && (outcome.Accepted? || outcome.FailedClosed? ==> idle < idleMinutes as real * 60.0)
      && (outcome.RefusedIdle? ==> idle >= idleMinutes as real * 60.0)
  {
  }
}
