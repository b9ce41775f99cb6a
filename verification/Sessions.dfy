/** Browser sessions and the temporary break-glass administrator (app/auth.py,
  app/services/fallback_admin.py). Times are seconds. */
module Sessions {
  import opened Options

  type Time = real
  type SessionId = string

  const STAMP_INTERVAL: Time := 60.0

  datatype Via = Fallback | Ldap

  /** A deadline; Never is the sentinel of a non-expiring activation. */
  datatype Deadline = Never | At(time: Time)

  /** The singleton activation row. */
  datatype Activation = Activation(activatedAt: Time, expiresAt: Deadline, expiredAt: Option<Time>)

  /** A session row; `named` says that its user name is the fallback user name. */
  datatype Session = Session(via: Via, named: bool, createdAt: Time, lastSeenAt: Time, expiresAt: Time,
                             revokedAt: Option<Time>)

  /** What the directory says about an LDAP session, when a check is due. */
  datatype Directory = NotDue | StillValid | NoLongerValid | Unavailable

  datatype Outcome = Accepted | RefusedIdle | Refused | FailedClosed

  datatype State = State(activation: Option<Activation>, sessions: map<SessionId, Session>)

  // ----- The steps as functions ----------------------------------------------------------------

  predicate Passed(deadline: Deadline, now: Time) {
    deadline.At? && deadline.time <= now
  }

  function Revoked(sessions: map<SessionId, Session>, id: SessionId, now: Time): map<SessionId, Session> {
    if id in sessions && sessions[id].revokedAt.None? then sessions[id := sessions[id].(revokedAt := Some(now))]
    else sessions
  }

  function FallbackRevoked(sessions: map<SessionId, Session>, now: Time): map<SessionId, Session> {
    map id | id in sessions ::
      if sessions[id].named && sessions[id].revokedAt.None? then sessions[id].(revokedAt := Some(now)) else sessions[id]
  }

  predicate Unexpired(s: State) {
    s.activation.Some? && s.activation.value.expiredAt.None?
  }

  /** The activation is past its deadline, and not expired yet. */
  predicate Due(s: State, now: Time) {
    Unexpired(s) && Passed(s.activation.value.expiresAt, now)
  }

  function Expired(s: State, now: Time): State {
    State(
      if Unexpired(s) then Some(s.activation.value.(expiredAt := Some(now))) else s.activation,
      FallbackRevoked(s.sessions, now))
  }

  predicate Running(s: State, now: Time) {
    Unexpired(s) && !Passed(s.activation.value.expiresAt, now)
  }

  /** The state after looking up the active activation: one past its deadline is expired. */
  function LookedUp(s: State, now: Time): State {
    if Due(s, now) then Expired(s, now) else s
  }

  function Provisioned(s: State, now: Time, minutes: nat): State {
    var expiresAt := if minutes == 0 then Never else At(now + minutes as real * 60.0);
    Expired(s, now).(activation := Some(Activation(now, expiresAt, None)))
  }

  function Earliest(time: Time, deadline: Deadline): Time {
    if deadline.At? && deadline.time < time then deadline.time else time
  }

  /** The activation is looked up now, the session is created later; an activation that has passed in
    between makes the login fail. */
  function FallbackLogin(s: State, now: Time, later: Time, passwordOk: bool, absolute: Time, id: SessionId): State {
    var looked := LookedUp(s, now);
    if Running(s, now) && passwordOk && absolute > 0.0 && !Passed(looked.activation.value.expiresAt, later) then
      looked.(sessions := looked.sessions[id :=
        Session(Fallback, true, later, later, Earliest(later + absolute, looked.activation.value.expiresAt), None)])
    else looked
  }

  function LdapLogin(s: State, now: Time, named: bool, absolute: Time, id: SessionId): State {
    if absolute > 0.0 then s.(sessions := s.sessions[id := Session(Ldap, named, now, now, now + absolute, None)]) else s
  }

  /** The first half of a request: the break-glass checks of a live session. */
  function FallbackChecked(s: State, id: SessionId, now: Time): (State, bool)
    requires id in s.sessions
  {
    if s.sessions[id].via.Ldap? then (s, true)
    else
      var looked := LookedUp(s, now);
      if !Running(s, now) then (looked.(sessions := Revoked(looked.sessions, id, now)), false)
      else
        var (row, active) := (s.sessions[id], s.activation.value);
        if row.createdAt < active.activatedAt then (s.(sessions := Revoked(s.sessions, id, now)), false)
        else (s.(sessions := s.sessions[id := row.(expiresAt := Earliest(row.expiresAt, active.expiresAt))]), true)
  }

  /** The second half: absolute expiry, idle timeout, directory, last-seen stamp. */
  function Checked(s: State, id: SessionId, now: Time, idleMinutes: int, directory: Directory): (State, Outcome)
    requires id in s.sessions
  {
    var row := s.sessions[id];
    if row.expiresAt <= now then (s.(sessions := Revoked(s.sessions, id, now)), Refused)
    else if now - row.lastSeenAt >= idleMinutes as real * 60.0 then
      (s.(sessions := Revoked(s.sessions, id, now)), RefusedIdle)
    else if row.via.Ldap? && directory.NoLongerValid? then (s.(sessions := Revoked(s.sessions, id, now)), Refused)
    else if row.via.Ldap? && directory.Unavailable? then (s, FailedClosed)
    else if now - row.lastSeenAt >= STAMP_INTERVAL then
      (s.(sessions := s.sessions[id := row.(lastSeenAt := now)]), Accepted)
    else (s, Accepted)
  }

  /** `_validate_auth_session`; `matches` says that the row is that of the browser's identity. */
  function Request(s: State, id: SessionId, matches: bool, now: Time, idleMinutes: int, directory: Directory)
    : (State, Outcome)
  {
    if id !in s.sessions || s.sessions[id].revokedAt.Some? || !matches then (s, Refused)
    else
      var (checked, live) := FallbackChecked(s, id, now);
      if !live then (checked, Refused) else Checked(checked, id, now, idleMinutes, directory)
  }

  function Logout(s: State, id: SessionId, via: Via, now: Time): State {
    if via.Fallback? then Expired(s, now) else s.(sessions := Revoked(s.sessions, id, now))
  }

  // ----- The same steps on the rows --------------------------------------------------------------

  class SessionTables {
    var activation: Option<Activation>
    var sessions: map<SessionId, Session>

    ghost function Rows(): State
      reads this
    {
      State(activation, sessions)
    }

    constructor ()
      ensures Rows() == State(None, map[])
    {
      activation, sessions := None, map[];
    }

    /** `_revoke_fallback_sessions` */
    method RevokeFallbackSessions(now: Time)
      modifies this`sessions
      ensures sessions == FallbackRevoked(old(sessions), now)
      ensures sessions.Keys == old(sessions).Keys && forall id :: id in sessions ==>
        sessions[id] == if old(sessions)[id].named && old(sessions)[id].revokedAt == None
                        then old(sessions)[id].(revokedAt := Some(now)) else old(sessions)[id]
    {
      var todo := sessions.Keys;
      while todo != {}
        invariant todo <= sessions.Keys == old(sessions).Keys
        invariant forall id :: id in sessions ==>
          sessions[id] == if id in todo then old(sessions)[id] else FallbackRevoked(old(sessions), now)[id]
      {
        var id :| id in todo;
        todo := todo - {id};
        if sessions[id].named && sessions[id].revokedAt.None? {
          sessions := sessions[id := sessions[id].(revokedAt := Some(now))];
        }
      }
    }

    /** `expire_fallback_activation` */
    method ExpireActivation(now: Time)
      modifies this
      ensures Rows() == Expired(old(Rows()), now)
    {
      if activation.Some? && activation.value.expiredAt.None? {
        activation := Some(activation.value.(expiredAt := Some(now)));
      }
      RevokeFallbackSessions(now);
    }

    /** `expire_fallback_activation_if_due` */
    method ExpireIfDue(now: Time)
      modifies this
      ensures Rows() == LookedUp(old(Rows()), now)
    {
      if activation.None? || activation.value.expiredAt.Some? || !Passed(activation.value.expiresAt, now) {
        return;
      }
      ExpireActivation(now);
    }

    /** `active_fallback_activation` */
    method ActiveActivation(now: Time) returns (active: Option<Activation>)
      modifies this
      ensures Rows() == LookedUp(old(Rows()), now)
      ensures active == if Running(old(Rows()), now) then old(activation) else None
    {
      if activation.None? || activation.value.expiredAt.Some? {
        return None;
      }
      if Passed(activation.value.expiresAt, now) {
        ExpireActivation(now);
        return None;
      }
      return activation;
    }

    /** `provision_fallback_activation` */
    method Provision(now: Time, minutes: nat)
      modifies this
      ensures Rows() == Provisioned(old(Rows()), now, minutes)
      ensures activation == Some(
        Activation(now, if minutes == 0 then Never else At(now + 60.0 * minutes as real), None))
    {
      ExpireActivation(now);
      activation := Some(Activation(now, if minutes == 0 then Never else At(now + minutes as real * 60.0), None));
    }

    /** The fallback branch of `login`, with `_verify_fallback_admin` and `_store_identity`. */
    method LoginFallback(now: Time, later: Time, passwordOk: bool, absolute: Time, id: SessionId)
      modifies this
      ensures Rows() == FallbackLogin(old(Rows()), now, later, passwordOk, absolute, id)
    {
      var active := ActiveActivation(now);
      if active.None? || !passwordOk || absolute <= 0.0 || Passed(active.value.expiresAt, later) {
        return;
      }
      var expiresAt := Earliest(later + absolute, active.value.expiresAt);
      sessions := sessions[id := Session(Fallback, true, later, later, expiresAt, None)];
    }

    /** `logout` */
    method LogOut(id: SessionId, via: Via, now: Time)
      modifies this
      ensures Rows() == Logout(old(Rows()), id, via, now)
      ensures via == Ldap ==> activation == old(activation) && (id in old(sessions) ==>
        id in sessions && sessions[id].revokedAt != None)
    {
      if via.Fallback? {
        ExpireActivation(now);
      } else {
        Revoke(id, now);
      }
    }

    method Revoke(id: SessionId, now: Time)
      modifies this`sessions
      ensures sessions == Revoked(old(sessions), id, now)
      ensures id in old(sessions) ==> id in sessions && sessions[id].revokedAt != None
      ensures forall other :: other in old(sessions) && (other != id || old(sessions)[id].revokedAt != None) ==>
        other in sessions && sessions[other] == old(sessions)[other]
    {
      if id in sessions && sessions[id].revokedAt.None? {
        sessions := sessions[id := sessions[id].(revokedAt := Some(now))];
      }
    }

    /** `_validate_auth_session` */
    method Validate(id: SessionId, matches: bool, now: Time, idleMinutes: int, directory: Directory)
      returns (outcome: Outcome)
      modifies this
      ensures (Rows(), outcome) == Request(old(Rows()), id, matches, now, idleMinutes, directory)
    {
      if id !in sessions || sessions[id].revokedAt.Some? || !matches {
        return Refused;
      }
      if sessions[id].via.Fallback? {
        var active := ActiveActivation(now);
        if active.None? || sessions[id].createdAt < active.value.activatedAt {
          Revoke(id, now);
          return Refused;
        }
        var expiresAt := Earliest(sessions[id].expiresAt, active.value.expiresAt);
        sessions := sessions[id := sessions[id].(expiresAt := expiresAt)];
      }
      if sessions[id].expiresAt <= now {
        Revoke(id, now);
        return Refused;
      }
      if now - sessions[id].lastSeenAt >= idleMinutes as real * 60.0 {
        Revoke(id, now);
        return RefusedIdle;
      }
      if sessions[id].via.Ldap? && directory.NoLongerValid? {
        Revoke(id, now);
        return Refused;
      }
      if sessions[id].via.Ldap? && directory.Unavailable? {
        return FailedClosed;
      }
      if now - sessions[id].lastSeenAt >= STAMP_INTERVAL {
        sessions := sessions[id := sessions[id].(lastSeenAt := now)];
      }
      return Accepted;
    }
  }
}
