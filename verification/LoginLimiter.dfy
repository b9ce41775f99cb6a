/** The login failure limiter (app/auth.py): pruned deques that agree with the full history of
  failures. Times are seconds of a monotonic clock. */
module LoginLimiter {
  type Time = real

  datatype Key = AccountSource(account: string, source: string) | Source(source: string)

  /** `_login_rate_limit_keys` */
  function LoginKeys(account: string, source: string): set<Key> {
    {AccountSource(account, source), Source(source)}
  }

  /** The failures newer than the cutoff. */
  function Recent(history: seq<Time>, cutoff: Time): nat {
    if history == [] then 0
    else Recent(history[..|history| - 1], cutoff) + if history[|history| - 1] > cutoff then 1 else 0
  }

  /** As many as there are places in the history with a failure newer than the cutoff. */
  lemma {:induction false} RecentIsSize(history: seq<Time>, cutoff: Time)
    ensures Recent(history, cutoff) == |set i | 0 <= i < |history| && history[i] > cutoff|
  {
    if history != [] {
      var n := |history| - 1;
      RecentIsSize(history[..n], cutoff);
      assert (set i | 0 <= i < |history| && history[i] > cutoff)
        == (set i | 0 <= i < n && history[..n][i] > cutoff) + if history[n] > cutoff then {n} else {};
    }
  }

  predicate Sorted(times: seq<Time>) {
    forall i, j :: 0 <= i <= j < |times| ==> times[i] <= times[j]
  }

  /** `_prune_login_failures` */
  function Pruned(events: seq<Time>, cutoff: Time): seq<Time> {
    if events != [] && events[0] <= cutoff then Pruned(events[1..], cutoff) else events
  }

  /** The deque is what is left of the history after dropping failures no later than the bound. */
  ghost predicate Agrees(events: seq<Time>, history: seq<Time>, bound: Time) {
    && Sorted(history)
    && |events| <= |history| && events == history[|history| - |events|..]
    && forall i :: 0 <= i < |history| - |events| ==> history[i] <= bound
  }

  lemma {:induction false} PruneAgrees(events: seq<Time>, history: seq<Time>, bound: Time, cutoff: Time)
    requires Agrees(events, history, bound) && bound <= cutoff
    ensures Agrees(Pruned(events, cutoff), history, cutoff)
    ensures |Pruned(events, cutoff)| == Recent(history, cutoff) && |Pruned(events, cutoff)| <= |events|
    decreases |events|
  {
    if events != [] && events[0] <= cutoff {
      var n := |history| - |events|;
      assert history[n] == events[0];
      assert events[1..] == history[n + 1..];
      assert Agrees(events[1..], history, cutoff);
      PruneAgrees(events[1..], history, cutoff, cutoff);
    } else {
      RecentOfSuffix(history, |history| - |events|, cutoff);
    }
  }

  lemma {:induction false} RecentOfSuffix(history: seq<Time>, n: nat, cutoff: Time)
    requires Sorted(history) && n <= |history|
    requires forall i :: 0 <= i < n ==> history[i] <= cutoff
    requires n < |history| ==> history[n] > cutoff
    ensures Recent(history, cutoff) == |history| - n
    decreases |history|
  {
    if history != [] {
      var last := |history| - 1;
      if n <= last {
        assert history[n] <= history[last];
        RecentOfSuffix(history[..last], n, cutoff);
      } else {
        RecentOfSuffix(history[..last], n - 1, cutoff);
      }
    }
  }

  type Failures = map<Key, seq<Time>>

  function At(failures: Failures, key: Key): seq<Time> {
    if key in failures then failures[key] else []
  }

  /** One key: the deque agrees with its history, and no failure lies in the future. */
  ghost predicate AgreesAt(failures: Failures, history: Failures, clock: Time, window: Time, key: Key) {
    && Agrees(At(failures, key), At(history, key), clock - window)
    && forall i :: 0 <= i < |At(history, key)| ==> At(history, key)[i] <= clock
  }

  ghost predicate AllAgree(failures: Failures, history: Failures, clock: Time, window: Time) {
    forall key :: AgreesAt(failures, history, clock, window, key)
  }

  lemma AgreesLater(failures: Failures, history: Failures, clock: Time, window: Time, now: Time, key: Key,
                    failures': Failures, history': Failures)
    requires AgreesAt(failures, history, clock, window, key) && clock <= now
    requires At(failures', key) == At(failures, key) && At(history', key) == At(history, key)
    ensures AgreesAt(failures', history', now, window, key)
  {
  }

  /** Nothing but the entry of one key differs. */
  ghost predicate OnlyChanged(before: Failures, after: Failures, key: Key) {
    forall k :: k != key ==> At(after, k) == At(before, k)
  }

  lemma OneKeyChanges(failures: Failures, history: Failures, clock: Time, window: Time, now: Time,
                      key: Key, failures': Failures, history': Failures)
    requires AllAgree(failures, history, clock, window) && clock <= now
    requires AgreesAt(failures', history', now, window, key)
    requires OnlyChanged(failures, failures', key) && OnlyChanged(history, history', key)
    ensures AllAgree(failures', history', now, window)
  {
    forall k | k != key ensures AgreesAt(failures', history', now, window, k) {
      assert AgreesAt(failures, history, clock, window, k);
      AgreesLater(failures, history, clock, window, now, k, failures', history');
    }
  }

  lemma UpdateAt(failures: Failures, key: Key, events: seq<Time>)
    ensures At(failures[key := events], key) == events && OnlyChanged(failures, failures[key := events], key)
  {
  }

  function PrunedAt(failures: Failures, key: Key, cutoff: Time): Failures {
    failures[key := Pruned(At(failures, key), cutoff)]
  }

  /** Pruning one key keeps the agreement, and leaves exactly the failures newer than the window. */
  lemma PruneKeepsAgreement(failures: Failures, history: Failures, clock: Time, window: Time, now: Time, key: Key)
    requires AllAgree(failures, history, clock, window) && clock <= now
    ensures AllAgree(PrunedAt(failures, key, now - window), history, now, window)
    ensures |At(PrunedAt(failures, key, now - window), key)| == Recent(At(history, key), now - window)
    ensures forall k :: |At(PrunedAt(failures, key, now - window), k)| <= |At(failures, k)|
  {
    var (events, past) := (At(failures, key), At(history, key));
    assert AgreesAt(failures, history, clock, window, key);
    PruneAgrees(events, past, clock - window, now - window);
    UpdateAt(failures, key, Pruned(events, now - window));
    OneKeyChanges(failures, history, clock, window, now, key, PrunedAt(failures, key, now - window), history);
  }

  ghost function Recorded(history: Failures, key: Key, now: Time): Failures {
    history[key := At(history, key) + [now]]
  }

  /** Appending a failure after pruning, to the deque and to the history. */
  lemma AppendKeepsAgreement(failures: Failures, history: Failures, window: Time, now: Time, key: Key)
    requires AllAgree(failures, history, now, window)
    ensures AllAgree(failures[key := At(failures, key) + [now]], Recorded(history, key, now), now, window)
  {
    var (events, past) := (At(failures, key) + [now], At(history, key) + [now]);
    assert AgreesAt(failures, history, now, window, key);
    AppendAgrees(At(failures, key), At(history, key), now - window, now);
    UpdateAt(failures, key, events);
    UpdateAt(history, key, past);
    OneKeyChanges(failures, history, now, window, now, key, failures[key := events], history[key := past]);
  }

  lemma AppendAgrees(events: seq<Time>, history: seq<Time>, bound: Time, now: Time)
    requires Agrees(events, history, bound) && forall i :: 0 <= i < |history| ==> history[i] <= now
    ensures Agrees(events + [now], history + [now], bound)
    ensures forall i :: 0 <= i < |history + [now]| ==> (history + [now])[i] <= now
  {
  }

  /** Clearing one key, in the deques and in the history. */
  lemma ClearKeepsAgreement(failures: Failures, history: Failures, clock: Time, window: Time, key: Key)
    requires AllAgree(failures, history, clock, window)
    ensures AllAgree(failures - {key}, history - {key}, clock, window)
  {
    OneKeyChanges(failures, history, clock, window, clock, key, failures - {key}, history - {key});
  }

  /** `_LOGIN_FAILURES`, with the history that the limiter no longer stores. */
  class Limiter {
    const attempts: int
    const window: Time
    var failures: Failures
    ghost var history: Failures  // every failure since the key was last cleared
    ghost var clock: Time

    predicate Enabled() {
      attempts > 0 && window > 0.0
    }

    ghost predicate Valid()
      reads this
    {
      AllAgree(failures, history, clock, window)
    }

    /** Enough failures newer than the window, under either key, in the full history. */
    ghost predicate OverLimit(account: string, source: string, now: Time)
      reads this`history
    {
      Enabled() && (
        || Recent(At(history, AccountSource(account, source)), now - window) >= attempts
        || Recent(At(history, Source(source)), now - window) >= attempts)
    }

    constructor (attempts: int, window: Time, ghost start: Time)
      ensures Valid() && history == map[] && failures == map[] && clock == start
      ensures this.attempts == attempts && this.window == window
    {
      this.attempts, this.window, failures, history, clock := attempts, window, map[], map[], start;
    }

    method Prune(key: Key, now: Time)
      requires Valid() && clock <= now
      modifies this`failures, this`clock
      ensures Valid() && clock == now && failures == PrunedAt(old(failures), key, now - window)
      ensures |At(failures, key)| == Recent(At(history, key), now - window)
      ensures forall k :: |At(failures, k)| <= |old(At(failures, k))|
    {
      PruneKeepsAgreement(failures, history, clock, window, now, key);
      var events := At(failures, key);
      while events != [] && events[0] <= now - window
        invariant Pruned(events, now - window) == Pruned(At(failures, key), now - window)
      {
        events := events[1..];
      }
      failures, clock := failures[key := events], now;
    }

    /** `_login_rate_limited`: limited exactly when the full history is over the limit. */
    method Limited(account: string, source: string, now: Time) returns (limited: bool)
      requires Valid() && clock <= now
      modifies this`failures, this`clock
      ensures Valid() && clock == now
      ensures limited <==> OverLimit(account, source, now)
      ensures limited <==> attempts > 0 && window > 0.0 && exists key ::
        && (key == AccountSource(account, source) || key == Source(source))
        && Recent(At(history, key), now - window) >= attempts
      ensures forall k :: |At(failures, k)| <= |old(At(failures, k))|
      ensures Enabled() && !limited ==>
        |At(failures, AccountSource(account, source))| < attempts && |At(failures, Source(source))| < attempts
    {
      if !Enabled() {
        Later(now);
        return false;
      }
      Prune(AccountSource(account, source), now);
      ghost var pruned := failures;
      if |At(failures, AccountSource(account, source))| >= attempts {
        return true;
      }
      Prune(Source(source), now);
      assert |At(failures, AccountSource(account, source))| <= |At(pruned, AccountSource(account, source))|;
      return |At(failures, Source(source))| >= attempts;
    }

    ghost method Later(now: Time)
      requires Valid() && clock <= now
      modifies this`clock
      ensures Valid() && clock == now
    {
      forall k ensures AgreesAt(failures, history, now, window, k) {
        AgreesLater(failures, history, clock, window, now, k, failures, history);
      }
      clock := now;
    }

    /** `_record_login_failure` */
    method RecordFailure(account: string, source: string, now: Time)
      requires Valid() && clock <= now
      modifies this
      ensures Valid() && clock == now
      ensures !Enabled() ==> history == old(history) && failures == old(failures)
      ensures Enabled() ==>
        history == Recorded(Recorded(old(history), AccountSource(account, source), now), Source(source), now)
      ensures attempts > 0 && window > 0.0 ==> forall key ::
        At(history, key) == if key == AccountSource(account, source) || key == Source(source)
                            then At(old(history), key) + [now] else At(old(history), key)
      ensures forall k ::
        |At(failures, k)| <= |old(At(failures, k))| + if k in LoginKeys(account, source) then 1 else 0
    {
      if !Enabled() {
        Later(now);
        return;
      }
      Append(AccountSource(account, source), now);
      Append(Source(source), now);
    }

    method Append(key: Key, now: Time)
      requires Valid() && clock <= now
      modifies this
      ensures Valid() && clock == now && history == Recorded(old(history), key, now)
      ensures forall k :: |At(failures, k)| <= if k == key then |old(At(failures, k))| + 1 else |old(At(failures, k))|
    {
      Prune(key, now);
      AppendKeepsAgreement(failures, history, window, now, key);
      failures, history := failures[key := At(failures, key) + [now]], Recorded(history, key, now);
    }

    /** `_clear_login_failures`: only the key of the account is cleared. */
    method Clear(account: string, source: string)
      requires Valid()
      modifies this`failures, this`history
      ensures Valid() && history == old(history) - {AccountSource(account, source)}
      ensures failures == old(failures) - {AccountSource(account, source)}
    {
      ClearKeepsAgreement(failures, history, clock, window, AccountSource(account, source));
      failures := failures - {AccountSource(account, source)};
      history := history - {AccountSource(account, source)};
    }

    /** One login: refused while over the limit, else a failure is recorded and a success clears
      the account. Run after run, no deque outgrows the limit. */
    method Attempt(account: string, source: string, now: Time, later: Time, credentialsOk: bool) returns (limited: bool)
      requires Valid() && clock <= now <= later
      requires Enabled() ==> forall k :: |At(failures, k)| <= attempts
      modifies this
      ensures Valid() && now <= clock <= later
      ensures Enabled() ==> forall k :: |At(failures, k)| <= attempts
      ensures limited <==> old(OverLimit(account, source, now))
      ensures limited ==> history == old(history)
      ensures !limited && credentialsOk ==> history == old(history) - {AccountSource(account, source)}
      ensures !limited && !credentialsOk && Enabled() ==>
        history == Recorded(Recorded(old(history), AccountSource(account, source), later), Source(source), later)
    {
      limited := Limited(account, source, now);
      assert Enabled() ==> forall k :: |At(failures, k)| <= attempts by {
        assert forall k :: |At(failures, k)| <= |old(At(failures, k))|;
      }
      if limited {
        return;
      }
      ghost var before := failures;
      if credentialsOk {
        Clear(account, source);
        assert forall k :: |At(failures, k)| <= |At(before, k)|;
      } else {
        RecordFailure(account, source, later);
        assert forall k :: |At(failures, k)| <= |At(before, k)| + if k in LoginKeys(account, source) then 1 else 0;
      }
    }
  }
}
