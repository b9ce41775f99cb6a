/** Rate limits of resource-intensive operations, kept in the append-only audit log
  (app/services/costly_operation_rate_limit.py). Times are seconds. */
module CostlyOperations {
  type Time = real

  datatype Operation = ExecutionPreview | ExecutionLaunch | InventoryRefresh | RepositorySync | EnvironmentBuild

  /** A row of the audit log: an accepted attempt at an operation, or anything else. */
  datatype Entry = Attempt(at: Time, user: string, operation: Operation) | Other(at: Time)

  datatype Outcome = Allowed | TooMany | NotPersisted

  /** The configured values; each one counts as at least 1. */
  datatype Settings = Settings(userLimit: Operation -> int, globalLimit: Operation -> int, windowSeconds: int)

  function AtLeastOne(n: int): nat { if n < 1 then 1 else n }

  function Window(settings: Settings): Time { AtLeastOne(settings.windowSeconds) as real }

  /** The attempts at the operation that the predicate selects. */
  function Count(log: seq<Entry>, operation: Operation, p: Entry -> bool): nat {
    if log == [] then 0
    else
      var last := log[|log| - 1];
      Count(log[..|log| - 1], operation, p) + if last.Attempt? && last.operation == operation && p(last) then 1 else 0
  }

  function Since(cutoff: Time): Entry -> bool { (e: Entry) => e.at >= cutoff }

  function SinceBy(cutoff: Time, user: string): Entry -> bool {
    (e: Entry) => e.at >= cutoff && e.Attempt? && e.user == user
  }

  /** `check_and_record_costly_operation`: the new log and the answer. */
  function Checked(log: seq<Entry>, settings: Settings, operation: Operation, user: string, now: Time, persists: bool)
    : (seq<Entry>, Outcome)
  {
    var cutoff := now - Window(settings);
    if Count(log, operation, Since(cutoff)) >= AtLeastOne(settings.globalLimit(operation))
      || Count(log, operation, SinceBy(cutoff, user)) >= AtLeastOne(settings.userLimit(operation)) then (log, TooMany)
    else if !persists then (log, NotPersisted)
    else (log + [Attempt(now, user, operation)], Allowed)
  }

  class AuditLog {
    var entries: seq<Entry>

    constructor ()
      ensures entries == []
    {
      entries := [];
    }

    method CheckAndRecord(settings: Settings, operation: Operation, user: string, now: Time, persists: bool)
      returns (outcome: Outcome)
      modifies this
      ensures (entries, outcome) == Checked(old(entries), settings, operation, user, now, persists)
    {
      var cutoff := now - Window(settings);
      var globalCount := Count(entries, operation, Since(cutoff));
      var userCount := Count(entries, operation, SinceBy(cutoff, user));
      if globalCount >= AtLeastOne(settings.globalLimit(operation))
        || userCount >= AtLeastOne(settings.userLimit(operation))
      {
        return TooMany;
      }
      if !persists {
        return NotPersisted;
      }
      entries := entries + [Attempt(now, user, operation)];
      return Allowed;
    }
  }

  // ----- One call --------------------------------------------------------------------------------

  /** Where the log holds an attempt at the operation that the predicate selects. */
  ghost function Places(log: seq<Entry>, operation: Operation, p: Entry -> bool): set<int> {
    set i | 0 <= i < |log| && log[i].Attempt? && log[i].operation == operation && p(log[i])
  }

  lemma {:induction false} CountIsSize(log: seq<Entry>, operation: Operation, p: Entry -> bool)
    ensures Count(log, operation, p) == |Places(log, operation, p)|
  {
    if log != [] {
      var (n, rest) := (|log| - 1, log[..|log| - 1]);
      CountIsSize(rest, operation, p);
      PlacesMore(log, operation, p);
    }
  }

  lemma PlacesMore(log: seq<Entry>, operation: Operation, p: Entry -> bool)
    requires log != []
    ensures var n := |log| - 1;
      Places(log, operation, p) == Places(log[..n], operation, p)
        + if log[n].Attempt? && log[n].operation == operation && p(log[n]) then {n} else {}
  {
    var n := |log| - 1;
    assert forall i :: 0 <= i < n ==> log[..n][i] == log[i];
  }

  /** A call is allowed exactly when it is persisted and fewer attempts than each limit, or none at
    all, lie in the window that ends now; then the log grows by this one attempt. Else it stays. */
  lemma AllowedIff(log: seq<Entry>, settings: Settings, operation: Operation, user: string, now: Time, persists: bool)
    ensures var (after, outcome) := Checked(log, settings, operation, user, now, persists);
      var seconds := if settings.windowSeconds <= 0 then 1 else settings.windowSeconds;
      var all := set i | 0 <= i < |log| && log[i].Attempt? && log[i].operation == operation
        && log[i].at >= now - seconds as real;
      var own := set i | i in all && log[i].user == user;
      var room := (|all| < settings.globalLimit(operation) || all == {})
        && (|own| < settings.userLimit(operation) || own == {});
      && (outcome == Allowed <==> room && persists) && (outcome == NotPersisted <==> room && !persists)
      && after == if outcome == Allowed then log + [Attempt(now, user, operation)] else log
  {
    var cutoff := now - Window(settings);
    CountIsSize(log, operation, Since(cutoff));
    CountIsSize(log, operation, SinceBy(cutoff, user));
    var all := Places(log, operation, Since(cutoff));
    var own := Places(log, operation, SinceBy(cutoff, user));
    assert all == set i | 0 <= i < |log| && log[i].Attempt? && log[i].operation == operation && log[i].at >= cutoff;
    assert own == set i | i in all && log[i].user == user;
  }

  // ----- Every window ----------------------------------------------------------------------------

  function Within(start: Time, end: Time): Entry -> bool { (e: Entry) => start <= e.at <= end }

  function WithinBy(start: Time, end: Time, user: string): Entry -> bool {
    (e: Entry) => start <= e.at <= end && e.Attempt? && e.user == user
  }

  predicate WindowRespected(log: seq<Entry>, settings: Settings, operation: Operation, start: Time) {
    Count(log, operation, Within(start, start + Window(settings))) <= AtLeastOne(settings.globalLimit(operation))
  }

  predicate UserWindowRespected(log: seq<Entry>, settings: Settings, operation: Operation, start: Time, user: string) {
    Count(log, operation, WithinBy(start, start + Window(settings), user)) <= AtLeastOne(settings.userLimit(operation))
  }

  /** Every closed window of the configured length, wherever it lies, respects both limits. */
  ghost predicate WindowsRespected(log: seq<Entry>, settings: Settings) {
    && (forall operation, start :: WindowRespected(log, settings, operation, start))
    && (forall operation, start, user :: UserWindowRespected(log, settings, operation, start, user))
  }

  lemma {:induction false} CountMonotone(log: seq<Entry>, operation: Operation, p: Entry -> bool, q: Entry -> bool)
    requires forall e :: p(e) ==> q(e)
    ensures Count(log, operation, p) <= Count(log, operation, q)
  {
    if log != [] {
      CountMonotone(log[..|log| - 1], operation, p, q);
    }
  }

  /** No call, whatever its time, breaks the limits of any window. */
  lemma CallKeepsWindows(log: seq<Entry>, settings: Settings, operation: Operation, user: string, now: Time,
                         persists: bool)
    requires WindowsRespected(log, settings)
    ensures WindowsRespected(Checked(log, settings, operation, user, now, persists).0, settings)
  {
    var (next, outcome) := Checked(log, settings, operation, user, now, persists);
    if outcome.Allowed? {
      var window := Window(settings);
      assert next[..|next| - 1] == log;
      forall op, start ensures WindowRespected(next, settings, op, start) {
        assert WindowRespected(log, settings, op, start);
        if start <= now <= start + window {
          CountMonotone(log, op, Within(start, start + window), Since(now - window));
        }
      }
      forall op, start, u ensures UserWindowRespected(next, settings, op, start, u) {
        assert UserWindowRespected(log, settings, op, start, u);
        if start <= now <= start + window {
          CountMonotone(log, op, WithinBy(start, start + window, u), SinceBy(now - window, u));
        }
      }
    }
  }

  datatype Call = Call(operation: Operation, user: string, now: Time, persists: bool, others: seq<Entry>)

  /** The log after a run of calls; other audit rows may be written before each of them. */
  function AfterCalls(log: seq<Entry>, settings: Settings, calls: seq<Call>): seq<Entry>
    decreases |calls|
  {
    if calls == [] then log
    else
      var c := calls[0];
      AfterCalls(Checked(log + c.others, settings, c.operation, c.user, c.now, c.persists).0, settings, calls[1..])
  }

  lemma {:induction false} OthersDoNotCount(log: seq<Entry>, others: seq<Entry>, operation: Operation, p: Entry -> bool)
    requires forall i :: 0 <= i < |others| ==> others[i].Other?
    ensures Count(log + others, operation, p) == Count(log, operation, p)
    decreases |others|
  {
    if others == [] {
      assert log + others == log;
    } else {
      var n := |others| - 1;
      assert (log + others)[..|log + others| - 1] == log + others[..n];
      OthersDoNotCount(log, others[..n], operation, p);
    }
  }

  lemma OthersKeepWindows(log: seq<Entry>, settings: Settings, others: seq<Entry>)
    requires WindowsRespected(log, settings) && forall i :: 0 <= i < |others| ==> others[i].Other?
    ensures WindowsRespected(log + others, settings)
  {
    forall op, start ensures WindowRespected(log + others, settings, op, start) {
      OthersDoNotCount(log, others, op, Within(start, start + Window(settings)));
      assert WindowRespected(log, settings, op, start);
    }
    forall op, start, u ensures UserWindowRespected(log + others, settings, op, start, u) {
      OthersDoNotCount(log, others, op, WithinBy(start, start + Window(settings), u));
      assert UserWindowRespected(log, settings, op, start, u);
    }
  }

  /** Over every run, whatever the clock does, every window respects both limits. */
  lemma {:induction false} RunKeepsWindows(log: seq<Entry>, settings: Settings, calls: seq<Call>)
    requires WindowsRespected(log, settings)
    requires forall k, i :: 0 <= k < |calls| && 0 <= i < |calls[k].others| ==> calls[k].others[i].Other?
    ensures WindowsRespected(AfterCalls(log, settings, calls), settings)
    decreases |calls|
  {
    if calls != [] {
      var c := calls[0];
      OthersKeepWindows(log, settings, c.others);
      CallKeepsWindows(log + c.others, settings, c.operation, c.user, c.now, c.persists);
      RunKeepsWindows(Checked(log + c.others, settings, c.operation, c.user, c.now, c.persists).0, settings,
                      calls[1..]);
    }
  }
}
