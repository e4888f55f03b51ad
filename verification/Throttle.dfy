/**
 The sign-in throttle of app/ratelimit.py and the order in which `local_login`
 (app/auth/router.py) uses it. Time is a real number; each method reads the clock once.
 */
module Throttle {
  const MAX_ATTEMPTS: nat := 5
  const WINDOW_SECONDS: real := 300.0
  const LOCKOUT_SECONDS: real := 300.0

  type Times = seq<real>

  /** Python's int(): truncation toward zero. */
  function Truncate(x: real): int {
    if x >= 0.0 then x.Floor else -((-x).Floor)
  }

  function Prune(ts: Times, now: real): Times {
    if ts == [] then []
    else (if now - ts[0] < WINDOW_SECONDS then [ts[0]] else []) + Prune(ts[1..], now)
  }

  datatype Verdict = Verdict(allowed: bool, retryIn: int, kept: Times)

  /** One `check` on the timestamps of one key. */
  function Judge(ts: Times, now: real): Verdict {
    var recent := Prune(ts, now);
    if |recent| < MAX_ATTEMPTS then Verdict(true, 0, recent)
    else
      var retryIn := Truncate(LOCKOUT_SECONDS - (now - recent[0]));
      if retryIn > 0 then Verdict(false, retryIn, recent) else Verdict(true, 0, [])
  }

  // --- the module state --------------------------------------------------------------

  class Limiter {
    var attempts: map<string, Times>

    constructor ()
      ensures attempts == map[]
    {
      attempts := map[];
    }

    /** The defaultdict view: a missing key reads as no attempts. */
    function Of(key: string): Times
      reads this
    {
      if key in attempts then attempts[key] else []
    }

    twostate predicate OthersKept(key: string)
      reads this
    {
      forall k :: k != key ==> Of(k) == old(Of(k))
    }

    method Check(key: string, now: real) returns (allowed: bool, retryIn: int)
      modifies this
      ensures var v := Judge(old(Of(key)), now); allowed == v.allowed && retryIn == v.retryIn && Of(key) == v.kept
      ensures OthersKept(key)
    {
      var ts := Of(key);
      var recent: Times := [];
      assert ts[..|ts|] == ts;
      for i := 0 to |ts|
        invariant recent == Prune(ts[..i], now)
        invariant attempts == old(attempts)
      {
        PruneAppend(ts[..i], ts[i], now);
        assert ts[..i + 1] == ts[..i] + [ts[i]];
        if now - ts[i] < WINDOW_SECONDS {
          recent := recent + [ts[i]];
        }
      }
      attempts := attempts[key := recent];
      if |recent| >= MAX_ATTEMPTS {
        retryIn := Truncate(LOCKOUT_SECONDS - (now - recent[0]));
        if retryIn > 0 {
          return false, retryIn;
        }
        attempts := attempts[key := []];
      }
      return true, 0;
    }

    method RecordFailure(key: string, now: real)
      modifies this
      ensures Of(key) == old(Of(key)) + [now]
      ensures OthersKept(key)
    {
      attempts := attempts[key := Of(key) + [now]];
    }

    method Reset(key: string)
      modifies this
      ensures Of(key) == []
      ensures OthersKept(key)
    {
      attempts := attempts - {key};
    }

    /** A local sign-in: check first, then record the failure or forget the key's failures. */
    method LocalLogin(key: string, checkedAt: real, credentialsOk: bool, answeredAt: real)
      returns (allowed: bool, retryIn: int)
      modifies this
      ensures var v := Judge(old(Of(key)), checkedAt);
              && allowed == v.allowed && retryIn == v.retryIn
              && Of(key) == if allowed && credentialsOk then []
                            else Step(State(old(Of(key)), [], [], checkedAt), Failure(checkedAt, answeredAt)).window
      ensures OthersKept(key)
    {
      allowed, retryIn := Check(key, checkedAt);
      if !allowed {
        return;
      }
      if !credentialsOk {
        RecordFailure(key, answeredAt);
        return;
      }
      Reset(key);
    }
  }

  lemma {:induction false} PruneAppend(ts: Times, t: real, now: real)
    ensures Prune(ts + [t], now) == Prune(ts, now) + (if now - t < WINDOW_SECONDS then [t] else [])
  {
    if ts == [] {
      assert [] + [t] == [t];
    } else {
      assert (ts + [t])[1..] == ts[1..] + [t];
      PruneAppend(ts[1..], t, now);
    }
  }

  // --- one check ------------------------------------------------------------------------

  predicate Sorted(ts: Times) {
    forall i, j :: 0 <= i <= j < |ts| ==> ts[i] <= ts[j]
  }

  lemma {:induction false} PruneYoung(ts: Times, now: real)
    requires forall i :: 0 <= i < |ts| ==> now - ts[i] < WINDOW_SECONDS
    ensures Prune(ts, now) == ts
  {
    if ts != [] {
      PruneYoung(ts[1..], now);
    }
  }

  /** On sorted timestamps pruning drops a prefix: exactly those at least a window old. */
  lemma {:induction false} PruneIsSuffix(ts: Times, now: real) returns (n: nat)
    requires Sorted(ts)
    ensures n <= |ts| && Prune(ts, now) == ts[n..]
    ensures forall i :: 0 <= i < |ts| ==> (i < n <==> now - ts[i] >= WINDOW_SECONDS)
  {
    if ts == [] || now - ts[0] < WINDOW_SECONDS {
      n := 0;
      PruneYoung(ts, now);
    } else {
      var rest := ts[1..];
      var m := PruneIsSuffix(rest, now);
      n := m + 1;
      assert rest[m..] == ts[n..];
      forall i | 0 <= i < |ts|
        ensures i < n <==> now - ts[i] >= WINDOW_SECONDS
      {
        if i > 0 { assert ts[i] == rest[i - 1]; }
      }
    }
  }

  predicate WindowOk(ts: Times) {
    Sorted(ts) && |ts| <= MAX_ATTEMPTS
  }

  /** A check denies exactly while the fifth-last failure is at most 299 seconds old. */
  lemma {:induction false} DeniedExactly(ts: Times, now: real)
    requires WindowOk(ts)
    requires forall i :: 0 <= i < |ts| ==> ts[i] <= now
    ensures !Judge(ts, now).allowed <==> |ts| == MAX_ATTEMPTS && now <= ts[0] + (LOCKOUT_SECONDS - 1.0)
    ensures !Judge(ts, now).allowed ==> Judge(ts, now).kept == ts && 1 <= Judge(ts, now).retryIn <= 300
  {
    var n := PruneIsSuffix(ts, now);
    assert n == 0 ==> ts[n..] == ts;
  }

  /** The first n failures are too old to count, the others are not. */
  predicate FreshFrom(ts: Times, now: real, n: nat)
    requires n <= |ts|
  {
    (forall i :: 0 <= i < n ==> now - ts[i] >= 300.0) && forall i :: n <= i < |ts| ==> now - ts[i] < 300.0
  }

  lemma {:induction false} FreshLeast(ts: Times, now: real, m: nat, n: nat)
    requires m <= |ts| && n <= |ts| && FreshFrom(ts, now, m) && FreshFrom(ts, now, n)
    ensures m <= n
  {
    var at := if n < |ts| then ts[n] else now;
  }

  /**
   A check first forgets the failures at least 300 seconds old. With fewer than five left it allows and
   keeps them; with five it denies, naming the whole seconds the oldest still has to go, unless that is
   none: then it allows and forgets them all.
   */
  lemma {:induction false} CheckExactly(ts: Times, now: real, n: nat)
    requires Sorted(ts) && n <= |ts| && FreshFrom(ts, now, n)
    ensures var v := Judge(ts, now);
            if |ts| - n < 5 then v == Verdict(true, 0, ts[n..])
            else if now - ts[n] <= 299.0 then
              !v.allowed && v.kept == ts[n..] && v.retryIn as real <= 300.0 - (now - ts[n]) < v.retryIn as real + 1.0
            else v == Verdict(true, 0, [])
  {
    var m := PruneIsSuffix(ts, now);
    FreshLeast(ts, now, m, n);
    FreshLeast(ts, now, n, m);
  }

  // --- honest retry times ------------------------------------------------------------------

  /** The timestamps after a series of checks, all of which were denied. */
  predicate AllDenied(ts: Times, checks: Times)
    decreases |checks|
  {
    checks == [] || (!Judge(ts, checks[0]).allowed && AllDenied(Judge(ts, checks[0]).kept, checks[1..]))
  }

  function AfterChecks(ts: Times, checks: Times): Times
    decreases |checks|
  {
    if checks == [] then ts else AfterChecks(Judge(ts, checks[0]).kept, checks[1..])
  }

  lemma {:induction false} DeniedChecksKeep(ts: Times, start: real, checks: Times)
    requires WindowOk(ts) && AllDenied(ts, checks)
    requires forall i :: 0 <= i < |ts| ==> ts[i] <= start
    requires forall i :: 0 <= i < |checks| ==> start <= checks[i]
    ensures AfterChecks(ts, checks) == ts
    decreases |checks|
  {
    if checks != [] {
      DeniedExactly(ts, checks[0]);
      DeniedChecksKeep(ts, start, checks[1..]);
    }
  }

  /**
   When a check denies with "retry in r seconds", then after any denied checks in between,
   a check up to r - 1 seconds later is denied and one from r seconds later on is allowed.
   */
  lemma {:induction false} HonestRetry(ts: Times, t: real, between: Times, later: real)
    requires WindowOk(ts) && !Judge(ts, t).allowed
    requires forall i :: 0 <= i < |ts| ==> ts[i] <= t
    requires t <= later && forall i :: 0 <= i < |between| ==> t <= between[i]
    requires AllDenied(Judge(ts, t).kept, between)
    ensures var r := Judge(ts, t).retryIn as real;
            var now := AfterChecks(Judge(ts, t).kept, between);
            && (later <= t + r - 1.0 ==> !Judge(now, later).allowed)
            && (later >= t + r ==> Judge(now, later).allowed)
  {
    DeniedExactly(ts, t);
    DeniedChecksKeep(ts, t, between);
    DeniedExactly(ts, later);
    var n := PruneIsSuffix(ts, t);
    assert n == 0 && Prune(ts, t) == ts;
  }

  // --- whole runs ----------------------------------------------------------------------------

  /** A denied or abandoned attempt only checks; a failing one also records, once it was allowed. */
  datatype Event = Probe(at: real) | Failure(checkedAt: real, failedAt: real)

  /** `log` holds every failure ever recorded and `clears` the times the list was emptied while full. */
  datatype State = State(window: Times, log: Times, clears: Times, now: real)

  function Start(now: real): State {
    State([], [], [], now)
  }

  function CheckTime(e: Event): real {
    match e case Probe(at) => at case Failure(at, _) => at
  }

  function Step(s: State, e: Event): State {
    var v := Judge(s.window, CheckTime(e));
    var full := |Prune(s.window, CheckTime(e))| >= MAX_ATTEMPTS;
    var clears := if v.allowed && full then s.clears + [CheckTime(e)] else s.clears;
    match e
    case Failure(_, failedAt) =>
      if v.allowed then State(v.kept + [failedAt], s.log + [failedAt], clears, failedAt)
      else State(v.kept, s.log, clears, CheckTime(e))
    case Probe(at) => State(v.kept, s.log, clears, at)
  }

  /** The clock never runs backwards. */
  predicate InOrder(now: real, e: Event) {
    now <= CheckTime(e) && (e.Failure? ==> e.checkedAt <= e.failedAt)
  }

  function Run(s: State, events: seq<Event>): State {
    if events == [] then s else Step(Run(s, events[..|events| - 1]), events[|events| - 1])
  }

  predicate Monotone(s: State, events: seq<Event>) {
    events == [] ||
    (&& Monotone(s, events[..|events| - 1])
     && InOrder(Run(s, events[..|events| - 1]).now, events[|events| - 1]))
  }

  /** Entries k apart in the list are more than 299 seconds apart. */
  predicate Spread(ts: Times, k: nat) {
    forall i, j :: 0 <= i && i + k <= j < |ts| ==> ts[j] > ts[i] + 299.0
  }

  /** `c` counts the failures recorded before the last clear. */
  ghost predicate Invariant(s: State, c: nat) {
    && WindowIsTail(s, c)
    && ClearsOk(s, c)
    && Spread(s.log, 9)
    && FiveNeedClear(s)
  }

  /** Six failures within 299 seconds have a clear between the first and the last of them. */
  ghost predicate FiveNeedClear(s: State) {
    forall i, j :: 0 <= i && i + 5 <= j < |s.log| ==>
      s.log[j] > s.log[i] + 299.0 || ClearWithin(s.clears, s.log[i], s.log[j])
  }

  ghost predicate ClearWithin(clears: Times, lo: real, hi: real) {
    exists m :: 0 <= m < |clears| && lo <= clears[m] <= hi
  }

  ghost predicate WindowIsTail(s: State, c: nat) {
    && Sorted(s.log) && (forall i :: 0 <= i < |s.log| ==> s.log[i] <= s.now)
    && |s.window| <= MAX_ATTEMPTS && c + |s.window| <= |s.log|
    && s.window == s.log[|s.log| - |s.window|..]
    // failures since the last clear leave the window only by age
    && (forall i :: c <= i < |s.log| - |s.window| ==> s.log[i] <= s.now - WINDOW_SECONDS)
  }

  ghost predicate ClearsOk(s: State, c: nat) {
    && Spread(s.clears, 1)
    && if s.clears == [] then c == 0
       else
         var last := s.clears[|s.clears| - 1];
         && 5 <= c <= |s.log| && s.log[c - 5] < last - 299.0 && last <= s.now
         && (forall i :: c <= i < |s.log| ==> last <= s.log[i])
         && (forall i :: 0 <= i < c ==> s.log[i] <= last)
         && (forall i :: 0 <= i < |s.clears| ==> s.clears[i] <= last)
  }

  lemma {:induction false} SuffixSorted(log: Times, k: nat)
    requires Sorted(log) && k <= |log|
    ensures Sorted(log[k..])
  {
  }

  lemma {:induction false} PrunedTail(s: State, c: nat, at: real) returns (n: nat)
    requires WindowIsTail(s, c) && s.now <= at
    ensures n <= |s.window| && Prune(s.window, at) == s.window[n..]
    ensures forall i :: c <= i < |s.log| - |s.window| + n ==> s.log[i] <= at - WINDOW_SECONDS
  {
    var k := |s.log| - |s.window|;
    SuffixSorted(s.log, k);
    n := PruneIsSuffix(s.window, at);
    forall i | c <= i < k + n ensures s.log[i] <= at - WINDOW_SECONDS {
      if i >= k { assert s.log[i] == s.window[i - k]; }
    }
  }

  lemma {:induction false} PrunedIsTail(s: State, c: nat, at: real)
    requires WindowIsTail(s, c) && s.now <= at
    ensures WindowIsTail(State(Prune(s.window, at), s.log, s.clears, at), c)
  {
    var n := PrunedTail(s, c, at);
    assert s.window[n..] == s.log[|s.log| - |s.window| + n..];
  }

  lemma {:induction false} ClearsOkLater(s: State, s': State, c: nat)
    requires ClearsOk(s, c) && s'.log == s.log && s'.clears == s.clears && s.now <= s'.now
    ensures ClearsOk(s', c)
  {
  }

  /** The check half of a step that does not clear: a prefix of the window ages out. */
  lemma {:induction false} PruneKeeps(s: State, c: nat, at: real)
    requires Invariant(s, c) && s.now <= at
    ensures Invariant(State(Prune(s.window, at), s.log, s.clears, at), c)
  {
    var s' := State(Prune(s.window, at), s.log, s.clears, at);
    PrunedIsTail(s, c, at);
    ClearsOkLater(s, s', c);
    assert FiveNeedClear(s');
  }

  /** The state a check leaves that finds five failures kept and clears them. */
  function Cleared(s: State, at: real): State {
    State([], s.log, s.clears + [at], at)
  }

  lemma {:induction false} ClearIsTail(s: State, c: nat, at: real)
    requires WindowIsTail(s, c) && s.now <= at
    ensures WindowIsTail(Cleared(s, at), |s.log|)
  {
  }

  lemma {:induction false} ClearIsSpread(s: State, c: nat, at: real)
    requires WindowIsTail(s, c) && ClearsOk(s, c) && s.now <= at
    requires |s.window| == MAX_ATTEMPTS && at - s.window[0] > 299.0
    ensures ClearsOk(Cleared(s, at), |s.log|)
  {
    assert s.window[0] == s.log[|s.log| - 5];
    if s.clears != [] {
      assert s.clears[|s.clears| - 1] <= s.log[|s.log| - 5];
    }
  }

  lemma {:induction false} ClearNeedsClear(s: State, at: real)
    requires FiveNeedClear(s)
    ensures FiveNeedClear(Cleared(s, at))
  {
    forall i, j | 0 <= i && i + 5 <= j < |s.log|
      ensures s.log[j] > s.log[i] + 299.0 || ClearWithin(s.clears + [at], s.log[i], s.log[j])
    {
      if s.log[j] <= s.log[i] + 299.0 {
        var m :| 0 <= m < |s.clears| && s.log[i] <= s.clears[m] <= s.log[j];
        assert (s.clears + [at])[m] == s.clears[m];
      }
    }
  }

  lemma {:induction false} ClearKeeps(s: State, c: nat, at: real)
    requires Invariant(s, c) && s.now <= at
    requires |s.window| == MAX_ATTEMPTS && at - s.window[0] > 299.0
    ensures Invariant(Cleared(s, at), |s.log|)
  {
    hide WindowIsTail, ClearsOk, FiveNeedClear, Spread;
    ClearIsTail(s, c, at);
    ClearIsSpread(s, c, at);
    ClearNeedsClear(s, at);
  }

  /** The check half of a step keeps the invariant; it moves `c` only when it clears. */
  lemma {:induction false} CheckKeeps(s: State, c: nat, at: real) returns (c': nat)
    requires Invariant(s, c) && s.now <= at
    ensures var s' := Step(s, Probe(at));
            && Invariant(s', c')
            && (Judge(s.window, at).allowed ==> |s'.window| < MAX_ATTEMPTS)
  {
    hide ClearsOk, Spread, FiveNeedClear, Prune;
    PruneKeeps(s, c, at);
    c' := c;
    var pruned := State(Prune(s.window, at), s.log, s.clears, at);
    if |pruned.window| >= MAX_ATTEMPTS && Judge(s.window, at).allowed {
      ClearKeeps(pruned, c, at);
      c' := |s.log|;
    }
  }

  function Recorded(s: State, at: real): State {
    State(s.window + [at], s.log + [at], s.clears, at)
  }

  lemma {:induction false} RecordSpread(s: State, c: nat, at: real)
    requires Invariant(s, c) && |s.window| < MAX_ATTEMPTS && s.now <= at
    ensures Spread(s.log + [at], 9)
  {
    var n := |s.log|;
    forall i | 0 <= i <= n - 9 ensures at > s.log[i] + 299.0 {
      if n - 5 >= c {
        assert s.log[i] <= s.log[n - 5] <= s.now - WINDOW_SECONDS;
      } else {
        assert s.log[i] <= s.log[c - 5];
      }
    }
  }

  lemma {:induction false} RecordFive(s: State, c: nat, at: real)
    requires Invariant(s, c) && |s.window| < MAX_ATTEMPTS && s.now <= at
    ensures FiveNeedClear(Recorded(s, at))
  {
    var n := |s.log|;
    forall i | 0 <= i <= n - 5
      ensures at > s.log[i] + 299.0 || ClearWithin(s.clears, s.log[i], at)
    {
      if n - 5 >= c {
        assert s.log[i] <= s.log[n - 5] <= s.now - WINDOW_SECONDS;
      } else {
        assert s.log[i] <= s.clears[|s.clears| - 1] <= at;
      }
    }
  }

  lemma {:induction false} RecordIsTail(s: State, c: nat, at: real)
    requires WindowIsTail(s, c) && |s.window| < MAX_ATTEMPTS && s.now <= at
    ensures WindowIsTail(Recorded(s, at), c)
  {
    var k := |s.log| - |s.window|;
    assert (s.log + [at])[k..] == s.log[k..] + [at];
  }

  lemma {:induction false} RecordClearsOk(s: State, c: nat, at: real)
    requires ClearsOk(s, c) && s.now <= at
    ensures ClearsOk(Recorded(s, at), c)
  {
  }

  lemma {:induction false} RecordKeeps(s: State, c: nat, at: real)
    requires Invariant(s, c) && |s.window| < MAX_ATTEMPTS && s.now <= at
    ensures Invariant(Recorded(s, at), c)
  {
    RecordSpread(s, c, at);
    RecordFive(s, c, at);
    hide WindowIsTail, ClearsOk, FiveNeedClear, Spread;
    RecordIsTail(s, c, at);
    RecordClearsOk(s, c, at);
  }

  lemma {:induction false} StepKeeps(s: State, c: nat, e: Event) returns (c': nat)
    requires Invariant(s, c) && InOrder(s.now, e)
    ensures Invariant(Step(s, e), c')
  {
    c' := CheckKeeps(s, c, CheckTime(e));
    var checked := Step(s, Probe(CheckTime(e)));
    if e.Failure? && Judge(s.window, e.checkedAt).allowed {
      RecordKeeps(checked, c', e.failedAt);
    }
  }

  lemma {:induction false} RunKeeps(start: real, events: seq<Event>) returns (c: nat)
    requires Monotone(Start(start), events)
    ensures Invariant(Run(Start(start), events), c)
    decreases |events|
  {
    if events == [] {
      c := 0;
    } else {
      var before := events[..|events| - 1];
      c := RunKeeps(start, before);
      c := StepKeeps(Run(Start(start), before), c, events[|events| - 1]);
    }
  }

  // --- the bound ---------------------------------------------------------------------------------

  function CountIn(ts: Times, lo: real, hi: real): nat {
    if ts == [] then 0
    else (if lo <= ts[0] <= hi then 1 else 0) + CountIn(ts[1..], lo, hi)
  }

  /** In a sorted list, n entries within [lo, hi] sit next to each other. */
  lemma {:induction false} CountIsRun(ts: Times, lo: real, hi: real) returns (i: nat)
    requires Sorted(ts)
    ensures i + CountIn(ts, lo, hi) <= |ts|
    ensures forall j :: i <= j < i + CountIn(ts, lo, hi) ==> lo <= ts[j] <= hi
  {
    if ts == [] {
      i := 0;
    } else {
      var rest := ts[1..];
      var m := CountIsRun(rest, lo, hi);
      var n := CountIn(rest, lo, hi);
      if lo <= ts[0] <= hi {
        i := 0;
        forall j | 0 <= j < 1 + n ensures lo <= ts[j] <= hi {
          if n > 0 {
            assert lo <= rest[m + n - 1] <= hi && rest[m + n - 1] == ts[m + n];
            assert ts[0] <= ts[j] <= ts[m + n];
          }
        }
      } else {
        i := m + 1;
        forall j | i <= j < i + n ensures lo <= ts[j] <= hi {
          assert ts[j] == rest[j - 1];
        }
      }
    }
  }

  lemma {:induction false} SpreadBoundsCount(ts: Times, k: nat, lo: real)
    requires Sorted(ts) && Spread(ts, k) && k > 0
    ensures CountIn(ts, lo, lo + 299.0) <= k
  {
    var n := CountIn(ts, lo, lo + 299.0);
    var i := CountIsRun(ts, lo, lo + 299.0);
    assert n > 0 ==> lo <= ts[i] && ts[i + n - 1] <= lo + 299.0;
  }

  lemma {:induction false} InvariantShape(s: State, c: nat)
    requires Invariant(s, c)
    ensures Sorted(s.log) && Spread(s.log, 9) && Sorted(s.clears) && Spread(s.clears, 1) && WindowOk(s.window)
    ensures FiveNeedClear(s)
  {
    hide FiveNeedClear;
    SuffixSorted(s.log, |s.log| - |s.window|);
    assert Spread(s.clears, 1);
  }

  /**
   Over every run with a forward clock and no successful sign-in: a closed interval of 299 seconds
   holds at most nine recorded failures and at most one clear, and the list stays sorted and short.
   */
  lemma {:induction false} FailuresBounded(start: real, events: seq<Event>, lo: real)
    requires Monotone(Start(start), events)
    ensures var s := Run(Start(start), events);
            && CountIn(s.log, lo, lo + 299.0) <= 9
            && CountIn(s.clears, lo, lo + 299.0) <= 1
            && WindowOk(s.window)
  {
    hide Run, Monotone, Invariant, CountIn, Sorted, Spread, WindowOk, FiveNeedClear;
    var s := Run(Start(start), events);
    var c := RunKeeps(start, events);
    InvariantShape(s, c);
    SpreadBoundsCount(s.log, 9, lo);
    SpreadBoundsCount(s.clears, 1, lo);
  }

  /** Where no clear falls in the interval, it holds no more than the five failures the limit names. */
  lemma {:induction false} FiveWithoutClear(start: real, events: seq<Event>, lo: real)
    requires Monotone(Start(start), events)
    requires CountIn(Run(Start(start), events).clears, lo, lo + 299.0) == 0
    ensures CountIn(Run(Start(start), events).log, lo, lo + 299.0) <= MAX_ATTEMPTS
  {
    hide Run, Monotone, Invariant, CountIn, Sorted, Spread, FiveNeedClear;
    var s := Run(Start(start), events);
    var c := RunKeeps(start, events);
    InvariantShape(s, c);
    NoneCounted(s.clears, lo, lo + 299.0);
    var i := CountIsRun(s.log, lo, lo + 299.0);
    SixSpread(s, lo, i, CountIn(s.log, lo, lo + 299.0));
  }

  lemma {:induction false} SixSpread(s: State, lo: real, i: nat, n: nat)
    requires FiveNeedClear(s) && i + n <= |s.log|
    requires forall j :: i <= j < i + n ==> lo <= s.log[j] <= lo + 299.0
    requires forall m :: 0 <= m < |s.clears| ==> !(lo <= s.clears[m] <= lo + 299.0)
    ensures n <= 5
  {
    assert n > 0 ==> lo <= s.log[i] && s.log[i + n - 1] <= lo + 299.0;
  }

  lemma {:induction false} NoneCounted(ts: Times, lo: real, hi: real)
    requires CountIn(ts, lo, hi) == 0
    ensures forall i :: 0 <= i < |ts| ==> !(lo <= ts[i] <= hi)
  {
    if ts != [] {
      NoneCounted(ts[1..], lo, hi);
      forall i | 0 <= i < |ts| ensures !(lo <= ts[i] <= hi) {
        if i > 0 { assert ts[i] == ts[1..][i - 1]; }
      }
    }
  }

  // --- what a clear lets through ------------------------------------------------------------------

  /** Going on after the clear, an interval of 299 seconds around it holds six failures. */
  ghost predicate SixAround(s: State, at: real, events: seq<Event>, lo: real) {
    && Monotone(Cleared(s, at), events)
    && lo <= at <= lo + 299.0
    && CountIn(Run(Cleared(s, at), events).log, lo, lo + 299.0) >= 6
  }

  lemma {:induction false} CountConcat(a: Times, b: Times, lo: real, hi: real)
    ensures CountIn(a + b, lo, hi) == CountIn(a, lo, hi) + CountIn(b, lo, hi)
  {
    if a == [] {
      assert a + b == b;
    } else {
      assert (a + b)[1..] == a[1..] + b;
      CountConcat(a[1..], b, lo, hi);
    }
  }

  lemma {:induction false} CountNone(ts: Times, lo: real, hi: real)
    requires forall i :: 0 <= i < |ts| ==> !(lo <= ts[i] <= hi)
    ensures CountIn(ts, lo, hi) == 0
  {
    if ts != [] { CountNone(ts[1..], lo, hi); }
  }

  lemma {:induction false} CountSome(ts: Times, k: nat, lo: real, hi: real)
    requires k < |ts| && lo <= ts[k] <= hi
    ensures CountIn(ts, lo, hi) >= 1
  {
    if k > 0 { CountSome(ts[1..], k - 1, lo, hi); }
  }

  /** The limiter only looks at its list, so earlier failures and clears just stay in front. */
  lemma {:induction false} RunPrefixed(log: Times, clears: Times, start: real, events: seq<Event>)
    ensures var r := Run(Start(start), events);
            Run(State([], log, clears, start), events) == State(r.window, log + r.log, clears + r.clears, r.now)
    ensures Monotone(State([], log, clears, start), events) <==> Monotone(Start(start), events)
    decreases |events|
  {
    if events == [] {
      assert log + [] == log && clears + [] == clears;
    } else {
      RunPrefixed(log, clears, start, events[..|events| - 1]);
      StepPrefixed(Run(Start(start), events[..|events| - 1]), log, clears, events[|events| - 1]);
    }
  }

  lemma {:induction false} StepPrefixed(s: State, log: Times, clears: Times, e: Event)
    ensures var r := Step(s, e);
            Step(State(s.window, log + s.log, clears + s.clears, s.now), e)
            == State(r.window, log + r.log, clears + r.clears, r.now)
  {
    assert forall t: real :: log + (s.log + [t]) == log + s.log + [t];
    assert forall t: real :: clears + (s.clears + [t]) == clears + s.clears + [t];
  }

  predicate AtLeast(ts: Times, lo: real) {
    forall i :: 0 <= i < |ts| ==> ts[i] >= lo
  }

  lemma {:induction false} PruneAtLeast(ts: Times, now: real, lo: real)
    requires AtLeast(ts, lo)
    ensures AtLeast(Prune(ts, now), lo)
  {
    if ts != [] { PruneAtLeast(ts[1..], now, lo); }
  }

  /** The first clear of a run comes more than 299 seconds after its start. */
  lemma {:induction false} ClearsComeLate(start: real, events: seq<Event>)
    requires Monotone(Start(start), events)
    ensures var r := Run(Start(start), events);
            r.now >= start && AtLeast(r.window, start) && forall i :: 0 <= i < |r.clears| ==> r.clears[i] > start + 299.0
    decreases |events|
  {
    if events != [] {
      var before := events[..|events| - 1];
      ClearsComeLate(start, before);
      PruneAtLeast(Run(Start(start), before).window, CheckTime(events[|events| - 1]), start);
    }
  }

  lemma {:induction false} FiveAroundOldClear(s: State, at: real, events: seq<Event>, lo: real)
    requires forall i :: 0 <= i < |s.log| ==> s.log[i] < at - 299.0
    ensures !SixAround(s, at, events, lo)
  {
    hide Run, Monotone, CountIn;
    if SixAround(s, at, events, lo) {
      var r := Run(Start(at), events);
      RunPrefixed(s.log, s.clears + [at], at, events);
      CountConcat(s.log, r.log, lo, lo + 299.0);
      CountNone(s.log, lo, lo + 299.0);
      ClearsComeLate(at, events);
      CountNone(r.clears, lo, lo + 299.0);
      FiveWithoutClear(at, events, lo);
    }
  }

  function Failures(at: real, n: nat): seq<Event> {
    if n == 0 then [] else Failures(at, n - 1) + [Failure(at, at)]
  }

  function Repeated(at: real, n: nat): (r: Times)
    ensures |r| == n && forall i :: 0 <= i < n ==> r[i] == at
  {
    if n == 0 then [] else Repeated(at, n - 1) + [at]
  }

  lemma {:induction false} RunNothing(s: State)
    ensures Monotone(s, []) && Run(s, []) == s
  {
  }

  lemma {:induction false} BurstRecords(s: State, at: real, n: nat)
    requires s.window == [] && s.now == at && n <= MAX_ATTEMPTS
    ensures Monotone(s, Failures(at, n))
    ensures Run(s, Failures(at, n)) == State(Repeated(at, n), s.log + Repeated(at, n), s.clears, at)
  {
    hide Run, Monotone, Step;
    if n == 0 {
      RunNothing(s);
      assert s.log + [] == s.log && Repeated(at, 0) == [];
    } else {
      BurstRecords(s, at, n - 1);
      FailureRecorded(Run(s, Failures(at, n - 1)), at);
      RunExtend(s, Failures(at, n - 1), Failure(at, at));
      assert s.log + Repeated(at, n - 1) + [at] == s.log + Repeated(at, n);
    }
  }

  lemma {:induction false} RepeatedCount(at: real, n: nat, lo: real, hi: real)
    requires lo <= at <= hi
    ensures CountIn(Repeated(at, n), lo, hi) == n
  {
    if n > 0 {
      RepeatedCount(at, n - 1, lo, hi);
      CountAppend(Repeated(at, n - 1), at, lo, hi);
    }
  }

  lemma {:induction false} SixAroundFreshClear(s: State, at: real, k: nat)
    requires k < |s.log| && at - 299.0 <= s.log[k] <= at
    ensures SixAround(s, at, Failures(at, MAX_ATTEMPTS), s.log[k])
  {
    hide Run, Monotone, CountIn, Failures, Repeated;
    var lo := s.log[k];
    BurstRecords(Cleared(s, at), at, MAX_ATTEMPTS);
    CountConcat(s.log, Repeated(at, MAX_ATTEMPTS), lo, lo + 299.0);
    CountSome(s.log, k, lo, lo + 299.0);
    RepeatedCount(at, MAX_ATTEMPTS, lo, lo + 299.0);
  }

  /**
   A clear lets a sixth failure into some interval of 299 seconds around it exactly when the newest
   failure it forgets is at most 299 seconds old.
   */
  lemma {:induction false} SixAroundClearExactly(s: State, c: nat, at: real)
    requires Invariant(s, c) && s.now <= at
    requires |Prune(s.window, at)| == MAX_ATTEMPTS && Judge(s.window, at).allowed
    ensures |s.window| == MAX_ATTEMPTS
    ensures (exists events, lo :: SixAround(s, at, events, lo)) <==> at - s.window[MAX_ATTEMPTS - 1] <= 299.0
  {
    var n := PrunedTail(s, c, at);
    var newest := |s.log| - 1;
    assert s.window[MAX_ATTEMPTS - 1] == s.log[newest];
    if at - s.log[newest] <= 299.0 {
      SixAroundFreshClear(s, at, newest);
    } else {
      forall events, lo ensures !SixAround(s, at, events, lo) {
        FiveAroundOldClear(s, at, events, lo);
      }
    }
  }

  // --- the bound of nine is reached -------------------------------------------------------------

  lemma {:induction false} RunExtend(s: State, events: seq<Event>, e: Event)
    requires Monotone(s, events) && InOrder(Run(s, events).now, e)
    ensures Monotone(s, events + [e]) && Run(s, events + [e]) == Step(Run(s, events), e)
  {
    var all := events + [e];
    assert all[..|all| - 1] == events;
  }

  lemma {:induction false} CountAppend(ts: Times, t: real, lo: real, hi: real)
    ensures CountIn(ts + [t], lo, hi) == CountIn(ts, lo, hi) + (if lo <= t <= hi then 1 else 0)
  {
    if ts != [] {
      assert (ts + [t])[1..] == ts[1..] + [t];
      CountAppend(ts[1..], t, lo, hi);
    }
  }

  /** A failure that finds room in a young window is recorded. */
  lemma {:induction false} FailureRecorded(s: State, at: real)
    requires |s.window| < MAX_ATTEMPTS
    requires forall i :: 0 <= i < |s.window| ==> at - s.window[i] < WINDOW_SECONDS
    ensures Step(s, Failure(at, at)) == State(s.window + [at], s.log + [at], s.clears, at)
  {
    PruneYoung(s.window, at);
  }

  /** A run that so far recorded `size` failures from time 0 on, `n` of them within [299.2, 299.5]. */
  predicate Stage(events: seq<Event>, now: real, size: nat, n: nat) {
    && Monotone(Start(0.0), events)
    && var s := Run(Start(0.0), events);
       && s.now <= now && |s.window| == size && CountIn(s.log, 299.2, 299.5) == n
       && (forall i :: 0 <= i < size ==> 0.0 <= s.window[i])
  }

  lemma {:induction false} StageStep(events: seq<Event>, now: real, size: nat, n: nat)
    requires Stage(events, now, size, n) && 299.2 <= now <= 299.5 && size < MAX_ATTEMPTS
    ensures Stage(events + [Failure(now, now)], now, size + 1, n + 1)
    ensures Run(Start(0.0), events + [Failure(now, now)]).window == Run(Start(0.0), events).window + [now]
  {
    var s := Run(Start(0.0), events);
    FailureRecorded(s, now);
    RunExtend(Start(0.0), events, Failure(now, now));
    CountAppend(s.log, now, 299.2, 299.5);
  }

  /** `extra` more failures at one time, while the list has room. */
  lemma {:induction false} Burst(events: seq<Event>, now: real, size: nat, n: nat, extra: nat) returns (after: seq<Event>)
    requires Stage(events, now, size, n) && 299.2 <= now <= 299.5 && size + extra <= MAX_ATTEMPTS
    ensures Stage(after, now, size + extra, n + extra)
    ensures Run(Start(0.0), events).window <= Run(Start(0.0), after).window
  {
    after := events;
    if extra > 0 {
      after := Burst(events, now, size, n, extra - 1);
      StageStep(after, now, size + extra - 1, n + extra - 1);
      after := after + [Failure(now, now)];
    }
  }

  lemma {:induction false} FullListCleared(events: seq<Event>, n: nat)
    requires Stage(events, 299.2, 5, n) && Run(Start(0.0), events).window[0] == 0.0
    ensures Stage(events + [Failure(299.5, 299.5)], 299.5, 1, n + 1)
  {
    var s := Run(Start(0.0), events);
    PruneYoung(s.window, 299.5);
    RunExtend(Start(0.0), events, Failure(299.5, 299.5));
    CountAppend(s.log, 299.5, 299.2, 299.5);
  }

  lemma {:induction false} FirstFailure()
    ensures Stage([Failure(0.0, 0.0)], 299.2, 1, 0)
    ensures Run(Start(0.0), [Failure(0.0, 0.0)]).window == [0.0]
  {
    FailureRecorded(Start(0.0), 0.0);
    RunExtend(Start(0.0), [], Failure(0.0, 0.0));
    assert [] + [Failure(0.0, 0.0)] == [Failure(0.0, 0.0)];
  }

  /** Nine failures within half a second: four just before the truncated retry time, five after the clear. */
  lemma {:induction false} NineReached() returns (events: seq<Event>)
    ensures Monotone(Start(0.0), events)
    ensures CountIn(Run(Start(0.0), events).log, 299.2, 299.5) == 9
  {
    FirstFailure();
    events := Burst([Failure(0.0, 0.0)], 299.2, 1, 0, 4);
    FullListCleared(events, 4);
    events := Burst(events + [Failure(299.5, 299.5)], 299.5, 1, 5, 4);
  }
}
