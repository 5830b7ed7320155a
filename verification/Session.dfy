/**
 The one shared session with the NAS: when a login may be attempted, and the breaker that
 stops attempts before the target's own lockout does. Each method is one critical section
 under the session lock, so a sequence of calls is an interleaving of concurrent callers.
 */
module Session {

  const SECOND: int := 1_000_000_000
  const RECONNECT_COOLDOWN: int := 15 * SECOND
  const IDLE_PROBE_AFTER: int := 30 * SECOND
  const BREAKER_THRESHOLD: int := 5
  const BREAKER_COOLDOWN: int := 11 * 60 * SECOND

  /** What the target sees: a login attempt, or a rate-limit answer on a live session. */
  datatype Event =
    | Login(at: int, ok: bool, limited: bool)
    | Limited(at: int)

  datatype Dial = Connects | Refused(limited: bool)

  /** The clock readings of one session call, in the order the code takes them. */
  datatype Readings = Readings(idle: int, proven: int, gate: int, wait: int, start: int, end: int)

  predicate Ordered(t: Readings) {
    t.idle <= t.proven <= t.gate <= t.wait <= t.start <= t.end
  }

  // ---------------------------------------------------------------- traces of logins

  predicate Succeeds(e: Event) { e.Login? && e.ok }

  /** Failed logins since the last one that succeeded. */
  function FailedSince(trace: seq<Event>): nat {
    if trace == [] then 0
    else
      var e, before := trace[|trace| - 1], FailedSince(trace[..|trace| - 1]);
      if Succeeds(e) then 0 else if e.Login? then before + 1 else before
  }

  /** Whether the target said "rate limit" since the last login that succeeded. */
  predicate LimitedSince(trace: seq<Event>) {
    trace != [] &&
    var e := trace[|trace| - 1];
    !Succeeds(e) && (e.Limited? || e.limited || LimitedSince(trace[..|trace| - 1]))
  }

  /** The breaker has opened and no login has succeeded since. */
  predicate Tripped(trace: seq<Event>) {
    FailedSince(trace) >= 5 || LimitedSince(trace)
  }

  lemma Snoc(trace: seq<Event>, e: Event)
    ensures FailedSince(trace + [e]) ==
      if Succeeds(e) then 0 else if e.Login? then FailedSince(trace) + 1 else FailedSince(trace)
    ensures LimitedSince(trace + [e]) == (!Succeeds(e) && (e.Limited? || e.limited || LimitedSince(trace)))
  {
    assert (trace + [e])[..|trace|] == trace;
  }

  /** Only a successful login closes the breaker again. */
  lemma {:induction false} TrippedPersists(trace: seq<Event>, i: nat)
    requires i <= |trace| && Tripped(trace[..i])
    requires forall j :: i <= j < |trace| ==> !Succeeds(trace[j])
    ensures Tripped(trace)
    decreases |trace| - i
  {
    if i == |trace| {
      assert trace[..i] == trace;
    } else {
      assert trace[..i + 1] == trace[..i] + [trace[i]];
      Snoc(trace[..i], trace[i]);
      TrippedPersists(trace, i + 1);
    }
  }

  /** Any two logins are a cooldown apart. */
  ghost predicate CooledDown(trace: seq<Event>) {
    forall i, j :: 0 <= i < j < |trace| && trace[i].Login? && trace[j].Login? ==>
      trace[j].at - trace[i].at >= 15 * SECOND
  }

  /** No login succeeds strictly between events `i` and `k`. */
  ghost predicate NoSuccess(trace: seq<Event>, i: int, k: int) {
    forall j :: 0 <= i < j < k && j < |trace| ==> !Succeeds(trace[j])
  }

  /** Once the breaker opened, a login waits out the breaker's cooldown after every event before it. */
  ghost predicate Held(trace: seq<Event>) {
    forall i, k :: 0 <= i < k < |trace| && trace[k].Login? && Tripped(trace[..i + 1]) && NoSuccess(trace, i, k) ==>
      trace[k].at >= trace[i].at + 11 * 60 * SECOND
  }

  function LoginsIn(trace: seq<Event>, lo: int, hi: int): nat {
    if trace == [] then 0
    else
      var e, before := trace[|trace| - 1], LoginsIn(trace[..|trace| - 1], lo, hi);
      if e.Login? && lo <= e.at <= hi then before + 1 else before
  }

  /** Logins in the 60 seconds from `lo`, both ends included: the window the target counts over. */
  function LoginsInMinute(trace: seq<Event>, lo: int): nat {
    LoginsIn(trace, lo, lo + 60 * SECOND)
  }

  lemma {:induction false} LatestIn(trace: seq<Event>, lo: int, hi: int) returns (k: nat)
    requires CooledDown(trace) && LoginsIn(trace, lo, hi) > 0
    ensures k < |trace| && trace[k].Login? && trace[k].at <= hi
    ensures trace[k].at >= lo + (LoginsIn(trace, lo, hi) - 1) * RECONNECT_COOLDOWN
  {
    var n := |trace| - 1;
    var e, front := trace[n], trace[..n];
    assert forall i :: 0 <= i < n ==> front[i] == trace[i];
    if !(e.Login? && lo <= e.at <= hi) {
      k := LatestIn(front, lo, hi);
    } else {
      if LoginsIn(front, lo, hi) > 0 {
        var j := LatestIn(front, lo, hi);
        assert trace[n].at - trace[j].at >= RECONNECT_COOLDOWN;
      }
      k := n;
    }
  }

  /** Any 60-second window, both ends included, holds at most five logins; the target allows twenty. */
  lemma AtMostFiveLogins(trace: seq<Event>, lo: int)
    requires CooledDown(trace)
    ensures LoginsInMinute(trace, lo) <= 5
  {
    if LoginsIn(trace, lo, lo + 60 * SECOND) > 0 {
      var k := LatestIn(trace, lo, lo + 60 * SECOND);
    }
  }

  /** While the breaker is open, any window shorter than its cooldown holds at most one login. */
  lemma OneLoginWhileOpen(trace: seq<Event>, s: nat, i: nat, k: nat)
    requires Held(trace) && s <= i < k < |trace|
    requires trace[i].Login? && trace[k].Login?
    requires Tripped(trace[..s + 1]) && NoSuccess(trace, s, k)
    ensures trace[k].at - trace[i].at >= 11 * 60 * SECOND
  {
    assert NoSuccess(trace, i, k);
    assert Tripped(trace[..i + 1]) by {
      var t := trace[..i + 1];
      assert t[..s + 1] == trace[..s + 1];
      TrippedPersists(t, s + 1);
    }
  }

  // ---------------------------------------------------------------- the session

  /** The breaker's fields say what the trace says. */
  ghost predicate Tracks(trace: seq<Event>, lastTry: int, failures: nat, openUntil: int, clock: int) {
    && RECONNECT_COOLDOWN <= clock
    && (forall e :: e in trace ==> RECONNECT_COOLDOWN <= e.at <= clock)
    && (forall e :: e in trace && e.Login? ==> e.at <= lastTry)
    && (lastTry == 0 || RECONNECT_COOLDOWN <= lastTry <= clock)
    && (Tripped(trace) <==> failures >= BREAKER_THRESHOLD)
    && (!Tripped(trace) ==> failures == FailedSince(trace))
    && (Tripped(trace) ==> forall e :: e in trace ==> e.at + BREAKER_COOLDOWN <= openUntil)
  }

  ghost predicate Safe(trace: seq<Event>) {
    CooledDown(trace) && Held(trace)
  }

  /** A login the gate let through keeps every spacing promise. */
  lemma LoginSafe(trace: seq<Event>, lastTry: int, failures: nat, openUntil: int, clock: int, e: Event)
    requires Safe(trace) && Tracks(trace, lastTry, failures, openUntil, clock)
    requires e.Login? && e.at >= openUntil && e.at - lastTry >= RECONNECT_COOLDOWN
    ensures Safe(trace + [e])
  {
    var t, n := trace + [e], |trace|;
    assert forall i :: 0 <= i < n ==> t[i] == trace[i];
    assert CooledDown(t) by {
      forall i | 0 <= i < n && t[i].Login? ensures t[n].at - t[i].at >= RECONNECT_COOLDOWN { assert t[i] in trace; }
    }
    forall i, k | 0 <= i < k < |t| && t[k].Login? && Tripped(t[..i + 1]) && NoSuccess(t, i, k)
      ensures t[k].at >= t[i].at + BREAKER_COOLDOWN
    {
      assert t[..i + 1] == trace[..i + 1];
      if k < n {
        assert NoSuccess(trace, i, k) by {
          forall j | i < j < k ensures !Succeeds(trace[j]) { assert !Succeeds(t[j]); }
        }
      } else {
        forall j | i + 1 <= j < n ensures !Succeeds(trace[j]) { assert !Succeeds(t[j]); }
        TrippedPersists(trace, i + 1);
        assert trace[i] in trace;
      }
    }
  }

  lemma LimitedSafe(trace: seq<Event>, e: Event)
    requires Safe(trace) && e.Limited?
    ensures Safe(trace + [e])
  {
    var t, n := trace + [e], |trace|;
    assert forall i :: 0 <= i < n ==> t[i] == trace[i];
    forall i, k | 0 <= i < k < |t| && t[k].Login? && Tripped(t[..i + 1]) && NoSuccess(t, i, k)
      ensures t[k].at >= t[i].at + BREAKER_COOLDOWN
    {
      assert t[..i + 1] == trace[..i + 1];
      assert NoSuccess(trace, i, k) by { forall j | i < j < k ensures !Succeeds(trace[j]) { assert !Succeeds(t[j]); } }
    }
  }

  /** One more event, and the fields as `RecordFailure` or a fresh login leaves them. */
  lemma TracksOn(trace: seq<Event>, lastTry: int, failures: nat, openUntil: int, clock: int,
                 e: Event, end: int, failures': nat, openUntil': int)
    requires Tracks(trace, lastTry, failures, openUntil, clock)
    requires clock <= e.at <= end && RECONNECT_COOLDOWN <= e.at
    requires failures' == if Succeeds(e) then 0 else if e.Limited? || e.limited then BREAKER_THRESHOLD else failures + 1
    requires failures' >= BREAKER_THRESHOLD ==> openUntil' == end + BREAKER_COOLDOWN
    ensures Tracks(trace + [e], if e.Login? then e.at else lastTry, failures', openUntil', end)
  {
    var t := trace + [e];
    Snoc(trace, e);
    assert forall x :: x in t ==> x in trace || x == e;
    assert forall x :: x in trace ==> x.at <= e.at;
  }

  class NAS {
    var client: bool
    var lastTry: int
    var lastRead: int
    var failures: nat
    var openUntil: int

    ghost var trace: seq<Event>
    ghost var clock: int

    ghost predicate Valid()
      reads this
    {
      Tracks(trace, lastTry, failures, openUntil, clock) && Safe(trace)
    }

    constructor ()
      ensures Valid() && trace == [] && clock == RECONNECT_COOLDOWN && !client
    {
      client, lastTry, lastRead, failures, openUntil := false, 0, 0, 0, 0;
      trace, clock := [], RECONNECT_COOLDOWN;
    }

    /** Counts a failed connection and opens the circuit at the threshold. */
    method RecordFailure(limited: bool, now: int)
      modifies `failures, `openUntil
      ensures failures == if limited then 5 else old(failures) + 1
      ensures openUntil == if failures >= 5 then now + 11 * 60 * SECOND else old(openUntil)
    {
      if limited {
        failures := BREAKER_THRESHOLD;
      } else {
        failures := failures + 1;
      }
      if failures >= BREAKER_THRESHOLD {
        openUntil := now + BREAKER_COOLDOWN;
      }
    }

    /** Returns a live client, logging in only when cooldown and breaker both allow it. */
    method Connect(t: Readings, pingOk: bool, dial: Dial) returns (ok: bool)
      requires Valid() && Ordered(t) && clock <= t.idle
      modifies this
      ensures Valid() && clock == t.end
      ensures ok <==> client
      ensures trace == old(trace) ||
              trace == old(trace) + [Login(t.start, ok, dial.Refused? && dial.limited)]
      ensures trace != old(trace) ==>
              t.start >= old(openUntil) && t.start - old(lastTry) >= 15 * SECOND
      ensures old(client) && t.idle - old(lastRead) < 30 * SECOND ==> ok && trace == old(trace)
      ensures var live := old(client) && (t.idle - old(lastRead) < 30 * SECOND || pingOk);
        && (trace != old(trace) <==> !live && t.gate >= old(openUntil) && t.wait - old(lastTry) >= 15 * SECOND)
        && (ok <==> live || (trace != old(trace) && dial.Connects?))
      // A login that succeeds closes the breaker; one that fails counts; anything else leaves it alone.
      ensures lastTry == if trace != old(trace) then t.start else old(lastTry)
      ensures trace != old(trace) && ok ==> failures == 0 && openUntil == 0
      ensures trace != old(trace) && !ok ==>
        && failures == (if dial.Refused? && dial.limited then 5 else old(failures) + 1)
        && openUntil == (if failures >= 5 then t.end + 11 * 60 * SECOND else old(openUntil))
      ensures trace == old(trace) ==> failures == old(failures) && openUntil == old(openUntil)
      // The session was last known to be live when it was proven or made.
      ensures lastRead ==
        if trace != old(trace) && ok then t.end
        else if ok && t.idle - old(lastRead) >= 30 * SECOND then t.proven
        else old(lastRead)
    {
      hide Safe, Tripped;
      clock := t.end;
      if client {
        if t.idle - lastRead < IDLE_PROBE_AFTER { return true; }
        if pingOk {
          lastRead := t.proven;
          return true;
        }
        client := false;
      }
      if t.gate < openUntil { return false; }
      if t.wait - lastTry < RECONNECT_COOLDOWN { return false; }
      ok := LogIn(t, dial);
    }

    /** One login attempt, and what it does to the breaker. */
    method LogIn(t: Readings, dial: Dial) returns (ok: bool)
      requires Tracks(trace, lastTry, failures, openUntil, t.idle) && Safe(trace)
      requires Ordered(t) && clock == t.end && !client
      requires t.start >= openUntil && t.start - lastTry >= 15 * SECOND
      modifies this
      ensures Valid() && clock == t.end && client == ok
      ensures ok <==> dial.Connects?
      ensures trace == old(trace) + [Login(t.start, ok, dial.Refused? && dial.limited)]
      ensures lastTry == t.start && lastRead == if ok then t.end else old(lastRead)
      ensures ok ==> failures == 0 && openUntil == 0
      ensures !ok ==>
        && failures == (if dial.limited then 5 else old(failures) + 1)
        && openUntil == (if failures >= 5 then t.end + 11 * 60 * SECOND else old(openUntil))
    {
      hide Safe, Tripped;
      lastTry := t.start;
      ghost var e := Login(t.start, dial.Connects?, dial.Refused? && dial.limited);
      LoginSafe(trace, old(lastTry), failures, openUntil, t.idle, e);
      trace := trace + [e];
      if dial.Refused? {
        RecordFailure(dial.limited, t.end);
        TracksOn(old(trace), old(lastTry), old(failures), old(openUntil), t.idle, e, t.end, failures, openUntil);
        return false;
      }
      failures, openUntil := 0, 0;
      TracksOn(old(trace), old(lastTry), old(failures), old(openUntil), t.idle, e, t.end, failures, openUntil);
      client, lastRead := true, t.end;
      ok := true;
    }

    /** A rate-limit answer on a live session: the first half of classifying it. */
    method RateLimited(now: int)
      requires Valid() && clock <= now
      modifies this
      ensures Valid() && clock == now && client == old(client)
      ensures trace == old(trace) + [Limited(now)]
      ensures failures == 5 && openUntil == now + 11 * 60 * SECOND
      ensures lastTry == old(lastTry) && lastRead == old(lastRead)
    {
      hide Safe;
      clock := now;
      LimitedSafe(trace, Limited(now));
      trace := trace + [Limited(now)];
      RecordFailure(true, now);
      TracksOn(old(trace), lastTry, old(failures), old(openUntil), old(clock), Limited(now), now, failures, openUntil);
    }

    /** Forgets the session so that the next call reconnects. */
    method Drop()
      requires Valid()
      modifies `client
      ensures Valid() && !client
    {
      client := false;
    }

    /** An answered call: the session is known to be live. */
    method Answered(now: int)
      requires Valid() && clock <= now
      modifies `lastRead, `clock
      ensures Valid() && clock == now && lastRead == now
    {
      lastRead, clock := now, now;
    }

    /** Any interleaving of callers under a clock that never runs backwards. */
    method Run(steps: seq<Step>)
      requires Valid() && Timed(steps, clock)
      modifies this
      ensures Valid() && old(trace) <= trace
      ensures CooledDown(trace) && Held(trace)
      ensures forall lo :: LoginsInMinute(trace, lo) <= 5
    {
      for i := 0 to |steps|
        invariant Valid() && old(trace) <= trace
        invariant Timed(steps[i..], clock)
      {
        assert steps[i..][0] == steps[i] && steps[i..][1..] == steps[i + 1..];
        match steps[i]
        case Connect(t, pingOk, dial) => var _ := Connect(t, pingOk, dial);
        case RateLimited(now) => RateLimited(now);
        case Drop => Drop();
        case Answered(now) => Answered(now);
      }
      forall lo ensures LoginsInMinute(trace, lo) <= 5 { AtMostFiveLogins(trace, lo); }
    }
  }

  datatype Step =
    | Connect(t: Readings, pingOk: bool, dial: Dial)
    | RateLimited(now: int)
    | Drop
    | Answered(now: int)

  ghost predicate Timed(steps: seq<Step>, clock: int) {
    steps == [] ||
    match steps[0]
    case Connect(t, _, _) => clock <= t.idle && Ordered(t) && Timed(steps[1..], t.end)
    case RateLimited(now) => clock <= now && Timed(steps[1..], now)
    case Drop => Timed(steps[1..], clock)
    case Answered(now) => clock <= now && Timed(steps[1..], now)
  }
}
