/**
 Replay protection: every mutating call is remembered under its call id, and a handler asks
 for the remembered result before it does anything.
 */
module Idempotency {

  /** 30 days, in nanoseconds. */
  const TTL: int := 30 * 24 * 3600 * 1_000_000_000

  datatype Stored<R> =
    | Readable(at: int, kind: string, result: R)
    | Unreadable

  datatype Recalled<R> =
    | Absent
    | Hit(result: R)
    | KindMismatch
    | Broken

  type Entries<R> = map<string, Stored<R>>

  predicate Stale<R>(e: Stored<R>, now: int) {
    e.Readable? && now - e.at > TTL
  }

  function RecallFrom<R>(m: Entries<R>, callId: string, kind: string, now: int): Recalled<R> {
    if callId !in m then Absent
    else
      var e := m[callId];
      if e.Unreadable? then Broken
      else if Stale(e, now) then Absent
      else if e.kind != "" && e.kind != kind then KindMismatch
      else Hit(e.result)
  }

  function Swept<R>(m: Entries<R>, now: int): Entries<R> {
    map k | k in m && !Stale(m[k], now) :: m[k]
  }

  // ---------------------------------------------------------------- one handled call

  /** What running the call would come to; only a success is remembered. */
  datatype Fate<R> =
    | Succeeds(result: R)
    | ChangesNothing(result: R)
    | Fails
    | GateShut

  /** `storedAt` is the clock when the result is remembered, no earlier than `now`. */
  datatype Call<R> = Call(callId: string, kind: string, now: int, storedAt: int, fate: Fate<R>)

  const APPLY := "apply"
  const SET_PASSWORD := "operation:password.set"
  const ROTATE_PASSWORD := "operation:password.rotate"
  const PURGE := "operation:account.purge"
  const ADOPT := "operation:account.adopt"
  const RELEASE := "operation:account.release"

  /** The kinds the handlers gate and remember. */
  predicate Mutating(kind: string) {
    kind == APPLY || kind == SET_PASSWORD || kind == ROTATE_PASSWORD || kind == PURGE || kind == ADOPT
  }

  /** The kinds that change the target or the bindings. */
  predicate Alters(kind: string) {
    || kind == "apply" || kind == "operation:password.set" || kind == "operation:password.rotate"
    || kind == "operation:account.purge" || kind == "operation:account.adopt" || kind == "operation:account.release"
  }

  /** Every altering kind is gated and remembered, but for a release. */
  lemma OnlyReleaseIsForgotten(kind: string)
    ensures Mutating(kind) <==> Alters(kind) && kind != "operation:account.release"
  {
  }

  /** A stored result is past its window of 30 days. */
  predicate Expired<R>(e: Stored<R>, now: int) {
    e.Readable? && now - e.at > 30 * 86_400 * 1_000_000_000
  }

  datatype Answer<R> =
    | Replayed(result: R)
    | RefusedKind
    | RefusedBroken
    | RefusedGate
    | Ran(fate: Fate<R>)

  /** The answer to a call, asked for before anything else is looked at. */
  function AnswerTo<R>(m: Entries<R>, c: Call<R>): Answer<R> {
    match RecallFrom(m, c.callId, c.kind, c.now)
    case Broken => RefusedBroken
    case KindMismatch => RefusedKind
    case Hit(result) => Replayed(result)
    case Absent => if Mutating(c.kind) && c.fate.GateShut? then RefusedGate else Ran(c.fate)
  }

  predicate Remembered<R>(m: Entries<R>, c: Call<R>) {
    AnswerTo(m, c).Ran? && Mutating(c.kind) && c.fate.Succeeds?
  }

  function EntriesAfter<R>(m: Entries<R>, c: Call<R>): Entries<R> {
    if Remembered(m, c) then m[c.callId := Readable(c.storedAt, c.kind, c.fate.result)] else m
  }

  class Store<R> {
    var entries: Entries<R>
    /** The calls that were actually run, in order. */
    var ran: seq<string>

    constructor ()
      ensures entries == map[] && ran == []
    {
      entries, ran := map[], [];
    }

    method Remember(callId: string, kind: string, result: R, now: int)
      modifies `entries
      ensures entries == old(entries)[callId := Readable(now, kind, result)]
    {
      entries := entries[callId := Readable(now, kind, result)];
    }

    method Recall(callId: string, kind: string, now: int) returns (r: Recalled<R>)
      ensures r == RecallFrom(entries, callId, kind, now)
      ensures r.Absent? <==> callId !in entries || Expired(entries[callId], now)
      ensures r.Broken? <==> callId in entries && entries[callId].Unreadable?
      ensures r.Hit? ==> r.result == entries[callId].result
      ensures r.Hit? <==> !r.Absent? && !r.Broken? && entries[callId].kind in {"", kind}
    {
      if callId !in entries { return Absent; }
      var e := entries[callId];
      if e.Unreadable? { return Broken; }
      if now - e.at > TTL { return Absent; }
      if e.kind != "" && e.kind != kind { return KindMismatch; }
      r := Hit(e.result);
    }

    /** Collects the stale keys, then deletes them. */
    method Sweep(now: int) returns (removed: nat)
      modifies `entries
      ensures entries == Swept(old(entries), now)
      ensures forall k :: k in entries <==> k in old(entries) && !Expired(old(entries)[k], now)
      ensures forall k :: k in entries ==> entries[k] == old(entries)[k]
      ensures removed == |old(entries)| - |entries|
    {
      var stale: set<string>, left := {}, entries.Keys;
      while left != {}
        invariant left <= entries.Keys && stale <= entries.Keys && entries == old(entries)
        invariant forall k :: k in entries && k !in left ==> (k in stale <==> Stale(entries[k], now))
        invariant stale !! left
        decreases left
      {
        var k :| k in left;
        if Stale(entries[k], now) {
          stale := stale + {k};
        }
        left := left - {k};
      }
      removed := |stale|;
      entries := entries - stale;
      assert entries == Swept(old(entries), now);
      assert old(entries).Keys == entries.Keys + stale && entries.Keys !! stale;
    }

    /** The part of a handler that decides whether a call runs at all. */
    method Handle(c: Call<R>) returns (a: Answer<R>)
      modifies this
      ensures a == old(AnswerTo(entries, c)) && entries == old(EntriesAfter(entries, c))
      ensures ran == if a.Ran? then old(ran) + [c.callId] else old(ran)
      ensures a.Ran? <==>
        && (c.callId in old(entries) ==> Expired(old(entries)[c.callId], c.now))
        && !(Mutating(c.kind) && c.fate.GateShut?)
      ensures entries ==
        if a.Ran? && Mutating(c.kind) && c.fate.Succeeds?
        then old(entries)[c.callId := Readable(c.storedAt, c.kind, c.fate.result)] else old(entries)
    {
      var r := Recall(c.callId, c.kind, c.now);
      match r
      case Broken => return RefusedBroken;
      case KindMismatch => return RefusedKind;
      case Hit(result) => return Replayed(result);
      case Absent =>
        if Mutating(c.kind) && c.fate.GateShut? { return RefusedGate; }
        ran := ran + [c.callId];
        if Mutating(c.kind) && c.fate.Succeeds? {
          Remember(c.callId, c.kind, c.fate.result, c.storedAt);
        }
        a := Ran(c.fate);
    }

    method Take(e: Event<R>) returns (answered: seq<Answer<R>>)
      modifies this
      ensures entries == After(old(entries), e)
      ensures answered == if e.Arrives? then [AnswerTo(old(entries), e.call)] else []
      ensures ran ==
        if e.Arrives? && AnswerTo(old(entries), e.call).Ran? then old(ran) + [e.call.callId] else old(ran)
    {
      hide AnswerTo, EntriesAfter, Swept, Mutating, Expired;
      if e.Arrives? {
        var a := Handle(e.call);
        return [a];
      }
      var _ := Sweep(e.now);
      answered := [];
    }

    /** Calls and sweeps as they come. */
    method Serve(events: seq<Event<R>>) returns (answers: seq<Answer<R>>)
      modifies this
      ensures answers == Answers(old(entries), events)
      ensures entries == At(old(entries), events, |events|)
      ensures ran == old(ran) + RanIds(old(entries), events, |events|)
    {
      hide AnswerTo, After, Served;
      answers := [];
      ServedNone(entries, events, ran);
      for n := 0 to |events|
        invariant Served(old(entries), events, n, entries, answers, old(ran), ran)
      {
        ServedStep(old(entries), events, n, entries, answers, old(ran), ran);
        var answered := Take(events[n]);
        answers := answers + answered;
      }
      ServedAll(old(entries), events, entries, answers, old(ran), ran);
    }
  }

  // ---------------------------------------------------------------- runs

  datatype Event<R> =
    | Arrives(call: Call<R>)
    | Sweeps(now: int)

  function Start<R>(e: Event<R>): int { if e.Arrives? then e.call.now else e.now }

  function End<R>(e: Event<R>): int { if e.Arrives? then e.call.storedAt else e.now }

  /** Calls are handled one at a time under a clock that never runs backwards. */
  ghost predicate Timed<R>(events: seq<Event<R>>) {
    && (forall i :: 0 <= i < |events| ==> Start(events[i]) <= End(events[i]))
    && (forall i, j :: 0 <= i < j < |events| ==> End(events[i]) <= Start(events[j]))
  }

  function After<R>(m: Entries<R>, e: Event<R>): Entries<R> {
    if e.Arrives? then EntriesAfter(m, e.call) else Swept(m, e.now)
  }

  /** The entries before event `n`. */
  function At<R>(m: Entries<R>, events: seq<Event<R>>, n: nat): Entries<R>
    requires n <= |events|
  {
    if n == 0 then m else After(At(m, events, n - 1), events[n - 1])
  }

  /** The ids of the calls among the first `n` events that were actually run. */
  function RanIds<R>(m: Entries<R>, events: seq<Event<R>>, n: nat): seq<string>
    requires n <= |events|
  {
    if n == 0 then []
    else
      var e := events[n - 1];
      var before := RanIds(m, events, n - 1);
      if e.Arrives? && AnswerTo(At(m, events, n - 1), e.call).Ran? then before + [e.call.callId] else before
  }

  /** A remembered result stays put for its whole window. */
  lemma {:induction false} StaysRemembered<R>(m: Entries<R>, events: seq<Event<R>>, i: nat, j: nat)
    requires Timed(events) && i < j < |events|
    requires events[i].Arrives? && Remembered(At(m, events, i), events[i].call)
    requires Start(events[j]) - End(events[i]) <= 30 * 86_400 * 1_000_000_000
    ensures var c := events[i].call;
      var now := At(m, events, j);
      c.callId in now && now[c.callId] == Readable(c.storedAt, c.kind, c.fate.result)
    decreases j
  {
    if j > i + 1 {
      assert Start(events[j - 1]) <= End(events[j - 1]) <= Start(events[j]);
      StaysRemembered(m, events, i, j - 1);
    }
  }

  /**
   A call id replayed within the window gets the stored result and runs nothing; at another
   kind it is refused, and runs nothing either.
   */
  lemma ReplayIsSafe<R>(m: Entries<R>, events: seq<Event<R>>, i: nat, j: nat)
    requires Timed(events) && i < j < |events|
    requires events[i].Arrives? && Remembered(At(m, events, i), events[i].call)
    requires events[j].Arrives? && events[j].call.callId == events[i].call.callId
    requires events[j].call.now - events[i].call.storedAt <= 30 * 86_400 * 1_000_000_000
    ensures var c, d := events[i].call, events[j].call;
      AnswerTo(At(m, events, j), d) == if c.kind == "" || c.kind == d.kind then Replayed(c.fate.result) else RefusedKind
  {
    StaysRemembered(m, events, i, j);
  }

  /** The window is exact: past it, with nothing else in between, the call runs again. */
  lemma ReplayWindowEnds<R>(m: Entries<R>, c: Call<R>, d: Call<R>)
    requires Remembered(m, c) && d.callId == c.callId && d.now - c.storedAt > 30 * 86_400 * 1_000_000_000
    requires !(Mutating(d.kind) && d.fate.GateShut?)
    ensures AnswerTo(EntriesAfter(m, c), d) == Ran(d.fate)
  {
  }

  /** No call with this id is handled in between. */
  ghost predicate Unheard<R>(events: seq<Event<R>>, callId: string, i: int, j: int) {
    forall k :: 0 <= i < k < j && k < |events| && events[k].Arrives? ==> events[k].call.callId != callId
  }

  lemma {:induction false} StaysAbsent<R>(m: Entries<R>, events: seq<Event<R>>, i: nat, j: nat, callId: string)
    requires Timed(events) && i < j < |events| && Unheard(events, callId, i, j)
    requires Look(At(m, events, i + 1), callId, Start(events[i])).Absent?
    ensures Look(At(m, events, j), callId, Start(events[j])).Absent?
    decreases j
  {
    assert Start(events[i]) <= End(events[i]) <= Start(events[j]);
    if j > i + 1 {
      assert Start(events[j - 1]) <= End(events[j - 1]) <= Start(events[j]);
      StaysAbsent(m, events, i, j - 1, callId);
    }
  }

  /**
   Which replays within the window run again: exactly those of kinds that are never remembered.
   */
  lemma ReplayRunsIff<R>(m: Entries<R>, events: seq<Event<R>>, i: nat, j: nat)
    requires Timed(events) && i < j < |events| && events[i].Arrives? && events[j].Arrives?
    requires events[i].call.fate.Succeeds? && AnswerTo(At(m, events, i), events[i].call).Ran?
    requires events[j].call.callId == events[i].call.callId && events[j].call.kind == events[i].call.kind
    requires Unheard(events, events[i].call.callId, i, j) && events[j].call.now - events[i].call.storedAt <= TTL
    ensures AnswerTo(At(m, events, j), events[j].call).Ran? <==> !Mutating(events[i].call.kind)
  {
    if Mutating(events[i].call.kind) {
      ReplayIsSafe(m, events, i, j);
    } else {
      StaysAbsent(m, events, i, j, events[i].call.callId);
    }
  }

  /** One such replay changes something: a release that is sent twice is carried out twice. */
  lemma ReleaseRunsTwice<R>(result: R, callId: string)
    ensures var c := Call(callId, RELEASE, 0, 1, Succeeds(result));
      var d := c.(now := 2, storedAt := 3);
      Alters(RELEASE) && AnswerTo(map[], c).Ran? && AnswerTo(EntriesAfter(map[], c), d).Ran?
  {
  }

  // ---------------------------------------------------------------- sweeping shows in no answer

  /** What a call at time `t` or later can still see of an id. */
  function Look<R>(m: Entries<R>, callId: string, t: int): Recalled<Stored<R>> {
    if callId !in m || Stale(m[callId], t) then Absent else Hit(m[callId])
  }

  ghost predicate SameFrom<R>(m: Entries<R>, n: Entries<R>, t: int) {
    forall k :: Look(m, k, t) == Look(n, k, t)
  }

  lemma SameLater<R>(m: Entries<R>, n: Entries<R>, t: int, t': int)
    requires SameFrom(m, n, t) && t <= t'
    ensures SameFrom(m, n, t')
  {
    forall k ensures Look(m, k, t') == Look(n, k, t') { assert Look(m, k, t) == Look(n, k, t); }
  }

  lemma SameAnswer<R>(m: Entries<R>, n: Entries<R>, c: Call<R>)
    requires SameFrom(m, n, c.now) && c.now <= c.storedAt
    ensures AnswerTo(m, c) == AnswerTo(n, c)
    ensures SameFrom(EntriesAfter(m, c), EntriesAfter(n, c), c.now)
  {
    assert Look(m, c.callId, c.now) == Look(n, c.callId, c.now);
    forall k ensures Look(EntriesAfter(m, c), k, c.now) == Look(EntriesAfter(n, c), k, c.now) {
      assert Look(m, k, c.now) == Look(n, k, c.now);
    }
  }

  lemma SweepHidesNothing<R>(m: Entries<R>, n: Entries<R>, now: int)
    requires SameFrom(m, n, now)
    ensures SameFrom(Swept(m, now), n, now)
  {
    forall k ensures Look(Swept(m, now), k, now) == Look(n, k, now) { assert Look(m, k, now) == Look(n, k, now); }
  }

  function Answers<R>(m: Entries<R>, events: seq<Event<R>>): seq<Answer<R>>
    decreases |events|
  {
    if events == [] then []
    else
      var e := events[0];
      (if e.Arrives? then [AnswerTo(m, e.call)] else []) + Answers(After(m, e), events[1..])
  }

  /** What the first `n` events have come to: the entries, the answers still to be completed, the calls run. */
  ghost predicate Served<R>(m: Entries<R>, events: seq<Event<R>>, n: nat, entries: Entries<R>,
                            answers: seq<Answer<R>>, ran0: seq<string>, ran: seq<string>) {
    && n <= |events| && entries == At(m, events, n) && ran == ran0 + RanIds(m, events, n)
    && answers + Answers(entries, events[n..]) == Answers(m, events)
  }

  lemma ServedNone<R>(m: Entries<R>, events: seq<Event<R>>, ran: seq<string>)
    ensures Served(m, events, 0, m, [], ran, ran)
  {
    assert events[0..] == events;
  }

  lemma ServedAll<R>(m: Entries<R>, events: seq<Event<R>>, entries: Entries<R>, answers: seq<Answer<R>>,
                           ran0: seq<string>, ran: seq<string>)
    requires Served(m, events, |events|, entries, answers, ran0, ran)
    ensures answers == Answers(m, events) && entries == At(m, events, |events|)
    ensures ran == ran0 + RanIds(m, events, |events|)
  {
    assert Answers(entries, events[|events|..]) == [];
  }

  lemma ServedStep<R>(m: Entries<R>, events: seq<Event<R>>, n: nat, entries: Entries<R>,
                            answers: seq<Answer<R>>, ran0: seq<string>, ran: seq<string>)
    requires n < |events| && Served(m, events, n, entries, answers, ran0, ran)
    ensures var e := events[n];
      var answered := if e.Arrives? then [AnswerTo(entries, e.call)] else [];
      var ran' := if e.Arrives? && AnswerTo(entries, e.call).Ran? then ran + [e.call.callId] else ran;
      Served(m, events, n + 1, After(entries, e), answers + answered, ran0, ran')
  {
    var e := events[n];
    var answered := if e.Arrives? then [AnswerTo(entries, e.call)] else [];
    var rest := Answers(After(entries, e), events[n + 1..]);
    assert Answers(entries, events[n..]) == answered + rest by {
      assert events[n..][0] == e && events[n..][1..] == events[n + 1..];
    }
    hide AnswerTo, After, Answers;
    assert (answers + answered) + rest == answers + (answered + rest);
    assert forall before: seq<string>, id: string :: (ran0 + before) + [id] == ran0 + (before + [id]);
  }

  function WithoutSweeps<R>(events: seq<Event<R>>): seq<Event<R>> {
    if events == [] then []
    else if events[0].Arrives? then [events[0]] + WithoutSweeps(events[1..])
    else WithoutSweeps(events[1..])
  }

  /** Sweeps inserted anywhere change no answer. */
  lemma SweepsInvisible<R>(m: Entries<R>, events: seq<Event<R>>)
    requires Timed(events)
    ensures Answers(m, events) == Answers(m, WithoutSweeps(events))
  {
    var t := if events == [] then 0 else Start(events[0]);
    SameAnswers(m, m, events, t);
  }

  lemma {:induction false} SameAnswers<R>(m: Entries<R>, n: Entries<R>, events: seq<Event<R>>, t: int)
    requires Timed(events) && SameFrom(m, n, t)
    requires events != [] ==> t <= Start(events[0])
    ensures Answers(m, events) == Answers(n, WithoutSweeps(events))
    decreases |events|
  {
    if events != [] {
      var e, rest := events[0], events[1..];
      SameLater(m, n, t, Start(e));
      assert Timed(rest) && (rest != [] ==> Start(e) <= Start(rest[0]));
      if e.Arrives? {
        SameAnswer(m, n, e.call);
        SameAnswers(After(m, e), After(n, e), rest, Start(e));
        assert ([e] + WithoutSweeps(rest))[1..] == WithoutSweeps(rest);
      } else {
        SweepHidesNothing(m, n, e.now);
        SameAnswers(After(m, e), n, rest, Start(e));
      }
    }
  }
}
