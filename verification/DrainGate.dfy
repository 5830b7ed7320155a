/**
 The lifecycle gate: which mutations may start, how many are still running, and what it
 means for the add-on to have drained. Every step below is one critical section or one
 atomic access, so a sequence of steps is an interleaving of concurrent callers; `Drained`
 is two of them, a read of the state and a later read of the counter.
 */
module DrainGate {

  const ACTIVE := "active"
  const DRAINING := "draining"
  const READ_ONLY := "read_only"

  predicate Known(state: string) {
    state == ACTIVE || state == DRAINING || state == READ_ONLY
  }

  /** What a caller can have begun: tickets are numbered in the order they were handed out. */
  datatype Gate = Gate(state: string, reason: string, inFlight: int, begun: nat, finished: set<nat>)

  /** The mutations that have begun and not finished. */
  function Running(g: Gate): set<nat> {
    set t: nat | 0 <= t < g.begun && t !in g.finished
  }

  /** The counter counts exactly the running mutations. */
  ghost predicate Consistent(g: Gate) {
    && (forall t :: t in g.finished ==> t < g.begun)
    && g.inFlight == |Running(g)|
  }

  // ---------------------------------------------------------------- steps

  datatype Step =
    | Set(state: string, reason: string)
    | Begin
    | Done(ticket: nat)
    | ReadState(call: nat)
    | LoadCounter(call: nat)

  function AfterSet(g: Gate, state: string, reason: string): Gate {
    if Known(state) then g.(state := state, reason := reason) else g
  }

  function AfterBegin(g: Gate): Gate {
    if g.state == ACTIVE then g.(inFlight := g.inFlight + 1, begun := g.begun + 1) else g
  }

  /** The finishing function of one ticket. Calling it again does nothing. */
  function AfterDone(g: Gate, ticket: nat): Gate {
    if ticket < g.begun && ticket !in g.finished
    then g.(inFlight := g.inFlight - 1, finished := g.finished + {ticket})
    else g
  }

  function After(g: Gate, s: Step): Gate {
    match s
    case Set(state, reason) => AfterSet(g, state, reason)
    case Begin => AfterBegin(g)
    case Done(ticket) => AfterDone(g, ticket)
    case ReadState(_) => g
    case LoadCounter(_) => g
  }

  function Exec(g: Gate, steps: seq<Step>): Gate {
    if steps == [] then g else After(Exec(g, steps[..|steps| - 1]), steps[|steps| - 1])
  }

  class Lifecycle {
    var state: string
    var reason: string
    var inFlight: int

    ghost var begun: nat
    ghost var finished: set<nat>

    ghost function Snapshot(): Gate
      reads this
    {
      Gate(state, reason, inFlight, begun, finished)
    }

    /** An unrecognised configured state refuses into the safest one. */
    constructor (configured: string)
      ensures Consistent(Snapshot()) && inFlight == 0 && begun == 0 && finished == {}
      ensures state == if configured in {ACTIVE, DRAINING, READ_ONLY} then configured else READ_ONLY
    {
      if Known(configured) {
        state, reason := configured, "startup";
      } else {
        state, reason := READ_ONLY, "configured lifecycle state was not recognised";
      }
      inFlight, begun, finished := 0, 0, {};
      new;
      assert Running(Snapshot()) == {};
    }

    method Set(state: string, reason: string) returns (ok: bool)
      modifies `state, `reason
      ensures ok <==> state in {ACTIVE, DRAINING, READ_ONLY}
      ensures if ok then this.state == state && this.reason == reason else unchanged(this)
      ensures Snapshot() == old(AfterSet(Snapshot(), state, reason))
    {
      ok := state == ACTIVE || state == DRAINING || state == READ_ONLY;
      if ok {
        this.state, this.reason := state, reason;
      }
    }

    /** The check and the increment are one critical section. */
    method Begin() returns (done: DoneFunc?)
      modifies this
      ensures done != null <==> old(state) == ACTIVE
      ensures Snapshot() == old(AfterBegin(Snapshot()))
      ensures done != null ==> fresh(done) && done.life == this && done.ticket == old(begun) && !done.called
      ensures done != null && old(Consistent(Snapshot())) ==> done.Valid()
    {
      done := null;
      if state == ACTIVE {
        done := new DoneFunc(this, begun);
        inFlight := inFlight + 1;
        begun := begun + 1;
      }
    }

    /** Both reads of `Drained`, with nothing between them. */
    method Drained() returns (yes: bool)
      requires Consistent(Snapshot())
      ensures yes <==> state != ACTIVE && Running(Snapshot()) == {}
    {
      CardinalityOfRunning(Snapshot());
      yes := state != ACTIVE && inFlight == 0;
    }
  }

  /** The finishing function handed out with a ticket. It may be called any number of times. */
  class DoneFunc {
    const life: Lifecycle
    ghost const ticket: nat
    var called: bool

    ghost predicate Valid()
      reads this, life
    {
      ticket < life.begun && (called <==> ticket in life.finished)
    }

    constructor (life: Lifecycle, ghost ticket: nat)
      ensures this.life == life && this.ticket == ticket && !called
    {
      this.life, this.ticket, called := life, ticket, false;
    }

    method Call()
      requires Valid()
      modifies `called, life`inFlight, life`finished
      ensures Valid() && called
      ensures life.Snapshot() == old(AfterDone(life.Snapshot(), ticket))
    {
      if !called {
        called := true;
        life.inFlight := life.inFlight - 1;
        life.finished := life.finished + {ticket};
      }
    }
  }

  // ---------------------------------------------------------------- every interleaving

  lemma CardinalityOfRunning(g: Gate)
    requires Consistent(g)
    ensures g.inFlight >= 0
    ensures g.inFlight == 0 <==> Running(g) == {}
  {
  }

  lemma BeginConsistent(g: Gate)
    requires Consistent(g)
    ensures Consistent(AfterBegin(g))
  {
    var g' := AfterBegin(g);
    if g.state == ACTIVE {
      assert forall t :: t in Running(g') <==> t in Running(g) || t == g.begun;
      assert Running(g') == Running(g) + {g.begun};
    }
  }

  lemma DoneConsistent(g: Gate, ticket: nat)
    requires Consistent(g)
    ensures Consistent(AfterDone(g, ticket))
  {
    var g' := AfterDone(g, ticket);
    if g' != g {
      assert forall t :: t in Running(g') <==> t in Running(g) && t != ticket;
      assert Running(g) == Running(g') + {ticket};
    }
  }

  lemma StepConsistent(g: Gate, s: Step)
    requires Consistent(g)
    ensures Consistent(After(g, s))
  {
    match s
    case Begin => BeginConsistent(g);
    case Done(ticket) => DoneConsistent(g, ticket);
    case _ => assert Running(After(g, s)) == Running(g);
  }

  /** In-flight is the begun-and-unfinished mutations on every run, and never negative. */
  lemma {:induction false} InFlightExact(g: Gate, steps: seq<Step>)
    requires Consistent(g)
    ensures Consistent(Exec(g, steps)) && Exec(g, steps).inFlight >= 0
  {
    if steps != [] {
      InFlightExact(g, steps[..|steps| - 1]);
      StepConsistent(Exec(g, steps[..|steps| - 1]), steps[|steps| - 1]);
    }
  }

  predicate Activates(s: Step) {
    s.Set? && s.state == ACTIVE
  }

  ghost predicate NoActivation(steps: seq<Step>, i: int, j: int) {
    forall k :: 0 <= i <= k < j && k < |steps| ==> !Activates(steps[k])
  }

  /** The gate as it stands before step `n`. */
  function At(g: Gate, steps: seq<Step>, n: nat): Gate
    requires n <= |steps|
  {
    Exec(g, steps[..n])
  }

  /** A `Drained` call that read the state at step `i` and the counter at step `j` answers true. */
  ghost predicate AnswersDrained(g: Gate, steps: seq<Step>, i: nat, j: nat) {
    && i < j < |steps|
    && steps[i].ReadState? && steps[j].LoadCounter? && steps[i].call == steps[j].call
    && At(g, steps, i).state != ACTIVE
    && At(g, steps, j).inFlight == 0
  }

  lemma AtStep(g: Gate, steps: seq<Step>, n: nat)
    requires n < |steps|
    ensures At(g, steps, n + 1) == After(At(g, steps, n), steps[n])
  {
    assert steps[..n + 1][..n] == steps[..n];
  }

  /** A set to draining or read-only shuts the gate: no begin is admitted until the next set to active. */
  lemma SetShuts(g: Gate, steps: seq<Step>, i: nat, k: nat)
    requires i < k < |steps| && steps[i].Set? && steps[i].state in {DRAINING, READ_ONLY}
    requires NoActivation(steps, i + 1, k) && steps[k].Begin?
    ensures At(g, steps, k + 1) == At(g, steps, k) && At(g, steps, k + 1).begun == At(g, steps, i).begun
  {
    AtStep(g, steps, i);
    AtStep(g, steps, k);
    StaysShut(g, steps, i + 1, k);
  }

  /** A set to active opens it: until the next other known state, every begin is admitted and counted. */
  lemma {:induction false} SetOpens(g: Gate, steps: seq<Step>, i: nat, k: nat)
    requires i < k < |steps| && steps[i].Set? && steps[i].state == ACTIVE && steps[k].Begin?
    requires forall j :: i < j < k && steps[j].Set? ==> steps[j].state !in {DRAINING, READ_ONLY}
    ensures At(g, steps, k + 1).begun == At(g, steps, k).begun + 1
    ensures At(g, steps, k + 1).inFlight == At(g, steps, k).inFlight + 1
  {
    AtStep(g, steps, i);
    StaysOpen(g, steps, i + 1, k);
    AtStep(g, steps, k);
  }

  lemma {:induction false} StaysOpen(g: Gate, steps: seq<Step>, i: nat, k: nat)
    requires i <= k <= |steps| && At(g, steps, i).state == ACTIVE
    requires forall j :: i <= j < k && steps[j].Set? ==> steps[j].state !in {DRAINING, READ_ONLY}
    ensures At(g, steps, k).state == ACTIVE
    decreases k - i
  {
    if i < k {
      StaysOpen(g, steps, i, k - 1);
      AtStep(g, steps, k - 1);
    }
  }

  /** Nothing starts while nobody sets the state back to active. */
  lemma {:induction false} StaysShut(g: Gate, steps: seq<Step>, i: nat, k: nat)
    requires i <= k <= |steps| && At(g, steps, i).state != ACTIVE && NoActivation(steps, i, k)
    ensures At(g, steps, k).state != ACTIVE
    ensures Running(At(g, steps, k)) <= Running(At(g, steps, i))
    ensures At(g, steps, k).begun == At(g, steps, i).begun
    decreases k - i
  {
    if i < k {
      StaysShut(g, steps, i, k - 1);
      AtStep(g, steps, k - 1);
    }
  }

  /**
   If `Drained` answers true and nobody set the state to active since it read the state, no
   mutation is running, and none runs for as long as nobody does.
   */
  lemma DrainedIsStable(g: Gate, steps: seq<Step>, i: nat, j: nat, k: nat)
    requires Consistent(g) && AnswersDrained(g, steps, i, j)
    requires j <= k <= |steps| && NoActivation(steps, i, k)
    ensures Running(At(g, steps, k)) == {} && At(g, steps, k).state != ACTIVE
  {
    StaysShut(g, steps, i, j);
    StaysShut(g, steps, j, k);
    InFlightExact(g, steps[..j]);
    CardinalityOfRunning(At(g, steps, j));
  }

  /** Whatever follows, nothing runs unless somebody sets the state to active again. */
  ghost predicate Quiet(g: Gate, steps: seq<Step>, more: seq<Step>) {
    NoActivation(more, 0, |more|) ==> Running(Exec(g, steps + more)) == {}
  }

  /**
   A drained answer can be relied on exactly when the state was still not active as the counter
   was read: a reactivation between the two reads spoils it unless it was taken back by then.
   */
  lemma DrainedStableIff(g: Gate, steps: seq<Step>, i: nat, j: nat)
    requires Consistent(g) && AnswersDrained(g, steps, i, j) && |steps| == j + 1
    ensures (forall more :: Quiet(g, steps, more)) <==> At(g, steps, j).state != ACTIVE
  {
    InFlightExact(g, steps[..j]);
    CardinalityOfRunning(At(g, steps, j));
    AtStep(g, steps, j);
    assert steps[..j + 1] == steps;
    if At(g, steps, j).state != ACTIVE {
      forall more ensures Quiet(g, steps, more) {
        if NoActivation(more, 0, |more|) { QuietOn(g, steps, more); }
      }
    } else {
      assert (steps + [Begin])[..j + 1] == steps && NoActivation([Begin], 0, 1);
      assert Exec(g, steps + [Begin]) == AfterBegin(Exec(g, steps));
      assert Exec(g, steps).begun in Running(Exec(g, steps + [Begin]));
      assert !Quiet(g, steps, [Begin]);
    }
  }

  lemma QuietOn(g: Gate, steps: seq<Step>, more: seq<Step>)
    requires Exec(g, steps).state != ACTIVE && Running(Exec(g, steps)) == {} && NoActivation(more, 0, |more|)
    ensures Running(Exec(g, steps + more)) == {}
  {
    var all, n := steps + more, |steps|;
    assert all[..n] == steps && all[..|all|] == all;
    forall k | n <= k < |all| ensures !Activates(all[k]) { assert all[k] == more[k - n]; }
    StaysShut(g, all, n, |all|);
  }

  /**
   The condition is needed: a `Set(active)` between the two reads lets `Drained` answer true
   one step before a mutation starts.
   */
  lemma DrainedCanBeOvertaken(reason: string)
    ensures var g := Gate(DRAINING, reason, 0, 0, {});
      var steps := [ReadState(0), Set(ACTIVE, reason), LoadCounter(0), Begin];
      Consistent(g) && AnswersDrained(g, steps, 0, 2) && Running(At(g, steps, 4)) == {0}
  {
    var g := Gate(DRAINING, reason, 0, 0, {});
    var steps := [ReadState(0), Set(ACTIVE, reason), LoadCounter(0), Begin];
    assert Running(g) == {};
    AtStep(g, steps, 0);
    AtStep(g, steps, 1);
    AtStep(g, steps, 2);
    AtStep(g, steps, 3);
    assert At(g, steps, 0) == g && At(g, steps, 2) == g.(state := ACTIVE);
    assert At(g, steps, 4) == g.(state := ACTIVE, inFlight := 1, begun := 1);
  }

  /** The gate over any interleaving, each finishing function called by whoever holds it; `seen` is what reads saw. */
  method Play(configured: string, steps: seq<Step>)
    returns (life: Lifecycle, ghost start: Gate, seen: seq<(string, int)>)
    ensures Consistent(start) && start.begun == 0 && start.inFlight == 0
    ensures start.state == if Known(configured) then configured else READ_ONLY
    ensures life.Snapshot() == Exec(start, steps) && Consistent(life.Snapshot()) && |seen| == |steps|
    ensures forall n :: 0 <= n < |steps| ==> seen[n] == (At(start, steps, n).state, At(start, steps, n).inFlight)
  {
    hide Consistent, AfterBegin, AfterDone;
    life := new Lifecycle(configured);
    start, seen := life.Snapshot(), [];
    var held: seq<DoneFunc> := [];
    for n := 0 to |steps|
      invariant fresh(life) && life.Snapshot() == At(start, steps, n)
      invariant Consistent(life.Snapshot()) && |held| == life.begun
      invariant forall t :: 0 <= t < |held| ==>
        fresh(held[t]) && held[t].life == life && held[t].ticket == t && held[t].Valid()
      invariant |seen| == n
      invariant forall k :: 0 <= k < n ==> seen[k] == (At(start, steps, k).state, At(start, steps, k).inFlight)
    {
      AtStep(start, steps, n);
      StepConsistent(life.Snapshot(), steps[n]);
      seen := seen + [(life.state, life.inFlight)];
      match steps[n] {
        case Set(state, reason) => var _ := life.Set(state, reason);
        case Begin => held := Admit(life, held);
        case Done(ticket) => Finish(life, held, ticket);
        case ReadState(_) =>
        case LoadCounter(_) =>
      }
    }
    assert steps[..|steps|] == steps;
  }

  method Admit(life: Lifecycle, held: seq<DoneFunc>) returns (more: seq<DoneFunc>)
    requires |held| == life.begun
    requires forall t :: 0 <= t < |held| ==> held[t].life == life && held[t].ticket == t && held[t].Valid()
    requires Consistent(life.Snapshot())
    modifies life
    ensures life.Snapshot() == old(AfterBegin(life.Snapshot())) && |more| == life.begun && held <= more
    ensures forall t :: |held| <= t < |more| ==> fresh(more[t])
    ensures forall t :: 0 <= t < |more| ==> more[t].life == life && more[t].ticket == t && more[t].Valid()
  {
    var done := life.Begin();
    more := if done == null then held else held + [done];
  }

  method Finish(life: Lifecycle, held: seq<DoneFunc>, ticket: nat)
    requires |held| == life.begun
    requires forall t :: 0 <= t < |held| ==> held[t].life == life && held[t].ticket == t && held[t].Valid()
    modifies life, held
    ensures life.Snapshot() == old(AfterDone(life.Snapshot(), ticket)) && life.begun == old(life.begun)
    ensures forall t :: 0 <= t < |held| ==> held[t].Valid()
  {
    if ticket < |held| { held[ticket].Call(); }
  }
}
