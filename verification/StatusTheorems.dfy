/**
 What the status protocol promises over every run, for any number of sessions and any interleaving.
 */
module StatusTheorems {
  import opened Fragments
  import opened StatusSpec

  ghost predicate Reachable<Id(!new)>(st: State<Id>) {
    exists states, steps :: IsRun(states, steps) && states[|steps|] == st
  }

  lemma ReachableInv<Id(!new)>(st: State<Id>)
    requires Reachable(st)
    ensures Inv(st)
  {
    var states, steps :| IsRun(states, steps) && states[|steps|] == st;
    RunKeeps(states, steps, |steps|);
  }

  lemma ReachableStart<Id(!new)>()
    ensures Reachable(Start<Id>())
  {
    var states, steps: seq<Step<Id>> := [Start<Id>()], [];
    assert IsRun(states, steps);
  }

  lemma ReachableStep<Id(!new)>(st: State<Id>, step: Step<Id>)
    requires Reachable(st)
    ensures Reachable(Apply(st, step))
  {
    var states, steps :| IsRun(states, steps) && states[|steps|] == st;
    var states', steps' := states + [Apply(st, step)], steps + [step];
    forall k: nat | k < |steps'| ensures StepAt(states', steps', k) {
      assert k < |steps| ==> StepAt(states, steps, k);
    }
    assert IsRun(states', steps');
  }

  /** Whenever a session has nothing more to send, the last message it completed is the list of live
      sessions as it is now, in order. */
  lemma EventuallyConsistent<Id(!new)>(st: State<Id>, id: Id)
    requires Reachable(st) && id in st.sessions && !st.sessions[id].broken && st.sessions[id].walk.Idle?
    ensures var box := Assemble(st.sessions[id].frames);
            box.Some? && box.value.done != [] && box.value.done[|box.value.done| - 1] == Render(st.joins, st.live)
  {
    ReachableInv(st);
    assert Fine(st.live, st.joins, st.sessions[id]);
  }

  /** Every session's frames are legal fragments; a session with more to send has asked to; and the
      list walk never starts a callback without a next entry. */
  lemma FramesAreLegal<Id(!new)>(st: State<Id>, id: Id)
    requires Reachable(st) && id in st.sessions
    ensures Assemble(st.sessions[id].frames).Some?
    ensures !st.sessions[id].broken && !st.sessions[id].walk.Idle? ==> st.sessions[id].wantWrite
    ensures !st.sessions[id].broken && st.sessions[id].walk.Listing? ==> st.sessions[id].walkNext.Some?
  {
    ReachableInv(st);
    assert Fine(st.live, st.joins, st.sessions[id]);
  }

  // ---- once joins and leaves stop ---------------------------------------------------------------

  ghost function IndexOf<Id>(live: seq<Id>, id: Id): (i: nat)
    requires id in live
    ensures i < |live| && live[i] == id
  {
    var i :| 0 <= i < |live| && live[i] == id;
    i
  }

  /** How many more callbacks a session needs at most. */
  ghost function Remaining<Id>(live: seq<Id>, s: Session<Id>): nat {
    var again := if s.changedPartway then |live| + 2 else 0;
    match s.walk
    case Idle => 0
    case Initial => |live| + 2 + again
    case Listing =>
      if s.walkNext.Some? && s.walkNext.value in live then |live| - IndexOf(live, s.walkNext.value) + 1 + again
      else |live| + 4
    case Final => 1 + again
  }

  lemma TurnProgresses<Id>(live: seq<Id>, joins: nat, s: Session<Id>)
    requires Distinct(live) && live != [] && Good(live, joins, s)
    ensures !s.walk.Idle? ==> Remaining(live, Write(live, joins, s, true)) < Remaining(live, s)
    ensures s.walk.Idle? ==> Write(live, joins, s, true).walk.Idle?
  {
    if s.walk.Listing? && s.walkNext.value in live {
      NextIs(live, IndexOf(live, s.walkNext.value));
    }
  }

  function CountTurns<Id(==)>(turns: seq<Id>, id: Id): nat {
    if turns == [] then 0
    else CountTurns(turns[..|turns| - 1], id) + if turns[|turns| - 1] == id then 1 else 0
  }

  /** Only successful WRITEABLE callbacks, in the given order of sessions. */
  function RunTurns<Id(==)>(st: State<Id>, turns: seq<Id>): State<Id> {
    if turns == [] then st else Apply(RunTurns(st, turns[..|turns| - 1]), Turn(turns[|turns| - 1], true))
  }

  lemma TurnStep<Id>(st: State<Id>, turn: Id, id: Id)
    requires Inv(st) && id in st.sessions && !st.sessions[id].broken
    ensures var r := Apply(st, Turn(turn, true));
            && Inv(r) && r.live == st.live && r.joins == st.joins
            && id in r.sessions && !r.sessions[id].broken
            && (r.sessions[id].walk.Idle?
                || Remaining(st.live, r.sessions[id]) + (if turn == id then 1 else 0)
                   <= Remaining(st.live, st.sessions[id]))
            && (st.sessions[id].walk.Idle? ==> r.sessions[id].walk.Idle?)
  {
    ApplyKeeps(st, Turn(turn, true));
    if turn == id {
      assert Fine(st.live, st.joins, st.sessions[id]);
      TurnProgresses(st.live, st.joins, st.sessions[id]);
    }
  }

  lemma {:induction false} TurnsProgress<Id>(st: State<Id>, turns: seq<Id>, id: Id)
    requires Inv(st) && id in st.sessions && !st.sessions[id].broken
    ensures var r := RunTurns(st, turns);
            && Inv(r) && r.live == st.live && r.joins == st.joins
            && id in r.sessions && !r.sessions[id].broken
            && (Remaining(r.live, r.sessions[id]) + CountTurns(turns, id) <= Remaining(st.live, st.sessions[id])
                || r.sessions[id].walk.Idle?)
  {
    if turns != [] {
      var before, last := turns[..|turns| - 1], turns[|turns| - 1];
      TurnsProgress(st, before, id);
      TurnStep(RunTurns(st, before), last, id);
    }
  }

  /** When no one joins or leaves any more, a session is up to date after at most 2n + 4 of its own
      callbacks for n live sessions, however the others' are interleaved. */
  lemma Settles<Id(!new)>(st: State<Id>, turns: seq<Id>, id: Id)
    requires Reachable(st) && id in st.sessions && !st.sessions[id].broken
    requires 2 * |st.live| + 4 <= CountTurns(turns, id)
    ensures var r := RunTurns(st, turns);
            && id in r.sessions && r.sessions[id].walk.Idle? && r.live == st.live
            && var box := Assemble(r.sessions[id].frames);
               box.Some? && box.value.done != [] && box.value.done[|box.value.done| - 1] == Render(st.joins, st.live)
  {
    ReachableInv(st);
    TurnsProgress(st, turns, id);
    var r := RunTurns(st, turns);
    assert Fine(r.live, r.joins, r.sessions[id]);
  }

  // ---- where the text falls short ---------------------------------------------------------------

  /** Over every run, a message a session was sent is well formed exactly unless the entry to come next had
      left after another was written: then the comma was already out. */
  lemma WellFormedIff<Id(!new)>(st: State<Id>, id: Id, k: nat)
    requires Reachable(st) && id in st.sessions
    ensures var s := st.sessions[id]; var box := Assemble(s.frames);
            && box.Some? && |s.faulty| == |box.value.done|
            && (k < |box.value.done| ==> (WellFormed(box.value.done[k]) <==> !s.faulty[k]))
  {
    ReachableInv(st);
    assert Fine(st.live, st.joins, st.sessions[id]);
  }

  lemma TwoSessions() returns (st: State<nat>)
    ensures Reachable(st) && st.live == [7, 5] && st.joins == 2 && {5, 7} <= st.sessions.Keys
    ensures st.sessions[7] == Nudge(Newcomer(), Head([7, 5]))
  {
    ReachableStart<nat>();
    st := Apply(Start<nat>(), Join(5));
    ReachableStep(Start<nat>(), Join(5));
    assert st.live == [5] && st.sessions.Keys == {5} && st.joins == 1;
    ReachableStep(st, Join(7));
    st := Apply(st, Join(7));
  }

  lemma OneLeaves(st: State<nat>) returns (r: State<nat>)
    requires Reachable(st) && st.live == [7, 5] && {5, 7} <= st.sessions.Keys
    ensures Reachable(r) && r.live == [7] && 7 in r.sessions && r.sessions[7] == Nudge(st.sessions[7], Head([7]))
  {
    ReachableStep(st, Leave(5));
    r := Apply(st, Leave(5));
    assert Without([7, 5], 5) == [7];
  }

  /** It happens: of two sessions, the one next in line for the other leaves. */
  lemma StrayCommaReachable() returns (st: State<nat>)
    ensures Reachable(st) && 7 in st.sessions && st.sessions[7].faulty == [true]
  {
    var s;
    st := TwoSessions();
    assert [7, 5][1..] == [5];
    st, s := TakeTurn(st, 7, st.sessions[7]);
    st, s := TakeTurn(st, 7, s);
    assert s.walk.Listing? && s.walkNext == Head([5]) && s.subsequent && s.faulty == [];
    st := OneLeaves(st);
    st, s := TakeTurn(st, 7, st.sessions[7]);
    assert s.walk.Final? && s.dangling && s.faulty == [];
    st, s := TakeTurn(st, 7, s);
  }

  lemma TakeTurn<Id(!new)>(st: State<Id>, id: Id, s: Session<Id>) returns (r: State<Id>, t: Session<Id>)
    requires Reachable(st) && id in st.sessions && st.sessions[id] == s && !s.broken
    ensures Reachable(r) && t == Write(st.live, st.joins, s, true)
    ensures id in r.sessions && r.sessions[id] == t && r.live == st.live
    ensures r.joins == st.joins && r.sessions.Keys == st.sessions.Keys
  {
    ReachableStep(st, Turn(id, true));
    r, t := Apply(st, Turn(id, true)), Write(st.live, st.joins, s, true);
  }

  /** Leave steps that took effect, among the first `k`. */
  ghost function Departures<Id>(states: seq<State<Id>>, steps: seq<Step<Id>>, k: nat): nat
    requires IsRun(states, steps) && k <= |steps|
  {
    if k == 0 then 0
    else
      Departures(states, steps, k - 1) +
      if steps[k - 1].Leave? && steps[k - 1].id in states[k - 1].sessions then 1 else 0
  }

  lemma {:induction false} WithoutLength<Id>(live: seq<Id>, id: Id)
    ensures |Without(live, id)| == if id in live then |live| - 1 else |live|
  {
    if live != [] && live[0] != id {
      WithoutLength(live[1..], id);
    }
  }

  /** The number of sessions told to clients counts the departed as well. */
  lemma {:induction false} HeaderCountsDeparted<Id>(states: seq<State<Id>>, steps: seq<Step<Id>>, k: nat)
    requires IsRun(states, steps) && k <= |steps|
    ensures states[k].joins == |states[k].live| + Departures(states, steps, k)
  {
    if k > 0 {
      HeaderCountsDeparted(states, steps, k - 1);
      RunKeeps(states, steps, k - 1);
      assert StepAt(states, steps, k - 1);
      StepCounts(states[k - 1], steps[k - 1]);
    }
  }

  lemma StepCounts<Id>(st: State<Id>, step: Step<Id>)
    requires Inv(st)
    ensures var r := Apply(st, step);
            r.joins - |r.live| == st.joins - |st.live| + if step.Leave? && step.id in st.sessions then 1 else 0
  {
    if step.Leave? {
      WithoutLength(st.live, step.id);
    }
  }
}
