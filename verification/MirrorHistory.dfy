/**
 Where what a mirror session is sent comes from, over every run: from the connections that asked for the
 same name, in the order their messages were accepted.
 */
module MirrorHistory {
  import opened Wrappers
  import opened MirrorSpec
  import opened MirrorRuns
  import opened MirrorTheorems
  import opened MirrorLaws

  // ---- one step ---------------------------------------------------------------------------------

  /** The step is a message that reaches instance `k`: from one of its working connections, while there is
      room and memory. */
  ghost predicate TakenAt(v: Vhost, step: Step, k: int) {
    && step.Received? && !step.oom && 0 <= k < |v.instances| && 0 < Free(v.instances[k])
    && exists j :: At(v, step.id, k, j) && !v.instances[k].sessions[j].broken
  }

  /** `r` is what the step makes of instance `k`. */
  ghost predicate Descends(v: Vhost, step: Step, k: nat, r: Instance) {
    && k < |v.instances| && r.name == v.instances[k].name && r.founder == v.instances[k].founder
    && r.log == v.instances[k].log + (if TakenAt(v, step, k) then [Msg(v.nextPayload, step.text)] else [])
    && forall j :: 0 <= j < |r.sessions| ==> HasRoot(v, step, k, r.sessions[j].id)
  }

  /** The connection was in instance `k` already, or has just joined it by its name. */
  ghost predicate HasRoot(v: Vhost, step: Step, k: nat, id: nat) {
    || (exists j :: At(v, id, k, j))
    || (step.Established? && step.id == id && id !in v.seen && k < |v.instances| && v.instances[k].name == step.name)
  }

  /** `r` was created by the step. */
  ghost predicate Founded(v: Vhost, step: Step, r: Instance) {
    && step.Established? && step.id !in v.seen && r.founder == step.id && r.log == []
    && r.name == StoredName(step.name) && forall j :: 0 <= j < |r.sessions| ==> r.sessions[j].id == step.id
  }

  lemma Unchanged(v: Vhost, step: Step, k: nat)
    requires k < |v.instances| && !TakenAt(v, step, k)
    ensures Descends(v, step, k, v.instances[k])
  {
    assert forall j :: 0 <= j < |v.instances[k].sessions| ==> At(v, v.instances[k].sessions[j].id, k, j);
  }

  lemma ElsewhereNotTaken(v: Vhost, step: Step, i: nat, j: nat, k: nat)
    requires Inv(v) && At(v, step.id, i, j) && k != i
    ensures !TakenAt(v, step, k)
  {
    if TakenAt(v, step, k) {
      var j' :| At(v, step.id, k, j') && !v.instances[k].sessions[j'].broken;
      SamePlace(v, step.id, i, j, k, j');
    }
  }

  lemma Rooted(v: Vhost, step: Step, i: nat, r: Instance)
    requires i < |v.instances| && r.name == v.instances[i].name && r.founder == v.instances[i].founder
    requires r.log == v.instances[i].log + (if TakenAt(v, step, i) then [Msg(v.nextPayload, step.text)] else [])
    requires forall k :: 0 <= k < |r.sessions| ==> r.sessions[k].id in Ids(v.instances[i].sessions)
    ensures Descends(v, step, i, r)
  {
    var ids := Ids(v.instances[i].sessions);
    forall k | 0 <= k < |r.sessions| ensures HasRoot(v, step, i, r.sessions[k].id) {
      var j :| 0 <= j < |ids| && ids[j] == r.sessions[k].id;
      assert At(v, r.sessions[k].id, i, j);
    }
  }

  lemma RestRooted(v: Vhost, id: nat, i: nat, j: nat, r: Instance)
    requires At(v, id, i, j) && |v.instances[i].sessions| > 1
    requires var m := v.instances[i]; Reconfirmed(m.(sessions := m.sessions[..j] + m.sessions[j + 1..]), r)
    ensures Descends(v, Closed(id), i, r)
  {
    var m := v.instances[i];
    forall k | 0 <= k < |r.sessions| ensures r.sessions[k].id in Ids(m.sessions) {
      assert r.sessions[k].id == Ids(m.sessions)[if k < j then k else k + 1];
    }
    Rooted(v, Closed(id), i, r);
  }

  lemma AfterClose(v: Vhost, id: nat, i: nat, j: nat)
    requires Reachable(v) && Inv(v) && At(v, id, i, j) && |v.instances[i].sessions| > 1
    ensures OnlyAt(v, Apply(v, Closed(id)), i) && Descends(v, Closed(id), i, Apply(v, Closed(id)).instances[i])
  {
    ClosedLaw(v, id, i, j);
    RestRooted(v, id, i, j, Apply(v, Closed(id)).instances[i]);
  }

  lemma AfterReceive(v: Vhost, step: Step, i: nat, j: nat)
    requires Reachable(v) && Inv(v) && step.Received? && At(v, step.id, i, j) && !v.instances[i].sessions[j].broken
    ensures OnlyAt(v, Apply(v, step), i) && Descends(v, step, i, Apply(v, step).instances[i])
  {
    ReceivedLaw(v, step.id, step.text, step.oom, i, j);
    TakenIff(v, step, i, j);
    var m, r := v.instances[i], Apply(v, step).instances[i];
    forall k | 0 <= k < |r.sessions| ensures r.sessions[k].id in Ids(m.sessions) {
      assert r.sessions[k].id == Ids(m.sessions)[k];
    }
    Rooted(v, step, i, r);
  }

  lemma AfterWrite(v: Vhost, id: nat, pipe: Pipe, i: nat, j: nat)
    requires Reachable(v) && Inv(v) && At(v, id, i, j) && !v.instances[i].sessions[j].broken
    ensures var w := Apply(v, ServerWriteable(id, pipe));
            OnlyAt(v, w, i) && Descends(v, ServerWriteable(id, pipe), i, w.instances[i])
  {
    var t, n := WrittenAtLaw(v, id, pipe, i, j);
    var m, r := v.instances[i], Apply(v, ServerWriteable(id, pipe)).instances[i];
    forall k | 0 <= k < |r.sessions| ensures r.sessions[k].id in Ids(m.sessions) {
      assert r.sessions[k].id == Ids(m.sessions)[k];
    }
    Rooted(v, ServerWriteable(id, pipe), i, r);
  }

  lemma AfterCallback(v: Vhost, step: Step, i: nat, j: nat)
    requires Reachable(v) && Inv(v) && !step.Established? && At(v, step.id, i, j)
    requires step.Closed? ==> |v.instances[i].sessions| > 1
    ensures OnlyAt(v, Apply(v, step), i) && Descends(v, step, i, Apply(v, step).instances[i])
  {
    if step.Closed? {
      AfterClose(v, step.id, i, j);
    } else if v.instances[i].sessions[j].broken {
      CallbackAt(v, i, j, step);
      TakenIff(v, step, i, j);
      Unchanged(v, step, i);
    } else if step.Received? {
      AfterReceive(v, step, i, j);
    } else {
      AfterWrite(v, step.id, step.pipe, i, j);
    }
  }

  lemma OtherOrigin(v: Vhost, w: Vhost, step: Step, i0: nat, j0: nat, i: nat)
    requires Inv(v) && At(v, step.id, i0, j0) && OnlyAt(v, w, i0) && Descends(v, step, i0, w.instances[i0])
    requires i < |w.instances|
    ensures Descends(v, step, i, w.instances[i])
  {
    if i != i0 {
      ElsewhereNotTaken(v, step, i0, j0, i);
      Unchanged(v, step, i);
    }
  }

  lemma RetiredOrigin(v: Vhost, w: Vhost, step: Step, i0: nat, i: nat) returns (k: nat)
    requires step.Closed? && i0 < |v.instances| && w.instances == v.instances[..i0] + v.instances[i0 + 1..]
    requires i < |w.instances|
    ensures Descends(v, step, k, w.instances[i])
  {
    k := if i < i0 then i else i + 1;
    assert w.instances[i] == v.instances[k];
    Unchanged(v, step, k);
  }

  /** Instance `i` after a callback of a connection in instance `i0`. */
  lemma CallbackOrigin(v: Vhost, step: Step, i0: nat, j0: nat, i: nat) returns (k: nat)
    requires Reachable(v) && Inv(v) && !step.Established? && At(v, step.id, i0, j0)
    requires i < |Apply(v, step).instances|
    ensures Descends(v, step, k, Apply(v, step).instances[i])
  {
    if step.Closed? && |v.instances[i0].sessions| == 1 {
      ClosedLaw(v, step.id, i0, j0);
      k := RetiredOrigin(v, Apply(v, step), step, i0, i);
    } else {
      AfterCallback(v, step, i0, j0);
      OtherOrigin(v, Apply(v, step), step, i0, j0, i);
      k := i;
    }
  }

  lemma TakenIff(v: Vhost, step: Step, i: nat, j: nat)
    requires Inv(v) && At(v, step.id, i, j)
    ensures TakenAt(v, step, i) <==>
            step.Received? && !step.oom && 0 < Free(v.instances[i]) && !v.instances[i].sessions[j].broken
  {
    if TakenAt(v, step, i) {
      var j' :| At(v, step.id, i, j') && !v.instances[i].sessions[j'].broken;
      SamePlace(v, step.id, i, j, i, j');
    }
  }

  lemma JoinedOrigin(v: Vhost, w: Vhost, step: Step, f: nat, i: nat)
    requires step.Established? && step.id !in v.seen && Admitted(v, w, step.id, step.name, step.oom)
    requires IsFirst(v.instances, step.name, f) && i < |w.instances|
    ensures Descends(v, step, i, w.instances[i])
  {
    var m, r := v.instances[i], w.instances[i];
    if i == f {
      forall j | 0 <= j < |r.sessions| ensures HasRoot(v, step, i, r.sessions[j].id) {
        if j > 0 {
          assert r.sessions[1..][j - 1] == m.sessions[j - 1];
          assert At(v, r.sessions[j].id, i, j - 1);
        }
      }
      assert m.log + [] == m.log;
    } else {
      Unchanged(v, step, i);
    }
  }

  lemma JoinOrigin(v: Vhost, w: Vhost, step: Step, i: nat) returns (k: int)
    requires step.Established? && step.id !in v.seen && Admitted(v, w, step.id, step.name, step.oom)
    requires i < |w.instances|
    ensures if k < 0 then Founded(v, step, w.instances[i]) else Descends(v, step, k, w.instances[i])
  {
    if f :| IsFirst(v.instances, step.name, f) {
      k := i;
      JoinedOrigin(v, w, step, f, i);
    } else {
      k := if |v.instances| < MAX_MIRROR_INSTANCES && !step.oom then i - 1 else i;
      if 0 <= k {
        assert k < i ==> w.instances[1..][k] == w.instances[i];
        Unchanged(v, step, k);
      }
    }
  }

  /** Every instance is one there was before, with the message that reached it, or was created now. */
  lemma Origin(v: Vhost, step: Step, i: nat) returns (k: int)
    requires Reachable(v) && Inv(v) && i < |Apply(v, step).instances|
    ensures if k < 0 then Founded(v, step, Apply(v, step).instances[i])
            else Descends(v, step, k, Apply(v, step).instances[i])
  {
    if step.Established? && step.id !in v.seen {
      EstablishedLaw(v, step.id, step.name, step.oom);
      k := JoinOrigin(v, Apply(v, step), step, i);
    } else if !step.Established? && step.id in v.open {
      var i0, j0 := PlaceOf(v, step.id);
      k := CallbackOrigin(v, step, i0, j0, i);
    } else {
      k := i;
      NobodyThere(v, step);
      Unchanged(v, step, i);
    }
  }

  lemma NobodyThere(v: Vhost, step: Step)
    requires Inv(v) && if step.Established? then step.id in v.seen else step.id !in v.open
    ensures Apply(v, step) == v && forall k :: !TakenAt(v, step, k)
  {
    forall i, j | At(v, step.id, i, j) ensures step.id in v.open {
      ListedIsOpen(v, i, j);
    }
    HomeIsOpen(v, step.id);
  }

  lemma HomeIsOpen(v: Vhost, id: nat)
    requires Inv(v)
    ensures InstanceOf(v.instances, id).Some? ==> id in v.open
  {
    if InstanceOf(v.instances, id).Some? {
      var i := InstanceOf(v.instances, id).value;
      ListedIsOpen(v, i, IndexOf(v.instances[i].sessions, id).value);
    }
  }

  // ---- over every run ---------------------------------------------------------------------------

  /** Every instance has a founder of its own. */
  ghost predicate OwnFounders(v: Vhost) {
    && (forall i :: 0 <= i < |v.instances| ==> v.instances[i].founder in v.seen)
    && (forall i, j :: 0 <= i < j < |v.instances| ==> v.instances[i].founder != v.instances[j].founder)
  }

  lemma FoundersKept(v: Vhost, w: Vhost, i: nat)
    requires OwnFounders(v) && i < |v.instances| && OnlyAt(v, w, i) && v.seen <= w.seen
    requires w.instances[i].founder == v.instances[i].founder
    ensures OwnFounders(w)
  {
    assert forall k :: 0 <= k < |v.instances| ==> w.instances[k].founder == v.instances[k].founder;
  }

  lemma RestFounders(v: Vhost, w: Vhost, i: nat)
    requires OwnFounders(v) && i < |v.instances| && v.seen <= w.seen
    requires w.instances == v.instances[..i] + v.instances[i + 1..]
    ensures OwnFounders(w)
  {
    assert forall k :: 0 <= k < |w.instances| ==> w.instances[k] == v.instances[if k < i then k else k + 1];
  }

  lemma CallbackFounders(v: Vhost, step: Step, i: nat, j: nat)
    requires Reachable(v) && Inv(v) && OwnFounders(v) && !step.Established? && At(v, step.id, i, j)
    ensures OwnFounders(Apply(v, step)) && v.seen <= Apply(v, step).seen
  {
    SeenAfter(v, step);
    if step.Closed? && |v.instances[i].sessions| == 1 {
      ClosedLaw(v, step.id, i, j);
      RestFounders(v, Apply(v, step), i);
    } else {
      AfterCallback(v, step, i, j);
      FoundersKept(v, Apply(v, step), i);
    }
  }

  lemma JoinFounders(v: Vhost, w: Vhost, id: nat, name: string, oom: bool)
    requires OwnFounders(v) && id !in v.seen && Admitted(v, w, id, name, oom)
    ensures OwnFounders(w)
  {
    if f :| IsFirst(v.instances, name, f) {
      FoundersKept(v, w, f);
    } else if |v.instances| < MAX_MIRROR_INSTANCES && !oom {
      assert forall k :: 0 < k < |w.instances| ==> w.instances[k] == w.instances[1..][k - 1];
    }
  }

  lemma FoundersKeep(v: Vhost, step: Step)
    requires Reachable(v) && Inv(v) && OwnFounders(v)
    ensures OwnFounders(Apply(v, step)) && v.seen <= Apply(v, step).seen
  {
    if step.Established? && step.id !in v.seen {
      EstablishedLaw(v, step.id, step.name, step.oom);
      JoinFounders(v, Apply(v, step), step.id, step.name, step.oom);
    } else if !step.Established? && step.id in v.open {
      var i, j := PlaceOf(v, step.id);
      CallbackFounders(v, step, i, j);
    } else {
      NobodyThere(v, step);
    }
  }

  lemma RunReaches(states: seq<Vhost>, steps: seq<Step>, k: nat)
    requires IsRun(states, steps) && k <= |steps|
    ensures Reachable(states[k]) && Inv(states[k])
  {
    RunKeeps(states, steps, k);
    var ss, ts := states[..k + 1], steps[..k];
    forall n: nat | n < k ensures StepAt(ss, ts, n) {
      assert StepAt(states, steps, n);
    }
    assert IsRun(ss, ts) && ss[|ts|] == states[k];
  }

  lemma {:induction false} RunFounders(states: seq<Vhost>, steps: seq<Step>, k: nat)
    requires IsRun(states, steps) && k <= |steps|
    ensures OwnFounders(states[k])
  {
    if k > 0 {
      RunFounders(states, steps, k - 1);
      RunReaches(states, steps, k - 1);
      StepFounders(states, steps, k - 1);
    }
  }

  lemma StepFounders(states: seq<Vhost>, steps: seq<Step>, k: nat)
    requires IsRun(states, steps) && k < |steps| && Reachable(states[k]) && OwnFounders(states[k])
    ensures OwnFounders(states[k + 1]) && states[k].seen <= states[k + 1].seen
  {
    assert StepAt(states, steps, k);
    FoundersKeep(states[k], steps[k]);
  }

  lemma StepOrigin(states: seq<Vhost>, steps: seq<Step>, k: nat, i: nat) returns (c: int)
    requires IsRun(states, steps) && k < |steps| && i < |states[k + 1].instances|
    ensures if c < 0 then Founded(states[k], steps[k], states[k + 1].instances[i])
            else Descends(states[k], steps[k], c, states[k + 1].instances[i])
  {
    RunReaches(states, steps, k);
    assert StepAt(states, steps, k);
    c := Origin(states[k], steps[k], i);
  }

  lemma StepSeen(states: seq<Vhost>, steps: seq<Step>, k: nat)
    requires IsRun(states, steps) && k < |steps|
    ensures states[k + 1].seen == if steps[k].Established? then states[k].seen + {steps[k].id} else states[k].seen
  {
    RunReaches(states, steps, k);
    assert StepAt(states, steps, k);
    SeenAfter(states[k], steps[k]);
  }

  /** The step is a message that reaches the instance `founder` created. */
  ghost predicate Reaches(v: Vhost, step: Step, founder: nat) {
    exists k :: TakenAt(v, step, k) && v.instances[k].founder == founder
  }

  /** The texts that reached the instance, in the order they came. */
  ghost function Heard(states: seq<Vhost>, steps: seq<Step>, founder: nat, k: nat): seq<string>
    requires IsRun(states, steps) && k <= |steps|
  {
    if k == 0 then []
    else
      Heard(states, steps, founder, k - 1) +
      if Reaches(states[k - 1], steps[k - 1], founder) then [steps[k - 1].text] else []
  }

  function TextsOf(log: seq<Msg>): (r: seq<string>)
    ensures |r| == |log| && forall i :: 0 <= i < |log| ==> r[i] == log[i].text
  {
    seq(|log|, i requires 0 <= i < |log| => log[i].text)
  }

  lemma {:induction false} NothingHeard(states: seq<Vhost>, steps: seq<Step>, founder: nat, k: nat)
    requires IsRun(states, steps) && k <= |steps| && founder !in states[k].seen
    ensures Heard(states, steps, founder, k) == []
  {
    if k > 0 {
      StepSeen(states, steps, k - 1);
      NothingHeard(states, steps, founder, k - 1);
      RunFounders(states, steps, k - 1);
    }
  }

  lemma TextsAfter(v: Vhost, step: Step, c: nat, r: Instance)
    requires OwnFounders(v) && Descends(v, step, c, r)
    ensures TextsOf(r.log) == TextsOf(v.instances[c].log) +
                              if Reaches(v, step, r.founder) then [step.text] else []
  {
    if k :| TakenAt(v, step, k) && v.instances[k].founder == r.founder {
      assert k == c;
    } else {
      assert !TakenAt(v, step, c);
    }
  }

  /** An instance's log is what its connections sent while it had room, in order and once. */
  lemma {:induction false} LogIsHeard(states: seq<Vhost>, steps: seq<Step>, k: nat, i: nat)
    requires IsRun(states, steps) && k <= |steps| && i < |states[k].instances|
    ensures TextsOf(states[k].instances[i].log) == Heard(states, steps, states[k].instances[i].founder, k)
  {
    if k > 0 {
      var v, step, r := states[k - 1], steps[k - 1], states[k].instances[i];
      RunFounders(states, steps, k - 1);
      var c := StepOrigin(states, steps, k - 1, i);
      if c < 0 {
        NothingHeard(states, steps, r.founder, k - 1);
      } else {
        LogIsHeard(states, steps, k - 1, c);
        TextsAfter(v, step, c, r);
      }
    }
  }

  /** So what a session was sent is a stretch of what the connections of its instance sent: everything
      accepted from when it joined, as far as it has read, in order and once. */
  lemma SentIsHeard(states: seq<Vhost>, steps: seq<Step>, k: nat, i: nat, j: nat)
    requires IsRun(states, steps) && k <= |steps| && Attached(states[k], i, j)
    ensures var s := states[k].instances[i].sessions[j];
            var heard := Heard(states, steps, states[k].instances[i].founder, k);
            s.joined <= s.tail <= |heard| && TextsOf(s.sent) == heard[s.joined..s.tail]
  {
    RunReaches(states, steps, k);
    LogIsHeard(states, steps, k, i);
    BroadcastAgrees(states[k], i, j, j);
  }

  // ---- names ------------------------------------------------------------------------------------

  /** The name a connection asked for when it was established. */
  function Asked(steps: seq<Step>, id: nat, k: nat): Option<string>
    requires k <= |steps|
  {
    if k == 0 then None
    else
      var before := Asked(steps, id, k - 1);
      if before.None? && steps[k - 1].Established? && steps[k - 1].id == id then Some(steps[k - 1].name) else before
  }

  lemma {:induction false} AskedIsSeen(states: seq<Vhost>, steps: seq<Step>, id: nat, k: nat)
    requires IsRun(states, steps) && k <= |steps|
    ensures Asked(steps, id, k).Some? <==> id in states[k].seen
  {
    if k > 0 {
      AskedIsSeen(states, steps, id, k - 1);
      StepSeen(states, steps, k - 1);
    }
  }

  lemma SeenAfter(v: Vhost, step: Step)
    requires Reachable(v) && Inv(v)
    ensures Apply(v, step).seen == if step.Established? then v.seen + {step.id} else v.seen
  {
    if step.Established? && step.id !in v.seen {
      EstablishedLaw(v, step.id, step.name, step.oom);
    } else if !step.Established? && step.id in v.open {
      var i, j := PlaceOf(v, step.id);
      CallbackAt(v, i, j, step);
    } else {
      NobodyThere(v, step);
    }
  }

  ghost predicate NamedAsAsked(v: Vhost, i: nat, asked: Option<string>) {
    && i < |v.instances| && asked.Some?
    && v.instances[i].name == StoredName(asked.value) && |v.instances[i].name| <= NAME_MAX
  }

  /** Every attached connection is in an instance that goes by the name it asked for, as far as that is
      stored. */
  lemma {:induction false} InstanceIsAsAsked(states: seq<Vhost>, steps: seq<Step>, k: nat, id: nat, i: nat, j: nat)
    requires IsRun(states, steps) && k <= |steps| && At(states[k], id, i, j)
    ensures NamedAsAsked(states[k], i, Asked(steps, id, k))
  {
    if k > 0 {
      var v, step, r := states[k - 1], steps[k - 1], states[k].instances[i];
      RunKeeps(states, steps, k - 1);
      AskedIsSeen(states, steps, id, k - 1);
      var c := StepOrigin(states, steps, k - 1, i);
      if 0 <= c {
        assert HasRoot(v, step, c, id);
        if j' :| At(v, id, c, j') {
          InstanceIsAsAsked(states, steps, k - 1, id, c, j');
        } else {
          var other := v.instances[c].sessions[0].id;
          InstanceIsAsAsked(states, steps, k - 1, other, c, 0);
        }
      }
    }
  }
}
