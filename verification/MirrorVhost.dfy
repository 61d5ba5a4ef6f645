/**
 ESTABLISHED and CLOSED of plugins/protocol_lws_mirror.c as they run: the vhost's list of mirror
 instances, each with its own ring and its own sessions.  Each is proved to do what MirrorRuns says.
 */
module MirrorVhost {
  import opened Wrappers
  import opened Mirror
  import Spec = MirrorSpec
  import Runs = MirrorRuns
  import Theorems = MirrorTheorems
  import Laws = MirrorLaws

  /** What an instance is made of. */
  ghost function Parts(mi: MirrorInstance): set<object>
    reads mi`sessions
  {
    {mi, mi.ring, mi.ring.buf} + set p | p in mi.sessions
  }

  ghost predicate Shows(mi: MirrorInstance, view: Spec.Instance)
    reads mi, Parts(mi)
  {
    mi.Valid() && mi.View() == view
  }

  method AttachTo(mi: MirrorInstance, p: Pss, ghost view: Spec.Instance)
    requires Shows(mi, view) && p !in Parts(mi)
    modifies mi`sessions, p
    ensures Shows(mi, Spec.Attach(view, p.id)) && Parts(mi) == old(Parts(mi)) + {p}
  {
    mi.Attach(p);
  }

  method Create(p: Pss, name: string) returns (mi: MirrorInstance)
    modifies p
    ensures Shows(mi, Spec.Attach(Runs.NewInstance(name, p.id), p.id)) && fresh(Parts(mi) - {p})
  {
    mi := new MirrorInstance(if |name| > Spec.NAME_MAX then name[..Spec.NAME_MAX] else name, p.id);
    AttachTo(mi, p, Runs.NewInstance(name, p.id));
  }

  method DetachFrom(mi: MirrorInstance, p: Pss, ghost at: nat, ghost view: Spec.Instance)
    requires Shows(mi, view) && at < |mi.sessions| && mi.sessions[at] == p
    modifies Parts(mi)
    ensures Shows(mi, Spec.Detach(view, at)) && Parts(mi) <= old(Parts(mi))
  {
    ghost var found := mi.Detach(p);
  }

  method WriteTo(mi: MirrorInstance, p: Pss, ghost at: nat, pipe: Spec.Pipe, ghost view: Spec.Instance)
    returns (ok: bool)
    requires Shows(mi, view) && at < |mi.sessions| && mi.sessions[at] == p
    modifies Parts(mi)
    ensures at < |view.sessions| && view.sessions[at].tail <= |view.log|
    ensures Shows(mi, Spec.Writeable(view, at, pipe)) && Parts(mi) == old(Parts(mi))
    ensures ok <==> !Spec.Fails(|view.log| - view.sessions[at].tail, pipe)
  {
    ok := mi.Writeable(p, at, pipe);
  }

  method ReceiveFrom(mi: MirrorInstance, msg: Spec.Msg, oom: bool, ghost view: Spec.Instance) returns (accepted: bool)
    requires Shows(mi, view)
    modifies Parts(mi)
    ensures Shows(mi, Spec.Receive(view, msg, oom)) && Parts(mi) == old(Parts(mi))
    ensures accepted <==> Spec.Accepts(view, oom)
  {
    accepted := mi.Receive(msg, oom);
  }

  ghost predicate Apart(ms: seq<MirrorInstance>)
    reads ms`sessions
  {
    forall i, j :: 0 <= i < j < |ms| ==> Parts(ms[i]) !! Parts(ms[j])
  }

  /** One step of a run, from one reachable state to the next. */
  ghost predicate Goes(v: Runs.Vhost, step: Runs.Step, w: Runs.Vhost) {
    Runs.Reachable(v) && Runs.Reachable(w) && Runs.Inv(v) && w == Runs.Apply(v, step)
  }

  lemma GoesOn(v: Runs.Vhost, step: Runs.Step) returns (w: Runs.Vhost)
    requires Runs.Reachable(v)
    ensures Goes(v, step, w)
  {
    Runs.ReachableStep(v, step);
    w := Runs.Apply(v, step);
  }

  lemma JoinGoes(v: Runs.Vhost, id: nat, name: string, oom: bool) returns (w: Runs.Vhost)
    requires Runs.Reachable(v) && id !in v.seen
    ensures Goes(v, Runs.Established(id, name, oom), w)
    ensures w.instances == Runs.Join(Runs.Vhost(v.instances, 0, [], {}, {}), id, name, oom).instances
    ensures Laws.Admitted(v, w, id, name, oom)
    ensures id in w.open <==>
            Runs.FindName(v.instances, name).Some? || (|v.instances| != Spec.MAX_MIRROR_INSTANCES && !oom)
  {
    w := GoesOn(v, Runs.Established(id, name, oom));
    Laws.EstablishedLaw(v, id, name, oom);
  }

  /** In a reachable state a callback concerns the one place where the connection is. */
  lemma CallbackGoes(v: Runs.Vhost, i: nat, j: nat, step: Runs.Step) returns (w: Runs.Vhost)
    requires Runs.Reachable(v) && Theorems.Attached(v, i, j)
    requires !step.Established? && step.id == v.instances[i].sessions[j].id
    ensures Goes(v, step, w) && w == Runs.Callback(v, i, j, step)
  {
    w := GoesOn(v, step);
    Theorems.CallbackAt(v, i, j, step);
  }

  lemma CloseGoes(v: Runs.Vhost, i: nat, j: nat, id: nat) returns (w: Runs.Vhost)
    requires Runs.Reachable(v) && Theorems.Attached(v, i, j) && id == v.instances[i].sessions[j].id
    ensures Goes(v, Runs.Closed(id), w)
    ensures w.instances == if |v.instances[i].sessions| == 1 then Runs.Rest(v.instances, i)
                           else v.instances[i := Spec.Detach(v.instances[i], j)]
  {
    w := CallbackGoes(v, i, j, Runs.Closed(id));
  }

  lemma WriteGoes(v: Runs.Vhost, i: nat, j: nat, id: nat, pipe: Spec.Pipe) returns (w: Runs.Vhost)
    requires Runs.Reachable(v) && Theorems.Attached(v, i, j) && id == v.instances[i].sessions[j].id
    requires !v.instances[i].sessions[j].broken && v.instances[i].sessions[j].tail <= |v.instances[i].log|
    ensures Goes(v, Runs.ServerWriteable(id, pipe), w)
    ensures w.instances == v.instances[i := Spec.Writeable(v.instances[i], j, pipe)]
    ensures Theorems.Attached(w, i, j)
    ensures w.instances[i].sessions[j].broken <==>
            Spec.Fails(|v.instances[i].log| - v.instances[i].sessions[j].tail, pipe)
  {
    w := CallbackGoes(v, i, j, Runs.ServerWriteable(id, pipe));
    var t, n := Laws.WrittenAtLaw(v, id, pipe, i, j);
  }

  lemma ReceiveGoes(v: Runs.Vhost, i: nat, j: nat, id: nat, text: string, oom: bool) returns (w: Runs.Vhost)
    requires Runs.Reachable(v) && Theorems.Attached(v, i, j) && id == v.instances[i].sessions[j].id
    requires !v.instances[i].sessions[j].broken
    ensures Goes(v, Runs.Received(id, text, oom), w)
    ensures w.instances == v.instances[i := Spec.Receive(v.instances[i], Spec.Msg(v.nextPayload, text), oom)]
    ensures Laws.TookIn(v.instances[i], w.instances[i], Spec.Msg(v.nextPayload, text), oom)
  {
    Laws.ReceivedLaw(v, id, text, oom, i, j);
    w := CallbackGoes(v, i, j, Runs.Received(id, text, oom));
  }

  lemma NobodyGoes(v: Runs.Vhost, step: Runs.Step)
    requires Runs.Reachable(v) && !step.Established? && Runs.InstanceOf(v.instances, step.id).None?
    ensures Goes(v, step, v)
  {
    var w := GoesOn(v, step);
  }

  class VhostData {
    var instances: seq<MirrorInstance>  // mi_list
    ghost var views: seq<Spec.Instance>
    ghost var repr: set<object>
    ghost var run: Runs.Vhost  // the run of MirrorRuns this one follows

    ghost predicate Valid()
      reads this, repr
    {
      && this !in repr && |views| == |instances|
      && (forall i :: 0 <= i < |instances| ==> instances[i] in repr && Parts(instances[i]) <= repr)
      && (forall i :: 0 <= i < |instances| ==> Shows(instances[i], views[i]))
      && Apart(instances)
    }

    constructor ()
      ensures Valid() && views == []
      ensures Follows() && run == Runs.EMPTY
    {
      instances, views := [], [];
      repr, run := {}, Runs.EMPTY;
      Runs.ReachableEmpty();
    }

    /** It shows a reachable state. */
    ghost predicate Follows()
      reads this, repr
    {
      Valid() && views == run.instances && Runs.Reachable(run)
    }

    /** Session `p` is the one at `at` in instance `i`. */
    ghost predicate At(p: Pss, mi: MirrorInstance, i: nat, at: nat)
      reads this`instances, mi`sessions
    {
      i < |instances| && instances[i] == mi && at < |mi.sessions| && mi.sessions[at] == p
    }

    lemma Identify(p: Pss, mi: MirrorInstance, i: nat, at: nat)
      requires Follows() && At(p, mi, i, at)
      ensures Theorems.Attached(run, i, at) && run.instances[i].sessions[at] == p.Abs()
      ensures p.number <= |run.instances[i].log|
    {
      assert Shows(mi, views[i]);
    }

    /** No instance changed, unless instance `i`. */
    twostate predicate OnlyIn(i: int)
      requires old(Valid()) && -1 <= i < |old(instances)|
      reads *
    {
      forall o :: o in old(repr) && (i < 0 || o !in old(Parts(instances[i]))) ==> unchanged(o)
    }

    /** The other instances show the same then. */
    twostate lemma OthersKeep(i: int)
      requires old(Valid()) && -1 <= i < |old(instances)| && OnlyIn(i)
      ensures forall j :: 0 <= j < |old(instances)| && j != i ==>
        Shows(old(instances[j]), old(views[j])) && Parts(old(instances[j])) == old(Parts(instances[j]))
    {
      forall j | 0 <= j < |old(instances)| && j != i
        ensures Shows(old(instances[j]), old(views[j])) && Parts(old(instances[j])) == old(Parts(instances[j])) {
        var mi := old(instances[j]);
        assert mi in old(Parts(mi)) && mi.ring in old(Parts(mi)) && mi.ring.buf in old(Parts(mi));
      }
    }

    /** A callback may change one instance, and give it parts nobody had. */
    twostate lemma Keeps(i: nat)
      requires old(Valid()) && i < |old(instances)| && instances == old(instances)
      requires |views| == |old(views)| && views == old(views)[i := views[i]]
      requires this !in repr && old(repr) <= repr
      requires Parts(instances[i]) <= old(Parts(instances[i])) + (repr - old(repr))
      requires Shows(instances[i], views[i]) && OnlyIn(i)
      ensures Valid()
    {
      OthersKeep(i);
    }

    /** It may put a new instance on the list. */
    twostate lemma Grows()
      requires old(Valid()) && instances != [] && instances[1..] == old(instances)
      requires views != [] && views[1..] == old(views)
      requires this !in repr && old(repr) <= repr && Parts(instances[0]) <= repr - old(repr)
      requires Shows(instances[0], views[0]) && OnlyIn(-1)
      ensures Valid()
    {
      OthersKeep(-1);
    }

    /** And it may take one off, whatever becomes of its parts. */
    twostate lemma Shrinks(i: nat)
      requires old(Valid()) && i < |old(instances)| && repr == old(repr)
      requires instances == old(instances)[..i] + old(instances)[i + 1..] && views == Runs.Rest(old(views), i)
      requires OnlyIn(i)
      ensures Valid()
    {
      OthersKeep(i);
    }

    /** The search loop of ESTABLISHED. */
    method Find(name: string) returns (r: Option<nat>)
      requires Valid()
      ensures r == Runs.FindName(views, name)
    {
      for i := 0 to |instances|
        invariant forall j :: 0 <= j < i ==> views[j].name != name
      {
        assert Shows(instances[i], views[i]);
        if instances[i].name == name {
          return Some(i);
        }
      }
      return None;
    }

    method JoinExisting(p: Pss, mi: MirrorInstance, ghost i: nat)
      requires Valid() && p !in repr && i < |instances| && instances[i] == mi
      modifies this`repr, this`views, mi`sessions, p
      ensures Valid() && views == old(views)[i := Spec.Attach(old(views)[i], p.id)]
    {
      AttachTo(mi, p, views[i]);
      repr := repr + {p};
      views := views[i := Spec.Attach(views[i], p.id)];
      Keeps(i);
    }

    method JoinNew(p: Pss, name: string)
      requires Valid() && p !in repr
      modifies this`instances, this`views, this`repr, p
      ensures Valid() && views == [Spec.Attach(Runs.NewInstance(name, p.id), p.id)] + old(views)
    {
      var mi := Create(p, name);
      instances := [mi] + instances;
      repr := repr + Parts(mi);
      views := [Spec.Attach(Runs.NewInstance(name, p.id), p.id)] + views;
      Grows();
    }

    /** ESTABLISHED, on the list of instances */
    method Enter(p: Pss, name: string, oom: bool) returns (ok: bool)
      requires Valid() && p !in repr
      modifies this`instances, this`views, this`repr, repr, p
      ensures Valid() && views == Runs.Join(Runs.Vhost(old(views), 0, [], {}, {}), p.id, name, oom).instances
      ensures ok <==> Runs.FindName(old(views), name).Some? || (|old(views)| != Spec.MAX_MIRROR_INSTANCES && !oom)
    {
      var found := Find(name);
      if found.Some? {
        JoinExisting(p, instances[found.value], found.value);
        return true;
      }
      if |instances| == Spec.MAX_MIRROR_INSTANCES || oom {
        return false;
      }
      JoinNew(p, name);
      return true;
    }

    /** The end of CLOSED, when the last session has left. */
    method Unlink(mi: MirrorInstance, ghost i: nat)
      requires Valid() && i < |instances| && instances[i] == mi
      modifies this`instances, this`views, mi.ring, mi.ring.buf
      ensures Valid() && views == Runs.Rest(old(views), i)
      ensures mi.ring.destroyed == mi.ring.log == old(mi.ring.log)
    {
      assert Shows(mi, views[i]);
      var k := 0;
      while instances[k] != mi
        invariant 0 <= k <= i
        decreases i - k
      {
        k := k + 1;
      }
      instances := instances[..k] + instances[k + 1..];
      views := Runs.Rest(views, i);
      mi.ring.Destroy();
      Shrinks(i);
    }

    /** The middle of it, while others use the instance. */
    method Leave(p: Pss, mi: MirrorInstance, ghost i: nat, ghost at: nat)
      requires Valid() && At(p, mi, i, at)
      modifies this`views, Parts(mi)
      ensures Valid() && instances == old(instances) && at < |old(views)[i].sessions|
      ensures views == old(views)[i := Spec.Detach(old(views)[i], at)]
    {
      DetachFrom(mi, p, at, views[i]);
      views := views[i := Spec.Detach(views[i], at)];
      Keeps(i);
    }

    /** CLOSED, on the list of instances */
    method Part(p: Pss, mi: MirrorInstance, ghost i: nat, ghost at: nat)
      requires Valid() && At(p, mi, i, at)
      modifies this`instances, this`views, Parts(mi)
      ensures Valid() && at < |old(views)[i].sessions|
      ensures views == if |old(views)[i].sessions| == 1 then Runs.Rest(old(views), i)
                       else old(views)[i := Spec.Detach(old(views)[i], at)]
    {
      Leave(p, mi, i, at);
      assert Shows(mi, views[i]);
      if mi.sessions == [] {
        Unlink(mi, i);
      }
    }

    method Write(p: Pss, mi: MirrorInstance, ghost i: nat, ghost at: nat, pipe: Spec.Pipe) returns (ok: bool)
      requires Valid() && At(p, mi, i, at)
      modifies this`views, Parts(mi)
      ensures Valid()
      ensures var m := old(views)[i];
              && at < |m.sessions| && m.sessions[at].tail <= |m.log|
              && (ok <==> !Spec.Fails(|m.log| - m.sessions[at].tail, pipe))
              && views == old(views)[i := Spec.Writeable(m, at, pipe)]
    {
      ok := WriteTo(mi, p, at, pipe, views[i]);
      views := views[i := Spec.Writeable(views[i], at, pipe)];
      Keeps(i);
    }

    method Receive(mi: MirrorInstance, ghost i: nat, msg: Spec.Msg, oom: bool) returns (accepted: bool)
      requires Valid() && i < |instances| && instances[i] == mi
      modifies this`views, Parts(mi)
      ensures Valid() && views == old(views)[i := Spec.Receive(old(views)[i], msg, oom)]
      ensures accepted <==> Spec.Accepts(old(views)[i], oom)
    {
      accepted := ReceiveFrom(mi, msg, oom, views[i]);
      views := views[i := Spec.Receive(views[i], msg, oom)];
      Keeps(i);
    }

    ghost method Record(w: Runs.Vhost)
      requires Valid() && views == w.instances && Runs.Reachable(w)
      modifies this`run
      ensures Follows() && run == w
    {
      run := w;
    }

    /** ESTABLISHED */
    method Established(p: Pss, name: string, oom: bool) returns (ok: bool)
      requires Follows() && p !in repr && p.id !in run.seen
      modifies this, repr, p
      ensures Follows() && Goes(old(run), Runs.Established(p.id, name, oom), run)
      ensures Laws.Admitted(old(run), run, p.id, name, oom) && (ok <==> p.id in run.open)
    {
      ghost var w := JoinGoes(run, p.id, name, oom);
      ok := Enter(p, name, oom);
      Record(w);
    }

    /** CLOSED; a session that was refused has no instance. */
    method Closed(p: Pss, mi: MirrorInstance?, ghost i: nat, ghost at: nat)
      requires Follows()
      requires if mi != null then At(p, mi, i, at) else Runs.InstanceOf(run.instances, p.id).None?
      modifies this, repr
      ensures Follows() && Goes(old(run), Runs.Closed(p.id), run)
    {
      if mi == null {
        NobodyGoes(run, Runs.Closed(p.id));
        return;
      }
      Identify(p, mi, i, at);
      ghost var w := CloseGoes(run, i, at, p.id);
      Part(p, mi, i, at);
      Record(w);
    }

    /** SERVER_WRITEABLE; lws makes no more callbacks but CLOSED once it returned an error. */
    method ServerWriteable(p: Pss, mi: MirrorInstance, ghost i: nat, ghost at: nat, pipe: Spec.Pipe) returns (ok: bool)
      requires Follows() && At(p, mi, i, at) && !p.broken
      modifies this, repr
      ensures Follows() && Goes(old(run), Runs.ServerWriteable(p.id, pipe), run)
      ensures Theorems.Attached(run, i, at) && (ok <==> !run.instances[i].sessions[at].broken)
    {
      Identify(p, mi, i, at);
      ghost var w := WriteGoes(run, i, at, p.id, pipe);
      ghost var fails := Spec.Fails(|run.instances[i].log| - run.instances[i].sessions[at].tail, pipe);
      ok := Write(p, mi, i, at, pipe);
      assert ok <==> !fails;
      Record(w);
    }

    /** RECEIVE, of a message in a newly allocated payload */
    method Received(p: Pss, mi: MirrorInstance, ghost i: nat, ghost at: nat, msg: Spec.Msg, oom: bool)
      returns (accepted: bool)
      requires Follows() && At(p, mi, i, at) && !p.broken && msg.payload == run.nextPayload
      modifies this, repr
      ensures Follows() && Goes(old(run), Runs.Received(p.id, msg.text, oom), run)
      ensures i < |old(run).instances| && i < |run.instances|
      ensures accepted <==> 0 < Spec.Free(old(run).instances[i]) && !oom
      ensures Laws.TookIn(old(run).instances[i], run.instances[i], msg, oom)
    {
      Identify(p, mi, i, at);
      ghost var w := ReceiveGoes(run, i, at, p.id, msg.text, oom);
      accepted := Receive(mi, i, msg, oom);
      Record(w);
    }
  }
}
