/**
 What the mirror protocol promises, over every run, and where the code falls short of it.
 */
module MirrorTheorems {
  import opened Wrappers
  import opened MirrorSpec
  import opened MirrorRuns

  ghost predicate Attached(v: Vhost, i: int, j: int) {
    0 <= i < |v.instances| && 0 <= j < |v.instances[i].sessions|
  }

  ghost predicate NoneBroken(m: Instance) {
    forall j :: 0 <= j < |m.sessions| ==> !m.sessions[j].broken
  }

  /** The message with number `k`, as this session wrote it. */
  function Nth(s: Session, k: nat): Option<Msg> {
    if s.joined <= k < s.joined + |s.sent| then Some(s.sent[k - s.joined]) else None
  }

  /** Total-order broadcast: what a session wrote is the slice of the accepted log from its joining
      position, so two sessions agree on every message both have written. */
  lemma BroadcastAgrees(v: Vhost, i: nat, j: nat, j': nat)
    requires Reachable(v)
    requires Attached(v, i, j) && Attached(v, i, j')
    ensures var m := v.instances[i]; var s := m.sessions[j]; var s' := m.sessions[j'];
            && s.joined <= s.tail <= |m.log| && s.sent == m.log[s.joined..s.tail]
            && forall k :: s.joined <= k < s.tail && s'.joined <= k < s'.tail ==>
                 Nth(s, k) == Nth(s', k) == Some(m.log[k])
  {
    ReachableInv(v);
    var m := v.instances[i];
    assert Sound(m);
    assert Good(m.log, m.oldest, m.sessions[j]) && Good(m.log, m.oldest, m.sessions[j']);
  }

  /** The ring's oldest tail is the slowest reader's position. */
  lemma OldestIsSlowest(v: Vhost, i: nat)
    requires Reachable(v)
    requires i < |v.instances| && NoneBroken(v.instances[i])
    ensures IsMinTail(v.instances[i].sessions, v.instances[i].oldest)
  {
    ReachableInv(v);
    var m := v.instances[i];
    assert Sound(m);
    assert forall j :: 0 <= j < |m.sessions| ==> Good(m.log, m.oldest, m.sessions[j]);
  }

  /** WRITEABLE that recomputes the oldest tail whether or not this session held it. */
  ghost function WriteableAlways(m: Instance, i: nat, pipe: Pipe): Instance
    requires i < |m.sessions| && m.sessions[i].tail <= |m.log|
  {
    var r := Put(m, i, Written(m.log, m.oldest, m.sessions[i], pipe));
    if Fails(|m.log| - m.sessions[i].tail, pipe) then r else UpdateWorstTail(r)
  }

  /** With a session at the oldest tail there is nothing to recompute. */
  lemma HeldBack(m: Instance, j: nat)
    requires AllGood(m) && j < |m.sessions| && m.sessions[j].tail == m.oldest
    ensures UpdateWorstTail(m) == m
  {
    assert forall j :: 0 <= j < |m.sessions| ==> Good(m.log, m.oldest, m.sessions[j]);
  }

  lemma StaysWorst(m: Instance, i: nat, s: Session)
    requires AllGood(m) && Tight(m) && i < |m.sessions| && Good(m.log, m.oldest, s)
    requires s.tail == m.sessions[i].tail || m.sessions[i].tail != m.oldest
    ensures UpdateWorstTail(Put(m, i, s)) == Put(m, i, s)
  {
    var j :| 0 <= j < |m.sessions| && m.sessions[j].tail == m.oldest;
    HeldBack(Put(m, i, s), j);
  }

  /** Skipping the recomputation when the session was not at the oldest tail changes nothing. */
  lemma ShortcutRefines(m: Instance, i: nat, pipe: Pipe)
    requires Sound(m) && Tight(m) && i < |m.sessions| && !m.sessions[i].broken
    ensures Writeable(m, i, pipe) == WriteableAlways(m, i, pipe)
  {
    var s, w := m.sessions[i], Written(m.log, m.oldest, m.sessions[i], pipe);
    WrittenGood(m.log, m.oldest, s, pipe);
    if !Fails(|m.log| - s.tail, pipe) && !Leads(m.log, m.oldest, s, pipe) {
      StaysWorst(m, i, w);
    }
  }

  /** Flow control: there is always room for RXFLOW_MIN messages while rx is enabled, so a message is
      lost for lack of room only while it is disabled, and then somebody still has messages to write. */
  lemma Hysteresis(v: Vhost, i: nat)
    requires Reachable(v)
    requires i < |v.instances|
    ensures var m := v.instances[i];
            && (m.rxEnabled ==> RXFLOW_MIN <= Free(m) <= CAP)
            && (!m.rxEnabled ==> 0 <= Free(m) < RXFLOW_MAX)
            && (Free(m) == 0 ==> !m.rxEnabled)
            && (m.rxEnabled ==> AllRxOn(m))
            && (!m.rxEnabled ==> exists j :: 0 <= j < |m.sessions| && m.sessions[j].tail < |m.log|)
  {
    ReachableInv(v);
    var m := v.instances[i];
    assert Sound(m);
    if !m.rxEnabled {
      var j :| 0 <= j < |m.sessions| && (m.sessions[j].tail == m.oldest || m.sessions[j].broken);
      assert Good(m.log, m.oldest, m.sessions[j]);
      assert m.sessions[j].tail < |m.log|;
    }
  }

  /** The 3s policy only ever threatens a reader no other reader is behind, and who has work to do. */
  lemma TimeoutHitsOnlySlowest(v: Vhost, i: nat, j: nat)
    requires Reachable(v)
    requires Attached(v, i, j)
    requires var s := v.instances[i].sessions[j]; s.timeout && !s.broken
    ensures var m := v.instances[i];
            && m.sessions[j].tail < |m.log|
            && forall j' :: 0 <= j' < |m.sessions| ==> m.sessions[j].tail <= m.sessions[j'].tail
  {
    ReachableInv(v);
    var m := v.instances[i];
    assert Sound(m);
    forall j' | 0 <= j' < |m.sessions| ensures Good(m.log, m.oldest, m.sessions[j']) {
    }
    assert Good(m.log, m.oldest, m.sessions[j]);
  }

  lemma TotalAtLeast(c: seq<nat>, i: nat)
    requires i < |c|
    ensures c[i] <= Total(c)
    ensures forall j :: 0 <= j < i ==> c[j] + c[i] <= Total(c)
  {
    TotalRemove(c, i);
    forall j | 0 <= j < i ensures c[j] + c[i] <= Total(c) {
      var rest := c[..i] + c[i + 1..];
      TotalRemove(rest, j);
    }
  }

  lemma CountAtLeast(s: seq<nat>, i: nat)
    requires i < |s|
    ensures 1 <= Count(s, s[i])
    ensures forall j :: 0 <= j < i && s[j] == s[i] ==> 2 <= Count(s, s[i])
  {
    assert s == s[..i] + s[i..];
    CountConcat(s[..i], s[i..], s[i]);
    assert s[i..][0] == s[i];
    forall j | 0 <= j < i && s[j] == s[i] ensures s[i] in s[..i] {
      assert s[..i][j] == s[i];
    }
  }

  lemma HeldAt(m: Instance, k: nat)
    requires m.oldest <= k < |m.log|
    ensures 1 <= Holds(m, m.log[k].payload)
  {
    var held := Payloads(m.log[m.oldest..]);
    assert held[k - m.oldest] == m.log[k].payload;
  }

  /** A message somebody has yet to read is allocated and has not been freed. */
  lemma UnreadIsNotFreed(v: Vhost, i: nat, j: nat, k: nat)
    requires Reachable(v)
    requires Attached(v, i, j)
    requires v.instances[i].sessions[j].tail <= k < |v.instances[i].log|
    ensures var p := v.instances[i].log[k].payload;
            p < v.nextPayload && p !in v.frees
  {
    ReachableInv(v);
    var m, p := v.instances[i], v.instances[i].log[k].payload;
    assert Sound(m) && Good(m.log, m.oldest, m.sessions[j]);
    HeldAt(m, k);
    TotalAtLeast(Holdings(v.instances, p), i);
    assert Count(v.frees, p) + Total(Holdings(v.instances, p)) == if p < v.nextPayload then 1 else 0;
  }

  /** No payload is freed twice; once every connection has left, each was freed exactly once. */
  lemma FreedOnce(v: Vhost, p: nat)
    requires Reachable(v)
    ensures multiset(v.frees)[p] <= 1
    ensures p in v.frees ==> p < v.nextPayload
    ensures v.instances == [] && p < v.nextPayload ==> multiset(v.frees)[p] == 1
  {
    ReachableInv(v);
    assert Count(v.frees, p) + Total(Holdings(v.instances, p)) == if p < v.nextPayload then 1 else 0;
  }

  ghost predicate At(v: Vhost, id: nat, i: int, j: int) {
    Attached(v, i, j) && v.instances[i].sessions[j].id == id
  }

  /** A connection is never in two places. */
  lemma SamePlace(v: Vhost, id: nat, i: nat, j: nat, i': nat, j': nat)
    requires OneHomeEach(v) && At(v, id, i, j) && At(v, id, i', j')
    ensures i == i' && j == j'
  {
    var c := Rosters(v.instances, id);
    assert Total(c) <= 1;
    assert 1 <= c[i] && (j < j' && i == i' ==> 2 <= c[i]) by {
      CountAtLeast(Ids(v.instances[i].sessions), if i == i' && j < j' then j' else j);
    }
    assert 1 <= c[i'] && (j' < j && i == i' ==> 2 <= c[i]) by {
      CountAtLeast(Ids(v.instances[i'].sessions), if i == i' && j' < j then j else j');
    }
    TotalAtLeast(c, i);
    TotalAtLeast(c, i');
  }

  lemma {:induction false} SomewhereCounted(c: seq<nat>) returns (i: nat)
    requires 0 < Total(c)
    ensures i < |c| && 0 < c[i]
  {
    i := |c| - 1;
    if c[i] == 0 {
      i := SomewhereCounted(c[..i]);
    }
  }

  lemma PlaceOf(v: Vhost, id: nat) returns (i: nat, j: nat)
    requires OneHomeEach(v) && id in v.open
    ensures At(v, id, i, j)
  {
    i := SomewhereCounted(Rosters(v.instances, id));
    var ids := Ids(v.instances[i].sessions);
    assert id in multiset(ids);
    j :| 0 <= j < |ids| && ids[j] == id;
  }

  /** A connection that was accepted and has not closed is on exactly one list, once; any other on none.
      Instances are few and never without a connection. */
  lemma OneInstanceEach(v: Vhost, id: nat)
    requires Reachable(v)
    ensures id in v.open <==> exists i, j :: At(v, id, i, j)
    ensures forall i, j, i', j' :: At(v, id, i, j) && At(v, id, i', j') ==> i == i' && j == j'
    ensures |v.instances| <= MAX_MIRROR_INSTANCES
    ensures forall i :: 0 <= i < |v.instances| ==> v.instances[i].sessions != []
  {
    ReachableInv(v);
    if id in v.open {
      var i, j := PlaceOf(v, id);
    }
    forall i, j | At(v, id, i, j) ensures id in v.open {
      ListedIsOpen(v, i, j);
    }
    forall i, j, i', j' | At(v, id, i, j) && At(v, id, i', j') ensures i == i' && j == j' {
      SamePlace(v, id, i, j, i', j');
    }
  }

  /** So a callback concerns the one place where the connection is. */
  lemma CallbackAt(v: Vhost, i: nat, j: nat, step: Step)
    requires Inv(v) && !step.Established? && At(v, step.id, i, j)
    ensures Sound(v.instances[i]) && Apply(v, step) == Callback(v, i, j, step)
  {
    var home := InstanceOf(v.instances, step.id);
    assert IndexOf(v.instances[i].sessions, step.id).Some?;
    var at := IndexOf(v.instances[home.value].sessions, step.id);
    SamePlace(v, step.id, i, j, home.value, at.value);
  }

  // ---- a joiner is not asked to write -----------------------------------------------------------

  /** Every reader that is behind has asked for a WRITEABLE callback. */
  ghost predicate AllAsked(m: Instance) {
    forall j :: 0 <= j < |m.sessions| ==>
      (!m.sessions[j].broken && m.sessions[j].tail < |m.log| ==> m.sessions[j].wantWrite)
  }

  /** ESTABLISHED starts the newcomer at the oldest tail without a writable request, so it keeps
      everybody asked exactly when the ring was empty. */
  lemma JoinKeepsAllAskedIff(m: Instance, id: nat)
    requires Sound(m)
    ensures AllAsked(Attach(m, id)) <==> AllAsked(m) && m.oldest == |m.log|
  {
    var r := Attach(m, id);
    assert forall j :: 0 <= j < |m.sessions| ==> r.sessions[j + 1] == m.sessions[j];
    assert r.sessions[0].tail == m.oldest;
  }

  /** The newest session sits at the oldest tail of a flow-controlled instance, unasked and untimed. */
  ghost predicate Frozen(m: Instance) {
    && Loose(m) && !m.rxEnabled && m.sessions != []
    && var s := m.sessions[0]; s.tail == m.oldest < |m.log| && !s.wantWrite && !s.timeout && !s.broken
  }

  /** What the other sessions can do while they may not receive. */
  datatype Turn = Write(i: nat, pipe: Pipe) | Leave(i: nat)

  ghost function Take(m: Instance, turn: Turn): Instance
    requires Frozen(m)
  {
    if !(0 < turn.i < |m.sessions|) then m
    else if turn.Leave? then Detach(m, turn.i)
    else if m.sessions[turn.i].broken then m
    else
      assert Good(m.log, m.oldest, m.sessions[turn.i]);
      Writeable(m, turn.i, turn.pipe)
  }

  lemma TakeStaysFrozen(m: Instance, turn: Turn)
    requires Frozen(m)
    ensures Frozen(Take(m, turn)) && Take(m, turn).oldest == m.oldest && Take(m, turn).sessions[0] == m.sessions[0]
  {
    if 0 < turn.i < |m.sessions| {
      if turn.Leave? {
        var m1 := m.(sessions := Without(m.sessions, turn.i));
        assert forall j :: 0 <= j < |m1.sessions| ==>
            m1.sessions[j] == m.sessions[if j < turn.i then j else j + 1];
        HeldBack(m1, 0);
      } else if !m.sessions[turn.i].broken {
        WriteStaysFrozen(m, turn.i, turn.pipe);
      }
    }
  }

  lemma WriteStaysFrozen(m: Instance, i: nat, pipe: Pipe)
    requires Frozen(m) && 0 < i < |m.sessions| && !m.sessions[i].broken && m.sessions[i].tail <= |m.log|
    ensures Frozen(Writeable(m, i, pipe)) && Writeable(m, i, pipe).oldest == m.oldest
    ensures Writeable(m, i, pipe).sessions[0] == m.sessions[0]
  {
    assert m.sessions[0].tail == m.oldest;
    WrittenGood(m.log, m.oldest, m.sessions[i], pipe);
    var r := Put(m, i, Written(m.log, m.oldest, m.sessions[i], pipe));
    PutKeeps(m, i, r.sessions[i]);
    HeldBack(r, 0);
  }

  ghost function TakeAll(m: Instance, turns: seq<Turn>): (r: Instance)
    requires Frozen(m)
    ensures Frozen(r) && r.oldest == m.oldest && r.sessions[0] == m.sessions[0]
  {
    if turns == [] then m
    else
      var r := TakeAll(m, turns[..|turns| - 1]);
      TakeStaysFrozen(r, turns[|turns| - 1]);
      Take(r, turns[|turns| - 1])
  }

  /** A connection that joins while rx is disabled and stays silent freezes the instance: whatever the
      others write, however they fail or leave, rx stays disabled, the oldest tail does not move, and
      the newcomer is neither asked to write nor put on the slow-reader timeout. */
  lemma SilentJoinerFreezes(m: Instance, id: nat, turns: seq<Turn>)
    requires Sound(m) && !m.rxEnabled
    ensures Frozen(Attach(m, id))
    ensures var r := TakeAll(Attach(m, id), turns);
            !r.rxEnabled && r.oldest == m.oldest && !r.sessions[0].wantWrite && !r.sessions[0].timeout
  {
    AttachKeeps(m, id);
  }

  /** One connection, first to join, has sent `n` messages that nobody got to write. */
  ghost predicate Flooded(v: Vhost, n: nat) {
    && |v.instances| == 1 && |v.instances[0].sessions| == 1
    && v.instances[0].sessions[0].id == 0 && !v.instances[0].sessions[0].broken
    && v.instances[0].oldest == 0 && |v.instances[0].log| == n
    && (forall k :: 0 <= k < n ==> v.instances[0].log[k].text == "x")
    && v.instances[0].rxEnabled == (CAP - n >= RXFLOW_MIN)
  }

  lemma FloodStep(v: Vhost, n: nat)
    requires Inv(v) && Flooded(v, n) && n < CAP
    ensures Flooded(Apply(v, Received(0, "x", false)), n + 1)
  {
    assert InstanceOf(v.instances, 0) == Some(0);
  }

  lemma FloodStart()
    requires Inv(EMPTY)
    ensures Flooded(Apply(EMPTY, Established(0, "", false)), 0)
  {
  }

  /** Rx does get disabled: a sender that is never written to reaches that state after 28 messages. */
  lemma {:induction false} FloodDisablesRx(n: nat) returns (v: Vhost)
    requires n <= CAP
    ensures Reachable(v) && Flooded(v, n)
  {
    if n == 0 {
      ReachableEmpty();
      ReachableInv(EMPTY);
      FloodStart();
      ReachableStep(EMPTY, Established(0, "", false));
      v := Apply(EMPTY, Established(0, "", false));
    } else {
      var u := FloodDisablesRx(n - 1);
      ReachableInv(u);
      FloodStep(u, n - 1);
      ReachableStep(u, Received(0, "x", false));
      v := Apply(u, Received(0, "x", false));
    }
  }

  // ---- instance names ---------------------------------------------------------------------------

  /** The stored name is cut, the requested one is not: a later connection asking for the same new
      name finds that instance exactly when the name was short enough to be stored whole. */
  lemma RejoinFindsIff(v: Vhost, name: string, id: nat)
    requires |v.instances| < MAX_MIRROR_INSTANCES && FindName(v.instances, name).None?
    ensures FindName(Join(v, id, name, false).instances, name) ==
            if |name| <= NAME_MAX then Some(0) else None
  {
    var ms := Join(v, id, name, false).instances;
    assert ms[1..] == v.instances;
    assert forall i :: 1 <= i < |ms| ==> ms[i] == v.instances[i - 1];
    assert |name| > NAME_MAX ==> |ms[0].name| != |name|;
  }

  ghost predicate DistinctNames(ms: seq<Instance>) {
    forall i, j :: 0 <= i < j < |ms| ==> ms[i].name != ms[j].name
  }

  predicate ShortNames(steps: seq<Step>) {
    forall k :: 0 <= k < |steps| && steps[k].Established? ==> |steps[k].name| <= NAME_MAX
  }

  lemma CallbackKeepsNames(v: Vhost, i: nat, j: nat, step: Step)
    requires i < |v.instances| && j < |v.instances[i].sessions|
    requires Sound(v.instances[i]) && !step.Established? && DistinctNames(v.instances)
    ensures DistinctNames(Callback(v, i, j, step).instances)
  {
    var m := v.instances[i];
    if step.Closed? && |m.sessions| > 1 {
      DetachKeeps(m, j);
    } else if step.ServerWriteable? && !m.sessions[j].broken {
      WriteableKeeps(m, j, step.pipe);
    }
  }

  /** A join keeps names distinct exactly when it makes no instance or the cut name is not taken. */
  lemma JoinKeepsNamesIff(v: Vhost, id: nat, name: string, oom: bool)
    requires DistinctNames(v.instances)
    ensures DistinctNames(Join(v, id, name, oom).instances) <==>
            || FindName(v.instances, name).Some? || |v.instances| == MAX_MIRROR_INSTANCES || oom
            || FindName(v.instances, StoredName(name)).None?
  {
    var ms, taken := Join(v, id, name, oom).instances, FindName(v.instances, StoredName(name));
    if FindName(v.instances, name).None? && |v.instances| != MAX_MIRROR_INSTANCES && !oom {
      assert forall i :: 1 <= i < |ms| ==> ms[i] == v.instances[i - 1];
      assert taken.Some? ==> ms[0].name == ms[taken.value + 1].name;
    }
  }

  /** Two connections asking for the same long name get an instance each. */
  lemma LongNamesPart(name: string)
    requires |name| > NAME_MAX
    ensures var v := Join(Join(EMPTY, 0, name, false), 1, name, false);
            |v.instances| == 2 && v.instances[0].name == v.instances[1].name
  {
    RejoinFindsIff(EMPTY, name, 0);
  }

  lemma ApplyKeepsNames(v: Vhost, step: Step)
    requires Inv(v) && DistinctNames(v.instances) && (step.Established? ==> |step.name| <= NAME_MAX)
    ensures DistinctNames(Apply(v, step).instances)
  {
    if step.Established? {
      JoinKeepsNamesIff(v, step.id, step.name, step.oom);
    } else if InstanceOf(v.instances, step.id).Some? {
      var i := InstanceOf(v.instances, step.id).value;
      CallbackKeepsNames(v, i, IndexOf(v.instances[i].sessions, step.id).value, step);
    }
  }

  lemma StepKeepsNames(states: seq<Vhost>, steps: seq<Step>, k: nat)
    requires StepAt(states, steps, k) && ShortNames(steps) && DistinctNames(states[k].instances)
    ensures DistinctNames(states[k + 1].instances)
  {
    ApplyKeepsNames(states[k], steps[k]);
  }

  /** All along any run in which only short names are asked for, no two instances go by the same name. */
  lemma {:induction false} NamesDistinct(states: seq<Vhost>, steps: seq<Step>, k: nat)
    requires IsRun(states, steps) && ShortNames(steps) && k <= |steps|
    ensures DistinctNames(states[k].instances)
  {
    if k > 0 {
      NamesDistinct(states, steps, k - 1);
      StepKeepsNames(states, steps, k - 1);
    }
  }
}
