/**
 Every run of a mirror vhost: the list of instances, and any interleaving of the callbacks of any
 number of connections.
 */
module MirrorRuns {
  import opened Wrappers
  import opened MirrorSpec

  /** `frees` lists the payload allocations released, in order; `seen` the connections so far, and `open`
      those of them that were accepted and have not closed. */
  datatype Vhost = Vhost(instances: seq<Instance>, nextPayload: nat, frees: seq<nat>, seen: set<nat>, open: set<nat>)

  datatype Step =
    | Established(id: nat, name: string, oom: bool)
    | Closed(id: nat)
    | ServerWriteable(id: nat, pipe: Pipe)
    | Received(id: nat, text: string, oom: bool)

  function IndexOf(ss: seq<Session>, id: nat): (r: Option<nat>)
    ensures r.Some? ==> r.value < |ss| && ss[r.value].id == id
    ensures r.None? ==> forall j :: 0 <= j < |ss| ==> ss[j].id != id
  {
    if ss == [] then None
    else if ss[|ss| - 1].id == id then Some(|ss| - 1)
    else IndexOf(ss[..|ss| - 1], id)
  }

  /** The instance a connection is attached to, pss->mi. */
  function InstanceOf(ms: seq<Instance>, id: nat): (r: Option<nat>)
    ensures r.Some? ==> r.value < |ms| && IndexOf(ms[r.value].sessions, id).Some?
    ensures r.None? ==> forall i :: 0 <= i < |ms| ==> IndexOf(ms[i].sessions, id).None?
  {
    if ms == [] then None
    else if IndexOf(ms[|ms| - 1].sessions, id).Some? then Some(|ms| - 1)
    else InstanceOf(ms[..|ms| - 1], id)
  }

  /** The first instance on the list that goes by `name`. */
  function FindName(ms: seq<Instance>, name: string): (r: Option<nat>)
    ensures r.Some? ==> r.value < |ms| && ms[r.value].name == name
    ensures r.Some? ==> forall i :: 0 <= i < r.value ==> ms[i].name != name
    ensures r.None? ==> forall i :: 0 <= i < |ms| ==> ms[i].name != name
  {
    if ms == [] then None
    else if ms[0].name == name then Some(0)
    else match FindName(ms[1..], name)
      case None => None
      case Some(i) => Some(i + 1)
  }

  function StoredName(name: string): string {
    if |name| > NAME_MAX then name[..NAME_MAX] else name
  }

  function NewInstance(name: string, founder: nat): Instance {
    Instance(StoredName(name), founder, [], 0, true, [])
  }

  function Payloads(log: seq<Msg>): (r: seq<nat>)
    ensures |r| == |log| && forall i :: 0 <= i < |log| ==> r[i] == log[i].payload
  {
    seq(|log|, i requires 0 <= i < |log| => log[i].payload)
  }

  function Rest(ms: seq<Instance>, i: nat): seq<Instance>
    requires i < |ms|
  {
    ms[..i] + ms[i + 1..]
  }

  /** The callback of one attached connection replaces its instance; what the oldest tail passed is freed. */
  ghost function Replace(v: Vhost, i: nat, m: Instance): Vhost
    requires i < |v.instances| && v.instances[i].oldest <= m.oldest <= |v.instances[i].log|
  {
    var was := v.instances[i];
    v.(instances := v.instances[i := m], frees := v.frees + Payloads(was.log[was.oldest..m.oldest]))
  }

  /** The last connection left: the ring is destroyed with all it holds. */
  ghost function Retire(v: Vhost, i: nat): Vhost
    requires i < |v.instances| && v.instances[i].oldest <= |v.instances[i].log|
  {
    var was := v.instances[i];
    v.(instances := Rest(v.instances, i), frees := v.frees + Payloads(was.log[was.oldest..]))
  }

  ghost function Join(v: Vhost, id: nat, name: string, oom: bool): Vhost {
    match FindName(v.instances, name)
    case Some(i) =>
      v.(instances := v.instances[i := Attach(v.instances[i], id)], seen := v.seen + {id}, open := v.open + {id})
    case None =>
      if |v.instances| == MAX_MIRROR_INSTANCES || oom then v.(seen := v.seen + {id})
      else
        v.(instances := [Attach(NewInstance(name, id), id)] + v.instances, seen := v.seen + {id}, open := v.open + {id})
  }

  ghost function Close(v: Vhost, i: nat, j: nat): Vhost
    requires i < |v.instances| && j < |v.instances[i].sessions| && Sound(v.instances[i])
  {
    var m := v.instances[i];
    var w := v.(open := v.open - {m.sessions[j].id});
    if |m.sessions| == 1 then Retire(w, i) else DetachKeeps(m, j); Replace(w, i, Detach(m, j))
  }

  /** A callback of session `j` of instance `i`; after a failed write the only one is CLOSED. */
  ghost function Callback(v: Vhost, i: nat, j: nat, step: Step): Vhost
    requires i < |v.instances| && j < |v.instances[i].sessions|
    requires Sound(v.instances[i]) && !step.Established?
  {
    var m := v.instances[i];
    if step.Closed? then Close(v, i, j)
    else if m.sessions[j].broken then v
    else if step.ServerWriteable? then
      assert Good(m.log, m.oldest, m.sessions[j]);
      WriteableKeeps(m, j, step.pipe);
      Replace(v, i, Writeable(m, j, step.pipe))
    else
      v.(instances := v.instances[i := Receive(m, Msg(v.nextPayload, step.text), step.oom)],
         nextPayload := if Accepts(m, step.oom) then v.nextPayload + 1 else v.nextPayload)
  }

  /** One callback of any connection.  A connection is established once; callbacks for one that was
      refused or has left do nothing. */
  ghost function Apply(v: Vhost, step: Step): Vhost
    requires Inv(v)
  {
    if step.Established? then
      if step.id in v.seen then v else Join(v, step.id, step.name, step.oom)
    else
      match InstanceOf(v.instances, step.id)
      case None => v
      case Some(i) => Callback(v, i, IndexOf(v.instances[i].sessions, step.id).value, step)
  }

  // ---- the invariant of every run ---------------------------------------------------------------

  function Ids(ss: seq<Session>): (r: seq<nat>)
    ensures |r| == |ss| && forall i :: 0 <= i < |ss| ==> r[i] == ss[i].id
  {
    seq(|ss|, i requires 0 <= i < |ss| => ss[i].id)
  }

  ghost function Count(s: seq<nat>, x: nat): nat {
    multiset(s)[x]
  }

  lemma CountConcat(a: seq<nat>, b: seq<nat>, x: nat)
    ensures Count(a + b, x) == Count(a, x) + Count(b, x)
  {
    assert multiset(a + b) == multiset(a) + multiset(b);
  }

  ghost function Total(c: seq<nat>): nat {
    if c == [] then 0 else Total(c[..|c| - 1]) + c[|c| - 1]
  }

  lemma {:induction false} TotalConcat(a: seq<nat>, b: seq<nat>)
    ensures Total(a + b) == Total(a) + Total(b)
  {
    if b == [] {
      assert a + b == a;
    } else {
      TotalConcat(a, b[..|b| - 1]);
      assert (a + b)[..|a + b| - 1] == a + b[..|b| - 1];
    }
  }

  lemma TotalMore(c: seq<nat>, x: nat)
    ensures Total(c + [x]) == Total(c) + x
  {
    assert (c + [x])[..|c|] == c;
  }

  lemma TotalMiddle(a: seq<nat>, x: nat, b: seq<nat>)
    ensures Total(a + [x] + b) == Total(a + b) + x
  {
    TotalConcat(a + [x], b);
    TotalMore(a, x);
    TotalConcat(a, b);
  }

  lemma TotalUpdate(c: seq<nat>, i: nat, x: nat)
    requires i < |c|
    ensures Total(c[i := x]) + c[i] == Total(c) + x
  {
    TotalRemove(c, i);
    TotalRemove(c[i := x], i);
    assert c[i := x][..i] == c[..i] && c[i := x][i + 1..] == c[i + 1..];
  }

  lemma Cut(c: seq<nat>, i: nat)
    requires i < |c|
    ensures c == c[..i] + [c[i]] + c[i + 1..]
  {
  }

  lemma TotalRemove(c: seq<nat>, i: nat)
    requires i < |c|
    ensures Total(c[..i] + c[i + 1..]) + c[i] == Total(c)
  {
    Cut(c, i);
    TotalMiddle(c[..i], c[i], c[i + 1..]);
  }

  /** In how many instance lists a connection occurs, counting repetitions, one entry per instance. */
  ghost function Rosters(ms: seq<Instance>, id: nat): (r: seq<nat>)
    ensures |r| == |ms| && forall i :: 0 <= i < |ms| ==> r[i] == Count(Ids(ms[i].sessions), id)
  {
    seq(|ms|, i requires 0 <= i < |ms| => Count(Ids(ms[i].sessions), id))
  }

  /** How often an instance holds a payload. */
  ghost function Holds(m: Instance, p: nat): nat {
    if m.oldest <= |m.log| then Count(Payloads(m.log[m.oldest..]), p) else 0
  }

  ghost function Holdings(ms: seq<Instance>, p: nat): (r: seq<nat>)
    ensures |r| == |ms| && forall i :: 0 <= i < |ms| ==> r[i] == Holds(ms[i], p)
  {
    seq(|ms|, i requires 0 <= i < |ms| => Holds(ms[i], p))
  }

  function Bit(b: bool): nat {
    if b then 1 else 0
  }

  /** Over all lists together, an open connection occurs exactly once, any other never. */
  ghost predicate OneHomeEach(v: Vhost) {
    forall id: nat :: Total(Rosters(v.instances, id)) == Bit(id in v.open)
  }

  /** Every payload ever allocated is freed exactly once or held exactly once, and never both. */
  ghost predicate Conserved(v: Vhost) {
    forall p: nat :: Count(v.frees, p) + Total(Holdings(v.instances, p)) == if p < v.nextPayload then 1 else 0
  }

  ghost predicate Sane(ms: seq<Instance>) {
    |ms| <= MAX_MIRROR_INSTANCES && forall i :: 0 <= i < |ms| ==> Sound(ms[i]) && ms[i].sessions != []
  }

  ghost predicate Inv(v: Vhost) {
    && Sane(v.instances)
    && OneHomeEach(v) && v.open <= v.seen
    && Conserved(v)
  }

  lemma RostersChange(ms: seq<Instance>, i: nat, m: Instance, id: nat)
    requires i < |ms|
    ensures Rosters(ms[i := m], id) == Rosters(ms, id)[i := Count(Ids(m.sessions), id)]
    ensures Rosters(Rest(ms, i), id) == Rosters(ms, id)[..i] + Rosters(ms, id)[i + 1..]
  {
  }

  lemma HoldingsChange(ms: seq<Instance>, i: nat, m: Instance, p: nat)
    requires i < |ms|
    ensures Holdings(ms[i := m], p) == Holdings(ms, p)[i := Holds(m, p)]
    ensures Holdings(Rest(ms, i), p) == Holdings(ms, p)[..i] + Holdings(ms, p)[i + 1..]
  {
  }

  /** What the oldest tail passes is what the instance no longer holds. */
  lemma HoldsSplit(log: seq<Msg>, from: nat, to: nat, p: nat)
    requires from <= to <= |log|
    ensures Count(Payloads(log[from..]), p) == Count(Payloads(log[from..to]), p) + Count(Payloads(log[to..]), p)
  {
    assert Payloads(log[from..]) == Payloads(log[from..to]) + Payloads(log[to..]);
    CountConcat(Payloads(log[from..to]), Payloads(log[to..]), p);
  }

  lemma ReplaceConserves(v: Vhost, i: nat, m: Instance)
    requires Conserved(v) && i < |v.instances|
    requires m.log == v.instances[i].log && v.instances[i].oldest <= m.oldest <= |m.log|
    ensures Conserved(Replace(v, i, m))
  {
    var r := Replace(v, i, m);
    var was := v.instances[i];
    forall p: nat ensures Count(r.frees, p) + Total(Holdings(r.instances, p)) == if p < v.nextPayload then 1 else 0 {
      HoldsSplit(m.log, was.oldest, m.oldest, p);
      CountConcat(v.frees, Payloads(m.log[was.oldest..m.oldest]), p);
      HoldingsChange(v.instances, i, m, p);
      TotalUpdate(Holdings(v.instances, p), i, Holds(m, p));
    }
  }

  lemma RetireConserves(v: Vhost, i: nat)
    requires Conserved(v) && i < |v.instances| && v.instances[i].oldest <= |v.instances[i].log|
    ensures Conserved(Retire(v, i))
  {
    var r := Retire(v, i);
    var was := v.instances[i];
    forall p: nat ensures Count(r.frees, p) + Total(Holdings(r.instances, p)) == if p < v.nextPayload then 1 else 0 {
      CountConcat(v.frees, Payloads(was.log[was.oldest..]), p);
      HoldingsChange(v.instances, i, was, p);
      TotalRemove(Holdings(v.instances, p), i);
    }
  }

  /** Storing one message under a fresh allocation. */
  lemma StoreConserves(v: Vhost, i: nat, m: Instance, text: string)
    requires Conserved(v) && i < |v.instances|
    requires m.oldest == v.instances[i].oldest <= |v.instances[i].log|
    requires m.log == v.instances[i].log + [Msg(v.nextPayload, text)]
    ensures Conserved(v.(instances := v.instances[i := m], nextPayload := v.nextPayload + 1))
  {
    var was := v.instances[i];
    forall p: nat
      ensures Count(v.frees, p) + Total(Holdings(v.instances[i := m], p)) == if p < v.nextPayload + 1 then 1 else 0
    {
      HoldsSplit(m.log, m.oldest, |was.log|, p);
      assert m.log[m.oldest..|was.log|] == was.log[was.oldest..];
      assert m.log[|was.log|..] == [Msg(v.nextPayload, text)];
      assert Payloads(m.log[|was.log|..]) == [v.nextPayload];
      HoldingsChange(v.instances, i, m, p);
      TotalUpdate(Holdings(v.instances, p), i, Holds(m, p));
    }
  }

  /** What a list gains or loses are the connections that open or close. */
  lemma HomesUpdate(v: Vhost, i: nat, m: Instance, open: set<nat>)
    requires OneHomeEach(v) && i < |v.instances|
    requires forall id: nat ::
      Count(Ids(m.sessions), id) + Bit(id in v.open) == Count(Ids(v.instances[i].sessions), id) + Bit(id in open)
    ensures OneHomeEach(v.(instances := v.instances[i := m], open := open))
  {
    forall id: nat ensures Total(Rosters(v.instances[i := m], id)) == Bit(id in open) {
      RostersChange(v.instances, i, m, id);
      TotalUpdate(Rosters(v.instances, id), i, Count(Ids(m.sessions), id));
    }
  }

  lemma HomesRetire(v: Vhost, i: nat, open: set<nat>)
    requires OneHomeEach(v) && i < |v.instances|
    requires forall id: nat :: Bit(id in v.open) == Count(Ids(v.instances[i].sessions), id) + Bit(id in open)
    ensures OneHomeEach(v.(instances := Rest(v.instances, i), open := open))
  {
    forall id: nat ensures Total(Rosters(Rest(v.instances, i), id)) == Bit(id in open) {
      RostersChange(v.instances, i, v.instances[i], id);
      TotalRemove(Rosters(v.instances, id), i);
    }
  }

  lemma WithoutIds(ss: seq<Session>, j: nat, id: nat)
    requires j < |ss|
    ensures Count(Ids(ss), id) == Count(Ids(Without(ss, j)), id) + Bit(id == ss[j].id)
  {
    assert Ids(Without(ss, j)) == Ids(ss[..j]) + Ids(ss[j + 1..]);
    assert Ids(ss) == Ids(ss[..j]) + ([ss[j].id] + Ids(ss[j + 1..]));
    CountConcat(Ids(ss[..j]), Ids(ss[j + 1..]), id);
    CountConcat(Ids(ss[..j]), [ss[j].id] + Ids(ss[j + 1..]), id);
    CountConcat([ss[j].id], Ids(ss[j + 1..]), id);
  }

  /** A connection on a list is open. */
  lemma ListedIsOpen(v: Vhost, i: nat, j: nat)
    requires OneHomeEach(v) && i < |v.instances| && j < |v.instances[i].sessions|
    ensures v.instances[i].sessions[j].id in v.open
  {
    var id := v.instances[i].sessions[j].id;
    WithoutIds(v.instances[i].sessions, j, id);
    TotalUpdate(Rosters(v.instances, id), i, 0);
  }

  lemma ReplaceKeeps(v: Vhost, i: nat, m: Instance, open: set<nat>)
    requires Inv(v) && i < |v.instances| && Sound(m) && m.sessions != [] && open <= v.open
    requires m.log == v.instances[i].log && v.instances[i].oldest <= m.oldest
    requires forall id: nat ::
      Count(Ids(m.sessions), id) + Bit(id in v.open) == Count(Ids(v.instances[i].sessions), id) + Bit(id in open)
    ensures Inv(Replace(v.(open := open), i, m))
  {
    assert Conserved(Replace(v.(open := open), i, m)) by {
      ReplaceConserves(v.(open := open), i, m);
    }
    assert OneHomeEach(Replace(v.(open := open), i, m)) by {
      HomesUpdate(v, i, m, open);
    }
  }

  lemma RetireKeeps(v: Vhost, i: nat)
    requires Inv(v) && i < |v.instances| && |v.instances[i].sessions| == 1 && Sound(v.instances[i])
    ensures Inv(Close(v, i, 0))
  {
    var r, id := Close(v, i, 0), v.instances[i].sessions[0].id;
    assert Conserved(r) by {
      RetireConserves(v.(open := v.open - {id}), i);
    }
    assert OneHomeEach(r) by {
      ListedIsOpen(v, i, 0);
      assert Ids(v.instances[i].sessions) == [id];
      HomesRetire(v, i, v.open - {id});
    }
  }

  lemma AdvanceKeeps(v: Vhost, i: nat, m: Instance)
    requires Inv(v) && i < |v.instances| && Sound(m) && Advances(v.instances[i], m)
    ensures Inv(Replace(v, i, m))
  {
    assert Ids(m.sessions) == Ids(v.instances[i].sessions);
    ReplaceKeeps(v, i, m, v.open);
  }

  lemma CloseKeeps(v: Vhost, i: nat, j: nat)
    requires Inv(v) && i < |v.instances| && j < |v.instances[i].sessions| && |v.instances[i].sessions| > 1
    requires Sound(v.instances[i])
    ensures Inv(Close(v, i, j))
  {
    var was := v.instances[i];
    DetachKeeps(was, j);
    ListedIsOpen(v, i, j);
    var m, open := Detach(was, j), v.open - {was.sessions[j].id};
    assert Ids(m.sessions) == Ids(Without(was.sessions, j));
    forall id: nat
      ensures Count(Ids(m.sessions), id) + Bit(id in v.open) == Count(Ids(was.sessions), id) + Bit(id in open)
    {
      WithoutIds(was.sessions, j, id);
    }
    ReplaceKeeps(v, i, m, open);
  }

  lemma ReceivedKeeps(v: Vhost, i: nat, text: string, oom: bool)
    requires Inv(v) && i < |v.instances|
    ensures var m := Receive(v.instances[i], Msg(v.nextPayload, text), oom);
            var next := if Accepts(v.instances[i], oom) then v.nextPayload + 1 else v.nextPayload;
            Inv(v.(instances := v.instances[i := m], nextPayload := next))
  {
    var was := v.instances[i];
    assert Sound(was);
    var m := Receive(was, Msg(v.nextPayload, text), oom);
    ReceiveKeeps(was, Msg(v.nextPayload, text), oom);
    assert Ids(m.sessions) == Ids(was.sessions);
    HomesUpdate(v, i, m, v.open);
    if Accepts(was, oom) {
      StoreConserves(v, i, m, text);
    } else {
      ReplaceConserves(v, i, m);
      assert Replace(v, i, m).frees == v.frees;
    }
  }

  lemma AttachIds(m: Instance, id: nat)
    ensures Ids(Attach(m, id).sessions) == [id] + Ids(m.sessions)
    ensures forall x: nat :: Count(Ids(Attach(m, id).sessions), x) == Count(Ids(m.sessions), x) + Bit(x == id)
  {
    forall x: nat ensures Count([id] + Ids(m.sessions), x) == Count(Ids(m.sessions), x) + Bit(x == id) {
      CountConcat([id], Ids(m.sessions), x);
    }
  }

  lemma AttachHomes(v: Vhost, i: nat, id: nat)
    requires OneHomeEach(v) && i < |v.instances| && id !in v.open
    ensures OneHomeEach(v.(instances := v.instances[i := Attach(v.instances[i], id)], open := v.open + {id}))
  {
    var was, m, open := v.instances[i], Attach(v.instances[i], id), v.open + {id};
    AttachIds(was, id);
    forall x: nat ensures Count(Ids(m.sessions), x) + Bit(x in v.open) == Count(Ids(was.sessions), x) + Bit(x in open) {
      assert Count(Ids(m.sessions), x) == Count(Ids(was.sessions), x) + Bit(x == id);
    }
    HomesUpdate(v, i, m, open);
  }

  lemma JoinExistingKeeps(v: Vhost, i: nat, id: nat)
    requires Inv(v) && id !in v.seen && i < |v.instances|
    ensures Inv(v.(instances := v.instances[i := Attach(v.instances[i], id)],
                   seen := v.seen + {id}, open := v.open + {id}))
  {
    var m := Attach(v.instances[i], id);
    assert Sound(m) by {
      assert Sound(v.instances[i]);
      AttachKeeps(v.instances[i], id);
    }
    var r := v.(instances := v.instances[i := m], seen := v.seen + {id}, open := v.open + {id});
    assert Sane(r.instances);
    assert OneHomeEach(r) by {
      AttachHomes(v, i, id);
    }
    assert Conserved(r) by {
      assert Sound(v.instances[i]);
      ReplaceConserves(v, i, m);
      assert Replace(v, i, m).frees == v.frees;
    }
  }

  lemma NewHomes(v: Vhost, m: Instance, id: nat)
    requires OneHomeEach(v) && id !in v.open
    requires forall x: nat :: Count(Ids(m.sessions), x) == Bit(x == id)
    ensures OneHomeEach(v.(instances := [m] + v.instances, open := v.open + {id}))
  {
    forall x: nat ensures Total(Rosters([m] + v.instances, x)) == Bit(x in v.open + {id}) {
      assert Rosters([m] + v.instances, x) == [Count(Ids(m.sessions), x)] + Rosters(v.instances, x);
      TotalConcat([Count(Ids(m.sessions), x)], Rosters(v.instances, x));
      assert Total([Count(Ids(m.sessions), x)]) == Bit(x == id);
    }
  }

  lemma NewConserves(v: Vhost, m: Instance)
    requires Conserved(v) && m.log == []
    ensures Conserved(v.(instances := [m] + v.instances))
  {
    forall p: nat ensures Total(Holdings([m] + v.instances, p)) == Total(Holdings(v.instances, p)) {
      assert Holdings([m] + v.instances, p) == [Holds(m, p)] + Holdings(v.instances, p);
      TotalConcat([Holds(m, p)], Holdings(v.instances, p));
    }
  }

  lemma JoinNewKeeps(v: Vhost, name: string, id: nat)
    requires Inv(v) && id !in v.seen && |v.instances| < MAX_MIRROR_INSTANCES
    ensures Inv(v.(instances := [Attach(NewInstance(name, id), id)] + v.instances,
                   seen := v.seen + {id}, open := v.open + {id}))
  {
    var m := Attach(NewInstance(name, id), id);
    assert Sound(m) by {
      AttachKeeps(NewInstance(name, id), id);
    }
    AttachIds(NewInstance(name, id), id);
    NewHomes(v, m, id);
    NewConserves(v, m);
  }

  lemma CallbackKeeps(v: Vhost, i: nat, j: nat, step: Step)
    requires Inv(v) && !step.Established? && i < |v.instances| && j < |v.instances[i].sessions|
    requires Sound(v.instances[i])
    ensures Inv(Callback(v, i, j, step))
  {
    var m, r := v.instances[i], Callback(v, i, j, step);
    if step.Closed? {
      assert r == Close(v, i, j);
      if |m.sessions| == 1 {
        RetireKeeps(v, i);
      } else {
        CloseKeeps(v, i, j);
      }
    } else if m.sessions[j].broken {
      assert r == v;
    } else if step.ServerWriteable? {
      WriteableKeeps(m, j, step.pipe);
      AdvanceKeeps(v, i, Writeable(m, j, step.pipe));
      assert r == Replace(v, i, Writeable(m, j, step.pipe));
    } else {
      ReceivedKeeps(v, i, step.text, step.oom);
    }
  }

  lemma ApplyKeeps(v: Vhost, step: Step)
    requires Inv(v)
    ensures Inv(Apply(v, step))
  {
    if step.Established? {
      if step.id !in v.seen {
        var found := FindName(v.instances, step.name);
        if found.Some? {
          JoinExistingKeeps(v, found.value, step.id);
        } else if |v.instances| < MAX_MIRROR_INSTANCES {
          JoinNewKeeps(v, step.name, step.id);
        }
      }
    } else {
      var home := InstanceOf(v.instances, step.id);
      if home.Some? {
        CallbackKeeps(v, home.value, IndexOf(v.instances[home.value].sessions, step.id).value, step);
      }
    }
  }

  const EMPTY: Vhost := Vhost([], 0, [], {}, {})

  /** Callback `k` of a run leads from one state to the next.  Apply is only defined where the invariant
      holds; AnyRun shows that this stops no run. */
  ghost predicate StepAt(states: seq<Vhost>, steps: seq<Step>, k: nat) {
    k + 1 < |states| && k < |steps| && Inv(states[k]) && states[k + 1] == Apply(states[k], steps[k])
  }

  /** The states a vhost goes through over a sequence of callbacks. */
  ghost predicate IsRun(states: seq<Vhost>, steps: seq<Step>) {
    |states| == |steps| + 1 && states[0] == EMPTY && forall k: nat :: k < |steps| ==> StepAt(states, steps, k)
  }

  lemma EmptyInv()
    ensures Inv(EMPTY)
  {
  }

  /** The invariant holds all along every run. */
  lemma {:induction false} RunKeeps(states: seq<Vhost>, steps: seq<Step>, k: nat)
    requires IsRun(states, steps) && k <= |steps|
    ensures Inv(states[k])
  {
    if k == 0 {
      EmptyInv();
    } else {
      assert StepAt(states, steps, k - 1);
      ApplyKeeps(states[k - 1], steps[k - 1]);
    }
  }

  /** Any callbacks in any order make a run. */
  lemma {:induction false} AnyRun(steps: seq<Step>) returns (states: seq<Vhost>)
    ensures IsRun(states, steps)
  {
    if steps == [] {
      states := [EMPTY];
    } else {
      var front, n := steps[..|steps| - 1], |steps| - 1;
      var before := AnyRun(front);
      RunKeeps(before, front, n);
      states := RunOn(before, front, steps[n]);
      assert front + [steps[n]] == steps;
    }
  }

  lemma RunOn(states: seq<Vhost>, steps: seq<Step>, step: Step) returns (r: seq<Vhost>)
    requires IsRun(states, steps) && Inv(states[|steps|])
    ensures IsRun(r, steps + [step]) && r == states + [Apply(states[|steps|], step)]
  {
    r := states + [Apply(states[|steps|], step)];
    forall k: nat | k < |steps + [step]| ensures StepAt(r, steps + [step], k) {
      assert k < |steps| ==> StepAt(states, steps, k);
    }
  }

  ghost predicate Reachable(v: Vhost) {
    exists states, steps :: IsRun(states, steps) && states[|steps|] == v
  }

  lemma ReachableInv(v: Vhost)
    requires Reachable(v)
    ensures Inv(v)
  {
    var states, steps :| IsRun(states, steps) && states[|steps|] == v;
    RunKeeps(states, steps, |steps|);
  }

  lemma ReachableEmpty()
    ensures Reachable(EMPTY)
  {
    assert IsRun([EMPTY], []);
  }

  lemma ReachableStep(v: Vhost, step: Step)
    requires Reachable(v)
    ensures Inv(v) && Reachable(Apply(v, step))
  {
    ReachableInv(v);
    var states, steps :| IsRun(states, steps) && states[|steps|] == v;
    var r := RunOn(states, steps, step);
    assert r[|steps + [step]|] == Apply(v, step);
  }
}
