/**
 What each callback of the mirror protocol must do, said without the code: where a message goes, whom a
 newcomer joins, how much is written, when rx stops and resumes, and who is put on the timeout.
 */
module MirrorLaws {
  import opened Wrappers
  import opened MirrorSpec
  import opened MirrorRuns
  import opened MirrorTheorems

  // ---- one instance -----------------------------------------------------------------------------

  /** The reading of a session is the same. */
  ghost predicate SameReading(s: Session, t: Session) {
    t.id == s.id && t.joined == s.joined && t.tail == s.tail && t.sent == s.sent && t.broken == s.broken
  }

  /** Rx went from on to off, or off to on, for the instance and all its sessions; or stayed. */
  ghost predicate RxGoesTo(m: Instance, r: Instance, on: bool) {
    && |r.sessions| == |m.sessions| && r.rxEnabled == on
    && forall k :: 0 <= k < |m.sessions| ==> r.sessions[k].rxOn == if on == m.rxEnabled then m.sessions[k].rxOn else on
  }

  /** RECEIVE: the message is added to the log if there is room and memory, and else to nothing; rx stops
      when fewer than RXFLOW_MIN are free; everybody is asked to write unless memory ran out; and nobody's
      reading or timeout changes. */
  ghost predicate TookIn(m: Instance, r: Instance, msg: Msg, oom: bool) {
    var stored := 0 < Free(m) && !oom;
    && r.name == m.name && r.founder == m.founder && r.oldest == m.oldest
    && r.log == (if stored then m.log + [msg] else m.log)
    && RxGoesTo(m, r, m.rxEnabled && (stored ==> RXFLOW_MIN <= Free(r)))
    && forall k :: 0 <= k < |m.sessions| ==>
         && SameReading(m.sessions[k], r.sessions[k]) && r.sessions[k].timeout == m.sessions[k].timeout
         && (stored || Free(m) == 0 ==> r.sessions[k].wantWrite && !r.sessions[k].idle)
  }

  lemma ReceiveLaw(m: Instance, msg: Msg, oom: bool)
    requires Loose(m)
    ensures TookIn(m, Receive(m, msg, oom), msg, oom)
  {
  }

  /** The oldest tail is where the slowest reader is.  If it moved, the readers now at it are put on the
      timeout, if they have anything to read, and no others; and rx resumes, if it was off, when
      RXFLOW_MAX are free.  If it did not move nothing changed. */
  ghost predicate Reconfirmed(m: Instance, r: Instance) {
    && r.name == m.name && r.founder == m.founder && r.log == m.log && IsMinTail(m.sessions, r.oldest)
    && |r.sessions| == |m.sessions|
    && if r.oldest == m.oldest then r == m
       else
         && RxGoesTo(m, r, m.rxEnabled || RXFLOW_MAX <= Free(r))
         && forall k :: 0 <= k < |m.sessions| ==>
              && SameReading(m.sessions[k], r.sessions[k])
              && r.sessions[k].wantWrite == m.sessions[k].wantWrite && r.sessions[k].idle == m.sessions[k].idle
              && (r.sessions[k].timeout <==> m.sessions[k].timeout || m.sessions[k].tail == r.oldest < |m.log|)
  }

  lemma UpdateWorstTailLaw(m: Instance)
    requires m.sessions != [] && AllGood(m)
    ensures Reconfirmed(m, UpdateWorstTail(m))
  {
    assert forall k :: 0 <= k < |m.sessions| ==> Good(m.log, m.oldest, m.sessions[k]);
  }

  /** What WRITEABLE makes of a session: it is sent the next `n` messages, all there are or as many as the
      socket takes, one at least if it is not failing; it asks again for the rest, unless the write
      failed. */
  ghost predicate WroteNext(log: seq<Msg>, s: Session, t: Session, pipe: Pipe, n: nat) {
    && s.tail + n <= |log| && t.tail == s.tail + n && t.sent == s.sent + log[s.tail..s.tail + n]
    && t.id == s.id && t.joined == s.joined && t.rxOn == s.rxOn
    && (t.tail == |log| || n == pipe.room || (n == 1 && pipe.room == 0 && !pipe.breaks))
    && (pipe.room < n ==> n == 1 && pipe.room == 0 && !pipe.breaks)
    && (t.broken <==> s.broken || (pipe.breaks && t.tail < |log|))
    && (t.wantWrite <==> t.tail < |log| && !pipe.breaks)
  }

  lemma WrittenLaw(log: seq<Msg>, oldest: nat, s: Session, pipe: Pipe)
    requires Good(log, oldest, s) && !s.broken
    ensures var t, n := Written(log, oldest, s, pipe), Sendable(|log| - s.tail, pipe);
            && WroteNext(log, s, t, pipe, n) && Good(log, oldest, t)
            && (Leads(log, oldest, s, pipe) <==> s.tail == oldest && 0 < n && !t.broken)
            && (t.timeout <==> s.timeout && !Leads(log, oldest, s, pipe))
  {
    WrittenGood(log, oldest, s, pipe);
  }

  lemma WriteableLaw(m: Instance, i: nat, pipe: Pipe) returns (t: Session, n: nat)
    requires Loose(m) && i < |m.sessions| && !m.sessions[i].broken
    ensures m.sessions[i].tail <= |m.log| && WroteNext(m.log, m.sessions[i], t, pipe, n)
    ensures var lead := m.sessions[i].tail == m.oldest && 0 < n && !t.broken;
            var mid := m.(sessions := m.sessions[i := t]);
            && (t.timeout <==> m.sessions[i].timeout && !lead)
            && if lead then Reconfirmed(mid, Writeable(m, i, pipe)) else Writeable(m, i, pipe) == mid
  {
    var s := m.sessions[i];
    assert Good(m.log, m.oldest, s);
    t, n := Written(m.log, m.oldest, s, pipe), Sendable(|m.log| - s.tail, pipe);
    WrittenLaw(m.log, m.oldest, s, pipe);
    if Leads(m.log, m.oldest, s, pipe) {
      UpdateWorstTailLaw(Put(m, i, t));
    }
  }

  /** CLOSED, while others stay. */
  lemma DetachLaw(m: Instance, i: nat)
    requires AllGood(m) && i < |m.sessions| && |m.sessions| > 1
    ensures Reconfirmed(m.(sessions := m.sessions[..i] + m.sessions[i + 1..]), Detach(m, i))
  {
    var m1 := m.(sessions := Without(m.sessions, i));
    assert forall j :: 0 <= j < |m1.sessions| ==> m1.sessions[j] == m.sessions[if j < i then j else j + 1];
    UpdateWorstTailLaw(m1);
  }

  // ---- the vhost --------------------------------------------------------------------------------

  /** No instance but `i` changed. */
  ghost predicate OnlyAt(v: Vhost, w: Vhost, i: nat) {
    |w.instances| == |v.instances| && forall k :: 0 <= k < |v.instances| && k != i ==> w.instances[k] == v.instances[k]
  }

  /** A message goes to the instance of the connection it came from, and to no other. */
  lemma ReceivedLaw(v: Vhost, id: nat, text: string, oom: bool, i: nat, j: nat)
    requires Reachable(v) && At(v, id, i, j) && !v.instances[i].sessions[j].broken
    ensures Inv(v)
    ensures var w := Apply(v, Received(id, text, oom));
            && OnlyAt(v, w, i) && TookIn(v.instances[i], w.instances[i], Msg(v.nextPayload, text), oom)
            && w.frees == v.frees && w.seen == v.seen && w.open == v.open
            && w.nextPayload == v.nextPayload + Bit(0 < Free(v.instances[i]) && !oom)
  {
    ReachableInv(v);
    CallbackAt(v, i, j, Received(id, text, oom));
    ReceiveLaw(v.instances[i], Msg(v.nextPayload, text), oom);
  }

  /** WRITEABLE of one session leaves the other instances alone, and moves the oldest tail of its own only
      if it was there and wrote. */
  lemma WrittenAtLaw(v: Vhost, id: nat, pipe: Pipe, i: nat, j: nat) returns (t: Session, n: nat)
    requires Reachable(v) && At(v, id, i, j) && !v.instances[i].sessions[j].broken
    ensures Inv(v) && WroteNext(v.instances[i].log, v.instances[i].sessions[j], t, pipe, n)
    ensures var w := Apply(v, ServerWriteable(id, pipe)); var m := v.instances[i];
            var lead := m.sessions[j].tail == m.oldest && 0 < n && !t.broken;
            var mid := m.(sessions := m.sessions[j := t]);
            && OnlyAt(v, w, i) && w.seen == v.seen && w.open == v.open && w.nextPayload == v.nextPayload
            && (t.timeout <==> m.sessions[j].timeout && !lead)
            && if lead then Reconfirmed(mid, w.instances[i]) else w.instances[i] == mid
  {
    ReachableInv(v);
    CallbackAt(v, i, j, ServerWriteable(id, pipe));
    t, n := WriteableLaw(v.instances[i], j, pipe);
  }

  /** A connection that closes leaves its instance to the others, or takes it along as the last. */
  lemma ClosedLaw(v: Vhost, id: nat, i: nat, j: nat)
    requires Reachable(v) && At(v, id, i, j)
    ensures Inv(v)
    ensures var w := Apply(v, Closed(id)); var m := v.instances[i];
            && w.open == v.open - {id} && w.seen == v.seen && w.nextPayload == v.nextPayload
            && if |m.sessions| == 1 then w.instances == v.instances[..i] + v.instances[i + 1..]
               else
                 && OnlyAt(v, w, i)
                 && Reconfirmed(m.(sessions := m.sessions[..j] + m.sessions[j + 1..]), w.instances[i])
  {
    ReachableInv(v);
    CallbackAt(v, i, j, Closed(id));
    if |v.instances[i].sessions| > 1 {
      DetachLaw(v.instances[i], j);
    }
  }

  ghost predicate IsFirst(ms: seq<Instance>, name: string, i: int) {
    0 <= i < |ms| && ms[i].name == name && forall k :: 0 <= k < i ==> ms[k].name != name
  }

  /** A newcomer reads from the oldest tail on, has been sent nothing and is neither timed nor asked. */
  ghost predicate IsNew(s: Session, id: nat, m: Instance) {
    && s.id == id && s.joined == s.tail == m.oldest && s.sent == []
    && s.rxOn && !s.timeout && !s.wantWrite && s.idle && !s.broken
  }

  /** `r` is `m` with a newcomer. */
  ghost predicate Joined(m: Instance, r: Instance, id: nat) {
    && r == m.(sessions := r.sessions) && |r.sessions| == |m.sessions| + 1
    && IsNew(r.sessions[0], id, m) && r.sessions[1..] == m.sessions
  }

  /** `r` was created for a newcomer. */
  ghost predicate Created(r: Instance, id: nat, name: string) {
    && r.founder == id && r.name == (if |name| <= NAME_MAX then name else name[..NAME_MAX])
    && r.log == [] && r.oldest == 0 && r.rxEnabled && |r.sessions| == 1 && IsNew(r.sessions[0], id, r)
  }

  /** A new connection joins the first instance of the name it asks for; failing that one is created for
      it alone; failing that it is refused. */
  ghost predicate Admitted(v: Vhost, w: Vhost, id: nat, name: string, oom: bool) {
    && w.seen == v.seen + {id} && w.frees == v.frees && w.nextPayload == v.nextPayload
    && (forall i :: IsFirst(v.instances, name, i) ==>
          OnlyAt(v, w, i) && Joined(v.instances[i], w.instances[i], id) && w.open == v.open + {id})
    && ((forall i :: !IsFirst(v.instances, name, i)) ==>
          if |v.instances| < MAX_MIRROR_INSTANCES && !oom then
            && |w.instances| == |v.instances| + 1 && w.instances[1..] == v.instances && w.open == v.open + {id}
            && Created(w.instances[0], id, name)
          else w.instances == v.instances && w.open == v.open)
  }

  lemma JoinLaw(v: Vhost, id: nat, name: string, oom: bool)
    requires |v.instances| <= MAX_MIRROR_INSTANCES
    ensures Admitted(v, Join(v, id, name, oom), id, name, oom)
  {
    var w, found := Join(v, id, name, oom), FindName(v.instances, name);
    if found.Some? {
      var i := found.value;
      assert IsFirst(v.instances, name, i);
      assert forall k :: IsFirst(v.instances, name, k) ==> k == i;
      assert w.instances[i].sessions[1..] == v.instances[i].sessions;
    } else if |v.instances| < MAX_MIRROR_INSTANCES && !oom {
      assert w.instances[1..] == v.instances;
    }
  }

  lemma EstablishedLaw(v: Vhost, id: nat, name: string, oom: bool)
    requires Reachable(v) && id !in v.seen
    ensures Inv(v) && Admitted(v, Apply(v, Established(id, name, oom)), id, name, oom)
  {
    ReachableInv(v);
    JoinLaw(v, id, name, oom);
  }

  // ---- over reachable steps ---------------------------------------------------------------------

  /** Whenever a callback moves an instance's oldest tail, the sessions then at it are on the timeout if
      they have anything to read, and no others whose connection works; and if rx was off it is on again
      exactly when RXFLOW_MAX are free. */
  lemma MovedLaw(v: Vhost, step: Step, i: nat, j: nat)
    requires Reachable(v) && !step.Established? && At(v, step.id, i, j)
    requires Inv(v) && |Apply(v, step).instances| == |v.instances|
    requires Apply(v, step).instances[i].oldest != v.instances[i].oldest
    ensures var m, r := v.instances[i], Apply(v, step).instances[i];
            && (m.rxEnabled || RXFLOW_MAX <= Free(r) <==> r.rxEnabled)
            && (forall k :: 0 <= k < |r.sessions| && r.sessions[k].tail == r.oldest < |r.log| ==> r.sessions[k].timeout)
            && (forall k :: 0 <= k < |r.sessions| && r.sessions[k].timeout && !r.sessions[k].broken ==>
                  r.sessions[k].tail == r.oldest < |r.log|)
  {
    ApplyKeeps(v, step);
    var m, r := v.instances[i], Apply(v, step).instances[i];
    assert Sound(r);
    assert forall k :: 0 <= k < |r.sessions| ==> Good(r.log, r.oldest, r.sessions[k]);
    match step
    case Closed(id) => ClosedLaw(v, id, i, j);
    case ServerWriteable(id, pipe) =>
      if !m.sessions[j].broken {
        var t, n := WrittenAtLaw(v, id, pipe, i, j);
      } else {
        CallbackAt(v, i, j, step);
      }
    case Received(id, text, oom) =>
      if !m.sessions[j].broken {
        ReceivedLaw(v, id, text, oom, i, j);
      } else {
        CallbackAt(v, i, j, step);
      }
  }
}
