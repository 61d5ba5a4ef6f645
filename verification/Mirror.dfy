/**
 The mirror protocol's callbacks as they run: sessions updated in place, tails that are offsets into
 a shared ring, loops over the session list.  Each is proved to do what MirrorSpec says.
 */
module Mirror {
  import opened Wrappers
  import opened Ring
  import Spec = MirrorSpec

  type Slot = Option<Spec.Msg>  // struct a_message; None is the NULL payload

  /** struct per_session_data__lws_mirror, with the connection state lws keeps in its wsi. */
  class Pss {
    const id: nat
    var tail: nat
    var rxOn: bool
    var timeout: bool
    var wantWrite: bool
    ghost var number: nat  // sequence number of the tail
    ghost var joined: nat
    ghost var sent: seq<Spec.Msg>
    ghost var idle: bool
    ghost var broken: bool

    constructor (id: nat)
      ensures this.id == id
    {
      this.id := id;
      tail, rxOn, timeout, wantWrite := 0, true, false, false;
    }

    /** A newcomer's state. */
    method Start(tail: nat, ghost number: nat)
      modifies this
      ensures this.tail == tail
      ensures Abs() == Spec.Session(id, number, number, [], true, false, false, true, false)
    {
      this.tail := tail;
      rxOn, timeout, wantWrite := true, false, false;
      this.number, joined, sent, idle, broken := number, number, [], true, false;
    }

    ghost function Abs(): Spec.Session
      reads this
    {
      Spec.Session(id, joined, number, sent, rxOn, timeout, wantWrite, idle, broken)
    }

    /** This session's position in a ring of stored messages. */
    ghost predicate At(ring: Ring<Slot>)
      reads this, ring, ring.buf
    {
      ring.Valid() && ring.TailAt(tail, number) && forall k :: 0 <= k < |ring.log| ==> ring.log[k].Some?
    }

    /** One turn of the write loop, after `done` messages: nothing left, a failed write, or one more. */
    method WriteNext(ring: Ring<Slot>, pipe: Spec.Pipe, done: nat) returns (wrote: bool, ok: bool, stop: bool)
      requires At(ring)
      modifies this`tail, this`number, this`sent
      ensures At(ring)
      ensures ok <==> !(old(number) < |ring.log| && pipe.breaks && done == pipe.room)
      ensures wrote <==> old(number) < |ring.log| && ok
      ensures (stop <==> !wrote || (!pipe.breaks && pipe.room <= done + 1))
              && number == old(number) + (if wrote then 1 else 0)
              && sent == if wrote then old(sent) + [Texts(ring.log)[old(number)]] else old(sent)
    {
      var element := ring.GetElement(tail, number);
      if element.None? {
        return false, true, true;
      }
      if element.value.None? {
        assert false;  // NULL payload: the ring never hands out a destroyed element
      }
      if pipe.breaks && done == pipe.room {
        return false, false, true;
      }
      sent := sent + [element.value.value];
      var newTail, n := ring.Consume(tail, number, 1);
      tail, number := newTail, number + 1;
      return true, true, !pipe.breaks && pipe.room <= done + 1;
    }

    /** The write loop of SERVER_WRITEABLE; `ok` is false when a write failed. */
    method Drain(ring: Ring<Slot>, pipe: Spec.Pipe) returns (done: nat, ok: bool)
      requires At(ring)
      modifies this`tail, this`number, this`sent
      ensures At(ring)
      ensures done == Spec.Sendable(|ring.log| - old(number), pipe)
      ensures ok <==> !Spec.Fails(|ring.log| - old(number), pipe)
      ensures number == old(number) + done && sent == old(sent) + Texts(ring.log)[old(number)..number]
    {
      ghost var waiting := |ring.log| - number;
      ghost var log := Texts(ring.log);
      done, ok := 0, true;
      var stop := false;
      while !stop
        invariant At(ring) && number == old(number) + done && sent == old(sent) + log[old(number)..number]
        invariant stop || Going(waiting, pipe, done)
        invariant stop ==> done == Spec.Sendable(waiting, pipe) && (ok <==> !Spec.Fails(waiting, pipe))
        decreases !stop, |ring.log| - number
      {
        NextTurn(waiting, pipe, done);
        SentMore(old(sent), log, old(number), number);
        var wrote;
        wrote, ok, stop := WriteNext(ring, pipe, done);
        if wrote {
          done := done + 1;
        }
      }
    }

    /** SERVER_WRITEABLE up to the point where the oldest tail may have to move; `lead` says it has. */
    method WriteSome(ring: Ring<Slot>, pipe: Spec.Pipe) returns (ok: bool, lead: bool)
      requires At(ring)
      modifies this`tail, this`number, this`sent, this`wantWrite, this`idle, this`timeout, this`broken
      ensures At(ring)
      ensures ok <==> !Spec.Fails(|ring.log| - old(number), pipe)
      ensures lead <==> ok && 0 < Spec.Sendable(|ring.log| - old(number), pipe) && old(number) == ring.oldest
      ensures number == old(number) + Spec.Sendable(|ring.log| - old(number), pipe)
      ensures sent == old(sent) + Texts(ring.log)[old(number)..number]
      ensures (wantWrite <==> ok && number < |ring.log|) && (timeout <==> old(timeout) && !lead)
      ensures (idle <==> old(idle) && !ok) && (broken <==> old(broken) || !ok)
    {
      var updateWorst := ring.oldestTail == tail;
      var done;
      done, ok := Drain(ring, pipe);
      lead := ok && 0 < done && updateWorst;
      Settle(ring, ok, lead);
    }

    /** The same, as one change of the session. */
    method WriteAbs(ring: Ring<Slot>, pipe: Spec.Pipe) returns (ok: bool, lead: bool)
      requires At(ring)
      modifies this`tail, this`number, this`sent, this`wantWrite, this`idle, this`timeout, this`broken
      ensures At(ring)
      ensures ok <==> !Spec.Fails(|ring.log| - old(number), pipe)
      ensures lead <==> Spec.Leads(Texts(ring.log), ring.oldest, old(Abs()), pipe)
      ensures Abs() == Spec.Written(Texts(ring.log), ring.oldest, old(Abs()), pipe)
    {
      ghost var log, s := Texts(ring.log), Abs();
      ok, lead := WriteSome(ring, pipe);
      WrittenIs(log, ring.oldest, s, pipe, Abs());
    }

    method Settle(ring: Ring<Slot>, ok: bool, lead: bool)
      requires At(ring)
      modifies this`wantWrite, this`idle, this`timeout, this`broken
      ensures (wantWrite <==> ok && number < |ring.log|) && (timeout <==> old(timeout) && !lead)
      ensures (idle <==> old(idle) && !ok) && (broken <==> old(broken) || !ok)
    {
      var left := ring.CountWaiting(tail, number);
      wantWrite := ok && left > 0;
      if lead {
        timeout := false;
      }
      if ok {
        idle := false;
      } else {
        broken := true;
      }
    }
  }

  /** WRITEABLE field by field. */
  lemma WrittenIs(log: seq<Spec.Msg>, oldest: nat, s: Spec.Session, pipe: Spec.Pipe, r: Spec.Session)
    requires s.tail <= |log| && r.id == s.id && r.joined == s.joined && r.rxOn == s.rxOn
    requires r.tail == s.tail + Spec.Sendable(|log| - s.tail, pipe) && r.sent == s.sent + log[s.tail..r.tail]
    requires r.timeout <==> s.timeout && !Spec.Leads(log, oldest, s, pipe)
    requires var ok := !Spec.Fails(|log| - s.tail, pipe);
             && (r.wantWrite <==> ok && r.tail < |log|)
             && (r.idle <==> s.idle && !ok) && (r.broken <==> s.broken || !ok)
    ensures r == Spec.Written(log, oldest, s, pipe)
  {
  }

  /** The write loop has not met a reason to stop. */
  ghost predicate Going(waiting: nat, pipe: Spec.Pipe, done: nat) {
    done <= waiting && if pipe.breaks then done <= pipe.room else done == 0 || done < pipe.room
  }

  lemma NextTurn(waiting: nat, pipe: Spec.Pipe, done: nat)
    requires Going(waiting, pipe, done)
    ensures var fails := done < waiting && pipe.breaks && done == pipe.room;
            var last := !pipe.breaks && pipe.room <= done + 1;
            if fails || done == waiting then
              done == Spec.Sendable(waiting, pipe) && (fails <==> Spec.Fails(waiting, pipe))
            else if last then done + 1 == Spec.Sendable(waiting, pipe) && !Spec.Fails(waiting, pipe)
            else Going(waiting, pipe, done + 1)
  {
  }

  lemma SentMore(sent: seq<Spec.Msg>, log: seq<Spec.Msg>, a: nat, b: nat)
    requires a <= b <= |log|
    ensures b < |log| ==> sent + log[a..b] + [log[b]] == sent + log[a..b + 1]
  {
  }

  ghost function Texts(log: seq<Slot>): (r: seq<Spec.Msg>)
    ensures |r| == |log| && forall k :: 0 <= k < |log| && log[k].Some? ==> r[k] == log[k].value
  {
    seq(|log|, k requires 0 <= k < |log| => if log[k].Some? then log[k].value else Spec.Msg(0, ""))
  }

  ghost predicate Distinct(ss: seq<Pss>) {
    forall i, j :: 0 <= i < j < |ss| ==> ss[i] != ss[j]
  }

  ghost function AbsAll(ss: seq<Pss>): (r: seq<Spec.Session>)
    reads ss
    ensures |r| == |ss| && forall i :: 0 <= i < |ss| ==> r[i] == ss[i].Abs()
  {
    seq(|ss|, i requires 0 <= i < |ss| reads ss => ss[i].Abs())
  }

  /** __mirror_destroy_message(): what it leaves in the slot. */
  function DestroyMessage(m: Slot): Slot {
    None
  }

  lemma UpdateWorstTailIs(m: Spec.Instance, t: nat)
    requires m.sessions != [] && Spec.IsMinTail(m.sessions, t)
    ensures Spec.UpdateWorstTail(m) == if t == m.oldest then m else Spec.MoveOldest(m.(oldest := t), t)
  {
    assert Spec.MinTail(m.sessions) == t;
  }

  class MirrorInstance {
    const name: string
    ghost const founder: nat
    const ring: Ring<Slot>
    var sessions: seq<Pss>  // same_mi_pss_list
    var rxEnabled: bool

    ghost predicate Valid()
      reads this, ring, ring.buf, sessions
    {
      && ring.Valid() && ring.buf.Length == Spec.QUEUELEN && 1 < ring.elementLen && ring.destroyElement.Some?
      && (forall k :: 0 <= k < |ring.log| ==> ring.log[k].Some?)
      && Distinct(sessions)
      && (forall i :: 0 <= i < |sessions| ==> ring.TailAt(sessions[i].tail, sessions[i].number))
    }

    ghost function View(): Spec.Instance
      reads this, ring, sessions
    {
      Spec.Instance(name, founder, Texts(ring.log), ring.oldest, rxEnabled, AbsAll(sessions))
    }

    constructor (name: string, ghost founder: nat)
      ensures Valid() && fresh(ring) && fresh(ring.buf)
      ensures View() == Spec.Instance(name, founder, [], 0, true, [])
    {
      this.name, this.founder := name, founder;
      ring := new Ring(16, Spec.QUEUELEN, Some(DestroyMessage));
      sessions, rxEnabled := [], true;
    }

    /** __mirror_rxflow_instance() */
    method RxflowInstance(enable: bool)
      requires Valid()
      modifies this`rxEnabled, sessions`rxOn
      ensures Valid() && View() == Spec.RxflowInstance(old(View()), enable)
    {
      for i := 0 to |sessions|
        invariant forall j :: 0 <= j < |sessions| ==>
          sessions[j].rxOn == if j < i then enable else old(sessions[j].rxOn)
      {
        sessions[i].rxOn := enable;
      }
      assert AbsAll(sessions) == Spec.RxAll(old(AbsAll(sessions)), enable);
      rxEnabled := enable;
    }

    /** __mirror_callback_all_in_mi_on_writable() */
    method CallbackAllOnWritable()
      requires Valid()
      modifies sessions`wantWrite, sessions`idle
      ensures Valid() && View() == old(View()).(sessions := Spec.AskAll(old(View()).sessions))
    {
      for i := 0 to |sessions|
        invariant forall j :: 0 <= j < i ==> sessions[j].wantWrite && !sessions[j].idle
        invariant forall j :: i <= j < |sessions| ==>
          sessions[j].wantWrite == old(sessions[j].wantWrite) && sessions[j].idle == old(sessions[j].idle)
      {
        sessions[i].wantWrite := true;
        sessions[i].idle := false;
      }
    }

    /** The timeout loop of __mirror_update_worst_tail() */
    method TimeSlowest(worstTail: nat, ghost worst: nat)
      requires Valid() && ring.TailAt(worstTail, worst)
      modifies sessions`timeout
      ensures Valid() && View() == old(View()).(sessions := Spec.TimeoutAt(old(View()).sessions, worst))
    {
      for i := 0 to |sessions|
        invariant forall j :: 0 <= j < |sessions| ==>
          sessions[j].timeout == (old(sessions[j].timeout) || (j < i && sessions[j].number == worst))
      {
        if sessions[i].tail == worstTail {
          sessions[i].timeout := true;
        }
      }
      assert AbsAll(sessions) == Spec.TimeoutAt(old(AbsAll(sessions)), worst);
    }

    /** The search loop of __mirror_update_worst_tail() */
    method FindWorst() returns (worst: nat, worstTail: nat, ghost number: nat)
      requires Valid() && sessions != []
      ensures Spec.IsMinTail(AbsAll(sessions), number) && ring.TailAt(worstTail, number) && worst == |ring.log| - number
    {
      worst, worstTail := 0, 0;
      number := |ring.log|;
      ghost var at := -1;
      for i := 0 to |sessions|
        invariant worst == |ring.log| - number && number <= |ring.log|
        invariant i == 0 ==> worst == 0
        invariant forall j :: 0 <= j < i ==> number <= sessions[j].number
        invariant i > 0 ==> 0 <= at < i && sessions[at].number == number && sessions[at].tail == worstTail
      {
        var waiting := ring.CountWaiting(sessions[i].tail, sessions[i].number);
        if waiting >= worst {
          worst, worstTail := waiting, sessions[i].tail;
          number, at := sessions[i].number, i;
        }
      }
      assert AbsAll(sessions)[at].tail == number;
    }

    /** The ring part of __mirror_update_worst_tail(): free what every reader has passed. */
    method MoveOldest(worstTail: nat, ghost number: nat) returns (moved: bool)
      requires Valid() && ring.TailAt(worstTail, number) && Spec.IsMinTail(AbsAll(sessions), number)
      modifies ring`oldest, ring`oldestTail, ring`destroyed, ring.buf
      ensures Valid() && View() == old(View()).(oldest := number)
      ensures ring.TailAt(worstTail, number) && (moved <==> number != old(ring.oldest))
    {
      var oldest := ring.oldestTail;
      ring.UpdateOldestTail(worstTail, number);
      assert forall i :: 0 <= i < |sessions| ==> number <= AbsAll(sessions)[i].tail;
      return oldest != ring.oldestTail;
    }

    /** The rest of it: resume rx when enough was freed, and time the readers at the oldest tail. */
    method OldestMoved(worst: nat, worstTail: nat, ghost number: nat)
      requires Valid() && ring.TailAt(worstTail, number) && worst == |ring.log| - number && number == ring.oldest
      modifies this`rxEnabled, sessions`rxOn, sessions`timeout
      ensures Valid() && View() == Spec.MoveOldest(old(View()), number)
    {
      if !rxEnabled {
        var free := ring.CountFree();
        if free >= Spec.RXFLOW_MAX {
          RxflowInstance(true);
        }
      }
      if worst > 0 {
        TimeSlowest(worstTail, number);
      }
    }

    /** __mirror_update_worst_tail() */
    method UpdateWorstTail() returns (moved: bool)
      requires Valid()
      modifies this`rxEnabled, sessions`rxOn, sessions`timeout
      modifies ring`oldest, ring`oldestTail, ring`destroyed, ring.buf
      ensures Valid()
      ensures View() == if sessions == [] then old(View()) else Spec.UpdateWorstTail(old(View()))
      ensures moved <==> View().oldest != old(View().oldest)
    {
      if sessions == [] {
        return false;
      }
      ghost var m := View();
      var worst, worstTail, number := FindWorst();
      moved := MoveOldest(worstTail, number);
      UpdateWorstTailIs(m, number);
      if moved {
        OldestMoved(worst, worstTail, number);
      }
    }

    /** The end of ESTABLISHED: the newcomer starts at the oldest tail. */
    method Attach(p: Pss)
      requires Valid() && p !in sessions
      modifies this`sessions, p
      ensures Valid() && sessions == [p] + old(sessions)
      ensures View() == Spec.Attach(old(View()), p.id)
    {
      p.Start(ring.oldestTail, ring.oldest);
      assert AbsAll(sessions) == old(AbsAll(sessions));
      sessions := [p] + sessions;
      assert AbsAll(sessions) == [p.Abs()] + old(AbsAll(sessions));
    }

    /** Takes a session off the list, lws_ll_fwd_remove(). */
    method Remove(p: Pss) returns (ghost at: nat)
      requires Valid() && p in sessions
      modifies this`sessions
      ensures at < |old(sessions)| && old(sessions)[at] == p
      ensures Valid() && sessions == old(sessions)[..at] + old(sessions)[at + 1..]
      ensures View() == old(View()).(sessions := Spec.Without(old(View()).sessions, at))
    {
      ghost var m := View();
      var i := 0;
      while sessions[i] != p
        invariant 0 <= i < |sessions| && p !in sessions[..i]
        decreases |sessions| - i
      {
        i := i + 1;
      }
      sessions := sessions[..i] + sessions[i + 1..];
      at := i;
      assert AbsAll(sessions) == Spec.Without(m.sessions, at);
    }

    /** CLOSED, up to the instance's own end. */
    method Detach(p: Pss) returns (ghost at: nat)
      requires Valid() && p in sessions
      modifies this, sessions`rxOn, sessions`timeout
      modifies ring`oldest, ring`oldestTail, ring`destroyed, ring.buf
      ensures at < |old(sessions)| && old(sessions)[at] == p
      ensures Valid() && sessions == old(sessions)[..at] + old(sessions)[at + 1..]
      ensures View() == Spec.Detach(old(View()), at)
    {
      at := Remove(p);
      if sessions != [] {
        var moved := UpdateWorstTail();
      }
    }

    method Prompt(low: bool)
      requires Valid()
      modifies this`rxEnabled, sessions`rxOn, sessions`wantWrite, sessions`idle
      ensures Valid() && View() == Spec.Prompt(old(View()), low)
    {
      if rxEnabled && low {
        RxflowInstance(false);
      }
      CallbackAllOnWritable();
    }

    /** RECEIVE */
    method Receive(msg: Spec.Msg, oom: bool) returns (accepted: bool)
      requires Valid()
      modifies this`rxEnabled, sessions`rxOn, sessions`wantWrite, sessions`idle, ring`head, ring`log, ring.buf
      ensures Valid() && View() == Spec.Receive(old(View()), msg, oom)
      ensures accepted <==> Spec.Accepts(old(View()), oom)
    {
      var n := ring.CountFree();
      if n == 0 {
        Prompt(true);
        return false;
      }
      if oom {
        return false;
      }
      Store(msg);
      var free := ring.CountFree();
      Prompt(free < Spec.RXFLOW_MIN);
      return true;
    }

    /** Inserting into a ring with room always succeeds. */
    method Store(msg: Spec.Msg)
      requires Valid() && 0 < ring.Free()
      modifies ring`head, ring`log, ring.buf
      ensures Valid() && View() == old(View()).(log := old(View()).log + [msg])
    {
      ghost var was := Texts(ring.log);
      var inserted := ring.Insert([Some(msg)]);
      if inserted == 0 {
        assert false;
      }
      assert Texts(ring.log) == was + [msg];
    }

    /** What SERVER_WRITEABLE does to the session itself. */
    method WriteSession(p: Pss, ghost at: nat, pipe: Spec.Pipe) returns (ok: bool, lead: bool)
      requires Valid() && at < |sessions| && sessions[at] == p
      modifies p`tail, p`number, p`sent, p`wantWrite, p`idle, p`timeout, p`broken
      ensures Valid()
      ensures ok <==> !Spec.Fails(|ring.log| - old(p.number), pipe)
      ensures lead <==> Spec.Leads(old(View()).log, ring.oldest, old(p.Abs()), pipe)
      ensures View() == Spec.Put(old(View()), at, Spec.Written(old(View()).log, ring.oldest, old(p.Abs()), pipe))
    {
      ok, lead := p.WriteAbs(ring, pipe);
      assert AbsAll(sessions) == old(AbsAll(sessions))[at := p.Abs()];
    }

    /** SERVER_WRITEABLE */
    method Writeable(p: Pss, ghost at: nat, pipe: Spec.Pipe) returns (ok: bool)
      requires Valid() && at < |sessions| && sessions[at] == p
      modifies this`rxEnabled, sessions, ring`oldest, ring`oldestTail, ring`destroyed, ring.buf
      ensures Valid() && View() == Spec.Writeable(old(View()), at, pipe)
      ensures ok <==> !Spec.Fails(|ring.log| - old(p.number), pipe)
    {
      var lead;
      ok, lead := WriteSession(p, at, pipe);
      if lead {
        var moved := UpdateWorstTail();
      }
    }
  }
}
