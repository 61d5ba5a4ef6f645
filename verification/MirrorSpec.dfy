/**
 The mirror protocol of plugins/protocol_lws_mirror.c as a state machine.

 One step is one callback.  Ring positions are sequence numbers: the index of a message in the log of
 everything the instance ever accepted.
 */
module MirrorSpec {
  const QUEUELEN: nat := 32
  const CAP: nat := QUEUELEN - 1  // the ring keeps one slot empty
  const RXFLOW_MIN: nat := 4
  const RXFLOW_MAX: nat := (2 * QUEUELEN) / 3
  const MAX_MIRROR_INSTANCES: nat := 3
  const NAME_MAX: nat := 28  // characters lws_snprintf stores given sizeof(name) - 1 == 29

  /** A stored message; `payload` identifies the allocation that holds it. */
  datatype Msg = Msg(payload: nat, text: string)

  /**
   A connection attached to an instance.  `joined`, `sent`, `idle` and `broken` are history: the tail
   it was given, what it passed to lws_write, whether it still waits for its first writable request,
   and whether a write failed, after which the only callback it gets is CLOSED.
   */
  datatype Session = Session(
    id: nat,
    joined: nat,
    tail: nat,
    sent: seq<Msg>,
    rxOn: bool,
    timeout: bool,
    wantWrite: bool,
    idle: bool,
    broken: bool)

  /** `founder` records the connection for which the instance was created. */
  datatype Instance = Instance(
    name: string,
    founder: nat,
    log: seq<Msg>,
    oldest: nat,
    rxEnabled: bool,
    sessions: seq<Session>)

  /** What the socket does to one WRITEABLE callback: it takes `room` messages, then either refuses
      the next with an error or reports itself choked.  At least one write precedes a choked report. */
  datatype Pipe = Pipe(room: nat, breaks: bool)

  // ---- the callbacks of one instance ------------------------------------------------------------

  function Free(m: Instance): int {
    CAP - (|m.log| - m.oldest)
  }

  function RxAll(ss: seq<Session>, on: bool): (r: seq<Session>)
    ensures |r| == |ss| && forall i :: 0 <= i < |ss| ==> r[i] == ss[i].(rxOn := on)
  {
    seq(|ss|, i requires 0 <= i < |ss| => ss[i].(rxOn := on))
  }

  function AskAll(ss: seq<Session>): (r: seq<Session>)
    ensures |r| == |ss| && forall i :: 0 <= i < |ss| ==> r[i] == ss[i].(wantWrite := true, idle := false)
  {
    seq(|ss|, i requires 0 <= i < |ss| => ss[i].(wantWrite := true, idle := false))
  }

  function TimeoutAt(ss: seq<Session>, t: nat): (r: seq<Session>)
    ensures |r| == |ss|
    ensures forall i :: 0 <= i < |ss| ==> r[i] == if ss[i].tail == t then ss[i].(timeout := true) else ss[i]
  {
    seq(|ss|, i requires 0 <= i < |ss| => if ss[i].tail == t then ss[i].(timeout := true) else ss[i])
  }

  ghost predicate IsMinTail(ss: seq<Session>, t: nat) {
    && (forall j :: 0 <= j < |ss| ==> t <= ss[j].tail)
    && (exists j :: 0 <= j < |ss| && ss[j].tail == t)
  }

  lemma {:induction false} MinTailExists(ss: seq<Session>)
    requires ss != []
    ensures exists t :: IsMinTail(ss, t)
  {
    var last := ss[|ss| - 1].tail;
    if |ss| == 1 {
      assert IsMinTail(ss, last);
    } else {
      MinTailExists(ss[..|ss| - 1]);
      var u :| IsMinTail(ss[..|ss| - 1], u);
      assert IsMinTail(ss, if u < last then u else last);
    }
  }

  /** The position of the slowest reader. */
  ghost function MinTail(ss: seq<Session>): (t: nat)
    requires ss != []
    ensures IsMinTail(ss, t)
  {
    MinTailExists(ss);
    var t :| IsMinTail(ss, t);
    t
  }

  function RxflowInstance(m: Instance, enable: bool): Instance {
    m.(sessions := RxAll(m.sessions, enable), rxEnabled := enable)
  }

  /** The oldest tail moves to `t`: rx may resume, and the readers now at the oldest tail are timed. */
  function MoveOldest(m: Instance, t: nat): Instance {
    var resume := !m.rxEnabled && CAP - (|m.log| - t) >= RXFLOW_MAX;
    var ss := if resume then RxAll(m.sessions, true) else m.sessions;
    m.(oldest := t,
       rxEnabled := m.rxEnabled || resume,
       sessions := if t == |m.log| then ss else TimeoutAt(ss, t))
  }

  /** The oldest tail follows the minimum of all tails. */
  ghost function UpdateWorstTail(m: Instance): Instance
    requires m.sessions != []
  {
    var t := MinTail(m.sessions);
    if t == m.oldest then m else MoveOldest(m, t)
  }

  function Attach(m: Instance, id: nat): Instance {
    m.(sessions := [Session(id, m.oldest, m.oldest, [], true, false, false, true, false)] + m.sessions)
  }

  function Without(ss: seq<Session>, i: nat): seq<Session>
    requires i < |ss|
  {
    ss[..i] + ss[i + 1..]
  }

  /** Leaves an instance without sessions when the last one goes. */
  ghost function Detach(m: Instance, i: nat): Instance
    requires i < |m.sessions|
  {
    var m1 := m.(sessions := Without(m.sessions, i));
    if m1.sessions == [] then m1 else UpdateWorstTail(m1)
  }

  function Sendable(waiting: nat, pipe: Pipe): nat {
    var most := if pipe.breaks || 0 < pipe.room then pipe.room else 1;
    if waiting < most then waiting else most
  }

  predicate Fails(waiting: nat, pipe: Pipe) {
    pipe.breaks && pipe.room < waiting
  }

  function Put(m: Instance, i: nat, s: Session): Instance
    requires i < |m.sessions|
  {
    m.(sessions := m.sessions[i := s])
  }

  /** A session that wrote its next `k` messages of `log`. */
  function Drained(log: seq<Msg>, s: Session, k: nat): Session
    requires s.tail + k <= |log|
  {
    s.(tail := s.tail + k, sent := s.sent + log[s.tail..s.tail + k], wantWrite := false)
  }

  /** The same, after the callback asked again for whatever is left. */
  function Wrote(log: seq<Msg>, s: Session, k: nat): Session
    requires s.tail + k <= |log|
  {
    Drained(log, s, k).(wantWrite := s.tail + k < |log|, idle := false)
  }

  /** The session was at the oldest tail and moves on. */
  predicate Leads(log: seq<Msg>, oldest: nat, s: Session, pipe: Pipe)
    requires s.tail <= |log|
  {
    !Fails(|log| - s.tail, pipe) && 0 < Sendable(|log| - s.tail, pipe) && s.tail == oldest
  }

  /** What WRITEABLE makes of the session itself. */
  function Written(log: seq<Msg>, oldest: nat, s: Session, pipe: Pipe): Session
    requires s.tail <= |log|
  {
    var k := Sendable(|log| - s.tail, pipe);
    if Fails(|log| - s.tail, pipe) then Drained(log, s, k).(broken := true)
    else if Leads(log, oldest, s, pipe) then Wrote(log, s, k).(timeout := false)
    else Wrote(log, s, k)
  }

  ghost function Writeable(m: Instance, i: nat, pipe: Pipe): Instance
    requires i < |m.sessions| && m.sessions[i].tail <= |m.log|
  {
    var r := Put(m, i, Written(m.log, m.oldest, m.sessions[i], pipe));
    if Leads(m.log, m.oldest, m.sessions[i], pipe) then UpdateWorstTail(r) else r
  }

  /** The message is stored unless the ring is full or the payload cannot be allocated. */
  predicate Accepts(m: Instance, oom: bool) {
    Free(m) != 0 && !oom
  }

  /** Rx is disabled when `low`, and everybody is asked to write. */
  function Prompt(m: Instance, low: bool): Instance {
    var m1 := if m.rxEnabled && low then RxflowInstance(m, false) else m;
    m1.(sessions := AskAll(m1.sessions))
  }

  function Receive(m: Instance, msg: Msg, oom: bool): Instance {
    if Free(m) == 0 then Prompt(m, true)
    else if oom then m
    else
      var m1 := m.(log := m.log + [msg]);
      Prompt(m1, Free(m1) < RXFLOW_MIN)
  }

  // ---- what every callback keeps ----------------------------------------------------------------

  /** A session has written exactly the log from where it joined to its tail, in order. */
  ghost predicate InStep(log: seq<Msg>, oldest: nat, s: Session) {
    oldest <= s.tail <= |log| && s.joined <= s.tail && s.sent == log[s.joined..s.tail]
  }

  /** The slow-reader timeout only runs against a reader at the oldest tail that has work to do. */
  ghost predicate TimedFairly(log: seq<Msg>, oldest: nat, s: Session) {
    s.timeout && !s.broken ==> s.tail == oldest < |log|
  }

  /** A reader that is behind has asked to write, unless nothing happened to it since it joined. */
  ghost predicate Prompted(log: seq<Msg>, s: Session) {
    !s.broken && s.tail < |log| ==> s.wantWrite || s.idle
  }

  ghost predicate Good(log: seq<Msg>, oldest: nat, s: Session) {
    InStep(log, oldest, s) && TimedFairly(log, oldest, s) && Prompted(log, s) && (s.broken ==> s.tail < |log|)
  }

  ghost predicate AllGood(m: Instance) {
    forall j :: 0 <= j < |m.sessions| ==> Good(m.log, m.oldest, m.sessions[j])
  }

  /** Some session sits at the oldest tail. */
  ghost predicate Tight(m: Instance) {
    exists j :: 0 <= j < |m.sessions| && m.sessions[j].tail == m.oldest
  }

  ghost predicate AnyBroken(m: Instance) {
    exists j :: 0 <= j < |m.sessions| && m.sessions[j].broken
  }

  ghost predicate AllRxOn(m: Instance) {
    forall j :: 0 <= j < |m.sessions| ==> m.sessions[j].rxOn
  }

  /** Two-threshold receive flow control. */
  ghost predicate FlowControlled(m: Instance) {
    if m.rxEnabled then RXFLOW_MIN <= Free(m) && AllRxOn(m) else Free(m) < RXFLOW_MAX
  }

  /** Everything but the position of the oldest tail. */
  ghost predicate Loose(m: Instance) {
    m.oldest <= |m.log| <= m.oldest + CAP && FlowControlled(m) && AllGood(m)
  }

  ghost predicate Sound(m: Instance) {
    Loose(m) && (Tight(m) || AnyBroken(m))
  }

  /** Moving the oldest tail forward leaves a session good, also when it is put on the timeout. */
  lemma MovedKeepsGood(log: seq<Msg>, oldest: nat, t: nat, s: Session, r: Session)
    requires Good(log, oldest, s) && oldest < t <= s.tail
    requires r == s.(rxOn := r.rxOn) || (t == s.tail < |log| && r == s.(rxOn := r.rxOn, timeout := true))
    ensures Good(log, t, r)
  {
  }

  ghost predicate SameIds(a: seq<Session>, b: seq<Session>) {
    |a| == |b| && forall j :: 0 <= j < |a| ==> a[j].id == b[j].id
  }

  /** What a callback that stores nothing does to an instance: readers stay, the oldest tail may advance. */
  ghost predicate Advances(m: Instance, r: Instance) {
    r.name == m.name && r.log == m.log && m.oldest <= r.oldest <= |m.log| && SameIds(m.sessions, r.sessions)
  }

  lemma MoveOldestGood(m: Instance, t: nat)
    requires AllGood(m) && m.oldest < t && IsMinTail(m.sessions, t)
    ensures AllGood(MoveOldest(m, t)) && Tight(MoveOldest(m, t))
  {
    var r := MoveOldest(m, t);
    var i :| 0 <= i < |m.sessions| && m.sessions[i].tail == t;
    assert r.sessions[i].tail == t;
    forall j | 0 <= j < |r.sessions| ensures Good(m.log, t, r.sessions[j]) {
      MovedKeepsGood(m.log, m.oldest, t, m.sessions[j], r.sessions[j]);
    }
  }

  lemma MoveOldestKeeps(m: Instance, t: nat)
    requires Loose(m) && m.oldest < t <= |m.log| && IsMinTail(m.sessions, t)
    ensures Loose(MoveOldest(m, t)) && Tight(MoveOldest(m, t)) && Advances(m, MoveOldest(m, t))
  {
    MoveOldestGood(m, t);
  }

  lemma UpdateWorstTailKeeps(m: Instance)
    requires Loose(m) && m.sessions != []
    ensures Loose(UpdateWorstTail(m)) && Tight(UpdateWorstTail(m)) && Advances(m, UpdateWorstTail(m))
    ensures UpdateWorstTail(m).oldest == MinTail(m.sessions)
  {
    var t := MinTail(m.sessions);
    var i :| 0 <= i < |m.sessions| && m.sessions[i].tail == t;
    assert Good(m.log, m.oldest, m.sessions[i]);
    if t != m.oldest {
      MoveOldestKeeps(m, t);
    }
  }

  lemma AttachKeeps(m: Instance, id: nat)
    requires Loose(m)
    ensures Sound(Attach(m, id))
  {
    var r := Attach(m, id);
    assert r.sessions[0].tail == r.oldest;
    assert forall j :: 1 <= j < |r.sessions| ==> r.sessions[j] == m.sessions[j - 1];
  }

  lemma DetachKeeps(m: Instance, i: nat)
    requires Loose(m) && i < |m.sessions| && |m.sessions| > 1
    ensures Sound(Detach(m, i)) && Advances(m.(sessions := Without(m.sessions, i)), Detach(m, i))
    ensures Tight(Detach(m, i))
  {
    var m1 := m.(sessions := Without(m.sessions, i));
    assert forall j :: 0 <= j < |m1.sessions| ==> m1.sessions[j] == m.sessions[if j < i then j else j + 1];
    UpdateWorstTailKeeps(m1);
  }

  /** Replacing one session keeps what some session was needed for, unless it was that session. */
  lemma PutKeeps(m: Instance, i: nat, s: Session)
    requires Sound(m) && i < |m.sessions| && !m.sessions[i].broken
    requires Good(m.log, m.oldest, s) && s.rxOn == m.sessions[i].rxOn
    ensures Loose(Put(m, i, s))
    ensures s.broken || s.tail == m.sessions[i].tail || m.sessions[i].tail != m.oldest ==> Sound(Put(m, i, s))
  {
    var r := Put(m, i, s);
    if s.broken {
      assert r.sessions[i].broken;
    } else if s.tail == m.sessions[i].tail || m.sessions[i].tail != m.oldest {
      var j :| 0 <= j < |m.sessions| && (m.sessions[j].tail == m.oldest || m.sessions[j].broken);
      assert r.sessions[j].tail == m.oldest || r.sessions[j].broken;
    }
  }

  /** A session that wrote is good, and only a leader leaves the oldest tail. */
  lemma WrittenGood(log: seq<Msg>, oldest: nat, s: Session, pipe: Pipe)
    requires Good(log, oldest, s) && !s.broken
    ensures var w := Written(log, oldest, s, pipe);
            && Good(log, oldest, w) && w.id == s.id && w.rxOn == s.rxOn
            && (Leads(log, oldest, s, pipe) || w.broken || w.tail == s.tail || s.tail != oldest)
  {
    var k := Sendable(|log| - s.tail, pipe);
    assert log[s.joined..s.tail] + log[s.tail..s.tail + k] == log[s.joined..s.tail + k];
  }

  /** A reader at the oldest tail that moved on takes the oldest tail with it as far as the others allow. */
  lemma LeaderKeeps(m: Instance, i: nat, s: Session)
    requires Sound(m) && i < |m.sessions| && !m.sessions[i].broken
    requires Good(m.log, m.oldest, s) && s.rxOn == m.sessions[i].rxOn && s.id == m.sessions[i].id
    ensures Sound(UpdateWorstTail(Put(m, i, s))) && Advances(m, UpdateWorstTail(Put(m, i, s)))
  {
    PutKeeps(m, i, s);
    UpdateWorstTailKeeps(Put(m, i, s));
  }

  lemma WriteableKeeps(m: Instance, i: nat, pipe: Pipe)
    requires Sound(m) && i < |m.sessions| && !m.sessions[i].broken
    ensures Sound(Writeable(m, i, pipe)) && Advances(m, Writeable(m, i, pipe))
  {
    var s, w := m.sessions[i], Written(m.log, m.oldest, m.sessions[i], pipe);
    WrittenGood(m.log, m.oldest, s, pipe);
    if Leads(m.log, m.oldest, s, pipe) {
      LeaderKeeps(m, i, w);
    } else {
      PutKeeps(m, i, w);
    }
  }

  /** Messages added to the log leave a session that is asked to write good. */
  lemma AskedKeepsGood(log: seq<Msg>, more: seq<Msg>, oldest: nat, s: Session, on: bool)
    requires Good(log, oldest, s)
    ensures Good(log + more, oldest, s.(rxOn := on, wantWrite := true, idle := false))
  {
    assert (log + more)[s.joined..s.tail] == log[s.joined..s.tail];
  }

  lemma ReceiveGood(m: Instance, msg: Msg, oom: bool)
    requires AllGood(m)
    ensures AllGood(Receive(m, msg, oom)) && SameIds(m.sessions, Receive(m, msg, oom).sessions)
    ensures Tight(m) || AnyBroken(m) ==> Tight(Receive(m, msg, oom)) || AnyBroken(Receive(m, msg, oom))
  {
    var r := Receive(m, msg, oom);
    if r != m {
      var more := r.log[|m.log|..];
      assert r.log == m.log + more;
      forall j | 0 <= j < |m.sessions| ensures Good(r.log, r.oldest, r.sessions[j]) {
        AskedKeepsGood(m.log, more, m.oldest, m.sessions[j], r.sessions[j].rxOn);
      }
      if j :| 0 <= j < |m.sessions| && (m.sessions[j].tail == m.oldest || m.sessions[j].broken) {
        assert r.sessions[j].tail == r.oldest || r.sessions[j].broken;
      }
    }
  }

  lemma ReceiveKeeps(m: Instance, msg: Msg, oom: bool)
    requires Sound(m)
    ensures Sound(Receive(m, msg, oom)) && SameIds(m.sessions, Receive(m, msg, oom).sessions)
  {
    ReceiveGood(m, msg, oom);
  }
}
