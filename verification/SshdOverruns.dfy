/**
 Runs of test-apps/test-sshd.c in which a call writes past its range: the flag that stdout and stderr
 share lets a CR owed by one stream, or moved off its even offset by the other, meet a range of one byte.
 */
module SshdOverruns {
  import opened Ring
  import opened SshdSpec
  import opened SshdRuns

  /** A stream is only read while its rx is on, that is, not again before something of it was sent. */
  predicate Polite(s: Priv, step: Step) {
    step.ChildIo? ==> Of(s, step.toErr).rxOn
  }

  /** Call `k` leads from one state to the next. */
  ghost predicate StepAt(states: seq<Priv>, steps: seq<Step>, k: nat) {
    && k + 1 < |states| && k < |steps| && Polite(states[k], steps[k])
    && Inv(states[k]) && Next(states[k], steps[k]) == Running(states[k + 1])
  }

  ghost predicate IsPath(states: seq<Priv>, steps: seq<Step>) {
    |states| == |steps| + 1 && states[0] == START && forall k: nat :: k < |steps| ==> StepAt(states, steps, k)
  }

  ghost predicate Reached(s: Priv) {
    exists states, steps :: IsPath(states, steps) && states[|steps|] == s
  }

  /** Polite calls that overrun nothing, up to a polite one that does. */
  ghost predicate EndsIn(s: Priv, step: Step) {
    Reached(s) && Polite(s, step) && Inv(s) && Next(s, step).Overrun?
  }

  lemma ReachedStart()
    ensures Reached(START)
  {
    assert IsPath([START], []);
  }

  lemma ReachedStep(s: Priv, step: Step)
    requires Reached(s) && Inv(s) && Polite(s, step) && Next(s, step).Running?
    ensures Reached(Next(s, step).state)
  {
    var states, steps :| IsPath(states, steps) && states[|steps|] == s;
    var states', steps' := states + [Next(s, step).state], steps + [step];
    forall k: nat | k < |steps'| ensures StepAt(states', steps', k) {
      assert k < |steps| ==> StepAt(states, steps, k);
    }
    assert IsPath(states', steps');
  }

  lemma {:induction false} PathIsRun(states: seq<Priv>, steps: seq<Step>, k: nat)
    requires IsPath(states, steps) && k <= |steps|
    ensures Run(steps[..k]) == Running(states[k])
  {
    if k > 0 {
      PathIsRun(states, steps, k - 1);
      assert StepAt(states, steps, k - 1);
      assert steps[..k][..k - 1] == steps[..k - 1];
    }
  }

  lemma EndIsRun(s: Priv, step: Step) returns (steps: seq<Step>)
    requires EndsIn(s, step)
    ensures Run(steps) == Overrun(s, step)
  {
    var states, before :| IsPath(states, before) && states[|before|] == s;
    PathIsRun(states, before, |before|);
    assert before[..|before|] == before;
    steps := before + [step];
    assert steps[..|before|] == before;
  }

  const X: Byte := 0x78

  function Many(b: Byte, n: nat): (r: seq<Byte>)
    ensures |r| == n && forall i :: 0 <= i < n ==> r[i] == b
  {
    seq(n, i => b)
  }

  lemma {:induction false} EmitPlain(n: nat)
    ensures Emit(false, Many(X, n)) == (Many(X, n), false)
  {
    if n > 0 {
      EmitPlain(n - 1);
      assert Many(X, n)[..n - 1] == Many(X, n - 1);
      assert Many(X, n - 1) + [] + [X] == Many(X, n);
    }
  }

  /** Where a stream stands. */
  ghost predicate Stands(c: Chan, log: nat, oldest: nat) {
    |c.log| == log && c.oldest == oldest && c.head == log % RING_SIZE
  }

  ghost predicate Ready(s: Priv, toErr: bool, log: nat, oldest: nat) {
    Reached(s) && Inv(s) && Stands(Of(s, toErr), log, oldest) && Of(s, toErr).rxOn
  }

  lemma HeadMoves(log: nat, n: nat)
    requires n <= RING_SIZE
    ensures Wrap(log % RING_SIZE + n, RING_SIZE) == (log + n) % RING_SIZE
  {
  }

  lemma ReadPlain(s: Priv, toErr: bool, n: nat, log: nat, oldest: nat) returns (r: Priv)
    requires Ready(s, toErr, log, oldest) && !s.insertLf && 0 < n <= Ask(Room(Of(s, toErr)))
    ensures Reached(r) && Inv(r) && Stands(Of(r, toErr), log + n, oldest)
    ensures !r.insertLf && Of(r, !toErr) == Of(s, !toErr) && r.crossed == s.crossed
  {
    var c, xs := Of(s, toErr), Many(X, n);
    EmitPlain(n);
    assert Taken(c, xs) == xs && Written(false, xs, Room(c)) == (xs, false);
    HeadMoves(log, n);
    ReachedStep(s, ChildIo(toErr, xs));
    IoKeeps(s, toErr, xs);
    r := Io(s, toErr, xs);
  }

  lemma SendSome(s: Priv, toErr: bool, d: nat, log: nat, oldest: nat) returns (r: Priv)
    requires Reached(s) && Inv(s) && Stands(Of(s, toErr), log, oldest) && 0 < d <= log - oldest
    ensures Ready(r, toErr, log, oldest + d) && Of(r, !toErr) == Of(s, !toErr)
    ensures r.insertLf == s.insertLf && r.errOwes == s.errOwes && r.crossed == s.crossed
  {
    ReachedStep(s, Tx(toErr, d));
    SendKeeps(s, toErr, d);
    r := Send(s, toErr, d);
  }

  /** `n` plain bytes are read and `d` bytes sent on. */
  lemma Round(s: Priv, toErr: bool, n: nat, d: nat, log: nat, oldest: nat) returns (r: Priv)
    requires Ready(s, toErr, log, oldest) && !s.insertLf
    requires 0 < n <= Ask(Room(Of(s, toErr))) && 0 < d <= log + n - oldest
    ensures Ready(r, toErr, log + n, oldest + d) && !r.insertLf
    ensures Of(r, !toErr) == Of(s, !toErr) && r.crossed == s.crossed
  {
    r := ReadPlain(s, toErr, n, log, oldest);
    r := SendSome(r, toErr, d, log + n, oldest);
  }

  /** A byte at a time, a stream gets to the last byte of its buffer with its ring empty. */
  lemma {:induction false} ToEnd(s: Priv, toErr: bool, k: nat) returns (r: Priv)
    requires Ready(s, toErr, 0, 0) && !s.insertLf && k < RING_SIZE
    ensures Ready(r, toErr, k, k) && !r.insertLf
    ensures Of(r, !toErr) == Of(s, !toErr) && r.crossed == s.crossed
  {
    r := s;
    if k > 0 {
      r := ToEnd(s, toErr, k - 1);
      r := Round(r, toErr, 1, 1, k - 1, k - 1);
    }
  }

  lemma EmitLf(pending: bool)
    ensures Emit(pending, [LF]) == (Owed(pending) + [LF], true)
  {
    assert [LF][..0] == [];
    assert [] + Owed(pending) + [LF] == Owed(pending) + [LF];
  }

  /** An LF read for a stream at the last byte of its buffer leaves a CR owed. */
  lemma LfAtEnd(s: Priv, toErr: bool) returns (r: Priv)
    requires Ready(s, toErr, RING_SIZE - 1, RING_SIZE - 1) && !s.insertLf
    ensures Reached(r) && Inv(r) && r.insertLf && r.errOwes == toErr
    ensures Of(r, !toErr) == Of(s, !toErr) && r.crossed == s.crossed
  {
    EmitLf(false);
    assert Room(Of(s, toErr)) == 1 && Taken(Of(s, toErr), [LF]) == [LF];
    ReachedStep(s, ChildIo(toErr, [LF]));
    r := Io(s, toErr, [LF]);
    IoKeeps(s, toErr, [LF]);
  }

  /** stderr owes a CR, and stdout is read with one byte left before the end of its buffer. */
  lemma OverrunReachable() returns (s: Priv, step: Step)
    ensures EndsIn(s, step) && !s.crossed && Crosses(s, step.toErr)
  {
    ReachedStart();
    s := ToEnd(START, false, RING_SIZE - 1);
    s := ToEnd(s, true, RING_SIZE - 1);
    s := LfAtEnd(s, true);
    step := ChildIo(false, [X]);
    CallStaysInsideIff(s, false, [X]);
  }

  // ---- by a CR of its own -----------------------------------------------------------------------

  /** stdout is filled until 8 bytes are free and its head is at an odd offset, a little sent between
      any two reads. */
  lemma FillOut(s: Priv) returns (r: Priv)
    requires Ready(s, false, 0, 0) && !s.insertLf
    ensures Ready(r, false, 1029, 14) && !r.insertLf && r.err == s.err
  {
    r := Round(s, false, 256, 1, 0, 0);
    r := Round(r, false, 256, 1, 256, 1);
    r := Round(r, false, 256, 1, 512, 2);
    r := Round(r, false, 128, 1, 768, 3);
    r := Round(r, false, 64, 1, 896, 4);
    r := Round(r, false, 32, 1, 960, 5);
    r := Round(r, false, 16, 1, 992, 6);
    r := Round(r, false, 8, 1, 1008, 7);
    r := Round(r, false, 4, 1, 1016, 8);
    r := Round(r, false, 2, 1, 1020, 9);
    r := Round(r, false, 1, 1, 1022, 10);
    r := Round(r, false, 1, 1, 1023, 11);
    r := Round(r, false, 5, 2, 1024, 12);
  }

  /** With a CR owed, LFs fill twice their number of bytes and leave a CR owed. */
  lemma {:induction false} EmitLfs(n: nat)
    requires n > 0
    ensures |Emit(true, Many(LF, n)).0| == 2 * n && Emit(true, Many(LF, n)).1
  {
    assert Many(LF, n)[..n - 1] == Many(LF, n - 1);
    if n > 1 {
      EmitLfs(n - 1);
    }
  }

  /** stdout is full to the last byte, its head at an odd offset, and owes a CR. */
  ghost predicate Odd(s: Priv, log: nat) {
    && Reached(s) && Inv(s) && RING_SIZE <= log && log % 2 == 1 && Stands(s.out, log, log - RING_SIZE + 1)
    && s.insertLf && !s.errOwes && s.crossed
  }

  /** LFs that exactly fill the room, read while a CR is owed. */
  lemma FillWithLfs(s: Priv, n: nat, log: nat) returns (r: Priv)
    requires RING_SIZE <= log && log % 2 == 1 && log + 2 * n <= 2 * RING_SIZE - 1 && 0 < n <= 4
    requires Ready(s, false, log, log + 2 * n - RING_SIZE + 1) && s.insertLf && (s.crossed || s.errOwes)
    ensures Odd(r, log + 2 * n)
  {
    assert Room(s.out) == 2 * n;
    EmitLfs(n);
    ReachedStep(s, ChildIo(false, Many(LF, n)));
    IoKeeps(s, false, Many(LF, n));
    r := Io(s, false, Many(LF, n));
  }

  lemma {:induction false} Ratchet(s: Priv, log: nat, k: nat) returns (r: Priv)
    requires Odd(s, log) && log + 2 * k <= 2 * RING_SIZE - 1
    ensures Odd(r, log + 2 * k)
  {
    r := s;
    if k > 0 {
      r := Ratchet(s, log, k - 1);
      var at := log + 2 * (k - 1);
      r := SendSome(r, false, 2, at, at - RING_SIZE + 1);
      r := FillWithLfs(r, 1, at);
    }
  }

  /** The CR need not be the other stream's when the overrun comes: once stdout has taken one for stderr
      at an odd offset, LFs that fill its room keep it owing at odd offsets up to the last byte. */
  lemma OwnOverrunReachable() returns (s: Priv, step: Step)
    ensures EndsIn(s, step) && s.crossed && !Crosses(s, step.toErr)
  {
    ReachedStart();
    s := FillOut(START);
    s := ToEnd(s, true, RING_SIZE - 1);
    s := LfAtEnd(s, true);
    s := FillWithLfs(s, 4, 1029);
    s := Ratchet(s, 1037, 505);
    s := SendSome(s, false, 2, 2047, 1024);
    step := ChildIo(false, [X]);
    CallStaysInsideIff(s, false, [X]);
  }
}
