/**
 Every run of the two output streams of test-apps/test-sshd.c in ONLCR mode: child output arrives on
 stdout and stderr, and is sent on, in any order.  Each stream has a ring of its own, but the flag that
 says a CR is owed is one for both.
 */
module SshdRuns {
  import opened Ring
  import opened SshdSpec

  const RING_SIZE: nat := 1024

  /** One stream: what was read from the child and put in the ring so far, how much of it was sent on,
      and where in the buffer the ring's head is.  `rxOn` is off from a read to the next send. */
  datatype Chan = Chan(input: seq<Byte>, log: seq<Byte>, oldest: nat, head: nat, sent: seq<Byte>, rxOn: bool)

  /** struct sshd_instance_priv.  `errOwes` records which stream the last bytes were read for, so whose
      CR it is that is owed; `crossed` that some call found a CR owed to the other stream. */
  datatype Priv = Priv(out: Chan, err: Chan, insertLf: bool, errOwes: bool, crossed: bool)

  const EMPTY: Chan := Chan([], [], 0, 0, [], true)
  const START: Priv := Priv(EMPTY, EMPTY, false, false, false)

  function Of(s: Priv, toErr: bool): Chan {
    if toErr then s.err else s.out
  }

  function With(s: Priv, toErr: bool, c: Chan): Priv {
    if toErr then s.(err := c) else s.(out := c)
  }

  predicate Sane(c: Chan) {
    c.oldest <= |c.log| < c.oldest + RING_SIZE && c.head < RING_SIZE && c.sent == c.log[..c.oldest]
  }

  function Free(c: Chan): nat
    requires Sane(c)
  {
    var f := RING_SIZE - 1 - (|c.log| - c.oldest);
    if f == 1 then 0 else f
  }

  /** The length of the linear range at the head. */
  function Room(c: Chan): nat
    requires Sane(c)
  {
    if c.head + Free(c) > RING_SIZE then RING_SIZE - c.head else Free(c)
  }

  /** What one call reads of what is available. */
  function Taken(c: Chan, available: seq<Byte>): seq<Byte>
    requires Sane(c)
  {
    if Ask(Room(c)) < |available| then available[..Ask(Room(c))] else available
  }

  /** The loop stores more than the range holds. */
  predicate Overruns(s: Priv, toErr: bool, available: seq<Byte>)
    requires Sane(Of(s, toErr))
  {
    |Emit(s.insertLf, Taken(Of(s, toErr), available)).0| > Room(Of(s, toErr))
  }

  function Io(s: Priv, toErr: bool, available: seq<Byte>): Priv
    requires Sane(Of(s, toErr)) && !Overruns(s, toErr, available)
  {
    var c := Of(s, toErr);
    var chunk := Taken(c, available);
    if chunk == [] then s
    else
      var (bytes, owe) := Written(s.insertLf, chunk, Room(c));
      var head := Wrap(c.head + |bytes|, RING_SIZE);
      var c' := c.(input := c.input + chunk, log := c.log + bytes, head := head, rxOn := false);
      With(s, toErr, c').(insertLf := owe, errOwes := toErr, crossed := s.crossed || Crosses(s, toErr))
  }

  /** A CR is owed to the other stream. */
  predicate Crosses(s: Priv, toErr: bool) {
    s.insertLf && s.errOwes != toErr
  }

  function Send(s: Priv, toErr: bool, len: nat): Priv
    requires Sane(Of(s, toErr))
  {
    var c := Of(s, toErr);
    var n := if |c.log| - c.oldest < len then |c.log| - c.oldest else len;
    With(s, toErr, c.(oldest := c.oldest + n, sent := c.sent + c.log[c.oldest..c.oldest + n], rxOn := c.rxOn || 0 < n))
  }

  // ---- one call ---------------------------------------------------------------------------------

  lemma RoomIsOneIff(c: Chan)
    requires Sane(c)
    ensures Room(c) == 1 <==> c.head == RING_SIZE - 1 && Free(c) != 0
  {
  }

  /** A call stays inside its range exactly unless a CR is owed, whoever owes it, and the range is one
      byte long. */
  lemma CallStaysInsideIff(s: Priv, toErr: bool, available: seq<Byte>)
    requires Sane(Of(s, toErr)) && available != []
    ensures !Overruns(s, toErr, available) <==> !(s.insertLf && Room(Of(s, toErr)) == 1)
  {
    var c := Of(s, toErr);
    if Room(c) > 0 {
      FitsIff(s.insertLf, Taken(c, available), Room(c));
    }
  }

  /** A call reads from the front of what is available, at least a byte if there is any and the ring has room
      for it, adds what it writes behind what the ring was given before, and leaves the other stream. */
  lemma IoLaw(s: Priv, toErr: bool, available: seq<Byte>) returns (n: nat, bytes: seq<Byte>)
    requires Sane(Of(s, toErr)) && !Overruns(s, toErr, available)
    ensures n <= |available| && n <= READ_MAX && (n == 0 <==> available == [] || Free(Of(s, toErr)) == 0)
    ensures var c, d, r := Of(s, toErr), Of(Io(s, toErr, available), toErr), Io(s, toErr, available);
            && d.input == c.input + available[..n] && d.log == c.log + bytes && d.oldest == c.oldest && d.sent == c.sent
            && bytes + Owed(r.insertLf) == Owed(s.insertLf) + Expand(available[..n]) && Of(r, !toErr) == Of(s, !toErr)
            && d.rxOn == (c.rxOn && n == 0) && r.errOwes == (if n == 0 then s.errOwes else toErr)
            && (r.crossed <==> s.crossed || (0 < n && s.insertLf && s.errOwes != toErr))
  {
    var c := Of(s, toErr);
    var chunk := Taken(c, available);
    n := |chunk|;
    assert available[..n] == chunk;
    if n == 0 {
      bytes := [];
    } else {
      bytes := Written(s.insertLf, chunk, Room(c)).0;
      WrittenExpands(s.insertLf, chunk, Room(c));
    }
  }

  // ---- what every call keeps --------------------------------------------------------------------

  ghost function StreamsOf(s: Priv): Streams {
    Streams(Stream(s.out.input, s.out.log), Stream(s.err.input, s.err.log), s.insertLf)
  }

  /** Until a call finds a CR owed to the other stream, both streams are faithful, and while a CR is owed
      the head of the stream that owes it is at an even offset. */
  ghost predicate Inv(s: Priv) {
    && Sane(s.out) && Sane(s.err)
    && (!s.crossed ==> Separate(StreamsOf(s), s.errOwes) && (s.insertLf ==> Of(s, s.errOwes).head % 2 == 0))
  }

  /** A CR stays owed only if the room was filled to the last byte, and then the head wraps or moves by
      an even number from an even place. */
  lemma OwedParity(pending: bool, chunk: seq<Byte>, c: Chan)
    requires Sane(c) && 0 < |chunk| <= Ask(Room(c)) && (pending ==> c.head % 2 == 0)
    requires |Emit(pending, chunk).0| <= Room(c)
    ensures var (out, owe) := Written(pending, chunk, Room(c)); owe ==> Wrap(c.head + |out|, RING_SIZE) % 2 == 0
  {
    EmitExpands(pending, chunk);
  }

  /** What a call writes fits what is free. */
  lemma IoSane(s: Priv, toErr: bool, available: seq<Byte>)
    requires Sane(Of(s, toErr)) && !Overruns(s, toErr, available)
    ensures Sane(Of(Io(s, toErr, available), toErr))
    ensures Of(Io(s, toErr, available), !toErr) == Of(s, !toErr)
  {
    var c := Of(s, toErr);
    var bytes := Written(s.insertLf, Taken(c, available), Room(c)).0;
    assert (c.log + bytes)[..c.oldest] == c.log[..c.oldest];
  }

  lemma IoKeeps(s: Priv, toErr: bool, available: seq<Byte>)
    requires Inv(s) && !Overruns(s, toErr, available)
    ensures Inv(Io(s, toErr, available))
  {
    var c, r := Of(s, toErr), Io(s, toErr, available);
    IoSane(s, toErr, available);
    var chunk := Taken(c, available);
    if chunk != [] && !r.crossed {
      OwedParity(s.insertLf, chunk, c);
      SharedFlagIff(StreamsOf(s), s.errOwes, toErr, chunk, Room(c));
      assert StreamsOf(r) == Call(StreamsOf(s), toErr, chunk, Room(c));
    }
  }

  lemma SendKeeps(s: Priv, toErr: bool, len: nat)
    requires Inv(s)
    ensures Inv(Send(s, toErr, len))
  {
    assert StreamsOf(Send(s, toErr, len)) == StreamsOf(s);
  }

  // ---- every run --------------------------------------------------------------------------------

  datatype Step = ChildIo(toErr: bool, available: seq<Byte>) | Tx(toErr: bool, len: nat)

  /** A run goes on until a call overruns its range; then nothing more can be said. */
  datatype Outcome = Running(state: Priv) | Overrun(before: Priv, step: Step)

  function Next(s: Priv, step: Step): Outcome
    requires Sane(s.out) && Sane(s.err)
  {
    match step
    case ChildIo(toErr, available) =>
      if Overruns(s, toErr, available) then Overrun(s, step) else Running(Io(s, toErr, available))
    case Tx(toErr, len) => Running(Send(s, toErr, len))
  }

  lemma NextKeeps(s: Priv, step: Step)
    requires Inv(s)
    ensures Next(s, step).Running? ==> Inv(Next(s, step).state)
  {
    match step
    case ChildIo(toErr, available) =>
      if !Overruns(s, toErr, available) {
        IoKeeps(s, toErr, available);
      }
    case Tx(toErr, len) => SendKeeps(s, toErr, len);
  }

  /** Any interleaving of calls. */
  ghost function Run(steps: seq<Step>): (r: Outcome)
    ensures r.Running? ==> Inv(r.state)
    ensures r.Overrun? ==> Inv(r.before) && Next(r.before, r.step) == r
  {
    if steps == [] then Running(START)
    else
      var r := Run(steps[..|steps| - 1]);
      if r.Overrun? then r
      else
        NextKeeps(r.state, steps[|steps| - 1]);
        Next(r.state, steps[|steps| - 1])
  }

  /** An overrun takes a CR that is owed, one byte before the end of the buffer, and a call, this or an
      earlier one, that found a CR owed to the other stream. */
  lemma OverrunNeedsCrossing(steps: seq<Step>)
    requires Run(steps).Overrun?
    ensures var s, step := Run(steps).before, Run(steps).step;
            && step.ChildIo? && s.insertLf && Of(s, step.toErr).head == RING_SIZE - 1
            && (s.crossed || Crosses(s, step.toErr))
  {
    var s, step := Run(steps).before, Run(steps).step;
    if step.available == [] {
      assert false;
    }
    CallStaysInsideIff(s, step.toErr, step.available);
    RoomIsOneIff(Of(s, step.toErr));
  }

  /** As long as no call found a CR owed to the other stream, what each stream sent on, then what its ring
      holds, then the CR it owes, is its input expanded. */
  lemma UncrossedIsExpansion(steps: seq<Step>, toErr: bool)
    requires Run(steps).Running? && !Run(steps).state.crossed
    ensures var s := Run(steps).state; var c := Of(s, toErr);
            c.sent + c.log[c.oldest..] + Owed(s.insertLf && s.errOwes == toErr) == Expand(c.input)
  {
    Expansion(Run(steps).state, toErr);
  }

  lemma Expansion(s: Priv, toErr: bool)
    requires Inv(s) && !s.crossed
    ensures var c := Of(s, toErr);
            c.sent + c.log[c.oldest..] + Owed(s.insertLf && s.errOwes == toErr) == Expand(c.input)
  {
    var c := Of(s, toErr);
    assert c.log[..c.oldest] + c.log[c.oldest..] == c.log;
    assert Faithful(Stream(c.input, c.log), s.insertLf && s.errOwes == toErr);
  }

  ghost predicate OnlyOn(steps: seq<Step>, toErr: bool) {
    forall k :: 0 <= k < |steps| && steps[k].ChildIo? ==> steps[k].toErr == toErr
  }

  /** So as long as only one stream is read, however it is sent on, nothing is overrun. */
  lemma {:induction false} OneStreamStaysInside(steps: seq<Step>, toErr: bool)
    requires OnlyOn(steps, toErr)
    ensures Run(steps).Running? && !Run(steps).state.crossed
    ensures Run(steps).state.insertLf ==> Run(steps).state.errOwes == toErr
  {
    if steps != [] {
      OneStreamStaysInside(steps[..|steps| - 1], toErr);
      if Run(steps).Overrun? {
        OverrunNeedsCrossing(steps);
      }
    }
  }
}
