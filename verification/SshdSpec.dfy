/**
 The byte transforms of test-apps/test-sshd.c: newline expansion of child output, and the terminal
 modes of a pty request.
 */
module SshdSpec {
  type Byte = b: int | 0 <= b < 256

  const LF: Byte := 0x0a
  const CR: Byte := 0x0d
  const READ_MAX: nat := 256   // sizeof(buf)

  /** The transform as a whole: every LF is followed by a CR. */
  function Expand(input: seq<Byte>): seq<Byte> {
    if input == [] then []
    else
      var b := input[|input| - 1];
      Expand(input[..|input| - 1]) + if b == LF then [LF, CR] else [b]
  }

  lemma {:induction false} ExpandConcat(a: seq<Byte>, b: seq<Byte>)
    ensures Expand(a + b) == Expand(a) + Expand(b)
  {
    if b == [] {
      assert a + b == a;
    } else {
      ExpandConcat(a, b[..|b| - 1]);
      assert (a + b)[..|a + b| - 1] == a + b[..|b| - 1];
    }
  }

  function Lfs(s: seq<Byte>): nat {
    if s == [] then 0 else Lfs(s[..|s| - 1]) + if s[|s| - 1] == LF then 1 else 0
  }

  /** Takes out the CR behind each LF. */
  function Strip(s: seq<Byte>): seq<Byte>
    decreases |s|
  {
    if s == [] then []
    else if s[|s| - 1] == CR && 1 < |s| && s[|s| - 2] == LF then Strip(s[..|s| - 2]) + [LF]
    else Strip(s[..|s| - 1]) + [s[|s| - 1]]
  }

  /** Expansion puts one byte behind each LF and nothing else anywhere, and that byte is a CR. */
  lemma {:induction false} ExpandIs(input: seq<Byte>)
    ensures |Expand(input)| == |input| + Lfs(input)
    ensures forall i :: 0 <= i < |Expand(input)| && Expand(input)[i] == LF ==>
              i + 1 < |Expand(input)| && Expand(input)[i + 1] == CR
  {
    if input != [] {
      ExpandIs(input[..|input| - 1]);
    }
  }

  lemma StripMore(e: seq<Byte>, b: Byte)
    ensures Strip(e + [LF, CR]) == Strip(e) + [LF]
    ensures e == [] || e[|e| - 1] != LF ==> Strip(e + [b]) == Strip(e) + [b]
  {
    assert (e + [LF, CR])[..|e|] == e && (e + [b])[..|e|] == e;
  }

  /** So the input can be had back. */
  lemma {:induction false} StripRestores(input: seq<Byte>)
    ensures Strip(Expand(input)) == input
  {
    if input != [] {
      var n := |input| - 1;
      StripRestores(input[..n]);
      ExpandIs(input[..n]);
      StripMore(Expand(input[..n]), input[n]);
      assert input[..n] + [input[n]] == input;
    }
  }

  /** The CR that is owed. */
  function Owed(pending: bool): seq<Byte> {
    if pending then [CR] else []
  }

  /** How much is read when `room` bytes can be written. */
  function Ask(room: nat): nat {
    var n := if room != 1 then room / 2 else 1;
    if n > READ_MAX then READ_MAX else n
  }

  /** Bytes one chunk is turned into, and whether a CR is still owed after it. */
  function Emit(pending: bool, chunk: seq<Byte>): (seq<Byte>, bool) {
    if chunk == [] then ([], pending)
    else
      var (out, owe) := Emit(pending, chunk[..|chunk| - 1]);
      var b := chunk[|chunk| - 1];
      (out + Owed(owe) + [b], b == LF)
  }

  lemma {:induction false} EmitExpands(pending: bool, chunk: seq<Byte>)
    ensures var (out, owe) := Emit(pending, chunk); out + Owed(owe) == Owed(pending) + Expand(chunk)
    ensures var (out, owe) := Emit(pending, chunk);
            |out| <= 2 * |chunk| && (chunk != [] && !pending ==> |out| < 2 * |chunk|) && |chunk| <= |out|
  {
    if chunk != [] {
      EmitExpands(pending, chunk[..|chunk| - 1]);
      var (out, owe) := Emit(pending, chunk[..|chunk| - 1]);
      var b := chunk[|chunk| - 1];
      var e := Expand(chunk[..|chunk| - 1]);
      assert Expand(chunk) == e + [b] + Owed(b == LF);
      assert out + Owed(owe) + [b] + Owed(b == LF) == Owed(pending) + (e + [b] + Owed(b == LF));
    }
  }

  /** A chunk no longer than what was asked for fits the room it was asked for, unless the room is one
      byte and a CR is owed; then it does not. */
  lemma FitsIff(pending: bool, chunk: seq<Byte>, room: nat)
    requires 0 < room && 0 < |chunk| <= Ask(room)
    ensures |Emit(pending, chunk).0| <= room <==> !(pending && room == 1)
  {
    EmitExpands(pending, chunk);
    if room == 1 {
      assert chunk[..|chunk| - 1] == [];
    }
  }

  /** What a call writes: the trailing CR goes out as well when there is room for it. */
  function Written(pending: bool, chunk: seq<Byte>, room: nat): (seq<Byte>, bool) {
    var (out, owe) := Emit(pending, chunk);
    if |out| < room && owe then (out + [CR], false) else (out, owe)
  }

  lemma WrittenExpands(pending: bool, chunk: seq<Byte>, room: nat)
    ensures var (out, owe) := Written(pending, chunk, room); out + Owed(owe) == Owed(pending) + Expand(chunk)
  {
    EmitExpands(pending, chunk);
  }

  // ---- two channels, one flag -------------------------------------------------------------------

  /** Everything a stream was given, and has written. */
  datatype Stream = Stream(input: seq<Byte>, log: seq<Byte>)

  /** What was written is the input expanded, up to a CR that may be owed. */
  ghost predicate Faithful(s: Stream, owed: bool) {
    s.log + Owed(owed) == Expand(s.input)
  }

  function Fed(s: Stream, pending: bool, chunk: seq<Byte>, room: nat): (Stream, bool) {
    var (out, owe) := Written(pending, chunk, room);
    (Stream(s.input + chunk, s.log + out), owe)
  }

  lemma Regroup(a: seq<Byte>, b: seq<Byte>, c: seq<Byte>)
    ensures a + b + c == a + (b + c)
  {
  }

  /** The result does not depend on how the input was cut into chunks. */
  lemma FedStaysFaithful(s: Stream, pending: bool, chunk: seq<Byte>, room: nat)
    requires Faithful(s, pending)
    ensures var (t, owe) := Fed(s, pending, chunk, room); Faithful(t, owe)
  {
    WrittenExpands(pending, chunk, room);
    var (out, owe) := Written(pending, chunk, room);
    ExpandConcat(s.input, chunk);
    Regroup(s.log, out, Owed(owe));
    Regroup(s.log, Owed(pending), Expand(chunk));
  }

  /** One call: a chunk that was read, and the room it was read for. */
  datatype Chunk = Chunk(bytes: seq<Byte>, room: nat)

  function AllInput(chunks: seq<Chunk>): seq<Byte> {
    if chunks == [] then [] else AllInput(chunks[..|chunks| - 1]) + chunks[|chunks| - 1].bytes
  }

  function FeedAll(chunks: seq<Chunk>): (Stream, bool) {
    if chunks == [] then (Stream([], []), false)
    else
      var (s, owed) := FeedAll(chunks[..|chunks| - 1]);
      Fed(s, owed, chunks[|chunks| - 1].bytes, chunks[|chunks| - 1].room)
  }

  /** However the child's output is cut up, what is written of it is the expansion of the whole, but for
      a CR still owed. */
  lemma {:induction false} ChunkingDoesNotMatter(chunks: seq<Chunk>)
    ensures var (s, owed) := FeedAll(chunks);
            s.log + Owed(owed) == Expand(AllInput(chunks)) && s.input == AllInput(chunks)
  {
    if chunks != [] {
      ChunkingDoesNotMatter(chunks[..|chunks| - 1]);
      var (s, owed) := FeedAll(chunks[..|chunks| - 1]);
      FedStaysFaithful(s, owed, chunks[|chunks| - 1].bytes, chunks[|chunks| - 1].room);
    }
  }

  /** stdout, stderr, and the one insert_lf flag they share. */
  datatype Streams = Streams(out: Stream, err: Stream, insertLf: bool)

  function Call(s: Streams, toErr: bool, chunk: seq<Byte>, room: nat): Streams {
    var (t, owe) := Fed(if toErr then s.err else s.out, s.insertLf, chunk, room);
    if toErr then Streams(s.out, t, owe) else Streams(t, s.err, owe)
  }

  /** Both streams are faithful, the owed CR being stderr's if `errOwes`, else stdout's. */
  ghost predicate Separate(s: Streams, errOwes: bool) {
    Faithful(s.out, s.insertLf && !errOwes) && Faithful(s.err, s.insertLf && errOwes)
  }

  /** A call keeps the streams apart exactly when no CR is owed to the other stream. */
  lemma SharedFlagIff(s: Streams, errOwes: bool, toErr: bool, chunk: seq<Byte>, room: nat)
    requires Separate(s, errOwes) && chunk != []
    ensures Separate(Call(s, toErr, chunk, room), toErr) <==> (s.insertLf ==> errOwes == toErr)
  {
    if s.insertLf ==> errOwes == toErr {
      FedStaysFaithful(if toErr then s.err else s.out, s.insertLf, chunk, room);
    } else {
      var other := if toErr then s.out else s.err;
      assert |other.log + Owed(true)| == |other.log + Owed(false)| + 1;
    }
  }

  // ---- terminal modes ---------------------------------------------------------------------------

  const SSHMO_ICRNL: Byte := 36
  const SSHMO_ONLCR: Byte := 72
  const FIRST_UNDEFINED: nat := 160  // opcodes from here on end the list

  datatype Flags = Flags(crToNl: bool, nlToCrnl: bool)

  /** An opcode with its argument, as section 8 of RFC 4254 has them. */
  datatype Mode = Mode(opcode: Byte, arg: nat)

  ghost predicate Defined(m: Mode) {
    0 < m.opcode < FIRST_UNDEFINED && m.arg < 0x1_0000_0000
  }

  function SetFlag(f: Flags, opcode: Byte, arg: nat): Flags {
    if opcode == SSHMO_ICRNL then f.(crToNl := arg != 0)
    else if opcode == SSHMO_ONLCR then f.(nlToCrnl := arg != 0)
    else f
  }

  function Number(a: Byte, b: Byte, c: Byte, d: Byte): nat {
    ((a * 256 + b) * 256 + c) * 256 + d
  }

  /** Where the loop ends and what it leaves set, or that it reads past the end of the modes. */
  datatype Outcome = Ended(flags: Flags, at: nat) | Overread

  function Parse(modes: seq<Byte>, p: nat, f: Flags): Outcome
    decreases |modes| - p
  {
    if p >= |modes| || modes[p] >= FIRST_UNDEFINED || modes[p] == 0 then Ended(f, p)
    else if p + 5 > |modes| then Overread
    else Parse(modes, p + 5, SetFlag(f, modes[p], Number(modes[p + 1], modes[p + 2], modes[p + 3], modes[p + 4])))
  }

  function EncodeMode(m: Mode): seq<Byte>
    requires m.arg < 0x1_0000_0000
  {
    var hi := m.arg / 256;
    var top := hi / 256;
    [m.opcode, top / 256, top % 256, hi % 256, m.arg % 256]
  }

  ghost predicate AllDefined(ms: seq<Mode>) {
    forall i :: 0 <= i < |ms| ==> Defined(ms[i])
  }

  ghost function Encode(ms: seq<Mode>): seq<Byte>
    requires AllDefined(ms)
  {
    if ms == [] then [0] else EncodeMode(ms[0]) + Encode(ms[1..])
  }

  /** The argument of the last mode with this opcode decides; without one the flag stays. */
  function LastSays(ms: seq<Mode>, opcode: Byte, flag: bool): bool {
    if ms == [] then flag
    else if ms[|ms| - 1].opcode == opcode then ms[|ms| - 1].arg != 0
    else LastSays(ms[..|ms| - 1], opcode, flag)
  }

  lemma {:induction false} LastSaysFront(ms: seq<Mode>, opcode: Byte, flag: bool)
    requires ms != []
    ensures LastSays(ms, opcode, flag) ==
            LastSays(ms[1..], opcode, if ms[0].opcode == opcode then ms[0].arg != 0 else flag)
  {
    if |ms| > 1 {
      assert ms[1..][|ms| - 2] == ms[|ms| - 1];
      assert ms[1..][..|ms| - 2] == ms[..|ms| - 1][1..];
      LastSaysFront(ms[..|ms| - 1], opcode, flag);
    } else {
      assert ms[..0] == [];
    }
  }

  lemma NumberRestores(arg: nat)
    requires arg < 0x1_0000_0000
    ensures Number(arg / 256 / 256 / 256, arg / 256 / 256 % 256, arg / 256 % 256, arg % 256) == arg
  {
  }

  /** Any list of defined modes, encoded, is read back exactly: the loop ends at its terminator, and the
      two flags are as the last mode about each of them says. */
  lemma {:induction false} ParseRoundTrip(ms: seq<Mode>, before: seq<Byte>, after: seq<Byte>, f: Flags)
    requires AllDefined(ms)
    ensures Parse(before + Encode(ms) + after, |before|, f) ==
            Ended(Flags(LastSays(ms, SSHMO_ICRNL, f.crToNl), LastSays(ms, SSHMO_ONLCR, f.nlToCrnl)),
                  |before| + 5 * |ms|)
    decreases |ms|
  {
    var modes := before + Encode(ms) + after;
    var p := |before|;
    if ms == [] {
      assert modes[p] == 0;
    } else {
      var m := ms[0];
      var e := EncodeMode(m);
      assert modes == (before + e) + Encode(ms[1..]) + after;
      assert modes[p..p + 5] == e;
      assert modes[p] == e[0] && modes[p + 1] == e[1] && modes[p + 2] == e[2];
      assert modes[p + 3] == e[3] && modes[p + 4] == e[4];
      NumberRestores(m.arg);
      ParseRoundTrip(ms[1..], before + e, after, SetFlag(f, m.opcode, m.arg));
      LastSaysFront(ms, SSHMO_ICRNL, f.crToNl);
      LastSaysFront(ms, SSHMO_ONLCR, f.nlToCrnl);
    }
  }

  /** The group at `p` and all groups before it, counted from `from`, start with a defined opcode. */
  ghost predicate Reached(modes: seq<Byte>, from: nat, k: nat) {
    forall j :: 0 <= j <= k ==> OpensGroup(modes, from + 5 * j)
  }

  ghost predicate OpensGroup(modes: seq<Byte>, p: nat) {
    p < |modes| && 0 < modes[p] < FIRST_UNDEFINED
  }

  /** The loop stays inside the modes it was given exactly when every group it gets to is whole. */
  lemma {:induction false} ParseStaysInsideIff(modes: seq<Byte>, p: nat, f: Flags)
    ensures Parse(modes, p, f).Ended? <==> forall k: nat :: Reached(modes, p, k) ==> p + 5 * k + 5 <= |modes|
    decreases |modes| - p
  {
    if OpensGroup(modes, p) {
      assert Reached(modes, p, 0);
      if p + 5 <= |modes| {
        var arg := Number(modes[p + 1], modes[p + 2], modes[p + 3], modes[p + 4]);
        ParseStaysInsideIff(modes, p + 5, SetFlag(f, modes[p], arg));
        var q := p + 5;
        forall k: nat | Reached(modes, q, k) ensures q + 5 * k + 5 <= |modes| || Reached(modes, p, 1 + k) {
          ReachedShift(modes, p, k);
        }
        forall k: nat | Reached(modes, p, k) && k > 0 ensures Reached(modes, p + 5, k - 1) {
          ReachedShift(modes, p, k - 1);
        }
      }
    } else {
      assert forall k: nat :: !Reached(modes, p, k) by {
        forall k: nat ensures !Reached(modes, p, k) {
          assert !OpensGroup(modes, p + 5 * 0);
        }
      }
    }
  }

  lemma ReachedShift(modes: seq<Byte>, p: nat, k: nat)
    requires OpensGroup(modes, p)
    ensures Reached(modes, p, k + 1) <==> Reached(modes, p + 5, k)
  {
    if Reached(modes, p, k + 1) {
      forall j | 0 <= j <= k ensures OpensGroup(modes, p + 5 + 5 * j) {
        assert OpensGroup(modes, p + 5 * (j + 1));
      }
    }
    if Reached(modes, p + 5, k) {
      forall j | 0 <= j <= k + 1 ensures OpensGroup(modes, p + 5 * j) {
        if j > 0 {
          assert OpensGroup(modes, p + 5 + 5 * (j - 1));
        }
      }
    }
  }
}
