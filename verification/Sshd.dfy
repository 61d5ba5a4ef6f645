/**
 The output streams of test-apps/test-sshd.c in ONLCR mode as they run: child output is expanded straight
 into the free range of a 1024-byte ring, one ring for stdout and one for stderr, from where it is sent
 to the client.  The calls are proved to do what SshdRuns says.
 */
module Sshd {
  import opened Wrappers
  import opened Ring
  import opened SshdSpec
  import Runs = SshdRuns

  /** The ring of one stream shows its state in a run. */
  ghost predicate Shows(ring: Ring<Byte>, c: Runs.Chan)
    reads ring, ring.buf
  {
    && ring.Valid() && ring.elementLen == 1 && ring.buf.Length == Runs.RING_SIZE && ring.destroyElement.None?
    && ring.log == c.log && ring.oldest == c.oldest && ring.head == c.head
  }

  /** `buf[start..p]` is what was written so far in the free `room` bytes at the head. */
  ghost predicate Writing(ring: Ring<Byte>, start: nat, p: nat, room: nat)
    reads ring, ring.buf
  {
    && ring.Valid() && ring.head == start && start <= p <= start + room
    && room <= ring.Free() && start + room <= ring.buf.Length
  }

  /** struct sshd_instance_priv, as far as it concerns output. */
  class Instance {
    const ringStdout: Ring<Byte>
    const ringStderr: Ring<Byte>
    var insertLf: bool
    ghost var view: Runs.Priv

    ghost predicate Valid()
      reads this, ringStdout, ringStdout.buf, ringStderr, ringStderr.buf
    {
      && ringStdout != ringStderr && ringStdout.buf != ringStderr.buf && Runs.Inv(view) && insertLf == view.insertLf
      && Shows(ringStdout, view.out) && Shows(ringStderr, view.err)
    }

    constructor ()
      ensures Valid() && view == Runs.START
      ensures fresh(ringStdout) && fresh(ringStdout.buf) && fresh(ringStderr) && fresh(ringStderr.buf)
    {
      ringStdout := new Ring(1, Runs.RING_SIZE, None);
      ringStderr := new Ring(1, Runs.RING_SIZE, None);
      insertLf, view := false, Runs.START;
    }

    /** *p++ = x */
    method Put(ring: Ring<Byte>, ghost start: nat, p: nat, ghost room: nat, x: Byte)
      requires Writing(ring, start, p, room) && p < start + room
      modifies ring.buf
      ensures Writing(ring, start, p + 1, room) && ring.buf[start..p + 1] == old(ring.buf[start..p]) + [x]
    {
      ring.Poke(p, x);
      assert ring.buf[start..p + 1] == ring.buf[..][start..p + 1];
      assert old(ring.buf[start..p]) == old(ring.buf[..])[start..p];
    }

    /** The body of the expansion loop. */
    method PutByte(ring: Ring<Byte>, ghost start: nat, p: nat, ghost room: nat, b: Byte) returns (q: nat)
      requires Writing(ring, start, p, room) && p + |Owed(insertLf)| < start + room
      modifies this`insertLf, ring.buf
      ensures Writing(ring, start, q, room) && insertLf == (b == LF)
      ensures ring.buf[start..q] == old(ring.buf[start..p]) + Owed(old(insertLf)) + [b]
    {
      q := p;
      if insertLf {
        insertLf := false;
        Put(ring, start, q, room, CR);
        q := q + 1;
      }
      if b == LF {
        insertLf := true;
      }
      Put(ring, start, q, room, b);
      q := q + 1;
    }

    /** The expansion loop. */
    method PutAll(ring: Ring<Byte>, chunk: seq<Byte>, start: nat, ghost room: nat) returns (p: nat)
      requires Writing(ring, start, start, room) && |Emit(insertLf, chunk).0| <= room
      modifies this`insertLf, ring.buf
      ensures Writing(ring, start, p, room) && (ring.buf[start..p], insertLf) == Emit(old(insertLf), chunk)
    {
      ghost var owed := insertLf;
      p := start;
      assert chunk[..0] == [] && ring.buf[start..start] == [];
      for m := 0 to |chunk|
        invariant Writing(ring, start, p, room) && (ring.buf[start..p], insertLf) == Emit(owed, chunk[..m])
      {
        EmitGrows(owed, chunk, m);
        p := PutByte(ring, start, p, room, chunk[m]);
      }
      assert chunk[..|chunk|] == chunk;
    }

    /** The chunk, and the CR it leaves owing if there is room. */
    method WriteChunk(ring: Ring<Byte>, chunk: seq<Byte>, start: nat, room: nat) returns (n: nat)
      requires Writing(ring, start, start, room) && |Emit(insertLf, chunk).0| <= room
      modifies this`insertLf, ring.buf
      ensures Writing(ring, start, start + n, room)
      ensures (ring.buf[start..start + n], insertLf) == Written(old(insertLf), chunk, room)
    {
      var p := PutAll(ring, chunk, start, room);
      n := p - start;
      if n < room && insertLf {
        insertLf := false;
        Put(ring, start, p, room, CR);
        n := n + 1;
      }
    }

    method Store(ring: Ring<Byte>, chunk: seq<Byte>, start: nat, room: nat)
      requires Writing(ring, start, start, room) && |Emit(insertLf, chunk).0| <= room
      modifies this`insertLf, ring`head, ring`log, ring.buf
      ensures ring.Valid()
      ensures ring.log == old(ring.log) + Written(old(insertLf), chunk, room).0
      ensures insertLf == Written(old(insertLf), chunk, room).1
      ensures ring.head == Wrap(start + |Written(old(insertLf), chunk, room).0|, ring.buf.Length)
    {
      var written := WriteChunk(ring, chunk, start, room);
      ring.BumpHead(written);
    }

    /** How much one call reads, and where it goes; none when the ring is full. */
    method Reads(ring: Ring<Byte>, available: seq<Byte>, ghost c: Runs.Chan)
      returns (chunk: seq<Byte>, start: nat, room: nat)
      requires Shows(ring, c) && Runs.Sane(c)
      ensures chunk == Runs.Taken(c, available) && start == c.head
      ensures chunk != [] ==> room == Runs.Room(c) && Writing(ring, start, start, room)
    {
      var range := ring.NextLinearInsertRange();
      if range.None? {
        assert Ask(0) == 0;
        return [], ring.head, 0;
      }
      start, room := range.value.0, range.value.1;
      var n := Ask(room);
      chunk := if n < |available| then available[..n] else available;
    }

    method Absorb(ring: Ring<Byte>, ghost toErr: bool, ghost available: seq<Byte>,
                  chunk: seq<Byte>, start: nat, room: nat)
      requires Valid() && ring == (if toErr then ringStderr else ringStdout) && !Runs.Overruns(view, toErr, available)
      requires chunk == Runs.Taken(Runs.Of(view, toErr), available) && chunk != []
      requires room == Runs.Room(Runs.Of(view, toErr)) && Writing(ring, start, start, room)
      modifies this`insertLf, this`view, ring`head, ring`log, ring.buf
      ensures Valid() && view == Runs.Io(old(view), toErr, available)
    {
      Runs.IoKeeps(view, toErr, available);
      Store(ring, chunk, start, room);
      view := Runs.Io(view, toErr, available);
    }

    /** ssh_ops_child_process_io(): child output is ready, of which `available` could be read at once.
        `overrun` says that the expansion loop would store past its range; it is not followed there. */
    method ChildIo(toErr: bool, available: seq<Byte>) returns (overrun: bool)
      requires Valid()
      modifies this, ringStdout`head, ringStdout`log, ringStdout.buf, ringStderr`head, ringStderr`log, ringStderr.buf
      ensures Valid()
      ensures overrun <==> Runs.Overruns(old(view), toErr, available)
      ensures view == if overrun then old(view) else Runs.Io(old(view), toErr, available)
    {
      var ring := ringStdout;
      if toErr {
        ring := ringStderr;
      }
      var chunk, start, room := Reads(ring, available, Runs.Of(view, toErr));
      if chunk == [] {
        return false;
      }
      FitsIff(insertLf, chunk, room);
      if insertLf && room == 1 {
        return true;
      }
      Absorb(ring, toErr, available, chunk, start, room);
      return false;
    }

    /** ssh_ops_tx(): what is handed out is taken off the front of the stream's ring. */
    method Tx(toErr: bool, len: nat) returns (buf: seq<Byte>)
      requires Valid()
      modifies this`view, ringStdout`oldest, ringStdout`oldestTail, ringStdout`destroyed
      modifies ringStderr`oldest, ringStderr`oldestTail, ringStderr`destroyed
      ensures Valid() && view == Runs.Send(old(view), toErr, len)
      ensures Runs.Of(view, toErr).sent == Runs.Of(old(view), toErr).sent + buf
      ensures var c := Runs.Of(old(view), toErr);
              |buf| == (if |c.log| - c.oldest < len then |c.log| - c.oldest else len) && buf <= c.log[c.oldest..]
    {
      var ring := ringStdout;
      if toErr {
        ring := ringStderr;
      }
      buf := ring.ConsumeSingle(len);
      Runs.SendKeeps(view, toErr, len);
      view := Runs.Send(view, toErr, len);
    }
  }

  /** ssh_ops_pty_req(): the loop over the terminal modes; Overread when it goes past their end. */
  method PtyModes(modes: seq<Byte>, flags: Flags) returns (r: Outcome)
    ensures r == Parse(modes, 0, flags)
  {
    var p, f := 0, flags;
    while p < |modes| && modes[p] < FIRST_UNDEFINED && modes[p] != 0
      invariant p <= |modes| && Parse(modes, p, f) == Parse(modes, 0, flags)
      decreases |modes| - p
    {
      if p + 5 > |modes| {
        return Overread;
      }
      var opc := modes[p];
      var arg: nat := (modes[p + 1] as int) * 0x100_0000;
      arg := arg + (modes[p + 2] as int) * 0x1_0000;
      arg := arg + (modes[p + 3] as int) * 0x100;
      arg := arg + modes[p + 4];
      if opc == SSHMO_ICRNL {
        f := f.(crToNl := arg != 0);
      } else if opc == SSHMO_ONLCR {
        f := f.(nlToCrnl := arg != 0);
      }
      p := p + 5;
    }
    return Ended(f, p);
  }

  lemma EmitGrows(pending: bool, chunk: seq<Byte>, m: nat)
    requires m < |chunk|
    ensures var (out, owe) := Emit(pending, chunk[..m]);
            && Emit(pending, chunk[..m + 1]) == (out + Owed(owe) + [chunk[m]], chunk[m] == LF)
            && |out| + |Owed(owe)| + 1 <= |Emit(pending, chunk).0|
    decreases |chunk| - m
  {
    assert chunk[..m + 1][..m] == chunk[..m];
    if m + 1 < |chunk| {
      EmitGrows(pending, chunk, m + 1);
    } else {
      assert chunk[..m + 1] == chunk;
    }
  }
}
