/**
 The multi-tail ring buffer of lib/misc/lws-ring.c.

 Positions in the C code are byte offsets that always are multiples of `element_len`; here they are
 element offsets.  `element_len` itself is kept because one comparison in the free-space count
 depends on it.

 Every element ever inserted has a sequence number: its index in the ghost history `log`.  A tail is
 the buffer offset of the next element its owner wants.
 */
module Ring {
  import opened Wrappers

  /** Offset `x` of a buffer of length `n`, at most one lap ahead, brought back into the buffer. */
  function Wrap(x: nat, n: nat): nat {
    if x < n then x else x - n
  }

  lemma ModWrap(x: nat, n: nat)
    requires 0 < n && x < 2 * n
    ensures x % n == Wrap(x, n)
  {
  }

  /** Fewer than two bytes: nothing, or one one-byte element. */
  lemma FewBytes(f: nat, len: nat)
    requires 0 < len
    ensures f * len < 2 <==> f == 0 || (f == 1 && len == 1)
  {
    if 2 <= f {
      assert f * len == (f - 2) * len + 2 * len;
    }
  }

  /** The elements of `part` lie in `buf` from offset `at` on, wrapping at its end. */
  ghost predicate LaidOut<T>(buf: seq<T>, at: nat, part: seq<T>) {
    |part| < |buf| && at < |buf| && forall d :: 0 <= d < |part| ==> buf[Wrap(at + d, |buf|)] == part[d]
  }

  /** Position `p` lies in the `len` positions from `at` on, wrapping at `n`. */
  ghost predicate InSpan(p: int, at: int, len: int, n: int) {
    at <= p < at + len || at <= p + n < at + len
  }

  /** Writing `more` right behind `part` lays out both. */
  lemma LaidOutAppend<T>(before: seq<T>, buf: seq<T>, at: nat, part: seq<T>, more: seq<T>)
    requires LaidOut(before, at, part) && |before| == |buf| && |part| + |more| < |buf|
    requires LaidOut(buf, Wrap(at + |part|, |buf|), more)
    requires forall p :: 0 <= p < |buf| && !InSpan(p, Wrap(at + |part|, |buf|), |more|, |buf|) ==> buf[p] == before[p]
    ensures LaidOut(buf, at, part + more)
  {
    var n := |buf|;
    forall d | 0 <= d < |part| + |more| ensures buf[Wrap(at + d, n)] == (part + more)[d] {
      if d < |part| {
        assert before[Wrap(at + d, n)] == part[d];
      } else {
        assert buf[Wrap(Wrap(at + |part|, n) + (d - |part|), n)] == more[d - |part|];
      }
    }
  }

  /** Dropping the first `j` elements moves the start by as much. */
  lemma LaidOutDrop<T>(buf: seq<T>, at: nat, part: seq<T>, j: nat)
    requires LaidOut(buf, at, part) && j <= |part|
    ensures LaidOut(buf, Wrap(at + j, |buf|), part[j..])
  {
    var n := |buf|;
    forall d | 0 <= d < |part| - j ensures buf[Wrap(Wrap(at + j, n) + d, n)] == part[j..][d] {
      assert buf[Wrap(at + (j + d), n)] == part[j + d];
    }
  }

  /** Overwriting the first element while dropping it does not disturb the others. */
  lemma LaidOutRetire<T>(buf: seq<T>, at: nat, part: seq<T>, x: T)
    requires LaidOut(buf, at, part) && part != []
    ensures LaidOut(buf[at := x], Wrap(at + 1, |buf|), part[1..])
  {
    var n := |buf|;
    forall d | 0 <= d < |part| - 1 ensures buf[at := x][Wrap(Wrap(at + 1, n) + d, n)] == part[1..][d] {
      assert buf[Wrap(at + (1 + d), n)] == part[1 + d];
    }
  }

  lemma LaidOutElsewhere<T>(buf: seq<T>, at: nat, part: seq<T>, p: nat, x: T)
    requires LaidOut(buf, at, part) && p < |buf| && !InSpan(p, at, |part|, |buf|)
    ensures LaidOut(buf[p := x], at, part)
  {
  }

  class Ring<T(0)> {
    const elementLen: nat
    const destroyElement: Option<T -> T>  // what the destroy callback leaves in the slot
    const buf: array<T>
    var head: nat
    var oldestTail: nat

    ghost var log: seq<T>        // everything ever inserted
    ghost var oldest: nat        // sequence number of the oldest tail
    ghost var destroyed: seq<T>  // arguments of the destroy callback, in call order

    ghost predicate Valid()
      reads this, buf
    {
      && 0 < elementLen && 0 < buf.Length
      && oldest <= |log| < oldest + buf.Length
      && LaidOut(buf[..], oldestTail, log[oldest..])
      && head == Wrap(oldestTail + (|log| - oldest), buf.Length)
      && (destroyElement.Some? ==> destroyed == log[..oldest])
    }

    /** `tail` is a consumer position whose next element has number `s`. */
    ghost predicate TailAt(tail: nat, s: nat)
      reads this
    {
      oldest <= s <= |log| && tail == Wrap(oldestTail + (s - oldest), buf.Length)
    }

    /** Free elements: one slot always stays empty, and a lone free byte is not reported. */
    ghost function Free(): (f: nat)
      reads this
      requires oldest <= |log| < oldest + buf.Length
    {
      var f := buf.Length - 1 - (|log| - oldest);
      if f == 1 && elementLen == 1 then 0 else f
    }

    constructor (elementLen: nat, count: nat, destroyElement: Option<T -> T>)
      requires 0 < elementLen && 0 < count
      ensures Valid() && fresh(buf) && buf.Length == count
      ensures this.elementLen == elementLen && this.destroyElement == destroyElement
      ensures log == [] && destroyed == [] && oldest == 0 && head == 0
    {
      this.elementLen, this.destroyElement := elementLen, destroyElement;
      buf := new T[count];
      head, oldestTail := 0, 0;
      log, oldest, destroyed := [], 0, [];
    }

    method CountFree() returns (r: nat)
      requires Valid()
      ensures r == Free()
    {
      var f;
      if head == oldestTail {
        f := buf.Length - 1;
      } else if head < oldestTail {
        f := oldestTail - head - 1;
      } else {
        f := buf.Length - head + oldestTail - 1;
      }
      FewBytes(f, elementLen);
      if f * elementLen < 2 {
        return 0;
      }
      return f;
    }

    method CountWaiting(tail: nat, ghost s: nat) returns (r: nat)
      requires Valid() && TailAt(tail, s)
      ensures r == |log| - s
    {
      if head == tail {
        r := 0;
      } else if head > tail {
        r := head - tail;
      } else {
        r := buf.Length - tail + head;
      }
    }

    /** The element a tail would consume next, or None when it is drained. */
    method GetElement(tail: nat, ghost s: nat) returns (e: Option<T>)
      requires Valid() && TailAt(tail, s)
      ensures e == if s == |log| then None else Some(log[s])
    {
      if tail == head {
        return None;
      }
      assert buf[..][Wrap(oldestTail + (s - oldest), |buf[..]|)] == log[oldest..][s - oldest];
      return Some(buf[tail]);
    }

    /** memcpy of `src` to `buf[at..]`. */
    method CopyIn(at: nat, src: seq<T>)
      requires at + |src| <= buf.Length
      modifies buf
      ensures forall i :: 0 <= i < |src| ==> buf[at + i] == src[i]
      ensures forall i :: 0 <= i < buf.Length && !(at <= i < at + |src|) ==> buf[i] == old(buf[i])
    {
      for i := 0 to |src|
        invariant forall j :: 0 <= j < i ==> buf[at + j] == src[j]
        invariant forall j :: 0 <= j < buf.Length && !(at <= j < at + i) ==> buf[j] == old(buf[j])
      {
        buf[at + i] := src[i];
      }
    }

    /** Copies `src` to the head, in one or two pieces depending on whether it wraps. */
    method CopyAtHead(src: seq<T>) returns (end: nat)
      requires 0 < buf.Length && head < buf.Length && |src| < buf.Length
      modifies buf
      ensures end == Wrap(head + |src|, buf.Length) && LaidOut(buf[..], head, src)
      ensures forall p :: 0 <= p < buf.Length && !InSpan(p, head, |src|, buf.Length) ==> buf[p] == old(buf[p])
    {
      if head + |src| > buf.Length {
        var m := buf.Length - head;
        CopyIn(head, src[..m]);
        CopyIn(0, src[m..]);
        ModWrap(|src| - m, buf.Length);
        end := (|src| - m) % buf.Length;
        assert forall i :: m <= i < |src| ==> src[i] == src[m..][i - m];
      } else {
        CopyIn(head, src);
        ModWrap(head + |src|, buf.Length);
        end := (head + |src|) % buf.Length;
      }
    }

    /** Inserts as much of `src` as fits. */
    method Insert(src: seq<T>) returns (r: nat)
      requires Valid()
      modifies this`head, this`log, buf
      ensures Valid()
      ensures r == if old(Free()) < |src| then old(Free()) else |src|
      ensures log == old(log) + src[..r]
    {
      var n := CountFree();
      if n > |src| {
        n := |src|;
      }
      ghost var before := buf[..];
      var end := CopyAtHead(src[..n]);
      LaidOutAppend(before, buf[..], oldestTail, log[oldest..], src[..n]);
      assert log[oldest..] + src[..n] == (log + src[..n])[oldest..];
      head, log := end, log + src[..n];
      return n;
    }

    /** Logically consumes up to `maxCount` elements from one tail, without copying. */
    method Consume(tail: nat, ghost s: nat, maxCount: nat) returns (newTail: nat, r: nat)
      requires Valid() && TailAt(tail, s)
      ensures r == if |log| - s < maxCount then |log| - s else maxCount
      ensures TailAt(newTail, s + r)
    {
      r := CountWaiting(tail, s);
      if r > maxCount {
        r := maxCount;
      }
      ModWrap(tail + r, buf.Length);
      newTail := (tail + r) % buf.Length;
    }

    /** Copies out the `n` oldest elements, in one or two pieces. */
    method CopyOut(n: nat) returns (dest: seq<T>)
      requires Valid() && oldest + n <= |log|
      ensures dest == log[oldest..oldest + n]
    {
      if oldestTail + n > buf.Length {
        var m := buf.Length - oldestTail;
        dest := buf[oldestTail..] + buf[..n - m];
      } else {
        dest := buf[oldestTail..oldestTail + n];
      }
      forall i | 0 <= i < n ensures dest[i] == log[oldest + i] {
        assert buf[..][Wrap(oldestTail + i, |buf[..]|)] == log[oldest..][i];
      }
    }

    /** Copies out up to `maxCount` elements and moves the only tail past them. */
    method ConsumeSingle(maxCount: nat) returns (dest: seq<T>)
      requires Valid()
      modifies this`oldest, this`oldestTail, this`destroyed
      modifies if destroyElement.Some? then {buf} else {}
      ensures Valid()
      ensures oldest == if |log| - old(oldest) < maxCount then |log| else old(oldest) + maxCount
      ensures dest == log[old(oldest)..oldest]
    {
      var newTail, n := Consume(oldestTail, oldest, maxCount);
      dest := CopyOut(n);
      UpdateOldestTail(newTail, oldest + n);
    }

    /** Moves the oldest tail on, handing every element it passes to the destroy callback.  Other tails
        that are not behind it stay where they are. */
    method UpdateOldestTail(tail: nat, ghost s: nat)
      requires Valid() && TailAt(tail, s)
      modifies this`oldest, this`oldestTail, this`destroyed
      modifies if destroyElement.Some? then {buf} else {}
      ensures Valid() && oldest == s && oldestTail == tail
    {
      if destroyElement.None? {
        LaidOutDrop(buf[..], oldestTail, log[oldest..], s - oldest);
        assert log[oldest..][s - oldest..] == log[s..];
        oldestTail, oldest := tail, s;
        return;
      }
      RetireUntil(tail, s);
    }

    method RetireUntil(tail: nat, ghost s: nat)
      requires Valid() && TailAt(tail, s) && destroyElement.Some?
      modifies this`oldest, this`oldestTail, this`destroyed, buf
      ensures Valid() && oldest == s && oldestTail == tail
    {
      while oldestTail != tail
        invariant Valid() && TailAt(tail, s)
        decreases s - oldest
      {
        RetireOldest();
      }
    }

    /** Destroys the oldest element and steps the oldest tail past it. */
    method RetireOldest()
      requires Valid() && destroyElement.Some? && oldest < |log|
      modifies this`oldest, this`oldestTail, this`destroyed, buf
      ensures Valid() && oldest == old(oldest) + 1 && oldestTail == Wrap(old(oldestTail) + 1, buf.Length)
    {
      var left := destroyElement.value(buf[oldestTail]);
      LaidOutRetire(buf[..], oldestTail, log[oldest..], left);
      assert log[oldest..][1..] == log[oldest + 1..];
      ModWrap(oldestTail + 1, buf.Length);
      buf[oldestTail] := left;
      assert buf[..] == old(buf[..])[oldestTail := left];
      destroyed := destroyed + [log[oldest]];
      oldestTail := (oldestTail + 1) % buf.Length;
      oldest := oldest + 1;
    }

    /** Hands every element still held to the destroy callback. */
    method Destroy()
      requires Valid()
      modifies this`oldest, this`oldestTail, this`destroyed, buf
      ensures destroyElement.Some? ==> destroyed == log
    {
      if destroyElement.Some? {
        UpdateOldestTail(head, |log|);
      }
    }

    /** Where bytes may be written directly: None when nothing fits, else the start and length of the
        range that ends where the ring is full or would wrap. */
    method NextLinearInsertRange() returns (range: Option<(nat, nat)>)
      requires Valid()
      ensures range == if Free() == 0 then None
                       else Some((head, if head + Free() > buf.Length then buf.Length - head else Free()))
    {
      var n := CountFree();
      if n == 0 {
        return None;
      }
      if head + n > buf.Length {
        return Some((head, buf.Length - head));
      }
      return Some((head, n));
    }

    /** Writes one element directly into the free space behind the head. */
    method Poke(p: nat, x: T)
      requires Valid() && head <= p < buf.Length && p - head < buf.Length - 1 - (|log| - oldest)
      modifies buf
      ensures Valid() && buf[..] == old(buf[..])[p := x]
    {
      LaidOutElsewhere(buf[..], oldestTail, log[oldest..], p, x);
      buf[p] := x;
      assert buf[..] == old(buf[..])[p := x];
    }

    /** Accounts for bytes having been written directly at the head. */
    method BumpHead(bytes: nat)
      requires Valid() && bytes <= Free() && head + bytes <= buf.Length
      modifies this`head, this`log
      ensures Valid() && log == old(log) + buf[old(head)..old(head) + bytes]
      ensures head == Wrap(old(head) + bytes, buf.Length)
    {
      ghost var more := buf[head..head + bytes];
      LaidOutAppend(buf[..], buf[..], oldestTail, log[oldest..], more);
      assert log[oldest..] + more == (log + more)[oldest..];
      ModWrap(head + bytes, buf.Length);
      log := log + more;
      head := (head + bytes) % buf.Length;
    }
  }
}
