/**
 The status protocol's callbacks as they run: sessions on a singly linked list that is relinked in
 place, each with a cursor into that list that may dangle.  Each is proved to do what StatusSpec says.
 */
module Status {
  import opened Wrappers
  import opened Fragments
  import Spec = StatusSpec

  /** struct per_session_data__lws_status */
  class Pss {
    var next: Pss?
    var walk: Spec.Walk
    var walkNext: Pss?
    var subsequent: bool
    var changedPartway: bool
    var wantWrite: bool
    ghost var broken: bool
    ghost var frames: seq<Frame<Spec.Token<Pss>>>
    ghost var dangling: bool
    ghost var faulty: seq<bool>

    /** A zeroed session. */
    constructor ()
    {
      next, walk, walkNext := null, Spec.Idle, null;
      subsequent, changedPartway, wantWrite := false, false, false;
      broken, frames, dangling, faulty := false, [], false, [];
    }

    /** The body of the loop in trigger_resend(), and the request for a writable callback. */
    method Nudge(head: Pss?)
      modifies this`subsequent, this`walkNext, this`walk, this`changedPartway, this`wantWrite
      ensures Abs() == Spec.Nudge(old(Abs()), Pointee(head))
    {
      if walk.Idle? {
        subsequent, walkNext, walk := false, head, Spec.Initial;
      } else {
        changedPartway := true;
      }
      wantWrite := true;
    }

    ghost function Abs(): Spec.Session<Pss>
      reads this
    {
      Spec.Session(walk, Pointee(walkNext), subsequent, changedPartway, wantWrite, broken, frames, dangling, faulty)
    }
  }

  function Pointee(p: Pss?): Option<Pss> {
    if p == null then None else Some(p)
  }

  function AsPointer(o: Option<Pss>): Pss? {
    if o.None? then null else o.value
  }

  /** `spine` is the linked list that starts at `head`. */
  ghost predicate Linked(head: Pss?, spine: seq<Pss>)
    reads spine`next
  {
    && Spec.Distinct(spine)
    && head == AsPointer(Spec.Head(spine))
    && forall i :: 0 <= i < |spine| ==> LinkAt(spine, i)
  }

  ghost predicate LinkAt(spine: seq<Pss>, i: nat)
    requires i < |spine|
    reads spine`next
  {
    spine[i].next == if i + 1 < |spine| then spine[i + 1] else null
  }

  ghost function AbsAll(live: seq<Pss>): (r: map<Pss, Spec.Session<Pss>>)
    reads live
    ensures forall p :: p in live ==> p in r && r[p] == p.Abs()
    ensures forall p :: p in r ==> p in live
  {
    map p | p in live :: p.Abs()
  }

  /** struct per_vhost_data__lws_status */
  class Vhd {
    var livePssList: Pss?
    var countLivePss: nat
    ghost var live: seq<Pss>

    ghost predicate Valid()
      reads this, live`next
    {
      Linked(livePssList, live)
    }

    ghost function View(): Spec.State<Pss>
      reads this, live
    {
      Spec.State(live, AbsAll(live), countLivePss)
    }

    constructor ()
      ensures Valid() && View() == Spec.State([], map[], 0)
    {
      livePssList, countLivePss, live := null, 0, [];
    }

    /** The loop of trigger_resend() */
    method NudgeAll()
      requires Valid()
      modifies live`subsequent, live`walkNext, live`walk, live`changedPartway, live`wantWrite
      ensures Valid()
      ensures forall j :: 0 <= j < |live| ==> live[j].Abs() == Spec.Nudge(old(live[j].Abs()), Spec.Head(live))
    {
      var pss := livePssList;
      ghost var i := 0;
      while pss != null
        invariant Valid() && 0 <= i <= |live| && pss == if i < |live| then live[i] else null
        invariant forall j :: 0 <= j < i ==> live[j].Abs() == Spec.Nudge(old(live[j].Abs()), Spec.Head(live))
        invariant forall j :: i <= j < |live| ==> live[j].Abs() == old(live[j].Abs())
        decreases |live| - i
      {
        pss.Nudge(livePssList);
        assert LinkAt(live, i);
        pss, i := pss.next, i + 1;
      }
    }

    /** trigger_resend() */
    method TriggerResend()
      requires Valid()
      modifies live`subsequent, live`walkNext, live`walk, live`changedPartway, live`wantWrite
      ensures Valid() && View() == Spec.TriggerResend(old(View()))
    {
      NudgeAll();
      assert AbsAll(live) == Spec.TriggerResend(old(View())).sessions;
    }

    /** ESTABLISHED, on a session lws has just zeroed. */
    method Established(p: Pss)
      requires Valid() && p !in live && p.Abs() == Spec.Newcomer()
      modifies this, p
      modifies live`subsequent, live`walkNext, live`walk, live`changedPartway, live`wantWrite
      ensures Valid() && live == [p] + old(live) && View() == Spec.Established(old(View()), p)
    {
      Push(p);
      TriggerResend();
    }

    method Push(p: Pss)
      requires Valid() && p !in live
      modifies this, p`next
      ensures Valid() && live == [p] + old(live)
      ensures View() == Spec.State([p] + old(live), old(View()).sessions[p := p.Abs()], old(countLivePss) + 1)
    {
      countLivePss := countLivePss + 1;
      p.next := livePssList;
      livePssList := p;
      live := [p] + live;
      forall i | 0 <= i < |live| ensures LinkAt(live, i) {
        assert i > 0 ==> live[i] == old(live)[i - 1] && old(LinkAt(live, i - 1));
      }
    }

    /** The list part of CLOSED: walk the links, and rewrite the one that leads to `p`. */
    method Unlink(p: Pss)
      requires Valid()
      modifies this`livePssList, this`live, live`next
      ensures Valid() && live == Spec.Without(old(live), p)
    {
      var prev: Pss?, cur := null, livePssList;
      ghost var i := 0;
      while cur != null && cur != p
        invariant 0 <= i <= |live| && p !in live[..i]
        invariant cur == if i < |live| then live[i] else null
        invariant prev == if i > 0 then live[i - 1] else null
        decreases |live| - i
      {
        assert LinkAt(live, i);
        prev, cur, i := cur, cur.next, i + 1;
      }
      WithoutAt(live, p, i);
      if cur != null {
        Rewire(p, prev, i);
      }
    }

    method Rewire(p: Pss, prev: Pss?, ghost i: nat)
      requires Valid() && i < |live| && live[i] == p && prev == if i > 0 then live[i - 1] else null
      modifies this`livePssList, this`live, live`next
      ensures Valid() && live == old(live)[..i] + old(live)[i + 1..]
    {
      ghost var was := live;
      assert LinkAt(was, i) && (i > 0 ==> LinkAt(was, i - 1));
      if prev == null {
        livePssList := p.next;
      } else {
        prev.next := p.next;
      }
      live := live[..i] + live[i + 1..];
      DistinctRest(was, i, live);
      forall j | 0 <= j < |live| ensures LinkAt(live, j) {
        assert old(LinkAt(live, if j < i then j else j + 1));
      }
    }

    method Drop(p: Pss)
      requires Valid()
      modifies this`livePssList, this`live, live`next
      ensures Valid() && live == Spec.Without(old(live), p)
      ensures View() == Spec.State(live, old(View()).sessions - {p}, countLivePss)
    {
      Unlink(p);
      Spec.WithoutIs(old(live), p);
      assert AbsAll(live) == old(AbsAll(live)) - {p};
    }

    /** CLOSED */
    method Closed(p: Pss)
      requires Valid()
      modifies this`livePssList, this`live, live`next
      modifies live`subsequent, live`walkNext, live`walk, live`changedPartway, live`wantWrite
      ensures Valid() && View() == Spec.Closed(old(View()), p)
    {
      Drop(p);
      Spec.WithoutIs(old(live), p);
      TriggerResend();
    }

    /** Is the session still on the list? */
    method Listed(q: Pss) returns (m: bool)
      requires Valid()
      ensures m <==> q in live
    {
      var pss2 := livePssList;
      ghost var i := 0;
      while pss2 != null && pss2 != q
        invariant 0 <= i <= |live| && q !in live[..i] && pss2 == if i < |live| then live[i] else null
        decreases |live| - i
      {
        assert LinkAt(live, i);
        pss2, i := pss2.next, i + 1;
      }
      return pss2 != null;
    }

    method NextOf(q: Pss) returns (n: Pss?)
      requires Valid() && q in live
      ensures Pointee(n) == Spec.Next(live, q)
    {
      ghost var i :| 0 <= i < |live| && live[i] == q;
      Spec.NextIs(live, i);
      assert LinkAt(live, i);
      return q.next;
    }

    /** The switch on the walk state in SERVER_WRITEABLE. */
    method Advance(p: Pss) returns (frame: Option<Frame<Spec.Token<Pss>>>)
      requires Valid() && p in live
      modifies p`walk, p`walkNext, p`subsequent, p`changedPartway, p`dangling
      ensures Valid()
      ensures (p.Abs(), frame) == Spec.Advance(live, countLivePss, old(p.Abs()))
    {
      match p.walk {
        case Idle =>
          return None;
        case Initial =>
          p.walk, p.walkNext, p.dangling := Spec.Listing, livePssList, false;
          return Some(Frame(true, false, [Spec.Open(countLivePss)]));
        case Listing =>
          if p.walkNext != null {
            frame := Entry(p, p.walkNext);
            return frame;
          }
        case Final =>
      }
      frame := Finish(p);
    }

    /** One list entry, if the session it is about is still there. */
    method Entry(p: Pss, q: Pss) returns (frame: Option<Frame<Spec.Token<Pss>>>)
      requires Valid() && p in live && p.walk.Listing? && p.walkNext == q
      modifies p`walk, p`walkNext, p`subsequent, p`changedPartway, p`dangling
      ensures Valid()
      ensures (p.Abs(), frame) == Spec.Advance(live, countLivePss, old(p.Abs()))
    {
      var text: seq<Spec.Token<Pss>> := if p.subsequent then [Spec.Comma] else [];
      p.subsequent := true;
      var m := Listed(q);
      if !m {
        p.walk, p.changedPartway, p.dangling := Spec.Final, true, text != [];
        return Some(Frame(false, false, text));
      }
      var n := NextOf(q);
      p.walkNext := n;
      if n == null {
        p.walk := Spec.Final;
      }
      return Some(Frame(false, false, text + [Spec.Item(q)]));
    }

    method Finish(p: Pss) returns (frame: Option<Frame<Spec.Token<Pss>>>)
      requires Valid() && p in live
      modifies p`walk, p`walkNext, p`subsequent, p`changedPartway, p`dangling
      ensures Valid() && (p.Abs(), frame) == Spec.Finish(live, old(p.Abs()))
    {
      if p.changedPartway {
        p.changedPartway, p.subsequent := false, false;
        p.walkNext, p.walk := livePssList, Spec.Initial;
      } else {
        p.walk := Spec.Idle;
      }
      return Some(Frame(false, true, [Spec.Shut]));
    }

    /** What SERVER_WRITEABLE does to the session; `ok` is whether the write succeeds. */
    method Write(p: Pss, ok: bool)
      requires Valid() && p in live
      modifies p`walk, p`walkNext, p`subsequent, p`changedPartway, p`wantWrite
      modifies p`frames, p`broken, p`dangling, p`faulty
      ensures Valid() && p.Abs() == Spec.Write(live, countLivePss, old(p.Abs()), ok)
    {
      var frame := Advance(p);
      if frame.Some? {
        if ok {
          p.frames := p.frames + [frame.value];
          p.faulty := if frame.value.fin then p.faulty + [p.dangling] else p.faulty;
        } else {
          p.broken := true;
        }
      }
      p.wantWrite := frame.Some? && ok && !p.walk.Idle?;
    }

    /** SERVER_WRITEABLE */
    method Writeable(p: Pss, ok: bool)
      requires Valid() && p in live
      modifies p`walk, p`walkNext, p`subsequent, p`changedPartway, p`wantWrite
      modifies p`frames, p`broken, p`dangling, p`faulty
      ensures Valid() && View() == Spec.Writeable(old(View()), p, ok)
    {
      Write(p, ok);
      assert AbsAll(live) == old(AbsAll(live))[p := p.Abs()];
    }
  }

  lemma {:induction false} WithoutAt<Id>(live: seq<Id>, id: Id, i: nat)
    requires Spec.Distinct(live) && i <= |live| && id !in live[..i] && (i < |live| ==> live[i] == id)
    ensures Spec.Without(live, id) == if i < |live| then live[..i] + live[i + 1..] else live
  {
    if i > 0 {
      var rest := live[1..];
      assert rest[..i - 1] == live[..i][1..] && live[0] == live[..i][0];
      WithoutAt(rest, id, i - 1);
      if i < |live| {
        assert [live[0]] + (rest[..i - 1] + rest[i..]) == live[..i] + live[i + 1..];
      } else {
        assert [live[0]] + rest == live;
      }
    }
  }

  lemma DistinctRest<Id>(live: seq<Id>, i: nat, rest: seq<Id>)
    requires Spec.Distinct(live) && i < |live| && rest == live[..i] + live[i + 1..]
    ensures Spec.Distinct(rest) && forall j :: 0 <= j < |rest| ==> rest[j] == live[if j < i then j else j + 1]
  {
  }
}
