/**
 How a session of plugins/protocol_esp32_lws_group.c is sent the members of its group: a fragmented
 message, as many members to a frame as fit, with a cursor into a list that others change without
 telling.  The last frame says whether the message is to be discarded.
 */
module GroupWalk {
  import opened Wrappers
  import opened Fragments
  import opened ListText

  datatype Stage = Idle | Initial | Members | Final

  /** What to know of a message: the list when its last member was written, and whether what had been
      written by then was just what then preceded the cursor. */
  datatype Mark<M> = Mark(list: seq<M>, whole: bool)

  /** `wrote` records the members written of the message under way, `mark` what to know of it, and `marks`
      the same of the messages completed. */
  datatype Session<M> = Session(
    stage: Stage,
    member: Option<M>,
    subsequent: bool,
    changedPartway: bool,
    wantWrite: bool,
    broken: bool,
    frames: seq<Frame<Token<M>>>,
    wrote: seq<M>,
    mark: Mark<M>,
    marks: seq<Mark<M>>)

  /** The list from a member on; empty if it is not there. */
  function From<M(==)>(ms: seq<M>, m: Option<M>): (r: seq<M>)
    ensures |r| <= |ms| && r == ms[|ms| - |r|..]
  {
    if m.None? || ms == [] then [] else if ms[0] == m.value then ms else From(ms[1..], m)
  }

  function Head<M>(ms: seq<M>): Option<M> {
    if ms == [] then None else Some(ms[0])
  }

  /** The closing text, with its verdict. */
  function Shut<M>(discard: bool): Token<M> {
    Part(if discard then "discard" else "keep")
  }

  /** As many of the members from the cursor on as fit. */
  function Page<M(==)>(ms: seq<M>, left: seq<M>, fit: nat, s: Session<M>): (Session<M>, Frame<Token<M>>)
    requires |left| <= |ms|
  {
    var n := if fit < |left| then fit else |left|;
    var next := Head(left[n..]);
    (s.(member := next, subsequent := s.subsequent || 0 < n, stage := if next.None? then Final else Members,
        wrote := s.wrote + left[..n], mark := Mark(ms, s.wrote == ms[..|ms| - |left|])),
     Frame(false, false, Entries(left[..n], s.subsequent)))
  }

  /** SERVER_WRITEABLE with the list as it is now and room for `fit` members. */
  function Advance<M(==)>(ms: seq<M>, fit: nat, s: Session<M>): (Session<M>, Frame<Token<M>>) {
    match s.stage
    case Idle | Initial =>
      (s.(stage := Members, subsequent := false, changedPartway := false, member := Head(ms), wrote := []),
       Frame(true, false, [Part("header")]))
    case Members =>
      var left := From(ms, s.member);
      if left == [] then
        var changed := s.changedPartway || ms != [] || s.member.Some?;
        (s.(stage := Final, member := None, changedPartway := changed, mark := Mark(ms, !changed)),
         Frame(false, false, [Part(" ")]))
      else Page(ms, left, fit, s)
    case Final =>
      (s.(stage := if s.changedPartway then Initial else Idle), Frame(false, true, [Shut(s.changedPartway)]))
  }

  /** `ok` is whether the write succeeds; after one that does not the connection closes. */
  function Writeable<M(==)>(ms: seq<M>, fit: nat, s: Session<M>, ok: bool): Session<M> {
    var (t, frame) := Advance(ms, fit, s);
    if ok then
      t.(frames := t.frames + [frame], wantWrite := !t.stage.Idle?,
         marks := if frame.fin then t.marks + [t.mark] else t.marks)
    else t.(broken := true, wantWrite := false)
  }

  function Newcomer<M>(): Session<M> {
    Session(Initial, None, false, false, true, false, [], [], Mark([], false), [])
  }

  /** The whole message about a list; an empty one leaves a blank. */
  function Render<M>(ms: seq<M>): seq<Token<M>> {
    [Part("header")] + (if ms == [] then [Part(" ")] else Entries(ms, false)) + [Shut(false)]
  }

  // ---- what every callback keeps ----------------------------------------------------------------

  /** A message is the list it was about exactly when it is marked whole. */
  ghost predicate Marked<M>(message: seq<Token<M>>, mark: Mark<M>) {
    message == Render(mark.list) <==> mark.whole
  }

  ghost predicate AllMarked<M>(done: seq<seq<Token<M>>>, marks: seq<Mark<M>>) {
    |done| == |marks| && forall k :: 0 <= k < |done| ==> Marked(done[k], marks[k])
  }

  /** The message under way is what was written so far. */
  ghost predicate UnderWay<M>(s: Session<M>, partial: seq<Token<M>>) {
    if s.stage.Members? then
      && !s.changedPartway && (s.member.None? ==> s.wrote == [])
      && partial == [Part("header")] + Entries(s.wrote, false) && s.subsequent == (s.wrote != [])
    else Marked(partial + [Shut(s.changedPartway)], s.mark)
  }

  ghost predicate Good<M>(s: Session<M>) {
    var box := Assemble(s.frames);
    && box.Some? && AllMarked(box.value.done, s.marks)
    && (!s.broken ==>
          && (box.value.partial.Some? <==> s.stage.Members? || s.stage.Final?)
          && (box.value.partial.Some? ==> UnderWay(s, box.value.partial.value))
          && (!s.stage.Idle? ==> s.wantWrite))
  }

  lemma {:induction false} EntriesInjective<M>(a: seq<M>, b: seq<M>, subsequent: bool)
    requires Entries(a, subsequent) == Entries(b, subsequent)
    ensures a == b
  {
    var at := if subsequent then 1 else 0;
    if a != [] && b != [] {
      var x, y := Entries(a, subsequent), Entries(b, subsequent);
      assert x[at] == Item(a[0]) && y[at] == Item(b[0]);
      assert x[at + 1..] == Entries(a[1..], true) && y[at + 1..] == Entries(b[1..], true);
      EntriesInjective(a[1..], b[1..], true);
      assert a == [a[0]] + a[1..] && b == [b[0]] + b[1..];
    }
  }

  lemma HeaderWithEntries<M>(text: seq<Token<M>>, ms: seq<M>)
    requires ms != []
    ensures [Part("header")] + text + [Shut(false)] == Render(ms) <==> text == Entries(ms, false)
  {
    var a, b := [Part("header")] + text + [Shut(false)], Render(ms);
    assert a[1..|a| - 1] == text && b[1..|b| - 1] == Entries(ms, false);
  }

  /** The page that ends the list: the message is the list exactly when what had been written before is
      what precedes the cursor now. */
  lemma LastPageIff<M>(ms: seq<M>, wrote: seq<M>, left: seq<M>)
    requires left != [] && |left| <= |ms| && left == ms[|ms| - |left|..]
    ensures [Part("header")] + Entries(wrote + left, false) + [Shut(false)] == Render(ms) <==>
            wrote == ms[..|ms| - |left|]
  {
    HeaderWithEntries(Entries(wrote + left, false), ms);
    assert ms == ms[..|ms| - |left|] + left;
    if Entries(wrote + left, false) == Entries(ms, false) {
      EntriesInjective(wrote + left, ms, false);
      assert (wrote + left)[..|wrote|] == wrote;
    }
  }

  lemma DiscardIsNoList<M>(text: seq<Token<M>>, ms: seq<M>)
    ensures text + [Shut(true)] != Render(ms)
  {
    var a, b := text + [Shut(true)], Render(ms);
    assert a[|a| - 1] == Shut(true) && b[|b| - 1] == Shut(false);
  }

  /** The text so far, one page later. */
  lemma PageExtends<M>(partial: seq<Token<M>>, wrote: seq<M>, page: seq<M>)
    requires partial == [Part("header")] + Entries(wrote, false)
    ensures partial + Entries(page, wrote != []) == [Part("header")] + Entries(wrote + page, false)
  {
    EntriesConcat(wrote, page, false);
  }

  /** The cursor is not on the list: nothing was to be listed, or the message will be discarded. */
  lemma GoneKeeps<M>(ms: seq<M>, fit: nat, s: Session<M>, partial: seq<Token<M>>)
    requires s.stage.Members? && UnderWay(s, partial) && From(ms, s.member) == []
    ensures UnderWay(Advance(ms, fit, s).0, partial + [Part(" ")])
  {
    if ms == [] && s.member.None? {
      assert partial == [Part("header")];
    } else {
      DiscardIsNoList(partial + [Part(" ")], ms);
    }
  }

  lemma PageTurn<M>(ms: seq<M>, left: seq<M>, fit: nat, s: Session<M>)
    requires 0 < |left| <= |ms|
    ensures var t, body := Page(ms, left, fit, s).0, Page(ms, left, fit, s).1.body;
            && t.changedPartway == s.changedPartway
            && if fit < |left| then
                 && t.stage.Members? && t.member == Head(left[fit..]) && body == Entries(left[..fit], s.subsequent)
                 && t.wrote == s.wrote + left[..fit] && t.subsequent == (s.subsequent || 0 < fit)
               else
                 && t.stage.Final? && body == Entries(left, s.subsequent)
                 && t.mark == Mark(ms, s.wrote == ms[..|ms| - |left|])
  {
    assert left[..|left|] == left;
  }

  lemma MorePages<M>(t: Session<M>, partial: seq<Token<M>>, wrote: seq<M>, page: seq<M>)
    requires t.stage.Members? && !t.changedPartway && t.member.Some? && t.wrote == wrote + page
    requires partial == [Part("header")] + Entries(wrote, false) && t.subsequent == (wrote != [] || 0 < |page|)
    ensures UnderWay(t, partial + Entries(page, wrote != []))
  {
    PageExtends(partial, wrote, page);
  }

  lemma NoMorePages<M>(ms: seq<M>, t: Session<M>, partial: seq<Token<M>>, wrote: seq<M>, left: seq<M>)
    requires t.stage.Final? && !t.changedPartway && left != [] && |left| <= |ms| && left == ms[|ms| - |left|..]
    requires partial == [Part("header")] + Entries(wrote, false) && t.mark == Mark(ms, wrote == ms[..|ms| - |left|])
    ensures UnderWay(t, partial + Entries(left, wrote != []))
  {
    PageExtends(partial, wrote, left);
    LastPageIff(ms, wrote, left);
  }

  lemma PageKeeps<M>(ms: seq<M>, left: seq<M>, fit: nat, s: Session<M>, partial: seq<Token<M>>)
    requires s.stage.Members? && UnderWay(s, partial) && 0 < |left| <= |ms| && left == ms[|ms| - |left|..]
    ensures UnderWay(Page(ms, left, fit, s).0, partial + Page(ms, left, fit, s).1.body)
  {
    PageTurn(ms, left, fit, s);
    if fit < |left| {
      MorePages(Page(ms, left, fit, s).0, partial, s.wrote, left[..fit]);
    } else {
      NoMorePages(ms, Page(ms, left, fit, s).0, partial, s.wrote, left);
    }
  }

  /** Sending a frame of the message under way. */
  lemma FrameKeeps<M>(s: Session<M>, t: Session<M>, frame: Frame<Token<M>>)
    requires Good(s) && !s.broken && s.stage.Members? && !frame.text && !frame.fin
    requires t.frames == s.frames && t.marks == s.marks && !t.broken && (t.stage.Members? || t.stage.Final?)
    requires UnderWay(t, Assemble(s.frames).value.partial.value + frame.body)
    ensures Good(t.(frames := t.frames + [frame], wantWrite := true))
  {
    AssembleMore(s.frames, frame);
  }

  lemma PageSends<M>(ms: seq<M>, left: seq<M>, fit: nat, s: Session<M>)
    requires |left| <= |ms|
    ensures var (t, frame) := Page(ms, left, fit, s);
            && !frame.text && !frame.fin && (t.stage.Members? || t.stage.Final?)
            && t.frames == s.frames && t.marks == s.marks && t.broken == s.broken
  {
  }

  lemma MembersSends<M>(ms: seq<M>, fit: nat, s: Session<M>)
    requires s.stage.Members?
    ensures var (t, frame) := Advance(ms, fit, s);
            && Writeable(ms, fit, s, true) == t.(frames := t.frames + [frame], wantWrite := true)
            && !frame.text && !frame.fin && (t.stage.Members? || t.stage.Final?)
            && t.frames == s.frames && t.marks == s.marks && t.broken == s.broken
  {
    PageSends(ms, From(ms, s.member), fit, s);
  }

  lemma MembersKeeps<M>(ms: seq<M>, fit: nat, s: Session<M>)
    requires Good(s) && !s.broken && s.stage.Members?
    ensures Good(Writeable(ms, fit, s, true))
  {
    var partial := Assemble(s.frames).value.partial.value;
    if From(ms, s.member) == [] {
      GoneKeeps(ms, fit, s, partial);
    } else {
      PageKeeps(ms, From(ms, s.member), fit, s, partial);
    }
    MembersSends(ms, fit, s);
    FrameKeeps(s, Advance(ms, fit, s).0, Advance(ms, fit, s).1);
  }

  lemma FinalKeeps<M>(ms: seq<M>, fit: nat, s: Session<M>)
    requires Good(s) && !s.broken && s.stage.Final?
    ensures Good(Writeable(ms, fit, s, true))
  {
    AssembleMore(s.frames, Advance(ms, fit, s).1);
  }

  lemma BeginKeeps<M>(ms: seq<M>, fit: nat, s: Session<M>)
    requires Good(s) && !s.broken && (s.stage.Idle? || s.stage.Initial?)
    ensures Good(Writeable(ms, fit, s, true))
  {
    AssembleMore(s.frames, Advance(ms, fit, s).1);
    assert [] + [Part("header")] == [Part("header")] + Entries<M>([], false);
  }

  lemma WriteableKeeps<M>(ms: seq<M>, fit: nat, s: Session<M>, ok: bool)
    requires Good(s) && !s.broken
    ensures Good(Writeable(ms, fit, s, ok))
  {
    match s.stage
    case Members => MembersKeeps(ms, fit, s);
    case Final => FinalKeeps(ms, fit, s);
    case _ => BeginKeeps(ms, fit, s);
  }

  // ---- while the list stays as it is ------------------------------------------------------------

  ghost predicate Distinct<M>(ms: seq<M>) {
    forall i, j :: 0 <= i < j < |ms| ==> ms[i] != ms[j]
  }

  /** The message under way is about this list, and the latest one if none is. */
  ghost predicate OnTrack<M>(ms: seq<M>, s: Session<M>) {
    match s.stage
    case Initial => true
    case Members => exists i :: AtEntry(ms, s, i)
    case Final => s.mark == Mark(ms, true)
    case Idle => s.marks != [] && s.marks[|s.marks| - 1] == Mark(ms, true)
  }

  ghost predicate AtEntry<M>(ms: seq<M>, s: Session<M>, i: int) {
    0 <= i <= |ms| && (ms != [] ==> i < |ms|) && s.member == Head(ms[i..]) && s.wrote == ms[..i] && !s.changedPartway
  }

  lemma {:induction false} FromAt<M>(ms: seq<M>, i: nat)
    requires Distinct(ms) && i < |ms|
    ensures From(ms, Some(ms[i])) == ms[i..]
  {
    if i > 0 {
      FromAt(ms[1..], i - 1);
    }
  }

  lemma PageAt<M>(ms: seq<M>, i: nat, n: nat)
    requires i + n <= |ms|
    ensures ms[..i] + ms[i..][..n] == ms[..i + n] && ms[i..][n..] == ms[i + n..]
  {
  }

  lemma PageOnTrack<M>(ms: seq<M>, fit: nat, s: Session<M>, i: nat)
    requires s.stage.Members? && i < |ms| && s.wrote == ms[..i] && !s.changedPartway
    ensures OnTrack(ms, Page(ms, ms[i..], fit, s).0)
  {
    PageTurn(ms, ms[i..], fit, s);
    if fit < |ms| - i {
      PageAt(ms, i, fit);
      assert AtEntry(ms, Page(ms, ms[i..], fit, s).0, i + fit);
    }
  }

  lemma EntryOnTrack<M>(ms: seq<M>, fit: nat, s: Session<M>, i: nat)
    requires Distinct(ms) && s.stage.Members? && AtEntry(ms, s, i) && i < |ms|
    ensures OnTrack(ms, Advance(ms, fit, s).0)
  {
    FromAt(ms, i);
    assert Head(ms[i..]) == Some(ms[i]) && From(ms, s.member) == ms[i..];
    PageOnTrack(ms, fit, s, i);
  }

  lemma SentOnTrack<M>(ms: seq<M>, t: Session<M>, frame: Frame<Token<M>>)
    requires OnTrack(ms, t) && (t.stage.Members? || t.stage.Final?)
    ensures OnTrack(ms, t.(frames := t.frames + [frame], wantWrite := true))
  {
    if t.stage.Members? {
      var k :| AtEntry(ms, t, k);
      assert AtEntry(ms, t.(frames := t.frames + [frame], wantWrite := true), k);
    }
  }

  lemma StaysOnTrack<M>(ms: seq<M>, fit: nat, s: Session<M>)
    requires Distinct(ms) && s.stage.Members? && OnTrack(ms, s)
    ensures OnTrack(ms, Writeable(ms, fit, s, true))
  {
    var i :| AtEntry(ms, s, i);
    if i < |ms| {
      EntryOnTrack(ms, fit, s, i);
    }
    SentOnTrack(ms, Advance(ms, fit, s).0, Advance(ms, fit, s).1);
  }

  lemma BeginsOnTrack<M>(ms: seq<M>, fit: nat, s: Session<M>)
    requires s.stage.Idle? || s.stage.Initial?
    ensures OnTrack(ms, Writeable(ms, fit, s, true))
  {
    assert ms[..0] == [] && ms[0..] == ms;
    assert AtEntry(ms, Writeable(ms, fit, s, true), 0);
  }

  // ---- once the list stays as it is -------------------------------------------------------------

  /** The cursor is on the list exactly if there is something left from it on. */
  lemma {:induction false} FromIff<M>(ms: seq<M>, m: Option<M>)
    ensures From(ms, m) != [] <==> m.Some? && m.value in ms
  {
    if ms != [] && m.Some? && ms[0] != m.value {
      FromIff(ms[1..], m);
      assert m.value in ms <==> m.value in ms[1..];
    }
  }

  /** The message under way will be discarded: its cursor has left, or there was none and now there are
      members. */
  predicate Dropped<M(==)>(ms: seq<M>, s: Session<M>) {
    || (s.stage.Final? && s.changedPartway)
    || (s.stage.Members? && if s.member.Some? then s.member.value !in ms else ms != [])
  }

  /** The next message completed, or the last if nothing is under way, will be about the list as it is. */
  ghost predicate Due<M>(ms: seq<M>, s: Session<M>) {
    s.stage.Initial? || Dropped(ms, s) || OnTrack(ms, s)
  }

  /** How many more turns a session needs at most, with room for a member in each. */
  function Remaining<M(==)>(ms: seq<M>, s: Session<M>): nat {
    match s.stage
    case Idle => 0
    case Initial => |ms| + 3
    case Final => 1 + if s.changedPartway then |ms| + 3 else 0
    case Members =>
      if Dropped(ms, s) then |ms| + 5 else if From(ms, s.member) == [] then 2 else |From(ms, s.member)| + 1
  }

  lemma HeadIsFirst<M>(ms: seq<M>)
    ensures From(ms, Head(ms)) == ms
  {
  }

  lemma {:induction false} FromHead<M>(ms: seq<M>, i: nat)
    requires Distinct(ms) && i <= |ms|
    ensures From(ms, Head(ms[i..])) == ms[i..]
  {
    if i < |ms| {
      FromAt(ms, i);
      assert ms[i..][0] == ms[i];
    }
  }

  lemma CursorMoves<M>(ms: seq<M>, left: seq<M>, fit: nat)
    requires Distinct(ms) && |left| <= |ms| && left == ms[|ms| - |left|..] && fit < |left|
    ensures From(ms, Head(left[fit..])) == left[fit..]
  {
    assert left[fit..] == ms[|ms| - |left| + fit..];
    FromHead(ms, |ms| - |left| + fit);
  }

  lemma FewerPages<M>(ms: seq<M>, s: Session<M>, t: Session<M>, n: nat)
    requires s.stage.Members? && t.stage.Members? && 0 < n < |From(ms, s.member)|
    requires From(ms, t.member) == From(ms, s.member)[n..]
    ensures Remaining(ms, t) < Remaining(ms, s)
  {
    FromIff(ms, s.member);
    FromIff(ms, t.member);
  }

  lemma LastPage<M>(ms: seq<M>, s: Session<M>, t: Session<M>)
    requires s.stage.Members? && t.stage.Final?
    requires t.changedPartway ==> From(ms, s.member) == [] && (ms != [] || s.member.Some?)
    ensures Remaining(ms, t) < Remaining(ms, s)
  {
    FromIff(ms, s.member);
  }

  lemma PageProgress<M>(ms: seq<M>, left: seq<M>, fit: nat, s: Session<M>)
    requires Distinct(ms) && s.stage.Members? && !s.changedPartway && 0 < fit
    requires left == From(ms, s.member) && left != []
    ensures Remaining(ms, Page(ms, left, fit, s).0) < Remaining(ms, s)
  {
    var t := Page(ms, left, fit, s).0;
    PageTurn(ms, left, fit, s);
    if fit < |left| {
      CursorMoves(ms, left, fit);
      FewerPages(ms, s, t, fit);
    } else {
      LastPage(ms, s, t);
    }
  }

  lemma MembersProgress<M>(ms: seq<M>, fit: nat, s: Session<M>)
    requires Distinct(ms) && s.stage.Members? && !s.changedPartway && 0 < fit
    ensures Remaining(ms, Advance(ms, fit, s).0) < Remaining(ms, s)
  {
    if From(ms, s.member) == [] {
      LastPage(ms, s, Advance(ms, fit, s).0);
    } else {
      PageProgress(ms, From(ms, s.member), fit, s);
    }
  }

  lemma BeginProgress<M>(ms: seq<M>, fit: nat, s: Session<M>)
    requires s.stage.Initial?
    ensures Remaining(ms, Advance(ms, fit, s).0) < Remaining(ms, s)
  {
    HeadIsFirst(ms);
    assert ms != [] ==> ms[0] in ms;
  }

  lemma SentRemains<M>(ms: seq<M>, fit: nat, s: Session<M>)
    ensures Remaining(ms, Writeable(ms, fit, s, true)) == Remaining(ms, Advance(ms, fit, s).0)
  {
    SameRemaining(ms, Advance(ms, fit, s).0, Writeable(ms, fit, s, true));
  }

  lemma SameRemaining<M>(ms: seq<M>, t: Session<M>, u: Session<M>)
    requires u.stage == t.stage && u.member == t.member && u.changedPartway == t.changedPartway
    ensures Remaining(ms, u) == Remaining(ms, t)
  {
  }

  /** Every turn of a session that has something to send brings it closer to having nothing. */
  lemma TurnProgresses<M>(ms: seq<M>, fit: nat, s: Session<M>)
    requires Distinct(ms) && Good(s) && !s.broken && !s.stage.Idle? && 0 < fit
    ensures Remaining(ms, Writeable(ms, fit, s, true)) < Remaining(ms, s)
  {
    SentRemains(ms, fit, s);
    match s.stage
    case Members => MembersProgress(ms, fit, s);
    case Initial => BeginProgress(ms, fit, s);
    case Final =>
  }

  /** A message whose cursor has left is closed as one to discard, ... */
  lemma GoneCloses<M>(ms: seq<M>, fit: nat, s: Session<M>)
    requires s.stage.Members? && Dropped(ms, s)
    ensures var (t, frame) := Advance(ms, fit, s);
            t.stage.Final? && t.changedPartway && frame == Frame(false, false, [Part(" ")])
  {
    FromIff(ms, s.member);
  }

  /** ... and begun again. */
  lemma DiscardIsReissued<M>(ms: seq<M>, fit: nat, s: Session<M>)
    requires Good(s) && !s.broken && s.stage.Final? && s.changedPartway
    ensures var t := Writeable(ms, fit, s, true);
            && t.stage.Initial? && t.wantWrite && Assemble(t.frames).Some?
            && var done := Assemble(t.frames).value.done;
               done != [] && done[|done| - 1] == Assemble(s.frames).value.partial.value + [Shut(true)]
  {
    AssembleMore(s.frames, Frame(false, true, [Shut(true)]));
  }

  lemma DueStays<M>(ms: seq<M>, fit: nat, s: Session<M>)
    requires Distinct(ms) && Due(ms, s) && !s.stage.Idle?
    ensures Due(ms, Writeable(ms, fit, s, true))
  {
    match s.stage
    case Initial => BeginsOnTrack(ms, fit, s);
    case Members =>
      if Dropped(ms, s) {
        GoneCloses(ms, fit, s);
      } else {
        StaysOnTrack(ms, fit, s);
      }
    case Final =>
  }

  /** A turn per entry of `fits`, as long as the session asks for one. */
  function Turns<M(==)>(ms: seq<M>, fits: seq<nat>, s: Session<M>): Session<M> {
    if fits == [] then s
    else
      var t := Turns(ms, fits[..|fits| - 1], s);
      if t.stage.Idle? then t else Writeable(ms, fits[|fits| - 1], t, true)
  }

  lemma {:induction false} TurnsProgress<M>(ms: seq<M>, fits: seq<nat>, s: Session<M>)
    requires Distinct(ms) && Good(s) && !s.broken && forall k :: 0 <= k < |fits| ==> 0 < fits[k]
    ensures var r := Turns(ms, fits, s);
            && Good(r) && !r.broken && (Due(ms, s) ==> Due(ms, r))
            && (r.stage.Idle? || Remaining(ms, r) + |fits| <= Remaining(ms, s))
  {
    if fits != [] {
      var n := |fits| - 1;
      TurnsProgress(ms, fits[..n], s);
      var t := Turns(ms, fits[..n], s);
      if !t.stage.Idle? {
        WriteableKeeps(ms, fits[n], t, true);
        TurnProgresses(ms, fits[n], t);
        if Due(ms, t) {
          DueStays(ms, fits[n], t);
        }
      }
    }
  }

  /** Once the list stays as it is a session has nothing more to send after at most 5 more turns than there
      are members; and unless it goes on to keep a message begun earlier, what it was sent last is the
      whole list.  So a message that is discarded is sent again. */
  lemma Settles<M>(ms: seq<M>, fits: seq<nat>, s: Session<M>)
    requires Distinct(ms) && Good(s) && !s.broken && |ms| + 5 <= |fits| && forall k :: 0 <= k < |fits| ==> 0 < fits[k]
    ensures var r := Turns(ms, fits, s);
            && r.stage.Idle? && Assemble(r.frames).Some?
            && (s.stage.Initial? || Dropped(ms, s) ==>
                  var done := Assemble(r.frames).value.done; done != [] && done[|done| - 1] == Render(ms))
  {
    var r := Turns(ms, fits, s);
    TurnsProgress(ms, fits, s);
    if Due(ms, s) {
      var done := Assemble(r.frames).value.done;
      assert Marked(done[|done| - 1], r.marks[|r.marks| - 1]);
    }
  }

  // ---- every run of one session -----------------------------------------------------------------

  /** A session gets WRITEABLE callbacks, and the list of members changes. */
  datatype Event<M> = Turn(fit: nat, ok: bool) | Change(members: seq<M>)

  /** `steady` is whether the list is what it was when the latest message was begun, without a change
      since. */
  datatype Scene<M> = Scene(members: seq<M>, session: Session<M>, steady: bool)

  ghost predicate Proper<M>(events: seq<Event<M>>) {
    forall k :: 0 <= k < |events| && events[k].Change? ==> Distinct(events[k].members)
  }

  ghost predicate Inv<M>(r: Scene<M>) {
    Distinct(r.members) && Good(r.session) && (r.steady && !r.session.broken ==> OnTrack(r.members, r.session))
  }

  function Next<M(==)>(r: Scene<M>, event: Event<M>): Scene<M> {
    match event
    case Change(members) => Scene(members, r.session, false)
    case Turn(fit, ok) =>
      if r.session.broken then r
      else Scene(r.members, Writeable(r.members, fit, r.session, ok),
                 r.steady || r.session.stage.Idle? || r.session.stage.Initial?)
  }

  lemma NextKeeps<M>(r: Scene<M>, event: Event<M>)
    requires Inv(r) && (event.Change? ==> Distinct(event.members))
    ensures Inv(Next(r, event))
  {
    if event.Turn? && !r.session.broken {
      WriteableKeeps(r.members, event.fit, r.session, event.ok);
      if event.ok {
        if r.session.stage.Idle? || r.session.stage.Initial? {
          BeginsOnTrack(r.members, event.fit, r.session);
        } else if r.session.stage.Members? && r.steady {
          StaysOnTrack(r.members, event.fit, r.session);
        }
      }
    }
  }

  /** After any sequence of events. */
  ghost function Run<M>(events: seq<Event<M>>): (r: Scene<M>)
    requires Proper(events)
    ensures Inv(r)
  {
    if events == [] then Scene([], Newcomer(), false)
    else
      var r := Run(events[..|events| - 1]);
      NextKeeps(r, events[|events| - 1]);
      Next(r, events[|events| - 1])
  }

  /** Frames are legal at all times, a session with more to send has asked to, and a completed message is
      the list it was about exactly when it is marked: when, as its last member was written, what had been
      written before was just what then preceded the cursor. */
  lemma MessageIsListIff<M>(events: seq<Event<M>>, k: nat)
    requires Proper(events)
    ensures var s := Run(events).session; var box := Assemble(s.frames);
            && box.Some? && |box.value.done| == |s.marks|
            && (k < |s.marks| ==> (box.value.done[k] == Render(s.marks[k].list) <==> s.marks[k].whole))
            && (!s.broken && !s.stage.Idle? ==> s.wantWrite)
  {
    var s := Run(events).session;
    assert Good(s);
    assert k < |s.marks| ==> Marked(Assemble(s.frames).value.done[k], s.marks[k]);
  }

  /** A message that was begun and finished without a change of the list in between is the whole list, not
      to be discarded. */
  lemma UndisturbedIsWhole<M>(events: seq<Event<M>>)
    requires Proper(events) && Run(events).steady && !Run(events).session.broken && Run(events).session.stage.Idle?
    ensures var r := Run(events); var done := Assemble(r.session.frames).value.done;
            done != [] && done[|done| - 1] == Render(r.members)
  {
    var s := Run(events).session;
    MessageIsListIff(events, |s.marks| - 1);
  }

  lemma OneWritten(a: Session<int>) returns (s: Session<int>)
    requires a.stage.Members? && a.member == Some(1) && a.wrote == [] && !a.changedPartway && a.marks == []
    ensures s == Writeable([1, 2], 1, a, true)
    ensures s.stage.Members? && s.member == Some(2) && s.wrote == [1] && !s.changedPartway && s.marks == []
  {
    assert From([1, 2], a.member) == [1, 2] && [1, 2][1..] == [2] && [1, 2][..1] == [1];
    s := Writeable([1, 2], 1, a, true);
  }

  lemma RestWritten(s: Session<int>) returns (t: Session<int>)
    requires s.stage.Members? && s.member == Some(2) && s.wrote == [1] && !s.changedPartway && s.marks == []
    ensures t == Writeable([2, 3], 9, s, true)
    ensures t.stage.Final? && t.wrote == [1, 2, 3] && t.mark == Mark([2, 3], false)
    ensures !t.changedPartway && t.marks == []
  {
    assert From([2, 3], s.member) == [2, 3] && [2, 3][..2] == [2, 3] && [1] + [2, 3] == [1, 2, 3];
    t := Writeable([2, 3], 9, s, true);
  }

  lemma Completed<M>(ms: seq<M>, fit: nat, t: Session<M>) returns (u: Session<M>)
    requires t.stage.Final? && !t.changedPartway
    ensures u == Writeable(ms, fit, t, true) && u.stage.Idle? && u.marks == t.marks + [t.mark] && u.wrote == t.wrote
  {
    u := Writeable(ms, fit, t, true);
  }

  /** But a change that leaves the cursor on the list goes unnoticed: 1 is written of the list 1, 2, which
      becomes 2, 3, and the message that is kept lists 1, 2 and 3. */
  lemma UnnoticedChange() returns (a: Session<int>, s: Session<int>, t: Session<int>, u: Session<int>)
    ensures a == Writeable([1, 2], 1, Newcomer(), true) && s == Writeable([1, 2], 1, a, true)
    ensures t == Writeable([2, 3], 9, s, true) && u == Writeable([2, 3], 1, t, true)
    ensures u.stage.Idle? && u.marks == [Mark([2, 3], false)] && u.wrote == [1, 2, 3]
  {
    a := Writeable([1, 2], 1, Newcomer(), true);
    s := OneWritten(a);
    t := RestWritten(s);
    u := Completed([2, 3], 1, t);
  }
}
