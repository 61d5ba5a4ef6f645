/**
 The status protocol of plugins/protocol_lws_status.c as a state machine: every session is sent the
 list of live sessions, one list entry per WRITEABLE callback, as one fragmented websocket message,
 and again whenever the list changed meanwhile.

 Sessions are known by their address, `Id`; an address may be used again once its session has left.
 */
module StatusSpec {
  import opened Wrappers
  import opened Fragments

  datatype Walk = Idle | Initial | Listing | Final

  /** The pieces of the JSON text: `{.. "wsi":"count", "conns":[`, a comma, one entry, and `]}`. */
  datatype Token<Id> = Open(count: nat) | Comma | Item(peer: Id) | Shut

  /** struct per_session_data__lws_status; `frames` is what was written, `broken` that a write failed.
      `dangling` records that the session next in line had left after another entry of the message under
      way was written, and `faulty` what it was for each message completed. */
  datatype Session<Id> = Session(
    walk: Walk,
    walkNext: Option<Id>,
    subsequent: bool,
    changedPartway: bool,
    wantWrite: bool,
    broken: bool,
    frames: seq<Frame<Token<Id>>>,
    dangling: bool,
    faulty: seq<bool>)

  /** `joins` is count_live_pss, which is never decremented. */
  datatype State<Id> = State(live: seq<Id>, sessions: map<Id, Session<Id>>, joins: nat)

  // ---- the callbacks ----------------------------------------------------------------------------

  function Head<Id>(live: seq<Id>): Option<Id> {
    if live == [] then None else Some(live[0])
  }

  /** What follows `id` on the list. */
  function Next<Id(==)>(live: seq<Id>, id: Id): Option<Id> {
    if live == [] then None
    else if live[0] == id then Head(live[1..])
    else Next(live[1..], id)
  }

  function Nudge<Id>(s: Session<Id>, head: Option<Id>): Session<Id> {
    if s.walk.Idle? then s.(subsequent := false, walkNext := head, walk := Initial, wantWrite := true)
    else s.(changedPartway := true, wantWrite := true)
  }

  function TriggerResend<Id>(st: State<Id>): State<Id> {
    st.(sessions := map id | id in st.sessions :: Nudge(st.sessions[id], Head(st.live)))
  }

  function Newcomer<Id>(): Session<Id> {
    Session(Idle, None, false, false, false, false, [], false, [])
  }

  function Established<Id(==)>(st: State<Id>, id: Id): State<Id> {
    TriggerResend(State([id] + st.live, st.sessions[id := Newcomer()], st.joins + 1))
  }

  function Without<Id(==)>(live: seq<Id>, id: Id): seq<Id> {
    if live == [] then []
    else if live[0] == id then live[1..]
    else [live[0]] + Without(live[1..], id)
  }

  function Closed<Id(==)>(st: State<Id>, id: Id): State<Id> {
    TriggerResend(State(Without(st.live, id), st.sessions - {id}, st.joins))
  }

  /** The session and the frame a WRITEABLE callback makes of it; idle sessions write nothing. */
  function Advance<Id(==)>(live: seq<Id>, joins: nat, s: Session<Id>): (Session<Id>, Option<Frame<Token<Id>>>) {
    match s.walk
    case Idle => (s, None)
    case Initial =>
      (s.(walk := Listing, walkNext := Head(live), dangling := false), Some(Frame(true, false, [Open(joins)])))
    case Listing =>
      if s.walkNext.None? then Finish(live, s)
      else
        var comma := if s.subsequent then [Comma] else [];
        var t := s.(subsequent := true);
        if s.walkNext.value !in live then
          (t.(walk := Final, changedPartway := true, dangling := s.subsequent), Some(Frame(false, false, comma)))
        else
          var next := Next(live, s.walkNext.value);
          (t.(walkNext := next, walk := if next.None? then Final else Listing),
           Some(Frame(false, false, comma + [Item(s.walkNext.value)])))
    case Final => Finish(live, s)
  }

  function Finish<Id>(live: seq<Id>, s: Session<Id>): (Session<Id>, Option<Frame<Token<Id>>>) {
    (if s.changedPartway then
       s.(changedPartway := false, subsequent := false, walkNext := Head(live), walk := Initial)
     else s.(walk := Idle),
     Some(Frame(false, true, [Shut])))
  }

  /** WRITEABLE of one session; `ok` is whether the write succeeds. */
  function Write<Id(==)>(live: seq<Id>, joins: nat, s: Session<Id>, ok: bool): Session<Id> {
    var (t, frame) := Advance(live, joins, s);
    match frame
    case None => t.(wantWrite := false)
    case Some(f) =>
      if ok then
        t.(frames := t.frames + [f], wantWrite := !t.walk.Idle?,
           faulty := if f.fin then t.faulty + [t.dangling] else t.faulty)
      else t.(broken := true, wantWrite := false)
  }

  function Writeable<Id(==)>(st: State<Id>, id: Id, ok: bool): State<Id>
    requires id in st.sessions
  {
    st.(sessions := st.sessions[id := Write(st.live, st.joins, st.sessions[id], ok)])
  }

  // ---- the receiving end ------------------------------------------------------------------------

  /** The entries of a list, separated by commas. */
  function Items<Id>(xs: seq<Id>): seq<Token<Id>> {
    if xs == [] then []
    else if |xs| == 1 then [Item(xs[0])]
    else Items(xs[..|xs| - 1]) + [Comma, Item(xs[|xs| - 1])]
  }

  /** The whole message about a list. */
  function Render<Id>(count: nat, xs: seq<Id>): seq<Token<Id>> {
    [Open(count)] + Items(xs) + [Shut]
  }

  function Peers<Id>(ts: seq<Token<Id>>): seq<Id> {
    if ts == [] then []
    else Peers(ts[..|ts| - 1]) + if ts[|ts| - 1].Item? then [ts[|ts| - 1].peer] else []
  }

  /** Of a rendering the count and the list can be read back. */
  lemma RenderLists<Id>(count: nat, xs: seq<Id>)
    ensures var m := Render(count, xs);
            m[0] == Open(count) && Peers(m) == xs && |m| == 2 + if xs == [] then 0 else 2 * |xs| - 1
  {
    var text := [Open(count)] + Items(xs);
    assert Render(count, xs)[..|text|] == text;
    PeersOf(count, xs);
    ItemsLength(xs);
  }

  lemma {:induction false} ItemsLength<Id>(xs: seq<Id>)
    ensures |Items(xs)| == if xs == [] then 0 else 2 * |xs| - 1
  {
    if |xs| > 1 {
      ItemsLength(xs[..|xs| - 1]);
    }
  }

  lemma PeersMore<Id>(ts: seq<Token<Id>>, x: Id)
    ensures Peers(ts + [Item(x)]) == Peers(ts) + [x] && Peers(ts + [Comma, Item(x)]) == Peers(ts) + [x]
  {
    assert (ts + [Item(x)])[..|ts|] == ts;
    var more := ts + [Comma];
    assert more[..|ts|] == ts && Peers(more) == Peers(ts);
    assert (ts + [Comma, Item(x)])[..|ts| + 1] == more;
  }

  lemma {:induction false} PeersOf<Id>(count: nat, xs: seq<Id>)
    ensures Peers([Open(count)] + Items(xs)) == xs
  {
    var open: seq<Token<Id>> := [Open(count)];
    if |xs| <= 1 {
      assert open[..0] == [] && Peers(open) == [] && open + [] == open;
      if xs != [] {
        PeersMore(open, xs[0]);
      }
    } else {
      var n := |xs| - 1;
      PeersOf(count, xs[..n]);
      PeersMore(open + Items(xs[..n]), xs[n]);
      ItemsLast(open, xs);
    }
  }

  lemma ItemsLast<Id>(open: seq<Token<Id>>, xs: seq<Id>)
    requires |xs| > 1
    ensures var n := |xs| - 1;
            open + Items(xs) == open + Items(xs[..n]) + [Comma, Item(xs[n])] && xs == xs[..n] + [xs[n]]
  {
    Regroup(open, Items(xs[..|xs| - 1]), [Comma, Item(xs[|xs| - 1])]);
  }

  lemma Regroup<Id>(a: seq<Token<Id>>, b: seq<Token<Id>>, c: seq<Token<Id>>)
    ensures a + (b + c) == a + b + c
  {
  }

  /** The grammar of the text before `]}`: the header, then entries with commas between them. */
  predicate Unclosed<Id>(ts: seq<Token<Id>>) {
    && 0 < |ts| && ts[0].Open?
    && (|ts| == 1 || |ts| % 2 == 0)
    && forall k :: 1 <= k < |ts| ==> if k % 2 == 1 then ts[k].Item? else ts[k].Comma?
  }

  /** A message whose list is properly written. */
  predicate WellFormed<Id>(ts: seq<Token<Id>>) {
    0 < |ts| && ts[|ts| - 1].Shut? && Unclosed(ts[..|ts| - 1])
  }

  // ---- what every callback keeps ----------------------------------------------------------------

  /** The message under way is right as far as it goes, unless the list has changed since it began. */
  ghost predicate OnTrack<Id>(live: seq<Id>, joins: nat, s: Session<Id>, partial: seq<Token<Id>>) {
    if s.walk.Final? then partial == [Open(joins)] + Items(live)
    else exists i :: AtEntry(live, joins, s, partial, i)
  }

  ghost predicate AtEntry<Id>(live: seq<Id>, joins: nat, s: Session<Id>, partial: seq<Token<Id>>, i: int) {
    && 0 <= i < |live| && s.walkNext == Some(live[i])
    && partial == [Open(joins)] + Items(live[..i])
    && s.subsequent == (0 < i)
  }

  ghost predicate Good<Id>(live: seq<Id>, joins: nat, s: Session<Id>) {
    var box := Assemble(s.frames);
    && box.Some?
    && (box.value.partial.Some? <==> s.walk.Listing? || s.walk.Final?)
    && (box.value.partial.Some? ==> (Unclosed(box.value.partial.value) <==> !s.dangling))
    && (s.walk.Listing? ==> s.walkNext.Some? && !s.dangling
                            && s.subsequent == (1 < |box.value.partial.value|))
    && (s.walk.Initial? ==> !s.subsequent)
    && (!s.walk.Idle? ==> s.wantWrite)
    && (s.walk.Idle? ==> !s.changedPartway && box.value.done != []
                         && box.value.done[|box.value.done| - 1] == Render(joins, live))
    && ((s.walk.Listing? || s.walk.Final?) && !s.changedPartway ==> OnTrack(live, joins, s, box.value.partial.value))
  }

  /** The completed messages are well formed but for those whose next session had left after an entry. */
  ghost predicate Marked<Id>(done: seq<seq<Token<Id>>>, faulty: seq<bool>) {
    |done| == |faulty| && forall k :: 0 <= k < |done| ==> (WellFormed(done[k]) <==> !faulty[k])
  }

  /** A session whose write failed has at least been sent legal frames. */
  ghost predicate Fine<Id>(live: seq<Id>, joins: nat, s: Session<Id>) {
    && Assemble(s.frames).Some? && Marked(Assemble(s.frames).value.done, s.faulty)
    && (!s.broken ==> Good(live, joins, s))
  }

  ghost predicate Distinct<Id>(live: seq<Id>) {
    forall i, j :: 0 <= i < j < |live| ==> live[i] != live[j]
  }

  ghost predicate Inv<Id>(st: State<Id>) {
    && Distinct(st.live)
    && (forall id :: id in st.live ==> id in st.sessions)
    && (forall id :: id in st.sessions ==> id in st.live)
    && (forall id :: id in st.sessions ==> Fine(st.live, st.joins, st.sessions[id]))
  }

  lemma {:induction false} NextIs<Id>(live: seq<Id>, i: nat)
    requires Distinct(live) && i < |live|
    ensures Next(live, live[i]) == if i + 1 < |live| then Some(live[i + 1]) else None
  {
    if i > 0 {
      NextIs(live[1..], i - 1);
    }
  }

  lemma {:induction false} WithoutIs<Id>(live: seq<Id>, id: Id)
    requires Distinct(live)
    ensures var r := Without(live, id);
            && Distinct(r)
            && (forall j :: 0 <= j < |r| ==> r[j] in live && r[j] != id)
            && (forall j :: 0 <= j < |live| && live[j] != id ==> live[j] in r)
  {
    if live != [] {
      var rest := live[1..];
      assert live == [live[0]] + rest;
      assert forall j :: 1 <= j < |live| ==> live[j] == rest[j - 1];
      WithoutIs(rest, id);
      if live[0] != id {
        var r := Without(rest, id);
        forall j | 0 < j < |r| + 1 ensures ([live[0]] + r)[j] != live[0] {
          assert r[j - 1] in rest;
        }
      }
    }
  }

  lemma ItemsMore<Id>(live: seq<Id>, i: nat)
    requires i < |live|
    ensures Items(live[..i + 1]) == Items(live[..i]) + (if 0 < i then [Comma] else []) + [Item(live[i])]
  {
    assert live[..i + 1][..i] == live[..i];
  }

  /** Whatever the walk was doing, a change of the list makes it start over. */
  lemma NudgeKeeps<Id>(live: seq<Id>, joins: nat, live': seq<Id>, joins': nat, s: Session<Id>)
    requires Fine(live, joins, s)
    ensures Fine(live', joins', Nudge(s, Head(live')))
  {
  }

  lemma NewcomerGood<Id>(live: seq<Id>, joins: nat)
    ensures Fine(live, joins, Nudge(Newcomer(), Head(live)))
  {
  }

  lemma InitialKeeps<Id>(live: seq<Id>, joins: nat, s: Session<Id>)
    requires Good(live, joins, s) && s.walk.Initial? && live != []
    ensures Good(live, joins, Write(live, joins, s, true))
  {
    var t := Write(live, joins, s, true);
    AssembleMore(s.frames, Frame(true, false, [Open(joins)]));
    var nothing: seq<Token<Id>> := [];
    assert AtEntry(live, joins, t, nothing + [Open(joins)], 0) by {
      assert live[..0] == [];
    }
  }

  lemma EntryKeepsGrammar<Id>(ts: seq<Token<Id>>, x: Id)
    requires Unclosed(ts)
    ensures Unclosed(ts + (if 1 < |ts| then [Comma] else []) + [Item(x)])
    ensures Unclosed(ts + ((if 1 < |ts| then [Comma] else []) + [Item(x)]))
  {
    assert ts + ((if 1 < |ts| then [Comma] else []) + [Item(x)]) == ts + (if 1 < |ts| then [Comma] else []) + [Item(x)];
  }

  /** A list turn leaves the text in the grammar unless it wrote a comma and the session next in line has
      left. */
  lemma ListingGrammarIff<Id>(live: seq<Id>, joins: nat, s: Session<Id>)
    requires Good(live, joins, s) && s.walk.Listing?
    ensures var t := Write(live, joins, s, true);
            && Assemble(t.frames).Some? && Assemble(t.frames).value.partial.Some?
            && Assemble(t.frames).value.done == Assemble(s.frames).value.done
            && (Unclosed(Assemble(t.frames).value.partial.value) <==> s.walkNext.value in live || !s.subsequent)
            && (Unclosed(Assemble(t.frames).value.partial.value) <==> !t.dangling)
  {
    var partial := Assemble(s.frames).value.partial.value;
    AssembleMore(s.frames, Advance(live, joins, s).1.value);
    EntryKeepsGrammar(partial, s.walkNext.value);
    assert partial + [] == partial;
  }

  lemma ListingKeeps<Id>(live: seq<Id>, joins: nat, s: Session<Id>)
    requires Good(live, joins, s) && s.walk.Listing? && Distinct(live)
    ensures Good(live, joins, Write(live, joins, s, true))
  {
    var t := Write(live, joins, s, true);
    var frame := Advance(live, joins, s).1.value;
    ListingGrammarIff(live, joins, s);
    AssembleMore(s.frames, frame);
    var partial := Assemble(s.frames).value.partial.value;
    if !t.changedPartway {
      var i :| AtEntry(live, joins, s, partial, i);
      EntryOnTrack(live, joins, s, t, partial, i);
    }
  }

  lemma EntryOnTrack<Id>(live: seq<Id>, joins: nat, s: Session<Id>, t: Session<Id>, partial: seq<Token<Id>>, i: nat)
    requires Distinct(live) && s.walk.Listing? && AtEntry(live, joins, s, partial, i)
    requires var u := Advance(live, joins, s).0;
             t.walk == u.walk && t.walkNext == u.walkNext && t.subsequent == u.subsequent
    ensures OnTrack(live, joins, t, partial + Advance(live, joins, s).1.value.body)
  {
    var text := partial + Advance(live, joins, s).1.value.body;
    NextIs(live, i);
    ItemsMore(live, i);
    assert text == [Open(joins)] + Items(live[..i + 1]);
    if i + 1 < |live| {
      assert AtEntry(live, joins, t, text, i + 1);
    } else {
      assert live[..i + 1] == live;
    }
  }

  lemma ShutClosesIff<Id>(ts: seq<Token<Id>>)
    ensures WellFormed(ts + [Shut]) <==> Unclosed(ts)
  {
    assert (ts + [Shut])[..|ts|] == ts;
  }

  /** A message is completed well formed or marked. */
  lemma FinalMarks<Id>(live: seq<Id>, joins: nat, s: Session<Id>)
    requires Good(live, joins, s) && s.walk.Final? && Marked(Assemble(s.frames).value.done, s.faulty)
    ensures var t := Write(live, joins, s, true);
            Assemble(t.frames).Some? && Marked(Assemble(t.frames).value.done, t.faulty)
  {
    AssembleMore(s.frames, Frame(false, true, [Shut]));
    ShutClosesIff(Assemble(s.frames).value.partial.value);
  }

  lemma FinalKeeps<Id>(live: seq<Id>, joins: nat, s: Session<Id>)
    requires Good(live, joins, s) && s.walk.Final?
    ensures Good(live, joins, Write(live, joins, s, true))
  {
    AssembleMore(s.frames, Frame(false, true, [Shut]));
  }

  lemma WriteKeeps<Id>(live: seq<Id>, joins: nat, s: Session<Id>, ok: bool)
    requires Fine(live, joins, s) && !s.broken && Distinct(live) && live != []
    ensures Fine(live, joins, Write(live, joins, s, ok))
  {
    match s.walk
    case Idle =>
    case Initial =>
      AssembleMore(s.frames, Frame(true, false, [Open(joins)]));
      InitialKeeps(live, joins, s);
    case Listing =>
      ListingGrammarIff(live, joins, s);
      ListingKeeps(live, joins, s);
    case Final =>
      FinalMarks(live, joins, s);
      FinalKeeps(live, joins, s);
  }

  // ---- every run --------------------------------------------------------------------------------

  datatype Step<Id> = Join(id: Id) | Leave(id: Id) | Turn(id: Id, ok: bool)

  /** One callback.  An address is established only while free; after a failed write the session only
      gets CLOSED. */
  function Apply<Id(==)>(st: State<Id>, step: Step<Id>): State<Id> {
    match step
    case Join(id) => if id in st.sessions then st else Established(st, id)
    case Leave(id) => if id in st.sessions then Closed(st, id) else st
    case Turn(id, ok) =>
      if id in st.sessions && !st.sessions[id].broken then Writeable(st, id, ok) else st
  }

  lemma EstablishedKeeps<Id>(st: State<Id>, id: Id)
    requires Inv(st) && id !in st.sessions
    ensures Inv(Established(st, id))
  {
    var r := Established(st, id);
    assert forall x :: x in r.live <==> x == id || x in st.live;
    forall x | x in r.sessions ensures Fine(r.live, r.joins, r.sessions[x]) {
      if x == id {
        NewcomerGood(r.live, r.joins);
      } else {
        NudgeKeeps(st.live, st.joins, r.live, r.joins, st.sessions[x]);
      }
    }
  }

  lemma ClosedKeeps<Id>(st: State<Id>, id: Id)
    requires Inv(st) && id in st.sessions
    ensures Inv(Closed(st, id))
  {
    var r := Closed(st, id);
    WithoutIs(st.live, id);
    forall x | x in r.sessions ensures Fine(r.live, r.joins, r.sessions[x]) {
      NudgeKeeps(st.live, st.joins, r.live, r.joins, st.sessions[x]);
    }
  }

  lemma WriteableKeeps<Id>(st: State<Id>, id: Id, ok: bool)
    requires Inv(st) && id in st.sessions && !st.sessions[id].broken
    ensures Inv(Writeable(st, id, ok))
  {
    assert id in st.live;
    WriteKeeps(st.live, st.joins, st.sessions[id], ok);
  }

  lemma ApplyKeeps<Id>(st: State<Id>, step: Step<Id>)
    requires Inv(st)
    ensures Inv(Apply(st, step))
  {
    match step
    case Join(id) => if id !in st.sessions { EstablishedKeeps(st, id); }
    case Leave(id) => if id in st.sessions { ClosedKeeps(st, id); }
    case Turn(id, ok) =>
      if id in st.sessions && !st.sessions[id].broken { WriteableKeeps(st, id, ok); }
  }

  function Start<Id>(): State<Id> {
    State([], map[], 0)
  }

  /** Callback `k` of a run leads from one state to the next. */
  ghost predicate StepAt<Id>(states: seq<State<Id>>, steps: seq<Step<Id>>, k: nat) {
    k + 1 < |states| && k < |steps| && states[k + 1] == Apply(states[k], steps[k])
  }

  /** The states a vhost goes through over any sequence of callbacks. */
  ghost predicate IsRun<Id>(states: seq<State<Id>>, steps: seq<Step<Id>>) {
    |states| == |steps| + 1 && states[0] == Start() && forall k: nat :: k < |steps| ==> StepAt(states, steps, k)
  }

  lemma {:induction false} RunKeeps<Id>(states: seq<State<Id>>, steps: seq<Step<Id>>, k: nat)
    requires IsRun(states, steps) && k <= |steps|
    ensures Inv(states[k])
  {
    if k > 0 {
      RunKeeps(states, steps, k - 1);
      assert StepAt(states, steps, k - 1);
      ApplyKeeps(states[k - 1], steps[k - 1]);
    }
  }
}
