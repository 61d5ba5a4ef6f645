/**
 How a session of plugins/protocol_esp32_lws_scan.c is sent the known access points: a fragmented
 message in stages, six entries to a frame, restarted if a scan finished meanwhile.  Autonomous update
 mode is off.
 */
module ScanWalk {
  import opened Fragments
  import opened ListText

  const PER_FRAME: nat := 6

  datatype Stage = Idle | Initial | Manifest | Stations | Listing | Final

  datatype Session<A> = Session(
    stage: Stage,
    apRecord: nat,
    subsequent: bool,
    changedPartway: bool,
    wantWrite: bool,
    broken: bool,
    frames: seq<Frame<Token<A>>>)

  function Page<A>(known: seq<A>, from: nat): seq<A> {
    if from >= |known| then []
    else if from + PER_FRAME <= |known| then known[from..from + PER_FRAME]
    else known[from..]
  }

  function Finish<A>(s: Session<A>): Session<A> {
    if s.changedPartway then s.(changedPartway := false, subsequent := false, stage := Initial)
    else s.(stage := Idle)
  }

  /** SERVER_WRITEABLE: the session and the frame it is sent. */
  function Advance<A>(known: seq<A>, s: Session<A>): (Session<A>, Frame<Token<A>>) {
    match s.stage
    case Idle | Initial =>
      (s.(stage := Manifest, apRecord := 0, subsequent := false), Frame(true, false, [Part("header")]))
    case Manifest => (s.(stage := Stations), Frame(false, false, [Part("latest")]))
    case Stations => (s.(stage := Listing, apRecord := 0), Frame(false, false, [Part("known")]))
    case Listing =>
      var page := Page(known, s.apRecord);
      var text := Entries(page, s.subsequent);
      var t := s.(apRecord := s.apRecord + |page|, subsequent := s.subsequent || page != []);
      if |page| < PER_FRAME then (Finish(t), Frame(false, true, text + [Part("shut")]))
      else (t.(stage := if t.apRecord == |known| then Final else Listing), Frame(false, false, text))
    case Final => (Finish(s), Frame(false, true, [Part("shut")]))
  }

  /** `ok` is whether the write succeeds; after one that does not the connection closes. */
  function Writeable<A>(known: seq<A>, s: Session<A>, ok: bool): Session<A> {
    var (t, frame) := Advance(known, s);
    if ok then t.(frames := t.frames + [frame], wantWrite := !t.stage.Idle?)
    else t.(broken := true, wantWrite := false)
  }

  /** scan_finished(), which changes the list and asks every session to write. */
  function ScanFinished<A>(s: Session<A>): Session<A> {
    if !s.stage.Initial? && !s.stage.Idle? then s.(changedPartway := true, wantWrite := true)
    else s.(stage := Initial, wantWrite := true)
  }

  /** What precedes the list: device data, the latest image, the configured stations. */
  function Preamble<A>(): seq<Token<A>> {
    [Part("header"), Part("latest"), Part("known")]
  }

  /** The whole message about a list. */
  function Render<A>(known: seq<A>): seq<Token<A>> {
    Preamble() + Entries(known, false) + [Part("shut")]
  }

  // ---- what every callback keeps ----------------------------------------------------------------

  /** As long as no scan finished, the message under way is right as far as it goes. */
  ghost predicate OnTrack<A>(known: seq<A>, s: Session<A>, partial: seq<Token<A>>) {
    match s.stage
    case Manifest => partial == [Part("header")] && !s.subsequent
    case Stations => partial == [Part("header"), Part("latest")] && !s.subsequent
    case Listing =>
      && s.apRecord <= |known| && s.subsequent == (0 < s.apRecord)
      && partial == Preamble() + Entries(known[..s.apRecord], false)
    case Final => partial == Preamble() + Entries(known, false)
    case _ => true
  }

  ghost predicate Good<A>(known: seq<A>, s: Session<A>) {
    var box := Assemble(s.frames);
    && box.Some?
    && (!s.broken ==>
          && (box.value.partial.Some? <==> !s.stage.Idle? && !s.stage.Initial?)
          && (box.value.partial.Some? && !s.changedPartway ==> OnTrack(known, s, box.value.partial.value))
          && (!s.stage.Idle? ==> s.wantWrite)
          && (s.stage.Idle? ==> !s.changedPartway && box.value.done != []
                                && box.value.done[|box.value.done| - 1] == Render(known)))
  }

  lemma PageExtends<A>(known: seq<A>, from: nat)
    requires from <= |known|
    ensures var n := from + |Page(known, from)|;
            n <= |known| && (|Page(known, from)| < PER_FRAME ==> n == |known|)
            && Entries(known[..n], false) == Entries(known[..from], false) + Entries(Page(known, from), 0 < from)
  {
    var n := from + |Page(known, from)|;
    assert known[..n] == known[..from] + Page(known, from);
    EntriesConcat(known[..from], Page(known, from), false);
  }

  /** One page later the text is still right as far as it goes. */
  lemma TextExtends<A>(known: seq<A>, s: Session<A>, partial: seq<Token<A>>)
    requires s.stage.Listing? && OnTrack(known, s, partial)
    ensures var page := Page(known, s.apRecord);
            var n, text := s.apRecord + |page|, partial + Entries(page, s.subsequent);
            && n <= |known| && (|page| < PER_FRAME ==> n == |known|)
            && text == Preamble() + Entries(known[..n], false)
            && (n == |known| ==> text == Preamble() + Entries(known, false))
  {
    PageExtends(known, s.apRecord);
    Regroup(Preamble(), Entries(known[..s.apRecord], false), Entries(Page(known, s.apRecord), s.subsequent));
    assert known[..|known|] == known;
  }

  lemma Regroup<A>(a: seq<Token<A>>, b: seq<Token<A>>, c: seq<Token<A>>)
    ensures a + b + c == a + (b + c)
  {
  }

  lemma ListingKeeps<A>(known: seq<A>, s: Session<A>)
    requires Good(known, s) && s.stage.Listing? && !s.broken
    ensures Good(known, Writeable(known, s, true))
  {
    var (t, frame) := Advance(known, s);
    AssembleMore(s.frames, frame);
    if !s.changedPartway {
      var partial := Assemble(s.frames).value.partial.value;
      TextExtends(known, s, partial);
      var text := Entries(Page(known, s.apRecord), s.subsequent);
      assert partial + (text + [Part("shut")]) == partial + text + [Part("shut")];
    }
  }

  lemma WriteableKeeps<A>(known: seq<A>, s: Session<A>, ok: bool)
    requires Good(known, s) && !s.broken
    ensures Good(known, Writeable(known, s, ok))
  {
    if s.stage.Listing? {
      ListingKeeps(known, s);
    } else {
      var (t, frame) := Advance(known, s);
      AssembleMore(s.frames, frame);
      if s.stage.Stations? && !s.changedPartway {
        assert known[..0] == [];
        assert [Part("header"), Part("latest")] + [Part("known")] + Entries<A>([], false) == Preamble<A>();
      }
    }
  }

  // ---- once scans stop --------------------------------------------------------------------------

  /** How many more turns a session needs at most. */
  function Remaining<A>(known: seq<A>, s: Session<A>): nat {
    var n := |known|;
    var again := if s.changedPartway then n + 5 else 0;
    match s.stage
    case Idle => 0
    case Initial => n + 5 + again
    case Manifest => n + 4 + again
    case Stations => n + 3 + again
    case Listing => (if s.apRecord < n then n - s.apRecord else 0) + 2 + again
    case Final => 1 + again
  }

  /** Every turn of a session that has something to send brings it closer to having nothing. */
  lemma TurnProgresses<A>(known: seq<A>, s: Session<A>)
    requires !s.stage.Idle?
    ensures Remaining(known, Writeable(known, s, true)) < Remaining(known, s)
  {
  }

  /** A turn for each of `n`, as long as the session asks for one. */
  function Turns<A>(known: seq<A>, s: Session<A>, n: nat): Session<A> {
    if n == 0 then s
    else
      var t := Turns(known, s, n - 1);
      if t.stage.Idle? then t else Writeable(known, t, true)
  }

  lemma {:induction false} TurnsProgress<A>(known: seq<A>, s: Session<A>, n: nat)
    requires Good(known, s) && !s.broken
    ensures var r := Turns(known, s, n);
            Good(known, r) && !r.broken && (r.stage.Idle? || Remaining(known, r) + n <= Remaining(known, s))
  {
    if n > 0 {
      TurnsProgress(known, s, n - 1);
      var t := Turns(known, s, n - 1);
      if !t.stage.Idle? {
        WriteableKeeps(known, t, true);
        TurnProgresses(known, t);
      }
    }
  }

  /** When no scan finishes any more a session has nothing more to send after 2n + 10 turns for n access
      points, and what it was sent last is the list. */
  lemma Settles<A>(known: seq<A>, s: Session<A>, n: nat)
    requires Good(known, s) && !s.broken && 2 * |known| + 10 <= n
    ensures var r := Turns(known, s, n);
            && r.stage.Idle? && Assemble(r.frames).Some?
            && var done := Assemble(r.frames).value.done; done != [] && done[|done| - 1] == Render(known)
  {
    TurnsProgress(known, s, n);
  }

  // ---- every run of one session -----------------------------------------------------------------

  /** A session gets WRITEABLE callbacks, and scans finish and leave some list. */
  datatype Event<A> = Turn(ok: bool) | Scan(known: seq<A>)

  /** The known list and the session after any sequence of events since it was established. */
  function Run<A>(start: seq<A>, events: seq<Event<A>>): (r: (seq<A>, Session<A>))
    ensures Good(r.0, r.1)
  {
    if events == [] then (start, Session(Initial, 0, false, false, true, false, []))
    else
      var (known, s) := Run(start, events[..|events| - 1]);
      match events[|events| - 1]
      case Turn(ok) =>
        if s.broken then (known, s) else WriteableKeeps(known, s, ok); (known, Writeable(known, s, ok))
      case Scan(known') => (known', ScanFinished(s))
  }

  /** Frames are legal at all times and a session with more to send has asked to; and when a session is
      idle, the last message it completed is about the list as it is now. */
  lemma ListIsCurrent<A>(start: seq<A>, events: seq<Event<A>>)
    ensures var (known, s) := Run(start, events);
            && Assemble(s.frames).Some? && (!s.broken && !s.stage.Idle? ==> s.wantWrite)
            && (!s.broken && s.stage.Idle? ==> var done := Assemble(s.frames).value.done;
                                               done != [] && done[|done| - 1] == Render(known))
  {
    var (known, s) := Run(start, events);
    assert Good(known, s);
  }
}
