/**
 The resumable result writer of plugins/protocol_fulltext_demo.c: search results are rendered piece by
 piece, as many per HTTP_WRITEABLE callback as fit its buffer.
 */
module Fulltext {
  type Ac = string    // one autocomplete result, rendered
  type Path = string  // one file path with its counts, rendered
  type Hit = string   // one matching line, rendered

  /** One snprintf or character: `first` selects ' ' over ',' in front of a list entry. */
  datatype Piece =
    | Header
    | AcEntry(first: bool, ac: Ac)
    | ToPaths
    | PathHead(first: bool, path: Path)
    | HitEntry(first: bool, hit: Hit)
    | CloseHits
    | ClosePath
    | End

  datatype File = File(path: Path, hits: seq<Hit>)

  /** struct pss_fts_demo: what is left of the two result lists, and how far the writer has got. */
  datatype Writer = Writer(
    ac: seq<Ac>,
    fp: seq<File>,
    done: nat,
    first: bool,
    acDone: bool,
    fpInitDone: bool)

  /** The state LWS_CALLBACK_HTTP leaves. */
  function Start(ac: seq<Ac>, fp: seq<File>): Writer {
    Writer(ac, fp, 0, true, false, false)
  }

  ghost predicate Valid(w: Writer) {
    w.fpInitDone ==> w.fp != [] && w.done <= |w.fp[0].hits| && w.ac == [] && w.acDone && !w.first
  }

  // ---- what is still to be written --------------------------------------------------------------

  function AcPart(ac: seq<Ac>, first: bool): seq<Piece> {
    if ac == [] then [] else [AcEntry(first, ac[0])] + AcPart(ac[1..], false)
  }

  function HitPart(hits: seq<Hit>, done: nat): seq<Piece>
    decreases |hits| - done
  {
    if done >= |hits| then [CloseHits] else [HitEntry(done == 0, hits[done])] + HitPart(hits, done + 1)
  }

  function Tail(fp: seq<File>): seq<Piece>
    requires fp != []
    decreases |fp|, 0
  {
    (if |fp| == 1 then [ClosePath] else []) + PathPart(fp[1..], false)
  }

  function PathPart(fp: seq<File>, first: bool): seq<Piece>
    decreases |fp|, 1
  {
    if fp == [] then []
    else [PathHead(first, fp[0].path)] + HitPart(fp[0].hits, 0) + Tail(fp)
  }

  /** What follows the autocomplete entries. */
  function AfterAcs(fp: seq<File>, done: nat, acDone: bool, fpInitDone: bool, first: bool): seq<Piece> {
    (if !acDone && fp != [] then [ToPaths] else [])
    + (if fpInitDone && fp != [] then HitPart(fp[0].hits, done) + Tail(fp) else PathPart(fp, first))
    + [End]
  }

  /** Everything a writer has yet to write, except the header. */
  function Rest(w: Writer): seq<Piece> {
    AcPart(w.ac, w.first) + AfterAcs(w.fp, w.done, w.acDone, w.fpInitDone, w.first && w.ac == [])
  }

  /** The whole reply, as one rendering. */
  function Render(ac: seq<Ac>, fp: seq<File>): seq<Piece> {
    [Header] + Rest(Start(ac, fp))
  }

  // ---- reading it back --------------------------------------------------------------------------

  function Acs(ps: seq<Piece>): seq<Ac> {
    if ps == [] then [] else (if ps[0].AcEntry? then [ps[0].ac] else []) + Acs(ps[1..])
  }

  /** What a piece adds to the files read so far: a file, or a hit in the last one. */
  function Read(files: seq<File>, p: Piece): seq<File> {
    if p.PathHead? then files + [File(p.path, [])]
    else if p.HitEntry? && files != [] then
      var last := files[|files| - 1];
      files[|files| - 1 := last.(hits := last.hits + [p.hit])]
    else files
  }

  function ReadAll(files: seq<File>, ps: seq<Piece>): seq<File>
    decreases |ps|
  {
    if ps == [] then files else ReadAll(Read(files, ps[0]), ps[1..])
  }

  lemma {:induction false} AcsConcat(a: seq<Piece>, b: seq<Piece>)
    ensures Acs(a + b) == Acs(a) + Acs(b)
  {
    if a == [] {
      assert a + b == b;
    } else {
      AcsConcat(a[1..], b);
      assert (a + b)[1..] == a[1..] + b;
    }
  }

  lemma {:induction false} ReadConcat(files: seq<File>, a: seq<Piece>, b: seq<Piece>)
    ensures ReadAll(files, a + b) == ReadAll(ReadAll(files, a), b)
    decreases |a|
  {
    if a == [] {
      assert a + b == b;
    } else {
      ReadConcat(Read(files, a[0]), a[1..], b);
      assert (a + b)[1..] == a[1..] + b;
    }
  }

  lemma {:induction false} ReadAcs(ac: seq<Ac>, first: bool, files: seq<File>)
    ensures Acs(AcPart(ac, first)) == ac && ReadAll(files, AcPart(ac, first)) == files
  {
    if ac != [] {
      ReadAcs(ac[1..], false, files);
      assert AcPart(ac, first)[1..] == AcPart(ac[1..], false);
      assert [ac[0]] + ac[1..] == ac;
    }
  }

  lemma {:induction false} ReadHits(files: seq<File>, path: Path, hits: seq<Hit>, done: nat)
    requires done <= |hits|
    ensures ReadAll(files + [File(path, hits[..done])], HitPart(hits, done)) == files + [File(path, hits)]
    ensures Acs(HitPart(hits, done)) == []
    decreases |hits| - done
  {
    var part, so := HitPart(hits, done), files + [File(path, hits[..done])];
    if done == |hits| {
      assert hits[..done] == hits && part[1..] == [];
    } else {
      ReadHits(files, path, hits, done + 1);
      assert part[1..] == HitPart(hits, done + 1);
      assert hits[..done] + [hits[done]] == hits[..done + 1];
      assert Read(so, part[0]) == files + [File(path, hits[..done + 1])];
    }
  }

  /** The pieces of one file, up to the next. */
  function FilePart(f: File, first: bool, last: bool): seq<Piece> {
    [PathHead(first, f.path)] + HitPart(f.hits, 0) + if last then [ClosePath] else []
  }

  lemma ReadFile(files: seq<File>, f: File, first: bool, last: bool)
    ensures ReadAll(files, FilePart(f, first, last)) == files + [f] && Acs(FilePart(f, first, last)) == []
  {
    var head: seq<Piece>, hits := [PathHead(first, f.path)], HitPart(f.hits, 0);
    var closing: seq<Piece> := if last then [ClosePath] else [];
    var begun := files + [File(f.path, [])];
    assert f.hits[..0] == [] && head[1..] == [] && closing[if last then 1 else 0..] == [];
    ReadConcat(files, head + hits, closing);
    ReadConcat(files, head, hits);
    assert ReadAll(files, head) == begun;
    ReadHits(files, f.path, f.hits, 0);
    AcsConcat(head + hits, closing);
    AcsConcat(head, hits);
  }

  lemma PathPartIs(fp: seq<File>, first: bool)
    requires fp != []
    ensures PathPart(fp, first) == FilePart(fp[0], first, |fp| == 1) + PathPart(fp[1..], false)
    ensures [fp[0]] + fp[1..] == fp
  {
    Regroup([PathHead(first, fp[0].path)] + HitPart(fp[0].hits, 0), if |fp| == 1 then [ClosePath] else [],
            PathPart(fp[1..], false));
  }

  lemma {:induction false} ReadPaths(files: seq<File>, fp: seq<File>, first: bool)
    ensures ReadAll(files, PathPart(fp, first)) == files + fp && Acs(PathPart(fp, first)) == []
    decreases |fp|
  {
    if fp == [] {
      assert files + fp == files;
    } else {
      var one, rest := FilePart(fp[0], first, |fp| == 1), PathPart(fp[1..], false);
      PathPartIs(fp, first);
      ReadConcat(files, one, rest);
      ReadFile(files, fp[0], first, |fp| == 1);
      ReadPaths(files + [fp[0]], fp[1..], false);
      assert files + [fp[0]] + fp[1..] == files + ([fp[0]] + fp[1..]);
      AcsConcat(one, rest);
    }
  }

  lemma RenderIs(ac: seq<Ac>, fp: seq<File>)
    ensures Render(ac, fp) ==
            [Header] + AcPart(ac, true) + (if fp != [] then [ToPaths] else []) + PathPart(fp, ac == []) + [End]
  {
    var switch: seq<Piece> := if fp != [] then [ToPaths] else [];
    Regroup([Header] + AcPart(ac, true), switch, PathPart(fp, ac == []));
    Regroup([Header] + AcPart(ac, true), switch + PathPart(fp, ac == []), [End]);
    Regroup([Header], AcPart(ac, true), switch + PathPart(fp, ac == []) + [End]);
  }

  /** Fixed pieces say nothing. */
  lemma ReadFixed(files: seq<File>, p: Piece)
    requires p.Header? || p.ToPaths? || p.End?
    ensures ReadAll(files, [p]) == files && Acs([p]) == []
  {
    assert [p][1..] == [];
  }

  /** Of a rendering the autocomplete entries, the paths and the hits of each can be read back: they are
      those found, each once and in order. */
  lemma RenderingIsRead(ac: seq<Ac>, fp: seq<File>)
    ensures Acs(Render(ac, fp)) == ac && ReadAll([], Render(ac, fp)) == fp
  {
    var top: seq<Piece>, acs, end: seq<Piece> := [Header], AcPart(ac, true), [End];
    var switch: seq<Piece>, paths := if fp != [] then [ToPaths] else [], PathPart(fp, ac == []);
    RenderIs(ac, fp);
    ReadAcs(ac, true, []);
    ReadPaths([], fp, ac == []);
    ReadFixed([], Header);
    ReadFixed([], ToPaths);
    ReadFixed(fp, End);
    assert [] + fp == fp;
    ReadConcat([], top + acs + switch + paths, end);
    ReadConcat([], top + acs + switch, paths);
    ReadConcat([], top + acs, switch);
    ReadConcat([], top, acs);
    AcsConcat(top + acs + switch + paths, end);
    AcsConcat(top + acs + switch, paths);
    AcsConcat(top + acs, switch);
    AcsConcat(top, acs);
  }

  // ---- the text as JSON -------------------------------------------------------------------------

  /** Where in the reply's grammar a piece may come; `empty` is before the first entry of a list. */
  datatype Place = Top | InAc(empty: bool) | InPaths(empty: bool) | InHits(empty: bool) | AfterHits | Closed | Bad

  function Step(at: Place, p: Piece): Place {
    match (at, p)
    case (Top, Header) => InAc(true)
    case (InAc(e), AcEntry(f, _)) => if f == e then InAc(false) else Bad
    case (InAc(_), ToPaths) => InPaths(true)
    case (InAc(_), End) => Closed
    case (InPaths(e), PathHead(f, _)) => if f == e then InHits(true) else Bad
    case (InPaths(_), End) => Closed
    case (InHits(e), HitEntry(f, _)) => if f == e then InHits(false) else Bad
    case (InHits(_), CloseHits) => AfterHits
    case (AfterHits, ClosePath) => InPaths(false)
    case _ => Bad
  }

  function Walk(at: Place, ps: seq<Piece>): Place
    decreases |ps|
  {
    if ps == [] then at else Walk(Step(at, ps[0]), ps[1..])
  }

  predicate WellFormed(ps: seq<Piece>) {
    Walk(Top, ps) == Closed
  }

  lemma {:induction false} WalkConcat(at: Place, a: seq<Piece>, b: seq<Piece>)
    ensures Walk(at, a + b) == Walk(Walk(at, a), b)
    decreases |a|
  {
    if a == [] {
      assert a + b == b;
    } else {
      WalkConcat(Step(at, a[0]), a[1..], b);
      assert (a + b)[1..] == a[1..] + b;
    }
  }

  lemma {:induction false} WalkBad(ps: seq<Piece>)
    ensures Walk(Bad, ps) == Bad
  {
    if ps != [] {
      WalkBad(ps[1..]);
    }
  }

  lemma {:induction false} WalkAc(ac: seq<Ac>, first: bool)
    ensures Walk(InAc(first), AcPart(ac, first)) == InAc(first && ac == [])
  {
    if ac != [] {
      WalkAc(ac[1..], false);
      var rest: seq<Piece> := AcPart(ac[1..], false);
      assert ([AcEntry(first, ac[0])] + rest)[1..] == rest;
    }
  }

  lemma {:induction false} WalkHits(hits: seq<Hit>, done: nat)
    requires done <= |hits|
    ensures Walk(InHits(done == 0), HitPart(hits, done)) == AfterHits
    decreases |hits| - done
  {
    if done < |hits| {
      WalkHits(hits, done + 1);
      var rest: seq<Piece> := HitPart(hits, done + 1);
      assert ([HitEntry(done == 0, hits[done])] + rest)[1..] == rest;
    }
  }

  /** The list of paths, from its opening bracket to the end of the reply. */
  lemma WalkPaths(fp: seq<File>, first: bool)
    requires fp != []
    ensures Walk(InPaths(true), PathPart(fp, first) + [End]) ==
            if first && |fp| == 1 then Closed else Bad
  {
    var head: seq<Piece> := [PathHead(first, fp[0].path)];
    var hits: seq<Piece> := HitPart(fp[0].hits, 0);
    var tail: seq<Piece> := Tail(fp) + [End];
    assert PathPart(fp, first) + [End] == head + (hits + tail);
    WalkConcat(InPaths(true), head, hits + tail);
    WalkConcat(InHits(true), hits, tail);
    WalkHits(fp[0].hits, 0);
    assert head[1..] == [];
    if !first {
      WalkBad(hits + tail);
    } else if |fp| == 1 {
      assert PathPart(fp[1..], false) == [];
      assert Tail(fp) == [ClosePath];
      assert tail == [ClosePath, End];
      assert tail[1..] == [End] && tail[1..][1..] == [];
      assert Walk(InPaths(false), tail[1..]) == Closed;
    } else {
      assert PathPart(fp[1..], false)[0].PathHead?;
      assert Tail(fp) == PathPart(fp[1..], false);
      WalkBad(tail[1..]);
    }
  }

  /** The closing brace of a path is only written for the last one, and the first path is preceded by a
      comma if there were autocomplete entries: the reply is well formed exactly when it lists at most
      one path, and not both kinds of results. */
  lemma WellFormedIff(ac: seq<Ac>, fp: seq<File>)
    ensures WellFormed(Render(ac, fp)) <==> |fp| <= 1 && (ac == [] || fp == [])
  {
    var acs: seq<Piece> := AcPart(ac, true);
    var switch: seq<Piece> := if fp != [] then [ToPaths] else [];
    var paths: seq<Piece> := PathPart(fp, ac == []) + [End];
    var top: seq<Piece> := [Header];
    assert Render(ac, fp) == top + (acs + (switch + paths));
    WalkConcat(Top, top, acs + (switch + paths));
    WalkConcat(InAc(true), acs, switch + paths);
    WalkAc(ac, true);
    WalkConcat(InAc(ac == []), switch, paths);
    assert top[1..] == [];
    if fp == [] {
      assert paths == [End] && paths[1..] == [];
    } else {
      assert switch[1..] == [];
      WalkPaths(fp, ac == []);
    }
  }

  // ---- the callback -----------------------------------------------------------------------------

  const HEADROOM: nat := 256  // a list entry is only started with more room than this left

  /** Rendered lengths: entries fit the headroom with some to spare for the fixed pieces that may follow
      them without a check. */
  ghost predicate Sized(size: Piece -> nat) {
    && (forall p: Piece :: p.AcEntry? || p.PathHead? || p.HitEntry? ==> size(p) <= HEADROOM - 16)
    && size(ToPaths) <= 16 && size(CloseHits) + size(ClosePath) + size(End) <= 16
  }

  /** The buffer of one callback: pieces appended so far and the space left. */
  class Buffer {
    const size: Piece -> nat
    const room: nat
    var used: nat
    ghost var pieces: seq<Piece>

    constructor (size: Piece -> nat, room: nat)
      ensures this.size == size && this.room == room && used == 0 && pieces == []
    {
      this.size, this.room := size, room;
      used, pieces := 0, [];
    }

    method Append(p: Piece)
      requires used + size(p) <= room
      modifies this
      ensures used == old(used) + size(p) <= room && pieces == old(pieces) + [p]
    {
      used, pieces := used + size(p), pieces + [p];
    }
  }

  lemma Regroup(a: seq<Piece>, b: seq<Piece>, c: seq<Piece>)
    ensures a + (b + c) == a + b + c
  {
  }

  lemma RestAc(w: Writer)
    requires w.ac != [] && !w.fpInitDone
    ensures Rest(w) == [AcEntry(w.first, w.ac[0])] + Rest(w.(ac := w.ac[1..], first := false))
  {
    var e: seq<Piece> := [AcEntry(w.first, w.ac[0])];
    var a, x := AcPart(w.ac[1..], false), AfterAcs(w.fp, w.done, w.acDone, w.fpInitDone, false);
    assert e + a + x == e + (a + x);
  }

  lemma RestSwitch(w: Writer)
    requires w.ac == [] && w.fp != [] && !w.acDone
    ensures Rest(w) == [ToPaths] + Rest(w.(acDone := true))
  {
    var switch: seq<Piece>, end: seq<Piece> := [ToPaths], [End];
    var x := if w.fpInitDone then HitPart(w.fp[0].hits, w.done) + Tail(w.fp) else PathPart(w.fp, w.first);
    assert Rest(w) == switch + x + end && Rest(w.(acDone := true)) == x + end;
    Regroup(switch, x, end);
  }

  lemma RestPath(w: Writer)
    requires w.ac == [] && w.fp != [] && w.acDone && !w.fpInitDone
    ensures Rest(w) == [PathHead(w.first, w.fp[0].path)] + Rest(w.(done := 0, fpInitDone := true, first := false))
  {
  }

  lemma RestHit(w: Writer)
    requires w.ac == [] && w.fp != [] && w.acDone && w.fpInitDone && w.done < |w.fp[0].hits|
    ensures Rest(w) == [HitEntry(w.done == 0, w.fp[0].hits[w.done])] + Rest(w.(done := w.done + 1))
  {
  }

  lemma RestClose(w: Writer)
    requires w.ac == [] && w.fp != [] && w.acDone && w.fpInitDone && w.done == |w.fp[0].hits| && !w.first
    ensures var r := w.(fpInitDone := false, fp := w.fp[1..]);
            Rest(w) == [CloseHits] + (if r.fp == [] then [ClosePath] else []) + Rest(r)
  {
  }

  /** struct pss_fts_demo as it is updated from callback to callback. */
  class Pss {
    var ac: seq<Ac>
    var fp: seq<File>
    var done: nat
    var first: bool
    var acDone: bool
    var fpInitDone: bool

    constructor (ac: seq<Ac>, fp: seq<File>)
      ensures View() == Start(ac, fp)
    {
      this.ac, this.fp, done := ac, fp, 0;
      first, acDone, fpInitDone := true, false, false;
    }

    ghost function View(): Writer
      reads this
    {
      Writer(ac, fp, done, first, acDone, fpInitDone)
    }

    /** What the buffer holds, followed by what is still to come. */
    ghost function Whole(b: Buffer): seq<Piece>
      reads this, b
    {
      b.pieces + Rest(View())
    }

    /** Nothing overflowed, and entries are of a size that will not. */
    ghost predicate Ready(b: Buffer)
      reads this, b
    {
      Valid(View()) && Sized(b.size) && b.used <= b.room
    }

    method WriteAc(b: Buffer)
      requires Ready(b) && ac != [] && b.room - b.used > HEADROOM
      modifies this`ac, this`first, b
      ensures Ready(b) && Whole(b) == old(Whole(b)) && b.used + 16 <= b.room
      ensures !first && |ac| < |old(ac)| && |b.pieces| == |old(b.pieces)| + 1
    {
      RestAc(View());
      ghost var p := AcEntry(first, ac[0]);
      b.Append(AcEntry(first, ac[0]));
      first := false;
      ac := ac[1..];
      Regroup(old(b.pieces), [p], Rest(View()));
    }

    method WriteAcs(b: Buffer)
      requires Ready(b) && b.used + 16 <= b.room
      modifies this`ac, this`first, b
      ensures Ready(b) && Whole(b) == old(Whole(b)) && b.used + 16 <= b.room
      ensures ac != [] ==> b.room - b.used <= HEADROOM
      ensures if old(ac) != [] && b.room - old(b.used) > HEADROOM then !first && |b.pieces| > |old(b.pieces)|
              else unchanged(this) && unchanged(b)
    {
      ghost var some := false;
      while ac != [] && b.room - b.used > HEADROOM
        invariant Ready(b) && Whole(b) == old(Whole(b)) && b.used + 16 <= b.room
        invariant if some then
                    old(ac) != [] && b.room - old(b.used) > HEADROOM && !first && |b.pieces| > |old(b.pieces)|
                  else unchanged(this) && unchanged(b)
        decreases |ac|
      {
        WriteAc(b);
        some := true;
      }
    }

    method SwitchToPaths(b: Buffer)
      requires Ready(b) && b.used + 16 <= b.room
      modifies this`acDone, b
      ensures Ready(b) && Whole(b) == old(Whole(b)) && b.used <= old(b.used) + 16
      ensures ac == [] && fp != [] ==> acDone
      ensures fp == [] || ac != [] ==> unchanged(this) && unchanged(b)
      ensures |b.pieces| >= |old(b.pieces)|
    {
      if !acDone && ac == [] && fp != [] {
        RestSwitch(View());
        acDone := true;
        Regroup(b.pieces, [ToPaths], Rest(View()));
        b.Append(ToPaths);
      }
    }

    method OpenPath(b: Buffer)
      requires Ready(b) && ac == [] && fp != [] && acDone && !fpInitDone && b.room - b.used > HEADROOM
      modifies this`done, this`fpInitDone, this`first, b
      ensures Ready(b) && Whole(b) == old(Whole(b)) && fpInitDone && !first && done == 0
      ensures |b.pieces| == |old(b.pieces)| + 1
    {
      RestPath(View());
      b.Append(PathHead(first, fp[0].path));
      done, fpInitDone, first := 0, true, false;
      Regroup(old(b.pieces), [PathHead(old(first), fp[0].path)], Rest(View()));
    }

    method WriteHit(b: Buffer)
      requires Ready(b) && fpInitDone && done < |fp[0].hits| && b.room - b.used > HEADROOM
      modifies this`done, b
      ensures Ready(b) && Whole(b) == old(Whole(b)) && b.used + 16 <= b.room && done == old(done) + 1
      ensures |b.pieces| == |old(b.pieces)| + 1
    {
      RestHit(View());
      ghost var p := HitEntry(done == 0, fp[0].hits[done]);
      b.Append(HitEntry(done == 0, fp[0].hits[done]));
      done := done + 1;
      Regroup(old(b.pieces), [p], Rest(View()));
    }

    method WriteHits(b: Buffer)
      requires Ready(b) && fpInitDone && b.used + 16 <= b.room
      modifies this`done, b
      ensures Ready(b) && Whole(b) == old(Whole(b)) && b.used + 16 <= b.room
      ensures done < |fp[0].hits| ==> b.room - b.used <= HEADROOM
      ensures old(done) <= done && |b.pieces| == |old(b.pieces)| + (done - old(done))
      ensures old(done) < |fp[0].hits| && b.room - old(b.used) > HEADROOM ==> old(done) < done
    {
      while done < |fp[0].hits| && b.room - b.used > HEADROOM
        invariant Ready(b) && Whole(b) == old(Whole(b)) && b.used + 16 <= b.room
        invariant old(done) <= done <= |fp[0].hits| && |b.pieces| == |old(b.pieces)| + (done - old(done))
        invariant old(done) == done ==> b.used == old(b.used)
      {
        WriteHit(b);
      }
    }

    method CloseList(b: Buffer)
      requires Ready(b) && fpInitDone && b.used + 16 <= b.room && done == |fp[0].hits|
      modifies this`fpInitDone, this`fp, b
      ensures Ready(b) && Whole(b) == old(Whole(b)) && !fpInitDone && fp == old(fp)[1..]
      ensures fp == [] ==> b.used + b.size(End) <= b.room
      ensures |b.pieces| > |old(b.pieces)|
    {
      RestClose(View());
      b.Append(CloseHits);
      fpInitDone := false;
      fp := fp[1..];
      Regroup(old(b.pieces), [CloseHits] + (if fp == [] then [ClosePath] else []), Rest(View()));
      if fp == [] {
        b.Append(ClosePath);
        Regroup(old(b.pieces), [CloseHits], [ClosePath]);
      } else {
        assert [CloseHits] + [] == [CloseHits];
      }
    }

    /** One turn of the loop over paths. */
    method WritePath(b: Buffer)
      requires Ready(b) && ac == [] && fp != [] && acDone && b.room - b.used > HEADROOM
      modifies this`done, this`fpInitDone, this`first, this`fp, b
      ensures Ready(b) && Whole(b) == old(Whole(b)) && !first && |b.pieces| > |old(b.pieces)|
      ensures fp == [] ==> b.used + b.size(End) <= b.room
      ensures |fp| < |old(fp)| || (fp == old(fp) && fpInitDone && (!old(fpInitDone) || done > old(done)))
    {
      if !fpInitDone {
        OpenPath(b);
      } else {
        WriteHits(b);
        if done == |fp[0].hits| {
          CloseList(b);
        }
      }
    }

    method WritePaths(b: Buffer)
      requires Ready(b) && (fp != [] && ac == [] ==> acDone) && (ac != [] ==> b.room - b.used <= HEADROOM)
      requires fp == [] ==> b.used + b.size(End) <= b.room
      modifies this`done, this`fpInitDone, this`first, this`fp, b
      ensures Ready(b) && Whole(b) == old(Whole(b))
      ensures fp == [] ==> b.used + b.size(End) <= b.room
      ensures if old(fp) != [] && b.room - old(b.used) > HEADROOM then !first && |b.pieces| > |old(b.pieces)|
              else unchanged(this) && unchanged(b)
    {
      ghost var some := false;
      while fp != [] && b.room - b.used > HEADROOM
        invariant Ready(b) && Whole(b) == old(Whole(b))
        invariant (fp != [] && ac == [] ==> acDone) && (ac != [] ==> b.room - b.used <= HEADROOM)
        invariant fp == [] ==> b.used + b.size(End) <= b.room
        invariant if some then
                    old(fp) != [] && b.room - old(b.used) > HEADROOM && !first && |b.pieces| > |old(b.pieces)|
                  else unchanged(this) && unchanged(b)
        decreases |fp|, !fpInitDone, if fpInitDone then |fp[0].hits| - done else 0
      {
        WritePath(b);
        some := true;
      }
    }

    /** The three loops of LWS_CALLBACK_HTTP_WRITEABLE. */
    method Fill(b: Buffer)
      requires Ready(b) && b.used + 16 + HEADROOM < b.room
      modifies this, b
      ensures Ready(b) && Whole(b) == old(Whole(b))
      ensures fp == [] && ac == [] ==> b.used + b.size(End) <= b.room
      ensures |b.pieces| >= |old(b.pieces)|
      ensures ac != [] || fp != [] ==> !first && |b.pieces| > |old(b.pieces)|
    {
      WriteAcs(b);
      SwitchToPaths(b);
      WritePaths(b);
    }

    /** LWS_CALLBACK_HTTP_WRITEABLE: what one buffer takes, and whether it is the last. */
    method Writeable(b: Buffer) returns (final: bool)
      requires Valid(View()) && Sized(b.size) && b.used == 0 && b.pieces == []
      requires b.size(Header) + 16 + HEADROOM < b.room
      modifies this, b
      ensures Valid(View()) && b.used <= b.room
      ensures Delivers(old(View()), b.pieces, final, View())
    {
      if first {
        b.Append(Header);
      }
      assert b.pieces == HeaderOf(View());
      Fill(b);
      final := ac == [] && fp == [];
      if final {
        RestOver(View());
        b.Append(End);
      }
    }
  }

  lemma RestOver(w: Writer)
    requires w.ac == [] && w.fp == []
    ensures Rest(w) == [End]
  {
  }

  function HeaderOf(w: Writer): seq<Piece> {
    if w.first then [Header] else []
  }

  /** What a callback writes is next in line, and takes the writer closer to the end. */
  ghost predicate Delivers(w: Writer, out: seq<Piece>, final: bool, w': Writer) {
    && HeaderOf(w) + Rest(w) == out + (if final then [] else Rest(w'))
    && (!final ==> !w'.first && |Rest(w')| < |Rest(w)|)
  }

  datatype Callback = Callback(out: seq<Piece>, final: bool, after: Writer)

  /** Callbacks from `w` on, up to the final one. */
  ghost predicate IsReply(w: Writer, cs: seq<Callback>)
    decreases |cs|
  {
    && cs != [] && Delivers(w, cs[0].out, cs[0].final, cs[0].after)
    && if cs[0].final then |cs| == 1 else IsReply(cs[0].after, cs[1..])
  }

  function Output(cs: seq<Callback>): seq<Piece> {
    if cs == [] then [] else cs[0].out + Output(cs[1..])
  }

  /** Whatever the sizes of the buffers, the callbacks of a reply together write the one rendering of the
      result, and there are at most as many of them as it has pieces. */
  lemma {:induction false} RepliesAreWhole(w: Writer, cs: seq<Callback>)
    requires IsReply(w, cs)
    ensures Output(cs) == HeaderOf(w) + Rest(w) && |cs| <= |Rest(w)|
    decreases |cs|
  {
    var out, rest := cs[0].out, Output(cs[1..]);
    if cs[0].final {
      assert cs[1..] == [];
      assert rest == [] && out + rest == out;
    } else {
      RepliesAreWhole(cs[0].after, cs[1..]);
      assert HeaderOf(cs[0].after) == [];
      assert rest == Rest(cs[0].after);
    }
    EndIsPending(w);
  }

  lemma EndIsPending(w: Writer)
    ensures Rest(w) != []
  {
  }

  lemma ReplyIsRendering(ac: seq<Ac>, fp: seq<File>, cs: seq<Callback>)
    requires IsReply(Start(ac, fp), cs)
    ensures Output(cs) == Render(ac, fp)
  {
    RepliesAreWhole(Start(ac, fp), cs);
  }
}
