/**
 Websocket messages sent in fragments, and what section 5.4 of RFC 6455 has their receiver make of them.
 */
module Fragments {
  import opened Wrappers

  /** One lws_write(): LWS_WRITE_TEXT or LWS_WRITE_CONTINUATION, with or without LWS_WRITE_NO_FIN. */
  datatype Frame<T> = Frame(text: bool, fin: bool, body: seq<T>)

  /** The messages completed so far, and the one under way. */
  datatype Inbox<T> = Inbox(done: seq<seq<T>>, partial: Option<seq<T>>)

  /** The next fragment; None once a frame came out of turn: a continuation of nothing, or a new message
      inside another. */
  function Feed<T>(box: Option<Inbox<T>>, f: Frame<T>): Option<Inbox<T>> {
    if box.None? || f.text == box.value.partial.Some? then None
    else
      var text := (if f.text then [] else box.value.partial.value) + f.body;
      if f.fin then Some(Inbox(box.value.done + [text], None)) else Some(Inbox(box.value.done, Some(text)))
  }

  function Assemble<T>(frames: seq<Frame<T>>): Option<Inbox<T>> {
    if frames == [] then Some(Inbox([], None))
    else Feed(Assemble(frames[..|frames| - 1]), frames[|frames| - 1])
  }

  lemma AssembleMore<T>(frames: seq<Frame<T>>, f: Frame<T>)
    ensures Assemble(frames + [f]) == Feed(Assemble(frames), f)
  {
    assert (frames + [f])[..|frames|] == frames;
  }
}
