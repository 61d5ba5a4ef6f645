/** Text that holds a list: named fixed parts, entries, and the commas between them. */
module ListText {
  datatype Token<A> = Part(name: string) | Comma | Item(value: A)

  /** Entries with their commas, given whether any entry was written before. */
  function Entries<A>(xs: seq<A>, subsequent: bool): seq<Token<A>> {
    if xs == [] then []
    else (if subsequent then [Comma] else []) + [Item(xs[0])] + Entries(xs[1..], true)
  }

  lemma {:induction false} EntriesConcat<A>(a: seq<A>, b: seq<A>, subsequent: bool)
    ensures Entries(a + b, subsequent) == Entries(a, subsequent) + Entries(b, subsequent || a != [])
  {
    if a == [] {
      assert a + b == b;
    } else {
      EntriesConcat(a[1..], b, true);
      assert (a + b)[1..] == a[1..] + b;
    }
  }

  function ItemsOf<A>(ts: seq<Token<A>>): seq<A> {
    if ts == [] then [] else (if ts[0].Item? then [ts[0].value] else []) + ItemsOf(ts[1..])
  }

  /** The entries can be read back, each once and in order, and between any two there is one comma. */
  lemma {:induction false} EntriesList<A>(xs: seq<A>, subsequent: bool)
    ensures ItemsOf(Entries(xs, subsequent)) == xs
    ensures xs != [] ==> |Entries(xs, subsequent)| == 2 * |xs| - if subsequent then 0 else 1
  {
    if xs != [] {
      EntriesList(xs[1..], true);
      var ts := Entries(xs, subsequent);
      var rest := if subsequent then ts[1..] else ts;
      assert rest == [Item(xs[0])] + Entries(xs[1..], true) && rest[1..] == Entries(xs[1..], true);
      assert ItemsOf(rest) == xs;
    }
  }
}
