/**
 lws_wifi_scan_insert_trim() as it runs: a singly linked list, relinked in place by a selection sort.
 */
module Scan {
  import opened Wrappers
  import Spec = ScanSpec

  /** struct lws_wifi_scan, with its link. */
  class Node {
    const ssid: string
    const bssid: string
    const authmode: int
    const channel: int
    var rssi: int
    var count: nat
    var next: Node?

    constructor (ap: Spec.Ap)
      ensures Value() == ap && next == null
    {
      ssid, bssid, authmode, channel := ap.ssid, ap.bssid, ap.authmode, ap.channel;
      rssi, count, next := ap.rssi, ap.count, null;
    }

    /** One more sample. */
    method Merge(sample: int)
      modifies this`rssi, this`count
      ensures Value() == Spec.Merge(old(Value()), sample)
    {
      if count > Spec.COUNT_LIMIT {
        count := count / 2;
        rssi := Spec.TruncDiv(rssi, 2);
      }
      rssi := rssi + sample;
      count := count + 1;
    }

    function Value(): Spec.Ap
      reads this`rssi, this`count
    {
      Spec.Ap(ssid, bssid, authmode, channel, rssi, count)
    }
  }

  ghost predicate Distinct(spine: seq<Node>) {
    forall i, j :: 0 <= i < j < |spine| ==> spine[i] != spine[j]
  }

  ghost predicate LinkAt(spine: seq<Node>, i: nat)
    requires i < |spine|
    reads spine`next
  {
    spine[i].next == if i + 1 < |spine| then spine[i + 1] else null
  }

  /** `spine` is the linked list that starts at `head`. */
  ghost predicate Linked(head: Node?, spine: seq<Node>)
    reads spine`next
  {
    && Distinct(spine)
    && (if spine == [] then head == null else head == spine[0])
    && forall i :: 0 <= i < |spine| ==> LinkAt(spine, i)
  }

  /** The nodes hold these values, in this order. */
  ghost predicate Holding(spine: seq<Node>, contents: seq<Spec.Ap>)
    reads spine`rssi, spine`count
  {
    |contents| == |spine| && forall i :: 0 <= i < |spine| ==> spine[i].Value() == contents[i]
  }

  ghost predicate Among(a: seq<Node>, nodes: seq<Node>) {
    forall i :: 0 <= i < |a| ==> a[i] in nodes
  }

  ghost predicate Apart(a: seq<Node>, b: seq<Node>) {
    forall i :: 0 <= i < |a| ==> a[i] !in b
  }

  lemma MovedApart(a: seq<Node>, b: seq<Node>, nodes: seq<Node>, j: nat)
    requires Distinct(a) && Apart(a, b) && Among(a, nodes) && Among(b, nodes) && j < |a|
    ensures var a', b' := a[..j] + a[j + 1..], [a[j]] + b;
            && Apart(a', b') && Among(a', nodes) && Among(b', nodes)
            && multiset(a') + multiset(b') == multiset(a) + multiset(b)
  {
    var a', b' := a[..j] + a[j + 1..], [a[j]] + b;
    forall i | 0 <= i < |a'| ensures a'[i] !in b' && a'[i] in nodes {
      assert a'[i] == a[if i < j then i else i + 1];
    }
    assert a == a[..j] + [a[j]] + a[j + 1..];
  }

  /** What sorting will make of an old list and the new list built so far. */
  ghost function Pending(list: seq<Spec.Ap>, newlist: seq<Spec.Ap>): seq<Spec.Ap> {
    Spec.SelectSort(list) + newlist
  }

  lemma NothingPending(newlist: seq<Spec.Ap>, c: seq<Spec.Ap>)
    requires Pending([], newlist) == Pending(c, [])
    ensures newlist == Spec.SelectSort(c)
  {
    assert [] + newlist == newlist;
  }

  lemma SortMove(c: seq<Spec.Ap>, acc: seq<Spec.Ap>)
    requires c != [] && Spec.NoneAbove(c)
    ensures var j := Spec.LastWorst(c);
            Spec.NoneAbove(Spec.Without(c, j)) && Pending(Spec.Without(c, j), [c[j]] + acc) == Pending(c, acc)
  {
    var j := Spec.LastWorst(c);
    var s := Spec.SelectSort(Spec.Without(c, j));
    assert Spec.SelectSort(c) == s + [c[j]];
    assert s + ([c[j]] + acc) == s + [c[j]] + acc;
  }

  const AP_RECORDS: nat := 10

  class KnownAps {
    var list: Node?
    ghost var spine: seq<Node>
    ghost var contents: seq<Spec.Ap>

    ghost predicate Valid()
      reads this, spine`next, spine`rssi, spine`count
    {
      Linked(list, spine) && Holding(spine, contents)
    }

    constructor ()
      ensures Valid() && contents == [] && spine == []
    {
      list, spine, contents := null, [], [];
    }

    /** The entry a result is about, or null. */
    method FindMatch(ns: Spec.Ap) returns (pp: Node?, ghost i: nat)
      requires Valid()
      ensures if pp == null then Spec.Find(contents, ns).None?
              else Spec.Find(contents, ns) == Some(i) && spine[i] == pp
    {
      pp, i := list, 0;
      while pp != null && !Spec.SameAp(pp.Value(), ns)
        invariant 0 <= i <= |spine| && pp == if i < |spine| then spine[i] else null
        invariant forall j :: 0 <= j < i ==> !Spec.SameAp(contents[j], ns)
        decreases |spine| - i
      {
        assert LinkAt(spine, i);
        pp, i := pp.next, i + 1;
      }
      assert i < |spine| ==> Spec.SameAp(contents[i], ns);
    }

    /** Adds the sample to the entry it is about, if there is one. */
    method MergeMatch(ns: Spec.Ap) returns (found: bool)
      requires Valid()
      modifies this`contents, spine`rssi, spine`count
      ensures Valid()
      ensures found == Spec.Find(old(contents), ns).Some?
      ensures contents == if found then Spec.Absorb(old(contents), ns) else old(contents)
    {
      var pp, i := FindMatch(ns);
      if pp != null {
        pp.Merge(ns.rssi);
        contents := contents[i := Spec.Merge(contents[i], ns.rssi)];
      }
      return pp != null;
    }

    /** Cuts the list off behind its first MAX_APS - 1 entries. */
    method TrimExcess()
      requires Valid()
      modifies this, spine`next
      ensures Valid() && contents == Spec.Trim(old(contents)) && spine <= old(spine)
    {
      var prev: Node?, cur := null, list;
      var count := 0;
      ghost var i, was, held := 0, spine, contents;
      while cur != null
        invariant Valid() && i <= |spine| <= |was|
        invariant i == if count < Spec.MAX_APS - 1 then count else Spec.MAX_APS - 1
        invariant i < Spec.MAX_APS - 1 ==> spine == was && contents == held
        invariant spine[..i] == was[..i] && contents[..i] == held[..i]
        invariant cur == if i < |spine| then spine[i] else null
        invariant prev == if 0 < i then spine[i - 1] else null
        decreases |spine| - i
      {
        assert LinkAt(spine, i);
        if count >= Spec.MAX_APS - 1 {
          RemoveAfter(prev, cur, i);
          assert LinkAt(spine, i - 1);
          cur := prev.next;
        } else {
          prev, cur, i := cur, cur.next, i + 1;
        }
        count := count + 1;
      }
      assert spine == was[..i] && contents == held[..i];
    }

    /** Relinks past the node at index `i`; `prev` is the node before it, null at the front. */
    method RemoveAfter(prev: Node?, node: Node, ghost i: nat)
      requires Valid() && i < |spine| && spine[i] == node
      requires prev == if 0 < i then spine[i - 1] else null
      modifies this, (set n | n in spine && n == prev)`next
      ensures Valid() && spine == old(spine)[..i] + old(spine)[i + 1..] && contents == Spec.Without(old(contents), i)
      ensures node.next == old(node.next)
    {
      assert LinkAt(spine, i);
      if prev == null {
        list := node.next;
      } else {
        prev.next := node.next;
      }
      spine, contents := spine[..i] + spine[i + 1..], Spec.Without(contents, i);
      forall j | 0 <= j < |spine| ensures LinkAt(spine, j) {
        assert old(LinkAt(spine, if j < i then j else j + 1));
      }
    }

    /** Links a node in front. */
    method LinkFront(n: Node)
      requires Valid() && n !in spine
      modifies this, n`next
      ensures Valid() && spine == [n] + old(spine) && contents == [n.Value()] + old(contents)
    {
      n.next := list;
      list := n;
      spine, contents := [n] + spine, [n.Value()] + contents;
      forall i | 0 <= i < |spine| ensures LinkAt(spine, i) {
        assert 0 < i ==> spine[i] == old(spine)[i - 1] && old(LinkAt(spine, i - 1));
      }
    }

    /** Puts a copy of the result in front. */
    method Push(ns: Spec.Ap)
      requires Valid()
      modifies this
      ensures Valid() && contents == [ns] + old(contents)
      ensures |spine| == |old(spine)| + 1 && fresh(spine[0]) && spine[1..] == old(spine)
    {
      var pp1 := new Node(ns);
      LinkFront(pp1);
    }

    /** Who is the worst still left on the list? */
    method FindWorst() returns (prev: Node?, pworst: Node?, ghost j: nat)
      requires Valid() && spine != [] && Spec.NoneAbove(contents)
      ensures j == Spec.LastWorst(contents) && spine[j] == pworst
      ensures prev == if 0 < j then spine[j - 1] else null
    {
      var worst := 0;
      var before: Node?, pp := null, list;
      prev, pworst, j := null, null, 0;
      ghost var i := 0;
      while pp != null
        invariant 0 <= i <= |spine| && pp == (if i < |spine| then spine[i] else null)
        invariant before == if 0 < i then spine[i - 1] else null
        invariant i == 0 ==> worst == 0
        invariant 0 < i ==> j < i && spine[j] == pworst && worst == Spec.Average(contents[j])
        invariant 0 < i ==> prev == if 0 < j then spine[j - 1] else null
        invariant forall k :: 0 <= k < i ==> worst <= Spec.Average(contents[k])
        invariant forall k :: j < k < i ==> worst < Spec.Average(contents[k])
        decreases |spine| - i
      {
        assert LinkAt(spine, i) && contents[i] == pp.Value();
        var a := Spec.Average(pp.Value());
        if a <= worst {
          worst, prev, pworst, j := a, before, pp, i;
        }
        before, pp, i := pp, pp.next, i + 1;
      }
      assert Spec.IsLastWorst(contents, j);
    }

    /** One turn of the sorting loop: the worst moves to the head of the new list. */
    method SortTurn(newlist: KnownAps) returns (ghost j: nat)
      requires Valid() && newlist.Valid() && newlist != this && spine != [] && Spec.NoneAbove(contents)
      requires Apart(spine, newlist.spine)
      modifies this, newlist, spine`next
      ensures Valid() && newlist.Valid() && j < |old(spine)|
      ensures spine == old(spine)[..j] + old(spine)[j + 1..] && newlist.spine == [old(spine)[j]] + old(newlist.spine)
      ensures Spec.NoneAbove(contents)
      ensures Pending(contents, newlist.contents) == Pending(old(contents), old(newlist.contents))
    {
      SortMove(contents, newlist.contents);
      var prev, pworst;
      prev, pworst, j := FindWorst();
      MoveTo(newlist, prev, pworst, j);
    }

    /** Moves the node at index `i` to the front of another list. */
    method MoveTo(to: KnownAps, prev: Node?, node: Node, ghost i: nat)
      requires Valid() && to.Valid() && to != this && i < |spine| && spine[i] == node
      requires prev == (if 0 < i then spine[i - 1] else null) && Apart(spine, to.spine)
      modifies this, to, spine`next
      ensures Valid() && to.Valid()
      ensures spine == old(spine)[..i] + old(spine)[i + 1..] && to.spine == [node] + old(to.spine)
      ensures contents == Spec.Without(old(contents), i) && to.contents == [old(contents)[i]] + old(to.contents)
    {
      RemoveAfter(prev, node, i);
      to.LinkFront(node);
    }

    /** Takes over another list. */
    method Adopt(from: KnownAps)
      requires from.Valid()
      modifies this
      ensures Valid() && contents == old(from.contents) && spine == old(from.spine)
    {
      list, spine, contents := from.list, from.spine, from.contents;
    }

    /** The list is sorted by relinking its own nodes. */
    method Sort()
      requires Valid() && Spec.NoneAbove(contents)
      modifies this, spine`next
      ensures Valid() && contents == Spec.SelectSort(old(contents)) && multiset(spine) == multiset(old(spine))
    {
      var newlist := new KnownAps();
      ghost var nodes := spine;
      while list != null
        invariant Valid() && newlist.Valid() && newlist != this && fresh(newlist) && Spec.NoneAbove(contents)
        invariant Apart(spine, newlist.spine) && Among(spine, nodes) && Among(newlist.spine, nodes)
        invariant multiset(spine) + multiset(newlist.spine) == multiset(nodes)
        invariant Pending(contents, newlist.contents) == Pending(old(contents), [])
        decreases |spine|
      {
        ghost var a, b := spine, newlist.spine;
        var j := SortTurn(newlist);
        MovedApart(a, b, nodes, j);
      }
      NothingPending(newlist.contents, old(contents));
      assert multiset(newlist.spine) == multiset(nodes);
      Adopt(newlist);
    }

    method SortInPlace()
      requires Valid() && Spec.NoneAbove(contents)
      modifies this, spine`next
      ensures Valid() && contents == Spec.SelectSort(old(contents)) && Among(spine, old(spine))
    {
      Sort();
      forall i | 0 <= i < |spine| ensures spine[i] in old(spine) {
        assert spine[i] in multiset(spine) && spine[i] in multiset(old(spine));
      }
    }

    /** lws_wifi_scan_insert_trim(); false when there was no memory for a new entry. */
    method InsertTrim(ns: Spec.Ap, oom: bool) returns (ok: bool)
      requires Valid()
      requires Spec.NoneAbove(Spec.Absorb(contents, ns))
      modifies this, spine
      ensures Valid() && contents == Spec.InsertTrim(old(contents), ns, oom)
      ensures ok <==> !(oom && Spec.Find(old(contents), ns).None?)
      ensures forall i :: 0 <= i < |spine| ==> spine[i] in old(spine) || fresh(spine[i])
    {
      var found := MergeMatch(ns);
      if !found {
        TrimExcess();
        if oom {
          return false;
        }
        Push(ns);
      }
      assert forall i :: 0 <= i < |spine| ==> spine[i] in old(spine) || fresh(spine[i]);
      SortInPlace();
      return true;
    }

    method MergeResult(r: Spec.Result)
      requires Valid() && Spec.Tidy(contents) && Spec.IsSample(r.ap)
      modifies this, spine
      ensures Valid() && Spec.Tidy(contents) && contents == Spec.InsertTrim(old(contents), r.ap, r.oom)
      ensures forall i :: 0 <= i < |spine| ==> spine[i] in old(spine) || fresh(spine[i])
    {
      Spec.InsertTrimKeeps(contents, r.ap, r.oom);
      Spec.AbsorbedSortEnds(contents, r.ap);
      var ok := InsertTrim(r.ap, r.oom);
    }

    /** The loop of scan_finished(); `lists` are the lists it goes through. */
    method MergeAll(recs: seq<Spec.Result>, count: nat) returns (ghost lists: seq<seq<Spec.Ap>>)
      requires Valid() && Spec.Tidy(contents) && Spec.AllSamples(recs) && count <= |recs|
      modifies this, spine
      ensures Valid() && Spec.IsHistory(lists, recs[..count]) && lists[0] == old(contents) && contents == lists[count]
    {
      lists := [contents];
      for m := 0 to count
        invariant Valid() && Spec.Tidy(contents)
        invariant forall i :: 0 <= i < |spine| ==> spine[i] in old(spine) || fresh(spine[i])
        invariant |lists| == m + 1 && lists[0] == old(contents) && lists[m] == contents
        invariant forall k: nat :: k < m ==> Spec.StepAt(lists, recs[..count], k)
      {
        ghost var before := lists;
        MergeResult(recs[m]);
        lists := lists + [contents];
        Spec.HistoryMore(before, lists, recs[..count]);
      }
    }

    /** scan_finished(): the first ten records are merged into the list, one after the other. */
    method ScanFinished(recs: seq<Spec.Result>, ghost results: seq<Spec.Result>)
      requires Valid() && Spec.AllSamples(results) && Spec.AllSamples(recs) && contents == Spec.Known(results)
      modifies this, spine
      ensures var all := results + recs[..if |recs| < AP_RECORDS then |recs| else AP_RECORDS];
              Valid() && Spec.AllSamples(all) && contents == Spec.Known(all)
    {
      var count := |recs|;
      if count >= AP_RECORDS {
        count := AP_RECORDS;
      }
      ghost var lists := MergeAll(recs, count);
      Spec.HistoryIsKnown(lists, results, recs[..count], count);
      assert recs[..count][..count] == recs[..count];
    }
  }
}
