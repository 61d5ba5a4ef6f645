/**
 The list of known access points of plugins/protocol_esp32_lws_scan.c: scan results are merged into
 decaying averages, the list is kept short, and re-sorted after every result.
 */
module ScanSpec {
  import opened Wrappers

  const MAX_APS: nat := 12
  const COUNT_LIMIT: nat := 127

  /** struct lws_wifi_scan: `rssi` is the sum of `count` samples. */
  datatype Ap = Ap(ssid: string, bssid: string, authmode: int, channel: int, rssi: int, count: nat)

  /** Division as in C: the quotient is rounded towards zero. */
  function TruncDiv(a: int, b: nat): int
    requires 0 < b
  {
    if a >= 0 then a / b else -((-a) / b)
  }

  /** lws_wifi_scan_rssi() */
  function Average(ap: Ap): int {
    if ap.count == 0 then -127 else TruncDiv(ap.rssi, ap.count)
  }

  predicate SameAp(a: Ap, b: Ap) {
    a.ssid == b.ssid && a.bssid == b.bssid
  }

  /** One more sample; what was summed up is halved first when it has grown too heavy. */
  function Merge(ap: Ap, sample: int): Ap {
    var h := if ap.count > COUNT_LIMIT then ap.(count := ap.count / 2, rssi := TruncDiv(ap.rssi, 2)) else ap;
    h.(rssi := h.rssi + sample, count := h.count + 1)
  }

  function Find(list: seq<Ap>, ns: Ap): (r: Option<nat>)
    ensures r.Some? ==> r.value < |list| && SameAp(list[r.value], ns)
    ensures r.Some? ==> forall i :: 0 <= i < r.value ==> !SameAp(list[i], ns)
    ensures r.None? ==> forall i :: 0 <= i < |list| ==> !SameAp(list[i], ns)
  {
    if list == [] then None
    else if SameAp(list[0], ns) then Some(0)
    else match Find(list[1..], ns)
      case None => None
      case Some(i) => Some(i + 1)
  }

  /** An access point is known by both its name and its address. */
  lemma FindIff(list: seq<Ap>, ns: Ap)
    ensures Find(list, ns).Some? <==>
            exists i :: 0 <= i < |list| && list[i].ssid == ns.ssid && list[i].bssid == ns.bssid
  {
  }

  function Trim(list: seq<Ap>): seq<Ap> {
    if |list| > MAX_APS - 1 then list[..MAX_APS - 1] else list
  }

  function Without(list: seq<Ap>, j: nat): seq<Ap>
    requires j < |list|
  {
    list[..j] + list[j + 1..]
  }

  // ---- sorting: worst first, each put in front of the last --------------------------------------

  ghost predicate IsLastWorst(list: seq<Ap>, j: nat) {
    && j < |list|
    && (forall i :: 0 <= i < |list| ==> Average(list[j]) <= Average(list[i]))
    && (forall i :: j < i < |list| ==> Average(list[j]) < Average(list[i]))
  }

  lemma {:induction false} LastWorstExists(list: seq<Ap>)
    requires list != []
    ensures exists j: nat :: IsLastWorst(list, j)
  {
    var n := |list| - 1;
    if n == 0 {
      assert IsLastWorst(list, 0);
    } else {
      LastWorstExists(list[..n]);
      var j: nat :| IsLastWorst(list[..n], j);
      assert IsLastWorst(list, if Average(list[n]) <= Average(list[j]) then n else j);
    }
  }

  /** The last of the worst. */
  ghost function LastWorst(list: seq<Ap>): (j: nat)
    requires list != []
    ensures IsLastWorst(list, j)
  {
    LastWorstExists(list);
    var j: nat :| IsLastWorst(list, j);
    j
  }

  ghost function SelectSort(list: seq<Ap>): (r: seq<Ap>)
    ensures |r| == |list|
    decreases |list|
  {
    if list == [] then []
    else
      var j := LastWorst(list);
      SelectSort(Without(list, j)) + [list[j]]
  }

  predicate Sorted(list: seq<Ap>) {
    forall i, j :: 0 <= i < j < |list| ==> Average(list[i]) >= Average(list[j])
  }

  /** The entries with a given average, in order. */
  function Level(list: seq<Ap>, avg: int): seq<Ap> {
    if list == [] then []
    else Level(list[..|list| - 1], avg) + if Average(list[|list| - 1]) == avg then [list[|list| - 1]] else []
  }

  lemma {:induction false} LevelConcat(a: seq<Ap>, b: seq<Ap>, avg: int)
    ensures Level(a + b, avg) == Level(a, avg) + Level(b, avg)
  {
    if b == [] {
      assert a + b == a;
    } else {
      LevelConcat(a, b[..|b| - 1], avg);
      assert (a + b)[..|a + b| - 1] == a + b[..|b| - 1];
    }
  }

  lemma {:induction false} LevelAbove(list: seq<Ap>, avg: int)
    requires forall i :: 0 <= i < |list| ==> avg < Average(list[i])
    ensures Level(list, avg) == []
  {
    if list != [] {
      LevelAbove(list[..|list| - 1], avg);
    }
  }

  /** Taking out the last of the worst and putting it at the end changes no level. */
  lemma LevelWithoutWorst(list: seq<Ap>, j: nat, avg: int)
    requires IsLastWorst(list, j)
    ensures Level(list, avg) == Level(Without(list, j) + [list[j]], avg)
  {
    var a, x, b := list[..j], list[j], list[j + 1..];
    assert list == a + ([x] + b);
    LevelConcat(a, [x] + b, avg);
    LevelConcat([x], b, avg);
    LevelConcat(Without(list, j), [x], avg);
    LevelConcat(a, b, avg);
    if Average(x) == avg {
      LevelAbove(b, avg);
    }
  }

  /** The result is ordered and, entry for entry within each average, as it was: a stable sort. */
  lemma {:induction false} SortIsStable(list: seq<Ap>, avg: int)
    ensures Level(SelectSort(list), avg) == Level(list, avg)
    decreases |list|
  {
    if list != [] {
      var j := LastWorst(list);
      var rest := Without(list, j);
      SortIsStable(rest, avg);
      LevelWithoutWorst(list, j, avg);
      LevelConcat(SelectSort(rest), [list[j]], avg);
      LevelConcat(rest, [list[j]], avg);
    }
  }

  lemma WithoutBag(list: seq<Ap>, j: nat)
    requires j < |list|
    ensures multiset(Without(list, j)) + multiset{list[j]} == multiset(list)
  {
    assert list == list[..j] + ([list[j]] + list[j + 1..]);
  }

  lemma {:induction false} SortPermutes(list: seq<Ap>)
    ensures multiset(SelectSort(list)) == multiset(list)
    decreases |list|
  {
    if list != [] {
      var j := LastWorst(list);
      SortPermutes(Without(list, j));
      WithoutBag(list, j);
    }
  }

  lemma {:induction false} SortSorts(list: seq<Ap>)
    ensures Sorted(SelectSort(list))
    decreases |list|
  {
    if list != [] {
      var j := LastWorst(list);
      var rest := Without(list, j);
      SortSorts(rest);
      SortPermutes(rest);
      forall i | 0 <= i < |rest| ensures Average(SelectSort(rest)[i]) >= Average(list[j]) {
        assert SelectSort(rest)[i] in multiset(SelectSort(rest));
        assert SelectSort(rest)[i] in rest;
      }
    }
  }

  lemma {:induction false} LevelNonempty(list: seq<Ap>, avg: int)
    requires Level(list, avg) != []
    ensures exists i :: 0 <= i < |list| && Average(list[i]) == avg
  {
    var n := |list| - 1;
    if Average(list[n]) != avg {
      LevelNonempty(list[..n], avg);
      var i :| 0 <= i < |list[..n]| && Average(list[..n][i]) == avg;
      assert Average(list[i]) == avg;
    }
  }

  lemma LevelFront(list: seq<Ap>, avg: int)
    requires list != []
    ensures var l := Level(list, avg); var last := list[|list| - 1];
            if Average(last) == avg then l != [] && l[|l| - 1] == last && Level(list[..|list| - 1], avg) == l[..|l| - 1]
            else Level(list[..|list| - 1], avg) == l
  {
  }

  /** In a sorted list the last entry has the least average that occurs. */
  lemma LastIsLeast(list: seq<Ap>, avg: int)
    requires Sorted(list) && Level(list, avg) != []
    ensures list != [] && Average(list[|list| - 1]) <= avg
  {
    LevelNonempty(list, avg);
  }

  /** Order and levels determine the list, so SelectSort computes the stable sort. */
  lemma {:induction false} StableSortIsUnique(a: seq<Ap>, b: seq<Ap>)
    requires Sorted(a) && Sorted(b) && forall avg :: Level(a, avg) == Level(b, avg)
    ensures a == b
    decreases |a|
  {
    if a == [] || b == [] {
      if a != [] {
        LevelFront(a, Average(a[|a| - 1]));
      }
      if b != [] {
        LevelFront(b, Average(b[|b| - 1]));
      }
    } else {
      var n, m := |a| - 1, |b| - 1;
      var avg := Average(a[n]);
      LevelFront(a, avg);
      LastIsLeast(b, avg);
      LevelFront(b, Average(b[m]));
      LastIsLeast(a, Average(b[m]));
      forall k ensures Level(a[..n], k) == Level(b[..m], k) {
        LevelFront(a, k);
        LevelFront(b, k);
      }
      StableSortIsUnique(a[..n], b[..m]);
      assert a == a[..n] + [a[n]] && b == b[..m] + [b[m]];
    }
  }

  // ---- when the sorting loop ends ---------------------------------------------------------------

  /** What is left on the old list after one turn of the loop: the search starts from 0, so an entry is
      only found, and moved, if some average is at most 0. */
  ghost function Turn(list: seq<Ap>): seq<Ap> {
    if list != [] && Average(list[LastWorst(list)]) <= 0 then Without(list, LastWorst(list)) else list
  }

  ghost function Turns(list: seq<Ap>, n: nat): seq<Ap> {
    if n == 0 then list else Turns(Turn(list), n - 1)
  }

  predicate NoneAbove(list: seq<Ap>) {
    forall i :: 0 <= i < |list| ==> Average(list[i]) <= 0
  }

  lemma WithoutKeeps(list: seq<Ap>, j: nat, x: Ap)
    requires j < |list| && x in list && x != list[j]
    ensures x in Without(list, j)
  {
    var i :| 0 <= i < |list| && list[i] == x;
    assert Without(list, j)[if i < j then i else i - 1] == x;
  }

  lemma {:induction false} PositiveStays(list: seq<Ap>, n: nat, x: Ap)
    requires x in list && 0 < Average(x)
    ensures x in Turns(list, n)
  {
    if n > 0 {
      if Turn(list) != list {
        WithoutKeeps(list, LastWorst(list), x);
      }
      PositiveStays(Turn(list), n - 1, x);
    }
  }

  lemma {:induction false} NonPositiveEnds(list: seq<Ap>)
    requires NoneAbove(list)
    ensures Turns(list, |list|) == []
    decreases |list|
  {
    if list != [] {
      NonPositiveEnds(Turn(list));
    }
  }

  /** The loop that empties the old list ends exactly when no average is positive. */
  lemma SortEndsIff(list: seq<Ap>)
    ensures (exists n :: Turns(list, n) == []) <==> NoneAbove(list)
  {
    if NoneAbove(list) {
      NonPositiveEnds(list);
    } else {
      var i :| 0 <= i < |list| && 0 < Average(list[i]);
      forall n ensures Turns(list, n) != [] {
        PositiveStays(list, n, list[i]);
      }
    }
  }

  // ---- one result, and every sequence of results ------------------------------------------------

  /** The list before it is sorted again. */
  function Absorb(list: seq<Ap>, ns: Ap): seq<Ap> {
    match Find(list, ns)
    case Some(i) => list[i := Merge(list[i], ns.rssi)]
    case None => [ns] + Trim(list)
  }

  /** lws_wifi_scan_insert_trim(); `oom` is whether a new entry cannot be allocated. */
  ghost function InsertTrim(list: seq<Ap>, ns: Ap, oom: bool): seq<Ap> {
    if oom && Find(list, ns).None? then Trim(list) else SelectSort(Absorb(list, ns))
  }

  ghost predicate DistinctAps(list: seq<Ap>) {
    forall i, j :: 0 <= i < j < |list| ==> !SameAp(list[i], list[j])
  }

  /** What every sequence of results keeps. */
  ghost predicate Tidy(list: seq<Ap>) {
    && |list| <= MAX_APS && DistinctAps(list) && Sorted(list)
    && forall i :: 0 <= i < |list| ==> 1 <= list[i].count <= COUNT_LIMIT + 1 && list[i].rssi <= 0
  }

  lemma TwiceCounts(b: seq<Ap>, i: nat, j: nat)
    requires i < j < |b| && b[i] == b[j]
    ensures 2 <= multiset(b)[b[i]]
  {
    assert b == b[..j] + b[j..];
    assert b[..j][i] == b[i] && b[j..][0] == b[i];
  }

  lemma DistinctPermuted(a: seq<Ap>, b: seq<Ap>)
    requires DistinctAps(a) && multiset(a) == multiset(b)
    ensures DistinctAps(b)
  {
    forall i, j | 0 <= i < j < |b| ensures !SameAp(b[i], b[j]) {
      assert b[i] in multiset(b) && b[j] in multiset(b);
      var k :| 0 <= k < |a| && a[k] == b[i];
      var l :| 0 <= l < |a| && a[l] == b[j];
      OnceEach(a, k);
      if b[i] == b[j] {
        TwiceCounts(b, i, j);
      }
    }
  }

  lemma OnceEach(a: seq<Ap>, k: nat)
    requires DistinctAps(a) && k < |a|
    ensures multiset(a)[a[k]] == 1
  {
    assert a == a[..k] + ([a[k]] + a[k + 1..]);
    assert a[k] !in a[..k] && a[k] !in a[k + 1..];
  }

  lemma MulMonotone(x: int, y: int, b: nat)
    requires x <= y
    ensures x * b <= y * b
  {
  }

  lemma DivWithin(n: nat, b: nat, lo: int, hi: int)
    requires 0 < b && lo * b <= n <= hi * b
    ensures lo <= n / b <= hi
  {
    var q := n / b;
    assert n == q * b + n % b;
    if q < lo {
      MulMonotone(q + 1, lo, b);
    }
    if hi < q {
      MulMonotone(hi + 1, q, b);
    }
  }

  /** Rounding towards zero never leaves the interval between two whole bounds. */
  lemma TruncDivWithin(a: int, b: nat, lo: int, hi: int)
    requires 0 < b && lo * b <= a <= hi * b
    ensures lo <= TruncDiv(a, b) <= hi
  {
    if a >= 0 {
      DivWithin(a, b, lo, hi);
    } else {
      assert (-hi) * b == -(hi * b) && (-lo) * b == -(lo * b);
      DivWithin(-a, b, -hi, -lo);
    }
  }

  /** The quotient has the sign of the dividend, and what it leaves over is smaller than the divisor. */
  lemma TruncDivIs(a: int, b: nat)
    requires 0 < b
    ensures var q := TruncDiv(a, b);
            if a >= 0 then q >= 0 && b * q <= a < b * q + b else q <= 0 && b * q - b < a <= b * q
  {
    var n := if a >= 0 then a else -a;
    assert n == b * (n / b) + n % b;
    assert b * -(n / b) == -(b * (n / b));
  }

  // ---- decaying averages ------------------------------------------------------------------------

  /** The entry that `samples`, the first of which made it, add up to. */
  function Accumulate(first: Ap, samples: seq<int>): Ap
    requires samples != []
  {
    if |samples| == 1 then first.(rssi := samples[0], count := 1)
    else Merge(Accumulate(first, samples[..|samples| - 1]), samples[|samples| - 1])
  }

  ghost predicate Within(samples: seq<int>, lo: int, hi: int) {
    forall i :: 0 <= i < |samples| ==> lo <= samples[i] <= hi
  }

  lemma MergeWithin(ap: Ap, sample: int, lo: int, hi: int)
    requires 1 <= ap.count <= COUNT_LIMIT + 1 && lo * ap.count <= ap.rssi <= hi * ap.count && lo <= sample <= hi
    ensures var m := Merge(ap, sample);
            1 <= m.count <= COUNT_LIMIT + 1 && lo * m.count <= m.rssi <= hi * m.count
  {
    if ap.count > COUNT_LIMIT {
      TruncDivWithin(ap.rssi, 2, lo * 64, hi * 64);
      assert lo * 65 == lo * 64 + lo && hi * 65 == hi * 64 + hi;
    } else {
      assert lo * (ap.count + 1) == lo * ap.count + lo;
      assert hi * (ap.count + 1) == hi * ap.count + hi;
    }
  }

  /** However many samples an entry has absorbed, its count stays bounded and both its sum, scaled, and
      the average it reports stay within the least and the greatest of them. */
  lemma {:induction false} AverageWithinSamples(first: Ap, samples: seq<int>, lo: int, hi: int)
    requires samples != [] && Within(samples, lo, hi)
    ensures var ap := Accumulate(first, samples);
            && 1 <= ap.count <= COUNT_LIMIT + 1
            && lo * ap.count <= ap.rssi <= hi * ap.count
            && lo <= Average(ap) <= hi
  {
    var n := |samples| - 1;
    var ap := Accumulate(first, samples);
    if n > 0 {
      AverageWithinSamples(first, samples[..n], lo, hi);
      MergeWithin(Accumulate(first, samples[..n]), samples[n], lo, hi);
    }
    TruncDivWithin(ap.rssi, ap.count, lo, hi);
  }

  function Sum(samples: seq<int>): int {
    if samples == [] then 0 else Sum(samples[..|samples| - 1]) + samples[|samples| - 1]
  }

  /** `r` is half of `a`, rounded towards zero. */
  predicate IsHalf(a: int, r: int) {
    if a >= 0 then 2 * r <= a <= 2 * r + 1 else 2 * r - 1 <= a <= 2 * r
  }

  /** Up to 128 samples simply add up, in an entry that otherwise is as the first made it. */
  lemma {:induction false} FewAddUp(first: Ap, samples: seq<int>)
    requires 0 < |samples| <= COUNT_LIMIT + 1
    ensures Accumulate(first, samples) == first.(rssi := Sum(samples), count := |samples|)
  {
    var n := |samples| - 1;
    if n > 0 {
      FewAddUp(first, samples[..n]);
    } else {
      assert Sum(samples[..0]) == 0;
    }
  }

  /** So what is reported of them is their sum divided by their number, rounded towards zero. */
  lemma FewAverage(first: Ap, samples: seq<int>)
    requires 0 < |samples| <= COUNT_LIMIT + 1
    ensures var q, n, sum := Average(Accumulate(first, samples)), |samples|, Sum(samples);
            if sum >= 0 then q >= 0 && n * q <= sum < n * q + n else q <= 0 && n * q - n < sum <= n * q
  {
    FewAddUp(first, samples);
    TruncDivIs(Sum(samples), |samples|);
  }

  /** Whatever was heard before, one more sample is added and counted; only that a count of 128 and its sum
      are halved first. */
  lemma OneMoreSample(first: Ap, samples: seq<int>, x: int)
    requires samples != []
    ensures var a, b := Accumulate(first, samples), Accumulate(first, samples + [x]);
            && 1 <= a.count <= COUNT_LIMIT + 1 && b.ssid == a.ssid && b.bssid == a.bssid
            && b.authmode == a.authmode && b.channel == a.channel
            && b.count == (if a.count == COUNT_LIMIT + 1 then 65 else a.count + 1)
            && if a.count == COUNT_LIMIT + 1 then IsHalf(a.rssi, b.rssi - x) else b.rssi == a.rssi + x
  {
    CountBounded(first, samples);
    assert (samples + [x])[..|samples|] == samples;
    TruncDivIs(Accumulate(first, samples).rssi, 2);
  }

  lemma {:induction false} CountBounded(first: Ap, samples: seq<int>)
    requires samples != []
    ensures 1 <= Accumulate(first, samples).count <= COUNT_LIMIT + 1
  {
    if |samples| > 1 {
      CountBounded(first, samples[..|samples| - 1]);
    }
  }

  // ---- every sequence of results ----------------------------------------------------------------

  /** A scan result as scan_finished() passes it on: one sample. */
  ghost predicate IsSample(ns: Ap) {
    ns.count == 1 && ns.rssi <= 0
  }

  lemma AbsorbKeeps(list: seq<Ap>, ns: Ap)
    requires Tidy(list) && IsSample(ns)
    ensures var r := Absorb(list, ns);
            && |r| <= MAX_APS && DistinctAps(r)
            && forall i :: 0 <= i < |r| ==> 1 <= r[i].count <= COUNT_LIMIT + 1 && r[i].rssi <= 0
  {
    var found := Find(list, ns);
    var r := Absorb(list, ns);
    if found.Some? {
      var i := found.value;
      assert SameAp(r[i], list[i]);
    } else {
      forall i, j | 0 <= i < j < |r| ensures !SameAp(r[i], r[j]) {
        assert r[j] == list[j - 1];
        assert i > 0 ==> r[i] == list[i - 1];
      }
    }
  }

  lemma AverageNotAbove(ap: Ap)
    requires 1 <= ap.count && ap.rssi <= 0
    ensures Average(ap) <= 0
  {
  }

  /** So sorting ends. */
  lemma AbsorbedSortEnds(list: seq<Ap>, ns: Ap)
    requires Tidy(list) && IsSample(ns)
    ensures NoneAbove(Absorb(list, ns))
  {
    AbsorbKeeps(list, ns);
    var r := Absorb(list, ns);
    forall i | 0 <= i < |r| ensures Average(r[i]) <= 0 {
      AverageNotAbove(r[i]);
    }
  }

  /** Short, without duplicates, sorted, and with bounded counts: so it stays, result after result. */
  lemma InsertTrimKeeps(list: seq<Ap>, ns: Ap, oom: bool)
    requires Tidy(list) && IsSample(ns)
    ensures Tidy(InsertTrim(list, ns, oom))
  {
    if !(oom && Find(list, ns).None?) {
      var a := Absorb(list, ns);
      AbsorbKeeps(list, ns);
      SortPermutes(a);
      SortSorts(a);
      DistinctPermuted(a, SelectSort(a));
      forall i | 0 <= i < |SelectSort(a)|
        ensures 1 <= SelectSort(a)[i].count <= COUNT_LIMIT + 1 && SelectSort(a)[i].rssi <= 0
      {
        assert SelectSort(a)[i] in multiset(a);
      }
    }
  }

  /** Whether an access point is on a list does not depend on the order, nor on which of its entries asks. */
  lemma FindPermuted(a: seq<Ap>, b: seq<Ap>, x: Ap)
    requires multiset(a) == multiset(b) && Find(a, x).Some?
    ensures Find(b, x).Some?
  {
    var i := Find(a, x).value;
    assert a[i] in multiset(b);
    var k :| 0 <= k < |b| && b[k] == a[i];
    assert SameAp(b[k], x);
  }

  lemma FindSame(list: seq<Ap>, x: Ap, y: Ap)
    requires SameAp(x, y)
    ensures Find(list, x).Some? <==> Find(list, y).Some?
  {
    if Find(list, x).Some? {
      assert SameAp(list[Find(list, x).value], y);
    }
    if Find(list, y).Some? {
      assert SameAp(list[Find(list, y).value], x);
    }
  }

  /** What is on the list after a result is what was on it before sorting. */
  lemma FindInserted(list: seq<Ap>, ns: Ap, oom: bool, x: Ap)
    requires !(oom && Find(list, ns).None?)
    ensures Find(InsertTrim(list, ns, oom), x).Some? <==> Find(Absorb(list, ns), x).Some?
  {
    var a := Absorb(list, ns);
    SortPermutes(a);
    if Find(a, x).Some? {
      FindPermuted(a, SelectSort(a), x);
    }
    if Find(SelectSort(a), x).Some? {
      FindPermuted(SelectSort(a), a, x);
    }
  }

  /** A result is on the list afterwards, unless it was not before and there is no memory: as an entry of
      its own if it was not, and then what was on the list is cut to make room. */
  lemma ResultIsListed(list: seq<Ap>, ns: Ap, oom: bool)
    requires Tidy(list) && IsSample(ns)
    ensures var r, known := InsertTrim(list, ns, oom), Find(list, ns).Some?;
            && (Find(r, ns).Some? <==> known || !oom)
            && |r| == (if known then |list|
                       else (if |list| < MAX_APS then |list| else MAX_APS - 1) + if oom then 0 else 1)
            && (!known && !oom ==> r[Find(r, ns).value] == ns)
  {
    var r, found := InsertTrim(list, ns, oom), Find(list, ns);
    if found.None? && oom {
      assert forall i :: 0 <= i < |r| ==> r[i] == list[i];
    } else {
      var a := Absorb(list, ns);
      FindInserted(list, ns, oom, ns);
      assert SameAp(a[if found.Some? then found.value else 0], ns);
      if found.None? {
        NewIsItself(list, ns, oom);
      }
    }
  }

  lemma NewIsItself(list: seq<Ap>, ns: Ap, oom: bool)
    requires Tidy(list) && IsSample(ns) && Find(list, ns).None? && !oom && Find(InsertTrim(list, ns, oom), ns).Some?
    ensures var r := InsertTrim(list, ns, oom); r[Find(r, ns).value] == ns
  {
    var a, r := Absorb(list, ns), InsertTrim(list, ns, oom);
    InsertTrimKeeps(list, ns, oom);
    SortPermutes(a);
    assert a[0] == ns && ns in multiset(r);
    var k :| 0 <= k < |r| && r[k] == ns;
    assert SameAp(r[k], r[Find(r, ns).value]);
  }

  /** A result makes an access point leave the list exactly when it is about another one that was not on
      it, and eleven others are ahead of it. */
  lemma DroppedIff(list: seq<Ap>, ns: Ap, oom: bool, j: nat)
    requires Tidy(list) && j < |list|
    ensures Find(InsertTrim(list, ns, oom), list[j]).None? <==> Find(list, ns).None? && MAX_APS - 1 <= j
  {
    var found, x := Find(list, ns), list[j];
    if !(oom && found.None?) {
      FindInserted(list, ns, oom, x);
    }
    if found.Some? {
      assert SameAp(Absorb(list, ns)[j], x);
    } else {
      assert !SameAp(ns, x);
      assert j < MAX_APS - 1 ==> Trim(list)[j] == x && ([ns] + Trim(list))[j + 1] == x;
      assert forall i :: 0 <= i < |Trim(list)| ==> Trim(list)[i] == list[i];
    }
  }

  /** No access point that a result makes leave the list was stronger than one that stays. */
  lemma DiscardsWeakest(list: seq<Ap>, ns: Ap, oom: bool, i: nat, j: nat)
    requires Tidy(list) && i < |list| && j < |list|
    ensures Find(InsertTrim(list, ns, oom), list[j]).None? && Find(InsertTrim(list, ns, oom), list[i]).Some? ==>
              Average(list[j]) <= Average(list[i])
  {
    DroppedIff(list, ns, oom, j);
    DroppedIff(list, ns, oom, i);
  }

  datatype Result = Result(ap: Ap, oom: bool)

  ghost predicate AllSamples(results: seq<Result>) {
    forall k :: 0 <= k < |results| ==> IsSample(results[k].ap)
  }

  /** The list after any sequence of results. */
  ghost function Known(results: seq<Result>): (list: seq<Ap>)
    requires AllSamples(results)
    ensures Tidy(list)
  {
    if results == [] then []
    else
      var before, r := Known(results[..|results| - 1]), results[|results| - 1];
      InsertTrimKeeps(before, r.ap, r.oom);
      InsertTrim(before, r.ap, r.oom)
  }

  /** Result `k` leads from one list to the next. */
  ghost predicate StepAt(lists: seq<seq<Ap>>, recs: seq<Result>, k: nat) {
    k < |recs| && k + 1 < |lists| && lists[k + 1] == InsertTrim(lists[k], recs[k].ap, recs[k].oom)
  }

  ghost predicate IsHistory(lists: seq<seq<Ap>>, recs: seq<Result>) {
    |lists| == |recs| + 1 && forall k: nat :: k < |recs| ==> StepAt(lists, recs, k)
  }

  lemma HistoryMore(before: seq<seq<Ap>>, lists: seq<seq<Ap>>, recs: seq<Result>)
    requires 0 < |before| <= |recs| && |lists| == |before| + 1 && lists[..|before|] == before
    requires forall k: nat :: k + 1 < |before| ==> StepAt(before, recs, k)
    requires StepAt(lists, recs, |before| - 1)
    ensures forall k: nat :: k < |before| ==> StepAt(lists, recs, k)
  {
    forall k: nat | k + 1 < |before| ensures StepAt(lists, recs, k) {
      assert StepAt(before, recs, k);
      assert lists[k] == before[k] && lists[k + 1] == before[k + 1];
    }
  }

  lemma {:induction false} HistoryIsKnown(lists: seq<seq<Ap>>, results: seq<Result>, recs: seq<Result>, k: nat)
    requires IsHistory(lists, recs) && AllSamples(results) && AllSamples(recs) && k <= |recs|
    requires lists[0] == Known(results)
    ensures AllSamples(results + recs[..k]) && lists[k] == Known(results + recs[..k])
  {
    if k == 0 {
      assert results + recs[..0] == results;
    } else {
      OneMore(results, recs, k - 1);
      HistoryIsKnown(lists, results, recs, k - 1);
      StepIsKnown(lists, recs, k - 1, results + recs[..k - 1]);
    }
  }

  lemma OneMore(results: seq<Result>, recs: seq<Result>, k: nat)
    requires k < |recs|
    ensures results + recs[..k] + [recs[k]] == results + recs[..k + 1]
  {
  }

  lemma StepIsKnown(lists: seq<seq<Ap>>, recs: seq<Result>, k: nat, heard: seq<Result>)
    requires StepAt(lists, recs, k) && AllSamples(heard) && IsSample(recs[k].ap) && lists[k] == Known(heard)
    ensures AllSamples(heard + [recs[k]]) && lists[k + 1] == Known(heard + [recs[k]])
  {
    KnownMore(heard, recs[k]);
  }

  function Samples(results: seq<Result>, ap: Ap): seq<int> {
    if results == [] then []
    else Samples(results[..|results| - 1], ap) +
         if SameAp(results[|results| - 1].ap, ap) then [results[|results| - 1].ap.rssi] else []
  }

  /** Result `a` is about the access point, and the entry is what all results about it add up to from
      that one on. */
  ghost predicate AddsUp(results: seq<Result>, ap: Ap, a: nat) {
    && a < |results| && SameAp(results[a].ap, ap) && Samples(results[a..], ap) != []
    && ap == Accumulate(results[a].ap, Samples(results[a..], ap))
  }

  /** Result `a` put the access point on the list, where it has been ever since. */
  ghost predicate OnListSince(results: seq<Result>, ap: Ap, a: nat)
    requires AllSamples(results)
  {
    && a < |results| && Find(Known(results[..a]), ap).None?
    && forall k :: a < k <= |results| ==> Find(Known(results[..k]), ap).Some?
  }

  ghost predicate Since(results: seq<Result>, ap: Ap, a: nat)
    requires AllSamples(results)
  {
    AddsUp(results, ap, a) && OnListSince(results, ap, a)
  }

  lemma {:induction false} SamplesSame(results: seq<Result>, a: Ap, b: Ap)
    requires SameAp(a, b)
    ensures Samples(results, a) == Samples(results, b)
  {
    if results != [] {
      SamplesSame(results[..|results| - 1], a, b);
    }
  }

  lemma AddsUpMore(results: seq<Result>, r: Result, ap: Ap, a: nat)
    requires AddsUp(results, ap, a)
    ensures AddsUp(results + [r], if SameAp(r.ap, ap) then Merge(ap, r.ap.rssi) else ap, a)
  {
    var was, now := results[a..], (results + [r])[a..];
    assert now == was + [r] && now[..|was|] == was;
    if SameAp(r.ap, ap) {
      var ap' := Merge(ap, r.ap.rssi);
      SamplesSame(was, ap, ap');
      assert Samples(now, ap') == Samples(was, ap) + [r.ap.rssi];
      assert Samples(now, ap')[..|Samples(was, ap)|] == Samples(was, ap);
    } else {
      assert Samples(now, ap) == Samples(was, ap);
    }
  }

  lemma AddsUpNew(results: seq<Result>, r: Result)
    requires IsSample(r.ap)
    ensures AddsUp(results + [r], r.ap, |results|)
  {
    var now := (results + [r])[|results|..];
    assert now == [r] && now[..0] == [];
    assert Samples(now, r.ap) == [r.ap.rssi];
  }

  lemma OnListMore(results: seq<Result>, r: Result, ap: Ap, ap': Ap, a: nat)
    requires AllSamples(results + [r]) && AllSamples(results) && OnListSince(results, ap, a) && SameAp(ap, ap')
    requires Find(Known(results + [r]), ap').Some?
    ensures OnListSince(results + [r], ap', a)
  {
    forall k | a <= k <= |results| + 1
      ensures Find(Known((results + [r])[..k]), ap').Some? <==> a < k {
      if k <= |results| {
        assert (results + [r])[..k] == results[..k];
        FindSame(Known(results[..k]), ap, ap');
      } else {
        assert (results + [r])[..k] == results + [r];
      }
    }
  }

  /** Entry `i` before sorting: the result itself, newly put on the list, or old entry `k`, with the result
      merged in if it is about it. */
  ghost predicate ComesFrom(list: seq<Ap>, ns: Ap, ap: Ap, k: int) {
    if k < 0 then ap == ns && Find(list, ns).None?
    else k < |list| && ap == if SameAp(ns, list[k]) then Merge(list[k], ns.rssi) else list[k]
  }

  lemma AbsorbOrigin(list: seq<Ap>, ns: Ap, i: nat) returns (k: int)
    requires DistinctAps(list) && i < |Absorb(list, ns)|
    ensures ComesFrom(list, ns, Absorb(list, ns)[i], k)
  {
    var found := Find(list, ns);
    k := if found.Some? then i else i - 1;
    if found.Some? && i != found.value {
      assert !SameAp(list[i], list[found.value]);
    }
  }

  lemma Origin(list: seq<Ap>, ns: Ap, oom: bool, ap: Ap) returns (k: int)
    requires Tidy(list) && ap in InsertTrim(list, ns, oom)
    ensures ComesFrom(list, ns, ap, k)
  {
    if oom && Find(list, ns).None? {
      k :| 0 <= k < |Trim(list)| && Trim(list)[k] == ap;
    } else {
      var a := Absorb(list, ns);
      SortPermutes(a);
      assert ap in multiset(a);
      var i :| 0 <= i < |a| && a[i] == ap;
      k := AbsorbOrigin(list, ns, i);
    }
  }

  lemma KnownMore(results: seq<Result>, r: Result)
    requires AllSamples(results + [r])
    ensures AllSamples(results) && IsSample(r.ap)
    ensures Known(results + [r]) == InsertTrim(Known(results), r.ap, r.oom)
  {
    assert (results + [r])[..|results|] == results;
    assert forall k :: 0 <= k < |results| ==> results[k] == (results + [r])[k];
    assert r == (results + [r])[|results|];
  }

  lemma FindEntry(list: seq<Ap>, ap: Ap)
    requires ap in list
    ensures Find(list, ap).Some?
  {
    var i :| 0 <= i < |list| && list[i] == ap;
    assert SameAp(list[i], ap);
  }

  lemma OnListNew(results: seq<Result>, ap: Ap)
    requires results != [] && AllSamples(results) && Find(Known(results), ap).Some?
    requires Find(Known(results[..|results| - 1]), ap).None?
    ensures OnListSince(results, ap, |results| - 1)
  {
    assert results[..|results|] == results;
  }

  lemma SinceOld(results: seq<Result>, r: Result, was: Ap, ap: Ap, a: nat)
    requires AllSamples(results + [r]) && AllSamples(results) && Since(results, was, a)
    requires ap == (if SameAp(r.ap, was) then Merge(was, r.ap.rssi) else was) && Find(Known(results + [r]), ap).Some?
    ensures Since(results + [r], ap, a)
  {
    AddsUpMore(results, r, was, a);
    OnListMore(results, r, was, ap, a);
  }

  /** After a result that did not run out of memory its access point is on the list. */
  lemma LatestIsKnown(results: seq<Result>)
    requires AllSamples(results) && results != [] && !results[|results| - 1].oom
    ensures Find(Known(results), results[|results| - 1].ap).Some?
  {
    var n := |results| - 1;
    assert results == results[..n] + [results[n]];
    KnownMore(results[..n], results[n]);
    ResultIsListed(Known(results[..n]), results[n].ap, false);
  }

  /** Every entry of the list adds up the results about it from the one that put it there. */
  lemma {:induction false} EntrySince(results: seq<Result>, ap: Ap) returns (a: nat)
    requires AllSamples(results) && ap in Known(results)
    ensures Since(results, ap, a)
  {
    var n := |results| - 1;
    var before, r := results[..n], results[n];
    assert results == before + [r];
    KnownMore(before, r);
    FindEntry(Known(results), ap);
    var k := Origin(Known(before), r.ap, r.oom, ap);
    if k < 0 {
      a := n;
      AddsUpNew(before, r);
      OnListNew(results, ap);
    } else {
      var was := Known(before)[k];
      a := EntrySince(before, was);
      SinceOld(before, r, was, ap, a);
    }
  }

  /** So what the list reports about an access point lies between the weakest and the strongest result
      about it since it was last put on the list. */
  lemma ReportedWithinHeard(results: seq<Result>, ap: Ap) returns (a: nat)
    requires AllSamples(results) && ap in Known(results)
    ensures Since(results, ap, a)
    ensures forall lo, hi :: Within(Samples(results[a..], ap), lo, hi) ==> lo <= Average(ap) <= hi
  {
    a := EntrySince(results, ap);
    forall lo, hi | Within(Samples(results[a..], ap), lo, hi) ensures lo <= Average(ap) <= hi {
      AverageWithinSamples(results[a].ap, Samples(results[a..], ap), lo, hi);
    }
  }
}
