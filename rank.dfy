/**
 * The sort at MassPing.py:121:
 * `sorted(iplist.items(), key=lambda k: k[1][3], reverse=True)`, a stable
 * sort of the (address, entry) pairs in dictionary order, largest first RTT
 * first, that raises IndexError when an entry has no element at index 3.
 */
module Rank {
  import opened Wrappers
  import opened Devices

  /** One element of `iplist.items()`. */
  datatype Item = Item(address: string, entry: Entry)

  /** `iplist.items()`, in insertion order. */
  function Items(t: Table): (r: seq<Item>)
    requires t.Valid()
    ensures |r| == |t.keys|
    ensures forall i :: 0 <= i < |r| ==> r[i].address == t.keys[i] && r[i].entry == t.vals[t.keys[i]]
  {
    seq(|t.keys|, i requires 0 <= i < |t.keys| => Item(t.keys[i], t.vals[t.keys[i]]))
  }

  /** The entry has an element at index 3: a first RTT was appended. */
  predicate HasResult(it: Item) {
    |it.entry.rtts| > 0
  }

  predicate AllHaveResults(s: seq<Item>) {
    forall i :: 0 <= i < |s| ==> HasResult(s[i])
  }

  /** The sort key `k[1][3]`. */
  function Rtt(it: Item): real
    requires HasResult(it)
  {
    it.entry.rtts[0]
  }

  ghost predicate NonIncreasing(s: seq<Item>)
    requires AllHaveResults(s)
  {
    forall i, j :: 0 <= i < j < |s| ==> Rtt(s[i]) >= Rtt(s[j])
  }

  /** The items of s whose key is v, in their order in s. */
  function WithRtt(s: seq<Item>, v: real): seq<Item>
    requires AllHaveResults(s)
    decreases |s|
  {
    if s == [] then []
    else (if Rtt(s[0]) == v then [s[0]] else []) + WithRtt(s[1..], v)
  }

  /** Inserts x in front of every item whose key is not larger. */
  function Insert(x: Item, r: seq<Item>): (q: seq<Item>)
    requires HasResult(x) && AllHaveResults(r)
    ensures |q| == |r| + 1 && AllHaveResults(q)
    ensures multiset(q) == multiset(r) + multiset{x}
    ensures q[0] == x || (r != [] && q[0] == r[0])
    decreases |r|
  {
    if r == [] || Rtt(x) >= Rtt(r[0]) then [x] + r
    else
      assert r == [r[0]] + r[1..];
      [r[0]] + Insert(x, r[1..])
  }

  /** A stable sort, largest key first (insertion sort as the reference
      for Python's `sorted(..., reverse=True)`). */
  function SortDesc(s: seq<Item>): (r: seq<Item>)
    requires AllHaveResults(s)
    ensures |r| == |s| && AllHaveResults(r)
    ensures multiset(r) == multiset(s)
    decreases |s|
  {
    if s == [] then []
    else
      assert s == [s[0]] + s[1..];
      Insert(s[0], SortDesc(s[1..]))
  }

  /** The index of the first item without a result, or |s|. */
  function FirstMissing(s: seq<Item>): (k: nat)
    ensures k <= |s|
    ensures forall j :: 0 <= j < k ==> HasResult(s[j])
    ensures k < |s| ==> !HasResult(s[k])
    decreases |s|
  {
    if s == [] || !HasResult(s[0]) then 0 else 1 + FirstMissing(s[1..])
  }

  /** Line 121: every key is computed first, so an entry without a result
      raises IndexError; otherwise the stably sorted list. */
  function SortByRtt(s: seq<Item>): Result<seq<Item>, Error> {
    var k := FirstMissing(s);
    if k < |s| then Failure(MissingResult(s[k].address))
    else Success(SortDesc(s))
  }

  lemma {:induction false} InsertSorted(x: Item, r: seq<Item>)
    requires HasResult(x) && AllHaveResults(r) && NonIncreasing(r)
    ensures NonIncreasing(Insert(x, r))
    decreases |r|
  {
    if r != [] && Rtt(x) < Rtt(r[0]) {
      InsertSorted(x, r[1..]);
      var q' := Insert(x, r[1..]);
      assert r[1..] != [] ==> Rtt(r[0]) >= Rtt(r[1..][0]);
      assert Rtt(r[0]) >= Rtt(q'[0]);
    }
  }

  /** The sorted list is ordered by RTT, largest first. */
  lemma {:induction false} SortSorted(s: seq<Item>)
    requires AllHaveResults(s)
    ensures NonIncreasing(SortDesc(s))
    decreases |s|
  {
    if s != [] {
      SortSorted(s[1..]);
      InsertSorted(s[0], SortDesc(s[1..]));
    }
  }

  lemma WithRttCons(x: Item, r: seq<Item>, v: real)
    requires HasResult(x) && AllHaveResults(r)
    ensures WithRtt([x] + r, v) == (if Rtt(x) == v then [x] else []) + WithRtt(r, v)
  {
    assert ([x] + r)[0] == x && ([x] + r)[1..] == r;
  }

  lemma {:induction false} InsertStable(x: Item, r: seq<Item>, v: real)
    requires HasResult(x) && AllHaveResults(r) && NonIncreasing(r)
    ensures WithRtt(Insert(x, r), v) == (if Rtt(x) == v then [x] else []) + WithRtt(r, v)
    decreases |r|
  {
    if r == [] || Rtt(x) >= Rtt(r[0]) {
      WithRttCons(x, r, v);
    } else {
      InsertStable(x, r[1..], v);
      WithRttCons(r[0], Insert(x, r[1..]), v);
      WithRttCons(r[0], r[1..], v);
      assert [r[0]] + r[1..] == r;
    }
  }

  /** Stability: the items with any one key keep their original order. */
  lemma {:induction false} SortStable(s: seq<Item>, v: real)
    requires AllHaveResults(s)
    ensures WithRtt(SortDesc(s), v) == WithRtt(s, v)
    decreases |s|
  {
    if s != [] {
      SortStable(s[1..], v);
      SortSorted(s[1..]);
      InsertStable(s[0], SortDesc(s[1..]), v);
    }
  }

  /** The sort fails exactly when some entry has no result at index 3, and
      names the first one; otherwise it returns a permutation of the items
      that is ordered by RTT, largest first, and stable. */
  lemma SortByRttSpec(s: seq<Item>)
    ensures SortByRtt(s).Failure? <==> exists i :: 0 <= i < |s| && !HasResult(s[i])
    ensures SortByRtt(s).Failure? ==>
      exists i :: && 0 <= i < |s| && !HasResult(s[i])
                  && (forall j :: 0 <= j < i ==> HasResult(s[j]))
                  && SortByRtt(s).error == MissingResult(s[i].address)
    ensures SortByRtt(s).Success? ==>
      && AllHaveResults(s)
      && var r := SortByRtt(s).value;
      && AllHaveResults(r)
      && multiset(r) == multiset(s)
      && NonIncreasing(r)
      && forall v :: WithRtt(r, v) == WithRtt(s, v)
  {
    if SortByRtt(s).Success? {
      SortSorted(s);
      forall v ensures WithRtt(SortDesc(s), v) == WithRtt(s, v) {
        SortStable(s, v);
      }
    }
  }

  /** If no reading exceeds 9999, every down device (RTT 9999) comes before
      every device that answered with a smaller RTT. */
  lemma DownFirst(s: seq<Item>, i: nat, j: nat)
    requires AllHaveResults(s)
    requires forall k :: 0 <= k < |s| ==> Rtt(s[k]) <= Sentinel
    requires i < j < |s|
    requires Rtt(SortDesc(s)[j]) == Sentinel
    ensures Rtt(SortDesc(s)[i]) == Sentinel
  {
    var r := SortDesc(s);
    SortSorted(s);
    assert r[i] in multiset(s);
    var k :| 0 <= k < |s| && s[k] == r[i];
  }
}
