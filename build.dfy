/** Greedy construction of the Huffman tree, as the `HuffTree` constructor
    does it on its vector of nodes: `get_min` finds the first node of least
    weight, `std::swap` moves it to the back, `pop_back` removes it, the same
    again for the second node, and `push_back` appends their merge.  The
    functions here are the specification the constructor's loop is proved
    against. */
module TreeBuilder {
  import opened Base
  import opened Tree
  import opened FrequencyTable

  /** `k` is the first index holding the least weight of `s`. */
  ghost predicate IsFirstMin(s: seq<Node>, k: int) {
    && 0 <= k < |s|
    && (forall j | 0 <= j < |s| :: s[k].val <= s[j].val)
    && (forall j | 0 <= j < k :: s[k].val < s[j].val)
  }

  /** Only one index is the first minimum. */
  lemma FirstMinUnique(s: seq<Node>, k1: int, k2: int)
    requires IsFirstMin(s, k1) && IsFirstMin(s, k2)
    ensures k1 == k2
  {
    assert s[k1].val == s[k2].val;
  }

  /** The index `get_min` returns, defined on the prefix without the last
      node: the last node wins only if it is strictly lighter. */
  function MinIndex(s: seq<Node>): (k: nat)
    requires |s| > 0
    ensures IsFirstMin(s, k)
  {
    if |s| == 1 then 0
    else
      var k := MinIndex(s[..|s| - 1]);
      if s[|s| - 1].val < s[k].val then |s| - 1 else k
  }

  /** `get_min`: a linear scan that moves `idx` only on a strictly smaller
      weight.  On an empty vector the loop does not run and 0 comes back. */
  method GetMin(vec: seq<Node>) returns (idx: nat)
    ensures |vec| == 0 ==> idx == 0
    ensures |vec| > 0 ==> IsFirstMin(vec, idx)
  {
    idx := 0;
    var i := 0;
    while i < |vec|
      invariant 0 <= i <= |vec|
      invariant |vec| > 0 ==> idx < |vec| && idx <= i
      invariant |vec| == 0 ==> idx == 0
      invariant forall j | 0 <= j < i :: vec[idx].val <= vec[j].val
      invariant forall j | 0 <= j < idx :: vec[idx].val < vec[j].val
    {
      if vec[i].val < vec[idx].val {
        idx := i;
      }
      i := i + 1;
    }
  }

  /** `std::swap(s[i], s[j])`. */
  function Swap(s: seq<Node>, i: nat, j: nat): (r: seq<Node>)
    requires i < |s| && j < |s|
    ensures |r| == |s| && r[i] == s[j] && r[j] == s[i]
    ensures forall k | 0 <= k < |s| && k != i && k != j :: r[k] == s[k]
  {
    s[i := s[j]][j := s[i]]
  }

  /** Half an iteration of the constructor's loop: swap the first minimum
      to the back and pop it.  Returns the remaining nodes and the popped
      one. */
  function TakeMin(s: seq<Node>): (r: (seq<Node>, Node))
    requires |s| > 0
    ensures |r.0| == |s| - 1
    ensures r.1 == s[MinIndex(s)]
  {
    var a := Swap(s, MinIndex(s), |s| - 1);
    (a[..|s| - 1], a[|s| - 1])
  }

  /** The swap-and-pop of the constructor's loop, on the vector: after it
      the vector is the remaining nodes and `min` the node taken out. */
  method PopMin(nodes: seq<Node>) returns (rest: seq<Node>, min: Node)
    requires |nodes| > 0
    ensures (rest, min) == TakeMin(nodes)
  {
    var idx := GetMin(nodes);
    MinAt(nodes, idx);
    var last := |nodes| - 1;
    var swapped := nodes[idx := nodes[last]][last := nodes[idx]];
    min := swapped[last];
    rest := swapped[..last];
  }

  /** One iteration of the constructor's loop: pop the first minimum
      (`min1`), then the first minimum of what is left (`min2`), and push
      their merge with `min1` on the left. */
  function Step(nodes: seq<Node>): (r: seq<Node>)
    requires |nodes| >= 2
    ensures |r| == |nodes| - 1
  {
    var (b, min1) := TakeMin(nodes);
    var (c, min2) := TakeMin(b);
    c + [Merge(min1, min2)]
  }

  /** Repeat the step while more than one node is left. */
  function Reduce(nodes: seq<Node>): (r: seq<Node>)
    ensures |r| <= 1
    ensures |r| == 0 <==> |nodes| == 0
    decreases |nodes|
  {
    if |nodes| <= 1 then nodes else Reduce(Step(nodes))
  }

  /** One leaf per entry, in entry order. */
  function Leaves(es: seq<Entry>): (r: seq<Node>)
    ensures |r| == |es|
    ensures forall i | 0 <= i < |es| :: r[i] == Leaf(es[i].0, es[i].1)
  {
    seq(|es|, i requires 0 <= i < |es| => Leaf(es[i].0, es[i].1))
  }

  /** The root the constructor leaves behind for `freq`; `None` is the null
      root of an empty map. */
  function BuildRoot(freq: map<Char, int>): Option<Node> {
    var r := Reduce(Leaves(Entries(freq)));
    if r == [] then None else Some(r[0])
  }

  // ----- what a step keeps -----

  /** The leaves of all nodes of a list. */
  ghost function Bag(s: seq<Node>): multiset<Entry> {
    if s == [] then multiset{} else LeafBag(s[0]) + Bag(s[1..])
  }

  /** The total weight of a list. */
  ghost function WSum(s: seq<Node>): int {
    if s == [] then 0 else s[0].val + WSum(s[1..])
  }

  ghost predicate AllWellWeighted(s: seq<Node>) {
    forall i | 0 <= i < |s| :: WellWeighted(s[i])
  }

  lemma {:induction false} BagAppend(s: seq<Node>, t: seq<Node>)
    ensures Bag(s + t) == Bag(s) + Bag(t)
    ensures WSum(s + t) == WSum(s) + WSum(t)
  {
    if s == [] {
      assert s + t == t;
    } else {
      assert (s + t)[1..] == s[1..] + t;
      BagAppend(s[1..], t);
    }
  }

  lemma BagSingle(x: Node)
    ensures Bag([x]) == LeafBag(x) && WSum([x]) == x.val
  {
    assert [x][1..] == [];
  }

  /** Replacing one node changes the totals by that node only. */
  lemma BagUpdate(s: seq<Node>, i: nat, x: Node)
    requires i < |s|
    ensures Bag(s[i := x]) + LeafBag(s[i]) == Bag(s) + LeafBag(x)
    ensures WSum(s[i := x]) + s[i].val == WSum(s) + x.val
  {
    var pre, post := s[..i], s[i + 1..];
    assert s == pre + [s[i]] + post;
    assert s[i := x] == pre + [x] + post;
    BagAppend(pre + [s[i]], post);
    BagAppend(pre, [s[i]]);
    BagAppend(pre + [x], post);
    BagAppend(pre, [x]);
    BagSingle(s[i]);
    BagSingle(x);
  }

  lemma BagSwap(s: seq<Node>, i: nat, j: nat)
    requires i < |s| && j < |s|
    ensures Bag(Swap(s, i, j)) == Bag(s) && WSum(Swap(s, i, j)) == WSum(s)
  {
    if i == j {
      assert Swap(s, i, j) == s;
    } else {
      var t := s[i := s[j]];
      BagUpdate(s, i, s[j]);
      BagUpdate(t, j, s[i]);
      assert t[j] == s[j];
      assert Swap(s, i, j) == t[j := s[i]];
      Cancel(Bag(Swap(s, i, j)), Bag(s), LeafBag(s[j]));
    }
  }

  lemma Cancel(a: multiset<Entry>, b: multiset<Entry>, x: multiset<Entry>)
    requires a + x == b + x
    ensures a == b
  {
    forall e ensures a[e] == b[e] {
      assert (a + x)[e] == (b + x)[e];
    }
  }

  /** Removing the last node of a list. */
  lemma BagPop(s: seq<Node>)
    requires |s| > 0
    ensures Bag(s) == Bag(s[..|s| - 1]) + LeafBag(s[|s| - 1])
    ensures WSum(s) == WSum(s[..|s| - 1]) + s[|s| - 1].val
  {
    assert s == s[..|s| - 1] + [s[|s| - 1]];
    BagAppend(s[..|s| - 1], [s[|s| - 1]]);
    BagSingle(s[|s| - 1]);
  }

  /** A step keeps the leaves, the total weight and well-weightedness. */
  lemma StepPreserves(nodes: seq<Node>)
    requires |nodes| >= 2
    ensures Bag(Step(nodes)) == Bag(nodes)
    ensures WSum(Step(nodes)) == WSum(nodes)
    ensures AllWellWeighted(nodes) ==> AllWellWeighted(Step(nodes))
  {
    StepTotals(nodes);
    if AllWellWeighted(nodes) {
      StepWellWeighted(nodes);
    }
  }

  lemma StepTotals(nodes: seq<Node>)
    requires |nodes| >= 2
    ensures Bag(Step(nodes)) == Bag(nodes)
    ensures WSum(Step(nodes)) == WSum(nodes)
  {
    var (b, x) := TakeMin(nodes);
    var (c, y) := TakeMin(b);
    TakeMinTotals(nodes);
    TakeMinTotals(b);
    MergeTotals(c, x, y);
  }

  /** Popping the minimum takes exactly that node out of the totals. */
  lemma TakeMinTotals(s: seq<Node>)
    requires |s| > 0
    ensures Bag(s) == Bag(TakeMin(s).0) + LeafBag(TakeMin(s).1)
    ensures WSum(s) == WSum(TakeMin(s).0) + TakeMin(s).1.val
  {
    var a := Swap(s, MinIndex(s), |s| - 1);
    BagSwap(s, MinIndex(s), |s| - 1);
    BagPop(a);
  }

  /** Replacing two nodes by their merge keeps the totals of a list. */
  lemma MergeTotals(rest: seq<Node>, x: Node, y: Node)
    ensures Bag(rest + [Merge(x, y)]) == Bag(rest) + LeafBag(y) + LeafBag(x)
    ensures WSum(rest + [Merge(x, y)]) == WSum(rest) + y.val + x.val
  {
    BagAppend(rest, [Merge(x, y)]);
    BagSingle(Merge(x, y));
  }

  /** Every node a swap leaves in place of another comes from the list. */
  lemma SwapWellWeighted(s: seq<Node>, i: nat, j: nat)
    requires i < |s| && j < |s| && AllWellWeighted(s)
    ensures AllWellWeighted(Swap(s, i, j))
  {
    var r := Swap(s, i, j);
    forall k | 0 <= k < |s| ensures WellWeighted(r[k]) {
      if k == i {
        assert r[k] == s[j];
      } else if k == j {
        assert r[k] == s[i];
      } else {
        assert r[k] == s[k];
      }
    }
  }

  lemma StepWellWeighted(nodes: seq<Node>)
    requires |nodes| >= 2 && AllWellWeighted(nodes)
    ensures AllWellWeighted(Step(nodes))
  {
    var (b, x) := TakeMin(nodes);
    TakeMinWellWeighted(nodes);
    TakeMinWellWeighted(b);
  }

  lemma TakeMinWellWeighted(s: seq<Node>)
    requires |s| > 0 && AllWellWeighted(s)
    ensures AllWellWeighted(TakeMin(s).0) && WellWeighted(TakeMin(s).1)
  {
    SwapWellWeighted(s, MinIndex(s), |s| - 1);
  }

  /** The whole loop keeps the leaves, the total weight and
      well-weightedness. */
  lemma {:induction false} ReducePreserves(nodes: seq<Node>)
    ensures Bag(Reduce(nodes)) == Bag(nodes)
    ensures WSum(Reduce(nodes)) == WSum(nodes)
    ensures AllWellWeighted(nodes) ==> AllWellWeighted(Reduce(nodes))
    decreases |nodes|
  {
    if |nodes| > 1 {
      StepPreserves(nodes);
      ReducePreserves(Step(nodes));
    }
  }

  lemma {:induction false} LeavesBag(es: seq<Entry>)
    ensures Bag(Leaves(es)) == multiset(es)
    ensures WSum(Leaves(es)) == Total(es)
    ensures AllWellWeighted(Leaves(es))
  {
    if es != [] {
      LeavesBag(es[1..]);
      assert Leaves(es)[1..] == Leaves(es[1..]);
      assert multiset(es) == multiset{es[0]} + multiset(es[1..]) by {
        assert es == [es[0]] + es[1..];
      }
    }
  }

  /** In a list with strictly ascending keys every pair occurs once. */
  lemma {:induction false} AscendingOnce(es: seq<Entry>, e: Entry)
    requires Ascending(es)
    ensures multiset(es)[e] == if e in es then 1 else 0
  {
    if es != [] {
      AscendingOnce(es[1..], e);
      assert es == [es[0]] + es[1..];
      assert es[0] !in es[1..];
    }
  }

  /** The constructor leaves a null root exactly for an empty map. */
  lemma BuildRootNone(freq: map<Char, int>)
    ensures BuildRoot(freq).None? <==> |freq| == 0
  {
    EntriesProperties(freq);
  }

  /** A single character gives a lone leaf as the root. */
  lemma BuildRootSingle(freq: map<Char, int>, k: Char)
    requires freq.Keys == {k}
    ensures BuildRoot(freq) == Some(Leaf(k, freq[k]))
  {
    EntriesProperties(freq);
    assert |freq| == 1;
    assert (k, freq[k]) in Entries(freq);
  }

  /** The root is well weighted and weighs the sum of all frequencies. */
  lemma BuildRootWeight(freq: map<Char, int>)
    requires BuildRoot(freq).Some?
    ensures WellWeighted(BuildRoot(freq).value)
    ensures BuildRoot(freq).value.val == Total(Entries(freq))
  {
    var es := Entries(freq);
    LeavesBag(es);
    ReducePreserves(Leaves(es));
    var r := Reduce(Leaves(es));
    assert r == [r[0]];
    BagSingle(r[0]);
  }

  /** The leaves of the root are the entries of `freq`. */
  lemma BuildRootBag(freq: map<Char, int>)
    requires BuildRoot(freq).Some?
    ensures LeafBag(BuildRoot(freq).value) == multiset(Entries(freq))
  {
    var es := Entries(freq);
    LeavesBag(es);
    ReducePreserves(Leaves(es));
    var r := Reduce(Leaves(es));
    assert r == [r[0]];
    BagSingle(r[0]);
  }

  /** Each entry of `freq` is a leaf of the root exactly once, and nothing
      else is, so the root's characters are the keys of `freq`. */
  lemma BuildRootLeaves(freq: map<Char, int>)
    requires BuildRoot(freq).Some?
    ensures forall c: Char, v: int :: LeafBag(BuildRoot(freq).value)[(c, v)]
                                    == if c in freq && freq[c] == v then 1 else 0
    ensures LeafChars(BuildRoot(freq).value) == freq.Keys
  {
    var es := Entries(freq);
    var root := BuildRoot(freq).value;
    EntriesProperties(freq);
    BuildRootBag(freq);
    forall c: Char, v: int
      ensures LeafBag(root)[(c, v)] == if c in freq && freq[c] == v then 1 else 0
    {
      AscendingOnce(es, (c, v));
    }
    forall c: Char ensures c in LeafChars(root) <==> c in freq {
      LeafCharsOfBag(root, c);
      if c in freq {
        assert LeafBag(root)[(c, freq[c])] == 1;
      }
    }
  }

  /** The shape for frequencies {a:1, b:2, c:4, d:8}: each merge takes the
      lightest node as its left child, giving a left-leaning chain
      (((a, b), c), d) of weights 3, 7 and 15. */
  lemma ChainExample()
    ensures BuildRoot(map[97 := 1, 98 := 2, 99 := 4, 100 := 8])
         == Some(Internal(Internal(Internal(Leaf(97, 1), Leaf(98, 2), 3), Leaf(99, 4), 7), Leaf(100, 8), 15))
  {
    var es: seq<Entry> := [(97, 1), (98, 2), (99, 4), (100, 8)];
    ChainEntries();
    var a, b, c, d := Leaf(97, 1), Leaf(98, 2), Leaf(99, 4), Leaf(100, 8);
    assert Leaves(es) == [a, b, c, d];
    var ab := Internal(a, b, 3);
    var abc := Internal(ab, c, 7);
    var root := Internal(abc, d, 15);
    FirstStep(a, b, c, d);
    SecondStep(d, c, ab);
    LastStep(d, abc);
    assert Reduce([a, b, c, d]) == Reduce([d, c, ab]) == Reduce([d, abc]) == [root];
  }

  lemma ChainEntries()
    ensures Entries(map[97 := 1, 98 := 2, 99 := 4, 100 := 8]) == [(97, 1), (98, 2), (99, 4), (100, 8)]
  {
    SortedEntriesUnique(map[97 := 1, 98 := 2, 99 := 4, 100 := 8], [(97, 1), (98, 2), (99, 4), (100, 8)]);
  }

  lemma FirstStep(a: Node, b: Node, c: Node, d: Node)
    requires a.val == 1 && b.val == 2 && c.val == 4 && d.val == 8
    ensures Step([a, b, c, d]) == [d, c, Internal(a, b, 3)]
  {
    MinAt([a, b, c, d], 0);
    assert Swap([a, b, c, d], 0, 3) == [d, b, c, a];
    assert [d, b, c, a][..3] == [d, b, c];
    assert TakeMin([a, b, c, d]) == ([d, b, c], a);
    MinAt([d, b, c], 1);
    assert Swap([d, b, c], 1, 2) == [d, c, b];
    assert [d, c, b][..2] == [d, c];
    assert TakeMin([d, b, c]) == ([d, c], b);
  }

  lemma SecondStep(d: Node, c: Node, ab: Node)
    requires ab.val == 3 && c.val == 4 && d.val == 8
    ensures Step([d, c, ab]) == [d, Internal(ab, c, 7)]
  {
    MinAt([d, c, ab], 2);
    assert Swap([d, c, ab], 2, 2) == [d, c, ab];
    MinAt([d, c], 1);
    assert Swap([d, c], 1, 1) == [d, c];
  }

  lemma LastStep(d: Node, abc: Node)
    requires abc.val == 7 && d.val == 8
    ensures Step([d, abc]) == [Internal(abc, d, 15)]
  {
    MinAt([d, abc], 1);
    assert Swap([d, abc], 1, 1) == [d, abc];
    MinAt([d], 0);
    assert Swap([d], 0, 0) == [d];
  }

  lemma MinAt(s: seq<Node>, k: int)
    requires IsFirstMin(s, k)
    ensures MinIndex(s) == k
  {
    FirstMinUnique(s, k, MinIndex(s));
  }

  /** Keys are signed: the character -1 (byte 0xFF) comes before 1, so with
      equal weights it is the first minimum and becomes the left child. */
  lemma SignedOrderExample()
    ensures BuildRoot(map[1 := 5, -1 := 5]) == Some(Internal(Leaf(-1, 5), Leaf(1, 5), 10))
  {
    var es: seq<Entry> := [(-1, 5), (1, 5)];
    SignedEntries();
    var x, y := Leaf(-1, 5), Leaf(1, 5);
    assert Leaves(es) == [x, y];
    PairStep(x, y);
    assert Reduce([x, y]) == [Internal(x, y, 10)];
  }

  lemma SignedEntries()
    ensures Entries(map[1 := 5, -1 := 5]) == [(-1, 5), (1, 5)]
  {
    SortedEntriesUnique(map[1 := 5, -1 := 5], [(-1, 5), (1, 5)]);
  }

  /** Of two equal weights the first is the left child. */
  lemma PairStep(x: Node, y: Node)
    requires x.val == y.val
    ensures Step([x, y]) == [Internal(x, y, x.val + y.val)]
  {
    MinAt([x, y], 0);
    assert Swap([x, y], 0, 1) == [y, x];
    MinAt([y], 0);
    assert Swap([y], 0, 0) == [y];
  }
}
