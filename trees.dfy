/**
 * buildTree: a leaf per table entry goes into a min-priority queue, and the two least nodes are
 * merged until one is left. The queue is a sequence in insertion order; remove() hands out a
 * node of least frequency, the earliest-inserted one among equals, which fixes the tie-break.
 */
module Trees {
  import opened Wrappers
  import opened Nodes
  import opened Frequencies

  /** Where PriorityQueue.remove takes its node from: least frequency, earliest among ties. */
  function MinIndex(q: seq<HuffmanNode>): (i: nat)
    requires |q| > 0
    ensures i < |q|
    ensures forall j :: 0 <= j < |q| ==> q[i].frequency <= q[j].frequency
    ensures forall j :: 0 <= j < i ==> q[i].frequency < q[j].frequency
  {
    if |q| == 1 then 0
    else
      var k := MinIndex(q[..|q| - 1]);
      if q[|q| - 1].frequency < q[k].frequency then |q| - 1 else k
  }

  function RemoveAt(q: seq<HuffmanNode>, i: nat): (r: seq<HuffmanNode>)
    requires i < |q|
    ensures |r| == |q| - 1
    ensures forall x :: x in r ==> x in q
  {
    q[..i] + q[i + 1..]
  }

  /** One round of the merge loop: the first node removed is the left child, the second the right. */
  function MergeStep(q: seq<HuffmanNode>): (r: seq<HuffmanNode>)
    requires |q| >= 2
    ensures |r| == |q| - 1
  {
    var i := MinIndex(q);
    var q1 := RemoveAt(q, i);
    var j := MinIndex(q1);
    RemoveAt(q1, j) + [Merged(q[i], q1[j])]
  }

  /** The node left once the merge loop has run on queue q. */
  function Huffman(q: seq<HuffmanNode>): HuffmanNode
    requires |q| >= 1
    decreases |q|
  {
    if |q| == 1 then q[0] else Huffman(MergeStep(q))
  }

  /** The queue after the fill loop: one leaf per key, in key order. */
  function Forest(ks: seq<char>, m: map<char, int>): (q: seq<HuffmanNode>)
    requires forall k :: k in ks ==> k in m
    ensures |q| == |ks|
  {
    if ks == [] then [] else Forest(ks[..|ks| - 1], m) + [Leaf(ks[|ks| - 1], m[ks[|ks| - 1]])]
  }

  /** buildTree on table t; with no entries the final queue.remove() throws. */
  function BuildTree(t: Table): Result<HuffmanNode, Failure>
    requires t.Valid()
  {
    if t.keys == [] then Err(EmptyQueue) else Ok(Huffman(Forest(t.keys, t.counts)))
  }

  /**
   * A round of the merge loop removes the least node and then the least of the rest, makes the
   * first the left and the second the right child of a new node of their summed weight, keeps
   * every other node, and appends the new node.
   */
  lemma MergeStepGreedy(q: seq<HuffmanNode>)
    requires |q| >= 2
    ensures var r := MergeStep(q);
      var n := r[|r| - 1];
      var rest := r[..|r| - 1];
      && n.left.Some? && n.right.Some?
      && n.frequency == n.left.value.frequency + n.right.value.frequency
      && n.left.value.frequency <= n.right.value.frequency
      && (forall x :: x in rest ==> n.right.value.frequency <= x.frequency)
      && multiset(rest) + multiset{n.left.value, n.right.value} == multiset(q)
  {
    var i := MinIndex(q);
    var q1 := RemoveAt(q, i);
    var j := MinIndex(q1);
    var rest := RemoveAt(q1, j);
    var n := Merged(q[i], q1[j]);
    var r := MergeStep(q);
    assert r == rest + [n];
    assert r[..|r| - 1] == rest && r[|r| - 1] == n;
    assert q1[j] in q;
    RemoveAtMultiset(q, i);
    RemoveAtMultiset(q1, j);
    RestAtLeast(q1, j);
  }

  /** Removing the node at i takes exactly that node out of the queue's multiset. */
  lemma RemoveAtMultiset(q: seq<HuffmanNode>, i: nat)
    requires i < |q|
    ensures multiset(q) == multiset(RemoveAt(q, i)) + multiset{q[i]}
  {
    assert q == q[..i] + [q[i]] + q[i + 1..];
  }

  /** Every node left after removing the least one weighs at least as much as it. */
  lemma RestAtLeast(q: seq<HuffmanNode>, j: nat)
    requires |q| > 0 && j == MinIndex(q)
    ensures forall x :: x in RemoveAt(q, j) ==> q[j].frequency <= x.frequency
  {
    forall x | x in RemoveAt(q, j) ensures q[j].frequency <= x.frequency {
      var k :| 0 <= k < |q| && q[k] == x;
    }
  }

  /** The leaf characters of a queue, tree after tree. */
  ghost function ForestChars(q: seq<HuffmanNode>): seq<char> {
    if q == [] then [] else ForestChars(q[..|q| - 1]) + LeafChars(q[|q| - 1])
  }

  /** The total weight of a queue. */
  ghost function ForestWeight(q: seq<HuffmanNode>): int {
    if q == [] then 0 else ForestWeight(q[..|q| - 1]) + q[|q| - 1].frequency
  }

  lemma {:induction false} ForestConcat(a: seq<HuffmanNode>, b: seq<HuffmanNode>)
    ensures ForestChars(a + b) == ForestChars(a) + ForestChars(b)
    ensures ForestWeight(a + b) == ForestWeight(a) + ForestWeight(b)
    decreases |b|
  {
    if b == [] {
      assert a + b == a;
    } else {
      var init := b[..|b| - 1];
      var ab := a + b;
      assert ab[..|ab| - 1] == a + init;
      ForestConcat(a, init);
    }
  }

  lemma RemoveAtForest(q: seq<HuffmanNode>, i: nat)
    requires i < |q|
    ensures multiset(ForestChars(q)) == multiset(ForestChars(RemoveAt(q, i))) + multiset(LeafChars(q[i]))
    ensures ForestWeight(q) == ForestWeight(RemoveAt(q, i)) + q[i].frequency
  {
    var a, x, b := q[..i], q[i], q[i + 1..];
    assert q == a + ([x] + b);
    assert RemoveAt(q, i) == a + b;
    SplitForest(a, x, b);
  }

  /** The leaves and weight of a + [x] + b are those of a and b with x's added. */
  lemma SplitForest(a: seq<HuffmanNode>, x: HuffmanNode, b: seq<HuffmanNode>)
    ensures multiset(ForestChars(a + ([x] + b))) == multiset(ForestChars(a + b)) + multiset(LeafChars(x))
    ensures ForestWeight(a + ([x] + b)) == ForestWeight(a + b) + x.frequency
  {
    ForestConcat(a, [x] + b);
    ForestConcat([x], b);
    ForestConcat(a, b);
    SingleForest(x);
    var fa, fx, fb := ForestChars(a), LeafChars(x), ForestChars(b);
    assert ForestChars(a + ([x] + b)) == fa + (fx + fb);
    ThreeParts(fa, fx, fb);
  }

  lemma SingleForest(x: HuffmanNode)
    ensures ForestChars([x]) == LeafChars(x) && ForestWeight([x]) == x.frequency
  {
    assert [x][..0] == [];
  }

  /** A round of merging keeps the leaves, the total weight and the shape of every tree. */
  lemma MergeStepPreserves(q: seq<HuffmanNode>, counts: map<char, int>)
    requires |q| >= 2
    requires forall x :: x in q ==> WellFormed(x) && LeavesAgree(x, counts)
    ensures var r := MergeStep(q);
      && multiset(ForestChars(r)) == multiset(ForestChars(q))
      && ForestWeight(r) == ForestWeight(q)
      && (forall x :: x in r ==> WellFormed(x) && LeavesAgree(x, counts))
  {
    MergeStepForest(q);
    MergeStepTrees(q, counts);
  }

  /** A round of merging keeps the multiset of leaves and the total weight of the queue. */
  lemma MergeStepForest(q: seq<HuffmanNode>)
    requires |q| >= 2
    ensures multiset(ForestChars(MergeStep(q))) == multiset(ForestChars(q))
    ensures ForestWeight(MergeStep(q)) == ForestWeight(q)
  {
    var i := MinIndex(q);
    var j := MinIndex(RemoveAt(q, i));
    assert MergeStep(q) == RemoveAt(RemoveAt(q, i), j) + [Merged(q[i], RemoveAt(q, i)[j])];
    MergeAnyTwo(q, i, j);
  }

  /** Taking out any two trees and appending their merge keeps the leaves and the weight. */
  lemma MergeAnyTwo(q: seq<HuffmanNode>, i: nat, j: nat)
    requires i < |q| && j < |q| - 1
    ensures var q1 := RemoveAt(q, i);
      var r := RemoveAt(q1, j) + [Merged(q[i], q1[j])];
      && multiset(ForestChars(r)) == multiset(ForestChars(q))
      && ForestWeight(r) == ForestWeight(q)
  {
    var q1 := RemoveAt(q, i);
    var q2 := RemoveAt(q1, j);
    var l, rt := q[i], q1[j];
    var n := Merged(l, rt);
    RemoveAtForest(q, i);
    RemoveAtForest(q1, j);
    AppendForest(q2, n);
    MergedLeaves(l, rt);
    ThreeParts(ForestChars(q2), LeafChars(l), LeafChars(rt));
  }

  lemma ThreeParts(a: seq<char>, b: seq<char>, c: seq<char>)
    ensures multiset(a + (b + c)) == multiset(a) + multiset(b) + multiset(c)
  {
  }

  /** A round of merging keeps every tree of the queue well formed and agreeing with counts. */
  lemma MergeStepTrees(q: seq<HuffmanNode>, counts: map<char, int>)
    requires |q| >= 2
    requires forall x :: x in q ==> WellFormed(x) && LeavesAgree(x, counts)
    ensures forall x :: x in MergeStep(q) ==> WellFormed(x) && LeavesAgree(x, counts)
  {
    var i := MinIndex(q);
    var q1 := RemoveAt(q, i);
    var j := MinIndex(q1);
    var q2 := RemoveAt(q1, j);
    assert MergeStep(q) == q2 + [Merged(q[i], q1[j])];
    assert q1[j] in q;
    MergedWellFormed(q[i], q1[j], counts);
    AppendKeeps(q2, Merged(q[i], q1[j]), counts);
  }

  /** Appending a well-formed tree to a queue of well-formed trees keeps them all well formed. */
  lemma AppendKeeps(q: seq<HuffmanNode>, n: HuffmanNode, counts: map<char, int>)
    requires forall x :: x in q ==> WellFormed(x) && LeavesAgree(x, counts)
    requires WellFormed(n) && LeavesAgree(n, counts)
    ensures forall x :: x in q + [n] ==> WellFormed(x) && LeavesAgree(x, counts)
  {
  }

  /** Appending a tree to a queue appends its leaves and adds its weight. */
  lemma AppendForest(q: seq<HuffmanNode>, n: HuffmanNode)
    ensures ForestChars(q + [n]) == ForestChars(q) + LeafChars(n)
    ensures ForestWeight(q + [n]) == ForestWeight(q) + n.frequency
  {
    assert (q + [n])[..|q|] == q;
  }

  /** A merged node's leaves are its left child's followed by its right child's. */
  lemma MergedLeaves(l: HuffmanNode, r: HuffmanNode)
    ensures LeafChars(Merged(l, r)) == LeafChars(l) + LeafChars(r)
  {
  }

  /** Merging two well-formed trees that agree with the counts gives another such tree. */
  lemma MergedWellFormed(l: HuffmanNode, r: HuffmanNode, counts: map<char, int>)
    requires WellFormed(l) && LeavesAgree(l, counts) && WellFormed(r) && LeavesAgree(r, counts)
    ensures WellFormed(Merged(l, r)) && LeavesAgree(Merged(l, r), counts)
  {
  }

  /**
   * The merge loop ends with a single tree that is well formed, holds exactly the leaves of the
   * queue it started from and weighs their total; from two or more nodes the result is internal.
   */
  lemma {:induction false} HuffmanProperties(q: seq<HuffmanNode>, counts: map<char, int>)
    requires |q| >= 1
    requires forall x :: x in q ==> WellFormed(x) && LeavesAgree(x, counts)
    ensures var root := Huffman(q);
      && WellFormed(root) && LeavesAgree(root, counts)
      && multiset(LeafChars(root)) == multiset(ForestChars(q))
      && root.frequency == ForestWeight(q)
      && (|q| >= 2 ==> !root.IsLeaf())
    decreases |q|
  {
    if |q| == 1 {
      assert q[..0] == [];
      assert q[0] in q;
    } else {
      MergeStepPreserves(q, counts);
      var r := MergeStep(q);
      HuffmanProperties(r, counts);
      if |r| == 1 {
        MergeStepGreedy(q);
      }
    }
  }

  lemma {:induction false} ForestOfTable(ks: seq<char>, m: map<char, int>)
    requires forall k :: k in ks ==> k in m
    ensures ForestChars(Forest(ks, m)) == ks
    ensures ForestWeight(Forest(ks, m)) == SumOver(ks, m)
    ensures forall x :: x in Forest(ks, m) ==> WellFormed(x) && LeavesAgree(x, m)
  {
    if ks != [] {
      var init, c := ks[..|ks| - 1], ks[|ks| - 1];
      assert ks == init + [c];
      assert forall k :: k in init ==> k in ks;
      ForestOfTable(init, m);
      var p, leaf := Forest(init, m), Leaf(c, m[c]);
      assert Forest(ks, m) == p + [leaf];
      AppendForest(p, leaf);
      AppendKeeps(p, leaf, m);
    }
  }

  lemma {:induction false} DistinctCount(s: seq<char>, x: char)
    requires Distinct(s)
    ensures multiset(s)[x] <= 1
  {
    if s != [] {
      var init := s[..|s| - 1];
      assert s == init + [s[|s| - 1]];
      DistinctCount(init, x);
      if s[|s| - 1] == x {
        assert x !in init by {
          forall i | 0 <= i < |init| ensures init[i] != x {
            assert s[i] != s[|s| - 1];
          }
        }
      }
    }
  }

  lemma DistinctByMultiset(a: seq<char>, b: seq<char>)
    requires multiset(a) == multiset(b) && Distinct(b)
    ensures Distinct(a)
  {
    forall i, j | 0 <= i < j < |a| ensures a[i] != a[j] {
      if a[i] == a[j] {
        assert a == a[..i] + [a[i]] + a[i + 1..j] + [a[j]] + a[j + 1..];
        assert multiset(a)[a[i]] >= 2;
        DistinctCount(b, a[i]);
        assert false;
      }
    }
  }

  /**
   * buildTree fails exactly on an empty table. Otherwise the root is a well-formed tree with
   * one leaf per table entry, carrying that entry's count, no character twice, |keys| - 1
   * merged nodes, and the sum of all counts as its weight; two or more entries give an
   * internal root.
   */
  lemma BuildTreeCorrect(t: Table)
    requires t.Valid()
    ensures BuildTree(t).Err? <==> t.keys == []
    ensures BuildTree(t).Ok? ==>
      var root := BuildTree(t).value;
      && WellFormed(root)
      && multiset(LeafChars(root)) == multiset(t.keys)
      && UniqueLeaves(root)
      && LeavesAgree(root, t.counts)
      && InternalCount(root) == |t.keys| - 1
      && root.frequency == Sum(t)
      && (|t.keys| >= 2 ==> !root.IsLeaf())
  {
    if t.keys != [] {
      var root := BuildTree(t).value;
      ForestOfTable(t.keys, t.counts);
      HuffmanProperties(Forest(t.keys, t.counts), t.counts);
      DistinctByMultiset(LeafChars(root), t.keys);
      LeavesOutnumberInternal(root);
      assert |LeafChars(root)| == |multiset(LeafChars(root))|;
    }
  }
}
