/** The node of a Huffman tree: a character, a frequency and two optional children. */
module Nodes {
  import opened Wrappers

  /** A 32-bit Java int. */
  predicate InInt32(x: int) {
    -0x8000_0000 <= x <= 0x7fff_ffff
  }

  /**
   * A tree node exactly as the Java object holds it: the children are absent (null) or present.
   * The datatype constructor stores its four arguments unchanged, and the destructors
   * character, frequency, left and right are the getters.
   */
  datatype HuffmanNode = HuffmanNode(character: char, frequency: int,
                                     left: Option<HuffmanNode>, right: Option<HuffmanNode>)
  {
    /** A leaf has no children at all. */
    predicate IsLeaf() {
      left.None? && right.None?
    }

    function SetCharacter(c: char): (r: HuffmanNode)
      ensures r.character == c
      ensures r.frequency == frequency && r.left == left && r.right == right
    {
      this.(character := c)
    }

    function SetFrequency(f: int): (r: HuffmanNode)
      ensures r.frequency == f
      ensures r.character == character && r.left == left && r.right == right
    {
      this.(frequency := f)
    }

    function SetLeft(l: Option<HuffmanNode>): (r: HuffmanNode)
      ensures r.left == l
      ensures r.character == character && r.frequency == frequency && r.right == right
    {
      this.(left := l)
    }

    function SetRight(n: Option<HuffmanNode>): (r: HuffmanNode)
      ensures r.right == n
      ensures r.character == character && r.frequency == frequency && r.left == left
    {
      this.(right := n)
    }

    /**
     * Comparable.compareTo: the difference of the two frequencies. Only the frequencies take
     * part, so two nodes of equal frequency are a tie whatever their characters and children.
     * Java's int subtraction wraps; the model is restricted to differences that fit in 32 bits.
     */
    function CompareTo(that: HuffmanNode): (r: int)
      requires InInt32(frequency - that.frequency)
      ensures r < 0 <==> frequency < that.frequency
      ensures r == 0 <==> frequency == that.frequency
      ensures r > 0 <==> frequency > that.frequency
    {
      frequency - that.frequency
    }
  }

  function Leaf(c: char, f: int): (n: HuffmanNode)
    ensures n.IsLeaf() && n.character == c && n.frequency == f
  {
    HuffmanNode(c, f, None, None)
  }

  /** The internal node buildTree creates: placeholder character '*', summed weight. */
  function Merged(l: HuffmanNode, r: HuffmanNode): (n: HuffmanNode)
    ensures !n.IsLeaf() && n.left == Some(l) && n.right == Some(r)
    ensures n.frequency == l.frequency + r.frequency
  {
    HuffmanNode('*', l.frequency + r.frequency, Some(l), Some(r))
  }

  lemma CompareToAntisymmetric(a: HuffmanNode, b: HuffmanNode)
    requires InInt32(a.frequency - b.frequency) && InInt32(b.frequency - a.frequency)
    ensures a.CompareTo(b) == -b.CompareTo(a)
  {
  }

  lemma CompareToTransitive(a: HuffmanNode, b: HuffmanNode, c: HuffmanNode)
    requires InInt32(a.frequency - b.frequency) && InInt32(b.frequency - c.frequency)
    requires InInt32(a.frequency - c.frequency)
    requires a.CompareTo(b) <= 0 && b.CompareTo(c) <= 0
    ensures a.CompareTo(c) <= 0
  {
  }

  /**
   * A tree as buildTree makes it: every node has zero or two children, and an internal
   * node weighs what its two children weigh together.
   */
  ghost predicate WellFormed(n: HuffmanNode)
    decreases n
  {
    || n.IsLeaf()
    || (&& n.left.Some? && n.right.Some?
        && n.frequency == n.left.value.frequency + n.right.value.frequency
        && WellFormed(n.left.value) && WellFormed(n.right.value))
  }

  /** The characters at the leaves, left to right. */
  ghost function LeafChars(n: HuffmanNode): seq<char>
    decreases n
  {
    if n.IsLeaf() then [n.character]
    else
      (if n.left.Some? then LeafChars(n.left.value) else [])
      + (if n.right.Some? then LeafChars(n.right.value) else [])
  }

  ghost function InternalCount(n: HuffmanNode): nat
    decreases n
  {
    if n.IsLeaf() then 0
    else
      1 + (if n.left.Some? then InternalCount(n.left.value) else 0)
        + (if n.right.Some? then InternalCount(n.right.value) else 0)
  }

  /** Every leaf carries the count that counts records for its character. */
  ghost predicate LeavesAgree(n: HuffmanNode, counts: map<char, int>)
    decreases n
  {
    if n.IsLeaf() then n.character in counts && counts[n.character] == n.frequency
    else
      (n.left.Some? ==> LeavesAgree(n.left.value, counts))
      && (n.right.Some? ==> LeavesAgree(n.right.value, counts))
  }

  ghost predicate Distinct(s: seq<char>) {
    forall i, j :: 0 <= i < j < |s| ==> s[i] != s[j]
  }

  /** No character sits at two leaves. */
  ghost predicate UniqueLeaves(n: HuffmanNode) {
    Distinct(LeafChars(n))
  }

  /** A full binary tree has one more leaf than it has internal nodes. */
  lemma {:induction false} LeavesOutnumberInternal(n: HuffmanNode)
    requires WellFormed(n)
    ensures |LeafChars(n)| == InternalCount(n) + 1
    decreases n
  {
    if !n.IsLeaf() {
      LeavesOutnumberInternal(n.left.value);
      LeavesOutnumberInternal(n.right.value);
    }
  }
}
