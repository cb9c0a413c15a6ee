/**
 * createCode and the bit walk of decode: the code of a leaf is its path from the root, '0'
 * for a step to the left child and '1' for a step to the right one.
 */
module Codes {
  import opened Wrappers
  import opened Nodes
  import opened TextFormat

  /**
   * What createCode(n, code) puts into the codes map, in the order of its puts: the left
   * subtree's codes, then the right subtree's, then n's own entry when n is a leaf.
   */
  function CodeTable(n: HuffmanNode, code: string): map<char, string>
    decreases n
  {
    (if n.left.Some? then CodeTable(n.left.value, code + "0") else map[])
    + (if n.right.Some? then CodeTable(n.right.value, code + "1") else map[])
    + (if n.IsLeaf() then map[n.character := code] else map[])
  }

  /** The path from n down to the leaf holding c. */
  ghost function PathOf(n: HuffmanNode, c: char): string
    requires WellFormed(n) && c in LeafChars(n)
    decreases n
  {
    if n.IsLeaf() then []
    else if c in LeafChars(n.left.value) then "0" + PathOf(n.left.value, c)
    else "1" + PathOf(n.right.value, c)
  }

  /** The node reached from n by following bits, '0' to the left and anything else to the right. */
  function Descend(n: HuffmanNode, bits: string): Option<HuffmanNode>
    decreases |bits|
  {
    if bits == [] then Some(n)
    else
      var child := if bits[0] == '0' then n.left else n.right;
      if child.None? then None else Descend(child.value, bits[1..])
  }

  lemma DistinctSplit(a: seq<char>, b: seq<char>)
    requires Distinct(a + b)
    ensures Distinct(a) && Distinct(b)
    ensures forall c :: c in a ==> c !in b
  {
    var ab := a + b;
    forall i, j | 0 <= i < j < |a| ensures a[i] != a[j] {
      assert ab[i] == a[i] && ab[j] == a[j];
    }
    forall i, j | 0 <= i < j < |b| ensures b[i] != b[j] {
      assert ab[|a| + i] == b[i] && ab[|a| + j] == b[j];
    }
    forall i, j | 0 <= i < |a| && 0 <= j < |b| ensures a[i] != b[j] {
      assert ab[i] == a[i] && ab[|a| + j] == b[j];
    }
  }

  /** Subtrees of a well-formed tree with unique leaves are such trees too. */
  lemma Children(n: HuffmanNode)
    requires WellFormed(n) && UniqueLeaves(n) && !n.IsLeaf()
    ensures n.left.Some? && n.right.Some?
    ensures LeafChars(n) == LeafChars(n.left.value) + LeafChars(n.right.value)
    ensures UniqueLeaves(n.left.value) && UniqueLeaves(n.right.value)
    ensures forall c :: c in LeafChars(n.left.value) ==> c !in LeafChars(n.right.value)
  {
    DistinctSplit(LeafChars(n.left.value), LeafChars(n.right.value));
  }

  /** createCode records a code for exactly the leaves of n. */
  lemma {:induction false} CodeTableKeys(n: HuffmanNode, code: string)
    requires WellFormed(n)
    ensures forall c :: c in CodeTable(n, code) <==> c in LeafChars(n)
    decreases n
  {
    if !n.IsLeaf() {
      CodeTableKeys(n.left.value, code + "0");
      CodeTableKeys(n.right.value, code + "1");
    }
  }

  /** The code createCode records for leaf c is the prefix it started from followed by the path to c. */
  lemma {:induction false} CodeTableIsPath(n: HuffmanNode, code: string, c: char)
    requires WellFormed(n) && UniqueLeaves(n) && c in LeafChars(n)
    ensures c in CodeTable(n, code) && CodeTable(n, code)[c] == code + PathOf(n, c)
    decreases n
  {
    if n.IsLeaf() {
      assert CodeTable(n, code) == map[n.character := code];
    } else {
      Children(n);
      PathStep(n, c, code);
      var l, r := n.left.value, n.right.value;
      var lt, rt := CodeTable(l, code + "0"), CodeTable(r, code + "1");
      assert CodeTable(n, code) == lt + rt + map[];
      if c in LeafChars(l) {
        CodeTableIsPath(l, code + "0", c);
        CodeTableKeys(r, code + "1");
      } else {
        CodeTableIsPath(r, code + "1", c);
      }
    }
  }

  /** Both facts about createCode together, for every leaf. */
  lemma CodeTableIsPaths(n: HuffmanNode, code: string)
    requires WellFormed(n) && UniqueLeaves(n)
    ensures forall c :: c in CodeTable(n, code) <==> c in LeafChars(n)
    ensures forall c :: c in LeafChars(n) ==> CodeTable(n, code)[c] == code + PathOf(n, c)
  {
    CodeTableKeys(n, code);
    forall c | c in LeafChars(n) ensures CodeTable(n, code)[c] == code + PathOf(n, c) {
      CodeTableIsPath(n, code, c);
    }
  }

  lemma PathStep(n: HuffmanNode, c: char, code: string)
    requires WellFormed(n) && UniqueLeaves(n) && !n.IsLeaf() && c in LeafChars(n)
    ensures n.left.Some? && n.right.Some?
    ensures c in LeafChars(n.left.value) ==>
      code + PathOf(n, c) == (code + "0") + PathOf(n.left.value, c)
    ensures c !in LeafChars(n.left.value) ==>
      c in LeafChars(n.right.value) && code + PathOf(n, c) == (code + "1") + PathOf(n.right.value, c)
  {
  }

  /** The path to c leads from n to the leaf of c; every step is a '0' or a '1'. */
  lemma {:induction false} PathLeadsToLeaf(n: HuffmanNode, c: char)
    requires WellFormed(n) && c in LeafChars(n)
    ensures var leaf := Descend(n, PathOf(n, c));
      leaf.Some? && leaf.value.IsLeaf() && leaf.value.character == c
    ensures forall i :: 0 <= i < |PathOf(n, c)| ==> PathOf(n, c)[i] in "01"
    ensures n.IsLeaf() <==> PathOf(n, c) == []
    decreases n
  {
    if !n.IsLeaf() {
      var p := PathOf(n, c);
      if c in LeafChars(n.left.value) {
        PathLeadsToLeaf(n.left.value, c);
        assert p[1..] == PathOf(n.left.value, c);
      } else {
        PathLeadsToLeaf(n.right.value, c);
        assert p[1..] == PathOf(n.right.value, c);
      }
    }
  }

  /** Prefix-freedom: the path to one leaf never begins with the path to another. */
  lemma {:induction false} PathsPrefixFree(n: HuffmanNode, c: char, d: char)
    requires WellFormed(n) && UniqueLeaves(n)
    requires c in LeafChars(n) && d in LeafChars(n) && c != d
    ensures !(PathOf(n, c) <= PathOf(n, d))
    decreases n
  {
    if !n.IsLeaf() {
      Children(n);
      var l, r := n.left.value, n.right.value;
      var pc, pd := PathOf(n, c), PathOf(n, d);
      if c in LeafChars(l) && d in LeafChars(l) {
        PathsPrefixFree(l, c, d);
        assert pc[1..] == PathOf(l, c) && pd[1..] == PathOf(l, d);
      } else if c in LeafChars(r) && d in LeafChars(r) {
        PathsPrefixFree(r, c, d);
        assert pc[1..] == PathOf(r, c) && pd[1..] == PathOf(r, d);
      } else {
        assert pc[0] != pd[0];
      }
    }
  }

  /**
   * The codes createCode derives from the root are prefix-free, hence pairwise distinct, and
   * each is the root-to-leaf path of its character; a tree that is one leaf gets the empty
   * code, and in a larger tree every code is a non-empty string of '0' and '1'.
   */
  lemma CodesPrefixFree(root: HuffmanNode)
    requires WellFormed(root) && UniqueLeaves(root)
    ensures var codes := CodeTable(root, "");
      && (forall c :: c in codes <==> c in LeafChars(root))
      && (forall c, d :: c in codes && d in codes && c != d ==> !(codes[c] <= codes[d]))
      && (forall c :: c in codes ==>
            var leaf := Descend(root, codes[c]);
            leaf.Some? && leaf.value.IsLeaf() && leaf.value.character == c)
      && (root.IsLeaf() ==> codes == map[root.character := ""])
      && (!root.IsLeaf() ==> forall c :: c in codes ==>
            |codes[c]| >= 1 && forall i :: 0 <= i < |codes[c]| ==> codes[c][i] in "01")
  {
    var codes := CodeTable(root, "");
    CodeTableIsPaths(root, "");
    forall c | c in codes ensures codes[c] == PathOf(root, c) {
      assert "" + PathOf(root, c) == PathOf(root, c);
    }
    forall c, d | c in codes && d in codes && c != d ensures !(codes[c] <= codes[d]) {
      PathsPrefixFree(root, c, d);
    }
    forall c | c in codes
      ensures var leaf := Descend(root, codes[c]);
        leaf.Some? && leaf.value.IsLeaf() && leaf.value.character == c
      ensures !root.IsLeaf() ==> |codes[c]| >= 1
      ensures forall i :: 0 <= i < |codes[c]| ==> codes[c][i] in "01"
    {
      PathLeadsToLeaf(root, c);
    }
  }

  /** The bit string encode prints for text: the codes of its characters, in text order. */
  function Bits(codes: map<char, string>, text: string): string
    requires forall i :: 0 <= i < |text| ==> text[i] in codes
  {
    if text == [] then [] else Bits(codes, text[..|text| - 1]) + codes[text[|text| - 1]]
  }

  /**
   * The loop of decode from position pos of s: current is the node reached so far and root
   * the node a completed character returns to. The walk stops at the end-of-data mark.
   */
  function Walk(root: Option<HuffmanNode>, current: Option<HuffmanNode>, s: string, pos: nat,
                decoded: string): Result<string, Failure>
    decreases |s| - pos
  {
    if pos >= |s| then Err(NoMoreInput)
    else if s[pos] == Eof then Ok(decoded)
    else if current.None? then Err(NullNode)
    else
      var next := if s[pos] == '0' then current.value.left else current.value.right;
      if next.None? then Err(NullNode)
      else if next.value.IsLeaf() then Walk(root, root, s, pos + 1, decoded + [next.value.character])
      else Walk(root, next, s, pos + 1, decoded)
  }

  /**
   * Following the path to c from an internal node reaches c's leaf, emits c and resets: the
   * walk continues at position end, just past the path, with result, the output so far and c.
   */
  lemma {:induction false} WalkPath(root: Option<HuffmanNode>, m: HuffmanNode, c: char, s: string,
                                    pos: nat, end: nat, decoded: string, result: string)
    requires WellFormed(m) && !m.IsLeaf() && c in LeafChars(m)
    requires end == pos + |PathOf(m, c)| && end <= |s| && s[pos..end] == PathOf(m, c)
    requires result == decoded + [c]
    ensures Walk(root, Some(m), s, pos, decoded) == Walk(root, root, s, end, result)
    decreases m
  {
    var p := PathOf(m, c);
    assert s[pos] == p[0];
    var child := if c in LeafChars(m.left.value) then m.left.value else m.right.value;
    assert p[1..] == PathOf(child, c);
    if child.IsLeaf() {
      assert LeafChars(child) == [child.character];
    } else {
      assert s[pos + 1..end] == p[1..];
      WalkPath(root, child, c, s, pos + 1, end, decoded, result);
    }
  }

  /** A slice of s that reads b + p reads b and then p. */
  lemma SliceSplit(s: string, pos: nat, b: string, p: string)
    requires pos + |b| + |p| <= |s| && s[pos..pos + |b| + |p|] == b + p
    ensures s[pos..pos + |b|] == b
    ensures s[pos + |b|..pos + |b| + |p|] == p
  {
    assert s[pos..pos + |b|] == s[pos..pos + |b| + |p|][..|b|];
    assert s[pos + |b|..pos + |b| + |p|] == s[pos..pos + |b| + |p|][|b|..];
  }

  /** The codes of the characters of text are their paths in root. */
  ghost predicate CodesArePaths(root: HuffmanNode, codes: map<char, string>, text: string) {
    && WellFormed(root)
    && forall i :: 0 <= i < |text| ==>
         text[i] in LeafChars(root) && text[i] in codes && codes[text[i]] == PathOf(root, text[i])
  }

  lemma CodesArePathsInit(root: HuffmanNode, codes: map<char, string>, text: string)
    requires CodesArePaths(root, codes, text) && text != []
    ensures CodesArePaths(root, codes, text[..|text| - 1])
    ensures text[|text| - 1] in LeafChars(root) && text[|text| - 1] in codes
    ensures codes[text[|text| - 1]] == PathOf(root, text[|text| - 1])
  {
  }

  /**
   * Walking the concatenated codes of text from the root of a tree with two or more leaves
   * emits exactly text and ends back at the root.
   */
  lemma {:induction false} WalkBits(root: HuffmanNode, codes: map<char, string>, text: string,
                                    bits: string, s: string, pos: nat, decoded: string)
    requires CodesArePaths(root, codes, text) && !root.IsLeaf() && bits == Bits(codes, text)
    requires pos + |bits| <= |s| && s[pos..pos + |bits|] == bits
    ensures Walk(Some(root), Some(root), s, pos, decoded)
         == Walk(Some(root), Some(root), s, pos + |bits|, decoded + text)
    decreases |text|
  {
    if text == [] {
      assert decoded + text == decoded;
    } else {
      var init := text[..|text| - 1];
      var c := text[|text| - 1];
      var b := Bits(codes, init);
      var p := PathOf(root, c);
      BitsStep(root, codes, text, init, c, b, p);
      var q, end := pos + |b|, pos + |bits|;
      var after, result := decoded + init, decoded + text;
      SliceSplit(s, pos, b, p);
      AppendLast(decoded, text);
      WalkBits(root, codes, init, b, s, pos, decoded);
      WalkAppend(root, c, p, s, pos, q, end, decoded, after, result);
    }
  }

  /** The bits of a text are those of all but its last character, then that character's path. */
  lemma BitsStep(root: HuffmanNode, codes: map<char, string>, text: string, init: string, c: char,
                 b: string, p: string)
    requires CodesArePaths(root, codes, text) && text != []
    requires init == text[..|text| - 1] && c == text[|text| - 1]
    requires b == Bits(codes, init) && p == PathOf(root, c)
    ensures CodesArePaths(root, codes, init) && c in LeafChars(root)
    ensures Bits(codes, text) == b + p
  {
    CodesArePathsInit(root, codes, text);
  }

  lemma AppendLast(decoded: string, text: string)
    requires text != []
    ensures decoded + text == (decoded + text[..|text| - 1]) + [text[|text| - 1]]
  {
    assert text == text[..|text| - 1] + [text[|text| - 1]];
  }

  /** One more code after a walk that has emitted after continues it with c. */
  lemma WalkAppend(root: HuffmanNode, c: char, p: string, s: string, pos: nat, q: nat, end: nat,
                   before: string, after: string, result: string)
    requires WellFormed(root) && !root.IsLeaf() && c in LeafChars(root) && p == PathOf(root, c)
    requires pos <= q && end == q + |p| && end <= |s| && s[q..end] == p
    requires result == after + [c]
    requires Walk(Some(root), Some(root), s, pos, before) == Walk(Some(root), Some(root), s, q, after)
    ensures Walk(Some(root), Some(root), s, pos, before) == Walk(Some(root), Some(root), s, end, result)
  {
    WalkPath(Some(root), root, c, s, q, end, after, result);
  }

  /**
   * The stream encode writes, the codes createCode derived from root followed by the
   * end-of-data mark, is decoded back to text by the walk, when root has two or more leaves.
   */
  lemma DecodeBits(root: HuffmanNode, text: string, bits: string, s: string, pos: nat, end: nat)
    requires WellFormed(root) && UniqueLeaves(root) && !root.IsLeaf()
    requires forall i :: 0 <= i < |text| ==> text[i] in CodeTable(root, "")
    requires bits == Bits(CodeTable(root, ""), text) && end == pos + |bits|
    requires end < |s| && s[pos..end] == bits && s[end] == Eof
    ensures Walk(Some(root), Some(root), s, pos, "") == Ok(text)
  {
    var codes := CodeTable(root, "");
    CodesAreTreePaths(root, text);
    WalkBits(root, codes, text, bits, s, pos, "");
    assert "" + text == text;
  }

  /** The code table of a tree with unique leaves gives every character its path. */
  lemma CodesAreTreePaths(root: HuffmanNode, text: string)
    requires WellFormed(root) && UniqueLeaves(root)
    requires forall i :: 0 <= i < |text| ==> text[i] in CodeTable(root, "")
    ensures CodesArePaths(root, CodeTable(root, ""), text)
  {
    var codes := CodeTable(root, "");
    CodeTableKeys(root, "");
    forall i | 0 <= i < |text| ensures codes[text[i]] == PathOf(root, text[i]) {
      CodeTableIsPath(root, "", text[i]);
      assert "" + PathOf(root, text[i]) == PathOf(root, text[i]);
    }
  }
}
