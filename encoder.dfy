/**
 * The HuffmanEncoder object: its frequency table, priority queue, code map and root node are
 * fields that encode and decode update in place, step by step, as the source's loops do.
 */
module Encoder {
  import opened Wrappers
  import opened Nodes
  import opened Frequencies
  import opened Trees
  import opened TextFormat
  import opened Codes
  import opened Codec

  class HuffmanEncoder {
    var frequencyTable: Table
    var queue: seq<HuffmanNode>
    var codes: map<char, string>
    var rootNode: Option<HuffmanNode>

    /** Between calls the table is well formed and the queue has been drained by buildTree. */
    ghost predicate Valid()
      reads this
    {
      frequencyTable.Valid() && queue == []
    }

    /** A new encoder: empty table, queue and code map, and no tree yet. */
    constructor ()
      ensures Valid()
      ensures frequencyTable == EmptyTable && queue == [] && codes == map[] && rootNode == None
    {
      frequencyTable := EmptyTable;
      queue := [];
      codes := map[];
      rootNode := None;
    }

    /**
     * analyseFrequencies: every character of plainText adds one to its count in the table, a
     * new character entering with count 1. The table is not cleared first.
     */
    method AnalyseFrequencies(plainText: string)
      requires frequencyTable.Valid()
      modifies this
      ensures frequencyTable == CountInto(old(frequencyTable), plainText)
      ensures queue == old(queue) && codes == old(codes) && rootNode == old(rootNode)
    {
      var i := 0;
      while i < |plainText|
        invariant 0 <= i <= |plainText|
        invariant frequencyTable == CountInto(old(frequencyTable), plainText[..i])
        invariant queue == old(queue) && codes == old(codes) && rootNode == old(rootNode)
      {
        var c := plainText[i];
        assert plainText[..i + 1][..i] == plainText[..i];
        if c !in frequencyTable.counts {
          frequencyTable := Put(frequencyTable, c, 1);
        } else {
          frequencyTable := Put(frequencyTable, c, frequencyTable.counts[c] + 1);
        }
        i := i + 1;
      }
      assert plainText[..i] == plainText;
    }

    /** PriorityQueue.remove: takes out the earliest of the nodes of least frequency. */
    method RemoveMin() returns (n: HuffmanNode)
      requires |queue| >= 1
      modifies this
      ensures n == old(queue)[MinIndex(old(queue))]
      ensures forall k :: 0 <= k < |old(queue)| ==> n.frequency <= old(queue)[k].frequency
      ensures queue == RemoveAt(old(queue), MinIndex(old(queue)))
      ensures frequencyTable == old(frequencyTable) && codes == old(codes) && rootNode == old(rootNode)
    {
      var i := MinIndex(queue);
      n := queue[i];
      queue := RemoveAt(queue, i);
    }

    /**
     * buildTree: one leaf per table entry goes into the queue, then the two least nodes are
     * merged, the first removed on the left, until one node is left, which is removed and
     * returned; an empty table makes that last remove fail. merges counts the merge rounds.
     */
    method BuildTree() returns (r: Result<HuffmanNode, Failure>, ghost merges: nat)
      requires Valid()
      modifies this
      ensures Valid()
      ensures r == Trees.BuildTree(frequencyTable)
      ensures r.Ok? ==> merges == |frequencyTable.keys| - 1
      ensures frequencyTable == old(frequencyTable) && codes == old(codes) && rootNode == old(rootNode)
    {
      var keys := frequencyTable.keys;
      var counts := frequencyTable.counts;
      var i := 0;
      while i < |keys|
        invariant 0 <= i <= |keys|
        invariant queue == Forest(keys[..i], counts)
        invariant frequencyTable == old(frequencyTable) && codes == old(codes) && rootNode == old(rootNode)
      {
        assert keys[..i + 1][..i] == keys[..i];
        queue := queue + [Leaf(keys[i], counts[keys[i]])];
        i := i + 1;
      }
      assert keys[..i] == keys;
      ghost var forest := queue;
      merges := 0;
      while |queue| > 1
        invariant |queue| >= 1 ==> Huffman(queue) == Huffman(forest)
        invariant |queue| >= 1 <==> |keys| >= 1
        invariant merges + |queue| == |keys|
        invariant frequencyTable == old(frequencyTable) && codes == old(codes) && rootNode == old(rootNode)
        decreases |queue|
      {
        ghost var before := queue;
        var left := RemoveMin();
        var right := RemoveMin();
        queue := queue + [Merged(left, right)];
        assert queue == MergeStep(before);
        merges := merges + 1;
      }
      if queue == [] {
        r := Err(EmptyQueue);
      } else {
        var root := RemoveMin();
        r := Ok(root);
      }
    }

    /**
     * createCode: the left subtree is coded with '0' appended, the '0' is taken off again,
     * the right subtree is coded with '1' appended, and a leaf records its code.
     */
    method CreateCode(node: HuffmanNode, code: string)
      modifies this
      ensures codes == old(codes) + CodeTable(node, code)
      ensures frequencyTable == old(frequencyTable) && queue == old(queue) && rootNode == old(rootNode)
      decreases node
    {
      ghost var lt := if node.left.Some? then CodeTable(node.left.value, code + "0") else map[];
      ghost var rt := if node.right.Some? then CodeTable(node.right.value, code + "1") else map[];
      ghost var own := if node.IsLeaf() then map[node.character := code] else map[];
      var current := code;
      if node.left.Some? {
        current := current + "0";
        CreateCode(node.left.value, current);
        assert current[..|current| - 1] == code;
        current := current[..|current| - 1];
      }
      assert codes == old(codes) + lt;
      if node.right.Some? {
        current := current + "1";
        CreateCode(node.right.value, current);
      }
      assert codes == (old(codes) + lt) + rt;
      if node.IsLeaf() {
        codes := codes[node.character := current];
      }
      assert codes == ((old(codes) + lt) + rt) + own;
      assert CodeTable(node, code) == (lt + rt) + own;
      UnionAssociates(old(codes), lt, rt, own);
    }

    /** Map union is associative, so the codes createCode adds can be collected first. */
    static lemma UnionAssociates(a: map<char, string>, b: map<char, string>, c: map<char, string>, d: map<char, string>)
      ensures ((a + b) + c) + d == a + ((b + c) + d)
    {
    }

    /** calculateCodes: createCode from the root with the empty code. */
    method CalculateCodes()
      requires rootNode.Some?
      modifies this
      ensures rootNode.Some? && codes == old(codes) + CodeTable(rootNode.value, "")
      ensures frequencyTable == old(frequencyTable) && queue == old(queue) && rootNode == old(rootNode)
    {
      CreateCode(rootNode.value, "");
    }

    /**
     * The header lines encode prints: the magic number, one "c|count" line per table entry in
     * key order, and the start-of-data line.
     */
    method WriteHeader() returns (out: string)
      requires frequencyTable.Valid()
      ensures out == HeaderText(frequencyTable)
    {
      var keys := frequencyTable.keys;
      var counts := frequencyTable.counts;
      var entries := "";
      var i := 0;
      while i < |keys|
        invariant 0 <= i <= |keys|
        invariant entries == EntryLines(keys[..i], counts)
      {
        assert keys[..i + 1] == keys[..i] + [keys[i]];
        EntryLinesSnoc(keys[..i], keys[i], counts);
        entries := entries + (EntryLine(keys[i], counts[keys[i]]) + "\n");
        i := i + 1;
      }
      assert keys[..i] == keys;
      out := (IntToString(MagicNumber) + "\n") + (entries + (StartOfData + "\n"));
    }

    /** The bits encode prints: the code of each character of plainText in turn. */
    method WriteBits(plainText: string, ghost table: map<char, string>) returns (out: string)
      requires forall i :: 0 <= i < |plainText| ==> plainText[i] in table
      requires forall c :: c in table ==> c in codes && codes[c] == table[c]
      ensures out == Bits(table, plainText)
    {
      out := "";
      var j := 0;
      while j < |plainText|
        invariant 0 <= j <= |plainText|
        invariant out == Bits(table, plainText[..j])
      {
        assert plainText[..j + 1][..j] == plainText[..j];
        out := out + codes[plainText[j]];
        j := j + 1;
      }
      assert plainText[..j] == plainText;
    }

    /**
     * encode: counts plainText into the table, builds the tree into rootNode, derives the
     * codes, and returns what it writes: the header, the code of each character of plainText
     * and the end mark. An empty table makes buildTree fail before anything is written.
     */
    method Encode(plainText: string) returns (r: Result<string, Failure>)
      requires Valid()
      modifies this
      ensures Valid()
      ensures frequencyTable == CountInto(old(frequencyTable), plainText)
      ensures forall i :: 0 <= i < |plainText| ==> plainText[i] in frequencyTable.counts
      ensures r == EncodeFile(frequencyTable, plainText)
      ensures r.Ok? ==> Trees.BuildTree(frequencyTable).Ok? && rootNode == Some(Trees.BuildTree(frequencyTable).value)
      ensures r.Ok? ==> codes == old(codes) + CodeTable(rootNode.value, "")
      ensures r.Err? ==> rootNode == old(rootNode) && codes == old(codes)
    {
      CountIntoCounts(frequencyTable, plainText);
      AnalyseFrequencies(plainText);
      ghost var merges;
      var tree;
      tree, merges := BuildTree();
      if tree.Err? {
        return Err(tree.error);
      }
      rootNode := Some(tree.value);
      CalculateCodes();
      TreeCoversTable(frequencyTable);
      ghost var table := CodeTable(tree.value, "");
      var header := WriteHeader();
      var bits := WriteBits(plainText, table);
      r := Ok(header + (bits + ([Eof] + "\n")));
    }

    /** parseHuffmanCode: the entry a "c|count" line describes is put into the table. */
    method ParseHuffmanCode(charCodePair: string) returns (r: Result<(), Failure>)
      requires frequencyTable.Valid()
      modifies this
      ensures frequencyTable.Valid()
      ensures ParseEntry(charCodePair).Err? ==> r == Err(ParseEntry(charCodePair).error)
      ensures ParseEntry(charCodePair).Err? ==> frequencyTable == old(frequencyTable)
      ensures ParseEntry(charCodePair).Ok? ==>
        r == Ok(()) && frequencyTable == Put(old(frequencyTable), ParseEntry(charCodePair).value.0,
                                             ParseEntry(charCodePair).value.1)
      ensures queue == old(queue) && codes == old(codes) && rootNode == old(rootNode)
    {
      var entry := ParseEntry(charCodePair);
      if entry.Err? {
        return Err(entry.error);
      }
      frequencyTable := Put(frequencyTable, entry.value.0, entry.value.1);
      r := Ok(());
    }

    /**
     * The table loop of decode: from position start, each line up to the start-of-data line is
     * parsed into the table; r is the position after the start-of-data line.
     */
    method ReadTableLines(file: string, start: nat) returns (r: Result<nat, Failure>)
      requires start <= |file| && frequencyTable.Valid()
      modifies this
      ensures frequencyTable.Valid()
      ensures r.Ok? ==> ReadTable(file, start, old(frequencyTable)) == Ok((frequencyTable, r.value))
      ensures r.Err? ==> ReadTable(file, start, old(frequencyTable)) == Err(r.error)
      ensures queue == old(queue) && codes == old(codes) && rootNode == old(rootNode)
    {
      var at := start;
      while true
        invariant at <= |file| && frequencyTable.Valid()
        invariant ReadTable(file, at, frequencyTable) == ReadTable(file, start, old(frequencyTable))
        invariant queue == old(queue) && codes == old(codes) && rootNode == old(rootNode)
        decreases |file| - at
      {
        var line := ReadLine(file, at);
        if line.None? {
          return Err(MissingLine);
        }
        if line.value.0 == StartOfData {
          return Ok(line.value.1);
        }
        var parsed := ParseHuffmanCode(line.value.0);
        if parsed.Err? {
          return Err(parsed.error);
        }
        at := line.value.1;
      }
    }

    /**
     * The bit loop of decode: from position at, each bit moves from the current node to its
     * left child on '0' and to its right child otherwise; a leaf emits its character and the
     * walk goes back to rootNode; the end mark stops it.
     */
    method WalkData(file: string, at: nat) returns (r: Result<string, Failure>)
      requires at <= |file|
      ensures r == Walk(rootNode, rootNode, file, at, "")
    {
      var decoded := "";
      var current := rootNode;
      var pos := at;
      while true
        invariant pos <= |file|
        invariant Walk(rootNode, current, file, pos, decoded) == Walk(rootNode, rootNode, file, at, "")
        decreases |file| - pos
      {
        if pos == |file| {
          return Err(NoMoreInput);
        }
        var bit := file[pos];
        if bit == Eof {
          return Ok(decoded);
        }
        if current.None? {
          return Err(NullNode);
        }
        current := if bit == '0' then current.value.left else current.value.right;
        if current.None? {
          return Err(NullNode);
        }
        if current.value.IsLeaf() {
          decoded := decoded + [current.value.character];
          current := rootNode;
        }
        pos := pos + 1;
      }
    }

    /**
     * decode: clears the table, queue and code map; blank input decodes to the empty text.
     * Otherwise the first line, read as a long, must be the magic number; the table lines are
     * read, the tree is built from them and kept in rootNode, and the bits are walked from it.
     */
    method Decode(file: string) returns (r: Result<string, Failure>)
      requires Valid()
      modifies this
      ensures Valid()
      ensures r == DecodeFile(file)
      ensures codes == map[]
      ensures IsBlank(file) ==> frequencyTable == EmptyTable && rootNode == old(rootNode)
      ensures r.Ok? && !IsBlank(file) ==>
        && ReadHeader(file).Ok? && frequencyTable == ReadHeader(file).value.0
        && Trees.BuildTree(frequencyTable).Ok? && rootNode == Some(Trees.BuildTree(frequencyTable).value)
    {
      frequencyTable := EmptyTable;
      queue := [];
      codes := map[];
      if IsBlank(file) {
        return Ok("");
      }
      var first := ReadLine(file, 0);
      if first.None? {
        return Err(NumberFormat);
      }
      var magic := ParseSigned(first.value.0, LongMin, LongMax);
      if magic.None? {
        return Err(NumberFormat);
      }
      if magic.value != MagicNumber {
        return Err(NotHuffmanFile);
      }
      var at := ReadTableLines(file, first.value.1);
      if at.Err? {
        return Err(at.error);
      }
      assert ReadHeader(file) == Ok((frequencyTable, at.value));
      ghost var merges;
      var tree;
      tree, merges := BuildTree();
      if tree.Err? {
        return Err(tree.error);
      }
      rootNode := Some(tree.value);
      r := WalkData(file, at.value);
    }
  }

  /**
   * One encoder encodes text and then decodes what it wrote, as the program's driver does:
   * text with two different characters, none of them '|' or a line break, comes back whole.
   */
  method EncodeThenDecode(text: string) returns (encoded: string, decoded: Result<string, Failure>)
    requires exists i, j :: 0 <= i < j < |text| && text[i] != text[j]
    requires forall i :: 0 <= i < |text| ==> text[i] != '|' && !IsLineBreak(text[i])
    requires |text| <= IntMax
    ensures decoded == Ok(text)
  {
    var encoder := new HuffmanEncoder();
    EncodeDecode(text);
    var r := encoder.Encode(text);
    encoded := r.value;
    decoded := encoder.Decode(encoded);
  }
}
