/**
 * The encoded file as a whole. encode writes the magic-number line, one "c|count" line per
 * table entry, the start-of-data line, the codes of the text's characters and the end mark;
 * decode reads the header back into a table, builds the tree and walks the bits.
 */
module Codec {
  import opened Wrappers
  import opened Nodes
  import opened Frequencies
  import opened Trees
  import opened TextFormat
  import opened Codes

  /** A concatenation begins with its first part. */
  lemma PrefixOfConcat(a: string, b: string)
    ensures (a + b)[..|a|] == a
  {
  }

  /** The table lines encode prints for the keys ks, in that order, each ended by a line break. */
  function EntryLines(ks: seq<char>, m: map<char, int>): string
    requires forall i :: 0 <= i < |ks| ==> ks[i] in m
    decreases |ks|
  {
    if ks == [] then "" else EntryLine(ks[0], m[ks[0]]) + "\n" + EntryLines(ks[1..], m)
  }

  /** The header encode prints: the magic number, the table lines and the start-of-data line. */
  function HeaderText(t: Table): string
    requires t.Valid()
  {
    (IntToString(MagicNumber) + "\n") + (EntryLines(t.keys, t.counts) + (StartOfData + "\n"))
  }

  /** Every entry of a non-empty table is a leaf of the tree buildTree makes, and so gets a code. */
  lemma TreeCoversTable(t: Table)
    requires t.Valid() && t.keys != []
    ensures BuildTree(t).Ok?
    ensures forall c :: c in t.counts ==>
      c in LeafChars(BuildTree(t).value) && c in CodeTable(BuildTree(t).value, "")
  {
    BuildTreeCorrect(t);
    var root := BuildTree(t).value;
    CodeTableKeys(root, "");
    forall c | c in t.counts ensures c in LeafChars(root) {
      assert c in multiset(t.keys);
    }
  }

  /**
   * What encode writes for text once the frequencies are in table t: the header, the code of
   * each character of text in text order, the end mark and a line break. An empty table makes
   * buildTree's final remove fail before anything is written.
   */
  function EncodeFile(t: Table, text: string): (r: Result<string, Failure>)
    requires t.Valid() && forall i :: 0 <= i < |text| ==> text[i] in t.counts
    ensures r.Err? <==> t.keys == []
    ensures r.Err? ==> r.error == EmptyQueue
    ensures r.Ok? ==> |HeaderText(t)| < |r.value| && r.value[..|HeaderText(t)|] == HeaderText(t)
  {
    if t.keys == [] then Err(EmptyQueue)
    else
      TreeCoversTable(t);
      var root := BuildTree(t).value;
      var s := HeaderText(t) + (Bits(CodeTable(root, ""), text) + ([Eof] + "\n"));
      PrefixOfConcat(HeaderText(t), Bits(CodeTable(root, ""), text) + ([Eof] + "\n"));
      Ok(s)
  }

  /**
   * The header loop of decode from position pos: every line up to the start-of-data line is
   * parsed and put into table t. Running out of lines (readLine's null) makes the equals test
   * fail. On success: the table and the position just past the start-of-data line.
   */
  function ReadTable(s: string, pos: nat, t: Table): (r: Result<(Table, nat), Failure>)
    requires pos <= |s| && t.Valid()
    ensures r.Ok? ==> r.value.0.Valid() && pos < r.value.1 <= |s|
    ensures ReadLine(s, pos).None? ==> r == Err(MissingLine)
    ensures r.Ok? ==> exists p :: pos <= p < |s| && ReadLine(s, p) == Some((StartOfData, r.value.1))
    decreases |s| - pos
  {
    match ReadLine(s, pos)
    case None => Err(MissingLine)
    case Some((line, next)) =>
      if line == StartOfData then Ok((t, next))
      else
        match ParseEntry(line)
        case Err(e) => Err(e)
        case Ok((c, n)) => ReadTable(s, next, Put(t, c, n))
  }

  /** The first line of s, read as a long, is the magic number. */
  predicate StartsWithMagic(s: string) {
    ReadLine(s, 0).Some? && ParseSigned(ReadLine(s, 0).value.0, LongMin, LongMax) == Some(MagicNumber)
  }

  /**
   * The header of decode: the first line read as a long must be the magic number, otherwise
   * the file is refused; then the table lines are read into an empty table.
   */
  function ReadHeader(s: string): (r: Result<(Table, nat), Failure>)
    ensures r.Ok? ==> r.value.0.Valid() && 0 < r.value.1 <= |s|
    ensures r.Ok? ==> StartsWithMagic(s)
    ensures ReadLine(s, 0).Some? && ParseSigned(ReadLine(s, 0).value.0, LongMin, LongMax).None? ==>
      r == Err(NumberFormat)
    ensures ReadLine(s, 0).Some? && ParseSigned(ReadLine(s, 0).value.0, LongMin, LongMax).Some? ==>
      (ParseSigned(ReadLine(s, 0).value.0, LongMin, LongMax).value != MagicNumber ==> r == Err(NotHuffmanFile))
  {
    match ReadLine(s, 0)
    case None => Err(NumberFormat)
    case Some((line, next)) =>
      match ParseSigned(line, LongMin, LongMax)
      case None => Err(NumberFormat)
      case Some(v) => if v != MagicNumber then Err(NotHuffmanFile) else ReadTable(s, next, EmptyTable)
  }

  /**
   * decode with the tree rebuilt from the table it has just read: blank input decodes to the
   * empty text; otherwise the header is read, the tree built, and the bits walked from the
   * position after the start-of-data line.
   */
  function DecodeFile(s: string): (r: Result<string, Failure>)
    ensures IsBlank(s) ==> r == Ok("")
    ensures r.Ok? && !IsBlank(s) ==> StartsWithMagic(s)
    ensures !IsBlank(s) && ReadHeader(s).Err? ==> r == Err(ReadHeader(s).error)
  {
    if IsBlank(s) then Ok("")
    else
      match ReadHeader(s)
      case Err(e) => Err(e)
      case Ok((t, pos)) =>
        match BuildTree(t)
        case Err(e) => Err(e)
        case Ok(root) => Walk(Some(root), Some(root), s, pos, "")
  }

  /**
   * decode as written: the tree built from the table is discarded and the walk starts from
   * rootNode, whatever an earlier encode left there.
   */
  function DecodeFileAsWritten(s: string, rootNode: Option<HuffmanNode>): (r: Result<string, Failure>)
    ensures IsBlank(s) ==> r == Ok("")
    ensures r.Ok? && !IsBlank(s) ==> StartsWithMagic(s)
    ensures !IsBlank(s) && ReadHeader(s).Err? ==> r == Err(ReadHeader(s).error)
  {
    if IsBlank(s) then Ok("")
    else
      match ReadHeader(s)
      case Err(e) => Err(e)
      case Ok((t, pos)) =>
        match BuildTree(t)
        case Err(e) => Err(e)
        case Ok(_) => Walk(rootNode, rootNode, s, pos, "")
  }

  /**
   * A file whose first line is a number other than the magic number is refused with
   * NotHuffmanFile by both forms of decode, whatever follows that line: in particular an
   * encoded file whose first line has been replaced.
   */
  lemma ForeignMagicRefused(v: int, rest: string, rootNode: Option<HuffmanNode>)
    requires LongMin <= v <= LongMax && v != MagicNumber
    ensures DecodeFile(IntToString(v) + "\n" + rest) == Err(NotHuffmanFile)
    ensures DecodeFileAsWritten(IntToString(v) + "\n" + rest, rootNode) == Err(NotHuffmanFile)
  {
    var line := IntToString(v);
    var s := line + "\n" + rest;
    assert s[..|line|] == line && s[|line|] == '\n';
    ReadLineOf(s, 0, line);
    ParseIntToString(v, LongMin, LongMax);
    assert !IsWhitespace(s[0]);
  }

  /** The table a well-formed header describes is the one decode leaves in frequencyTable. */
  function PutAll(acc: Table, ks: seq<char>, m: map<char, int>): (r: Table)
    requires acc.Valid() && forall i :: 0 <= i < |ks| ==> ks[i] in m
    ensures r.Valid()
    decreases |ks|
  {
    if ks == [] then acc else PutAll(Put(acc, ks[0], m[ks[0]]), ks[1..], m)
  }

  /** A table whose keys and counts encode can write on "c|count" lines and read back. */
  ghost predicate Writable(t: Table) {
    && t.Valid()
    && forall i :: 0 <= i < |t.keys| ==>
         && t.keys[i] != '|' && !IsLineBreak(t.keys[i])
         && IntMin <= t.counts[t.keys[i]] <= IntMax
  }

  /** No table line contains a line break. */
  lemma EntryLineUnbroken(c: char, n: int)
    requires !IsLineBreak(c)
    ensures forall i :: 0 <= i < |EntryLine(c, n)| ==> !IsLineBreak(EntryLine(c, n)[i])
    ensures |EntryLine(c, n)| >= 3 && EntryLine(c, n)[1] == '|'
  {
    var digits := IntToString(n);
    assert EntryLine(c, n) == [c, '|'] + digits;
  }

  /** One round of the header loop on a table line: its entry is put and reading goes on. */
  lemma ReadTableEntry(s: string, pos: nat, acc: Table, line: string, next: nat, c: char, n: int)
    requires pos <= |s| && acc.Valid()
    requires ReadLine(s, pos) == Some((line, next)) && line != StartOfData
    requires ParseEntry(line) == Ok((c, n))
    ensures next <= |s|
    ensures ReadTable(s, pos, acc) == ReadTable(s, next, Put(acc, c, n))
  {
  }

  /** The start-of-data line ends the header loop. */
  lemma ReadTableEnd(s: string, pos: nat, acc: Table, next: nat)
    requires pos <= |s| && acc.Valid()
    requires ReadLine(s, pos) == Some((StartOfData, next))
    ensures ReadTable(s, pos, acc) == Ok((acc, next))
  {
  }

  /** A slice holding a line, a line break and the rest splits into those three. */
  lemma LineSplit(s: string, pos: nat, end: nat, line: string, rest: string)
    requires end == pos + |line| + 1 + |rest| && end <= |s| && s[pos..end] == line + ("\n" + rest)
    ensures pos + |line| < |s| && s[pos..pos + |line|] == line && s[pos + |line|] == '\n'
    ensures s[pos + |line| + 1..end] == rest
  {
    SliceSplit(s, pos, line, "\n" + rest);
    SliceSplit(s, pos + |line|, "\n", rest);
  }

  /** A table line written for an entry is read as one line and parsed back as that entry. */
  lemma ReadEntryLine(s: string, pos: nat, c: char, n: int, line: string, next: nat)
    requires c != '|' && !IsLineBreak(c) && IntMin <= n <= IntMax && line == EntryLine(c, n)
    requires next == pos + |line| + 1 && next <= |s| && s[pos..next - 1] == line && s[next - 1] == '\n'
    ensures ReadLine(s, pos) == Some((line, next))
    ensures ParseEntry(line) == Ok((c, n))
    ensures line != StartOfData
  {
    EntryLineUnbroken(c, n);
    ReadLineOf(s, pos, line);
    ParseEntryLine(c, n);
    assert StartOfData[1] == '3';
  }

  /**
   * One round of the header loop over a slice that begins with the line written for entry
   * (c, n): the entry is put and reading goes on at next, where the rest of the slice begins.
   */
  lemma ReadTableLine(s: string, pos: nat, next: nat, end: nat, acc: Table, c: char, n: int,
                      line: string, rest: string)
    requires acc.Valid() && c != '|' && !IsLineBreak(c) && IntMin <= n <= IntMax && line == EntryLine(c, n)
    requires next == pos + |line| + 1 && end == next + |rest| && end <= |s|
    requires s[pos..end] == line + ("\n" + rest)
    ensures s[next..end] == rest
    ensures ReadTable(s, pos, acc) == ReadTable(s, next, Put(acc, c, n))
  {
    LineSplit(s, pos, end, line, rest);
    ReadEntryLine(s, pos, c, n, line, next);
    ReadTableEntry(s, pos, acc, line, next, c, n);
  }

  /** The start-of-data line, read over a slice that holds it, ends the header loop at end. */
  lemma ReadTableLast(s: string, pos: nat, end: nat, acc: Table)
    requires acc.Valid() && end == pos + |StartOfData| + 1 && end <= |s|
    requires s[pos..end] == StartOfData + "\n"
    ensures ReadTable(s, pos, acc) == Ok((acc, end))
  {
    assert StartOfData + "\n" == StartOfData + ("\n" + []);
    LineSplit(s, pos, end, StartOfData, []);
    ReadLineOf(s, pos, StartOfData);
    ReadTableEnd(s, pos, acc, end);
  }

  /** The table lines for ks, then tail, are the first line, a line break and the rest. */
  lemma EntryLinesCons(ks: seq<char>, m: map<char, int>, tail: string)
    requires ks != [] && forall i :: 0 <= i < |ks| ==> ks[i] in m
    ensures EntryLines(ks, m) + tail
         == EntryLine(ks[0], m[ks[0]]) + ("\n" + (EntryLines(ks[1..], m) + tail))
  {
  }

  /**
   * Reading the table lines for keys ks followed by the start-of-data line puts each key with
   * its count, in order, and stops at end, just past the start-of-data line.
   */
  lemma {:induction false} ReadEntries(s: string, pos: nat, end: nat, acc: Table, ks: seq<char>,
                                       m: map<char, int>)
    requires acc.Valid()
    requires forall i :: 0 <= i < |ks| ==>
      ks[i] in m && ks[i] != '|' && !IsLineBreak(ks[i]) && IntMin <= m[ks[i]] <= IntMax
    requires end == pos + |EntryLines(ks, m)| + |StartOfData| + 1 && end <= |s|
    requires s[pos..end] == EntryLines(ks, m) + (StartOfData + "\n")
    ensures ReadTable(s, pos, acc) == Ok((PutAll(acc, ks, m), end))
    decreases |ks|
  {
    if ks == [] {
      assert EntryLines(ks, m) + (StartOfData + "\n") == StartOfData + "\n";
      ReadTableLast(s, pos, end, acc);
    } else {
      var c := ks[0];
      var n := m[c];
      var rest := EntryLines(ks[1..], m) + (StartOfData + "\n");
      EntryLinesCons(ks, m, StartOfData + "\n");
      var line := EntryLine(c, n);
      var next := pos + |line| + 1;
      ReadTableLine(s, pos, next, end, acc, c, n, line, rest);
      ReadEntries(s, next, end, Put(acc, c, n), ks[1..], m);
    }
  }

  /**
   * Putting the keys ks, in order, with their counts from m into a table that already agrees
   * with m and shares no key with ks lists the keys after the old ones and maps each to its
   * count in m.
   */
  lemma {:induction false} PutAllRestores(acc: Table, ks: seq<char>, m: map<char, int>)
    requires acc.Valid() && forall i :: 0 <= i < |ks| ==> ks[i] in m
    requires Distinct(acc.keys + ks)
    requires forall c :: c in acc.counts ==> c in m && acc.counts[c] == m[c]
    ensures PutAll(acc, ks, m).keys == acc.keys + ks
    ensures forall c :: c in PutAll(acc, ks, m).counts ==> c in m && PutAll(acc, ks, m).counts[c] == m[c]
    decreases |ks|
  {
    if ks == [] {
      assert acc.keys + ks == acc.keys;
    } else {
      var c := ks[0];
      assert (acc.keys + ks)[|acc.keys|] == c;
      assert c !in acc.keys by {
        forall i | 0 <= i < |acc.keys| ensures acc.keys[i] != c {
          assert (acc.keys + ks)[i] == acc.keys[i];
        }
      }
      var acc' := Put(acc, c, m[c]);
      assert acc'.keys + ks[1..] == acc.keys + ks;
      PutAllRestores(acc', ks[1..], m);
    }
  }

  /** A magic-number first line hands over to the header loop. */
  lemma ReadHeaderMagic(s: string, line: string, next: nat)
    requires ReadLine(s, 0) == Some((line, next)) && ParseSigned(line, LongMin, LongMax) == Some(MagicNumber)
    ensures next <= |s|
    ensures ReadHeader(s) == ReadTable(s, next, EmptyTable)
  {
  }

  /** Input that begins with the magic-number line is not blank, and that line is read first. */
  lemma MagicLine(s: string, next: nat)
    requires next == |IntToString(MagicNumber)| + 1 && next <= |s|
    requires s[..next] == IntToString(MagicNumber) + "\n"
    ensures !IsBlank(s)
    ensures ReadHeader(s) == ReadTable(s, next, EmptyTable)
  {
    var magic := IntToString(MagicNumber);
    assert s[0..next] == magic + ("\n" + []);
    LineSplit(s, 0, next, magic, []);
    assert s[0] == magic[0];
    assert !IsWhitespace(s[0]);
    ReadLineOf(s, 0, magic);
    ParseIntToString(MagicNumber, LongMin, LongMax);
    ReadHeaderMagic(s, magic, next);
  }

  /** Two valid tables with the same keys in the same order and the same counts are equal. */
  lemma TableEquality(r: Table, t: Table)
    requires r.Valid() && t.Valid() && r.keys == t.keys
    requires forall c :: c in r.counts ==> r.counts[c] == t.counts[c]
    ensures r == t
  {
    assert r.counts.Keys == t.counts.Keys;
    assert r.counts == t.counts;
  }

  /** Putting the entries of a table, in key order, into an empty table rebuilds it. */
  lemma PutAllTable(t: Table)
    requires t.Valid()
    ensures PutAll(EmptyTable, t.keys, t.counts) == t
  {
    assert EmptyTable.keys + t.keys == t.keys;
    PutAllRestores(EmptyTable, t.keys, t.counts);
    TableEquality(PutAll(EmptyTable, t.keys, t.counts), t);
  }

  /** The header is the magic-number line followed by the table lines and the start-of-data line. */
  lemma HeaderSplit(t: Table, s: string, next: nat)
    requires t.Valid() && next == |IntToString(MagicNumber)| + 1
    requires |HeaderText(t)| <= |s| && s[..|HeaderText(t)|] == HeaderText(t)
    ensures next <= |HeaderText(t)|
    ensures s[..next] == IntToString(MagicNumber) + "\n"
    ensures s[next..|HeaderText(t)|] == EntryLines(t.keys, t.counts) + (StartOfData + "\n")
  {
    var magic := IntToString(MagicNumber) + "\n";
    var body := EntryLines(t.keys, t.counts) + (StartOfData + "\n");
    assert s[0..|magic| + |body|] == s[..|HeaderText(t)|];
    SliceSplit(s, 0, magic, body);
  }

  /** Reading the header encode wrote for a writable table gives back exactly that table. */
  lemma ReadHeaderOf(t: Table, s: string)
    requires Writable(t)
    requires |HeaderText(t)| <= |s| && s[..|HeaderText(t)|] == HeaderText(t)
    ensures !IsBlank(s)
    ensures ReadHeader(s) == Ok((t, |HeaderText(t)|))
  {
    var next := |IntToString(MagicNumber)| + 1;
    HeaderSplit(t, s, next);
    MagicLine(s, next);
    ReadEntries(s, next, |HeaderText(t)|, EmptyTable, t.keys, t.counts);
    PutAllTable(t);
  }

  /**
   * Once the header is read and the tree built, decode is the walk over the rest: from the
   * new tree, or as written from whatever rootNode holds.
   */
  lemma DecodeFileWalks(s: string, t: Table, pos: nat, root: HuffmanNode, rootNode: Option<HuffmanNode>)
    requires !IsBlank(s) && ReadHeader(s) == Ok((t, pos)) && BuildTree(t) == Ok(root)
    ensures DecodeFile(s) == Walk(Some(root), Some(root), s, pos, "")
    ensures DecodeFileAsWritten(s, rootNode) == Walk(rootNode, rootNode, s, pos, "")
  {
  }

  /**
   * The bits encode writes after the header, followed by the end mark, are walked back into
   * the text from the position just past the header.
   */
  lemma WalkEncoded(t: Table, text: string)
    requires Writable(t) && |t.keys| >= 2
    requires forall i :: 0 <= i < |text| ==> text[i] in t.counts
    ensures EncodeFile(t, text).Ok? && BuildTree(t).Ok?
    ensures var root := BuildTree(t).value;
      Walk(Some(root), Some(root), EncodeFile(t, text).value, |HeaderText(t)|, "") == Ok(text)
  {
    EncodedText(t, text);
    TreeShape(t);
    var root := BuildTree(t).value;
    var bits := Bits(CodeTable(root, ""), text);
    var s := EncodeFile(t, text).value;
    var h := HeaderText(t);
    BitsAfterHeader(s, h, bits);
    DecodeBits(root, text, bits, s, |h|, |h| + |bits|);
  }

  /** What encode writes for a non-empty table: the header, the bits and the end mark. */
  lemma EncodedText(t: Table, text: string)
    requires t.Valid() && t.keys != []
    requires forall i :: 0 <= i < |text| ==> text[i] in t.counts
    ensures BuildTree(t).Ok? && EncodeFile(t, text).Ok?
    ensures forall i :: 0 <= i < |text| ==> text[i] in CodeTable(BuildTree(t).value, "")
    ensures EncodeFile(t, text).value
         == HeaderText(t) + (Bits(CodeTable(BuildTree(t).value, ""), text) + ([Eof] + "\n"))
  {
    TreeCoversTable(t);
  }

  /** The tree built from a table with two or more entries is internal, with unique leaves. */
  lemma TreeShape(t: Table)
    requires t.Valid() && |t.keys| >= 2
    ensures BuildTree(t).Ok?
    ensures var root := BuildTree(t).value; WellFormed(root) && UniqueLeaves(root) && !root.IsLeaf()
  {
    BuildTreeCorrect(t);
  }

  /** In header + bits + end mark + line break, the bits follow the header and the end mark them. */
  lemma BitsAfterHeader(s: string, h: string, bits: string)
    requires s == h + (bits + ([Eof] + "\n"))
    ensures |h| + |bits| < |s| && s[|h|..|h| + |bits|] == bits && s[|h| + |bits|] == Eof
  {
    SliceSplit(s, |h|, bits, [Eof] + "\n");
  }

  /**
   * Decoding what encode wrote gives back the text, for a table with two or more entries that
   * the line format can carry and that holds every character of the text.
   */
  lemma RoundTrip(t: Table, text: string)
    requires Writable(t) && |t.keys| >= 2
    requires forall i :: 0 <= i < |text| ==> text[i] in t.counts
    ensures EncodeFile(t, text).Ok?
    ensures DecodeFile(EncodeFile(t, text).value) == Ok(text)
  {
    WalkEncoded(t, text);
    var s := EncodeFile(t, text).value;
    ReadHeaderOf(t, s);
    DecodeFileWalks(s, t, |HeaderText(t)|, BuildTree(t).value, None);
  }

  /** A text with two different characters has two or more entries in its frequency table. */
  lemma TwoKeys(text: string)
    requires exists i, j :: 0 <= i < j < |text| && text[i] != text[j]
    ensures |Frequencies.Frequencies(text).keys| >= 2
  {
    var t := Frequencies.Frequencies(text);
    FrequenciesCorrect(text);
    var i, j :| 0 <= i < j < |text| && text[i] != text[j];
    assert text[i] in text && text[j] in text;
    assert text[i] in t.keys && text[j] in t.keys;
    var p :| 0 <= p < |t.keys| && t.keys[p] == text[i];
    var q :| 0 <= q < |t.keys| && t.keys[q] == text[j];
    assert p != q;
  }

  /**
   * The frequency table of a text without '|' and line breaks, no longer than the largest
   * int, can be written and read back, and holds every character of the text.
   */
  lemma FrequenciesWritable(text: string)
    requires forall i :: 0 <= i < |text| ==> text[i] != '|' && !IsLineBreak(text[i])
    requires |text| <= IntMax
    ensures Writable(Frequencies.Frequencies(text))
    ensures forall i :: 0 <= i < |text| ==> text[i] in Frequencies.Frequencies(text).counts
  {
    var t := Frequencies.Frequencies(text);
    FrequenciesCorrect(text);
    forall k | 0 <= k < |t.keys|
      ensures t.keys[k] != '|' && !IsLineBreak(t.keys[k]) && IntMin <= t.counts[t.keys[k]] <= IntMax
    {
      var c := t.keys[k];
      assert c in text;
      assert multiset(text)[c] <= |multiset(text)|;
    }
  }

  /**
   * Frequency analysis, encode and decode in a row give back the text, when it has two or more
   * distinct characters, none of them '|' or a line break, and no count exceeds an int.
   */
  lemma EncodeDecode(text: string)
    requires exists i, j :: 0 <= i < j < |text| && text[i] != text[j]
    requires forall i :: 0 <= i < |text| ==> text[i] != '|' && !IsLineBreak(text[i])
    requires |text| <= IntMax
    ensures forall i :: 0 <= i < |text| ==> text[i] in Frequencies.Frequencies(text).counts
    ensures EncodeFile(Frequencies.Frequencies(text), text).Ok?
    ensures DecodeFile(EncodeFile(Frequencies.Frequencies(text), text).value) == Ok(text)
  {
    TwoKeys(text);
    FrequenciesWritable(text);
    RoundTrip(Frequencies.Frequencies(text), text);
  }

  /** The stream of an internal tree's codes is made of '0' and '1' only, at least one per character. */
  lemma {:induction false} BitsBinary(codes: map<char, string>, text: string)
    requires forall c :: c in codes ==>
      |codes[c]| >= 1 && forall i :: 0 <= i < |codes[c]| ==> codes[c][i] in "01"
    requires forall i :: 0 <= i < |text| ==> text[i] in codes
    ensures |Bits(codes, text)| >= |text|
    ensures forall i :: 0 <= i < |Bits(codes, text)| ==> Bits(codes, text)[i] in "01"
    decreases |text|
  {
    if text != [] {
      var init := text[..|text| - 1];
      var code := codes[text[|text| - 1]];
      BitsBinary(codes, init);
      var b := Bits(codes, init);
      assert Bits(codes, text) == b + code;
      forall i | 0 <= i < |b + code| ensures (b + code)[i] in "01" {
        if i >= |b| {
          assert (b + code)[i] == code[i - |b|];
        }
      }
    }
  }

  /**
   * decode as written, on an encoder whose rootNode is still null (a fresh one, say), fails
   * on the first bit of every file encode writes for a non-empty text with two or more
   * distinct table entries, although the tree built from that file's table decodes it.
   */
  lemma StaleRootFails(t: Table, text: string)
    requires Writable(t) && |t.keys| >= 2 && text != []
    requires forall i :: 0 <= i < |text| ==> text[i] in t.counts
    ensures EncodeFile(t, text).Ok?
    ensures DecodeFileAsWritten(EncodeFile(t, text).value, None) == Err(NullNode)
    ensures DecodeFile(EncodeFile(t, text).value) == Ok(text)
  {
    RoundTrip(t, text);
    var s := EncodeFile(t, text).value;
    TreeCoversTable(t);
    TreeShape(t);
    var root := BuildTree(t).value;
    var codes := CodeTable(root, "");
    CodesPrefixFree(root);
    BitsBinary(codes, text);
    var bits := Bits(codes, text);
    BitsAfterHeader(s, HeaderText(t), bits);
    ReadHeaderOf(t, s);
    DecodeFileWalks(s, t, |HeaderText(t)|, root, None);
    assert s[|HeaderText(t)|] == bits[0];
  }

  /**
   * decode as written does work on the encoder that has just encoded: its rootNode is the
   * tree of the very table the file carries.
   */
  lemma AsWrittenAfterEncode(t: Table, text: string, rootNode: Option<HuffmanNode>)
    requires Writable(t) && |t.keys| >= 2
    requires forall i :: 0 <= i < |text| ==> text[i] in t.counts
    requires BuildTree(t).Ok? && rootNode == Some(BuildTree(t).value)
    ensures EncodeFile(t, text).Ok?
    ensures DecodeFileAsWritten(EncodeFile(t, text).value, rootNode) == Ok(text)
  {
    WalkEncoded(t, text);
    var s := EncodeFile(t, text).value;
    ReadHeaderOf(t, s);
    DecodeFileWalks(s, t, |HeaderText(t)|, BuildTree(t).value, rootNode);
  }

  /** A stream of empty codes is empty. */
  lemma {:induction false} BitsEmpty(codes: map<char, string>, text: string)
    requires forall i :: 0 <= i < |text| ==> text[i] in codes && codes[text[i]] == ""
    ensures Bits(codes, text) == ""
    decreases |text|
  {
    if text != [] {
      BitsEmpty(codes, text[..|text| - 1]);
    }
  }

  /** A table with one entry gives a tree that is a single leaf, whose code is empty. */
  lemma SingleLeaf(t: Table)
    requires t.Valid() && |t.keys| == 1
    ensures BuildTree(t).Ok? && BuildTree(t).value.IsLeaf()
    ensures CodeTable(BuildTree(t).value, "") == map[t.keys[0] := ""]
  {
    BuildTreeCorrect(t);
    var root := BuildTree(t).value;
    CodesPrefixFree(root);
    assert LeafChars(root) == [root.character];
    assert multiset(LeafChars(root))[t.keys[0]] > 0;
  }

  /** A text with one distinct character gets the empty code, so encode writes no bits at all. */
  lemma SingleSymbolFile(t: Table, text: string)
    requires Writable(t) && |t.keys| == 1
    requires forall i :: 0 <= i < |text| ==> text[i] in t.counts
    ensures EncodeFile(t, text).Ok?
    ensures EncodeFile(t, text).value == HeaderText(t) + ([Eof] + "\n")
  {
    SingleLeaf(t);
    EncodedText(t, text);
    var codes := CodeTable(BuildTree(t).value, "");
    forall i | 0 <= i < |text| ensures text[i] in codes && codes[text[i]] == "" {
      assert text[i] in t.keys;
    }
    BitsEmpty(codes, text);
  }

  /**
   * A text with one distinct character is written as the header and the end mark alone, and
   * decode reads back the empty text whatever the length of the original.
   */
  lemma SingleSymbolDecodesEmpty(t: Table, text: string)
    requires Writable(t) && |t.keys| == 1
    requires forall i :: 0 <= i < |text| ==> text[i] in t.counts
    ensures EncodeFile(t, text).Ok?
    ensures EncodeFile(t, text).value == HeaderText(t) + ([Eof] + "\n")
    ensures DecodeFile(EncodeFile(t, text).value) == Ok("")
  {
    SingleSymbolFile(t, text);
    SingleLeaf(t);
    var root := BuildTree(t).value;
    var s := HeaderText(t) + ([Eof] + "\n");
    assert s == HeaderText(t) + ("" + ([Eof] + "\n"));
    BitsAfterHeader(s, HeaderText(t), "");
    ReadHeaderOf(t, s);
    DecodeFileWalks(s, t, |HeaderText(t)|, root, None);
  }

  /** A single-leaf tree decodes nothing but the end mark: any bit before it is a null child. */
  lemma {:induction false} LeafRootDecodesNothing(root: HuffmanNode, s: string, pos: nat, decoded: string)
    requires root.IsLeaf() && pos < |s| && s[pos] != Eof
    ensures Walk(Some(root), Some(root), s, pos, decoded) == Err(NullNode)
  {
  }

  /** The table lines of ks and then c are those of ks followed by the line of c. */
  lemma {:induction false} EntryLinesSnoc(ks: seq<char>, c: char, m: map<char, int>)
    requires c in m && forall i :: 0 <= i < |ks| ==> ks[i] in m
    ensures EntryLines(ks + [c], m) == EntryLines(ks, m) + (EntryLine(c, m[c]) + "\n")
    decreases |ks|
  {
    if ks == [] {
      assert EntryLines([c], m) == EntryLine(c, m[c]) + "\n" + EntryLines([], m);
    } else {
      assert (ks + [c])[1..] == ks[1..] + [c];
      EntryLinesSnoc(ks[1..], c, m);
    }
  }
}
