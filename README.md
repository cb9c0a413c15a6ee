# Huffman encoder — a verified Dafny model

This project models the Huffman codec of the `huffman-encoder` repository: the
`HuffmanEncoder` class and its tree node `HuffmanNode`. `encode` runs four steps:

- It counts how often each character occurs in a text.
- It builds a Huffman tree with a min-priority queue.
- It derives a prefix code by a depth-first walk, using '0' for left and '1' for right.
- It writes a file with these parts, in order:
  - the magic number 13101424;
  - one `c|count` line per table entry;
  - the start-of-data line `13106`;
  - the codes of the text's characters;
  - the end mark `#`.

`decode` reads such a file back. It checks the magic number, re-reads the table, rebuilds the tree
and walks the bits.

The model is laid out in layers:

| file | module | what it holds |
|---|---|---|
| `wrappers.dfy` | `Wrappers` | `Option`, `Result`, and the `Failure` reasons that stand for the exceptions the Java code throws |
| `nodes.dfy` | `Nodes` | `HuffmanNode` as an immutable datatype with optional (nullable) children, its setters and `compareTo`, and the tree predicates used by the proofs |
| `frequencies.dfy` | `Frequencies` | the frequency table and the counting of a text into it |
| `trees.dfy` | `Trees` | the priority queue, one merge round, and the tree `buildTree` returns |
| `text_format.dfy` | `TextFormat` | number printing and parsing, `In.isEmpty` / `In.readLine`, and the split of a table line at its bars |
| `codes.dfy` | `Codes` | `createCode`'s code table, root-to-leaf paths, the prefix property, and the bit walk of `decode` |
| `codec.dfy` | `Codec` | the whole encoded file as a value: what `encode` writes and what `decode` returns, with the round trip |
| `encoder.dfy` | `Encoder` | the `HuffmanEncoder` class itself (see below) |

The class's fields `frequencyTable`, `queue`, `codes` and `rootNode` are updated in place, and
its methods keep the source's loops:

- the counting loop;
- the queue-fill and merge loops;
- the table-line and bit output loops;
- the table-read loop;
- the bit walk.

`createCode` stays recursive and writes into `codes`. Each method is proved against the
functions of the lower modules: the counting loop against `CountInto`, the merge loop against
`Huffman`, the output against `EncodeFile` and the decoder against `DecodeFile`. The lemmas
about those functions carry the properties:

- frequency conservation;
- the weight invariant and greedy choice of each merge;
- one leaf per table entry;
- the prefix property;
- decode inverting encode.

Some modelling choices fix behaviour Java leaves to its libraries:

- **Table order.** `HashMap` iteration order is taken to be insertion order. The table is a key
  sequence plus a count map. `encode` writes the lines in that order, and `decode` puts them back
  in the same order, so both sides see the same table.
- **Queue tie-break.** `PriorityQueue.remove()` takes the earliest inserted of the nodes of least
  frequency (`Trees.MinIndex`). The decoder's tree is therefore the encoder's tree.
- **File and reader.** The file is one string. `readLine` ends a line at `\n`, `\r`, `\r\n`,
  U+0085, U+2028 or U+2029. `isEmpty` holds when only whitespace is left. `readChar` at end of
  input fails.
- **Line separator.** `println`'s line separator is taken to be `\n`.

Three edge cases behave as follows in the code, and the model follows it:

- **Single-character text.** A text of one repeated character does not round-trip. The code
  gives the lone leaf the empty code, writes no bits and decodes the file to the empty text:
  `Codec.SingleSymbolDecodesEmpty`, `Codec.SingleLeaf`.
- **Empty text.** Encoding the empty text on a fresh encoder writes nothing: `buildTree`'s final
  `queue.remove()` throws first, and `Codec.EncodeFile` returns `Err(EmptyQueue)`.
- **Stale root.** `decode` builds the tree of the table it has read and discards it, then walks
  `rootNode`; see Findings.

## Model

| member | source | states |
|---|---|---|
| `Nodes.HuffmanNode.SetCharacter` | src/main/HuffmanNode.java:45-47 | the setter changes the character and leaves frequency and both children as they were |
| `Nodes.HuffmanNode.SetFrequency` | src/main/HuffmanNode.java:63-65 | the setter changes the frequency and leaves the character and both children as they were |
| `Nodes.HuffmanNode.SetLeft` | src/main/HuffmanNode.java:81-83 | the setter changes the left child and leaves the other three fields as they were |
| `Nodes.HuffmanNode.SetRight` | src/main/HuffmanNode.java:99-101 | the setter changes the right child and leaves the other three fields as they were |
| `Nodes.HuffmanNode.CompareTo` | src/main/HuffmanNode.java:115-117 | the result is negative, zero or positive exactly when this node's frequency is less than, equal to or greater than the other's; character and children play no part |
| `Nodes.CompareToAntisymmetric` | src/main/HuffmanNode.java:115-117 | a.compareTo(b) is the negation of b.compareTo(a) |
| `Nodes.CompareToTransitive` | src/main/HuffmanNode.java:115-117 | a ≤ b and b ≤ c under compareTo give a ≤ c |
| `Nodes.Leaf` | src/main/HuffmanEncoder.java:62 | the node put into the queue per table entry is a leaf (no children) holding that character and count |
| `Nodes.Merged` | src/main/HuffmanEncoder.java:70-71 | the merged node is internal, has the first removed node on the left and the second on the right, and weighs their sum |
| `Nodes.LeavesOutnumberInternal` | src/main/HuffmanEncoder.java:66-72 | a tree of zero-or-two-children nodes has exactly one more leaf than internal nodes |
| `Frequencies.Put` | src/main/HuffmanEncoder.java:45-49 | HashMap.put keeps the table well formed, sets the count, appends a new key at the end of the order and keeps an old key's place |
| `Frequencies.CountIntoCounts` | src/main/HuffmanEncoder.java:42-51 | counting a text into a table keeps the old keys first, adds exactly the text's new characters, and raises each count by the character's number of occurrences |
| `Frequencies.CountIntoSum` | src/main/HuffmanEncoder.java:42-51 | counting a text into a table raises the sum of the counts by the length of the text |
| `Frequencies.FrequenciesCorrect` | src/main/HuffmanEncoder.java:42-51 | on an empty table: one entry per distinct character, each count equal to its occurrences and at least 1, the counts sum to the text length, and an empty text leaves the table empty |
| `Trees.MinIndex` | src/main/HuffmanEncoder.java:67-68 | queue.remove() takes a node of least frequency, and the earliest such node |
| `Trees.MergeStepGreedy` | src/main/HuffmanEncoder.java:66-72 | a merge round removes the least node and then the least of the rest, makes them the left and right children of a node of their summed weight, and keeps every other node |
| `Trees.MergeStepPreserves` | src/main/HuffmanEncoder.java:66-72 | a merge round keeps the multiset of leaf characters, the total weight, and the well-formedness of every tree in the queue |
| `Trees.ForestOfTable` | src/main/HuffmanEncoder.java:61-63 | the fill loop queues one leaf per key, in key order, each carrying its count; their total weight is the sum of the counts |
| `Trees.HuffmanProperties` | src/main/HuffmanEncoder.java:66-75 | the merge loop ends in a single well-formed tree with exactly the queue's leaves and total weight; from two or more nodes it is internal |
| `Trees.BuildTreeCorrect` | src/main/HuffmanEncoder.java:58-76 | buildTree fails exactly on an empty table; otherwise the root has one leaf per entry with that entry's count, no repeated character, one merged node fewer than it has entries, and the sum of all counts as its weight |
| `TextFormat.IntToString` | src/main/HuffmanEncoder.java:131-134 | a printed number is a non-empty string of digits and minus signs, starting with a digit exactly when the number is not negative |
| `TextFormat.ParseSigned` | src/main/HuffmanEncoder.java:162 | Long.parseLong and Integer.parseInt accept a string exactly when it is an optional sign followed by one or more digits whose value, negated after a '-', is within their bounds; the value returned is that of the digits, negated after a '-' |
| `TextFormat.ParseIntToString` | src/main/HuffmanEncoder.java:131-134 | parsing a printed number gives back that number whenever it is within the parser's bounds |
| `TextFormat.ReadLine` | src/main/HuffmanEncoder.java:160-167 | readLine returns null exactly at the end of input, and otherwise moves strictly forward |
| `TextFormat.ReadLineOf` | src/main/HuffmanEncoder.java:160-167 | a line without line breaks, followed by '\n', is read back whole |
| `TextFormat.ParseEntry` | src/main/HuffmanEncoder.java:204-209 | a parsed table line yields its first character, which is not the bar character, and a count within int bounds |
| `TextFormat.ParseEntryLine` | src/main/HuffmanEncoder.java:204-209 | the line written for an entry parses back to that entry, for any character but the bar |
| `Codes.CodeTableKeys` | src/main/HuffmanEncoder.java:99-115 | createCode records a code for every leaf and for nothing else |
| `Codes.CodeTableIsPath` | src/main/HuffmanEncoder.java:99-115 | the code recorded for a character is the code it started from followed by the root-to-leaf path to it, '0' per left and '1' per right step |
| `Codes.PathLeadsToLeaf` | src/main/HuffmanEncoder.java:99-115 | following a character's path from the root reaches that character's leaf; the path is made of '0' and '1' and is empty only for a lone leaf |
| `Codes.PathsPrefixFree` | src/main/HuffmanEncoder.java:99-115 | in a tree without repeated characters no leaf's path is a prefix of another's |
| `Codes.CodesPrefixFree` | src/main/HuffmanEncoder.java:81-115 | the codes calculateCodes derives are exactly one per leaf, prefix-free, and each one leads to its own leaf; a lone leaf gets the empty code, and in a larger tree every code is a non-empty string of '0' and '1' |
| `Codes.WalkPath` | src/main/HuffmanEncoder.java:181-193 | walking one character's path from an internal node emits that character and returns to the root just past the path |
| `Codes.WalkBits` | src/main/HuffmanEncoder.java:178-194 | walking the concatenated codes of a text from the root emits exactly that text and ends back at the root |
| `Codes.DecodeBits` | src/main/HuffmanEncoder.java:178-194 | for a tree with two or more leaves, walking the encoded bits of a text up to the end mark returns exactly that text |
| `Codec.TreeCoversTable` | src/main/HuffmanEncoder.java:121-124 | every table entry is a leaf of the tree and gets a code, so encode can look up every character of the text |
| `Codec.EncodeFile` | src/main/HuffmanEncoder.java:121-144 | encode fails (on buildTree's empty queue) exactly when the table is empty; otherwise its output begins with the header |
| `Codec.ReadTable` | src/main/HuffmanEncoder.java:164-168 | the table loop leaves a well-formed table and moves forward; it succeeds only by reading a start-of-data line at or after its start, stopping just past that line, so running out of lines before one is an error |
| `Codec.ReadHeader` | src/main/HuffmanEncoder.java:160-162 | a first line that is not a number is a NumberFormatException, a number other than 13101424 is refused with the IOException, and the header is read only after the magic number |
| `Codec.ForeignMagicRefused` | src/main/HuffmanEncoder.java:160-197 | a file whose first line is any number other than 13101424 is refused by both forms of decode, whatever follows it, so a replaced first line of an encoded file is detected |
| `Codec.DecodeFile` | src/main/HuffmanEncoder.java:146-202 | blank input decodes to the empty text, and non-blank input decodes only when its first line is the magic number |
| `Codec.DecodeFileAsWritten` | src/main/HuffmanEncoder.java:146-202 | decode as written: blank input decodes to the empty text, and non-blank input decodes only when its first line is the magic number |
| `Codec.ReadEntries` | src/main/HuffmanEncoder.java:164-168 | reading the table lines for a list of keys followed by the start-of-data line puts each key's count, in order, and stops just past that line |
| `Codec.PutAllTable` | src/main/HuffmanEncoder.java:164-168 | putting a table's entries in its key order into an empty table rebuilds exactly that table |
| `Codec.ReadHeaderOf` | src/main/HuffmanEncoder.java:131-137 | the header encode writes for a table is not blank, and decode reads it back into exactly that table, stopping just past the header |
| `Codec.EntryLinesSnoc` | src/main/HuffmanEncoder.java:133-135 | the table lines for one more key are the earlier lines followed by that key's line |
| `Codec.RoundTrip` | src/main/HuffmanEncoder.java:121-202 | for a table with two or more entries that the line format can carry and that holds every character of the text, decode returns exactly the text encode was given |
| `Codec.EncodeDecode` | src/main/HuffmanEncoder.java:42-202 | a text with two different characters, no bar character, no line break and no more characters than the largest int is encoded and decoded back unchanged |
| `Codec.BitsBinary` | src/main/HuffmanEncoder.java:139-141 | with an internal root, the written bits are all '0' or '1', at least one per character |
| `Codec.StaleRootFails` | src/main/HuffmanEncoder.java:172-179 | decode as written, on an encoder whose rootNode is null, fails on every file encode writes for a non-empty text and a table of two or more entries, although the rebuilt tree decodes it |
| `Codec.AsWrittenAfterEncode` | src/main/HuffmanEncoder.java:172-179 | decode as written still succeeds on the encoder that has just encoded, because its rootNode is the tree of that same table |
| `Codec.LeafRootDecodesNothing` | src/main/HuffmanEncoder.java:184-187 | with a tree that is a single leaf, any bit before the end mark steps to a missing child and decode fails |
| `Codec.SingleLeaf` | src/main/HuffmanEncoder.java:58-115 | a one-entry table gives a tree that is a single leaf, whose only code is the empty one |
| `Codec.SingleSymbolFile` | src/main/HuffmanEncoder.java:121-144 | a text of one distinct character is written with no bits: the file is the header followed directly by the end mark |
| `Codec.SingleSymbolDecodesEmpty` | src/main/HuffmanEncoder.java:121-202 | a text of one distinct character is written as the header followed directly by the end mark, and decodes to the empty text |
| `Encoder.HuffmanEncoder.constructor` | src/main/HuffmanEncoder.java:33-37 | a new encoder has an empty table, queue and code map and no root |
| `Encoder.HuffmanEncoder.AnalyseFrequencies` | src/main/HuffmanEncoder.java:42-51 | the counting loop leaves the table the old table with the text counted into it, and touches no other field |
| `Encoder.HuffmanEncoder.RemoveMin` | src/main/HuffmanEncoder.java:67-68 | remove returns a node of least frequency, the earliest such node, and takes exactly that node out of the queue |
| `Encoder.HuffmanEncoder.BuildTree` | src/main/HuffmanEncoder.java:58-76 | the fill and merge loops return the tree of the table, or fail on an empty table, after exactly one merge fewer than there are entries, and leave the queue empty |
| `Encoder.HuffmanEncoder.CreateCode` | src/main/HuffmanEncoder.java:99-115 | the recursion adds exactly the subtree's code table to the codes map, its '0' undone before the right subtree, and changes no other field |
| `Encoder.HuffmanEncoder.CalculateCodes` | src/main/HuffmanEncoder.java:81-90 | the codes map gains the code table of the root with the empty starting code |
| `Encoder.HuffmanEncoder.WriteHeader` | src/main/HuffmanEncoder.java:131-137 | the header loop writes the magic-number line, one line per table entry in key order, and the start-of-data line |
| `Encoder.HuffmanEncoder.WriteBits` | src/main/HuffmanEncoder.java:139-141 | the bit loop writes the code of each character of the text, in text order |
| `Encoder.HuffmanEncoder.Encode` | src/main/HuffmanEncoder.java:121-144 | encode counts the text into the table, stores the tree in rootNode, extends the codes, and writes exactly the file described by EncodeFile; when buildTree fails, rootNode and codes keep their old values |
| `Encoder.HuffmanEncoder.ParseHuffmanCode` | src/main/HuffmanEncoder.java:204-209 | a well-formed table line puts its entry into the table; a malformed one raises the parse error and leaves the table as it was |
| `Encoder.HuffmanEncoder.ReadTableLines` | src/main/HuffmanEncoder.java:164-168 | the table-read loop reads the table lines into the table and stops just past the start-of-data line, exactly as ReadTable describes, errors included |
| `Encoder.HuffmanEncoder.WalkData` | src/main/HuffmanEncoder.java:178-194 | the bit loop walks from rootNode exactly as Walk describes, errors included |
| `Encoder.HuffmanEncoder.Decode` | src/main/HuffmanEncoder.java:146-202 | decode clears the maps, returns exactly what DecodeFile returns, and on success leaves the table it read and that table's tree in rootNode |
| `Encoder.EncodeThenDecode` | src/main/Engine.java:25-38 | one encoder that encodes a text with two different characters, no bar character and no line break, and then decodes what it wrote, gets the text back |

## Left out

- `Engine.java` is not modelled beyond `Encoder.EncodeThenDecode`: reading the input file, printing the table, tree and codes, and the `main` driver are I/O.
- File I/O through `In` and `Out`: `encode` returns the file's contents as a string instead of writing `data/encoded-txt.txt`, and `decode` takes the file's contents as a string.
- The `DEBUG` printing in `calculateCodes`, and the encoder's getters and setters, which only read or replace a field.
- Java's `HashMap` iteration order and `PriorityQueue` tie order are unspecified. The model fixes insertion order for both, as described above.
- `char` is a UTF-16 code unit in Java and a Unicode scalar value in Dafny; surrogate pairs are not modelled.
- `Integer.parseInt` and `Long.parseLong` also accept non-ASCII Unicode digits; the model accepts ASCII digits only.
- `Frequencies.CountIntoCounts`: counts are unbounded integers, so the 32-bit wrap-around of a count past 2^31−1 is not modelled; the round-trip lemmas require every count to fit in an int instead.
- `Nodes.Merged`: the summed weight is an unbounded integer; Java's int addition would wrap for weights over 2^31−1.
- `Nodes.HuffmanNode.CompareTo`: requires the frequency difference to fit in 32 bits; Java's wrapped subtraction can give the wrong sign outside that range.
- `Trees.MinIndex`, `Trees.BuildTree` and `Encoder.HuffmanEncoder.RemoveMin`: order the queue by the unbounded frequencies. Java's queue orders by `compareTo`, whose wrapped subtraction differs when two frequencies are more than 2^31−1 apart, as in a decoded table with counts 2147483647 and −1. The model does not capture that order.
- `Codec.RoundTrip`: requires characters other than '|' and line breaks. Those characters break the `c|count` line format, so the source cannot round-trip them either.
- `Encoder.HuffmanEncoder.Decode`: states the table and root only after a successful decode. After a failure, the source's fields hold whatever the failed step left there, and the model says nothing about them.
- `Encoder.HuffmanEncoder.Decode` rebuilds `rootNode` from the table it read; the code as written is `Codec.DecodeFileAsWritten` (see Findings).

## Findings

| source | as written | input that shows it | evidently intended | confidence | as-written member | corrected member |
|---|---|---|---|---|---|---|
| src/main/HuffmanEncoder.java:172-179 | decode calls `buildTree()` and discards the tree it returns, then walks `rootNode`, which only `encode` ever sets | a new `HuffmanEncoder` decoding a file written by encode for a non-empty text with two or more distinct characters, e.g. "ab": `rootNode` is null, so the first bit dereferences null | `rootNode = buildTree();` so the walk uses the tree of the table just read | high (not executed) | `Codec.StaleRootFails` | `Codec.RoundTrip` |
