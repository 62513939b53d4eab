# Huffman compressor: a verified model

This project models the Huffman compressor in `scripts.js` of the Tinyfy web page. The
compressor runs in five stages:

1. It counts how often each symbol (character) occurs in the input.
2. It builds the Huffman tree by greedy merging. There is one leaf per distinct symbol. The node
   array is kept sorted by frequency. The two front nodes are shifted off and merged into an
   internal node whose frequency is their sum, that node is pushed back, and the array is
   re-sorted, until one node is left.
3. It reads a code for every leaf off the tree in pre-order, appending 0 for a step to the
   left and 1 for a step to the right.
4. It concatenates the codes of the input symbols into a bitstring.
5. It packs that bitstring into bytes, eight bits per byte, most significant bit first,
   padding the last byte with zeros. It also reports the original and compressed sizes.

Everything is modelled in Dafny, in one module per stage:

| file | module | contents |
|---|---|---|
| `types.dfy` | `HuffmanTypes` | symbols (`char`), bits (0 and 1), bytes (0 to 255), `Option` |
| `frequency.dfy` | `Frequency` | the frequency table; the counting loop |
| `tree.dfy` | `HuffmanTree` | the `Tree` datatype; a stable insertion sort by frequency; the merge loop |
| `codes.dfy` | `CodeTable` | code assignment; encoding; decoding by walking the tree |
| `packing.dfy` | `Packing` | bit packing; the packing loop |
| `compress.dfy` | `Compress` | `huffmanCompress`, the size figures, worked examples |

Each source function that works by updating state in a loop is a `method` with that loop:
`buildFrequencyTable`, `buildHuffmanTree`, `huffmanCompress` and `binaryStringToByteArray`.
Each such method is proved equal to a pure function that defines its result: `Frequencies`, `BuildTree`,
`CompressSpec` and `Pack`. Lemmas then prove what the source promises about those functions.

`generateCodes` recurses with a shared dictionary. It becomes the pure function `Codes`,
which returns a map. The map union `left + right` keeps the right-hand entry when a key
occurs in both, as a later assignment to the dictionary would.

`HuffmanNode` becomes the datatype `Tree`. The source attaches a node's children right after
creating the node and never changes them afterwards, so a node behaves as a value.

The JavaScript `sort` is stable, so nodes of equal frequency keep their array order. It is
modelled by `SortByFreq`, an insertion sort. Its `Insert` places a node after every node
whose frequency is at most its own. `SortByFreqStable` proves the sort stable, and
`PushThenSort` shows as a consequence where a merged node lands in the array.

The order in which `for...in` enumerates the table's keys is a parameter `order`. It is
required to list each key exactly once.

No decoder exists in the source. `Decode` is a reference decoder that walks the same tree.
It exists only to state the round-trip property.

Two behaviours of the code worth spelling out:

- For `"aaabbc"`, with keys enumerated in insertion order, `c` and `b` are merged first,
  with `c` on the left, and `a` then joins on the left. This gives the table
  {a: 0, c: 10, b: 11}, the 9-bit string `000111110` and the bytes 31 and 0
  (`ExampleAaabbc`).
- For an empty table the code returns `nodes[0]`, which is `undefined`. The model returns
  `None`, and `GenerateCodes(None)` is the empty table, just as `generateCodes(undefined)`
  returns `{}`.

## Model

| member | source | states |
|---|---|---|
| `Frequency.BuildFrequencyTable` | scripts.js:10-16 | the table's keys are exactly the input's symbols; each entry is that symbol's number of occurrences, which is positive |
| `Frequency.FrequencySum` | scripts.js:10-16 | the table's counts add up to the input length |
| `HuffmanTree.SortByFreqSorted` | scripts.js:23 | after a sort the node array is in non-decreasing frequency order |
| `HuffmanTree.SortByFreqPermutes` | scripts.js:23 | the sort returns a permutation of the array |
| `HuffmanTree.SortByFreqStable` | scripts.js:23 | the sort is stable: the nodes of any one frequency keep their relative order |
| `HuffmanTree.PushThenSort` | scripts.js:31-32 | pushing a node onto a sorted array and re-sorting puts it after every node of at most its frequency and before every heavier node; the rest of the array is unchanged |
| `HuffmanTree.MergeStepSorted` | scripts.js:25-32 | the loop body leaves a sorted array sorted, so before every shift the array is sorted and its two front nodes are the two lightest |
| `HuffmanTree.MergeStepPreserves` | scripts.js:26-32 | one loop iteration keeps every node well-formed with leaves that agree with the table, and keeps the total weight and the multiset of leaf symbols |
| `HuffmanTree.MergeAllPreserves` | scripts.js:25-34 | the loop ends with one root that is well-formed, carries the total weight of the array and holds the leaves of all its nodes |
| `HuffmanTree.LeavesOfFacts` | scripts.js:19-22 | the initial array holds one leaf per enumerated key, in enumeration order, each with its table frequency |
| `HuffmanTree.BuildHuffmanTree` | scripts.js:18-35 | the loop-based builder returns exactly the tree the merge process defines, and a tree exactly when the table is non-empty |
| `HuffmanTree.BuildTreeShape` | scripts.js:19-34 | for a non-empty table the tree is well-formed (each internal freq is the sum of its children's), its leaves are the table's keys, each exactly once and with its frequency, and the root's freq is the sum of all counts; an empty table gives no tree |
| `CodeTable.Codes` | scripts.js:37-45 | exactly the leaf symbols receive codes, every code is non-empty and extends the path taken so far, and below an internal node every code is strictly longer than that path |
| `CodeTable.CodeFollowsPath` | scripts.js:37-45 | a symbol's code, after the path taken so far, leads from the subtree to a leaf with that symbol |
| `CodeTable.CodeCoverage` | scripts.js:38-44 | generateCodes gives a code to exactly the leaf symbols, every code is non-empty, and a lone root leaf gets the code "0" |
| `CodeTable.CodeIsPath` | scripts.js:37-45 | when the root has children, each code is exactly the root-to-leaf path of its symbol |
| `CodeTable.GeneratedCodesPrefixFree` | scripts.js:37-45 | no generated code is a prefix of another symbol's code |
| `CodeTable.DecodeEncode` | scripts.js:52-55 | decoding the concatenated codes of any sequence of leaf symbols by walking the same tree gives the sequence back |
| `Compress.HuffmanCompress` | scripts.js:47-57 | the loop-based compressor returns the specified result; empty input gives an empty bitstring and an empty code table |
| `Compress.CodesCoverInput` | scripts.js:49-54 | for non-empty input a tree exists, and its leaves and its code table's keys are exactly the input's symbols, so every input symbol has a code |
| `Compress.CompressCodes` | scripts.js:47-57 | the returned code table covers exactly the input's symbols, with non-empty, prefix-free codes |
| `Compress.CompressRoundTrip` | scripts.js:52-55 | decoding the returned bitstring with the tree it was built from reproduces the input |
| `Compress.RootWeighsInputLength` | scripts.js:25-34 | the root's frequency equals the input length |
| `Compress.EncodeLength` | scripts.js:52-55 | an encoding's length is the sum, over distinct symbols, of occurrences times code length |
| `Compress.CompressLength` | scripts.js:52-55 | the returned bitstring's length is the frequency-weighted sum of the code lengths |
| `Compress.SingleSymbol` | scripts.js:40 | an input of one symbol repeated n > 0 times gets the table {x: "0"} and the bitstring of n zeros |
| `Compress.CompressSizes` | scripts.js:79-81 | the original size is eight bits per counted symbol and the compressed size is the weighted code length |
| `Compress.SingleSymbolSizes` | scripts.js:79-81 | a one-symbol repetition of length n goes from 8n bits to n bits, saving 7n |
| `Compress.ExampleSingleChar` | scripts.js:47-65 | input "x" gives {x: "0"}, the bitstring "0" and the single byte 0 |
| `Compress.ExampleAaabbc` | scripts.js:18-65 | input "aaabbc" gives {a: "0", c: "10", b: "11"}, the bitstring 000111110 and the bytes 31, 0 |
| `Packing.FromBits` | scripts.js:63 | the base-2 value of n bits is below 2^n, so a group of eight is a byte |
| `Packing.PadTo8` | scripts.js:62 | a group is padded on the right with zeros to eight bits |
| `Packing.BinaryStringToByteArray` | scripts.js:59-66 | the loop stepping by eight returns exactly the packed bytes |
| `Packing.PackLength` | scripts.js:61-65 | a bitstring of length n packs into exactly ceil(n / 8) bytes |
| `Packing.PackByte` | scripts.js:62-63 | byte i is bits 8i to 8i+7 read most significant bit first, with bits past the end counted as 0 |

## Left out

- `compressFile` (scripts.js:86-146): DOM access, the progress timer, the asynchronous
  `FileReader`, alerts and HTML output are user interface and I/O.
- `downloadCompressedFile` (scripts.js:68-77): `Blob`, object URLs and link clicks are
  browser calls. Only the packing it calls is modelled.
- The percentage at scripts.js:82 and the megabyte figures at scripts.js:121-122 are
  floating-point arithmetic. `CalculateSizeReduction` keeps the two integer sizes. `Saved`
  is the numerator of the percentage and `originalSize` its denominator. The source divides
  0 by 0 for empty input, giving NaN; that case is not modelled.
- The enumeration order of `for...in`, where integer-like keys come first, is not computed.
  It is the parameter `order`, which must list every key once. None of the proved properties
  depend on it except the worked examples, which fix it.
- The difference between code points (walked by `for...of`) and UTF-16 code units (counted
  by `.length`) is not modelled. The input is one sequence of `char` with one length.
- The comparator internals of `Array.prototype.sort` are not modelled. They are replaced by a
  proved stable insertion sort by `freq`.
- `parseInt(byte, 2)` string parsing is not modelled. A byte is computed directly as the
  most-significant-first value of its bits (`FromBits`).
- The packer returns `seq<Byte>` rather than a `Uint8Array` object. Its contents are modelled,
  its object identity is not.
- `HuffmanNode` objects are modelled as values. Object identity and aliasing are not
  modelled; in the source each node is linked into exactly one parent and never changed
  afterwards.
- Appending `huffmanCodes[char]` for a symbol without a code would append the text
  "undefined". `Encode` requires every symbol to have a code instead, and
  `CodesCoverInput` proves that this always holds for the compressor's own table.
- Optimality of the code, that is minimal weighted length among all prefix codes, is not
  proved. The source does not state it.
