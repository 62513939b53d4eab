/** The compression pipeline: frequencies, tree, codes, encoded bitstring and size figures. */
module Compress {
  import opened HuffmanTypes
  import opened Frequency
  import opened HuffmanTree
  import opened CodeTable
  import opened Packing

  /** The object huffmanCompress returns. */
  datatype CompressResult = CompressResult(encodedData: seq<Bit>, huffmanCodes: map<Sym, seq<Bit>>)

  /**
   * What huffmanCompress computes, `order` being the order in which the frequency table's
   * keys are enumerated. Empty input short-circuits to an empty bitstring and no codes.
   */
  function CompressSpec(data: seq<Sym>, order: seq<Sym>): CompressResult
    requires Enumerates(order, Frequencies(data))
  {
    if data == [] then CompressResult([], map[])
    else
      var codes := GenerateCodes(BuildTree(Frequencies(data), order));
      CodesCoverInput(data, order);
      CompressResult(Encode(codes, data), codes)
  }

  /** For non-empty input there is a tree, and exactly the input's symbols are its leaves. */
  lemma CodesCoverInput(data: seq<Sym>, order: seq<Sym>)
    requires data != [] && Enumerates(order, Frequencies(data))
    ensures BuildTree(Frequencies(data), order).Some?
    ensures var root := BuildTree(Frequencies(data), order).value;
      (forall s :: s in LeafSyms(root) <==> s in data) &&
      (forall s :: s in GenerateCodes(Some(root)) <==> s in data)
  {
    var freq := Frequencies(data);
    assert data[0] in freq;
    BuildTreeShape(freq, order);
    var root := BuildTree(freq, order).value;
    forall s
      ensures s in LeafSyms(root) <==> s in data
    {
      assert s in LeafSyms(root) <==> s in multiset(LeafSyms(root));
    }
    CodeCoverage(root);
  }

  /** huffmanCompress: count, build the tree, read off the codes, then append code after code. */
  method HuffmanCompress(data: seq<Sym>, order: seq<Sym>) returns (result: CompressResult)
    requires Enumerates(order, Frequencies(data))
    ensures data == [] ==> result == CompressResult([], map[])
    ensures result == CompressSpec(data, order)
  {
    if data == [] {
      return CompressResult([], map[]);
    }
    var frequency := BuildFrequencyTable(data);
    var huffmanTree := BuildHuffmanTree(frequency, order);
    var huffmanCodes := GenerateCodes(huffmanTree);
    CodesCoverInput(data, order);
    var encodedData: seq<Bit> := [];
    for i := 0 to |data|
      invariant encodedData == Encode(huffmanCodes, data[..i])
    {
      encodedData := encodedData + huffmanCodes[data[i]];
      assert data[..i + 1][..i] == data[..i];
    }
    assert data[..|data|] == data;
    result := CompressResult(encodedData, huffmanCodes);
  }

  // ---------------------------------------------------------------------------
  // Properties of the result

  /**
   * The code table covers exactly the input's symbols, with non-empty codes no one of which
   * is a prefix of another.
   */
  lemma CompressCodes(data: seq<Sym>, order: seq<Sym>)
    requires Enumerates(order, Frequencies(data))
    ensures var codes := CompressSpec(data, order).huffmanCodes;
      (forall s :: s in codes <==> s in data) &&
      (forall s :: s in codes ==> |codes[s]| > 0) &&
      PrefixFree(codes)
  {
    if data != [] {
      CodesCoverInput(data, order);
      var root := BuildTree(Frequencies(data), order).value;
      CodeCoverage(root);
      GeneratedCodesPrefixFree(root);
    }
  }

  /** Decoding the bitstring by walking the same tree reproduces the input. */
  lemma CompressRoundTrip(data: seq<Sym>, order: seq<Sym>)
    requires data != [] && Enumerates(order, Frequencies(data))
    ensures BuildTree(Frequencies(data), order).Some?
    ensures Decode(BuildTree(Frequencies(data), order).value, CompressSpec(data, order).encodedData) == Some(data)
  {
    CodesCoverInput(data, order);
    DecodeEncode(BuildTree(Frequencies(data), order).value, data);
  }

  /** The tree built for non-empty input weighs as much as the input is long. */
  lemma RootWeighsInputLength(data: seq<Sym>, order: seq<Sym>)
    requires data != [] && Enumerates(order, Frequencies(data))
    ensures BuildTree(Frequencies(data), order).Some?
    ensures BuildTree(Frequencies(data), order).value.freq == |data|
  {
    assert data[0] in Frequencies(data);
    BuildTreeShape(Frequencies(data), order);
    FrequencySum(data, order);
  }

  /** Sum, over the symbols of `order`, of count times code length. */
  function WeightedLength(order: seq<Sym>, counts: multiset<Sym>, codes: map<Sym, seq<Bit>>): nat
    requires forall s :: s in order ==> s in codes
  {
    if order == [] then 0 else counts[order[0]] * |codes[order[0]]| + WeightedLength(order[1..], counts, codes)
  }

  lemma {:induction false} WeightedLengthAdd(order: seq<Sym>, counts: multiset<Sym>, codes: map<Sym, seq<Bit>>, d: Sym)
    requires Distinct(order) && forall s :: s in order ==> s in codes
    requires d in order
    ensures WeightedLength(order, counts + multiset{d}, codes) == WeightedLength(order, counts, codes) + |codes[d]|
  {
    if order[0] == d {
      assert d !in order[1..];
      WeightedLengthSame(order[1..], counts, codes, d);
    } else {
      WeightedLengthAdd(order[1..], counts, codes, d);
    }
  }

  lemma {:induction false} WeightedLengthSame(order: seq<Sym>, counts: multiset<Sym>, codes: map<Sym, seq<Bit>>, d: Sym)
    requires d !in order && forall s :: s in order ==> s in codes
    ensures WeightedLength(order, counts + multiset{d}, codes) == WeightedLength(order, counts, codes)
  {
    if order != [] {
      WeightedLengthSame(order[1..], counts, codes, d);
    }
  }

  lemma {:induction false} WeightedLengthEmpty(order: seq<Sym>, codes: map<Sym, seq<Bit>>)
    requires forall s :: s in order ==> s in codes
    ensures WeightedLength(order, multiset{}, codes) == 0
  {
    if order != [] {
      WeightedLengthEmpty(order[1..], codes);
    }
  }

  /** The length of an encoding is the sum over distinct symbols of occurrences times code length. */
  lemma {:induction false} EncodeLength(codes: map<Sym, seq<Bit>>, data: seq<Sym>, order: seq<Sym>)
    requires Distinct(order) && forall s :: s in order ==> s in codes
    requires forall s :: s in data ==> s in order
    ensures forall s :: s in data ==> s in codes
    ensures |Encode(codes, data)| == WeightedLength(order, multiset(data), codes)
    decreases |data|
  {
    if data == [] {
      WeightedLengthEmpty(order, codes);
    } else {
      var init, last := data[..|data| - 1], data[|data| - 1];
      EncodeLength(codes, init, order);
      assert data == init + [last];
      WeightedLengthAdd(order, multiset(init), codes, last);
    }
  }

  /** Compressed size: the bitstring is as long as the frequency-weighted sum of the code lengths. */
  lemma CompressLength(data: seq<Sym>, order: seq<Sym>)
    requires Enumerates(order, Frequencies(data))
    ensures var codes := CompressSpec(data, order).huffmanCodes;
      (forall s :: s in order ==> s in codes) &&
      |CompressSpec(data, order).encodedData| == WeightedLength(order, multiset(data), codes)
  {
    CompressCodes(data, order);
    var codes := CompressSpec(data, order).huffmanCodes;
    if data == [] {
      assert Frequencies(data).Keys == {};
      EnumerationEmpty(order, Frequencies(data));
    } else {
      EncodeLength(codes, data, order);
    }
  }

  /** In a one-symbol repetition the tree is a single leaf, and the code of the symbol is "0". */
  lemma {:induction false} SingleSymbol(x: Sym, n: nat, order: seq<Sym>)
    requires n > 0
    requires Enumerates(order, Frequencies(seq(n, _ => x)))
    ensures CompressSpec(seq(n, _ => x), order) == CompressResult(Zeros(n), map[x := [0]])
  {
    var data: seq<Sym> := seq(n, _ => x);
    assert data[0] == x;
    assert forall s :: s in data <==> s == x;
    assert order == [x] by {
      assert x in order;
      forall i | 0 <= i < |order|
        ensures order[i] == x
      {
        assert order[i] in Frequencies(data);
      }
      DistinctMultiplicity(order);
      ConstantMultiplicity(order, x);
    }
    var freq := Frequencies(data);
    var leaves := LeavesOf(freq, order);
    assert leaves == [Leaf(x, freq[x])];
    assert SortByFreq(leaves) == leaves;
    var codes := GenerateCodes(BuildTree(freq, order));
    assert codes == map[x := [0]];
    EncodeRepeat(x, n, codes);
  }

  /** n zero bits. */
  function Zeros(n: nat): (r: seq<Bit>)
    ensures |r| == n
  {
    seq(n, _ => 0)
  }

  lemma {:induction false} ConstantMultiplicity(s: seq<Sym>, x: Sym)
    requires forall i :: 0 <= i < |s| ==> s[i] == x
    ensures multiset(s)[x] == |s|
  {
    if s != [] {
      ConstantMultiplicity(s[1..], x);
      assert s == [s[0]] + s[1..];
    }
  }

  lemma {:induction false} EncodeRepeat(x: Sym, n: nat, codes: map<Sym, seq<Bit>>)
    requires codes == map[x := [0]]
    ensures forall s :: s in seq(n, _ => x) ==> s in codes
    ensures Encode(codes, seq(n, _ => x)) == Zeros(n)
  {
    if n > 0 {
      EncodeRepeat(x, n - 1, codes);
      assert seq(n, _ => x)[..n - 1] == seq(n - 1, _ => x);
      assert Zeros(n) == Zeros(n - 1) + [0];
    }
  }

  // ---------------------------------------------------------------------------
  // Size statistics

  /** The integer sizes behind the reported reduction, both in bits. */
  datatype SizeReduction = SizeReduction(originalSize: nat, compressedSize: nat)
  {
    /** Numerator of the reduction percentage; the denominator is originalSize. */
    function Saved(): int
    {
      originalSize - compressedSize
    }
  }

  /** calculateSizeReduction without its floating-point division. */
  function CalculateSizeReduction(originalData: seq<Sym>, encodedData: seq<Bit>): SizeReduction
  {
    SizeReduction(8 * |originalData|, |encodedData|)
  }

  /**
   * For a compressed input, the original size is eight bits per counted symbol and the
   * compressed size is the frequency-weighted sum of the code lengths.
   */
  lemma CompressSizes(data: seq<Sym>, order: seq<Sym>)
    requires Enumerates(order, Frequencies(data))
    ensures var r := CompressSpec(data, order);
      var sizes := CalculateSizeReduction(data, r.encodedData);
      (forall s :: s in order ==> s in r.huffmanCodes) &&
      sizes.originalSize == 8 * SumFreq(order, Frequencies(data)) &&
      sizes.compressedSize == WeightedLength(order, multiset(data), r.huffmanCodes)
  {
    FrequencySum(data, order);
    CompressLength(data, order);
  }

  /** A one-symbol repetition of length n shrinks from 8n bits to n bits. */
  lemma SingleSymbolSizes(x: Sym, n: nat, order: seq<Sym>)
    requires n > 0
    requires Enumerates(order, Frequencies(seq(n, _ => x)))
    ensures var sizes := CalculateSizeReduction(seq(n, _ => x), CompressSpec(seq(n, _ => x), order).encodedData);
      sizes.originalSize == 8 * n && sizes.compressedSize == n && sizes.Saved() == 7 * n
  {
    SingleSymbol(x, n, order);
  }

  // ---------------------------------------------------------------------------
  // Worked examples

  /** Input "x": the code table {x: "0"}, the bitstring "0", and one zero byte. */
  lemma ExampleSingleChar()
    ensures CompressSpec("x", "x") == CompressResult([0], map['x' := [0]])
    ensures Pack(CompressSpec("x", "x").encodedData) == [0]
  {
    assert "x" == seq(1, _ => 'x');
    assert Frequencies("x").Keys == {'x'};
    SingleSymbol('x', 1, "x");
    assert Zeros(1) == [0];
    var bits: seq<Bit> := [0];
    assert bits[0..Min(8, 1)] == [0];
    assert bits[Min(8, 1)..] == [];
    assert Pack(bits) == [ByteAt(bits, 0)] + Pack([]);
    assert PadTo8([0]) == [0, 0, 0, 0, 0, 0, 0, 0];
    FromBits8(PadTo8([0]));
  }

  /**
   * Input "aaabbc", keys enumerated in insertion order: c and b merge first (c on the left),
   * then a joins on the left, giving {a: "0", c: "10", b: "11"}, the 9-bit string
   * 000111110 and the bytes 00011111 and 00000000.
   */
  lemma ExampleAaabbc()
    ensures CompressSpec("aaabbc", "abc") ==
      CompressResult([0, 0, 0, 1, 1, 1, 1, 1, 0], map['a' := [0], 'b' := [1, 1], 'c' := [1, 0]])
    ensures Pack(CompressSpec("aaabbc", "abc").encodedData) == [31, 0]
  {
    ExampleFrequencies();
    ExampleTree();
    var root := Node(6, Leaf('a', 3), Node(3, Leaf('c', 1), Leaf('b', 2)));
    var codes := GenerateCodes(Some(root));
    ExampleCodes(root);
    EncodeExample(codes);
    PackExample();
  }

  lemma ExampleCodes(root: Tree)
    requires root == Node(6, Leaf('a', 3), Node(3, Leaf('c', 1), Leaf('b', 2)))
    ensures GenerateCodes(Some(root)) == map['a' := [0], 'b' := [1, 1], 'c' := [1, 0]]
  {
    var e: seq<Bit> := [];
    assert e + [0] == [0] && e + [1] == [1];
    assert Codes(root, []) == Codes(root.left, [0]) + Codes(root.right, [1]);
    ExampleCodesLeft(root.left);
    ExampleCodesRight(root.right);
    ExampleCodesUnion(Codes(root.left, [0]), Codes(root.right, [1]));
  }

  lemma ExampleCodesUnion(left: map<Sym, seq<Bit>>, right: map<Sym, seq<Bit>>)
    requires left == map['a' := [0]] && right == map['c' := [1, 0], 'b' := [1, 1]]
    ensures left + right == map['a' := [0], 'b' := [1, 1], 'c' := [1, 0]]
  {
    var all: map<Sym, seq<Bit>> := map['a' := [0], 'b' := [1, 1], 'c' := [1, 0]];
    assert (left + right).Keys == all.Keys;
  }

  lemma ExampleCodesLeft(t: Tree)
    requires t == Leaf('a', 3)
    ensures Codes(t, [0]) == map['a' := [0]]
  {
  }

  lemma ExampleCodesRight(t: Tree)
    requires t == Node(3, Leaf('c', 1), Leaf('b', 2))
    ensures Codes(t, [1]) == map['c' := [1, 0], 'b' := [1, 1]]
  {
    var one: seq<Bit> := [1];
    assert one + [0] == [1, 0] && one + [1] == [1, 1];
    assert Codes(Leaf('c', 1), [1, 0]) == map['c' := [1, 0]];
    assert Codes(Leaf('b', 2), [1, 1]) == map['b' := [1, 1]];
  }

  lemma ExampleFrequencies()
    ensures Frequencies("aaabbc") == map['a' := 3, 'b' := 2, 'c' := 1]
  {
    var m := multiset("aaabbc");
    assert m == multiset{'a', 'a', 'a', 'b', 'b', 'c'};
    assert m['a'] == 3 && m['b'] == 2 && m['c'] == 1;
    assert Frequencies("aaabbc").Keys == {'a', 'b', 'c'};
  }

  lemma ExampleTree()
    ensures BuildTree(map['a' := 3, 'b' := 2, 'c' := 1], "abc") ==
      Some(Node(6, Leaf('a', 3), Node(3, Leaf('c', 1), Leaf('b', 2))))
  {
    var freq := map['a' := 3, 'b' := 2, 'c' := 1];
    var a, b, c := Leaf('a', 3), Leaf('b', 2), Leaf('c', 1);
    assert "abc"[..2] == "ab" && "ab"[..1] == "a" && "a"[..0] == [];
    assert LeavesOf(freq, "a") == [a];
    assert LeavesOf(freq, "ab") == [a, b];
    assert LeavesOf(freq, "abc") == [a, b, c];
    ExampleSort(a, b, c);
    var cb := Node(3, c, b);
    ExampleMerges(a, cb, c, b);
  }

  lemma ExampleSort(a: Tree, b: Tree, c: Tree)
    requires a == Leaf('a', 3) && b == Leaf('b', 2) && c == Leaf('c', 1)
    ensures SortByFreq([a, b, c]) == [c, b, a]
  {
    assert [a, b, c][..2] == [a, b] && [a, b][..1] == [a] && [a][..0] == [];
    assert SortByFreq([a]) == [a];
    assert SortByFreq([a, b]) == [b, a];
  }

  lemma ExampleMerges(a: Tree, cb: Tree, c: Tree, b: Tree)
    requires a == Leaf('a', 3) && b == Leaf('b', 2) && c == Leaf('c', 1) && cb == Node(3, c, b)
    ensures MergeAll([c, b, a]) == Node(6, a, cb)
  {
    assert Merge(c, b) == cb;
    assert [c, b, a][2..] + [Merge(c, b)] == [a, cb];
    assert MergeStep([c, b, a]) == SortByFreq([a, cb]);
    assert [a, cb][..1] == [a];
    assert Insert([a], cb) == [a] + Insert([], cb);
    assert SortByFreq([a, cb]) == [a, cb];
    var root := Node(6, a, cb);
    assert [a, cb][2..] == [];
    assert MergeStep([a, cb]) == SortByFreq([root]);
    assert [root][..0] == [];
    assert SortByFreq([root]) == [root];
    assert MergeAll([a, cb]) == root;
  }

  lemma PackExample()
    ensures Pack([0, 0, 0, 1, 1, 1, 1, 1, 0]) == [31, 0]
  {
    var bits: seq<Bit> := [0, 0, 0, 1, 1, 1, 1, 1, 0];
    var byte0 := PadTo8(bits[0..8]);
    var byte1 := PadTo8(bits[8..9]);
    assert byte0 == [0, 0, 0, 1, 1, 1, 1, 1];
    assert byte1 == [0, 0, 0, 0, 0, 0, 0, 0];
    FromBits8(byte0);
    FromBits8(byte1);
    assert Pack(bits) == [ByteAt(bits, 0)] + Pack(bits[8..]);
    assert bits[8..][0..1] == bits[8..9];
    assert bits[8..][1..] == [];
    assert Pack(bits[8..]) == [ByteAt(bits[8..], 0)] + Pack([]);
  }

  lemma EncodeExample(codes: map<Sym, seq<Bit>>)
    requires codes == map['a' := [0], 'b' := [1, 1], 'c' := [1, 0]]
    ensures Encode(codes, "aaabbc") == [0, 0, 0, 1, 1, 1, 1, 1, 0]
  {
    assert "a"[..0] == [] && "aa"[..1] == "a" && "aaa"[..2] == "aa";
    assert "aaab"[..3] == "aaa" && "aaabb"[..4] == "aaab" && "aaabbc"[..5] == "aaabb";
    assert Encode(codes, "a") == [0];
    assert Encode(codes, "aa") == [0, 0];
    assert Encode(codes, "aaa") == [0, 0, 0];
    assert Encode(codes, "aaab") == [0, 0, 0, 1, 1];
    assert Encode(codes, "aaabb") == [0, 0, 0, 1, 1, 1, 1];
  }
}
