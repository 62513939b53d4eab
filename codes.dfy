/** Code assignment from the tree, encoding of the input, and decoding by walking the tree. */
module CodeTable {
  import opened HuffmanTypes
  import opened HuffmanTree

  /**
   * The codes that a pre-order walk from `t` assigns, `code` being the path taken so far:
   * "0" is appended on the way to the left child and "1" on the way to the right one, and
   * a leaf receives the path, or "0" when the path is empty. When a symbol is met again
   * later in the walk, the later assignment replaces the earlier one.
   */
  function Codes(t: Tree, code: seq<Bit>): (r: map<Sym, seq<Bit>>)
    ensures forall s :: s in r <==> s in LeafSyms(t)
    ensures forall s :: s in r ==> |r[s]| > 0 && |code| <= |r[s]| && r[s][..|code|] == code
    ensures t.Node? ==> forall s :: s in r ==> |code| < |r[s]|
  {
    match t
    case Leaf(s, _) => map[s := if code == [] then [0] else code]
    case Node(_, l, rt) =>
      var left, right := Codes(l, code + [0]), Codes(rt, code + [1]);
      assert forall s :: s in left ==> left[s][..|code|] == (code + [0])[..|code|];
      assert forall s :: s in right ==> right[s][..|code|] == (code + [1])[..|code|];
      left + right
  }

  /** generateCodes(root): no tree (the `undefined` root) gives no codes. */
  function GenerateCodes(root: Option<Tree>): map<Sym, seq<Bit>>
  {
    match root
    case None => map[]
    case Some(t) => Codes(t, [])
  }

  /** No code is a prefix of the code of another symbol. */
  predicate PrefixFree(codes: map<Sym, seq<Bit>>)
  {
    forall s1, s2 :: s1 in codes && s2 in codes && s1 != s2 ==> !(codes[s1] <= codes[s2])
  }

  /**
   * Follows `bits` from `t` down to a leaf; yields the leaf's symbol and the bits left over,
   * or None when the bits run out before a leaf is reached.
   */
  function Walk(t: Tree, bits: seq<Bit>): (r: Option<(Sym, seq<Bit>)>)
    ensures r.Some? ==> |r.value.1| <= |bits| && r.value.1 == bits[|bits| - |r.value.1|..]
    ensures r.Some? && t.Node? ==> |r.value.1| < |bits|
  {
    match t
    case Leaf(s, _) => Some((s, bits))
    case Node(_, l, rt) =>
      if bits == [] then None else Walk(if bits[0] == 0 then l else rt, bits[1..])
  }

  /** Reads one symbol; a lone leaf as root has the one-bit code 0. */
  function DecodeSymbol(root: Tree, bits: seq<Bit>): (r: Option<(Sym, seq<Bit>)>)
    ensures r.Some? ==> |r.value.1| < |bits|
  {
    if root.Leaf? then
      if bits != [] && bits[0] == 0 then Some((root.sym, bits[1..])) else None
    else Walk(root, bits)
  }

  /** Decodes a whole bitstring with the tree it was encoded with. */
  function Decode(root: Tree, bits: seq<Bit>): Option<seq<Sym>>
    decreases |bits|
  {
    if bits == [] then Some([])
    else
      match DecodeSymbol(root, bits)
      case None => None
      case Some((s, rest)) =>
        match Decode(root, rest)
        case None => None
        case Some(tail) => Some([s] + tail)
  }

  /** The code of every symbol, symbol after symbol, in input order. */
  function Encode(codes: map<Sym, seq<Bit>>, data: seq<Sym>): seq<Bit>
    requires forall s :: s in data ==> s in codes
  {
    if data == [] then []
    else Encode(codes, data[..|data| - 1]) + codes[data[|data| - 1]]
  }

  // ---------------------------------------------------------------------------
  // Properties of the codes

  /**
   * Below the root, the code of each symbol continues `code` with the path from `t` to a
   * leaf carrying that symbol.
   */
  lemma {:induction false} CodeFollowsPath(t: Tree, code: seq<Bit>, s: Sym, rest: seq<Bit>)
    requires s in Codes(t, code)
    requires t.Node? || code != []
    ensures Walk(t, Codes(t, code)[s][|code|..] + rest) == Some((s, rest))
  {
    match t
    case Leaf(x, _) =>
      assert Codes(t, code)[s][|code|..] == [];
      assert [] + rest == rest;
    case Node(_, l, rt) =>
      if s in Codes(rt, code + [1]) {
        CodeFollowsPath(rt, code + [1], s, rest);
        assert Codes(t, code)[s] == Codes(rt, code + [1])[s];
        StepDown(t, rt, code, 1, Codes(rt, code + [1])[s], s, rest);
      } else {
        CodeFollowsPath(l, code + [0], s, rest);
        assert Codes(t, code)[s] == Codes(l, code + [0])[s];
        StepDown(t, l, code, 0, Codes(l, code + [0])[s], s, rest);
      }
  }

  /** The step of CodeFollowsPath from a node to the child whose codes continue with `b`. */
  lemma StepDown(t: Tree, child: Tree, code: seq<Bit>, b: Bit, c: seq<Bit>, s: Sym, rest: seq<Bit>)
    requires t.Node? && child == (if b == 0 then t.left else t.right)
    requires |code| < |c| && c[..|code| + 1] == code + [b]
    requires Walk(child, c[|code| + 1..] + rest) == Some((s, rest))
    ensures Walk(t, c[|code|..] + rest) == Some((s, rest))
  {
    var bits := c[|code|..] + rest;
    assert c[|code|] == (code + [b])[|code|] == b;
    assert bits[0] == b;
    assert bits[1..] == c[|code| + 1..] + rest;
  }

  /**
   * Code coverage: the leaf symbols, and only they, receive a code; every code is non-empty;
   * a lone root leaf gets the code "0".
   */
  lemma CodeCoverage(root: Tree)
    ensures forall s :: s in GenerateCodes(Some(root)) <==> s in LeafSyms(root)
    ensures forall s :: s in GenerateCodes(Some(root)) ==> |GenerateCodes(Some(root))[s]| > 0
    ensures root.Leaf? ==> GenerateCodes(Some(root)) == map[root.sym := [0]]
  {
  }

  /** When the root has children, each code is exactly the root-to-leaf path of its symbol. */
  lemma CodeIsPath(root: Tree, s: Sym)
    requires root.Node? && s in GenerateCodes(Some(root))
    ensures Walk(root, GenerateCodes(Some(root))[s]) == Some((s, []))
  {
    var c := GenerateCodes(Some(root))[s];
    CodeFollowsPath(root, [], s, []);
    assert c[0..] + [] == c;
  }

  /** Prefix-freeness of the generated codes. */
  lemma GeneratedCodesPrefixFree(root: Tree)
    ensures PrefixFree(GenerateCodes(Some(root)))
  {
    var codes := GenerateCodes(Some(root));
    forall s1, s2 | s1 in codes && s2 in codes && codes[s1] <= codes[s2]
      ensures s1 == s2
    {
      if root.Node? {
        var c1, c2 := codes[s1], codes[s2];
        var d := c2[|c1|..];
        assert c2 == c1 + d;
        CodeFollowsPath(root, [], s1, d);
        CodeFollowsPath(root, [], s2, []);
        assert c1[0..] == c1 && c2[0..] == c2;
        assert c2 + [] == c2;
      }
    }
  }

  // ---------------------------------------------------------------------------
  // Encoding and decoding

  lemma {:induction false} EncodeAppend(codes: map<Sym, seq<Bit>>, a: seq<Sym>, b: seq<Sym>)
    requires forall s :: s in a ==> s in codes
    requires forall s :: s in b ==> s in codes
    ensures Encode(codes, a + b) == Encode(codes, a) + Encode(codes, b)
    decreases |b|
  {
    if b == [] {
      assert a + b == a;
    } else {
      var init, last := b[..|b| - 1], b[|b| - 1];
      assert (a + b)[..|a + b| - 1] == a + init;
      EncodeAppend(codes, a, init);
    }
  }

  lemma EncodeCons(codes: map<Sym, seq<Bit>>, data: seq<Sym>)
    requires data != [] && forall s :: s in data ==> s in codes
    ensures Encode(codes, data) == codes[data[0]] + Encode(codes, data[1..])
  {
    assert data == [data[0]] + data[1..];
    EncodeAppend(codes, [data[0]], data[1..]);
    assert [data[0]][..0] == [];
  }

  /** Reading the code of `s` off the front of a bitstring yields `s` and the rest. */
  lemma DecodeSymbolOfCode(root: Tree, s: Sym, rest: seq<Bit>)
    requires s in GenerateCodes(Some(root))
    ensures DecodeSymbol(root, GenerateCodes(Some(root))[s] + rest) == Some((s, rest))
  {
    var c := GenerateCodes(Some(root))[s];
    if root.Node? {
      CodeFollowsPath(root, [], s, rest);
      assert c[0..] == c;
    } else {
      assert c == [0];
      assert (c + rest)[1..] == rest;
    }
  }

  /** One step of Decode: a symbol read off the front, then the rest decoded. */
  lemma DecodeStep(root: Tree, bits: seq<Bit>, s: Sym, rest: seq<Bit>, tail: seq<Sym>)
    requires bits != [] && DecodeSymbol(root, bits) == Some((s, rest))
    requires Decode(root, rest) == Some(tail)
    ensures Decode(root, bits) == Some([s] + tail)
  {
  }

  /** Round trip: decoding the encoding with the same tree gives the input back. */
  lemma {:induction false} DecodeEncode(root: Tree, data: seq<Sym>)
    requires forall s :: s in data ==> s in LeafSyms(root)
    ensures forall s :: s in data ==> s in GenerateCodes(Some(root))
    ensures Decode(root, Encode(GenerateCodes(Some(root)), data)) == Some(data)
  {
    var codes := GenerateCodes(Some(root));
    if data == [] {
      assert Encode(codes, data) == [];
    } else {
      var d := data[0];
      EncodeCons(codes, data);
      var tail := Encode(codes, data[1..]);
      DecodeEncode(root, data[1..]);
      DecodeSymbolOfCode(root, d, tail);
      assert |codes[d]| > 0;
      DecodeStep(root, codes[d] + tail, d, tail, data[1..]);
      assert data == [d] + data[1..];
    }
  }
}
