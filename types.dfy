/** Basic types shared by every stage of the Huffman pipeline. */
module HuffmanTypes {

  /** One input unit: the compressor walks its input string symbol by symbol. */
  type Sym = char

  /** One binary digit of the encoded bitstring (the characters '0' and '1'). */
  type Bit = b: int | 0 <= b <= 1

  /** One element of the packed byte array. */
  type Byte = b: int | 0 <= b < 256

  datatype Option<T> = None | Some(value: T)

  /** No symbol occurs twice in `s`. */
  predicate Distinct(s: seq<Sym>)
  {
    forall i, j :: 0 <= i < j < |s| ==> s[i] != s[j]
  }

  function Min(a: int, b: int): int
  {
    if a <= b then a else b
  }

  /** With no repetitions, each symbol occurs once or not at all. */
  lemma {:induction false} DistinctMultiplicity(s: seq<Sym>)
    requires Distinct(s)
    ensures forall x :: multiset(s)[x] == if x in s then 1 else 0
  {
    if s != [] {
      DistinctMultiplicity(s[1..]);
      assert s == [s[0]] + s[1..];
      assert s[0] !in s[1..];
    }
  }
}
