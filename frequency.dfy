/** Frequency analysis: how often each symbol occurs in the input. */
module Frequency {
  import opened HuffmanTypes

  /** The frequency table of `data`: one entry per distinct symbol, holding its number of occurrences. */
  function Frequencies(data: seq<Sym>): map<Sym, nat>
  {
    map s | s in data :: multiset(data)[s]
  }

  /** `order` lists every key of the table once: the order in which a for...in loop visits the keys. */
  predicate Enumerates(order: seq<Sym>, freq: map<Sym, nat>)
  {
    Distinct(order) && forall s :: s in order <==> s in freq
  }

  /** The table is filled in one pass, incrementing the entry of each symbol met. */
  method BuildFrequencyTable(data: seq<Sym>) returns (freq: map<Sym, nat>)
    ensures forall s :: s in freq <==> s in data
    ensures forall s :: s in freq ==> freq[s] == multiset(data)[s] > 0
    ensures freq == Frequencies(data)
  {
    freq := map[];
    for i := 0 to |data|
      invariant forall s :: s in freq <==> s in data[..i]
      invariant forall s :: s in freq ==> freq[s] == multiset(data[..i])[s]
    {
      var c := data[i];
      freq := freq[c := (if c in freq then freq[c] else 0) + 1];
      assert data[..i + 1] == data[..i] + [c];
    }
    assert data[..|data|] == data;
  }

  /** Sum of the table entries, taken in the order `order` visits them. */
  function SumFreq(order: seq<Sym>, freq: map<Sym, nat>): nat
    requires forall s :: s in order ==> s in freq
  {
    if order == [] then 0 else freq[order[0]] + SumFreq(order[1..], freq)
  }

  /** Sum of the multiplicities in `m` of the symbols in `order`. */
  function CountSum(order: seq<Sym>, m: multiset<Sym>): nat
  {
    if order == [] then 0 else m[order[0]] + CountSum(order[1..], m)
  }

  lemma {:induction false} CountSumAdd(order: seq<Sym>, m: multiset<Sym>, d: Sym)
    requires Distinct(order)
    ensures CountSum(order, m + multiset{d}) == CountSum(order, m) + (if d in order then 1 else 0)
  {
    if order != [] {
      CountSumAdd(order[1..], m, d);
      assert order[0] == d ==> d !in order[1..];
      assert d in order <==> d == order[0] || d in order[1..];
    }
  }

  /** Over a list of distinct symbols covering `m`, the multiplicities add up to the size of `m`. */
  lemma {:induction false} CountSumCovers(order: seq<Sym>, m: multiset<Sym>)
    requires Distinct(order)
    requires forall s :: s in m ==> s in order
    ensures CountSum(order, m) == |m|
    decreases |m|
  {
    if m == multiset{} {
      CountSumEmpty(order);
    } else {
      var d :| d in m;
      var m' := m - multiset{d};
      assert m == m' + multiset{d};
      CountSumCovers(order, m');
      CountSumAdd(order, m', d);
    }
  }

  lemma {:induction false} CountSumEmpty(order: seq<Sym>)
    ensures CountSum(order, multiset{}) == 0
  {
    if order != [] {
      CountSumEmpty(order[1..]);
    }
  }

  lemma {:induction false} SumFreqIsCountSum(order: seq<Sym>, data: seq<Sym>)
    requires forall s :: s in order ==> s in data
    ensures SumFreq(order, Frequencies(data)) == CountSum(order, multiset(data))
  {
    if order != [] {
      SumFreqIsCountSum(order[1..], data);
    }
  }

  /** Frequency conservation: the counts of the table add up to the input length. */
  lemma FrequencySum(data: seq<Sym>, order: seq<Sym>)
    requires Enumerates(order, Frequencies(data))
    ensures SumFreq(order, Frequencies(data)) == |data|
  {
    SumFreqIsCountSum(order, data);
    CountSumCovers(order, multiset(data));
  }
}
