/**
 * The dictionaries of the byte-pair-encoding trainer. A Python dict keeps
 * its keys in insertion order, so a table is the sequence of its entries;
 * `AddTo` is `d[k] = d.get(k, 0) + x` (and `d[k] += x` on a
 * `defaultdict(int)`), `Remove` is `del d[k]`.
 */
module BpeTables {

  import opened BpeWords

  /** The entries of a dict from keys to counts, in insertion order. */
  type Table<K> = seq<(K, int)>

  function KeySet<K(==)>(t: Table<K>): set<K> {
    if t == [] then {} else {t[0].0} + KeySet(t[1..])
  }

  /** No key has two entries, as in every dict. */
  predicate Distinct<K(==)>(t: Table<K>) {
    t == [] || (t[0].0 !in KeySet(t[1..]) && Distinct(t[1..]))
  }

  /** `d.get(k, 0)`. */
  function Lookup<K(==)>(t: Table<K>, k: K): int {
    if t == [] then 0 else if t[0].0 == k then t[0].1 else Lookup(t[1..], k)
  }

  /** `d[k] = d.get(k, 0) + x`: an existing key keeps its place, a new one goes last. */
  function AddTo<K(==)>(t: Table<K>, k: K, x: int): Table<K> {
    if t == [] then [(k, x)]
    else if t[0].0 == k then [(k, t[0].1 + x)] + t[1..]
    else [t[0]] + AddTo(t[1..], k, x)
  }

  /** `del d[k]`. */
  function Remove<K(==)>(t: Table<K>, k: K): Table<K> {
    if t == [] then []
    else if t[0].0 == k then Remove(t[1..], k)
    else [t[0]] + Remove(t[1..], k)
  }

  lemma {:induction false} LookupAbsent<K>(t: Table<K>, k: K)
    requires k !in KeySet(t)
    ensures Lookup(t, k) == 0
  {
    if t != [] {
      LookupAbsent(t[1..], k);
    }
  }

  /** Adding to a key changes the count of that key by the amount, and no other count. */
  lemma {:induction false} LookupAddTo<K>(t: Table<K>, k: K, x: int, q: K)
    ensures Lookup(AddTo(t, k, x), q) == Lookup(t, q) + (if q == k then x else 0)
  {
    if t != [] && t[0].0 != k {
      LookupAddTo(t[1..], k, x, q);
    }
  }

  /** Adding to a key makes it a key, and adds no other. */
  lemma {:induction false} KeySetAddTo<K>(t: Table<K>, k: K, x: int)
    ensures KeySet(AddTo(t, k, x)) == KeySet(t) + {k}
  {
    if t != [] && t[0].0 != k {
      KeySetAddTo(t[1..], k, x);
    }
  }

  /** Adding to a key keeps the keys distinct. */
  lemma {:induction false} DistinctAddTo<K>(t: Table<K>, k: K, x: int)
    requires Distinct(t)
    ensures Distinct(AddTo(t, k, x))
  {
    if t != [] && t[0].0 != k {
      DistinctAddTo(t[1..], k, x);
      KeySetAddTo(t[1..], k, x);
    }
  }

  /** After `del d[k]`, `k` counts zero and every other key keeps its count. */
  lemma {:induction false} LookupRemove<K>(t: Table<K>, k: K, q: K)
    ensures Lookup(Remove(t, k), q) == (if q == k then 0 else Lookup(t, q))
  {
    if t != [] {
      LookupRemove(t[1..], k, q);
    }
  }

  lemma {:induction false} KeySetRemove<K>(t: Table<K>, k: K)
    ensures KeySet(Remove(t, k)) == KeySet(t) - {k}
  {
    if t != [] {
      KeySetRemove(t[1..], k);
    }
  }

  lemma {:induction false} DistinctRemove<K>(t: Table<K>, k: K)
    requires Distinct(t)
    ensures Distinct(Remove(t, k))
  {
    if t != [] {
      DistinctRemove(t[1..], k);
      KeySetRemove(t[1..], k);
    }
  }

  /**
   * What a word contributes, per unit of its frequency, to a sum over a
   * word-frequency table: one (for the total), its occurrences of a pair,
   * the occurrences of a pair in its merged form, or whether its merged form
   * is a given word.
   */
  datatype Weight =
    | Each
    | PairsOf(p: Pair)
    | PairsAfterMerge(a: int, b: int, newId: int, p: Pair)
    | MergesTo(a: int, b: int, newId: int, v: Word)

  function WeightOf(wt: Weight, w: Word): int {
    match wt
    case Each => 1
    case PairsOf(p) => Occ(w, p)
    case PairsAfterMerge(a, b, newId, p) => Occ(MergedWord(w, a, b, newId), p)
    case MergesTo(a, b, newId, v) => if MergedWord(w, a, b, newId) == v then 1 else 0
  }

  /** The sum over the entries of frequency times weight. */
  function SumOver(t: Table<Word>, wt: Weight): int {
    if t == [] then 0 else t[0].1 * WeightOf(wt, t[0].0) + SumOver(t[1..], wt)
  }

  /** The sum of all frequencies. */
  function Total(t: Table<Word>): int {
    SumOver(t, Each)
  }

  /** How often `p` occurs over the words of `t`, each counted with its frequency. */
  function PairCount(t: Table<Word>, p: Pair): int {
    SumOver(t, PairsOf(p))
  }

  lemma {:induction false} SumOverSnoc(t: Table<Word>, e: (Word, int), wt: Weight)
    ensures SumOver(t + [e], wt) == SumOver(t, wt) + e.1 * WeightOf(wt, e.0)
  {
    if t != [] {
      assert (t + [e])[1..] == t[1..] + [e];
      SumOverSnoc(t[1..], e, wt);
    } else {
      assert t + [e] == [e];
    }
  }

  /** Adding `x` to the frequency of `k` adds `x` times the weight of `k`. */
  lemma {:induction false} SumOverAddTo(t: Table<Word>, k: Word, x: int, wt: Weight)
    ensures SumOver(AddTo(t, k, x), wt) == SumOver(t, wt) + x * WeightOf(wt, k)
  {
    var w := WeightOf(wt, k);
    if t == [] {
    } else if t[0].0 == k {
      assert AddTo(t, k, x)[1..] == t[1..];
      assert (t[0].1 + x) * w == t[0].1 * w + x * w;
    } else {
      SumOverAddTo(t[1..], k, x, wt);
      assert AddTo(t, k, x)[1..] == AddTo(t[1..], k, x);
    }
  }

  /** In a dict, summing the weight that singles out `k` gives the frequency of `k`. */
  lemma {:induction false} SumOverSingles(t: Table<Word>, wt: Weight, k: Word)
    requires Distinct(t)
    requires forall e :: e in KeySet(t) ==> WeightOf(wt, e) == (if e == k then 1 else 0)
    ensures SumOver(t, wt) == Lookup(t, k)
  {
    if t != [] {
      SumOverSingles(t[1..], wt, k);
      if t[0].0 == k {
        LookupAbsent(t[1..], k);
      }
    }
  }
}
