/**
 * Pair counting and one merge over a word-frequency table, as
 * `get_pair_freqs` and `merge` in `bpe_train_original.py` do them: the
 * first counts every adjacent pair of every word, weighted by the word's
 * frequency; the second rewrites every word containing the chosen pair and
 * keeps the pair counts up to date by taking off the pairs of the old word
 * and adding those of the new one.
 */
module BpeCounting {

  import opened BpeWords
  import opened BpeTables

  /** `p` is one of the adjacent pairs of `w`. */
  predicate PairIn(w: Word, p: Pair) {
    exists i :: 0 <= i && i + 1 < |w| && PairAt(w, i, p)
  }

  /** `p` is an adjacent pair of some word of the table. */
  predicate Occurs(freqs: Table<Word>, p: Pair) {
    exists w :: w in KeySet(freqs) && PairIn(w, p)
  }

  lemma {:induction false} EntryKey<K>(t: Table<K>, e: nat)
    requires e < |t|
    ensures t[e].0 in KeySet(t)
  {
    if e > 0 {
      EntryKey(t[1..], e - 1);
    }
  }

  /**
   * `pair_freqs[word[i], word[i + 1]] += x` for every position of `word`:
   * every pair's count moves by `x` times its occurrences in `word`.
   */
  method AddPairs(pairFreqs: Table<Pair>, word: Word, x: int) returns (r: Table<Pair>)
    ensures forall p :: Lookup(r, p) == Lookup(pairFreqs, p) + x * Occ(word, p)
    ensures forall p :: p in KeySet(r) <==> p in KeySet(pairFreqs) || PairIn(word, p)
    ensures Distinct(pairFreqs) ==> Distinct(r)
  {
    r := pairFreqs;
    // range(len(word) - 1), which is empty for the empty word
    var n := if |word| == 0 then 0 else |word| - 1;
    for i := 0 to n
      invariant forall p :: Lookup(r, p) == Lookup(pairFreqs, p) + x * OccBefore(word, p, i)
      invariant forall p :: p in KeySet(r) <==> p in KeySet(pairFreqs) || exists j :: 0 <= j < i && PairAt(word, j, p)
      invariant Distinct(pairFreqs) ==> Distinct(r)
    {
      var pair := (word[i], word[i + 1]);
      forall p
        ensures Lookup(AddTo(r, pair, x), p) == Lookup(pairFreqs, p) + x * OccBefore(word, p, i + 1)
      {
        LookupAddTo(r, pair, x, p);
        var o := OccBefore(word, p, i);
        assert x * (o + 1) == x * o + x;
      }
      KeySetAddTo(r, pair, x);
      assert PairAt(word, i, pair);
      if Distinct(pairFreqs) {
        DistinctAddTo(r, pair, x);
      }
      r := AddTo(r, pair, x);
    }
    forall p | p in KeySet(r)
      ensures p in KeySet(pairFreqs) || PairIn(word, p)
    {
    }
    forall p | PairIn(word, p)
      ensures p in KeySet(r)
    {
      var j :| 0 <= j && j + 1 < |word| && PairAt(word, j, p);
    }
  }

  /**
   * `get_pair_freqs`: for every word and every position in it, the count of
   * the pair at that position grows by the word's frequency.
   */
  method GetPairFreqs(freqs: Table<Word>) returns (pairFreqs: Table<Pair>)
    ensures Distinct(pairFreqs)
    ensures forall p :: Lookup(pairFreqs, p) == PairCount(freqs, p)
    ensures forall p :: p in KeySet(pairFreqs) <==> Occurs(freqs, p)
  {
    pairFreqs := [];
    for e := 0 to |freqs|
      invariant Distinct(pairFreqs)
      invariant forall p :: Lookup(pairFreqs, p) == PairCount(freqs[..e], p)
      invariant forall p :: p in KeySet(pairFreqs) <==> Occurs(freqs[..e], p)
    {
      var (word, freq) := freqs[e];
      assert freqs[..e + 1] == freqs[..e] + [freqs[e]];
      pairFreqs := AddPairs(pairFreqs, word, freq);
      forall p
        ensures Lookup(pairFreqs, p) == PairCount(freqs[..e + 1], p)
      {
        SumOverSnoc(freqs[..e], freqs[e], PairsOf(p));
      }
      KeySetSnoc(freqs[..e], freqs[e]);
    }
    assert freqs[..|freqs|] == freqs;
  }

  lemma {:induction false} KeySetSnoc<K>(t: Table<K>, e: (K, int))
    ensures KeySet(t + [e]) == KeySet(t) + {e.0}
  {
    if t == [] {
      assert t + [e] == [e];
    } else {
      assert (t + [e])[1..] == t[1..] + [e];
      KeySetSnoc(t[1..], e);
    }
  }

  /** Every word of `newFreqs` is the merged form of a word of `freqs`. */
  ghost predicate WordsFrom(newFreqs: Table<Word>, freqs: Table<Word>, a: int, b: int, newId: int) {
    forall v :: v in KeySet(newFreqs) ==> exists u :: u in KeySet(freqs) && v == MergedWord(u, a, b, newId)
  }

  /** Every key of `newPairFreqs` was a key of `pairFreqs` or is a pair of an old or a new word. */
  ghost predicate PairKeysFrom(newPairFreqs: Table<Pair>, pairFreqs: Table<Pair>, freqs: Table<Word>, newFreqs: Table<Word>) {
    forall p :: p in KeySet(newPairFreqs) ==> p in KeySet(pairFreqs) || Occurs(freqs, p) || Occurs(newFreqs, p)
  }

  /**
   * `merge`: every word containing `(a, b)` is rewritten with `newId` in its
   * place; words that become equal share one entry, whose frequency is the
   * sum of theirs. The pair table is updated word by word: the rewritten
   * word's old pairs are taken off and its new pairs added, each weighted by
   * the word's frequency. Python changes `pair_freqs` in place; here the
   * updated table is returned.
   */
  method Merge(freqs: Table<Word>, pairFreqs: Table<Pair>, a: int, b: int, newId: int)
    returns (newFreqs: Table<Word>, newPairFreqs: Table<Pair>)
    ensures Distinct(newFreqs)
    ensures Distinct(pairFreqs) ==> Distinct(newPairFreqs)
    ensures forall v :: Lookup(newFreqs, v) == SumOver(freqs, MergesTo(a, b, newId, v))
    ensures Total(newFreqs) == Total(freqs)
    ensures forall p :: PairCount(newFreqs, p) == SumOver(freqs, PairsAfterMerge(a, b, newId, p))
    ensures forall p ::
      Lookup(newPairFreqs, p) == Lookup(pairFreqs, p) - PairCount(freqs, p) + PairCount(newFreqs, p)
    ensures WordsFrom(newFreqs, freqs, a, b, newId)
    ensures PairKeysFrom(newPairFreqs, pairFreqs, freqs, newFreqs)
  {
    newFreqs := [];
    newPairFreqs := pairFreqs;
    for e := 0 to |freqs|
      invariant MergedSoFar(freqs[..e], newFreqs, a, b, newId)
      invariant Distinct(pairFreqs) ==> Distinct(newPairFreqs)
      invariant PairsTracked(freqs[..e], pairFreqs, newPairFreqs, a, b, newId)
      invariant WordsFrom(newFreqs, freqs, a, b, newId)
      invariant PairKeysFrom(newPairFreqs, pairFreqs, freqs, newFreqs)
    {
      var (word, freq) := freqs[e];
      EntryKey(freqs, e);
      var newWord := word;
      var oldFreqs, oldPairFreqs := newFreqs, newPairFreqs;
      if |word| < 2 || !ContainsPair(word, a, b) {
        MergedWordWithoutPair(word, a, b, newId);
        newFreqs := AddTo(newFreqs, word, freq);
      } else {
        newPairFreqs := AddPairs(newPairFreqs, word, -freq);
        ghost var taken := newPairFreqs;
        newWord := MergeWord(word, a, b, newId);
        newFreqs := AddTo(newFreqs, newWord, freq);
        newPairFreqs := AddPairs(newPairFreqs, newWord, freq);
        TakeThenAdd(oldPairFreqs, taken, newPairFreqs, word, newWord, freq);
      }
      assert freqs[..e + 1] == freqs[..e] + [freqs[e]];
      MergeEntryWords(freqs[..e], freqs[e], oldFreqs, a, b, newId);
      MergeEntryPairs(freqs[..e], freqs[e], pairFreqs, oldPairFreqs, newPairFreqs, a, b, newId);
      KeySetAddTo(oldFreqs, newWord, freq);
    }
    assert freqs[..|freqs|] == freqs;
  }

  /** The word table is the image, under the merge, of the entries `prefix`. */
  ghost predicate MergedSoFar(prefix: Table<Word>, newFreqs: Table<Word>, a: int, b: int, newId: int) {
    && Distinct(newFreqs)
    && (forall v :: Lookup(newFreqs, v) == SumOver(prefix, MergesTo(a, b, newId, v)))
    && Total(newFreqs) == Total(prefix)
    && (forall p :: PairCount(newFreqs, p) == SumOver(prefix, PairsAfterMerge(a, b, newId, p)))
  }

  /** The pair table has lost the pairs of the words of `prefix` and gained those of their merged forms. */
  ghost predicate PairsTracked(prefix: Table<Word>, pairFreqs: Table<Pair>, newPairFreqs: Table<Pair>, a: int, b: int, newId: int) {
    forall p ::
      Lookup(newPairFreqs, p) ==
      Lookup(pairFreqs, p) - PairCount(prefix, p) + SumOver(prefix, PairsAfterMerge(a, b, newId, p))
  }

  /** One entry of `merge` keeps the word table equal to the image of the entries so far. */
  lemma MergeEntryWords(prefix: Table<Word>, entry: (Word, int), oldFreqs: Table<Word>, a: int, b: int, newId: int)
    requires MergedSoFar(prefix, oldFreqs, a, b, newId)
    ensures MergedSoFar(prefix + [entry], AddTo(oldFreqs, MergedWord(entry.0, a, b, newId), entry.1), a, b, newId)
  {
    var key := MergedWord(entry.0, a, b, newId);
    DistinctAddTo(oldFreqs, key, entry.1);
    forall v
      ensures Lookup(AddTo(oldFreqs, key, entry.1), v) == SumOver(prefix + [entry], MergesTo(a, b, newId, v))
    {
      LookupAddTo(oldFreqs, key, entry.1, v);
      SumOverSnoc(prefix, entry, MergesTo(a, b, newId, v));
    }
    SumOverAddTo(oldFreqs, key, entry.1, Each);
    SumOverSnoc(prefix, entry, Each);
    forall p
      ensures PairCount(AddTo(oldFreqs, key, entry.1), p) == SumOver(prefix + [entry], PairsAfterMerge(a, b, newId, p))
    {
      SumOverAddTo(oldFreqs, key, entry.1, PairsOf(p));
      SumOverSnoc(prefix, entry, PairsAfterMerge(a, b, newId, p));
    }
  }

  /** One entry of `merge` moves each pair count by the entry's new pairs minus its old ones. */
  lemma MergeEntryPairs(prefix: Table<Word>, entry: (Word, int), pairFreqs: Table<Pair>,
                        oldPairFreqs: Table<Pair>, newPairFreqs: Table<Pair>, a: int, b: int, newId: int)
    requires PairsTracked(prefix, pairFreqs, oldPairFreqs, a, b, newId)
    requires forall p ::
      Lookup(newPairFreqs, p) ==
      Lookup(oldPairFreqs, p) - entry.1 * Occ(entry.0, p) + entry.1 * Occ(MergedWord(entry.0, a, b, newId), p)
    ensures PairsTracked(prefix + [entry], pairFreqs, newPairFreqs, a, b, newId)
  {
    forall p
      ensures Lookup(newPairFreqs, p) ==
        Lookup(pairFreqs, p) - PairCount(prefix + [entry], p) + SumOver(prefix + [entry], PairsAfterMerge(a, b, newId, p))
    {
      SumOverSnoc(prefix, entry, PairsOf(p));
      SumOverSnoc(prefix, entry, PairsAfterMerge(a, b, newId, p));
    }
  }

  /** Taking off the pairs of `word` and adding those of `newWord`, both weighted by `freq`. */
  lemma TakeThenAdd(before: Table<Pair>, taken: Table<Pair>, after: Table<Pair>, word: Word, newWord: Word, freq: int)
    requires forall p :: Lookup(taken, p) == Lookup(before, p) + -freq * Occ(word, p)
    requires forall p :: Lookup(after, p) == Lookup(taken, p) + freq * Occ(newWord, p)
    ensures forall p :: Lookup(after, p) == Lookup(before, p) - freq * Occ(word, p) + freq * Occ(newWord, p)
  {
    forall p
      ensures Lookup(after, p) == Lookup(before, p) - freq * Occ(word, p) + freq * Occ(newWord, p)
    {
      assert -freq * Occ(word, p) == -(freq * Occ(word, p));
    }
  }

  /** No word of the table uses `id` yet. */
  ghost predicate Unused(freqs: Table<Word>, id: int) {
    forall w :: w in KeySet(freqs) ==> id !in w
  }

  /**
   * A word that does not contain the pair keeps exactly its frequency: no
   * other word merges into it, since every merged word holds the new id.
   */
  lemma WordWithoutPairKeepsFreq(freqs: Table<Word>, a: int, b: int, newId: int, w: Word)
    requires Distinct(freqs) && Unused(freqs, newId)
    requires w in KeySet(freqs) && !ContainsPair(w, a, b)
    ensures SumOver(freqs, MergesTo(a, b, newId, w)) == Lookup(freqs, w)
  {
    forall u | u in KeySet(freqs)
      ensures WeightOf(MergesTo(a, b, newId, w), u) == (if u == w then 1 else 0)
    {
      if ContainsPair(u, a, b) {
        MergedWordWithPair(u, a, b, newId);
      } else {
        MergedWordWithoutPair(u, a, b, newId);
      }
    }
    MergedWordWithoutPair(w, a, b, newId);
    SumOverSingles(freqs, MergesTo(a, b, newId, w), w);
  }

  /** After the merge no word holds the merged pair any more. */
  lemma {:induction false} MergedPairGone(freqs: Table<Word>, a: int, b: int, newId: int)
    requires newId != a && newId != b
    ensures SumOver(freqs, PairsAfterMerge(a, b, newId, (a, b))) == 0
  {
    if freqs != [] {
      MergedWordHasNoPair(freqs[0].0, a, b, newId);
      MergedPairGone(freqs[1..], a, b, newId);
    }
  }
}
