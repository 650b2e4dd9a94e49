/**
 * `train_bpe` of `bpe_train_original.py`: the initial vocabulary (the
 * special tokens, then the 256 single bytes), and the merge loop, which
 * repeatedly takes the most frequent adjacent pair, gives it the next id,
 * records its bytes and merges it in every word.
 */
module BpeTrain {

  import opened Common
  import opened BpeWords
  import opened BpeTables
  import opened BpeCounting

  type Bytes = seq<u8>

  /** Python's `<` on `bytes`: byte by byte, a proper prefix coming first. */
  predicate BytesLess(x: Bytes, y: Bytes) {
    y != [] && (x == [] || x[0] < y[0] || (x[0] == y[0] && BytesLess(x[1..], y[1..])))
  }

  lemma {:induction false} BytesLessIrreflexive(x: Bytes)
    ensures !BytesLess(x, x)
  {
    if x != [] {
      BytesLessIrreflexive(x[1..]);
    }
  }

  lemma {:induction false} BytesLessTransitive(x: Bytes, y: Bytes, z: Bytes)
    requires BytesLess(x, y) && BytesLess(y, z)
    ensures BytesLess(x, z)
  {
    if x != [] && x[0] == y[0] && y[0] == z[0] {
      BytesLessTransitive(x[1..], y[1..], z[1..]);
    }
  }

  lemma {:induction false} BytesLessTotal(x: Bytes, y: Bytes)
    requires x != y
    ensures BytesLess(x, y) || BytesLess(y, x)
  {
    if x != [] && y != [] && x[0] == y[0] {
      assert x == [x[0]] + x[1..] && y == [y[0]] + y[1..];
      BytesLessTotal(x[1..], y[1..]);
    }
  }

  /** The key `(pair_freqs[p], id_to_bytes[p[0]], id_to_bytes[p[1]])` that ranks a pair. */
  datatype Rank = Rank(count: int, left: Bytes, right: Bytes)

  /** Python's tuple order on ranks. */
  predicate RankLess(r: Rank, s: Rank) {
    r.count < s.count
    || (r.count == s.count && (BytesLess(r.left, s.left) || (r.left == s.left && BytesLess(r.right, s.right))))
  }

  lemma RankLessIrreflexive(r: Rank)
    ensures !RankLess(r, r)
  {
    BytesLessIrreflexive(r.left);
    BytesLessIrreflexive(r.right);
  }

  lemma RankLessTransitive(r: Rank, s: Rank, t: Rank)
    requires RankLess(r, s) && RankLess(s, t)
    ensures RankLess(r, t)
  {
    if r.count == s.count == t.count {
      if BytesLess(r.left, s.left) && BytesLess(s.left, t.left) {
        BytesLessTransitive(r.left, s.left, t.left);
      } else if r.left == s.left == t.left {
        BytesLessTransitive(r.right, s.right, t.right);
      }
    }
  }

  lemma RankLessTotal(r: Rank, s: Rank)
    requires r != s
    ensures RankLess(r, s) || RankLess(s, r)
  {
    if r.count == s.count {
      if r.left != s.left {
        BytesLessTotal(r.left, s.left);
      } else {
        BytesLessTotal(r.right, s.right);
      }
    }
  }

  /** Both ids of every key of the pair table have bytes in the vocabulary. */
  ghost predicate KeysKnown(pairFreqs: Table<Pair>, vocab: map<int, Bytes>) {
    forall i :: 0 <= i < |pairFreqs| ==> pairFreqs[i].0.0 in vocab && pairFreqs[i].0.1 in vocab
  }

  function RankAt(pairFreqs: Table<Pair>, vocab: map<int, Bytes>, i: nat): Rank
    requires i < |pairFreqs| && KeysKnown(pairFreqs, vocab)
  {
    var e := pairFreqs[i];
    Rank(e.1, vocab[e.0.0], vocab[e.0.1])
  }

  /**
   * The position of the entry `max` picks: scanning the entries in order, a
   * later entry replaces the best so far only when its rank is strictly
   * greater.
   */
  function BestIndex(pairFreqs: Table<Pair>, vocab: map<int, Bytes>): (j: nat)
    requires pairFreqs != [] && KeysKnown(pairFreqs, vocab)
    ensures j < |pairFreqs|
  {
    var n := |pairFreqs| - 1;
    if n == 0 then 0
    else
      var j := BestIndex(pairFreqs[..n], vocab);
      assert pairFreqs[..n][j] == pairFreqs[j];
      if RankLess(RankAt(pairFreqs, vocab, j), RankAt(pairFreqs, vocab, n)) then n else j
  }

  /** `max` returns an entry of greatest rank, and the first of those. */
  lemma {:induction false} BestIndexIsFirstMaximum(pairFreqs: Table<Pair>, vocab: map<int, Bytes>)
    requires pairFreqs != [] && KeysKnown(pairFreqs, vocab)
    ensures var j := BestIndex(pairFreqs, vocab);
      && (forall i :: 0 <= i < |pairFreqs| ==> !RankLess(RankAt(pairFreqs, vocab, j), RankAt(pairFreqs, vocab, i)))
      && (forall i :: 0 <= i < j ==> RankLess(RankAt(pairFreqs, vocab, i), RankAt(pairFreqs, vocab, j)))
  {
    var n := |pairFreqs| - 1;
    var j := BestIndex(pairFreqs, vocab);
    if n == 0 {
      RankLessIrreflexive(RankAt(pairFreqs, vocab, 0));
    } else {
      var prefix := pairFreqs[..n];
      var k := BestIndex(prefix, vocab);
      BestIndexIsFirstMaximum(prefix, vocab);
      assert forall i :: 0 <= i < n ==> RankAt(prefix, vocab, i) == RankAt(pairFreqs, vocab, i);
      var rk, rn := RankAt(pairFreqs, vocab, k), RankAt(pairFreqs, vocab, n);
      if RankLess(rk, rn) {
        forall i | 0 <= i < |pairFreqs|
          ensures !RankLess(rn, RankAt(pairFreqs, vocab, i))
          ensures i < n ==> RankLess(RankAt(pairFreqs, vocab, i), rn)
        {
          var ri := RankAt(pairFreqs, vocab, i);
          if i == n {
            RankLessIrreflexive(rn);
          } else {
            assert !RankLess(rk, ri);
            if ri != rk {
              RankLessTotal(ri, rk);
              RankLessTransitive(ri, rk, rn);
            }
            if RankLess(rn, ri) {
              RankLessTransitive(rk, rn, ri);
            }
          }
        }
      } else {
        assert j == k;
      }
    }
  }

  /** Every key of the table counts at most the count of the entry `max` picks. */
  lemma BestCountBounds(pairFreqs: Table<Pair>, vocab: map<int, Bytes>, q: Pair)
    requires pairFreqs != [] && KeysKnown(pairFreqs, vocab) && Distinct(pairFreqs)
    ensures Lookup(pairFreqs, q) <= pairFreqs[BestIndex(pairFreqs, vocab)].1 || Lookup(pairFreqs, q) == 0
  {
    if q in KeySet(pairFreqs) {
      var i := KeyIndex(pairFreqs, q);
      BestIndexIsFirstMaximum(pairFreqs, vocab);
      assert !RankLess(RankAt(pairFreqs, vocab, BestIndex(pairFreqs, vocab)), RankAt(pairFreqs, vocab, i));
    } else {
      LookupAbsent(pairFreqs, q);
    }
  }

  /** In a dict, a key's count is that of its one entry. */
  lemma {:induction false} KeyIndex<K>(t: Table<K>, k: K) returns (i: nat)
    requires Distinct(t) && k in KeySet(t)
    ensures i < |t| && t[i].0 == k && Lookup(t, k) == t[i].1
  {
    if t[0].0 == k {
      i := 0;
    } else {
      var i' := KeyIndex(t[1..], k);
      i := i' + 1;
    }
  }

  /** The entry at position `i` of a dict gives the count of its key. */
  lemma {:induction false} LookupEntry<K>(t: Table<K>, i: nat)
    requires Distinct(t) && i < |t|
    ensures Lookup(t, t[i].0) == t[i].1
  {
    if i > 0 {
      if t[0].0 == t[i].0 {
        EntryKey(t[1..], i - 1);
        assert false;
      }
      LookupEntry(t[1..], i - 1);
    }
  }

  /**
   * The vocabulary before any merge: id `i` below the number of special
   * tokens is the `i`-th special token (given already encoded), and the
   * next 256 ids are the single bytes.
   */
  method InitialVocab(specials: seq<Bytes>) returns (vocab: map<int, Bytes>)
    ensures forall i :: i in vocab <==> 0 <= i < |specials| + 256
    ensures forall i :: 0 <= i < |specials| ==> vocab[i] == specials[i]
    ensures forall i :: 0 <= i < 256 ==> vocab[|specials| + i] == [i]
  {
    vocab := map i | 0 <= i < |specials| :: specials[i];
    for i := 0 to 256
      invariant forall j :: j in vocab <==> 0 <= j < |specials| + i
      invariant forall j :: 0 <= j < |specials| ==> vocab[j] == specials[j]
      invariant forall j :: 0 <= j < i ==> vocab[|specials| + j] == [j]
    {
      vocab := vocab[|specials| + i := [i]];
    }
  }

  /**
   * What the merge loop keeps true: both tables are dicts, the pair table
   * holds the pair counts of the current words, every id in a word or in a
   * pair is below `idx`, and the vocabulary has exactly the ids below `idx`.
   */
  ghost predicate TrainState(freqs: Table<Word>, pairFreqs: Table<Pair>, vocab: map<int, Bytes>, idx: int) {
    && Distinct(freqs)
    && Distinct(pairFreqs)
    && (forall p :: Lookup(pairFreqs, p) == PairCount(freqs, p))
    && (forall w, x :: w in KeySet(freqs) && x in w ==> 0 <= x < idx)
    && (forall p :: p in KeySet(pairFreqs) ==> 0 <= p.0 < idx && 0 <= p.1 < idx)
    && (forall i :: i in vocab <==> 0 <= i < idx)
  }

  lemma StateKeysKnown(freqs: Table<Word>, pairFreqs: Table<Pair>, vocab: map<int, Bytes>, idx: int)
    requires TrainState(freqs, pairFreqs, vocab, idx)
    ensures KeysKnown(pairFreqs, vocab)
  {
    forall i | 0 <= i < |pairFreqs|
      ensures pairFreqs[i].0.0 in vocab && pairFreqs[i].0.1 in vocab
    {
      EntryKey(pairFreqs, i);
    }
  }

  /** The ids of a pair of a word are ids of the word. */
  lemma PairInIds(w: Word, p: Pair)
    requires PairIn(w, p)
    ensures p.0 in w && p.1 in w
  {
    var i :| 0 <= i && i + 1 < |w| && PairAt(w, i, p);
    assert w[i] == p.0 && w[i + 1] == p.1;
  }

  /** One round of the loop: merging the best pair under id `idx` and deleting it keeps the loop's state. */
  lemma MergeStep(freqs: Table<Word>, pairFreqs: Table<Pair>, vocab: map<int, Bytes>, idx: int,
                  a: int, b: int, newFreqs: Table<Word>, newPairFreqs: Table<Pair>, newBytes: Bytes)
    requires TrainState(freqs, pairFreqs, vocab, idx)
    requires (a, b) in KeySet(pairFreqs)
    requires Distinct(newFreqs) && Distinct(newPairFreqs)
    requires forall p :: PairCount(newFreqs, p) == SumOver(freqs, PairsAfterMerge(a, b, idx, p))
    requires forall p ::
      Lookup(newPairFreqs, p) == Lookup(pairFreqs, p) - PairCount(freqs, p) + PairCount(newFreqs, p)
    requires WordsFrom(newFreqs, freqs, a, b, idx)
    requires PairKeysFrom(newPairFreqs, pairFreqs, freqs, newFreqs)
    ensures TrainState(newFreqs, Remove(newPairFreqs, (a, b)), vocab[idx := newBytes], idx + 1)
  {
    var pairFreqs' := Remove(newPairFreqs, (a, b));
    DistinctRemove(newPairFreqs, (a, b));
    forall p
      ensures Lookup(pairFreqs', p) == PairCount(newFreqs, p)
    {
      LookupRemove(newPairFreqs, (a, b), p);
      if p == (a, b) {
        MergedPairGone(freqs, a, b, idx);
      }
    }
    forall v, x | v in KeySet(newFreqs) && x in v
      ensures 0 <= x < idx + 1
    {
      var u :| u in KeySet(freqs) && v == MergedWord(u, a, b, idx);
      MergedWordIds(u, a, b, idx, x);
    }
    KeySetRemove(newPairFreqs, (a, b));
    forall p | p in KeySet(pairFreqs')
      ensures 0 <= p.0 < idx + 1 && 0 <= p.1 < idx + 1
    {
      if Occurs(freqs, p) {
        var w :| w in KeySet(freqs) && PairIn(w, p);
        PairInIds(w, p);
      } else if Occurs(newFreqs, p) {
        var w :| w in KeySet(newFreqs) && PairIn(w, p);
        PairInIds(w, p);
      }
    }
  }

  /** The loop's view of one round: the words, the pair table and the vocabulary it chose from. */
  datatype Round = Round(freqs: Table<Word>, pairFreqs: Table<Pair>, vocab: map<int, Bytes>)

  /**
   * In round `r` the loop took `pair`: the entry `max` picks from a nonempty
   * table that holds the pair counts of the round's words, with a positive
   * count.
   */
  ghost predicate ChoseBest(r: Round, pair: Pair) {
    && r.pairFreqs != []
    && Distinct(r.pairFreqs)
    && KeysKnown(r.pairFreqs, r.vocab)
    && (forall p :: Lookup(r.pairFreqs, p) == PairCount(r.freqs, p))
    && pair == r.pairFreqs[BestIndex(r.pairFreqs, r.vocab)].0
    && r.pairFreqs[BestIndex(r.pairFreqs, r.vocab)].1 > 0
  }

  /** The pair a round takes is a most frequent adjacent pair of the round's words. */
  lemma ChosenIsMostFrequent(r: Round, pair: Pair, q: Pair)
    requires ChoseBest(r, pair)
    ensures PairCount(r.freqs, q) <= PairCount(r.freqs, pair)
    ensures PairCount(r.freqs, pair) > 0
  {
    var j := BestIndex(r.pairFreqs, r.vocab);
    LookupEntry(r.pairFreqs, j);
    BestCountBounds(r.pairFreqs, r.vocab, q);
  }

  /** `big` has every entry of `small`. */
  ghost predicate Extends(big: map<int, Bytes>, small: map<int, Bytes>) {
    forall i :: i in small ==> i in big && big[i] == small[i]
  }

  /** The entries `InitialVocab` creates. */
  ghost predicate HasInitialEntries(vocab: map<int, Bytes>, specials: seq<Bytes>) {
    && (forall i :: 0 <= i < |specials| ==> i in vocab && vocab[i] == specials[i])
    && (forall i :: 0 <= i < 256 ==> |specials| + i in vocab && vocab[|specials| + i] == [i])
  }

  /**
   * Merge `t` took the pair `taken[t]` of ids below its own id
   * `initSize + t`, recorded their bytes in `merges[t]`, and gave its id
   * their concatenation.
   */
  ghost predicate HasMergeEntries(vocab: map<int, Bytes>, merges: seq<(Bytes, Bytes)>, taken: seq<Pair>, initSize: int)
    requires |taken| == |merges|
  {
    forall t :: 0 <= t < |merges| ==>
      && 0 <= taken[t].0 < initSize + t
      && 0 <= taken[t].1 < initSize + t
      && taken[t].0 in vocab && taken[t].1 in vocab && initSize + t in vocab
      && merges[t] == (vocab[taken[t].0], vocab[taken[t].1])
      && vocab[initSize + t] == merges[t].0 + merges[t].1
  }

  /** Every round chose its pair by `ChoseBest`, from a vocabulary that `vocab` extends. */
  ghost predicate RoundsChose(rounds: seq<Round>, taken: seq<Pair>, vocab: map<int, Bytes>)
    requires |rounds| == |taken|
  {
    forall t :: 0 <= t < |rounds| ==> ChoseBest(rounds[t], taken[t]) && Extends(vocab, rounds[t].vocab)
  }

  /** Giving the next id the bytes of the pair taken keeps every record of the loop. */
  lemma RecordMerge(vocab: map<int, Bytes>, specials: seq<Bytes>, merges: seq<(Bytes, Bytes)>, taken: seq<Pair>,
                    rounds: seq<Round>, initSize: int, idx: int, a: int, b: int, r: Round)
    requires |taken| == |merges| == |rounds| && initSize == |specials| + 256 && idx == initSize + |merges|
    requires forall i :: i in vocab <==> 0 <= i < idx
    requires HasInitialEntries(vocab, specials)
    requires HasMergeEntries(vocab, merges, taken, initSize)
    requires RoundsChose(rounds, taken, vocab)
    requires 0 <= a < idx && 0 <= b < idx
    requires ChoseBest(r, (a, b)) && r.vocab == vocab
    ensures var vocab' := vocab[idx := vocab[a] + vocab[b]];
      && HasInitialEntries(vocab', specials)
      && HasMergeEntries(vocab', merges + [(vocab[a], vocab[b])], taken + [(a, b)], initSize)
      && RoundsChose(rounds + [r], taken + [(a, b)], vocab')
  {
    var vocab' := vocab[idx := vocab[a] + vocab[b]];
    var merges', taken' := merges + [(vocab[a], vocab[b])], taken + [(a, b)];
    assert Extends(vocab', vocab);
    forall i | 0 <= i < |specials|
      ensures i in vocab' && vocab'[i] == specials[i]
    {
      assert i in vocab;
    }
    forall i | 0 <= i < 256
      ensures |specials| + i in vocab' && vocab'[|specials| + i] == [i]
    {
      assert |specials| + i in vocab;
    }
    forall t | 0 <= t < |merges'|
      ensures && 0 <= taken'[t].0 < initSize + t
              && 0 <= taken'[t].1 < initSize + t
              && taken'[t].0 in vocab' && taken'[t].1 in vocab' && initSize + t in vocab'
              && merges'[t] == (vocab'[taken'[t].0], vocab'[taken'[t].1])
              && vocab'[initSize + t] == merges'[t].0 + merges'[t].1
    {
      if t < |merges| {
        assert taken'[t] == taken[t] && merges'[t] == merges[t];
      }
    }
    forall t | 0 <= t < |rounds|
      ensures Extends(vocab', rounds[t].vocab)
    {
      assert Extends(vocab, rounds[t].vocab);
    }
  }

  /** The state `GetPairFreqs` starts the loop in. */
  lemma InitialState(freqs: Table<Word>, pairFreqs: Table<Pair>, vocab: map<int, Bytes>, idx: int)
    requires Distinct(freqs) && Distinct(pairFreqs)
    requires forall w, x :: w in KeySet(freqs) && x in w ==> 0 <= x < idx
    requires forall p :: Lookup(pairFreqs, p) == PairCount(freqs, p)
    requires forall p :: p in KeySet(pairFreqs) <==> Occurs(freqs, p)
    requires forall i :: i in vocab <==> 0 <= i < idx
    ensures TrainState(freqs, pairFreqs, vocab, idx)
  {
    forall p | p in KeySet(pairFreqs)
      ensures 0 <= p.0 < idx && 0 <= p.1 < idx
    {
      var w :| w in KeySet(freqs) && PairIn(w, p);
      PairInIds(w, p);
    }
  }

  /**
   * `merge` took `words` to `next` by merging `pair` under `newId`: `next` is
   * a dict, and each word's frequency in it is the summed frequency of the
   * words of `words` whose merged form it is.
   */
  ghost predicate MergedFreqs(words: Table<Word>, pair: Pair, newId: int, next: Table<Word>) {
    && Distinct(next)
    && forall v :: Lookup(next, v) == SumOver(words, MergesTo(pair.0, pair.1, newId, v))
  }

  /** The words round `t` started from; past the last round, the words left at the end. */
  function WordsAt(rounds: seq<Round>, last: Table<Word>, t: nat): Table<Word>
    requires t <= |rounds|
  {
    if t < |rounds| then rounds[t].freqs else last
  }

  /**
   * The rounds so far form a chain from `freqs` to `current`: round `t`
   * merged `taken[t]` under id `initSize + t` into the words of round
   * `t + 1`, from a vocabulary of exactly the ids below `initSize + t`.
   */
  ghost predicate History(freqs: Table<Word>, rounds: seq<Round>, taken: seq<Pair>, current: Table<Word>, initSize: int)
    requires |taken| == |rounds|
  {
    && WordsAt(rounds, current, 0) == freqs
    && (forall t :: 0 <= t < |rounds| ==>
          MergedFreqs(WordsAt(rounds, current, t), taken[t], initSize + t, WordsAt(rounds, current, t + 1)))
    && (forall t, i :: 0 <= t < |rounds| ==> (i in rounds[t].vocab <==> 0 <= i < initSize + t))
  }

  /** Recording a round that merged `pair` from the current words extends the chain by one link. */
  lemma HistoryStep(freqs: Table<Word>, rounds: seq<Round>, taken: seq<Pair>, current: Table<Word>, initSize: int,
                    r: Round, a: int, b: int, newId: int, next: Table<Word>)
    requires |taken| == |rounds| && History(freqs, rounds, taken, current, initSize)
    requires newId == initSize + |rounds|
    requires r.freqs == current && (forall i :: i in r.vocab <==> 0 <= i < newId)
    requires Distinct(next)
    requires forall v :: Lookup(next, v) == SumOver(current, MergesTo(a, b, newId, v))
    ensures History(freqs, rounds + [r], taken + [(a, b)], next, initSize)
  {
    var rounds', taken' := rounds + [r], taken + [(a, b)];
    assert MergedFreqs(current, (a, b), newId, next);
    forall t | 0 <= t <= |rounds|
      ensures WordsAt(rounds', next, t) == WordsAt(rounds, current, t)
    {
    }
    forall t | 0 <= t < |rounds'|
      ensures MergedFreqs(WordsAt(rounds', next, t), taken'[t], initSize + t, WordsAt(rounds', next, t + 1))
    {
      if t < |rounds| {
        assert taken'[t] == taken[t];
      }
    }
    forall t, i | 0 <= t < |rounds'|
      ensures i in rounds'[t].vocab <==> 0 <= i < initSize + t
    {
      if t < |rounds| {
        assert rounds'[t] == rounds[t];
      }
    }
  }

  /** The loop stops early only when no pair has a positive count: the table is empty or its best count is not positive. */
  lemma NoPairLeft(current: Table<Word>, pairFreqs: Table<Pair>, vocab: map<int, Bytes>, idx: int)
    requires TrainState(current, pairFreqs, vocab, idx)
    requires pairFreqs != [] ==>
      KeysKnown(pairFreqs, vocab) && pairFreqs[BestIndex(pairFreqs, vocab)].1 <= 0
    ensures forall p :: PairCount(current, p) <= 0
  {
    forall p
      ensures PairCount(current, p) <= 0
    {
      if pairFreqs != [] {
        LookupEntry(pairFreqs, BestIndex(pairFreqs, vocab));
        BestCountBounds(pairFreqs, vocab, p);
      }
    }
  }

  /** Everything the merge loop keeps true, from one round to the next. */
  ghost predicate Progress(specials: seq<Bytes>, freqs: Table<Word>, vocab: map<int, Bytes>,
                           merges: seq<(Bytes, Bytes)>, taken: seq<Pair>, rounds: seq<Round>,
                           current: Table<Word>, pairFreqs: Table<Pair>, idx: int) {
    && |taken| == |merges| && |rounds| == |merges|
    && idx == |specials| + 256 + |merges|
    && TrainState(current, pairFreqs, vocab, idx)
    && Total(current) == Total(freqs)
    && HasInitialEntries(vocab, specials)
    && HasMergeEntries(vocab, merges, taken, |specials| + 256)
    && RoundsChose(rounds, taken, vocab)
  }

  /**
   * One round of the merge loop, from the entry `j` that `max` picks with a
   * positive count and the results of `merge`, to the state after
   * `del pair_freqs[best]` and `idx += 1`.
   */
  lemma MergeRound(specials: seq<Bytes>, freqs: Table<Word>, vocab: map<int, Bytes>,
                   merges: seq<(Bytes, Bytes)>, taken: seq<Pair>, rounds: seq<Round>,
                   current: Table<Word>, pairFreqs: Table<Pair>, idx: int,
                   j: nat, a: int, b: int, newFreqs: Table<Word>, newPairFreqs: Table<Pair>)
    requires Progress(specials, freqs, vocab, merges, taken, rounds, current, pairFreqs, idx)
    requires pairFreqs != [] && KeysKnown(pairFreqs, vocab)
    requires j == BestIndex(pairFreqs, vocab) && (a, b) == pairFreqs[j].0 && Lookup(pairFreqs, (a, b)) > 0
    requires Distinct(newFreqs)
    requires Distinct(pairFreqs) ==> Distinct(newPairFreqs)
    requires Total(newFreqs) == Total(current)
    requires forall p :: PairCount(newFreqs, p) == SumOver(current, PairsAfterMerge(a, b, idx, p))
    requires forall p ::
      Lookup(newPairFreqs, p) == Lookup(pairFreqs, p) - PairCount(current, p) + PairCount(newFreqs, p)
    requires WordsFrom(newFreqs, current, a, b, idx)
    requires PairKeysFrom(newPairFreqs, pairFreqs, current, newFreqs)
    ensures Progress(specials, freqs, vocab[idx := vocab[a] + vocab[b]],
                     merges + [(vocab[a], vocab[b])], taken + [(a, b)], rounds + [Round(current, pairFreqs, vocab)],
                     newFreqs, Remove(newPairFreqs, (a, b)), idx + 1)
  {
    EntryKey(pairFreqs, j);
    LookupEntry(pairFreqs, j);
    RecordMerge(vocab, specials, merges, taken, rounds, |specials| + 256, idx, a, b, Round(current, pairFreqs, vocab));
    MergeStep(current, pairFreqs, vocab, idx, a, b, newFreqs, newPairFreqs, vocab[a] + vocab[b]);
  }

  /** One round of the merge loop keeps both `Progress` and `History`. */
  lemma LoopStep(specials: seq<Bytes>, freqs: Table<Word>, vocab: map<int, Bytes>,
                 merges: seq<(Bytes, Bytes)>, taken: seq<Pair>, rounds: seq<Round>,
                 current: Table<Word>, pairFreqs: Table<Pair>, idx: int,
                 j: nat, a: int, b: int, newFreqs: Table<Word>, newPairFreqs: Table<Pair>)
    requires Progress(specials, freqs, vocab, merges, taken, rounds, current, pairFreqs, idx)
    requires History(freqs, rounds, taken, current, |specials| + 256)
    requires pairFreqs != [] && KeysKnown(pairFreqs, vocab)
    requires j == BestIndex(pairFreqs, vocab) && (a, b) == pairFreqs[j].0 && Lookup(pairFreqs, (a, b)) > 0
    requires Distinct(newFreqs)
    requires Distinct(pairFreqs) ==> Distinct(newPairFreqs)
    requires forall v :: Lookup(newFreqs, v) == SumOver(current, MergesTo(a, b, idx, v))
    requires Total(newFreqs) == Total(current)
    requires forall p :: PairCount(newFreqs, p) == SumOver(current, PairsAfterMerge(a, b, idx, p))
    requires forall p ::
      Lookup(newPairFreqs, p) == Lookup(pairFreqs, p) - PairCount(current, p) + PairCount(newFreqs, p)
    requires WordsFrom(newFreqs, current, a, b, idx)
    requires PairKeysFrom(newPairFreqs, pairFreqs, current, newFreqs)
    ensures Progress(specials, freqs, vocab[idx := vocab[a] + vocab[b]],
                     merges + [(vocab[a], vocab[b])], taken + [(a, b)], rounds + [Round(current, pairFreqs, vocab)],
                     newFreqs, Remove(newPairFreqs, (a, b)), idx + 1)
    ensures History(freqs, rounds + [Round(current, pairFreqs, vocab)], taken + [(a, b)], newFreqs, |specials| + 256)
  {
    MergeRound(specials, freqs, vocab, merges, taken, rounds, current, pairFreqs, idx, j, a, b, newFreqs, newPairFreqs);
    HistoryStep(freqs, rounds, taken, current, |specials| + 256, Round(current, pairFreqs, vocab), a, b, idx, newFreqs);
  }

  /** What `Progress` says about the results, in the terms of `Train`'s contract. */
  lemma TrainOutcome(specials: seq<Bytes>, freqs: Table<Word>, vocab: map<int, Bytes>,
                     merges: seq<(Bytes, Bytes)>, taken: seq<Pair>, rounds: seq<Round>,
                     current: Table<Word>, pairFreqs: Table<Pair>, idx: int)
    requires Progress(specials, freqs, vocab, merges, taken, rounds, current, pairFreqs, idx)
    ensures forall i :: i in vocab <==> 0 <= i < |specials| + 256 + |merges|
    ensures forall i :: 0 <= i < |specials| ==> vocab[i] == specials[i]
    ensures forall i :: 0 <= i < 256 ==> vocab[|specials| + i] == [i]
    ensures |taken| == |merges| && |rounds| == |merges|
    ensures forall t :: 0 <= t < |merges| ==>
      && 0 <= taken[t].0 < |specials| + 256 + t
      && 0 <= taken[t].1 < |specials| + 256 + t
      && merges[t] == (vocab[taken[t].0], vocab[taken[t].1])
      && vocab[|specials| + 256 + t] == merges[t].0 + merges[t].1
    ensures forall t :: 0 <= t < |merges| ==> ChoseBest(rounds[t], taken[t])
    ensures forall t :: 0 <= t < |merges| ==> Extends(vocab, rounds[t].vocab)
    ensures Total(current) == Total(freqs)
  {
  }

  /**
   * `train_bpe` after pre-tokenisation: `freqs` is the word-frequency dict,
   * with every id a special-token id or a byte id. At most
   * `vocabSize - len(vocab)` rounds each take the best pair, give it the
   * next id, record its bytes in the vocabulary and in `merges`, and merge
   * it in every word. The ghost results name the pairs taken, the rounds,
   * and the words left at the end.
   */
  method Train(specials: seq<Bytes>, freqs: Table<Word>, vocabSize: int)
    returns (vocab: map<int, Bytes>, merges: seq<(Bytes, Bytes)>,
             ghost taken: seq<Pair>, ghost rounds: seq<Round>, ghost finalFreqs: Table<Word>)
    requires Distinct(freqs)
    requires forall w, x :: w in KeySet(freqs) && x in w ==> 0 <= x < |specials| + 256
    ensures forall i :: i in vocab <==> 0 <= i < |specials| + 256 + |merges|
    ensures forall i :: 0 <= i < |specials| ==> vocab[i] == specials[i]
    ensures forall i :: 0 <= i < 256 ==> vocab[|specials| + i] == [i]
    ensures |merges| <= if vocabSize > |specials| + 256 then vocabSize - (|specials| + 256) else 0
    ensures |taken| == |merges| && |rounds| == |merges|
    ensures forall t :: 0 <= t < |merges| ==>
      && 0 <= taken[t].0 < |specials| + 256 + t
      && 0 <= taken[t].1 < |specials| + 256 + t
      && merges[t] == (vocab[taken[t].0], vocab[taken[t].1])
      && vocab[|specials| + 256 + t] == merges[t].0 + merges[t].1
    ensures forall t :: 0 <= t < |merges| ==> ChoseBest(rounds[t], taken[t])
    ensures forall t :: 0 <= t < |merges| ==> Extends(vocab, rounds[t].vocab)
    ensures History(freqs, rounds, taken, finalFreqs, |specials| + 256)
    ensures Total(finalFreqs) == Total(freqs)
    ensures |merges| < vocabSize - (|specials| + 256) ==> forall p :: PairCount(finalFreqs, p) <= 0
  {
    vocab := InitialVocab(specials);
    var pairFreqs := GetPairFreqs(freqs);
    merges, taken, rounds := [], [], [];
    var initSize := |specials| + 256;
    var nMerges := vocabSize - initSize;
    var idx := initSize;
    var current := freqs;
    InitialState(current, pairFreqs, vocab, idx);
    assert Progress(specials, freqs, vocab, merges, taken, rounds, current, pairFreqs, idx);
    var k := 0;
    while k < nMerges
      invariant k <= nMerges || k == 0
      invariant |merges| == k
      invariant Progress(specials, freqs, vocab, merges, taken, rounds, current, pairFreqs, idx)
      invariant History(freqs, rounds, taken, current, initSize)
    {
      if pairFreqs == [] {
        NoPairLeft(current, pairFreqs, vocab, idx);
        break;
      }
      StateKeysKnown(current, pairFreqs, vocab, idx);
      var j := BestIndex(pairFreqs, vocab);
      var best := pairFreqs[j].0;
      LookupEntry(pairFreqs, j);
      if Lookup(pairFreqs, best) <= 0 {
        NoPairLeft(current, pairFreqs, vocab, idx);
        break;
      }
      var a, b := best.0, best.1;
      var newFreqs, newPairFreqs := Merge(current, pairFreqs, a, b, idx);
      LoopStep(specials, freqs, vocab, merges, taken, rounds, current, pairFreqs, idx, j, a, b, newFreqs, newPairFreqs);
      merges := merges + [(vocab[a], vocab[b])];
      taken := taken + [(a, b)];
      rounds := rounds + [Round(current, pairFreqs, vocab)];
      vocab := vocab[idx := vocab[a] + vocab[b]];
      current := newFreqs;
      pairFreqs := Remove(newPairFreqs, (a, b));
      idx := idx + 1;
      k := k + 1;
    }
    finalFreqs := current;
    TrainOutcome(specials, freqs, vocab, merges, taken, rounds, current, pairFreqs, idx);
  }
}
