/**
 * Words of token ids in the byte-pair-encoding trainer of
 * `bpe_train_original.py`: counting an adjacent pair in a word, and
 * rewriting a word so that each non-overlapping occurrence of the pair,
 * found left to right, becomes one new token.
 */
module BpeWords {

  /** A pre-token as a tuple of token ids. */
  type Word = seq<int>

  /** Two adjacent token ids. */
  type Pair = (int, int)

  /** Position `i` of `w` starts an occurrence of `p`. */
  predicate PairAt(w: Word, i: int, p: Pair)
    requires 0 <= i && i + 1 < |w|
  {
    w[i] == p.0 && w[i + 1] == p.1
  }

  /** The number of positions before `n` that start an occurrence of `p`. */
  function OccBefore(w: Word, p: Pair, n: nat): nat
    requires n + 1 <= |w| || n == 0
  {
    if n == 0 then 0 else OccBefore(w, p, n - 1) + (if PairAt(w, n - 1, p) then 1 else 0)
  }

  /** The number of positions of `w` that start an occurrence of `p`. */
  function Occ(w: Word, p: Pair): nat {
    if |w| < 2 then 0 else OccBefore(w, p, |w| - 1)
  }

  /** Python's `(a, b) in zip(word, word[1:])`. */
  function ContainsPair(w: Word, a: int, b: int): bool {
    |w| >= 2 && ((w[0] == a && w[1] == b) || ContainsPair(w[1..], a, b))
  }

  lemma {:induction false} OccBeforeShift(w: Word, p: Pair, n: nat)
    requires 1 <= n && n + 1 <= |w|
    ensures OccBefore(w, p, n) == (if PairAt(w, 0, p) then 1 else 0) + OccBefore(w[1..], p, n - 1)
  {
    if n > 1 {
      OccBeforeShift(w, p, n - 1);
      assert PairAt(w, n - 1, p) == PairAt(w[1..], n - 2, p);
    }
  }

  /** Counting from the front: the first position, then the rest of the word. */
  lemma OccFront(w: Word, p: Pair)
    requires |w| >= 2
    ensures Occ(w, p) == (if PairAt(w, 0, p) then 1 else 0) + Occ(w[1..], p)
  {
    OccBeforeShift(w, p, |w| - 1);
  }

  /** The containment test agrees with the count: the pair is present iff it occurs. */
  lemma {:induction false} ContainsPairOcc(w: Word, a: int, b: int)
    ensures ContainsPair(w, a, b) <==> Occ(w, (a, b)) > 0
  {
    if |w| >= 2 {
      OccFront(w, (a, b));
      ContainsPairOcc(w[1..], a, b);
    }
  }

  /**
   * The word after merging `(a, b)` into `newId`: scanning left to right, an
   * occurrence of the pair becomes `newId` and the scan resumes after it.
   */
  function MergedWord(w: Word, a: int, b: int, newId: int): Word {
    if |w| >= 2 && w[0] == a && w[1] == b then [newId] + MergedWord(w[2..], a, b, newId)
    else if w == [] then []
    else [w[0]] + MergedWord(w[1..], a, b, newId)
  }

  /** How many occurrences the left-to-right scan replaces. */
  function Replacements(w: Word, a: int, b: int): nat {
    if |w| >= 2 && w[0] == a && w[1] == b then 1 + Replacements(w[2..], a, b)
    else if w == [] then 0
    else Replacements(w[1..], a, b)
  }

  /** Undoes a merge: every `newId` becomes `a, b` again. */
  function Unmerge(v: Word, a: int, b: int, newId: int): Word {
    if v == [] then []
    else (if v[0] == newId then [a, b] else [v[0]]) + Unmerge(v[1..], a, b, newId)
  }

  /** Each replacement shortens the word by one. */
  lemma {:induction false} MergedWordLength(w: Word, a: int, b: int, newId: int)
    ensures |MergedWord(w, a, b, newId)| == |w| - Replacements(w, a, b)
  {
    if |w| >= 2 && w[0] == a && w[1] == b {
      MergedWordLength(w[2..], a, b, newId);
    } else if w != [] {
      MergedWordLength(w[1..], a, b, newId);
    }
  }

  /** Unmerging the new token again recovers the original word, when `newId` is new to it. */
  lemma {:induction false} UnmergeMergedWord(w: Word, a: int, b: int, newId: int)
    requires newId !in w
    ensures Unmerge(MergedWord(w, a, b, newId), a, b, newId) == w
  {
    if |w| >= 2 && w[0] == a && w[1] == b {
      UnmergeMergedWord(w[2..], a, b, newId);
      assert ([newId] + MergedWord(w[2..], a, b, newId))[1..] == MergedWord(w[2..], a, b, newId);
      assert w == [a, b] + w[2..];
    } else if w != [] {
      UnmergeMergedWord(w[1..], a, b, newId);
      assert ([w[0]] + MergedWord(w[1..], a, b, newId))[1..] == MergedWord(w[1..], a, b, newId);
      assert w == [w[0]] + w[1..];
    }
  }

  /** A word without the pair is left as it is. */
  lemma {:induction false} MergedWordWithoutPair(w: Word, a: int, b: int, newId: int)
    requires !ContainsPair(w, a, b)
    ensures MergedWord(w, a, b, newId) == w
    ensures Replacements(w, a, b) == 0
  {
    if w != [] {
      MergedWordWithoutPair(w[1..], a, b, newId);
      assert w == [w[0]] + w[1..];
    }
  }

  /** A word with the pair gets at least one replacement, hence the new token. */
  lemma {:induction false} MergedWordWithPair(w: Word, a: int, b: int, newId: int)
    requires ContainsPair(w, a, b)
    ensures Replacements(w, a, b) > 0
    ensures newId in MergedWord(w, a, b, newId)
  {
    if !(w[0] == a && w[1] == b) {
      MergedWordWithPair(w[1..], a, b, newId);
    }
  }

  /** The pair does not survive the merge, as long as `newId` is neither of its ids. */
  lemma {:induction false} MergedWordHasNoPair(w: Word, a: int, b: int, newId: int)
    requires newId != a && newId != b
    ensures Occ(MergedWord(w, a, b, newId), (a, b)) == 0
  {
    var v := MergedWord(w, a, b, newId);
    if |w| >= 2 && w[0] == a && w[1] == b {
      MergedWordHasNoPair(w[2..], a, b, newId);
      if |v| >= 2 {
        OccFront(v, (a, b));
        assert v[1..] == MergedWord(w[2..], a, b, newId);
      }
    } else if w != [] {
      MergedWordHasNoPair(w[1..], a, b, newId);
      var rest := MergedWord(w[1..], a, b, newId);
      assert v[1..] == rest;
      if |v| >= 2 {
        OccFront(v, (a, b));
        if v[0] == a && v[1] == b {
          MergedWordStartsWith(w[1..], a, b, newId);
          assert false;
        }
      }
    }
  }

  /** The merged word starts with `newId` when the word starts with the pair, else with the word's first id. */
  lemma MergedWordStartsWith(w: Word, a: int, b: int, newId: int)
    requires w != [] && MergedWord(w, a, b, newId) != []
    ensures MergedWord(w, a, b, newId)[0] == (if |w| >= 2 && w[0] == a && w[1] == b then newId else w[0])
  {
  }

  /** The ids of the merged word are those of the word, plus `newId`. */
  lemma {:induction false} MergedWordIds(w: Word, a: int, b: int, newId: int, x: int)
    requires x in MergedWord(w, a, b, newId)
    ensures x in w || x == newId
  {
    if |w| >= 2 && w[0] == a && w[1] == b {
      if x != newId {
        MergedWordIds(w[2..], a, b, newId, x);
      }
    } else if w != [] {
      if x != w[0] {
        MergedWordIds(w[1..], a, b, newId, x);
      }
    }
  }

  /** One step of the scan, at position `i`: the token it emits and where it resumes. */
  lemma MergedWordStep(w: Word, a: int, b: int, newId: int, i: nat, done: Word)
    requires i < |w|
    requires done + MergedWord(w[i..], a, b, newId) == MergedWord(w, a, b, newId)
    ensures i + 1 < |w| && w[i] == a && w[i + 1] == b ==>
      (done + [newId]) + MergedWord(w[i + 2..], a, b, newId) == MergedWord(w, a, b, newId)
    ensures !(i + 1 < |w| && w[i] == a && w[i + 1] == b) ==>
      (done + [w[i]]) + MergedWord(w[i + 1..], a, b, newId) == MergedWord(w, a, b, newId)
  {
    assert w[i..][1..] == w[i + 1..];
    if i + 1 < |w| {
      assert w[i..][2..] == w[i + 2..];
    }
    if i + 1 < |w| && w[i] == a && w[i + 1] == b {
      assert MergedWord(w[i..], a, b, newId) == [newId] + MergedWord(w[i + 2..], a, b, newId);
      assert (done + [newId]) + MergedWord(w[i + 2..], a, b, newId) == done + ([newId] + MergedWord(w[i + 2..], a, b, newId));
    } else {
      assert MergedWord(w[i..], a, b, newId) == [w[i]] + MergedWord(w[i + 1..], a, b, newId);
      assert (done + [w[i]]) + MergedWord(w[i + 1..], a, b, newId) == done + ([w[i]] + MergedWord(w[i + 1..], a, b, newId));
    }
  }

  /** The rewriting loop: scans `word` once, building the merged word. */
  method MergeWord(word: Word, a: int, b: int, newId: int) returns (newWord: Word)
    ensures newWord == MergedWord(word, a, b, newId)
  {
    newWord := [];
    var i := 0;
    assert word[0..] == word;
    while i < |word|
      invariant 0 <= i <= |word|
      invariant newWord + MergedWord(word[i..], a, b, newId) == MergedWord(word, a, b, newId)
    {
      MergedWordStep(word, a, b, newId, i, newWord);
      if i < |word| - 1 && word[i] == a && word[i + 1] == b {
        newWord := newWord + [newId];
        i := i + 2;
      } else {
        newWord := newWord + [word[i]];
        i := i + 1;
      }
    }
    assert word[i..] == [];
  }
}
