# A verified model of the corpus's core: a UART driver, exercises and a BPE trainer

This project models five pieces of the repository in Dafny and proves what each one promises.

- **`Rust/os/src/serial.rs`** is the kernel's polled 16550 serial driver (`serial.dfy`, module `Serial`).
  - The `inb`/`outb` instructions become a `Bus` object. It records every port access and answers status reads from a given sequence.
  - A small model of the UART's write-side registers (`Uart`, `Run`) gives a trace of writes its meaning. It fixes the divisor latch, the line settings and the bytes put on the wire.
- **`Rust/proj/src/leetcode.rs`** holds the array exercises.
  - `leetcode_inplace.dfy` (`LeetcodeInPlace`) covers the in-place ones: merge, remove element, remove duplicates I and II, and rotate. They work on `array<int>`, and each is proved against a function on sequences.
  - `leetcode_scans.dfy` (`LeetcodeScans`) covers the single scans: majority vote, the three stock-profit solutions, the two jump games and the h-index. Each is proved against an independent definition of its problem.
- **`Rust/proj/src/LinkedList.rs`** is a stack of boxed nodes (`linked_list.dfy`, `LinkedList`). Nodes are never shared, so the chain is a value. The list's `head` and `size` are the fields of a class that `push` and `pop` update in place. `Display` is proved to give a text from which the values can be read back.
- **`Rust/proj/src/error_handling.rs`** covers `Option` and `?` (`error_handling.dfy`, `ErrorHandling`).
- **`LLM/doc/bpe_train_original.py`** is the byte-pair-encoding trainer. It is modelled in four modules:
  - `BpeWords`: words of token ids, pair occurrences, and the left-to-right merge of a pair.
  - `BpeTables`: Python dicts as insertion-ordered entry tables, with sums over them.
  - `BpeCounting`: `get_pair_freqs` and `merge`.
  - `BpeTrain`: the initial vocabulary, the choice of the best pair and the merge loop.

  A dict is the sequence of its entries, so the order that `max` breaks ties by is part of the model. `merge` updates `pair_freqs` in place; the model returns the updated table instead.

`common.dfy` (`Common`) holds Rust's `Option` and the fixed-width integer ranges shared by the modules.

## Model

| member | source | states |
|---|---|---|
| ErrorHandling.FeelingLucky | Rust/proj/src/error_handling.rs:3-9 | gives a message exactly when the input exceeds 10, and then the lucky message |
| ErrorHandling.FeelingExtraLucky | Rust/proj/src/error_handling.rs:12-15 | is `None` exactly when `feeling_lucky` is; otherwise gives its message with " Are you?" appended |
| ErrorHandling.MainScenarios | Rust/proj/src/error_handling.rs:17-57 | the demonstration's outcomes: 20 is lucky and extra lucky; 5 is neither, and `unwrap_or` gives the fallback text |
| Serial.Bus.Inb | Rust/os/src/serial.rs:6-10 | a read returns the next status reply, consumes it, and appends the access to the trace |
| Serial.Bus.Outb | Rust/os/src/serial.rs:13-15 | a write appends the access to the trace and consumes no reply |
| Serial.SerialPort.constructor | Rust/os/src/serial.rs:22-24 | the port keeps the base it was given |
| Serial.SerialPort.Init | Rust/os/src/serial.rs:26-36 | performs exactly the seven writes of the initialisation sequence, in order, and reads nothing |
| Serial.InitConfiguresDevice | Rust/os/src/serial.rs:26-36 | from any device state, the sequence leaves divisor 1 (115200 baud), 8N1 with the latch closed, FIFO 0xC7, modem control 0x0B, nothing sent, and interrupts off when the latch started closed |
| Serial.DivisorWrittenUnderLatch | Rust/os/src/serial.rs:28-32 | both divisor bytes are written while DLAB is set, and the line-control write closes the latch |
| Serial.ReorderedInitMisconfigures | Rust/os/src/serial.rs:28-32 | with the line-control write moved before the divisor writes, the divisor byte goes out as data and the divisor stays unchanged, so the order matters |
| Serial.SerialPort.IsTransmitEmpty | Rust/os/src/serial.rs:38-40 | one read of the line-status register; true iff the THRE bit (0x20) is set |
| Serial.SerialPort.WriteByte | Rust/os/src/serial.rs:42-45 | polls the status register until it reports ready, then writes the byte to the data port once |
| Serial.ByteTraceAtFirstReady | Rust/os/src/serial.rs:42-45 | `write_byte` reads the status register exactly up to and including the first ready reply, then writes the byte |
| Serial.AfterReadyAtFirstReady | Rust/os/src/serial.rs:42-45 | `write_byte` consumes exactly the replies up to and including the first ready one |
| Serial.NotReadyBeforeFirst | Rust/os/src/serial.rs:43 | every reply the loop spins on before the first ready one reports busy |
| Serial.ByteTraceFacts | Rust/os/src/serial.rs:42-45 | every data write of `write_byte` comes right after a ready status read, and the byte written is the given one |
| Serial.BytesTraceWritesOnlyWhenReady | Rust/os/src/serial.rs:42-55 | the same holds for a whole string: no data write happens without a ready status read just before it |
| Serial.SerialPort.WriteChar | Rust/os/src/serial.rs:51-54 | one step of `write_str`: a CR then the LF for an LF, the byte alone otherwise, each through `write_byte` |
| Serial.SerialPort.WriteStr | Rust/os/src/serial.rs:49-57 | sends every byte in order with a CR before each LF, and always returns `Ok` |
| Serial.BytesTraceData | Rust/os/src/serial.rs:49-57 | the data bytes `write_str` writes are exactly the string with CR-LF translation |
| Serial.BytesTraceWire | Rust/os/src/serial.rs:49-57 | on a device with the latch closed, those writes put exactly those bytes on the wire and change no register |
| Serial.ExpandLength | Rust/os/src/serial.rs:50-55 | the translation adds one byte per LF |
| Serial.UnexpandExpand | Rust/os/src/serial.rs:50-55 | dropping the CR before each LF recovers the original string |
| Serial.ExpandLfPrecededByCr | Rust/os/src/serial.rs:50-55 | every LF sent is preceded by a CR |
| Serial.OpenSerial1 | Rust/os/src/serial.rs:60-66 | `SERIAL1` is the port at 0x3F8, initialised once on creation |
| Serial.PrintLine | Rust/os/src/serial.rs:79-83 | `println!` sends the rendered text and a final LF through `write_str`, never panics, and consumes exactly the status replies of those bytes |
| Serial.PrintTwoLines | Rust/os/src/serial.rs:79-83 | two `println!` calls in a row send the bytes of both lines, in order, polling from where the first left off, and consume exactly the status replies of both lines' bytes |
| Serial.LineEndsWithCrLf | Rust/os/src/serial.rs:79-83 | a printed line ends with CR LF, after the translated text |
| Serial.InitThenWriteSends | Rust/os/src/serial.rs:26-57 | after `init`, writing a string puts exactly its translated bytes on the wire, at divisor 1 and 8N1 |
| LeetcodeInPlace.Merge | Rust/proj/src/leetcode.rs:3-15 | the first m+n slots become the merge of the first m of `nums1` and the first n of `nums2`; later slots are unchanged |
| LeetcodeInPlace.MergeSortsBothRuns | Rust/proj/src/leetcode.rs:3-15 | merging two sorted runs gives a sorted permutation of their union |
| LeetcodeInPlace.RemoveElement | Rust/proj/src/leetcode.rs:19-28 | the returned length's prefix is the input without `val`, in order; the rest is untouched |
| LeetcodeInPlace.WithoutSpec | Rust/proj/src/leetcode.rs:19-28 | that prefix contains no `val`, keeps every other value's count, and has length n minus the count of `val` |
| LeetcodeInPlace.RemoveDuplicates | Rust/proj/src/leetcode.rs:32-44 | the prefix is the input with runs of equal values collapsed; the rest is untouched |
| LeetcodeInPlace.DedupOfSorted | Rust/proj/src/leetcode.rs:32-44 | on sorted input the prefix is strictly increasing, has the same set of values, and its length is the number of distinct values |
| LeetcodeInPlace.RemoveDuplicatesII | Rust/proj/src/leetcode.rs:48-60 | the prefix keeps each value at most twice; arrays of length two or less are returned whole |
| LeetcodeInPlace.Keep2OfSorted | Rust/proj/src/leetcode.rs:48-60 | on sorted input the prefix is sorted and holds min(count, 2) copies of every value |
| LeetcodeInPlace.ReverseRange | Rust/proj/src/leetcode.rs:81-83 | reverses exactly the slots in [lo, hi) |
| LeetcodeInPlace.ReversedTwice | Rust/proj/src/leetcode.rs:81-83 | reversing twice is the identity |
| LeetcodeInPlace.ReversalsRotate | Rust/proj/src/leetcode.rs:81-83 | the three reversals rotate right by k |
| LeetcodeInPlace.Rotate | Rust/proj/src/leetcode.rs:78-84 | the array becomes its right rotation by `k as usize % n` |
| LeetcodeInPlace.RotatedRightAt | Rust/proj/src/leetcode.rs:78-84 | the element at i moves to (i + r) mod n, and the multiset is unchanged |
| LeetcodeInPlace.RotateMovesEachElement | Rust/proj/src/leetcode.rs:80 | for k >= 0 each element moves k places right, wrapping; a negative k wraps through usize |
| LeetcodeScans.MajorityElement | Rust/proj/src/leetcode.rs:64-74 | when a value fills more than half of the input, that value is returned |
| LeetcodeScans.MaxProfit | Rust/proj/src/leetcode.rs:88-101 | returns the best gain of one buy and one later sell, or 0 when no such pair gains |
| LeetcodeScans.BestSingleTradeUnique | Rust/proj/src/leetcode.rs:88-101 | that best single-trade profit is unique |
| LeetcodeScans.SingleTradeBelowUnlimited | Rust/proj/src/leetcode.rs:88-113 | one trade never earns more than unlimited trading |
| LeetcodeScans.MaxProfitII | Rust/proj/src/leetcode.rs:105-113 | returns the sum of all day-to-day rises |
| LeetcodeScans.UnlimitedTradesOptimum | Rust/proj/src/leetcode.rs:105-113 | no sequence of non-overlapping trades beats that sum, and buying before every rise attains it |
| LeetcodeScans.MaxProfitIIDp | Rust/proj/src/leetcode.rs:117-128 | the two-state dynamic program returns the same optimum as the greedy sum |
| LeetcodeScans.CanJump | Rust/proj/src/leetcode.rs:132-146 | true iff the last index is reachable from index 0 by jumps of at most `nums[i]` (an empty input counts as true) |
| LeetcodeScans.LayersStep | Rust/proj/src/leetcode.rs:159-165 | each iteration keeps the layer invariant: `farthest` is the reach of the scanned prefix, `current_end` is the frontier of `steps` jumps, and a layer always extends past its end when the last index is reachable |
| LeetcodeScans.Jump | Rust/proj/src/leetcode.rs:150-168 | when the last index is reachable, returns the least number of jumps to reach it (0 for length at most 1) |
| LeetcodeScans.SortAscendingSpec | Rust/proj/src/leetcode.rs:173 | the sort gives a sorted permutation |
| LeetcodeScans.HIndex | Rust/proj/src/leetcode.rs:172-184 | returns the greatest h such that at least h papers have at least h citations |
| LeetcodeScans.HIndexMaximal | Rust/proj/src/leetcode.rs:176-183 | when the scan passes index i, no h above n - i is an h-index |
| LinkedList.List.constructor | Rust/proj/src/LinkedList.rs:24-29 | a new list is empty, with size 0 |
| LinkedList.List.GetSize | Rust/proj/src/LinkedList.rs:31-33 | the stored size is the number of values in the chain |
| LinkedList.List.IsEmpty | Rust/proj/src/LinkedList.rs:35-37 | true iff the list holds no value |
| LinkedList.List.Push | Rust/proj/src/LinkedList.rs:39-43 | the value becomes the new head, in front of the old chain, and the size grows by one |
| LinkedList.List.Pop | Rust/proj/src/LinkedList.rs:45-51 | on an empty list returns `None` and changes nothing; otherwise returns the head value and leaves the rest |
| LinkedList.PushThenPop | Rust/proj/src/LinkedList.rs:39-51 | a pop right after a push returns the pushed value and restores the list |
| LinkedList.List.ToString | Rust/proj/src/LinkedList.rs:54-68 | the text is each value, head first, in decimal, preceded by a space |
| LinkedList.DecimalRoundTrip | Rust/proj/src/LinkedList.rs:61 | the decimal digits of a value read back as the value |
| LinkedList.RenderRoundTrip | Rust/proj/src/LinkedList.rs:54-68 | the rendered text can be read back into the list's values |
| LinkedList.Demo | Rust/proj/src/LinkedList.rs:81-98 | the demonstration: empty at first; after pushing 1..9 it shows 9 down to 1 with size 9; the pop gives 9 and leaves 8 down to 1, size 8 |
| BpeWords.ContainsPairOcc | LLM/doc/bpe_train_original.py:105 | the `zip` containment test holds iff the pair occurs at least once |
| BpeWords.MergeWord | LLM/doc/bpe_train_original.py:114-124 | the rewriting loop computes the left-to-right merge of the pair into the new id |
| BpeWords.MergedWordLength | LLM/doc/bpe_train_original.py:114-124 | each replacement shortens the word by exactly one |
| BpeWords.UnmergeMergedWord | LLM/doc/bpe_train_original.py:114-124 | when the new id is not in the word, unmerging it back into the pair recovers the word |
| BpeWords.MergedWordWithoutPair | LLM/doc/bpe_train_original.py:105-107 | a word without the pair is unchanged and gets no replacement |
| BpeWords.MergedWordWithPair | LLM/doc/bpe_train_original.py:105-124 | a word with the pair gets at least one replacement and contains the new id |
| BpeWords.MergedWordHasNoPair | LLM/doc/bpe_train_original.py:116-122 | no occurrence of the pair survives the merge when the new id differs from both ids |
| BpeWords.MergedWordIds | LLM/doc/bpe_train_original.py:116-122 | the merged word uses only ids of the word and the new id |
| BpeTables.LookupAddTo | LLM/doc/bpe_train_original.py:89 | `d[k] += x` on a defaultdict moves the count of k by x and no other count |
| BpeTables.KeySetAddTo | LLM/doc/bpe_train_original.py:89 | it makes k a key and adds no other |
| BpeTables.DistinctAddTo | LLM/doc/bpe_train_original.py:89 | it keeps every key in one entry |
| BpeTables.LookupRemove | LLM/doc/bpe_train_original.py:185 | after `del d[k]`, k counts zero and every other key keeps its count |
| BpeTables.KeySetRemove | LLM/doc/bpe_train_original.py:185 | `del` removes exactly the key k |
| BpeTables.SumOverAddTo | LLM/doc/bpe_train_original.py:106 | adding x to the frequency of a word adds x times that word's weight to every weighted sum |
| BpeCounting.AddPairs | LLM/doc/bpe_train_original.py:110-111 | one pass over a word moves every pair's count by x times its occurrences in the word; the keys gained are the word's pairs |
| BpeCounting.GetPairFreqs | LLM/doc/bpe_train_original.py:84-90 | each pair's count is its occurrences summed over the words, weighted by frequency; the keys are exactly the pairs that occur |
| BpeCounting.Merge | LLM/doc/bpe_train_original.py:93-131 | each new word's frequency is the total frequency of the words that merge into it; the total is kept; pair counts after the merge are those of the merged words; the pair table moves by new minus old counts, so it stays exact |
| BpeCounting.WordWithoutPairKeepsFreq | LLM/doc/bpe_train_original.py:105-106 | a word without the pair keeps exactly its frequency when the new id is unused, since every rewritten word holds the new id |
| BpeCounting.MergedPairGone | LLM/doc/bpe_train_original.py:114-125 | after the merge the merged pair occurs in no word |
| BpeTrain.BytesLessTotal | LLM/doc/bpe_train_original.py:174 | Python's bytes order is total on distinct values (irreflexive and transitive by `BytesLessIrreflexive` and `BytesLessTransitive`) |
| BpeTrain.RankLessTotal | LLM/doc/bpe_train_original.py:174 | the ranking key (count, left bytes, right bytes) orders distinct keys totally |
| BpeTrain.BestIndexIsFirstMaximum | LLM/doc/bpe_train_original.py:174 | `max` picks an entry of greatest rank, and the first such entry in insertion order |
| BpeTrain.BestCountBounds | LLM/doc/bpe_train_original.py:174-176 | every key counts at most the picked entry's count, so a non-positive best count means no pair has a positive count |
| BpeTrain.InitialVocab | LLM/doc/bpe_train_original.py:145-147 | the ids are exactly 0 up to n+256, where n is the number of special tokens; special token i is id i, and byte b is id n+b |
| BpeTrain.ChosenIsMostFrequent | LLM/doc/bpe_train_original.py:173-176 | the pair a round takes is a most frequent adjacent pair of the current words, with a positive count |
| BpeTrain.MergeStep | LLM/doc/bpe_train_original.py:178-186 | a merge round keeps the pair table exact and every id below the next free id |
| BpeTrain.HistoryStep | LLM/doc/bpe_train_original.py:178-186 | a round that merges the taken pair under the next id extends the chain of rounds by one link |
| BpeTrain.Train | LLM/doc/bpe_train_original.py:134-191 | the result holds the initial entries; at most vocab_size minus the initial size merges; the rounds form a chain from the input words: round t merges the pair it took under id n+256+t into the words of round t+1 (the final words after the last round), with each new frequency the summed frequency of the words merging to it; merge t records the bytes of that pair, chosen as the most frequent pair of that round's words; the new id holds their concatenation; the total word count is kept; stopping early means no pair has a positive count in the final words |

## Left out

- **Hardware:** `inb`/`outb` are inline assembly. They are replaced by the `Bus` object; the device is modelled only as far as its write-side registers and the wire.
- **Serial synchronisation and panics:** the `lazy_static` initialisation, the spin `Mutex` and `_print`'s `expect` are not modelled. `OpenSerial1` performs the initialisation once, and `PrintLine` shows that `write_str` never reports an error.
- **Formatting:** `core::fmt` is not modelled; `PrintLine` takes the text already rendered.
- Serial.SerialPort.WriteByte: requires a ready status somewhere ahead in the replies. A device that never becomes ready makes the source spin forever.
- Serial.InitSequence: requires the ports `base .. base + 5` to fit in 16 bits. Rust's `u16` addition overflows otherwise.
- LeetcodeInPlace.Merge: requires m + n to fit in `nums1` and n to fit in `nums2`, which the exercise guarantees. The Rust code would panic on indices beyond them.
- LeetcodeInPlace.Rotate: requires a nonempty array. The source's `% n` panics on an empty one.
- LeetcodeScans.CanJump: requires non-negative jump lengths. The exercise guarantees this, and the source's `step as usize` would wrap for a negative one.
- LeetcodeScans.Jump: requires non-negative jump lengths and a reachable last index, as the exercise guarantees.
- **i32 overflow:** all i32 arithmetic in the exercises is on unbounded integers, so overflow is not modelled. This covers `profit`, `price - min_price`, `prices[i] - prices[i - 1]`, `f1 + p`, `f0 - p`, `i + step` and the returned counts. Inputs of the exercise's sizes stay in range.
- LeetcodeScans.HIndex: `sort_unstable` is modelled by an insertion sort. Only its result matters, and every ascending sort of the same values gives the same sequence.
- LeetcodeScans.MajorityElement: states nothing about the result when no value is a majority. The source promises nothing then.
- **Linked list memory:** `Box` allocation and the `Drop` implementation are not modelled. Dropping only frees memory and prints a message.
- **Console output:** the `println!` calls of the demonstrations are stated as values (`Demo`, `MainScenarios`).
- `usize` overflow of the list size is not modelled.
- **BPE I/O:** reading the corpus, `find_chunk_boundaries`, the multiprocessing `Pool` in `pre_tokenize` and `_process_chunk`, the regular-expression pre-tokenisation, UTF-8 decoding, `time` and `print` are not modelled.
  - `Train` takes the word-frequency table that pre-tokenisation produces, with every id a special-token id or a byte id.
  - It takes the special tokens already encoded as bytes.
- **BPE in-place updates:** `merge` updates `pair_freqs` in place; `BpeCounting.Merge` returns the updated table instead.
- **BPE vocabularies:** `id_to_bytes` is always equal to `vocab` in the source, so one map models both. The order of `vocab`'s entries is not modelled.
- BpeTrain.Train: states the properties of the merges by ghost results (the pairs taken, each round's tables, the final words) rather than by returning them.
- BpeTrain.Train: the pair table a round hands to the next is tied to that round's words by its counts only, not by its entry order. `max` falls back on that order only between pairs of equal count whose bytes are also equal. In that case the contract does not say which of their ids is taken, though the recorded bytes are the same either way.
