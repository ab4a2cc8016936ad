# substr-iterator, modelled in Dafny

The crate iterates over a string by windows of N characters without allocating.
`SubstrIter<N>` holds a character cursor over the text. Each call to `next` does four things:

- it pulls one character from the cursor;
- it clones the cursor;
- it reads the N - 1 following characters through the clone into an N-slot array;
- it returns that array, or `None` as soon as either read runs out.

The windows therefore overlap and advance by one character per call. `TrigramIter` is the same iterator with N = 3.

The model has three files:

- `wrappers.dfy` holds the `Option` type that `next` returns.
- `substr_iter.dfy` (module `SubstrIterator`) holds the following:
  - the class `SubstrIter`, with the decoded text `source`, the width `N` and the cursor `pos`;
  - a reference definition `Windows(s, n)`, which takes the first n characters and then the windows of the text one character later;
  - lemmas about `Windows`;
  - `CollectAll`, which drains an iterator into a sequence the way the crate's tests do with `Vec::from_iter`.
- `substr_iter_tests.dfy` (module `SubstrIteratorTests`) holds the documented example and the crate's test cases as verified client methods.

The class keeps a ghost record `Emitted` of every window returned so far. Its invariant `Valid()` says two things:

- the cursor stays inside the text;
- `Emitted` is, in order, a prefix of `Windows(source, N)`.

`Next` is proved against this invariant. Its contract says which slice of the text it returns and how far the cursor moves. The lemmas then prove the shape of `Windows` itself: the count, the index form, the width and the overlap.

The iterator keeps no buffer between calls and does no priming: construction consumes nothing, and every call rescans N characters through a clone of the cursor.

## Model

| member | source | states |
|---|---|---|
| SubstrIterator.SubstrIter.From | src/lib.rs:28-34 | construction consumes nothing: the cursor is at the first character of the text and nothing has been returned yet |
| SubstrIterator.SubstrIter.Next | src/lib.rs:39-47 | with N >= 1, returns exactly the N characters of the text starting at the cursor, or `None` when fewer remain; the cursor advances by one character unless it was already at the end, whatever the result; after a `None` the iterator is exhausted and every later call returns `None`; the returned window is the next one of the reference windows, in order; since every result is a slice of the text, the blank placeholder of an unfilled slot is never returned |
| SubstrIterator.Windows | src/lib.rs:64-68 | a text of L characters has max(0, L - N + 1) windows |
| SubstrIterator.WindowsWidth | src/lib.rs:40-46 | every reference window holds exactly N characters |
| SubstrIterator.WindowsAt | src/lib.rs:41-45 | the k-th window (0-based) is the text's characters k to k + N - 1, in text order |
| SubstrIterator.WindowsOverlap | src/lib.rs:41-45 | consecutive windows share N - 1 characters: the window moves by one character per step |
| SubstrIterator.WindowsShortText | src/lib.rs:41-45 | a text shorter than N has no window; a text of exactly N characters has one window, the whole text |
| SubstrIterator.CollectAll | src/lib.rs:66-68 | draining a fresh iterator until `None` yields exactly the reference windows: max(0, L - N + 1) of them, the k-th being characters [k, k + N) |
| SubstrIteratorTests.DocExample | src/lib.rs:3-8 | the first trigram of "whatever" is ['w','h','a'] and that of "今天我吃饭" is ['今','天','我'] |
| SubstrIteratorTests.ShouldWorkWithSimpleCharacters | src/lib.rs:64-68 | all trigrams of "whatever" are "wha", "hat", "ate", "tev", "eve", "ver" |
| SubstrIteratorTests.ShouldWorkWithChineseCharacters | src/lib.rs:65-68 | all trigrams of "今天我吃饭" are "今天我", "天我吃", "我吃饭" |
| SubstrIteratorTests.ShortTextYieldsNothing | src/lib.rs:41-45 | a text shorter than the window ("ab" with N = 3, the first query of benches/bench.rs:5, iterated at benches/bench.rs:14) yields `None` on the very first call |

## Left out

- UTF-8 decoding by `str::chars`: the text is given as its already decoded sequence of characters. The cursor is an index into that sequence, and cloning the cursor copies the index.
- Lifetimes and borrowing of the source string: they are not behaviour.
- The N-slot result array `[char; N]` is a Rust value returned by copy. The model fills a fresh N-slot `array` that starts as N blanks, one slot at a time, and returns a copy of its contents as a sequence.
- N is a const generic in the source. Here it is a constant field fixed at construction. `From` accepts N = 0, as the source does. `Next` requires N >= 1. With N = 0, `next` evaluates the pull before the write to slot 0: on an exhausted cursor it returns `None` first, and once a character has been pulled the write to slot 0 panics. The model does not distinguish these two N = 0 outcomes.
- The test helper `as_array` is test plumbing: it collects a string into a fixed array. The tests compare windows as character sequences instead.
- The benchmark harness (timing, macros) in benches/bench.rs has no logic beyond iterating the windows.
