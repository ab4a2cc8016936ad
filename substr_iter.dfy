/**
  A window iterator over the characters of a text: every step yields the next
  N consecutive characters, moving one character forward per call.

  The text is modelled as its already decoded sequence of characters; the
  character cursor of the original is an index `pos` into that sequence, and
  cloning the cursor is copying that index.
 */
module SubstrIterator {
  import opened Wrappers

  /** Number of N-character windows in a text of `len` characters. */
  function WindowCount(len: nat, n: nat): nat
  {
    if len < n then 0 else len - n + 1
  }

  /**
    Reference definition of the windows of `s`, oldest first: the first `n`
    characters, followed by the windows of the text that starts one character later.
   */
  function Windows(s: seq<char>, n: nat): (r: seq<seq<char>>)
    requires n >= 1
    ensures |r| == WindowCount(|s|, n)
    decreases |s|
  {
    if |s| < n then [] else [s[..n]] + Windows(s[1..], n)
  }

  /** Every window holds exactly N characters. */
  lemma {:induction false} WindowsWidth(s: seq<char>, n: nat)
    requires n >= 1
    ensures forall w | w in Windows(s, n) :: |w| == n
    decreases |s|
  {
    if |s| >= n {
      WindowsWidth(s[1..], n);
    }
  }

  /** The k-th window (0-based) is the slice of the text starting at k. */
  lemma {:induction false} WindowsAt(s: seq<char>, n: nat, k: nat)
    requires n >= 1
    requires k < WindowCount(|s|, n)
    ensures k + n <= |s|
    ensures Windows(s, n)[k] == s[k..k + n]
  {
    if k > 0 {
      WindowsAt(s[1..], n, k - 1);
      assert s[1..][k - 1..k - 1 + n] == s[k..k + n];
    }
  }

  /** Consecutive windows overlap in all but one character. */
  lemma WindowsOverlap(s: seq<char>, n: nat, k: nat)
    requires n >= 1
    requires k + 1 < WindowCount(|s|, n)
    ensures |Windows(s, n)[k]| == |Windows(s, n)[k + 1]| == n
    ensures Windows(s, n)[k][1..] == Windows(s, n)[k + 1][..n - 1]
  {
    WindowsAt(s, n, k);
    WindowsAt(s, n, k + 1);
  }

  /** No window before N characters, and exactly the whole text when it has N. */
  lemma WindowsShortText(s: seq<char>, n: nat)
    requires n >= 1
    ensures |s| < n ==> Windows(s, n) == []
    ensures |s| == n ==> Windows(s, n) == [s]
  {
    if |s| == n {
      assert s[..n] == s;
    }
  }

  function Min(a: nat, b: nat): nat
  {
    if a < b then a else b
  }

  /**
    Moving the cursor from `p` to `p + 1` extends the prefix of windows already
    returned by the window at `p` when one fits there, and leaves it as it is otherwise.
   */
  lemma EmittedAdvance(s: seq<char>, n: nat, p: nat)
    requires n >= 1 && p < |s|
    ensures p + n <= |s| ==>
      Windows(s, n)[..Min(p + 1, WindowCount(|s|, n))] == Windows(s, n)[..Min(p, WindowCount(|s|, n))] + [s[p..p + n]]
    ensures p + n > |s| ==>
      Min(p + 1, WindowCount(|s|, n)) == Min(p, WindowCount(|s|, n))
  {
    if p + n <= |s| {
      WindowsAt(s, n, p);
      assert Windows(s, n)[..p + 1] == Windows(s, n)[..p] + [Windows(s, n)[p]];
    }
  }

  /** Character-window iterator; `N` is the width of every window. */
  class SubstrIter {
    const source: seq<char>
    const N: nat
    var pos: nat

    /** The windows returned so far, oldest first. */
    ghost var Emitted: seq<seq<char>>

    /**
      The cursor stays inside the text and everything returned so far is,
      in order, a prefix of the reference windows of the text.
     */
    ghost predicate Valid()
      reads this
    {
      pos <= |source| &&
      Emitted == if N == 0 then [] else Windows(source, N)[..Min(pos, WindowCount(|source|, N))]
    }

    /** No further window can be produced from the current cursor. */
    predicate Exhausted()
      reads this
    {
      pos + N > |source|
    }

    /** Construction consumes nothing: the cursor is at the first character. */
    constructor From(origin: seq<char>, n: nat)
      ensures Valid()
      ensures source == origin && N == n
      ensures pos == 0 && Emitted == []
    {
      source := origin;
      N := n;
      pos := 0;
      Emitted := [];
    }

    /**
      Pulls one character, then reads the N - 1 following ones through a copy
      of the cursor into a fresh N-slot buffer; `None` when either read runs out.
     */
    method Next() returns (r: Option<seq<char>>)
      requires Valid() && N >= 1
      modifies this
      ensures Valid()
      ensures pos == if old(pos) < |source| then old(pos) + 1 else old(pos)
      ensures r == if old(pos) + N <= |source| then Some(source[old(pos)..old(pos) + N]) else None
      ensures Emitted == if r.Some? then old(Emitted) + [r.value] else old(Emitted)
      ensures r.None? ==> Exhausted()
      ensures old(Exhausted()) ==> r.None?
    {
      ghost var start := pos;
      if pos < |source| {
        EmittedAdvance(source, N, pos);
      }
      var res := new char[N](_ => ' ');
      if pos == |source| {
        return None;
      }
      res[0] := source[pos];
      pos := pos + 1;
      var iter := pos;
      assert res[..1] == source[start..iter];
      for k := 1 to N
        invariant pos == start + 1 && iter == start + k <= |source|
        invariant res[..k] == source[start..iter]
        invariant Emitted == old(Emitted)
      {
        if iter == |source| {
          assert start + N > |source|;
          return None;
        }
        res[k] := source[iter];
        assert res[..k + 1] == res[..k] + [source[iter]];
        iter := iter + 1;
      }
      assert res[..] == res[..N];
      Emitted := Emitted + [res[..]];
      r := Some(res[..]);
    }
  }

  /** Collects every window the iterator yields until it returns `None`. */
  method CollectAll(text: seq<char>, n: nat) returns (all: seq<seq<char>>)
    requires n >= 1
    ensures all == Windows(text, n)
    ensures |all| == WindowCount(|text|, n)
    ensures forall k :: 0 <= k < |all| ==> all[k] == text[k..k + n]
  {
    var it := new SubstrIter.From(text, n);
    all := [];
    while true
      invariant it.Valid() && it.source == text && it.N == n
      invariant all == it.Emitted
      decreases |text| - it.pos
    {
      var w := it.Next();
      match w
      case None => break;
      case Some(window) => all := all + [window];
    }
    assert it.Exhausted();
    forall k | 0 <= k < |all| ensures all[k] == text[k..k + n] {
      WindowsAt(text, n, k);
    }
  }
}
