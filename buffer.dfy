/**
 * The sliding window the model is built with: a deque holding at most `k`
 * words, oldest first (class `Buffer` of utils.py).
 */
module Buffering {
  import opened Dicts

  /** The last `k` elements of `s` (all of `s` when it is shorter). */
  function Newest(s: seq<Token>, k: nat): (r: seq<Token>)
    ensures |r| == if |s| < k then |s| else k
    ensures s == s[..|s| - |r|] + r
  {
    if |s| < k then s else s[|s| - k..]
  }

  /**
   * Pushing a word slides the window of the newest `k` words: when it held `k`
   * words the oldest is evicted, and the new word goes last.
   */
  lemma NewestSlides(s: seq<Token>, w: Token, k: nat)
    requires 0 < k
    ensures Newest(s + [w], k) == (if |Newest(s, k)| == k then Newest(s, k)[1..] else Newest(s, k)) + [w]
  {
    if |s| >= k {
      assert (s + [w])[|s| + 1 - k..] == s[|s| - k + 1..] + [w];
    }
  }

  /** A two-word window holds the last two words pushed, oldest first. */
  lemma NewestPair(s: seq<Token>)
    requires |s| >= 2
    ensures Newest(s, 2) == [s[|s| - 2], s[|s| - 1]]
  {
  }

  class Buffer {
    /** The capacity. */
    const k: nat
    /** The deque, oldest element first. */
    var window: seq<Token>
    /** Every word pushed so far, oldest first. */
    ghost var pushed: seq<Token>

    /** The window always holds the newest `k` words pushed. */
    ghost predicate Valid()
      reads this
    {
      0 < k && window == Newest(pushed, k)
    }

    constructor (k: nat)
      requires 0 < k
      ensures Valid() && this.k == k
      ensures window == [] && pushed == []
    {
      this.k := k;
      window := [];
      pushed := [];
    }

    /**
     * Evicts the oldest word when the window is full, appends `word`, and
     * reports whether the window is full afterwards.
     */
    method Push(word: Token) returns (full: bool)
      requires Valid()
      modifies this
      ensures Valid()
      ensures pushed == old(pushed) + [word]
      ensures |window| <= k
      ensures full <==> |window| == k
      ensures full <==> |pushed| >= k
    {
      NewestSlides(pushed, word, k);
      if |window| == k {
        window := window[1..];
      }
      window := window + [word];
      pushed := pushed + [word];
      full := |window| == k;
    }

    /** A snapshot of the window, oldest first; the buffer is left as it is. */
    method Contents() returns (snapshot: seq<Token>)
      requires Valid()
      ensures snapshot == window
      ensures snapshot == Newest(pushed, k)
      ensures |snapshot| <= k
    {
      snapshot := window;
    }
  }
}
