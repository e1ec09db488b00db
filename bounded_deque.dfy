/**
 * A double-ended queue created with a maximum length, as Python's
 * `collections.deque(maxlen=n)`: `append` adds at the right end and, once the
 * queue holds more than `n` items, drops items from the left end.
 */
module BoundedQueue {

  /** The last `n` items of `s` (all of `s` when it is shorter), in order. */
  function TakeLast<T>(s: seq<T>, n: nat): (r: seq<T>)
    ensures |r| == if |s| <= n then |s| else n
  {
    if |s| <= n then s else s[|s| - n..]
  }

  /**
   * The contents of a deque with maximum length `n` after `append(x)` on a
   * deque holding `s`: `x` is pushed at the tail, and the head is dropped if
   * the length then exceeds `n`.
   */
  function BoundedAppend<T>(s: seq<T>, x: T, n: nat): (r: seq<T>)
    ensures |s| < n ==> r == s + [x]
    ensures |s| == n && n > 0 ==> r == s[1..] + [x]
    ensures |r| <= n
    ensures n > 0 ==> |r| > 0 && r[|r| - 1] == x
  {
    TakeLast(s + [x], n)
  }

  /** The contents after appending every item of `xs`, one after another, to a deque holding `s`. */
  function Replay<T>(s: seq<T>, xs: seq<T>, n: nat): seq<T>
    decreases |xs|
  {
    if xs == [] then s else Replay(BoundedAppend(s, xs[0], n), xs[1..], n)
  }

  /** Keeping the last `n` of a prefix and then of the whole is keeping the last `n` of the whole. */
  lemma TakeLastAppend<T>(s: seq<T>, t: seq<T>, n: nat)
    ensures TakeLast(TakeLast(s, n) + t, n) == TakeLast(s + t, n)
  {
  }

  /** One append keeps the deque equal to the last `n` items ever appended. */
  lemma BoundedAppendTakeLast<T>(s: seq<T>, x: T, n: nat)
    ensures BoundedAppend(TakeLast(s, n), x, n) == TakeLast(s + [x], n)
  {
  }

  /**
   * However many appends happen, the deque holds exactly the last `n` items
   * of its old contents followed by everything appended, oldest first.
   */
  lemma {:induction false} ReplayKeepsLast<T>(s: seq<T>, xs: seq<T>, n: nat)
    requires |s| <= n
    ensures Replay(s, xs, n) == TakeLast(s + xs, n)
    decreases |xs|
  {
    if xs == [] {
      assert s + xs == s;
    } else {
      var s', rest := BoundedAppend(s, xs[0], n), xs[1..];
      assert Replay(s, xs, n) == Replay(s', rest, n);
      ReplayKeepsLast(s', rest, n);
      assert s' == TakeLast(s + [xs[0]], n);
      TakeLastAppend(s + [xs[0]], rest, n);
      assert s + [xs[0]] + rest == s + xs by {
        assert xs == [xs[0]] + rest;
      }
    }
  }

  /** Appending to a deque that starts empty never makes it longer than `n`. */
  lemma {:induction false} ReplayBounded<T>(xs: seq<T>, n: nat)
    ensures |Replay([], xs, n)| <= n
    ensures |Replay([], xs, n)| == if |xs| <= n then |xs| else n
  {
    ReplayKeepsLast([], xs, n);
    assert [] + xs == xs;
  }

  /** With maximum length 5, six appends A..F leave B, C, D, E, F. */
  lemma SixIntoFive<T>(a: T, b: T, c: T, d: T, e: T, f: T)
    ensures Replay([], [a, b, c, d, e, f], 5) == [b, c, d, e, f]
  {
    ReplayKeepsLast([], [a, b, c, d, e, f], 5);
    assert [] + [a, b, c, d, e, f] == [a, b, c, d, e, f];
  }

  /** A deque object with a fixed maximum length whose contents `append` updates in place. */
  class BoundedDeque<T> {
    var items: seq<T>
    const maxlen: nat

    ghost predicate Valid()
      reads this
    {
      |items| <= maxlen
    }

    constructor (maxlen: nat)
      ensures Valid() && this.maxlen == maxlen && items == []
    {
      this.maxlen := maxlen;
      items := [];
    }

    /** `append`: push at the tail, then evict the head if the length went past `maxlen`. */
    method Append(x: T)
      requires Valid()
      modifies this
      ensures Valid()
      ensures items == BoundedAppend(old(items), x, maxlen)
    {
      items := items + [x];
      if |items| > maxlen {
        items := items[1..];
      }
    }
  }
}
