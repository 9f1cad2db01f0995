/**
 * The two-stack FIFO work queue of lib/queue.ts.
 *
 * `push` appends to `inOrder`; `pop` removes from the end of `reversed`, and
 * when `reversed` is empty it reverses `inOrder` in place and swaps the two.
 * The logical contents, head first, are `Reversed(reversed) + inOrder`.
 */
module WorkQueue {
  import opened Wrappers

  /** The sequence `s` read back to front (what `Array.prototype.reverse` leaves behind). */
  function Reversed<T>(s: seq<T>): (r: seq<T>)
    ensures |r| == |s|
    ensures forall k :: 0 <= k < |s| ==> r[k] == s[|s| - 1 - k]
  {
    if s == [] then [] else Reversed(s[1..]) + [s[0]]
  }

  /** Reversing twice gives back the original sequence. */
  lemma {:induction false} ReversedTwice<T>(s: seq<T>)
    ensures Reversed(Reversed(s)) == s
  {
    var r := Reversed(Reversed(s));
    assert |r| == |s|;
    forall k | 0 <= k < |s| ensures r[k] == s[k] {
    }
  }

  /** Dropping the last element of `s` drops the head of its reversal. */
  lemma {:induction false} ReversedDropLast<T>(s: seq<T>)
    requires s != []
    ensures Reversed(s[..|s| - 1]) == Reversed(s)[1..]
  {
    var t := s[..|s| - 1];
    var a, b := Reversed(t), Reversed(s)[1..];
    assert |a| == |b| == |t|;
    forall k | 0 <= k < |a| ensures a[k] == b[k] {
      assert a[k] == t[|t| - 1 - k];
      assert b[k] == Reversed(s)[k + 1] == s[|s| - 1 - (k + 1)];
    }
  }

  class Queue<T> {
    /** Items waiting to be popped; the next one is the last element. */
    var reversed: seq<T>
    /** Items pushed since the last refill, oldest first. */
    var inOrder: seq<T>

    /** The logical FIFO contents, head first. */
    ghost function Contents(): seq<T>
      reads this
    {
      Reversed(reversed) + inOrder
    }

    /** The queue starts with `elements`, which come out first and in array order. */
    constructor (elements: seq<T>)
      ensures reversed == [] && inOrder == elements
      ensures Contents() == elements
    {
      reversed := [];
      inOrder := elements;
    }

    /** Appends `element` at the tail of the logical contents. */
    method Push(element: T)
      modifies this
      ensures inOrder == old(inOrder) + [element] && reversed == old(reversed)
      ensures Contents() == old(Contents()) + [element]
    {
      inOrder := inOrder + [element];
    }

    /**
     * Removes and returns the head of the logical contents, or `None` (the
     * source's `undefined`) without touching either array when the queue is
     * empty. The refill happens only when `reversed` is empty, and afterwards
     * `inOrder` is that former, empty `reversed`.
     */
    method Pop() returns (r: Option<T>)
      modifies this
      ensures old(Contents()) == [] ==> r == None && reversed == old(reversed) && inOrder == old(inOrder)
      ensures old(Contents()) != [] ==> r == Some(old(Contents())[0]) && Contents() == old(Contents())[1..]
      ensures old(reversed) != [] ==> inOrder == old(inOrder)
      ensures old(reversed) == [] && old(inOrder) != [] ==>
                inOrder == [] && reversed == Reversed(old(inOrder))[..|old(inOrder)| - 1]
    {
      if |reversed| > 0 {
        ReversedDropLast(reversed);
        assert Reversed(reversed)[0] == reversed[|reversed| - 1];
        r := Some(reversed[|reversed| - 1]);
        reversed := reversed[..|reversed| - 1];
        return;
      }
      if |inOrder| == 0 {
        return None;
      }
      var newReversed := Reversed(inOrder);
      inOrder := reversed;
      reversed := newReversed;
      ReversedDropLast(reversed);
      ReversedTwice(old(inOrder));
      assert Reversed(reversed)[0] == reversed[|reversed| - 1];
      r := Some(reversed[|reversed| - 1]);
      reversed := reversed[..|reversed| - 1];
    }

    /** The number of queued items: the sizes of both arrays together. */
    function Length(): (n: nat)
      reads this
      ensures n == |Contents()|
    {
      |reversed| + |inOrder|
    }
  }
}
