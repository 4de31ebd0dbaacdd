/** The per-episode memory (`class Memory` of montecarlo/main.py): a
    `deque(maxlen=max_size)` of transitions, appended at the right and
    popped from the right, so it is read back most recent first. */
module EpisodeMemory {

  /** One recorded step `(state, action, reward)`. */
  datatype Transition = Transition(state: nat, action: nat, reward: real)

  /** `deque.append` on a deque bounded by `maxLen`: a full deque first
      drops its oldest (leftmost) element; a deque of capacity zero stays
      empty. */
  function Appended<T>(buf: seq<T>, x: T, maxLen: nat): (r: seq<T>)
    requires |buf| <= maxLen
    ensures |r| <= maxLen
    ensures forall y :: y in r ==> y in buf || y == x
  {
    if |buf| < maxLen then buf + [x]
    else if maxLen == 0 then []
    else buf[1..] + [x]
  }

  /** The last `maxLen` elements of `s` (all of them when it is shorter). */
  function Newest<T>(s: seq<T>, maxLen: nat): (r: seq<T>)
    ensures |r| <= maxLen
    ensures forall y :: y in r ==> y in s
  {
    if |s| <= maxLen then s else s[|s| - maxLen..]
  }

  /** LIFO and eviction: after an append the newest element is the one a
      pop returns, and the rest is the old contents, less the oldest
      element when the deque was full. */
  lemma AppendedThenPopped<T>(buf: seq<T>, x: T, maxLen: nat)
    requires |buf| <= maxLen && maxLen > 0
    ensures var r := Appended(buf, x, maxLen);
      |r| == (if |buf| < maxLen then |buf| + 1 else maxLen) &&
      r[|r| - 1] == x &&
      r[..|r| - 1] == (if |buf| < maxLen then buf else buf[1..])
  {
  }

  /** Appending a list of elements one by one. */
  function AddAll<T>(buf: seq<T>, xs: seq<T>, maxLen: nat): (r: seq<T>)
    requires |buf| <= maxLen
    ensures |r| <= maxLen
    ensures forall y :: y in r ==> y in buf || y in xs
    decreases |xs|
  {
    if xs == [] then buf else AddAll(Appended(buf, xs[0], maxLen), xs[1..], maxLen)
  }

  /** A bounded deque keeps exactly the newest `maxLen` elements of all
      that were appended, in order of insertion. */
  lemma {:induction false} AddAllKeepsNewest<T>(buf: seq<T>, xs: seq<T>, maxLen: nat)
    requires |buf| <= maxLen
    ensures AddAll(buf, xs, maxLen) == Newest(buf + xs, maxLen)
    decreases |xs|
  {
    if xs == [] {
      assert buf + xs == buf;
    } else {
      var b1 := Appended(buf, xs[0], maxLen);
      AddAllKeepsNewest(b1, xs[1..], maxLen);
      assert b1 == Newest(buf + [xs[0]], maxLen);
      NewestOfNewest(buf + [xs[0]], xs[1..], maxLen);
      assert buf + [xs[0]] + xs[1..] == buf + xs;
    }
  }

  lemma NewestOfNewest<T>(s: seq<T>, t: seq<T>, maxLen: nat)
    ensures Newest(Newest(s, maxLen) + t, maxLen) == Newest(s + t, maxLen)
  {
    if |s| > maxLen {
      var s' := s[|s| - maxLen..];
      if |s' + t| > maxLen {
        assert (s' + t)[|s' + t| - maxLen..] == (s + t)[|s + t| - maxLen..];
      } else {
        assert s' + t == (s + t)[|s + t| - maxLen..];
      }
    }
  }

  /** Appending to a deque that holds the newest elements of `s` leaves
      it holding the newest elements of `s` followed by the new one. */
  lemma NewestSnoc<T>(s: seq<T>, x: T, maxLen: nat)
    ensures Appended(Newest(s, maxLen), x, maxLen) == Newest(s + [x], maxLen)
  {
    if maxLen > 0 && |s| >= maxLen {
      var n := Newest(s, maxLen);
      assert n[1..] + [x] == (s + [x])[|s + [x]| - maxLen..];
    }
  }

  /** Below capacity nothing is evicted: the deque holds every element
      appended, oldest first. */
  lemma AddAllBelowCapacity<T>(buf: seq<T>, xs: seq<T>, maxLen: nat)
    requires |buf| + |xs| <= maxLen
    ensures AddAll(buf, xs, maxLen) == buf + xs
  {
    AddAllKeepsNewest(buf, xs, maxLen);
  }

  /** The order in which popping from the right drains a deque. */
  function Reversed<T>(s: seq<T>): (r: seq<T>)
    ensures |r| == |s|
  {
    if s == [] then [] else Reversed(s[1..]) + [s[0]]
  }

  /** Three transitions added to an empty memory of capacity at least three
      are drained newest first. */
  lemma DrainIsLifo<T>(t1: T, t2: T, t3: T, maxLen: nat)
    requires maxLen >= 3
    ensures Reversed(AddAll([], [t1, t2, t3], maxLen)) == [t3, t2, t1]
  {
    AddAllBelowCapacity([], [t1, t2, t3], maxLen);
    assert [] + [t1, t2, t3] == [t1, t2, t3];
    assert [t1, t2, t3][1..] == [t2, t3] && [t2, t3][1..] == [t3] && [t3][1..] == [];
    assert Reversed([t3]) == [t3];
    assert Reversed([t2, t3]) == [t3, t2];
  }

  class Memory {
    /** The `maxlen` of the deque. */
    const maxSize: nat
    /** The deque, oldest transition first. */
    var buffer: seq<Transition>

    ghost predicate Valid()
      reads this
    {
      |buffer| <= maxSize
    }

    constructor (maxSize: nat)
      ensures Valid() && this.maxSize == maxSize && buffer == []
    {
      this.maxSize := maxSize;
      buffer := [];
    }

    /** `add`: append, evicting the oldest transition when full. */
    method Add(experience: Transition)
      requires Valid()
      modifies this
      ensures Valid() && buffer == Appended(old(buffer), experience, maxSize)
    {
      if |buffer| == maxSize {
        if maxSize == 0 {
          return;
        }
        buffer := buffer[1..];
      }
      buffer := buffer + [experience];
    }

    /** `sample`: pop and return the most recent transition. */
    method Sample() returns (experience: Transition)
      requires Valid() && buffer != []
      modifies this
      ensures Valid()
      ensures experience == old(buffer)[|old(buffer)| - 1]
      ensures buffer == old(buffer)[..|old(buffer)| - 1]
    {
      experience := buffer[|buffer| - 1];
      buffer := buffer[..|buffer| - 1];
    }

    /** `len`: never more than the capacity. */
    function Len(): (n: nat)
      reads this
      requires Valid()
      ensures n <= maxSize && n == |buffer|
    {
      |buffer|
    }
  }
}
