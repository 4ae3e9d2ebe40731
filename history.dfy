/**
  The bounded per-target histories: `collections.deque(maxlen=900)`. Appending
  to a full deque drops its oldest entry.
 */
module History {

  /** `max_points`: the capacity of every per-target series. */
  const MaxPoints: nat := 900

  /** The last `n` elements of `s` (all of `s` when it is shorter). */
  function LastN<T>(s: seq<T>, n: nat): (r: seq<T>)
    ensures |r| == if |s| <= n then |s| else n
    ensures forall i :: 0 <= i < |r| ==> r[i] == s[|s| - |r| + i]
  {
    if |s| <= n then s else s[|s| - n..]
  }

  /** `q.append(x)` on a deque holding at most `cap` elements. */
  function Push<T>(q: seq<T>, x: T, cap: nat): (r: seq<T>)
    requires 1 <= cap && |q| <= cap
    ensures |r| <= cap
    ensures |r| == if |q| < cap then |q| + 1 else cap
    ensures r[|r| - 1] == x
    ensures |q| < cap ==> r[..|r| - 1] == q
    ensures |q| == cap ==> r[..|r| - 1] == q[1..]
  {
    if |q| < cap then q + [x] else q[1..] + [x]
  }

  /** Appending `xs` one by one, in order. */
  function PushAll<T>(q: seq<T>, xs: seq<T>, cap: nat): (r: seq<T>)
    requires 1 <= cap && |q| <= cap
    ensures |r| <= cap
    decreases |xs|
  {
    if xs == [] then q else PushAll(Push(q, xs[0], cap), xs[1..], cap)
  }

  /** One append keeps the last `cap` elements of everything appended so far. */
  lemma PushLastN<T>(s: seq<T>, x: T, cap: nat)
    requires 1 <= cap
    ensures Push(LastN(s, cap), x, cap) == LastN(s + [x], cap)
  {
    var q := LastN(s, cap);
    var r := Push(q, x, cap);
    var t := LastN(s + [x], cap);
    assert |r| == |t|;
    forall i | 0 <= i < |r|
      ensures r[i] == t[i]
    {
      if i < |r| - 1 {
        if |q| < cap {
          assert r[i] == q[i];
        } else {
          assert r[i] == q[1..][i];
        }
      }
    }
  }

  /**
    A deque filled from `LastN(s, cap)` with `xs` holds exactly the last `cap`
    elements of `s + xs`, in their order: once more than `cap` elements have
    been appended, the oldest ones are gone and nothing else is.
   */
  lemma {:induction false} PushAllLastN<T>(s: seq<T>, xs: seq<T>, cap: nat)
    requires 1 <= cap
    ensures PushAll(LastN(s, cap), xs, cap) == LastN(s + xs, cap)
    decreases |xs|
  {
    if xs != [] {
      var s1 := s + [xs[0]];
      assert s1 + xs[1..] == s + xs;
      PushLastN(s, xs[0], cap);
      assert PushAll(LastN(s, cap), xs, cap) == PushAll(LastN(s1, cap), xs[1..], cap);
      PushAllLastN(s1, xs[1..], cap);
    } else {
      assert s + xs == s;
    }
  }

  /** From an empty deque: after `|xs| >= cap` appends exactly the last `cap` remain. */
  lemma FillFromEmpty<T>(xs: seq<T>, cap: nat)
    requires 1 <= cap
    ensures PushAll([], xs, cap) == LastN(xs, cap)
    ensures |xs| >= cap ==> PushAll([], xs, cap) == xs[|xs| - cap..]
  {
    PushAllLastN([], xs, cap);
    assert [] + xs == xs;
  }
}
