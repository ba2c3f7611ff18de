/** The relay client's bounded conversation history: append at the back, then
    drop from the front while it is longer than the cap. */
module History {

  /** Most entries the relay keeps as context for the next completion request. */
  const MAX_CONVERSATION_HISTORY: nat := 10

  /** `a` is what is left of `b` after dropping some of its first elements. */
  predicate IsSuffix<T(==)>(a: seq<T>, b: seq<T>) {
    |a| <= |b| && a == b[|b| - |a|..]
  }

  /** The newest `cap` elements of `s`, oldest first: the result of popping
      from the front of `s` while it is longer than `cap`. */
  function Bounded<T(==)>(s: seq<T>, cap: nat): (r: seq<T>)
    ensures |r| == if |s| <= cap then |s| else cap
    ensures IsSuffix(r, s)
  {
    if |s| <= cap then s else s[|s| - cap..]
  }

  lemma {:induction false} SuffixTransitive<T>(a: seq<T>, b: seq<T>, c: seq<T>)
    requires IsSuffix(a, b) && IsSuffix(b, c)
    ensures IsSuffix(a, c)
  {
    var d := |c| - |b|;
    assert b == c[d..];
    assert a == b[|b| - |a|..];
    assert b[|b| - |a|..] == c[d + |b| - |a|..];
  }

  lemma {:induction false} SuffixAppend<T>(a: seq<T>, b: seq<T>, x: T)
    requires IsSuffix(a, b)
    ensures IsSuffix(a + [x], b + [x])
  {
    assert (b + [x])[|b| - |a|..] == b[|b| - |a|..] + [x];
  }

  /** Appending and then trimming keeps the appended element last and keeps
      the others in their order; only the oldest are dropped. */
  lemma {:induction false} BoundedAppend<T>(s: seq<T>, x: T, cap: nat)
    requires cap > 0
    ensures var r := Bounded(s + [x], cap);
            && |r| > 0 && r[|r| - 1] == x
            && IsSuffix(r[..|r| - 1], s)
            && (|s| < cap ==> r == s + [x])
  {
    var t := s + [x];
    var r := Bounded(t, cap);
    assert r == t[|t| - |r|..];
    assert r[|r| - 1] == t[|t| - 1] == x;
    assert r[..|r| - 1] == s[|s| - (|r| - 1)..];
  }

  /** Two appends, each followed by a trim, as one event with a reply does:
      the second entry is last, the survivors are the newest of the old
      entries with both appended, and exactly the smaller of the grown length
      and the cap survive. */
  lemma {:induction false} BoundedAppendTwice<T>(s: seq<T>, x: T, y: T, cap: nat)
    requires cap > 0
    ensures var r := Bounded(Bounded(s + [x], cap) + [y], cap);
            && |r| > 0 && r[|r| - 1] == y
            && IsSuffix(r, s + [x, y])
            && |r| == if |s| + 2 < cap then |s| + 2 else cap
  {
    var t := Bounded(s + [x], cap);
    var r := Bounded(t + [y], cap);
    BoundedAppend(t, y, cap);
    SuffixAppend(t, s + [x], y);
    SuffixTransitive(r, t + [y], s + [x] + [y]);
    assert s + [x] + [y] == s + [x, y];
  }

  /** Trimming never invents entries: every kept entry was in the input. */
  lemma BoundedElements<T>(s: seq<T>, cap: nat)
    ensures forall k :: 0 <= k < |Bounded(s, cap)| ==> Bounded(s, cap)[k] in s
  {
    var r := Bounded(s, cap);
    forall k | 0 <= k < |r| ensures r[k] in s {
      assert r[k] == s[|s| - |r| + k];
    }
  }
}
