/** Vocabulary shared by every module: optional values and sequence reversal. */
module Prelude {
  datatype Option<+T> = None | Some(value: T)

  function Min(a: int, b: int): int { if a <= b then a else b }

  function Max(a: int, b: int): int { if a >= b then a else b }

  /** Python's `reversed(s)`. */
  function Reverse<T>(s: seq<T>): (r: seq<T>)
    ensures |r| == |s|
  {
    seq(|s|, i requires 0 <= i < |s| => s[|s| - 1 - i])
  }

  lemma ReverseTwice<T>(s: seq<T>)
    ensures Reverse(Reverse(s)) == s
  {
  }

  lemma ReverseMultiset<T>(s: seq<T>)
    ensures multiset(Reverse(s)) == multiset(s)
  {
    if s == [] {
      assert Reverse(s) == s;
    } else {
      ReverseMultiset(s[1..]);
      assert Reverse(s) == Reverse(s[1..]) + [s[0]];
      assert s == [s[0]] + s[1..];
    }
  }

  /** A Python slice `s[lo:hi]` with non-negative bounds, which may run past the end. */
  function Slice<T>(s: seq<T>, lo: nat, hi: nat): seq<T>
    requires lo <= hi
  {
    s[Min(lo, |s|)..Min(hi, |s|)]
  }

  /** Fetching one row more than a page: the page itself, and what the extra row tells. */
  lemma SliceFetch<T>(q: seq<T>, s: nat, size: nat)
    ensures var fetched := Slice(q, s, s + size + 1);
      && Slice(fetched, 0, size) == Slice(q, s, s + size)
      && (|fetched| > |Slice(q, s, s + size)| <==> s + size < |q|)
      && (s + size < |q| ==> fetched[|fetched| - 1] == q[s + size])
  {
  }

  lemma MirrorSlice<T>(q: seq<T>, s: nat, size: nat)
    ensures Reverse(Slice(Reverse(q), s, s + size)) == Slice(q, Max(0, |q| - s - size), Max(0, |q| - s))
  {
  }
}
