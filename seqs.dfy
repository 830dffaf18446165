/** Sequence helpers: reversal (the backwards log reader) and flattening
    (`flat_map` over split pieces). */
module Seqs {

  function Reverse<T>(s: seq<T>): (r: seq<T>)
    ensures |r| == |s|
    ensures forall i :: 0 <= i < |s| ==> r[i] == s[|s| - 1 - i]
  {
    if s == [] then [] else Reverse(s[1..]) + [s[0]]
  }

  lemma {:induction false} ReverseAppend<T>(a: seq<T>, b: seq<T>)
    ensures Reverse(a + b) == Reverse(b) + Reverse(a)
  {
    assert forall i :: 0 <= i < |a + b| ==> Reverse(a + b)[i] == (Reverse(b) + Reverse(a))[i];
  }

  lemma {:induction false} ReverseReverse<T>(s: seq<T>)
    ensures Reverse(Reverse(s)) == s
  {
    forall i | 0 <= i < |s|
      ensures Reverse(Reverse(s))[i] == s[i]
    {
      assert Reverse(Reverse(s))[i] == Reverse(s)[|s| - 1 - i];
    }
  }

  /** Taking the first `m` elements of the reversed sequence and reversing them
      back gives the last `m` elements of the original. */
  lemma {:induction false} ReversePrefix<T>(s: seq<T>, m: nat)
    requires m <= |s|
    ensures Reverse(Reverse(s)[..m]) == s[|s| - m..]
  {
    var r := Reverse(s)[..m];
    var t := s[|s| - m..];
    forall i | 0 <= i < m
      ensures Reverse(r)[i] == t[i]
    {
      assert Reverse(r)[i] == r[m - 1 - i] == Reverse(s)[m - 1 - i];
    }
  }

  /** Reversing a sequence and reversing one of its suffixes agree on the
      first elements, as many as the suffix has. */
  lemma {:induction false} ReverseSuffixPrefix<T>(s: seq<T>, t: seq<T>, n: nat)
    requires |t| <= |s| && s[|s| - |t|..] == t && n <= |t|
    ensures Reverse(s)[..n] == Reverse(t)[..n]
  {
    forall i | 0 <= i < n
      ensures Reverse(s)[i] == Reverse(t)[i]
    {
      assert s[|s| - 1 - i] == s[|s| - |t|..][|t| - 1 - i];
    }
  }

  /** A suffix of `m` is a suffix of anything ending in `m`. */
  lemma {:induction false} SuffixAppend<T>(p: seq<T>, m: seq<T>, t: seq<T>)
    requires |t| <= |m| && m[|m| - |t|..] == t
    ensures (p + m)[|p + m| - |t|..] == t
  {
    assert (p + m)[|p + m| - |t|..] == m[|m| - |t|..];
  }

  function Flatten<T>(ss: seq<seq<T>>): (r: seq<T>)
  {
    if ss == [] then [] else ss[0] + Flatten(ss[1..])
  }

  /** `t` is a suffix of `s`. */
  ghost predicate IsSuffix<T>(t: seq<T>, s: seq<T>)
  {
    |t| <= |s| && s[|s| - |t|..] == t
  }

  /** Dropping the first `m` blocks leaves a suffix of the flattening. */
  lemma {:induction false} FlattenSuffix<T>(ss: seq<seq<T>>, m: nat)
    requires m <= |ss|
    ensures IsSuffix(Flatten(ss[m..]), Flatten(ss))
    decreases m
  {
    if m > 0 {
      FlattenSuffix(ss[1..], m - 1);
      assert ss[1..][m - 1..] == ss[m..];
      SuffixAppend(ss[0], Flatten(ss[1..]), Flatten(ss[m..]));
    }
  }

  /** The flattening from block `j` on is block `j` followed by the rest. */
  lemma {:induction false} FlattenFrom<T>(ss: seq<seq<T>>, j: nat)
    requires j < |ss|
    ensures Flatten(ss[j..]) == ss[j] + Flatten(ss[j + 1..])
  {
    assert ss[j..][1..] == ss[j + 1..];
  }

  function Min(a: int, b: int): int
  {
    if a <= b then a else b
  }
}
