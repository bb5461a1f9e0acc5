/** Boolean-mask selection over a sequence, the operation a DataFrame performs
    for `data[mask]`: the rows for which the mask holds, in their existing
    order. */
module Sequences {

  /** The elements of `s` satisfying `p`, in the order they appear in `s`. */
  function Filter<T>(s: seq<T>, p: T -> bool): (r: seq<T>)
    ensures |r| <= |s|
    ensures forall k :: 0 <= k < |r| ==> p(r[k])
  {
    if s == [] then []
    else
      var rest := Filter(s[..|s| - 1], p);
      if p(s[|s| - 1]) then rest + [s[|s| - 1]] else rest
  }

  /** The positions of `s` at which `p` holds, in increasing order. */
  function Positions<T>(s: seq<T>, p: T -> bool): (ix: seq<nat>)
    ensures forall k :: 0 <= k < |ix| ==> ix[k] < |s| && p(s[ix[k]])
    ensures forall k, l :: 0 <= k < l < |ix| ==> ix[k] < ix[l]
    ensures forall i :: 0 <= i < |s| && p(s[i]) ==> i in ix
  {
    if s == [] then []
    else
      var rest := Positions(s[..|s| - 1], p);
      if p(s[|s| - 1]) then rest + [|s| - 1] else rest
  }

  /** Filter keeps exactly the elements at `Positions`: the k-th kept element
      is the element at the k-th position where the mask holds, so nothing is
      reordered, duplicated or dropped beyond the mask. */
  lemma {:induction false} FilterIsSelection<T>(s: seq<T>, p: T -> bool)
    ensures |Filter(s, p)| == |Positions(s, p)|
    ensures forall k :: 0 <= k < |Filter(s, p)| ==> Filter(s, p)[k] == s[Positions(s, p)[k]]
  {
    if s != [] {
      var init, last := s[..|s| - 1], s[|s| - 1];
      FilterIsSelection(init, p);
      var r0, ix0 := Filter(init, p), Positions(init, p);
      if p(last) {
        assert Filter(s, p) == r0 + [last];
        assert Positions(s, p) == ix0 + [|s| - 1];
        forall k | 0 <= k < |r0| + 1
          ensures (r0 + [last])[k] == s[(ix0 + [|s| - 1])[k]]
        {
          if k < |r0| {
            assert init[ix0[k]] == s[ix0[k]];
          }
        }
      } else {
        assert Filter(s, p) == r0;
        assert Positions(s, p) == ix0;
        forall k | 0 <= k < |r0|
          ensures r0[k] == s[ix0[k]]
        {
          assert init[ix0[k]] == s[ix0[k]];
        }
      }
    }
  }

  /** Every kept element is an element of `s`, and every element of `s`
      satisfying `p` is kept. */
  lemma FilterMembers<T>(s: seq<T>, p: T -> bool)
    ensures forall k :: 0 <= k < |Filter(s, p)| ==> Filter(s, p)[k] in s
    ensures forall i :: 0 <= i < |s| && p(s[i]) ==> s[i] in Filter(s, p)
  {
    FilterIsSelection(s, p);
    var r, ix := Filter(s, p), Positions(s, p);
    forall i | 0 <= i < |s| && p(s[i])
      ensures s[i] in r
    {
      var k :| 0 <= k < |ix| && ix[k] == i;
      assert r[k] == s[i];
    }
  }

  /** The last element a mask keeps sits at a position after which the mask
      holds nowhere. */
  lemma {:induction false} LastSelected<T>(s: seq<T>, p: T -> bool) returns (j: nat)
    requires Filter(s, p) != []
    ensures j < |s| && s[j] == Filter(s, p)[|Filter(s, p)| - 1] && p(s[j])
    ensures forall k :: j < k < |s| ==> !p(s[k])
  {
    var init := s[..|s| - 1];
    if p(s[|s| - 1]) {
      j := |s| - 1;
    } else {
      assert Filter(s, p) == Filter(init, p);
      j := LastSelected(init, p);
      assert s[j] == init[j];
    }
  }

  /** Masking commutes with reordering: how often a value is kept depends
      only on how often it occurs, so filtering a permutation of `s` gives a
      permutation of the filtered `s`. */
  lemma {:induction false} FilterMultiset<T>(s: seq<T>, p: T -> bool, x: T)
    ensures multiset(Filter(s, p))[x] == if p(x) then multiset(s)[x] else 0
  {
    if s != [] {
      var init := s[..|s| - 1];
      FilterMultiset(init, p, x);
      assert s == init + [s[|s| - 1]];
    }
  }

  lemma FilterOfPermutation<T>(a: seq<T>, b: seq<T>, p: T -> bool)
    requires multiset(a) == multiset(b)
    ensures multiset(Filter(a, p)) == multiset(Filter(b, p))
  {
    FilterMembers(a, p);
    FilterMembers(b, p);
    var fa, fb := multiset(Filter(a, p)), multiset(Filter(b, p));
    forall x ensures fa[x] == fb[x] {
      FilterMultiset(a, p, x);
      FilterMultiset(b, p, x);
    }
  }

}
