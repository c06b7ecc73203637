/** Sequences without repetition, as the models use them for linked lists, and orders on elements. */
module Seqs {

  datatype Option<+T> = None | Some(value: T)

  /** The relation that a comparator computes. */
  ghost predicate TotalPreorder<T(!new)>(cmp: (T, T) -> bool) {
    && (forall a, b :: cmp(a, b) || cmp(b, a))
    && (forall a, b, c :: cmp(a, b) && cmp(b, c) ==> cmp(a, c))
  }

  ghost predicate Distinct<T>(s: seq<T>) {
    forall i, j :: 0 <= i < j < |s| ==> s[i] != s[j]
  }

  ghost function Elems<T>(s: seq<T>): set<T> {
    set x | x in s
  }

  /** The sequence without its (first) occurrence of x. */
  function Without<T(==)>(s: seq<T>, x: T): (r: seq<T>) {
    if s == [] then [] else if s[0] == x then s[1..] else [s[0]] + Without(s[1..], x)
  }

  lemma {:induction false} WithoutElems<T>(s: seq<T>, x: T)
    requires Distinct(s)
    ensures Distinct(Without(s, x)) && Elems(Without(s, x)) == Elems(s) - {x}
    ensures |Without(s, x)| == |s| - if x in s then 1 else 0
  {
    if s != [] {
      assert s == [s[0]] + s[1..];
      if s[0] != x {
        WithoutElems(s[1..], x);
        var r := Without(s[1..], x);
        assert forall y :: y in r ==> y in Elems(r);
        assert Elems(s) == {s[0]} + Elems(s[1..]);
        assert Elems([s[0]] + r) == {s[0]} + Elems(r);
      } else {
        assert Elems(s) == {s[0]} + Elems(s[1..]);
      }
    }
  }

  lemma DistinctConcat<T>(a: seq<T>, b: seq<T>)
    requires Distinct(a) && Distinct(b) && forall x :: x in a ==> x !in b
    ensures Distinct(a + b)
  {
    forall i, j | 0 <= i < j < |a + b|
      ensures (a + b)[i] != (a + b)[j]
    {
      assert i < |a| ==> (a + b)[i] in a;
      assert j >= |a| ==> (a + b)[j] in b;
    }
  }

  lemma FirstIn<T>(s: seq<T>)
    ensures s == [] || s[0] in s
  {
  }

  lemma {:induction false} DistinctCount<T>(s: seq<T>)
    requires Distinct(s)
    ensures |Elems(s)| == |s|
  {
    if s == [] {
      assert Elems(s) == {};
    } else {
      var n := |s| - 1;
      DistinctCount(s[..n]);
      assert s == s[..n] + [s[n]];
      assert Elems(s) == Elems(s[..n]) + {s[n]};
      assert s[n] !in Elems(s[..n]);
    }
  }

  lemma {:induction false} SubsetSize<T>(a: set<T>, b: set<T>)
    requires a <= b
    ensures |a| <= |b|
  {
    if a != {} {
      var x :| x in a;
      SubsetSize(a - {x}, b - {x});
    }
  }

  lemma PrefixStep<T>(s: seq<T>, i: nat)
    requires i < |s|
    ensures s[..i + 1][..|s[..i + 1]| - 1] == s[..i]
    ensures s[..i + 1][|s[..i + 1]| - 1] == s[i] && s[..i + 1] == s[..i] + [s[i]]
  {
  }
}
