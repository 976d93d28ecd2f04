/** Facts about sequences without repeated elements. */
module Seqs {

  predicate Distinct<T(==)>(s: seq<T>)
  {
    forall i, j :: 0 <= i < j < |s| ==> s[i] != s[j]
  }

  /** Two repetition-free sequences with no common element concatenate to a repetition-free one. */
  lemma DistinctConcat<T>(a: seq<T>, b: seq<T>)
    requires Distinct(a) && Distinct(b)
    requires forall x :: x in a ==> x !in b
    ensures Distinct(a + b)
  {
    forall i, j | 0 <= i < j < |a + b|
      ensures (a + b)[i] != (a + b)[j]
    {
      if j < |a| {
        assert (a + b)[i] == a[i] && (a + b)[j] == a[j];
      } else if i >= |a| {
        assert (a + b)[i] == b[i - |a|] && (a + b)[j] == b[j - |a|];
      } else {
        assert (a + b)[i] == a[i] && (a + b)[j] == b[j - |a|];
        assert a[i] in a && b[j - |a|] in b;
      }
    }
  }


  /** Taking one element out of a repetition-free sequence leaves a
      repetition-free sequence of the other elements. */
  lemma RemoveAt<T>(s: seq<T>, j: int)
    requires Distinct(s) && 0 <= j < |s|
    ensures s == s[..j] + [s[j]] + s[j + 1..]
    ensures Distinct(s[..j] + s[j + 1..])
    ensures s[j] !in s[..j] + s[j + 1..]
    ensures forall y :: y in s <==> y in s[..j] + s[j + 1..] || y == s[j]
  {
    var rest := s[..j] + s[j + 1..];
    assert s == s[..j] + [s[j]] + s[j + 1..];
    forall i, i' | 0 <= i < i' < |rest|
      ensures rest[i] != rest[i']
    {
      var k := if i < j then i else i + 1;
      var k' := if i' < j then i' else i' + 1;
      assert rest[i] == s[k] && rest[i'] == s[k'];
    }
    forall i | 0 <= i < |rest|
      ensures rest[i] != s[j]
    {
      var k := if i < j then i else i + 1;
      assert rest[i] == s[k];
    }
  }

  /** The last element of a repetition-free sequence is not among the others. */
  lemma RemoveLast<T>(s: seq<T>)
    requires Distinct(s) && |s| > 0
    ensures Distinct(s[..|s| - 1])
    ensures s[|s| - 1] !in s[..|s| - 1]
    ensures forall y :: y in s <==> y in s[..|s| - 1] || y == s[|s| - 1]
  {
    RemoveAt(s, |s| - 1);
    assert s[|s|..] == [];
    assert s[..|s| - 1] + s[|s|..] == s[..|s| - 1];
  }

  /** Appending four pieces one after the other appends their concatenation. */
  lemma ConcatChain<T>(acc: seq<T>, a: seq<T>, b: seq<T>, c: seq<T>, d: seq<T>,
                       r1: seq<T>, r2: seq<T>, r3: seq<T>, r4: seq<T>)
    requires r1 == acc + a && r2 == r1 + b && r3 == r2 + c && r4 == r3 + d
    ensures r4 == acc + (a + b + c + d)
  {
  }

  /** An element of four concatenated pieces lies in one of them. */
  lemma InConcat4<T>(a: seq<T>, b: seq<T>, c: seq<T>, d: seq<T>, x: T)
    ensures x in a + b + c + d <==> x in a || x in b || x in c || x in d
  {
  }

  lemma Assoc3<T>(a: seq<T>, b: seq<T>, c: seq<T>)
    ensures a + (b + c) == (a + b) + c
  {
  }

  /** An element at a valid index is a member. */
  lemma ElementIn<T>(s: seq<T>, i: int)
    requires 0 <= i < |s|
    ensures s[i] in s
  {
  }

}
