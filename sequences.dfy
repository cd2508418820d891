/** The list operations the game performs on its arrays of missiles:
    `indexOf` by identity, `splice(i, 1)`, and what those keep of a list. */
module Sequences {

  /** Positions `i` and `j` of `s` hold different elements. */
  predicate Differ<T(==)>(s: seq<T>, i: nat, j: nat)
    requires i < |s| && j < |s|
  {
    s[i] != s[j]
  }

  /** No element occurs twice. */
  predicate Distinct<T(==)>(s: seq<T>)
  {
    forall i, j :: 0 <= i < j < |s| ==> Differ(s, i, j)
  }

  /** Two positions of a list without duplicates hold different elements. */
  lemma DistinctAt<T>(s: seq<T>, i: nat, j: nat)
    requires Distinct(s) && i < |s| && j < |s| && i != j
    ensures s[i] != s[j]
  {
    if i < j {
      assert Differ(s, i, j);
    } else {
      assert Differ(s, j, i);
    }
  }

  /** In a list without duplicates no element occurs before its position. */
  lemma DistinctNotBefore<T>(s: seq<T>, k: nat)
    requires Distinct(s) && k < |s|
    ensures s[k] !in s[..k]
  {
    forall i | 0 <= i < k
      ensures s[..k][i] != s[k]
    {
      assert Differ(s, i, k);
    }
  }

  /** Appending an element not yet in a list without duplicates keeps it
      without duplicates. */
  lemma DistinctAppend<T>(s: seq<T>, x: T)
    requires Distinct(s) && x !in s
    ensures Distinct(s + [x])
  {
    var r := s + [x];
    forall i, j | 0 <= i < j < |r|
      ensures Differ(r, i, j)
    {
      if j < |s| {
        assert Differ(s, i, j);
      } else {
        assert r[i] == s[i];
      }
    }
  }

  /** `Array.prototype.indexOf`: the first position of `x`, or -1. */
  function IndexOf<T(==)>(s: seq<T>, x: T): (k: int)
    ensures -1 <= k < |s|
    ensures k == -1 <==> x !in s
    ensures 0 <= k ==> s[k] == x && x !in s[..k]
  {
    if |s| == 0 then -1
    else if s[0] == x then 0
    else
      var k := IndexOf(s[1..], x);
      if k == -1 then -1
      else
        assert s[..k + 1] == [s[0]] + s[1..][..k];
        k + 1
  }

  /** `splice(k, 1)`: the list without its element at position `k`. */
  function Delete<T>(s: seq<T>, k: nat): (r: seq<T>)
    requires k < |s|
    ensures |r| == |s| - 1
  {
    s[..k] + s[k + 1..]
  }

  /** `splice(k, 1)` shifts every later element down by one place and
      takes out exactly one copy of the element at `k`. */
  lemma DeleteAt<T>(s: seq<T>, k: nat)
    requires k < |s|
    ensures forall i :: 0 <= i < |s| - 1 ==> Delete(s, k)[i] == if i < k then s[i] else s[i + 1]
    ensures multiset(Delete(s, k)) + multiset{s[k]} == multiset(s)
  {
    assert s == s[..k] + [s[k]] + s[k + 1..];
    assert Delete(s, k) == s[..k] + s[k + 1..];
  }

  /** Deleting an element of a list without duplicates leaves a list
      without duplicates that no longer holds that element. */
  lemma DistinctDelete<T>(s: seq<T>, k: nat)
    requires Distinct(s) && k < |s|
    ensures Distinct(Delete(s, k)) && s[k] !in Delete(s, k)
  {
    var r := Delete(s, k);
    forall i, j | 0 <= i < j < |r|
      ensures Differ(r, i, j)
    {
      var i', j' := if i < k then i else i + 1, if j < k then j else j + 1;
      assert r[i] == s[i'] && r[j] == s[j'];
      assert Differ(s, i', j');
    }
    forall i | 0 <= i < |r|
      ensures r[i] != s[k]
    {
      var i' := if i < k then i else i + 1;
      assert r[i] == s[i'];
      DistinctAt(s, i', k);
    }
  }

  /** A prefix of a list without duplicates has none either. */
  lemma DistinctPrefix<T>(s: seq<T>, n: nat)
    requires Distinct(s) && n <= |s|
    ensures Distinct(s[..n])
  {
    forall i, j | 0 <= i < j < n
      ensures Differ(s[..n], i, j)
    {
      assert Differ(s, i, j);
    }
  }

  /** `const i = s.indexOf(x); if (i !== -1) s.splice(i, 1);`: the list
      without the first occurrence of `x`, the rest in their order. */
  function RemoveFirst<T(==)>(s: seq<T>, x: T): (r: seq<T>)
    ensures x !in s ==> r == s
    ensures x in s ==> exists k :: 0 <= k < |s| && s[k] == x && x !in s[..k] && r == s[..k] + s[k + 1..]
    ensures x in s ==> |r| == |s| - 1 && multiset(r) + multiset{x} == multiset(s)
    ensures Distinct(s) ==> Distinct(r) && x !in r
  {
    var k := IndexOf(s, x);
    if k == -1 then s
    else
      assert s == s[..k] + [s[k]] + s[k + 1..];
      assert Distinct(s) ==> Distinct(Delete(s, k)) && x !in Delete(s, k) by {
        if Distinct(s) {
          DistinctDelete(s, k);
        }
      }
      Delete(s, k)
  }

  /** `a` is `b` with some elements left out, the others in their order. */
  predicate Subsequence<T(==)>(a: seq<T>, b: seq<T>)
    decreases |b|
  {
    if b == [] then a == []
    else
      (a != [] && a[|a| - 1] == b[|b| - 1] && Subsequence(a[..|a| - 1], b[..|b| - 1]))
      || Subsequence(a, b[..|b| - 1])
  }

  lemma {:induction false} SubsequenceRefl<T>(s: seq<T>)
    ensures Subsequence(s, s)
    decreases |s|
  {
    if s != [] {
      SubsequenceRefl(s[..|s| - 1]);
    }
  }

  lemma {:induction false} SubsequenceTrans<T>(a: seq<T>, b: seq<T>, c: seq<T>)
    requires Subsequence(a, b) && Subsequence(b, c)
    ensures Subsequence(a, c)
    decreases |c|
  {
    if c == [] {
    } else if Subsequence(b, c[..|c| - 1]) {
      SubsequenceTrans(a, b, c[..|c| - 1]);
    } else if a != [] && a[|a| - 1] == b[|b| - 1] && Subsequence(a[..|a| - 1], b[..|b| - 1]) {
      SubsequenceTrans(a[..|a| - 1], b[..|b| - 1], c[..|c| - 1]);
    } else {
      SubsequenceTrans(a, b[..|b| - 1], c[..|c| - 1]);
    }
  }

  /** Every element of a subsequence comes from the longer list. */
  lemma {:induction false} SubsequenceMembers<T>(a: seq<T>, b: seq<T>)
    requires Subsequence(a, b)
    ensures forall x :: x in a ==> x in b
    decreases |b|
  {
    if b != [] {
      if a != [] && a[|a| - 1] == b[|b| - 1] && Subsequence(a[..|a| - 1], b[..|b| - 1]) {
        SubsequenceMembers(a[..|a| - 1], b[..|b| - 1]);
        assert a == a[..|a| - 1] + [a[|a| - 1]];
      } else {
        SubsequenceMembers(a, b[..|b| - 1]);
      }
      assert b == b[..|b| - 1] + [b[|b| - 1]];
    }
  }

  /** A subsequence of a list without duplicates has none either. */
  lemma {:induction false} SubsequenceDistinct<T>(a: seq<T>, b: seq<T>)
    requires Subsequence(a, b) && Distinct(b)
    ensures Distinct(a)
    decreases |b|
  {
    if b != [] {
      var b' := b[..|b| - 1];
      DistinctPrefix(b, |b| - 1);
      if a != [] && a[|a| - 1] == b[|b| - 1] && Subsequence(a[..|a| - 1], b') {
        var a' := a[..|a| - 1];
        SubsequenceDistinct(a', b');
        SubsequenceMembers(a', b');
        DistinctNotBefore(b, |b| - 1);
        DistinctAppend(a', a[|a| - 1]);
        assert a == a' + [a[|a| - 1]];
      } else {
        SubsequenceDistinct(a, b');
      }
    }
  }

  /** Deleting one element leaves a subsequence. */
  lemma {:induction false} DeleteIsSubsequence<T>(s: seq<T>, k: nat)
    requires k < |s|
    ensures Subsequence(Delete(s, k), s)
    decreases |s|
  {
    var r := Delete(s, k);
    if k == |s| - 1 {
      assert r == s[..|s| - 1];
      SubsequenceRefl(r);
    } else {
      var s' := s[..|s| - 1];
      DeleteIsSubsequence(s', k);
      assert r[..|r| - 1] == Delete(s', k);
    }
  }

  /** When `x` occurs once, removing its first occurrence removes exactly
      the element at that position. */
  lemma RemoveFirstAt<T>(s: seq<T>, k: nat)
    requires k < |s| && s[k] !in s[..k]
    ensures RemoveFirst(s, s[k]) == Delete(s, k)
  {
  }

  /** Splicing out the first element of the second half of a
      concatenation. */
  lemma SpliceJoin<T>(a: seq<T>, b: seq<T>)
    requires |b| > 0
    ensures (a + b)[|a|] == b[0]
    ensures (a + b)[..|a|] == a
    ensures (a + b)[..|a|] + (a + b)[|a| + 1..] == a + b[1..]
    ensures a + b == (a + [b[0]]) + b[1..]
  {
    assert b == [b[0]] + b[1..];
  }
}
