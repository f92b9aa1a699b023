/**
 * The array combinators the store is written with (`map`, `filter`), as
 * recursive functions on sequences, with the properties that say what they
 * compute: `Map` is pointwise, `Filter` keeps exactly the wanted elements
 * in their original order.
 */
module Seqs {

  /** Array.prototype.map with a callback that ignores the index. */
  function Map<A, B>(s: seq<A>, f: A -> B): (r: seq<B>)
    ensures |r| == |s|
    ensures forall i :: 0 <= i < |s| ==> r[i] == f(s[i])
  {
    if s == [] then [] else [f(s[0])] + Map(s[1..], f)
  }

  /** `a` is `b` with some elements (possibly none) left out, order kept. */
  predicate IsSubsequence<A(==)>(a: seq<A>, b: seq<A>)
    decreases |b|
  {
    if a == [] then true
    else if b == [] then false
    else if a[0] == b[0] then IsSubsequence(a[1..], b[1..])
    else IsSubsequence(a, b[1..])
  }

  /** Array.prototype.filter with a callback that ignores the index. */
  function Filter<A(==)>(s: seq<A>, keep: A -> bool): (r: seq<A>)
    ensures forall x :: x in r ==> x in s && keep(x)
    ensures forall x :: x in s ==> multiset(r)[x] == if keep(x) then multiset(s)[x] else 0
    ensures IsSubsequence(r, s)
  {
    if s == [] then []
    else
      var rest := Filter(s[1..], keep);
      assert s == [s[0]] + s[1..];
      if keep(s[0]) then [s[0]] + rest else rest
  }

  /** Filtering keeps everything exactly when every element is wanted. */
  lemma {:induction false} FilterLength<A>(s: seq<A>, keep: A -> bool)
    ensures |Filter(s, keep)| <= |s|
    ensures |Filter(s, keep)| == |s| <==> forall i :: 0 <= i < |s| ==> keep(s[i])
  {
    if s != [] {
      FilterLength(s[1..], keep);
      if !keep(s[0]) {
        assert |Filter(s, keep)| < |s|;
      } else {
        forall i | 0 < i < |s| ensures s[i] == s[1..][i - 1] {}
      }
    }
  }

  /** A filter that wants every element returns its input unchanged. */
  lemma {:induction false} FilterAll<A>(s: seq<A>, keep: A -> bool)
    requires forall i :: 0 <= i < |s| ==> keep(s[i])
    ensures Filter(s, keep) == s
  {
    if s != [] {
      FilterAll(s[1..], keep);
      assert s == [s[0]] + s[1..];
    }
  }

  /** The first element a filter keeps is the first wanted element of the input. */
  lemma {:induction false} FilterHead<A>(s: seq<A>, keep: A -> bool)
    ensures Filter(s, keep) == [] <==> forall i :: 0 <= i < |s| ==> !keep(s[i])
    ensures Filter(s, keep) != [] ==>
      exists k :: 0 <= k < |s| && s[k] == Filter(s, keep)[0] && keep(s[k])
                  && forall j :: 0 <= j < k ==> !keep(s[j])
  {
    if s == [] {
    } else if keep(s[0]) {
      assert Filter(s, keep) == [s[0]] + Filter(s[1..], keep);
      assert s[0] == Filter(s, keep)[0];
    } else {
      var rest := s[1..];
      FilterHead(rest, keep);
      assert Filter(s, keep) == Filter(rest, keep);
      if Filter(rest, keep) != [] {
        var k :| 0 <= k < |rest| && rest[k] == Filter(rest, keep)[0] && keep(rest[k])
                 && forall j :: 0 <= j < k ==> !keep(rest[j]);
        assert s[k + 1] == rest[k];
        forall j | 0 <= j < k + 1 ensures !keep(s[j]) {
          if j > 0 { assert s[j] == rest[j - 1]; }
        }
      } else {
        forall i | 0 <= i < |s| ensures !keep(s[i]) {
          if i > 0 { assert s[i] == rest[i - 1]; }
        }
      }
    }
  }

  /** No value occurs twice. */
  predicate Distinct<A(==)>(s: seq<A>) {
    forall i, j :: 0 <= i < j < |s| ==> s[i] != s[j]
  }

  lemma {:induction false} SubsequenceMembers<A>(a: seq<A>, b: seq<A>)
    requires IsSubsequence(a, b)
    ensures forall x :: x in a ==> x in b
    ensures |a| <= |b|
    decreases |b|
  {
    if a != [] {
      if a[0] == b[0] {
        SubsequenceMembers(a[1..], b[1..]);
        assert a == [a[0]] + a[1..];
        assert b == [b[0]] + b[1..];
      } else {
        SubsequenceMembers(a, b[1..]);
      }
    }
  }

  /** Leaving elements out of a duplicate-free sequence cannot create a duplicate. */
  lemma {:induction false} SubsequenceDistinct<A>(a: seq<A>, b: seq<A>)
    requires IsSubsequence(a, b) && Distinct(b)
    ensures Distinct(a)
    decreases |b|
  {
    if a != [] {
      assert Distinct(b[1..]) by {
        forall i, j | 0 <= i < j < |b[1..]| ensures b[1..][i] != b[1..][j] {
          assert b[1..][i] == b[i + 1] && b[1..][j] == b[j + 1];
        }
      }
      if a[0] == b[0] {
        SubsequenceDistinct(a[1..], b[1..]);
        SubsequenceMembers(a[1..], b[1..]);
        forall j | 0 < j < |a| ensures a[0] != a[j] {
          assert a[j] == a[1..][j - 1];
          assert a[j] in b[1..];
          var k :| 0 <= k < |b[1..]| && b[1..][k] == a[j];
          assert b[k + 1] == a[j];
        }
      } else {
        SubsequenceDistinct(a, b[1..]);
      }
    }
  }

  /** Concatenation is duplicate-free iff both parts are and they share nothing. */
  lemma DistinctConcat<A>(a: seq<A>, b: seq<A>)
    ensures Distinct(a + b) <==> Distinct(a) && Distinct(b) && forall x :: x in a ==> x !in b
  {
    if Distinct(a + b) {
      forall i, j | 0 <= i < j < |a| ensures a[i] != a[j] {
        assert (a + b)[i] == a[i] && (a + b)[j] == a[j];
      }
      forall i, j | 0 <= i < j < |b| ensures b[i] != b[j] {
        assert (a + b)[|a| + i] == b[i] && (a + b)[|a| + j] == b[j];
      }
      forall i, j | 0 <= i < |a| && 0 <= j < |b| ensures a[i] != b[j] {
        assert (a + b)[i] == a[i] && (a + b)[|a| + j] == b[j];
      }
    }
    if Distinct(a) && Distinct(b) && forall x :: x in a ==> x !in b {
      forall i, j | 0 <= i < j < |a + b| ensures (a + b)[i] != (a + b)[j] {
        if j < |a| {
        } else if i >= |a| {
          assert (a + b)[i] == b[i - |a|] && (a + b)[j] == b[j - |a|];
        } else {
          assert (a + b)[i] == a[i] && (a + b)[j] == b[j - |a|];
          assert a[i] in a && b[j - |a|] in b;
        }
      }
    }
  }
}
