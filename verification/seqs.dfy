/** Sequence combinators that mirror the JavaScript array methods the core
    uses (`filter`, `slice(0, n)`, `join`), together with the subsequence
    relation in which their results are stated. */
module Seqs {

  import opened Wrappers

  /** `a` can be obtained from `b` by deleting elements: the relation an
      order-preserving filter establishes. */
  predicate IsSubsequence<T(==)>(a: seq<T>, b: seq<T>)
    decreases |b|
  {
    |a| == 0 || (|b| > 0 && ((a[0] == b[0] && IsSubsequence(a[1..], b[1..])) || IsSubsequence(a, b[1..])))
  }

  /** The number of elements of `s` that satisfy `p`. */
  function Count<T>(p: T -> bool, s: seq<T>): nat
  {
    if |s| == 0 then 0 else (if p(s[0]) then 1 else 0) + Count(p, s[1..])
  }

  /** `Array.prototype.filter`: the elements satisfying `p`, in order. */
  function Filter<T(==)>(p: T -> bool, s: seq<T>): (r: seq<T>)
    ensures forall i :: 0 <= i < |r| ==> p(r[i])
    ensures forall x :: x in s && p(x) ==> x in r
    ensures IsSubsequence(r, s)
    ensures |r| == Count(p, s)
  {
    if |s| == 0 then []
    else if p(s[0]) then [s[0]] + Filter(p, s[1..])
    else Filter(p, s[1..])
  }

  /** `Array.prototype.slice(0, n)`: the first `n` elements, or all of them. */
  function Take<T>(s: seq<T>, n: nat): (r: seq<T>)
    ensures |r| == if |s| <= n then |s| else n
    ensures forall i :: 0 <= i < |r| ==> r[i] == s[i]
  {
    if |s| <= n then s else s[..n]
  }

  /** `Array.prototype.map(f)` where `f` may throw (`None`): the mapped
      sequence, or `None` as soon as one application fails. */
  function MapAll<A, B>(f: A -> Option<B>, s: seq<A>): (r: Option<seq<B>>)
    ensures r.Some? ==> |r.value| == |s| && forall i :: 0 <= i < |s| ==> f(s[i]) == Some(r.value[i])
    ensures r.None? <==> exists i :: 0 <= i < |s| && f(s[i]).None?
  {
    if |s| == 0 then Some([])
    else
      match f(s[0])
      case None => None
      case Some(first) =>
        match MapAll(f, s[1..])
        case None =>
          var i :| 0 <= i < |s[1..]| && f(s[1..][i]).None?;
          assert s[1..][i] == s[i + 1];
          None
        case Some(rest) =>
          assert forall i :: 0 < i < |s| ==> s[i] == s[1..][i - 1];
          Some([first] + rest)
  }

  /** `Array.prototype.join(sep)` over strings. */
  function Join(parts: seq<string>, sep: string): string
  {
    if |parts| == 0 then ""
    else if |parts| == 1 then parts[0]
    else parts[0] + sep + Join(parts[1..], sep)
  }

  lemma {:induction false} SubsequenceReflexive<T>(s: seq<T>)
    ensures IsSubsequence(s, s)
    decreases |s|
  {
    if |s| > 0 {
      SubsequenceReflexive(s[1..]);
    }
  }

  lemma {:induction false} PrefixIsSubsequence<T>(s: seq<T>, n: nat)
    requires n <= |s|
    ensures IsSubsequence(s[..n], s)
    decreases |s|
  {
    if n > 0 {
      assert s[..n][1..] == s[1..][..n - 1];
      PrefixIsSubsequence(s[1..], n - 1);
    }
  }

  lemma {:induction false} SubsequenceTransitive<T>(a: seq<T>, b: seq<T>, c: seq<T>)
    requires IsSubsequence(a, b) && IsSubsequence(b, c)
    ensures IsSubsequence(a, c)
    decreases |c|
  {
    if |a| == 0 {
    } else if a[0] == b[0] && IsSubsequence(a[1..], b[1..]) {
      if b[0] == c[0] && IsSubsequence(b[1..], c[1..]) {
        SubsequenceTransitive(a[1..], b[1..], c[1..]);
      } else {
        SubsequenceTransitive(a, b, c[1..]);
      }
    } else {
      assert IsSubsequence(a, b[1..]);
      if b[0] == c[0] && IsSubsequence(b[1..], c[1..]) {
        SubsequenceTransitive(a, b[1..], c[1..]);
      } else {
        SubsequenceTransitive(a, b, c[1..]);
      }
    }
  }

  lemma {:induction false} SubsequenceMembers<T>(a: seq<T>, b: seq<T>, x: T)
    requires IsSubsequence(a, b) && x in a
    ensures x in b
    decreases |b|
  {
    if a[0] == b[0] && IsSubsequence(a[1..], b[1..]) {
      if x != a[0] {
        SubsequenceMembers(a[1..], b[1..], x);
      }
    } else {
      SubsequenceMembers(a, b[1..], x);
    }
  }

  lemma {:induction false} SubsequenceLength<T>(a: seq<T>, b: seq<T>)
    requires IsSubsequence(a, b)
    ensures |a| <= |b|
    decreases |b|
  {
    if |a| > 0 {
      if a[0] == b[0] && IsSubsequence(a[1..], b[1..]) {
        SubsequenceLength(a[1..], b[1..]);
      } else {
        SubsequenceLength(a, b[1..]);
      }
    }
  }

  lemma {:induction false} FilterConcat<T>(p: T -> bool, a: seq<T>, b: seq<T>)
    ensures Filter(p, a + b) == Filter(p, a) + Filter(p, b)
    decreases |a|
  {
    if |a| > 0 {
      assert (a + b)[1..] == a[1..] + b;
      FilterConcat(p, a[1..], b);
    } else {
      assert a + b == b;
    }
  }

  lemma {:induction false} CountConcat<T>(p: T -> bool, a: seq<T>, b: seq<T>)
    ensures Count(p, a + b) == Count(p, a) + Count(p, b)
    decreases |a|
  {
    if |a| > 0 {
      assert (a + b)[1..] == a[1..] + b;
      CountConcat(p, a[1..], b);
    } else {
      assert a + b == b;
    }
  }

  lemma {:induction false} CountBound<T>(p: T -> bool, s: seq<T>)
    ensures Count(p, s) <= |s|
    decreases |s|
  {
    if |s| > 0 {
      CountBound(p, s[1..]);
    }
  }

  lemma {:induction false} SubsequenceOfSuffix<T>(a: seq<T>, b: seq<T>, k: nat)
    requires k <= |b| && IsSubsequence(a, b[k..])
    ensures IsSubsequence(a, b)
    decreases k
  {
    if k > 0 {
      assert b[k..] == b[1..][k - 1..];
      SubsequenceOfSuffix(a, b[1..], k - 1);
    }
  }

  lemma SubsequenceCons<T>(x: T, a: seq<T>, b: seq<T>)
    requires IsSubsequence(a, b)
    ensures IsSubsequence([x] + a, [x] + b)
  {
    assert ([x] + a)[1..] == a;
    assert ([x] + b)[1..] == b;
  }

  lemma {:induction false} FilterAll<T>(p: T -> bool, s: seq<T>)
    requires forall i :: 0 <= i < |s| ==> p(s[i])
    ensures Filter(p, s) == s
    decreases |s|
  {
    if |s| > 0 {
      assert p(s[0]);
      FilterAll(p, s[1..]);
      assert [s[0]] + s[1..] == s;
    }
  }

  /** A subsequence whose elements all satisfy `p` has at most as many
      elements as `p` counts. */
  lemma {:induction false} SubsequenceCountBound<T>(p: T -> bool, a: seq<T>, b: seq<T>)
    requires IsSubsequence(a, b)
    requires forall i :: 0 <= i < |a| ==> p(a[i])
    ensures |a| <= Count(p, b)
    decreases |b|
  {
    if |a| > 0 {
      if a[0] == b[0] && IsSubsequence(a[1..], b[1..]) {
        SubsequenceCountBound(p, a[1..], b[1..]);
      } else {
        SubsequenceCountBound(p, a, b[1..]);
      }
    }
  }

  /** The filter is the only subsequence that keeps every element
      satisfying `p` and nothing else: one of the same length, made of
      such elements, is equal to it, duplicates included. */
  lemma {:induction false} FullSubsequenceIsFilter<T>(p: T -> bool, a: seq<T>, b: seq<T>)
    requires IsSubsequence(a, b)
    requires forall i :: 0 <= i < |a| ==> p(a[i])
    requires |a| == Count(p, b)
    ensures a == Filter(p, b)
    decreases |b|
  {
    if |b| > 0 {
      if |a| == 0 {
        assert |Filter(p, b)| == 0;
      } else if a[0] == b[0] && IsSubsequence(a[1..], b[1..]) {
        FullSubsequenceIsFilter(p, a[1..], b[1..]);
        assert a == [a[0]] + a[1..];
      } else {
        SubsequenceCountBound(p, a, b[1..]);
        FullSubsequenceIsFilter(p, a, b[1..]);
      }
    }
  }

  lemma TakeOfPrefix<T>(a: seq<T>, b: seq<T>, n: nat)
    requires n <= |a|
    ensures Take(a + b, n) == Take(a, n)
  {
    assert (a + b)[..n] == a[..n];
  }

  lemma TakeIsSubsequence<T>(s: seq<T>, n: nat)
    ensures IsSubsequence(Take(s, n), s)
  {
    if |s| <= n {
      SubsequenceReflexive(s);
    } else {
      PrefixIsSubsequence(s, n);
    }
  }
}
