/**
 Array.prototype.filter, with the facts every filtering operation of the
 widget relies on: the result is the order-preserving subsequence of the
 elements that pass, and nothing else. The facts hold for lists of any
 element type; only the unique-id fact is about todos.
 */
module TodoLists {
  import opened TodoModel

  /** `a` is obtained from `b` by deleting elements, keeping the order. */
  ghost predicate IsSubseq<T>(a: seq<T>, b: seq<T>)
    decreases |b|
  {
    || |a| == 0
    || (&& |b| > 0
        && ((a[0] == b[0] && IsSubseq(a[1..], b[1..])) || IsSubseq(a, b[1..])))
  }

  /** `s.filter(p)`: the elements of `s` that pass `p`, in their order. */
  function FilterBy<T>(s: seq<T>, p: T -> bool): (r: seq<T>)
    ensures forall i :: 0 <= i < |r| ==> p(r[i])
    ensures |r| <= |s|
  {
    if |s| == 0 then []
    else if p(s[0]) then [s[0]] + FilterBy(s[1..], p)
    else FilterBy(s[1..], p)
  }

  /** The filtered list keeps the order of the original. */
  lemma {:induction false} FilterIsSubseq<T>(s: seq<T>, p: T -> bool)
    ensures IsSubseq(FilterBy(s, p), s)
  {
    if |s| > 0 {
      FilterIsSubseq(s[1..], p);
      if p(s[0]) {
        assert FilterBy(s, p)[1..] == FilterBy(s[1..], p);
      }
    }
  }

  /** The filtered list holds exactly the elements of `s` that pass. */
  lemma {:induction false} FilterMembers<T>(s: seq<T>, p: T -> bool)
    ensures forall t :: t in FilterBy(s, p) <==> t in s && p(t)
  {
    if |s| > 0 {
      FilterMembers(s[1..], p);
      assert s == [s[0]] + s[1..];
    }
  }

  /** When no element passes, the filtered list is empty. */
  lemma {:induction false} FilterNonePass<T>(s: seq<T>, p: T -> bool)
    requires forall i :: 0 <= i < |s| ==> !p(s[i])
    ensures FilterBy(s, p) == []
  {
    if |s| > 0 {
      FilterNonePass(s[1..], p);
    }
  }

  /** Filtering with a test and with its negation splits the list: the two
      results together are as long as the list. */
  lemma {:induction false} FilterComplementLength<T>(s: seq<T>, p: T -> bool, q: T -> bool)
    requires forall x :: q(x) <==> !p(x)
    ensures |FilterBy(s, p)| + |FilterBy(s, q)| == |s|
  {
    if |s| > 0 {
      FilterComplementLength(s[1..], p, q);
    }
  }

  /** A subsequence is never longer than the list it is taken from. */
  lemma {:induction false} SubseqLength<T>(a: seq<T>, b: seq<T>)
    requires IsSubseq(a, b)
    ensures |a| <= |b|
    decreases |b|
  {
    if |a| > 0 {
      if a[0] == b[0] && IsSubseq(a[1..], b[1..]) {
        SubseqLength(a[1..], b[1..]);
      } else {
        SubseqLength(a, b[1..]);
      }
    }
  }

  /** Filtering keeps a list whole exactly when every element passes. */
  lemma {:induction false} FilterIdentity<T>(s: seq<T>, p: T -> bool)
    ensures FilterBy(s, p) == s <==> forall i :: 0 <= i < |s| ==> p(s[i])
  {
    if |s| > 0 {
      FilterIdentity(s[1..], p);
      if p(s[0]) {
        assert forall i :: 1 <= i < |s| ==> s[i] == s[1..][i - 1];
      }
    }
  }

  /** Filtering twice with the same test is filtering once. */
  lemma FilterIdempotent<T>(s: seq<T>, p: T -> bool)
    ensures FilterBy(FilterBy(s, p), p) == FilterBy(s, p)
  {
    FilterIdentity(FilterBy(s, p), p);
  }

  /** Filtering distributes over concatenation. */
  lemma {:induction false} FilterAppend<T>(a: seq<T>, b: seq<T>, p: T -> bool)
    ensures FilterBy(a + b, p) == FilterBy(a, p) + FilterBy(b, p)
  {
    if |a| > 0 {
      assert (a + b)[1..] == a[1..] + b;
      FilterAppend(a[1..], b, p);
    } else {
      assert a + b == b;
    }
  }

  /** Filtering distributes over a four-way concatenation. */
  lemma FilterAppend4<T>(w: seq<T>, x: seq<T>, y: seq<T>, z: seq<T>, p: T -> bool)
    ensures FilterBy(w + x + y + z, p) == FilterBy(w, p) + FilterBy(x, p) + FilterBy(y, p) + FilterBy(z, p)
  {
    FilterAppend(w, x, p);
    FilterAppend(w + x, y, p);
    FilterAppend(w + x + y, z, p);
  }

  /** Filtering a list of unique ids leaves the ids unique. */
  lemma {:induction false} FilterUnique(s: seq<Todo>, p: Todo -> bool)
    requires UniqueIds(s)
    ensures UniqueIds(FilterBy(s, p))
  {
    if |s| > 0 {
      FilterUnique(s[1..], p);
      if p(s[0]) {
        var rest := FilterBy(s[1..], p);
        var r := FilterBy(s, p);
        forall i, j | 0 <= i < j < |r|
          ensures r[i].id != r[j].id
        {
          if i == 0 {
            FilterMembers(s[1..], p);
            assert r[j] == rest[j - 1];
            assert rest[j - 1] in s[1..];
            var k :| 0 <= k < |s[1..]| && s[1..][k] == rest[j - 1];
            assert s[k + 1] == rest[j - 1];
          } else {
            assert r[i] == rest[i - 1] && r[j] == rest[j - 1];
          }
        }
      }
    }
  }
}
