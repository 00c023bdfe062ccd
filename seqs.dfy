/** Sequence helpers: order-preserving filtering, subsequences, offset/limit windows and sums. */
module Seqs {

  function Last<T>(s: seq<T>): T
    requires |s| > 0
  {
    s[|s| - 1]
  }

  function DropLast<T>(s: seq<T>): seq<T>
    requires |s| > 0
  {
    s[..|s| - 1]
  }

  /** One more element of a prefix: the step every left-to-right loop over `s` takes. */
  lemma TakeSnoc<T>(s: seq<T>, i: nat)
    requires i < |s|
    ensures s[..i + 1] == s[..i] + [s[i]]
  {
  }

  /** Concatenation is associative; stated once so that proofs regrouping concatenations stay small. */
  lemma AppendAssoc<T>(a: seq<T>, b: seq<T>, c: seq<T>)
    ensures (a + b) + c == a + (b + c)
  {
    var l, r := (a + b) + c, a + (b + c);
    assert |l| == |r|;
    forall i | 0 <= i < |l| ensures l[i] == r[i] {
      if i < |a| {
      } else if i < |a| + |b| {
      } else {
      }
    }
  }

  function Min(a: int, b: int): int
  {
    if a <= b then a else b
  }

  function Max(a: int, b: int): int
  {
    if a <= b then b else a
  }

  /** `r` is obtained from `s` by deleting elements, keeping the order of the rest. */
  ghost predicate IsSubsequence<T>(r: seq<T>, s: seq<T>)
    decreases |s|
  {
    if r == [] then true
    else if s == [] then false
    else (Last(r) == Last(s) && IsSubsequence(DropLast(r), DropLast(s))) || IsSubsequence(r, DropLast(s))
  }

  lemma {:induction false} SubsequenceLength<T>(r: seq<T>, s: seq<T>)
    requires IsSubsequence(r, s)
    ensures |r| <= |s|
    decreases |s|
  {
    if r != [] {
      if Last(r) == Last(s) && IsSubsequence(DropLast(r), DropLast(s)) {
        SubsequenceLength(DropLast(r), DropLast(s));
      } else {
        SubsequenceLength(r, DropLast(s));
      }
    }
  }

  lemma {:induction false} SubsequenceMembers<T>(r: seq<T>, s: seq<T>)
    requires IsSubsequence(r, s)
    ensures forall x :: x in r ==> x in s
    decreases |s|
  {
    if r != [] {
      if Last(r) == Last(s) && IsSubsequence(DropLast(r), DropLast(s)) {
        SubsequenceMembers(DropLast(r), DropLast(s));
        assert r == DropLast(r) + [Last(r)];
      } else {
        SubsequenceMembers(r, DropLast(s));
      }
      assert s == DropLast(s) + [Last(s)];
    }
  }

  lemma {:induction false} SubsequenceReflexive<T>(s: seq<T>)
    ensures IsSubsequence(s, s)
    decreases |s|
  {
    if s != [] {
      SubsequenceReflexive(DropLast(s));
    }
  }

  lemma SubsequenceSkip<T>(r: seq<T>, s: seq<T>, x: T)
    requires IsSubsequence(r, s)
    ensures IsSubsequence(r, s + [x])
  {
    assert DropLast(s + [x]) == s;
  }

  lemma SubsequenceTake<T>(r: seq<T>, s: seq<T>, x: T)
    requires IsSubsequence(r, s)
    ensures IsSubsequence(r + [x], s + [x])
  {
    assert DropLast(s + [x]) == s;
    assert DropLast(r + [x]) == r;
  }

  lemma {:induction false} SubsequenceTransitive<T>(a: seq<T>, b: seq<T>, c: seq<T>)
    requires IsSubsequence(a, b) && IsSubsequence(b, c)
    ensures IsSubsequence(a, c)
    decreases |c|
  {
    if a != [] {
      assert b != [] && c != [];
      if Last(b) == Last(c) && IsSubsequence(DropLast(b), DropLast(c)) {
        if Last(a) == Last(b) && IsSubsequence(DropLast(a), DropLast(b)) {
          SubsequenceTransitive(DropLast(a), DropLast(b), DropLast(c));
        } else {
          SubsequenceTransitive(a, DropLast(b), DropLast(c));
        }
      } else {
        SubsequenceTransitive(a, b, DropLast(c));
      }
    }
  }

  /** A contiguous slice is a subsequence. */
  lemma {:induction false} SliceIsSubsequence<T>(s: seq<T>, i: nat, j: nat)
    requires i <= j <= |s|
    ensures IsSubsequence(s[i..j], s)
    decreases |s|
  {
    if j < |s| {
      SliceIsSubsequence(DropLast(s), i, j);
      assert DropLast(s)[i..j] == s[i..j];
      SubsequenceSkip(s[i..j], DropLast(s), Last(s));
      assert DropLast(s) + [Last(s)] == s;
    } else if i < j {
      var t := s[i..j];
      SliceIsSubsequence(DropLast(s), i, j - 1);
      assert DropLast(s)[i..j - 1] == DropLast(t);
      assert t[|t| - 1] == s[j - 1];
      assert Last(t) == Last(s);
    } else {
      assert s[i..j] == [];
    }
  }

  /** The elements of `s` that satisfy `p`, in their original order (a Python list comprehension with an `if`). */
  function Filter<T(!new)>(s: seq<T>, p: T -> bool): (r: seq<T>)
    ensures forall x :: x in r <==> x in s && p(x)
    ensures IsSubsequence(r, s)
    decreases |s|
  {
    if s == [] then []
    else
      var init := Filter(DropLast(s), p);
      assert s == DropLast(s) + [Last(s)];
      if p(Last(s)) then
        SubsequenceTake(init, DropLast(s), Last(s));
        init + [Last(s)]
      else
        SubsequenceSkip(init, DropLast(s), Last(s));
        init
  }

  lemma {:induction false} FilterAppend<T(!new)>(a: seq<T>, b: seq<T>, p: T -> bool)
    ensures Filter(a + b, p) == Filter(a, p) + Filter(b, p)
    decreases |b|
  {
    if b == [] {
      assert a + b == a;
    } else {
      var init, x := DropLast(b), Last(b);
      assert b == init + [x];
      assert a + b == (a + init) + [x];
      FilterAppend(a, init, p);
      FilterSnoc(a + init, x, p);
      FilterSnoc(init, x, p);
      AppendAssoc(Filter(a, p), Filter(init, p), if p(x) then [x] else []);
    }
  }

  /** A filter keeps every copy of each element satisfying the predicate and no copy of the others. */
  lemma {:induction false} FilterCount<T(!new)>(s: seq<T>, p: T -> bool)
    ensures forall x :: multiset(Filter(s, p))[x] == if p(x) then multiset(s)[x] else 0
    decreases |s|
  {
    if s != [] {
      var init := DropLast(s);
      assert s == init + [Last(s)];
      assert multiset(s) == multiset(init) + multiset{Last(s)};
      FilterCount(init, p);
      FilterSnoc(init, Last(s), p);
    }
  }

  lemma FilterSnoc<T(!new)>(s: seq<T>, x: T, p: T -> bool)
    ensures Filter(s + [x], p) == Filter(s, p) + (if p(x) then [x] else [])
  {
    assert DropLast(s + [x]) == s;
  }

  /** Filtering with a predicate that holds of every element changes nothing. */
  lemma {:induction false} FilterKeepsAll<T(!new)>(s: seq<T>, p: T -> bool)
    requires forall x :: x in s ==> p(x)
    ensures Filter(s, p) == s
    decreases |s|
  {
    if s != [] {
      var init := DropLast(s);
      assert s == init + [Last(s)];
      assert forall x :: x in init ==> x in s;
      FilterKeepsAll(init, p);
      FilterSnoc(init, Last(s), p);
    }
  }

  /** Filtering with a predicate that holds of no element gives the empty list. */
  lemma {:induction false} FilterKeepsNone<T(!new)>(s: seq<T>, p: T -> bool)
    requires forall x :: x in s ==> !p(x)
    ensures Filter(s, p) == []
    decreases |s|
  {
    if s != [] {
      assert forall x :: x in DropLast(s) ==> x in s;
      FilterKeepsNone(DropLast(s), p);
    }
  }

  /** A filter keeps its whole input exactly when every element satisfies the predicate. */
  lemma FilterFullIffAll<T(!new)>(s: seq<T>, p: T -> bool)
    ensures |Filter(s, p)| == |s| <==> forall k :: 0 <= k < |s| ==> p(s[k])
  {
    if forall k :: 0 <= k < |s| ==> p(s[k]) {
      FilterKeepsAll(s, p);
    } else {
      var k :| 0 <= k < |s| && !p(s[k]);
      FilterMissesOne(s, p, k);
    }
  }

  lemma {:induction false} FilterMissesOne<T(!new)>(s: seq<T>, p: T -> bool, k: nat)
    requires k < |s| && !p(s[k])
    ensures |Filter(s, p)| < |s|
    decreases |s|
  {
    SubsequenceLength(Filter(DropLast(s), p), DropLast(s));
    if k < |s| - 1 {
      FilterMissesOne(DropLast(s), p, k);
    }
  }

  /** Python's `s[offset : offset + limit]` for a non-negative offset and limit. */
  function Page<T>(s: seq<T>, offset: nat, limit: nat): (r: seq<T>)
    ensures |r| == Max(0, Min(limit, |s| - offset))
    ensures forall i :: 0 <= i < |r| ==> r[i] == s[offset + i]
  {
    if offset >= |s| then [] else s[offset..Min(offset + limit, |s|)]
  }

  lemma PageIsSubsequence<T>(s: seq<T>, offset: nat, limit: nat)
    ensures IsSubsequence(Page(s, offset, limit), s)
  {
    if offset >= |s| {
      assert Page(s, offset, limit) == s[0..0];
      SliceIsSubsequence(s, 0, 0);
    } else {
      SliceIsSubsequence(s, offset, Min(offset + limit, |s|));
    }
  }

  /** Two consecutive windows together are the window of the combined limit: paging through a list visits it in order with nothing skipped or repeated. */
  lemma PagesTile<T>(s: seq<T>, offset: nat, l1: nat, l2: nat)
    ensures Page(s, offset, l1) + Page(s, offset + l1, l2) == Page(s, offset, l1 + l2)
  {
    var a, b, c := Page(s, offset, l1), Page(s, offset + l1, l2), Page(s, offset, l1 + l2);
    assert |a + b| == |c|;
    forall i | 0 <= i < |c| ensures (a + b)[i] == c[i] {
      if i >= |a| {
        assert (a + b)[i] == b[i - |a|];
      }
    }
  }

  function Sum(xs: seq<int>): int
    decreases |xs|
  {
    if xs == [] then 0 else Sum(DropLast(xs)) + Last(xs)
  }

  lemma {:induction false} SumAppend(a: seq<int>, b: seq<int>)
    ensures Sum(a + b) == Sum(a) + Sum(b)
    decreases |b|
  {
    if b == [] {
      assert a + b == a;
    } else {
      assert DropLast(a + b) == a + DropLast(b);
      SumAppend(a, DropLast(b));
    }
  }
}
