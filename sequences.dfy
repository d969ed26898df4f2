/** Order-preserving sub-sequences and the generic filter that the stop lookup
    and the two passage filters are instances of. Both are defined from the
    back of the sequence, the way an `append` loop builds its result. */
module Sequences {

  function Last<T>(s: seq<T>): T
    requires |s| > 0
  {
    s[|s| - 1]
  }

  function Init<T>(s: seq<T>): seq<T>
    requires |s| > 0
  {
    s[..|s| - 1]
  }

  lemma InitLastOfSnoc<T>(s: seq<T>, x: T)
    ensures Init(s + [x]) == s && Last(s + [x]) == x
  {
  }

  lemma InitLastOfPrefix<T>(s: seq<T>, i: nat)
    requires i < |s|
    ensures Init(s[..i + 1]) == s[..i] && Last(s[..i + 1]) == s[i]
  {
  }

  /** `a` is what is left of `b` after deleting some of its elements:
      the remaining elements keep their relative order. */
  predicate IsSubseq<T(==)>(a: seq<T>, b: seq<T>)
    decreases |b|
  {
    if a == [] then true
    else if b == [] then false
    else (Last(a) == Last(b) && IsSubseq(Init(a), Init(b))) || IsSubseq(a, Init(b))
  }

  lemma {:induction false} SubseqRefl<T>(s: seq<T>)
    ensures IsSubseq(s, s)
    decreases |s|
  {
    if s != [] {
      SubseqRefl(Init(s));
    }
  }

  /** Appending the same element to both sides, or to the larger side only,
      keeps the relation. */
  lemma SubseqSnoc<T>(a: seq<T>, b: seq<T>, x: T)
    requires IsSubseq(a, b)
    ensures IsSubseq(a + [x], b + [x])
    ensures IsSubseq(a, b + [x])
  {
    InitLastOfSnoc(a, x);
    InitLastOfSnoc(b, x);
  }

  lemma {:induction false} SubseqTrans<T>(a: seq<T>, b: seq<T>, c: seq<T>)
    requires IsSubseq(a, b) && IsSubseq(b, c)
    ensures IsSubseq(a, c)
    decreases |c|
  {
    if a != [] {
      assert b != [] && c != [];
      if IsSubseq(b, Init(c)) {
        SubseqTrans(a, b, Init(c));
      } else if IsSubseq(a, Init(b)) {
        SubseqTrans(a, Init(b), Init(c));
      } else {
        SubseqTrans(Init(a), Init(b), Init(c));
      }
    }
  }

  /** The elements of `s` that satisfy `p`, in their order in `s`. */
  function Filter<T>(s: seq<T>, p: T -> bool): (r: seq<T>)
    ensures |r| <= |s|
    decreases |s|
  {
    if s == [] then [] else Filter(Init(s), p) + (if p(Last(s)) then [Last(s)] else [])
  }

  lemma {:induction false} FilterMembership<T>(s: seq<T>, p: T -> bool, x: T)
    ensures x in Filter(s, p) <==> x in s && p(x)
    decreases |s|
  {
    if s != [] {
      FilterMembership(Init(s), p, x);
      assert s == Init(s) + [Last(s)];
    }
  }

  lemma {:induction false} FilterIsSubseq<T>(s: seq<T>, p: T -> bool)
    ensures IsSubseq(Filter(s, p), s)
    decreases |s|
  {
    if s != [] {
      FilterIsSubseq(Init(s), p);
      assert s == Init(s) + [Last(s)];
      SubseqSnoc(Filter(Init(s), p), Init(s), Last(s));
      if !p(Last(s)) {
        assert Filter(s, p) == Filter(Init(s), p);
      }
    }
  }

  /** Every element is kept as often as it occurs in `s`, or not at all. */
  lemma {:induction false} FilterMultiplicity<T>(s: seq<T>, p: T -> bool, x: T)
    ensures multiset(Filter(s, p))[x] == if p(x) then multiset(s)[x] else 0
    decreases |s|
  {
    if s != [] {
      FilterMultiplicity(Init(s), p, x);
      assert s == Init(s) + [Last(s)];
    }
  }

  /** Filtering a sequence whose elements all satisfy `p` changes nothing. */
  lemma {:induction false} FilterAllKept<T>(s: seq<T>, p: T -> bool)
    requires forall i :: 0 <= i < |s| ==> p(s[i])
    ensures Filter(s, p) == s
    decreases |s|
  {
    if s != [] {
      FilterAllKept(Init(s), p);
      assert s == Init(s) + [Last(s)];
    }
  }

  /** The first element of the filtered sequence is the first element of `s`
      that satisfies `p`. */
  lemma {:induction false} FilterHead<T>(s: seq<T>, p: T -> bool, i: nat)
    requires i < |s| && p(s[i])
    requires forall j :: 0 <= j < i ==> !p(s[j])
    ensures |Filter(s, p)| > 0 && Filter(s, p)[0] == s[i]
    decreases |s|
  {
    if i < |s| - 1 {
      FilterHead(Init(s), p, i);
    } else if Filter(Init(s), p) != [] {
      FilterMembership(Init(s), p, Filter(Init(s), p)[0]);
    }
  }
}
