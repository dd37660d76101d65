/** Generic list operations that `contract.py` gets from the
    list type: filtering comprehensions, `list.remove`, and the notion of a
    result that only drops elements (a subsequence). */
module Seqs {

  /** Python's `None`-or-value, and the outcome of a call that may raise. */
  datatype Option<T> = None | Some(value: T)

  /** `[x for x in s if p(x)]` */
  function Filter<T(!new)>(s: seq<T>, p: T -> bool): (r: seq<T>)
    ensures |r| <= |s|
    ensures forall x :: x in r <==> x in s && p(x)
  {
    if s == [] then []
    else if p(s[0]) then [s[0]] + Filter(s[1..], p)
    else Filter(s[1..], p)
  }

  /** `a` is obtained from `b` by deleting elements, keeping the order of the rest. */
  predicate IsSubseq<T(==)>(a: seq<T>, b: seq<T>)
  {
    if a == [] then true
    else if b == [] then false
    else if a[0] == b[0] then IsSubseq(a[1..], b[1..])
    else IsSubseq(a, b[1..])
  }

  /** `list.remove(x)`: deletes the first occurrence of `x`, if any. */
  function RemoveFirst<T(==)>(s: seq<T>, x: T): (r: seq<T>)
    ensures x in s ==> |r| == |s| - 1
    ensures x !in s ==> r == s
  {
    if s == [] then []
    else if s[0] == x then s[1..]
    else [s[0]] + RemoveFirst(s[1..], x)
  }

  /** Number of elements satisfying `p`. */
  function CountIf<T>(s: seq<T>, p: T -> bool): (n: nat)
    ensures n <= |s|
  {
    if s == [] then 0
    else (if p(s[0]) then 1 else 0) + CountIf(s[1..], p)
  }

  lemma {:induction false} SubseqRefl<T>(s: seq<T>)
    ensures IsSubseq(s, s)
  {
    if s != [] { SubseqRefl(s[1..]); }
  }

  lemma {:induction false} SubseqLength<T>(a: seq<T>, b: seq<T>)
    requires IsSubseq(a, b)
    ensures |a| <= |b|
    decreases |b|
  {
    if a != [] {
      if a[0] == b[0] { SubseqLength(a[1..], b[1..]); } else { SubseqLength(a, b[1..]); }
    }
  }

  lemma {:induction false} SubseqMembers<T>(a: seq<T>, b: seq<T>)
    requires IsSubseq(a, b)
    ensures forall x :: x in a ==> x in b
    decreases |b|
  {
    if a != [] {
      if a[0] == b[0] { SubseqMembers(a[1..], b[1..]); } else { SubseqMembers(a, b[1..]); }
      assert a == [a[0]] + a[1..];
      assert b == [b[0]] + b[1..];
    }
  }

  /** Dropping the head of `a` keeps it a subsequence. */
  lemma {:induction false} SubseqDropHead<T>(a: seq<T>, b: seq<T>)
    requires a != [] && IsSubseq(a, b)
    ensures IsSubseq(a[1..], b)
    decreases |b|, 1
  {
    if a[0] == b[0] {
      SubseqExtend(a[1..], b);
    } else {
      SubseqDropHead(a, b[1..]);
      SubseqExtend(a[1..], b);
    }
  }

  /** A subsequence of the tail is a subsequence of the whole. */
  lemma {:induction false} SubseqExtend<T>(a: seq<T>, b: seq<T>)
    requires b != [] && IsSubseq(a, b[1..])
    ensures IsSubseq(a, b)
    decreases |b|, 0
  {
    if a != [] && a[0] == b[0] {
      SubseqDropHead(a, b[1..]);
    }
  }

  lemma {:induction false} SubseqTrans<T>(a: seq<T>, b: seq<T>, c: seq<T>)
    requires IsSubseq(a, b) && IsSubseq(b, c)
    ensures IsSubseq(a, c)
    decreases |c|
  {
    if a == [] {
    } else if b[0] == c[0] {
      if a[0] == b[0] {
        SubseqTrans(a[1..], b[1..], c[1..]);
      } else {
        SubseqTrans(a, b[1..], c[1..]);
      }
    } else {
      SubseqTrans(a, b, c[1..]);
      SubseqExtend(a, c);
    }
  }

  lemma {:induction false} FilterIsSubseq<T(!new)>(s: seq<T>, p: T -> bool)
    ensures IsSubseq(Filter(s, p), s)
  {
    if s != [] {
      FilterIsSubseq(s[1..], p);
      if !p(s[0]) { SubseqExtend(Filter(s[1..], p), s); }
    }
  }

  lemma {:induction false} RemoveFirstIsSubseq<T>(s: seq<T>, x: T)
    ensures IsSubseq(RemoveFirst(s, x), s)
  {
    if s != [] {
      if s[0] == x {
        SubseqRefl(s[1..]);
        SubseqExtend(s[1..], s);
      } else {
        RemoveFirstIsSubseq(s[1..], x);
      }
    }
  }

  /** Removing an element absent from the prefix only touches the suffix. */
  lemma {:induction false} RemoveFirstAfter<T>(xs: seq<T>, ys: seq<T>, x: T)
    requires x !in xs
    ensures RemoveFirst(xs + ys, x) == xs + RemoveFirst(ys, x)
  {
    if xs != [] {
      var s := xs + ys;
      var r := RemoveFirst(ys, x);
      assert s[0] == xs[0] && s[1..] == xs[1..] + ys;
      assert xs[0] != x by { assert xs[0] in xs; }
      assert forall z :: z in xs[1..] ==> z in xs;
      RemoveFirstAfter(xs[1..], ys, x);
      assert RemoveFirst(s, x) == [xs[0]] + (xs[1..] + r);
      assert [xs[0]] + (xs[1..] + r) == ([xs[0]] + xs[1..]) + r;
      assert [xs[0]] + xs[1..] == xs;
    } else {
      assert xs + ys == ys;
    }
  }

  /** Filtering a snoc-extended prefix. */
  lemma {:induction false} FilterSnoc<T(!new)>(s: seq<T>, x: T, p: T -> bool)
    ensures Filter(s + [x], p) == Filter(s, p) + (if p(x) then [x] else [])
  {
    if s != [] {
      assert (s + [x])[1..] == s[1..] + [x];
      FilterSnoc(s[1..], x, p);
    }
  }
}
