/** The array operations the table code uses with a callback: `findIndex`,
    `filter`, `map`, and the subsequence relation that `filter` keeps. The
    callback is a function value, so that a predicate is applied and not
    unfolded at every element. */
module Seqs {
  import opened Outcomes

  /** `xs.findIndex(p)`, as an option. */
  function FirstWhere<T>(xs: seq<T>, p: T -> bool): (o: Option<nat>)
    ensures o.None? <==> forall i | 0 <= i < |xs| :: !p(xs[i])
    ensures o.Some? ==> o.value < |xs| && p(xs[o.value])
    ensures o.Some? ==> forall j | 0 <= j < o.value :: !p(xs[j])
  {
    if |xs| == 0 then None
    else if p(xs[0]) then Some(0)
    else
      match FirstWhere(xs[1..], p)
      case None =>
        assert forall i | 1 <= i < |xs| :: xs[i] == xs[1..][i - 1];
        None
      case Some(i) => Some(i + 1)
  }

  /** `FirstWhere` stops at the first element satisfying `p`. */
  lemma {:induction false} FirstWhereFirst<T>(xs: seq<T>, p: T -> bool, i: nat)
    requires i < |xs| && p(xs[i])
    requires forall j | 0 <= j < i :: !p(xs[j])
    ensures FirstWhere(xs, p) == Some(i)
  {
    if i > 0 {
      assert forall j | 0 <= j < i - 1 :: xs[1..][j] == xs[j + 1];
      FirstWhereFirst(xs[1..], p, i - 1);
    }
  }

  /** `FirstWhere` of `a + b` lands on `b`'s first element when nothing in
      `a` satisfies `p` and that element does. */
  lemma {:induction false} FirstWhereAfter<T>(a: seq<T>, b: seq<T>, p: T -> bool)
    requires NoneOf(a, p) && |b| > 0 && p(b[0])
    ensures FirstWhere(a + b, p) == Some(|a|)
  {
    var xs := a + b;
    forall j | 0 <= j < |a| ensures !p(xs[j]) {
      assert xs[j] == a[j];
    }
    assert xs[|a|] == b[0];
    FirstWhereFirst(xs, p, |a|);
  }

  /** `a` is `b` with some elements left out, the rest in the same order. */
  predicate IsSubseq<T(==)>(a: seq<T>, b: seq<T>)
    decreases |b|
  {
    |a| == 0 || (|b| > 0 && if a[0] == b[0] then IsSubseq(a[1..], b[1..]) else IsSubseq(a, b[1..]))
  }

  /** `r` is `xs.filter(p)`: the elements of `xs` that satisfy `p`, in
      their order and each as often as it occurs in `xs`. */
  predicate Filtered<T(==)>(r: seq<T>, xs: seq<T>, p: T -> bool) {
    IsSubseq(r, xs) && (forall i | 0 <= i < |r| :: p(r[i]))
      && forall i | 0 <= i < |xs| && p(xs[i]) :: multiset(r)[xs[i]] == multiset(xs)[xs[i]]
  }

  /** `xs.filter(p)`: exactly the elements that satisfy `p`, in their order. */
  function Filter<T(==)>(xs: seq<T>, p: T -> bool): (r: seq<T>)
    ensures forall i | 0 <= i < |r| :: p(r[i])
    ensures forall i | 0 <= i < |xs| :: p(xs[i]) ==> xs[i] in r
    ensures forall x | x in r :: x in xs
    ensures Filtered(r, xs, p)
    decreases |xs|
  {
    if |xs| == 0 then []
    else
      var rest := Filter(xs[1..], p);
      assert forall i | 1 <= i < |xs| :: xs[i] == xs[1..][i - 1];
      FilteredCons(rest, xs, p);
      if p(xs[0]) then [xs[0]] + rest else rest
  }

  /** Filtering `xs` is filtering its tail and then keeping its first
      element in front when that element satisfies `p`. */
  lemma {:induction false} FilteredCons<T>(rest: seq<T>, xs: seq<T>, p: T -> bool)
    requires |xs| > 0 && Filtered(rest, xs[1..], p)
    ensures Filtered(if p(xs[0]) then [xs[0]] + rest else rest, xs, p)
  {
    var ys := xs[1..];
    assert xs == [xs[0]] + ys;
    SubseqMultiset(rest, ys);
    if p(xs[0]) {
      var r := [xs[0]] + rest;
      assert r[1..] == rest;
      forall i | 0 <= i < |xs| && p(xs[i]) ensures multiset(r)[xs[i]] == multiset(xs)[xs[i]] {
        if i > 0 {
          assert xs[i] == ys[i - 1];
        } else if xs[0] in ys {
          var j :| 0 <= j < |ys| && ys[j] == xs[0];
        }
      }
    } else {
      SkipHead(rest, xs);
      forall i | 0 <= i < |xs| && p(xs[i]) ensures multiset(rest)[xs[i]] == multiset(xs)[xs[i]] {
        assert xs[i] == ys[i - 1];
      }
    }
  }

  /** The first position from `i` on whose element satisfies `p`, or the
      length when there is none: a `for` loop from `i` that breaks on `p`. */
  function NextWhere<T>(xs: seq<T>, i: nat, p: T -> bool): (k: nat)
    requires i <= |xs|
    ensures i <= k <= |xs|
    ensures forall j | i <= j < k :: !p(xs[j])
    ensures k < |xs| ==> p(xs[k])
    decreases |xs| - i
  {
    if i == |xs| || p(xs[i]) then i else NextWhere(xs, i + 1, p)
  }

  /** `NextWhere` stops at the first position that satisfies `p`. */
  lemma {:induction false} NextWhereAt<T>(xs: seq<T>, i: nat, p: T -> bool, k: nat)
    requires i <= k <= |xs|
    requires forall j | i <= j < k :: !p(xs[j])
    requires k < |xs| ==> p(xs[k])
    ensures NextWhere(xs, i, p) == k
    decreases k - i
  {
    if i < k {
      NextWhereAt(xs, i + 1, p, k);
    }
  }

  /** In `a + m + b`, the scan from the end of `a` skips `m` when nothing
      in `m` satisfies `p` and `b` starts with an element that does (or is
      empty). */
  lemma {:induction false} NextWhereSkips<T>(a: seq<T>, m: seq<T>, b: seq<T>, p: T -> bool)
    requires forall j | 0 <= j < |m| :: !p(m[j])
    requires b == [] || p(b[0])
    ensures NextWhere(a + m + b, |a|, p) == |a| + |m|
  {
    var xs := a + m + b;
    forall j | |a| <= j < |a| + |m| ensures !p(xs[j]) {
      assert xs[j] == m[j - |a|];
    }
    if b != [] {
      assert xs[|a| + |m|] == b[0];
    }
    NextWhereAt(xs, |a|, p, |a| + |m|);
  }

  /** In `before + [e] + t + [e] + after`, the scan from the second element
      of `t` stops at `after` when only `after`'s first element can satisfy `p`. */
  lemma {:induction false} NextWhereSplice<T>(before: seq<T>, e: T, t: seq<T>, after: seq<T>, p: T -> bool)
    requires |t| >= 1 && !p(e)
    requires forall j | 1 <= j < |t| :: !p(t[j])
    requires after == [] || p(after[0])
    ensures NextWhere(before + [e] + t + [e] + after, |before| + 2, p) == |before| + |t| + 2
  {
    var m := t[1..] + [e];
    forall j | 0 <= j < |m| ensures !p(m[j]) {
      if j < |t| - 1 {
        assert m[j] == t[j + 1];
      }
    }
    assert before + [e] + t + [e] + after == (before + [e, t[0]]) + m + after;
    NextWhereSkips(before + [e, t[0]], m, after, p);
  }

  /** No element satisfies `p`. */
  predicate NoneOf<T>(xs: seq<T>, p: T -> bool) {
    forall i | 0 <= i < |xs| :: !p(xs[i])
  }

  /** Two sequences none of whose elements satisfy `p` join into one. */
  lemma {:induction false} NoneOfConcat<T>(a: seq<T>, b: seq<T>, p: T -> bool)
    requires NoneOf(a, p) && NoneOf(b, p)
    ensures NoneOf(a + b, p)
  {
    forall i | 0 <= i < |a + b| ensures !p((a + b)[i]) {
      if i >= |a| {
        assert (a + b)[i] == b[i - |a|];
      }
    }
  }

  /** The last element of `a + b`: `b`'s last, or `a`'s when `b` is empty. */
  lemma {:induction false} LastOfConcat<T>(a: seq<T>, b: seq<T>)
    requires |a| > 0
    ensures (a + b)[|a + b| - 1] == if |b| > 0 then b[|b| - 1] else a[|a| - 1]
  {
    if |b| == 0 {
      assert a + b == a;
    }
  }

  /** `[e] + d + [h1, h2] + rows`, the shape of a Markdown table block,
      has no element satisfying `p` when none of its parts has one, and its
      last element satisfies `q` when the last of `h2` and `rows` does. */
  lemma {:induction false} BlockNoneOf<T>(e: T, d: seq<T>, h1: T, h2: T, rows: seq<T>, p: T -> bool, q: T -> bool)
    requires !p(e) && NoneOf(d, p) && !p(h1) && !p(h2) && NoneOf(rows, p)
    requires q(h2) && (|rows| > 0 ==> q(rows[|rows| - 1]))
    ensures NoneOf([e] + d + [h1, h2] + rows, p)
    ensures var b := [e] + d + [h1, h2] + rows; q(b[|b| - 1])
  {
    NoneOfConcat([e], d, p);
    NoneOfConcat([e] + d, [h1, h2], p);
    NoneOfConcat([e] + d + [h1, h2], rows, p);
    LastOfConcat([e] + d + [h1, h2], rows);
  }

  /** Regrouping a concatenation around its two elements after `f`. */
  lemma {:induction false} Regroup<T>(f: seq<T>, x: T, e: T, d: seq<T>, h: seq<T>, r: seq<T>)
    ensures (f + [x, e]) + d + h + r == f + ([x] + ([e] + d + h + r))
  {
    assert f + [x, e] == f + [x] + [e];
  }

  /** The last position from `hi` back to `lo` whose element satisfies `p`,
      or `lo`: a loop that steps back from `hi` while `p` fails. */
  function PrevWhere<T>(xs: seq<T>, lo: nat, hi: nat, p: T -> bool): (k: nat)
    requires lo <= hi < |xs|
    ensures lo <= k <= hi
    ensures forall j | k < j <= hi :: !p(xs[j])
    ensures k == lo || p(xs[k])
    decreases hi
  {
    if hi > lo && !p(xs[hi]) then PrevWhere(xs, lo, hi - 1, p) else hi
  }

  /** Stepping back from the first `n` elements past those that fail `p`:
      the length of the prefix that ends with an element satisfying `p`. */
  function EndWhere<T>(xs: seq<T>, n: nat, p: T -> bool): (k: nat)
    requires n <= |xs|
    ensures k <= n
    ensures forall j | k <= j < n :: !p(xs[j])
    ensures k == 0 || p(xs[k - 1])
    decreases n
  {
    if n == 0 || p(xs[n - 1]) then n else EndWhere(xs, n - 1, p)
  }

  /** `Filter` keeps a sequence whose every element passes. */
  lemma {:induction false} FilterAll<T>(xs: seq<T>, p: T -> bool)
    requires forall i | 0 <= i < |xs| :: p(xs[i])
    ensures Filter(xs, p) == xs
    decreases |xs|
  {
    if |xs| > 0 {
      assert forall i | 0 <= i < |xs| - 1 :: xs[1..][i] == xs[i + 1];
      FilterAll(xs[1..], p);
      assert [xs[0]] + xs[1..] == xs;
    }
  }

  /** A subsequence of the tail is a subsequence of the whole. */
  lemma {:induction false} SkipHead<T>(a: seq<T>, b: seq<T>)
    requires |b| > 0 && IsSubseq(a, b[1..])
    ensures IsSubseq(a, b)
    decreases |a| + |b|
  {
    if |a| > 0 && a[0] == b[0] {
      // `a` lies inside `b[1..]`, so its tail does too
      SubseqTail(a, b[1..]);
    }
  }

  /** Dropping the first element of a subsequence keeps it a subsequence. */
  lemma {:induction false} SubseqTail<T>(a: seq<T>, b: seq<T>)
    requires |a| > 0 && IsSubseq(a, b)
    ensures IsSubseq(a[1..], b)
    decreases |a| + |b|
  {
    if a[0] == b[0] {
      SkipHead(a[1..], b);
    } else {
      SubseqTail(a, b[1..]);
      SkipHead(a[1..], b);
    }
  }

  /** A subsequence holds each element at most as often as the sequence it is taken from. */
  lemma {:induction false} SubseqMultiset<T>(a: seq<T>, b: seq<T>)
    requires IsSubseq(a, b)
    ensures multiset(a) <= multiset(b)
    decreases |b|
  {
    if |a| > 0 {
      assert b == [b[0]] + b[1..];
      if a[0] == b[0] {
        SubseqMultiset(a[1..], b[1..]);
        assert a == [a[0]] + a[1..];
      } else {
        SubseqMultiset(a, b[1..]);
      }
    }
  }

  /** What `Filtered` says about the first element of `xs`: it leads `r`
      when it satisfies `p`, and is left out otherwise. */
  lemma {:induction false} FilteredStep<T>(r: seq<T>, xs: seq<T>, p: T -> bool)
    requires |xs| > 0 && Filtered(r, xs, p)
    ensures p(xs[0]) ==> |r| > 0 && r[0] == xs[0] && Filtered(r[1..], xs[1..], p)
    ensures !p(xs[0]) ==> Filtered(r, xs[1..], p)
  {
    var ys := xs[1..];
    assert xs == [xs[0]] + ys;
    if p(xs[0]) {
      assert multiset(r)[xs[0]] == multiset(xs)[xs[0]] > 0;
      assert |r| > 0;
      if r[0] != xs[0] {
        SubseqMultiset(r, ys);
        assert false;
      }
      var rs := r[1..];
      assert r == [r[0]] + rs;
      forall i | 0 <= i < |rs| ensures p(rs[i]) {
        assert rs[i] == r[i + 1];
      }
    } else if |r| > 0 {
      assert p(r[0]);
    }
  }

  /** `Filtered` pins its sequence down: `xs.filter(p)` is the only
      sequence that holds exactly the elements of `xs` satisfying `p`, in
      order and with their counts. */
  lemma {:induction false} FilteredUnique<T>(a: seq<T>, b: seq<T>, xs: seq<T>, p: T -> bool)
    requires Filtered(a, xs, p) && Filtered(b, xs, p)
    ensures a == b
    decreases |xs|
  {
    if |xs| == 0 {
      assert |a| == 0 && |b| == 0;
    } else {
      FilteredStep(a, xs, p);
      FilteredStep(b, xs, p);
      if p(xs[0]) {
        FilteredUnique(a[1..], b[1..], xs[1..], p);
        assert a == [a[0]] + a[1..] && b == [b[0]] + b[1..];
      } else {
        FilteredUnique(a, b, xs[1..], p);
      }
    }
  }

  /** The first element of `xs` satisfying `p` leads the filtered sequence. */
  lemma {:induction false} FilteredFirst<T>(r: seq<T>, xs: seq<T>, p: T -> bool, i: nat)
    requires Filtered(r, xs, p) && i < |xs| && p(xs[i])
    requires forall j | 0 <= j < i :: !p(xs[j])
    ensures |r| > 0 && r[0] == xs[i]
    decreases i
  {
    FilteredStep(r, xs, p);
    if i > 0 {
      assert forall j | 0 <= j < i - 1 :: xs[1..][j] == xs[j + 1];
      FilteredFirst(r, xs[1..], p, i - 1);
    }
  }

  /** `xs.map(f)`. */
  function Map<T, U>(xs: seq<T>, f: T -> U): (r: seq<U>)
    ensures |r| == |xs|
    ensures forall i | 0 <= i < |xs| :: r[i] == f(xs[i])
  {
    seq(|xs|, i requires 0 <= i < |xs| => f(xs[i]))
  }

  /** Mapping a sequence with one more element in front. */
  lemma {:induction false} MapCons<T, U>(x: T, xs: seq<T>, f: T -> U)
    ensures Map([x] + xs, f) == [f(x)] + Map(xs, f)
  {
    assert forall i | 1 <= i < |xs| + 1 :: ([x] + xs)[i] == xs[i - 1];
  }

  /** A subsequence is no longer than the sequence it is taken from. */
  lemma {:induction false} SubseqLength<T>(a: seq<T>, b: seq<T>)
    requires IsSubseq(a, b)
    ensures |a| <= |b|
    decreases |b|
  {
    if |a| > 0 {
      if a[0] == b[0] {
        SubseqLength(a[1..], b[1..]);
      } else {
        SubseqLength(a, b[1..]);
      }
    }
  }
}
