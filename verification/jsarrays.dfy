/** `Array.prototype.splice` as the table builder calls it: with one element
    to insert and nothing deleted, or with one element deleted and nothing
    inserted. A start index is normalised as section 23.1.3.31 of
    ECMA-262 says: a negative index counts from the end and is clamped at
    0, an index past the end is the length. */
module JsArrays {
  /** The position `splice(start, …)` acts at. */
  function SpliceStart(len: nat, start: int): (k: nat)
    ensures k <= len
    ensures 0 <= start <= len ==> k == start
    ensures start > len ==> k == len
    ensures start < 0 ==> k == if len + start < 0 then 0 else len + start
  {
    if start < 0 then (if len + start < 0 then 0 else len + start)
    else if start > len then len
    else start
  }

  /** `xs.splice(start, 0, x)`: `x` is inserted at the normalised start. */
  function InsertAt<T>(xs: seq<T>, start: int, x: T): (r: seq<T>)
    ensures |r| == |xs| + 1
    ensures r[SpliceStart(|xs|, start)] == x
    ensures forall i | 0 <= i < SpliceStart(|xs|, start) :: r[i] == xs[i]
    ensures forall i | SpliceStart(|xs|, start) < i < |r| :: r[i] == xs[i - 1]
    ensures multiset(r) == multiset(xs) + multiset{x}
  {
    var k := SpliceStart(|xs|, start);
    assert xs == xs[..k] + xs[k..];
    xs[..k] + [x] + xs[k..]
  }

  /** `xs.splice(start, 1)`: the element at the normalised start is removed,
      if there is one there. */
  function RemoveAt<T>(xs: seq<T>, start: int): (r: seq<T>)
    ensures SpliceStart(|xs|, start) == |xs| ==> r == xs
    ensures SpliceStart(|xs|, start) < |xs| ==> |r| == |xs| - 1
    ensures forall i | 0 <= i < SpliceStart(|xs|, start) && i < |r| :: r[i] == xs[i]
    ensures forall i | SpliceStart(|xs|, start) <= i < |r| :: r[i] == xs[i + 1]
    ensures SpliceStart(|xs|, start) < |xs| ==>
      multiset(r) == multiset(xs) - multiset{xs[SpliceStart(|xs|, start)]}
  {
    var k := SpliceStart(|xs|, start);
    if k == |xs| then xs
    else
      assert xs == xs[..k] + [xs[k]] + xs[k + 1..];
      xs[..k] + xs[k + 1..]
  }

  /** Removing what was just inserted at a position gives the sequence back. */
  lemma {:induction false} RemoveInserted<T>(xs: seq<T>, start: int, x: T)
    requires 0 <= start <= |xs|
    ensures RemoveAt(InsertAt(xs, start, x), start) == xs
  {
    var r := InsertAt(xs, start, x);
    assert SpliceStart(|r|, start) == start;
    assert r[..start] + r[start + 1..] == xs by {
      assert r[..start] == xs[..start];
      assert r[start + 1..] == xs[start..];
    }
  }

  /** Inserting back what was removed from a position gives the sequence back. */
  lemma {:induction false} InsertRemoved<T>(xs: seq<T>, start: nat)
    requires start < |xs|
    ensures InsertAt(RemoveAt(xs, start), start, xs[start]) == xs
  {
    var r := RemoveAt(xs, start);
    assert r == xs[..start] + xs[start + 1..];
    assert SpliceStart(|r|, start) == start;
    assert r[..start] == xs[..start];
    assert r[start..] == xs[start + 1..];
    assert xs[..start] + [xs[start]] + xs[start + 1..] == xs;
  }
}
