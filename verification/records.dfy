/** String-keyed records with insertion order: the behaviour of a plain
    JavaScript object (row records, `Record<string, Table>`) and of a `Map`
    keyed by strings. Assigning to an existing key keeps that key where it
    first appeared; a new key goes to the end; `Object.entries`,
    `Object.keys` and `Map` iteration follow that order. */
module Records {
  import opened Outcomes

  type Record<V> = seq<(string, V)>

  function KeysOf<V>(r: Record<V>): (ks: seq<string>)
    ensures |ks| == |r|
    ensures forall i :: 0 <= i < |r| ==> ks[i] == r[i].0
  {
    seq(|r|, i requires 0 <= i < |r| => r[i].0)
  }

  predicate UniqueKeys<V>(r: Record<V>) {
    forall i, j :: 0 <= i < j < |r| ==> r[i].0 != r[j].0
  }

  predicate HasKey<V>(r: Record<V>, k: string) {
    exists i :: 0 <= i < |r| && r[i].0 == k
  }

  /** Position of the entry for `k`, if any: the first one carrying that key. */
  function IndexOf<V>(r: Record<V>, k: string): (o: Option<nat>)
    ensures o.None? <==> !HasKey(r, k)
    ensures o.Some? ==> o.value < |r| && r[o.value].0 == k
    ensures o.Some? ==> forall j :: 0 <= j < o.value ==> r[j].0 != k
  {
    if |r| == 0 then None
    else if r[0].0 == k then Some(0)
    else
      match IndexOf(r[1..], k)
      case None =>
        assert forall i :: 1 <= i < |r| ==> r[i] == r[1..][i - 1];
        None
      case Some(i) => Some(i + 1)
  }

  /** The first position carrying `k` is where `IndexOf` finds it. */
  lemma {:induction false} IndexOfFirst<V>(r: Record<V>, k: string, i: int)
    requires 0 <= i < |r| && r[i].0 == k
    requires forall j :: 0 <= j < i ==> r[j].0 != k
    ensures IndexOf(r, k) == Some(i)
  {
    if i > 0 {
      IndexOfFirst(r[1..], k, i - 1);
    }
  }

  /** Two records with the same keys in the same order locate every key at the same place. */
  lemma {:induction false} IndexOfSameKeys<V>(r1: Record<V>, r2: Record<V>, k: string)
    requires |r1| == |r2|
    requires forall j :: 0 <= j < |r1| ==> r1[j].0 == r2[j].0
    ensures IndexOf(r1, k) == IndexOf(r2, k)
  {
    match IndexOf(r1, k)
    case Some(i) => IndexOfFirst(r2, k, i);
    case None =>
      assert !HasKey(r2, k) by {
        forall i | 0 <= i < |r2| ensures r2[i].0 != k {
          assert r1[i].0 == r2[i].0;
        }
      }
  }

  /** Reading `r[k]`: `None` plays the part of `undefined`. */
  function Get<V>(r: Record<V>, k: string): (o: Option<V>)
    ensures o.None? <==> !HasKey(r, k)
    ensures o.Some? ==> exists i :: 0 <= i < |r| && r[i] == (k, o.value)
  {
    match IndexOf(r, k)
    case None => None
    case Some(i) => Some(r[i].1)
  }

  /** In a record with unique keys, the entry at position `i` is what a read of its key returns. */
  lemma {:induction false} GetAt<V>(r: Record<V>, i: int)
    requires UniqueKeys(r) && 0 <= i < |r|
    ensures Get(r, r[i].0) == Some(r[i].1)
  {
    IndexOfFirst(r, r[i].0, i);
  }

  /** `r[k] = v`: an existing key keeps its place, a new key is appended. */
  function Put<V>(r: Record<V>, k: string, v: V): (r': Record<V>)
    ensures Get(r', k) == Some(v)
    ensures forall k' {:trigger Get(r', k')} :: k' != k ==> Get(r', k') == Get(r, k')
    ensures HasKey(r, k) ==> KeysOf(r') == KeysOf(r)
    ensures !HasKey(r, k) ==> r' == r + [(k, v)]
    ensures UniqueKeys(r) ==> UniqueKeys(r')
  {
    match IndexOf(r, k)
    case Some(i) =>
      var r' := r[i := (k, v)];
      assert KeysOf(r') == KeysOf(r);
      assert forall k' :: IndexOf(r', k') == IndexOf(r, k') by {
        forall k' ensures IndexOf(r', k') == IndexOf(r, k') {
          IndexOfSameKeys(r', r, k');
        }
      }
      r'
    case None =>
      var r' := r + [(k, v)];
      assert forall k' :: k' != k ==> Get(r', k') == Get(r, k') by {
        forall k' | k' != k ensures Get(r', k') == Get(r, k') {
          PutNewOther(r, k, v, k');
        }
      }
      assert forall j :: 0 <= j < |r| ==> r'[j] == r[j];
      IndexOfFirst(r', k, |r|);
      r'
  }

  lemma {:induction false} PutNewOther<V>(r: Record<V>, k: string, v: V, k': string)
    requires k' != k
    ensures IndexOf(r + [(k, v)], k') == IndexOf(r, k')
  {
    var r' := r + [(k, v)];
    match IndexOf(r, k')
    case Some(i) => IndexOfFirst(r', k', i);
    case None =>
      assert !HasKey(r', k') by {
        forall i | 0 <= i < |r'| ensures r'[i].0 != k' {
          if i < |r| { assert r'[i] == r[i]; }
        }
      }
  }

  /** `delete r[k]` on an object: the entry goes, the others keep their order and values. */
  function Delete<V>(r: Record<V>, k: string): (r': Record<V>)
    requires UniqueKeys(r)
    ensures !HasKey(r', k)
    ensures forall k' {:trigger Get(r', k')} :: k' != k ==> Get(r', k') == Get(r, k')
    ensures UniqueKeys(r')
    ensures HasKey(r, k) ==> |r'| == |r| - 1
    ensures !HasKey(r, k) ==> r' == r
  {
    match IndexOf(r, k)
    case None => r
    case Some(i) =>
      var r' := r[..i] + r[i + 1..];
      RemoveAtKeeps(r, i);
      assert forall k' :: k' != k ==> Get(r', k') == Get(r, k') by {
        forall k' | k' != k ensures Get(r', k') == Get(r, k') {
          RemoveAtOther(r, i, k');
        }
      }
      r'
  }

  lemma {:induction false} RemoveAtKeeps<V>(r: Record<V>, i: nat)
    requires UniqueKeys(r) && i < |r|
    ensures UniqueKeys(r[..i] + r[i + 1..])
    ensures !HasKey(r[..i] + r[i + 1..], r[i].0)
  {
    var r' := r[..i] + r[i + 1..];
    assert forall j :: 0 <= j < |r'| ==> r'[j] == r[if j < i then j else j + 1];
  }

  lemma {:induction false} RemoveAtOther<V>(r: Record<V>, i: nat, k': string)
    requires UniqueKeys(r) && i < |r| && k' != r[i].0
    ensures Get(r[..i] + r[i + 1..], k') == Get(r, k')
  {
    var r' := r[..i] + r[i + 1..];
    RemoveAtKeeps(r, i);
    var o := IndexOf(r, k');
    if o.Some? {
      var j := o.value;
      GetAt(r, j);
      var j' := if j < i then j else j - 1;
      assert r'[j'] == r[j];
      GetAt(r', j');
    } else {
      assert !HasKey(r', k') by {
        forall j | 0 <= j < |r'| ensures r'[j].0 != k' {
          if j < i { assert r'[j] == r[j]; } else { assert r'[j] == r[j + 1]; }
        }
      }
    }
  }

  /** Assigning every pair in order, as a loop of `r[k] = v` does. */
  function PutAll<V>(r: Record<V>, pairs: seq<(string, V)>): (r': Record<V>)
    ensures UniqueKeys(r) ==> UniqueKeys(r')
    decreases |pairs|
  {
    if |pairs| == 0 then r else PutAll(Put(r, pairs[0].0, pairs[0].1), pairs[1..])
  }

  /** Keys no pair mentions keep their value. */
  lemma {:induction false} PutAllKeeps<V>(r: Record<V>, pairs: seq<(string, V)>, k: string)
    requires forall i | 0 <= i < |pairs| :: pairs[i].0 != k
    ensures Get(PutAll(r, pairs), k) == Get(r, k)
    decreases |pairs|
  {
    if |pairs| > 0 {
      assert forall i | 0 <= i < |pairs| - 1 :: pairs[1..][i] == pairs[i + 1];
      PutAllKeeps(Put(r, pairs[0].0, pairs[0].1), pairs[1..], k);
    }
  }

  /** A key ends up with the value of the last pair that assigns it. */
  lemma {:induction false} PutAllLastWins<V>(r: Record<V>, pairs: seq<(string, V)>, i: nat)
    requires i < |pairs|
    requires forall j | i < j < |pairs| :: pairs[j].0 != pairs[i].0
    ensures Get(PutAll(r, pairs), pairs[i].0) == Some(pairs[i].1)
    decreases i
  {
    var rest := pairs[1..];
    if i == 0 {
      forall j | 0 <= j < |rest| ensures rest[j].0 != pairs[0].0 {
        assert rest[j] == pairs[j + 1];
      }
      PutAllKeeps(Put(r, pairs[0].0, pairs[0].1), rest, pairs[0].0);
    } else {
      assert rest[i - 1] == pairs[i];
      forall j | i - 1 < j < |rest| ensures rest[j].0 != rest[i - 1].0 {
        assert rest[j] == pairs[j + 1];
      }
      PutAllLastWins(Put(r, pairs[0].0, pairs[0].1), rest, i - 1);
    }
  }

  /** Writing the value a key already holds changes nothing. */
  lemma {:induction false} PutSame<V>(r: Record<V>, k: string, v: V)
    requires UniqueKeys(r) && Get(r, k) == Some(v)
    ensures Put(r, k, v) == r
  {
    var i := IndexOf(r, k).value;
    assert r[i] == (k, v);
  }

  /** Assigning only values the record already holds changes nothing. */
  lemma {:induction false} PutAllPresent<V>(r: Record<V>, pairs: seq<(string, V)>)
    requires UniqueKeys(r)
    requires forall i | 0 <= i < |pairs| :: Get(r, pairs[i].0) == Some(pairs[i].1)
    ensures PutAll(r, pairs) == r
    decreases |pairs|
  {
    if |pairs| > 0 {
      PutSame(r, pairs[0].0, pairs[0].1);
      assert forall i | 0 <= i < |pairs| - 1 :: pairs[1..][i] == pairs[i + 1];
      PutAllPresent(r, pairs[1..]);
    }
  }

  /** When every pair assigns the same value, each key a pair names ends with that value. */
  lemma {:induction false} PutAllConst<V>(r: Record<V>, pairs: seq<(string, V)>, v: V, i: nat)
    requires i < |pairs| && forall j | 0 <= j < |pairs| :: pairs[j].1 == v
    ensures Get(PutAll(r, pairs), pairs[i].0) == Some(v)
    decreases |pairs|
  {
    var rest := pairs[1..];
    forall j | 0 <= j < |rest| ensures rest[j].1 == v {
      assert rest[j] == pairs[j + 1];
    }
    if i > 0 {
      assert rest[i - 1] == pairs[i];
      PutAllConst(Put(r, pairs[0].0, pairs[0].1), rest, v, i - 1);
    } else if exists j | 0 < j < |pairs| :: pairs[j].0 == pairs[0].0 {
      var j :| 0 < j < |pairs| && pairs[j].0 == pairs[0].0;
      assert rest[j - 1] == pairs[j];
      PutAllConst(Put(r, pairs[0].0, pairs[0].1), rest, v, j - 1);
    } else {
      forall j | 0 <= j < |rest| ensures rest[j].0 != pairs[0].0 {
        assert rest[j] == pairs[j + 1];
      }
      PutAllKeeps(Put(r, pairs[0].0, pairs[0].1), rest, pairs[0].0);
    }
  }
}
