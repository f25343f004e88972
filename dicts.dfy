/**
 * Python dictionaries with string keys, as their items in insertion order (the order in which
 * a `for ... in d.items()` loop visits them).
 */
module Dicts {

  type Dict<V> = seq<(string, V)>

  function Keys<V>(d: Dict<V>): set<string> {
    set i | 0 <= i < |d| :: d[i].0
  }

  /** Every key occurs once, as in any dictionary built by assignments. */
  predicate Distinct<V>(d: Dict<V>) {
    forall i, j | 0 <= i < j < |d| :: d[i].0 != d[j].0
  }

  /** Position of `k` in `d`, or `|d|` when `k` is not a key. */
  function IndexOf<V>(d: Dict<V>, k: string): (i: nat)
    ensures i <= |d|
    ensures i < |d| ==> d[i].0 == k
    ensures forall j | 0 <= j < i :: d[j].0 != k
    ensures i == |d| <==> k !in Keys(d)
  {
    if d == [] then 0
    else if d[0].0 == k then 0
    else
      var j := IndexOf(d[1..], k);
      assert forall l | 0 < l < |d| :: d[l] == d[1..][l - 1];
      assert k in Keys(d[1..]) ==> k in Keys(d);
      j + 1
  }

  /** `d[k]` for a key of `d`. */
  function Get<V>(d: Dict<V>, k: string): V
    requires k in Keys(d)
  {
    d[IndexOf(d, k)].1
  }

  /** `d[k] = v`: an existing key keeps its place and takes the new value; a new key goes last. */
  function Put<V>(d: Dict<V>, k: string, v: V): (r: Dict<V>)
    ensures Keys(r) == Keys(d) + {k}
    ensures Get(r, k) == v
    ensures forall k' | k' in Keys(d) && k' != k :: Get(r, k') == Get(d, k')
    ensures k !in Keys(d) ==> r == d + [(k, v)]
    ensures forall i | 0 <= i < |r| :: r[i] == (k, v) || r[i] in d
    ensures Distinct(d) ==> Distinct(r)
  {
    var i := IndexOf(d, k);
    if i < |d| then
      Replaced(d, i, k, v);
      d[i := (k, v)]
    else
      Appended(d, k, v);
      d + [(k, v)]
  }

  /** Assigning to an existing key replaces its item in place. */
  lemma Replaced<V>(d: Dict<V>, i: nat, k: string, v: V)
    requires i < |d| && i == IndexOf(d, k)
    ensures var r := d[i := (k, v)];
      && Keys(r) == Keys(d)
      && k in Keys(r) && Get(r, k) == v
      && (forall k' | k' in Keys(d) && k' != k :: Get(r, k') == Get(d, k'))
      && (forall j | 0 <= j < |r| :: r[j] == (k, v) || r[j] in d)
      && (Distinct(d) ==> Distinct(r))
  {
    var r := d[i := (k, v)];
    assert forall j | 0 <= j < |d| :: r[j].0 == d[j].0;
    assert Keys(r) == Keys(d);
    forall k' | k' in Keys(d)
      ensures IndexOf(r, k') == IndexOf(d, k')
    {
      IndexesAgree(d, r, k');
    }
  }

  /** Assigning to a new key appends an item. */
  lemma Appended<V>(d: Dict<V>, k: string, v: V)
    requires k !in Keys(d)
    ensures var r := d + [(k, v)];
      && Keys(r) == Keys(d) + {k}
      && Get(r, k) == v
      && (forall k' | k' in Keys(d) :: Get(r, k') == Get(d, k'))
      && (Distinct(d) ==> Distinct(r))
  {
    var r := d + [(k, v)];
    assert r[|d|].0 == k;
    assert forall j | 0 <= j < |d| :: r[j] == d[j];
    forall k' | k' in Keys(d)
      ensures IndexOf(r, k') == IndexOf(d, k')
    {
      assert r[..|d|] == d;
      IndexPrefix(d, r, k');
    }
  }

  /** Two item lists with the same keys in the same places put each key at the same index. */
  lemma {:induction false} IndexesAgree<V>(d: Dict<V>, e: Dict<V>, k: string)
    requires |d| == |e| && forall j | 0 <= j < |d| :: d[j].0 == e[j].0
    ensures IndexOf(d, k) == IndexOf(e, k)
  {
    assert forall j | 0 <= j < |d| :: (d[j].0 == k) == (e[j].0 == k);
  }

  /** Extending a dictionary does not move a key that it already has. */
  lemma IndexPrefix<V>(d: Dict<V>, r: Dict<V>, k: string)
    requires |d| <= |r| && r[..|d|] == d && k in Keys(d)
    ensures IndexOf(r, k) == IndexOf(d, k)
  {
    assert forall j | 0 <= j < |d| :: r[j] == d[j];
  }

  /** In a dictionary with distinct keys, looking up the key of an item gives that item's value. */
  lemma GetAt<V>(d: Dict<V>, i: nat)
    requires Distinct(d) && i < |d|
    ensures d[i].0 in Keys(d) && Get(d, d[i].0) == d[i].1
  {
    assert IndexOf(d, d[i].0) == i;
  }
}
