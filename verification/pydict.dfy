/**
 * A Python `dict` as the pipeline uses it: keys kept in insertion order, so
 * that `.values()` walks the entries in the order they were first assigned.
 */
module PyDict {
  import opened Wrappers

  /** The entries of a dict, oldest key first. */
  type Dict<K, V> = seq<(K, V)>

  function Keys<K, V>(d: Dict<K, V>): set<K> {
    set i | 0 <= i < |d| :: d[i].0
  }

  /** `list(d.keys())`. */
  function KeySeq<K, V>(d: Dict<K, V>): (ks: seq<K>)
    ensures |ks| == |d|
  {
    seq(|d|, i requires 0 <= i < |d| => d[i].0)
  }

  /** `list(d.values())`. */
  function Values<K, V>(d: Dict<K, V>): (vs: seq<V>)
    ensures |vs| == |d|
    ensures forall i :: 0 <= i < |d| ==> vs[i] == d[i].1
  {
    seq(|d|, i requires 0 <= i < |d| => d[i].1)
  }

  /** No key is listed twice: every dict the pipeline builds satisfies this. */
  predicate DistinctKeys<K(==), V>(d: Dict<K, V>) {
    forall i, j :: 0 <= i < j < |d| ==> d[i].0 != d[j].0
  }

  /** Where `k` sits among the entries, or -1 when it is not a key. */
  function IndexOf<K(==), V>(d: Dict<K, V>, k: K): (i: int)
    ensures -1 <= i < |d|
    ensures i >= 0 ==> d[i].0 == k
    ensures forall j :: 0 <= j < |d| && (i < 0 || j < i) ==> d[j].0 != k
  {
    if |d| == 0 then -1
    else if d[0].0 == k then 0
    else
      var i := IndexOf(d[1..], k);
      if i < 0 then -1 else i + 1
  }

  /** `d.get(k)`. */
  function Get<K(==), V>(d: Dict<K, V>, k: K): (r: Option<V>)
    ensures r.Some? <==> k in Keys(d)
  {
    var i := IndexOf(d, k);
    if i < 0 then
      assert forall j :: 0 <= j < |d| ==> d[j].0 != k;
      None
    else
      Some(d[i].1)
  }

  /** `d[k] = v`: an existing key keeps its place and takes the new value, a
      new key goes to the end; no other entry changes. */
  function Assign<K(==,!new), V>(d: Dict<K, V>, k: K, v: V): (r: Dict<K, V>)
    ensures Keys(r) == Keys(d) + {k}
    ensures Get(r, k) == Some(v)
    ensures forall j :: j != k ==> Get(r, j) == Get(d, j)
    ensures DistinctKeys(d) ==> DistinctKeys(r)
    ensures k !in Keys(d) ==> r == d + [(k, v)]
    ensures k in Keys(d) ==> KeySeq(r) == KeySeq(d)
  {
    var i := IndexOf(d, k);
    if i < 0 then
      var r := d + [(k, v)];
      AppendFacts(d, (k, v));
      r
    else
      var r := d[i := (k, v)];
      assert KeySeq(r) == KeySeq(d);
      SameKeysFacts(r, d);
      r
  }

  /** What appending an entry for a new key does to lookups and the key set. */
  lemma AppendFacts<K, V>(d: Dict<K, V>, e: (K, V))
    requires e.0 !in Keys(d)
    ensures Keys(d + [e]) == Keys(d) + {e.0}
    ensures forall j :: j != e.0 ==> IndexOf(d + [e], j) == IndexOf(d, j)
    ensures IndexOf(d + [e], e.0) == |d|
  {
    var r := d + [e];
    forall j | j != e.0 ensures IndexOf(r, j) == IndexOf(d, j) {
      IndexOfAppend(d, e, j);
    }
    assert r[|d|].0 == e.0;
    forall x | x in Keys(r) ensures x in Keys(d) + {e.0} {
      var i :| 0 <= i < |r| && r[i].0 == x;
      if i < |d| {
        assert d[i].0 == x;
      }
    }
    forall x | x in Keys(d) ensures x in Keys(r) {
      var i :| 0 <= i < |d| && d[i].0 == x;
      assert r[i].0 == x;
    }
  }

  /** Two entry lists with the same keys in the same order answer every key
      lookup alike. */
  lemma SameKeysFacts<K, V>(a: Dict<K, V>, b: Dict<K, V>)
    requires KeySeq(a) == KeySeq(b)
    ensures Keys(a) == Keys(b)
    ensures forall j :: IndexOf(a, j) == IndexOf(b, j)
  {
    forall j ensures IndexOf(a, j) == IndexOf(b, j) {
      IndexOfSameKeys(a, b, j);
    }
    assert forall i :: 0 <= i < |a| ==> a[i].0 == KeySeq(a)[i] == KeySeq(b)[i] == b[i].0;
  }

  /** Appending an entry for another key does not move a key's first position. */
  lemma IndexOfAppend<K, V>(d: Dict<K, V>, e: (K, V), k: K)
    requires e.0 != k
    ensures IndexOf(d + [e], k) == IndexOf(d, k)
  {
    var a := IndexOf(d + [e], k);
    var b := IndexOf(d, k);
    assert (d + [e])[|d|].0 != k;
    if b >= 0 {
      assert (d + [e])[b].0 == k;
    }
    if a >= 0 {
      assert a < |d|;
      assert d[a].0 == k;
    }
  }

  /** Where a key first occurs depends only on the key sequence. */
  lemma IndexOfSameKeys<K, V>(a: Dict<K, V>, b: Dict<K, V>, k: K)
    requires KeySeq(a) == KeySeq(b)
    ensures IndexOf(a, k) == IndexOf(b, k)
  {
    assert forall i :: 0 <= i < |a| ==> a[i].0 == KeySeq(a)[i] == KeySeq(b)[i] == b[i].0;
    var x := IndexOf(a, k);
    var y := IndexOf(b, k);
    if x >= 0 {
      assert b[x].0 == k;
    }
    if y >= 0 {
      assert a[y].0 == k;
    }
  }

  /** The slide numbers 1 to `n`. */
  function NumberRange(n: int): (r: set<int>)
    ensures forall k :: k in r <==> 1 <= k <= n
  {
    if n <= 0 then {} else NumberRange(n - 1) + {n}
  }

  /** `for i, v in enumerate(vs, start=1): d[i] = v`: keys 1 to `|vs|` take
      the values in order, every other key keeps its value. */
  function AssignNumbered<V>(d: Dict<int, V>, vs: seq<V>): (r: Dict<int, V>)
    ensures Keys(r) == Keys(d) + NumberRange(|vs|)
    ensures forall i :: 0 <= i < |vs| ==> Get(r, i + 1) == Some(vs[i])
    ensures forall k :: !(1 <= k <= |vs|) ==> Get(r, k) == Get(d, k)
    ensures DistinctKeys(d) ==> DistinctKeys(r)
    decreases |vs|
  {
    if |vs| == 0 then d
    else
      var prev := AssignNumbered(d, vs[..|vs| - 1]);
      var r := Assign(prev, |vs|, vs[|vs| - 1]);
      AssignNumberedStep(d, vs, vs[..|vs| - 1], prev, r);
      r
  }

  /** The last turn of the numbering loop keeps the loop's promises. */
  lemma AssignNumberedStep<V>(d: Dict<int, V>, vs: seq<V>, pre: seq<V>, prev: Dict<int, V>, r: Dict<int, V>)
    requires |vs| > 0 && pre == vs[..|vs| - 1]
    requires Keys(prev) == Keys(d) + NumberRange(|vs| - 1)
    requires forall i :: 0 <= i < |pre| ==> Get(prev, i + 1) == Some(pre[i])
    requires forall k :: !(1 <= k <= |vs| - 1) ==> Get(prev, k) == Get(d, k)
    requires Keys(r) == Keys(prev) + {|vs|}
    requires Get(r, |vs|) == Some(vs[|vs| - 1])
    requires forall j :: j != |vs| ==> Get(r, j) == Get(prev, j)
    ensures Keys(r) == Keys(d) + NumberRange(|vs|)
    ensures forall i :: 0 <= i < |vs| ==> Get(r, i + 1) == Some(vs[i])
    ensures forall k :: !(1 <= k <= |vs|) ==> Get(r, k) == Get(d, k)
  {
    NumberedKeys(Keys(d), Keys(prev), Keys(r), |vs|);
    NumberedSlots(vs, pre, prev, r);
  }

  /** Numbering one more value adds its number to the key set. */
  lemma NumberedKeys(kd: set<int>, kp: set<int>, kr: set<int>, n: int)
    requires n >= 1
    requires kp == kd + NumberRange(n - 1)
    requires kr == kp + {n}
    ensures kr == kd + NumberRange(n)
  {
    assert NumberRange(n) == NumberRange(n - 1) + {n};
  }

  /** Numbering one more value keeps the earlier slots and fills the new one. */
  lemma NumberedSlots<V>(vs: seq<V>, pre: seq<V>, prev: Dict<int, V>, r: Dict<int, V>)
    requires |vs| > 0 && pre == vs[..|vs| - 1]
    requires forall i :: 0 <= i < |pre| ==> Get(prev, i + 1) == Some(pre[i])
    requires Get(r, |vs|) == Some(vs[|vs| - 1])
    requires forall j :: j != |vs| ==> Get(r, j) == Get(prev, j)
    ensures forall i :: 0 <= i < |vs| ==> Get(r, i + 1) == Some(vs[i])
  {
    forall i | 0 <= i < |vs| ensures Get(r, i + 1) == Some(vs[i]) {
      if i < |pre| {
        assert pre[i] == vs[i];
      }
    }
  }

  /** The numbering loop after `i + 1` turns is its state after `i` turns with
      value `i` assigned under `i + 1`. */
  lemma AssignNumberedPrefix<V>(d: Dict<int, V>, vs: seq<V>, i: nat)
    requires i < |vs|
    ensures AssignNumbered(d, vs[..i + 1]) == Assign(AssignNumbered(d, vs[..i]), i + 1, vs[i])
  {
    assert vs[..i + 1][..i] == vs[..i];
  }
}
