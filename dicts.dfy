/**
 * A Python dict with string keys: entries in insertion order, each key at most once.
 * Assigning to a key that is already present replaces its value where it stands.
 */
module Dicts {
  import opened Options

  type Dict<V> = seq<(string, V)>

  function Keys<V>(d: Dict<V>): set<string> {
    set i | 0 <= i < |d| :: d[i].0
  }

  lemma KeysCons<V>(e: (string, V), d: Dict<V>)
    ensures Keys([e] + d) == {e.0} + Keys(d)
  {
    var c := [e] + d;
    forall x | x in Keys(c) ensures x in {e.0} + Keys(d) {
      var i :| 0 <= i < |c| && c[i].0 == x;
      if i > 0 {
        assert d[i - 1].0 == x;
      }
    }
    forall x | x in {e.0} + Keys(d) ensures x in Keys(c) {
      if x == e.0 {
        assert c[0].0 == x;
      } else {
        var i :| 0 <= i < |d| && d[i].0 == x;
        assert c[i + 1].0 == x;
      }
    }
  }

  predicate UniqueKeys<V>(d: Dict<V>) {
    forall i, j :: 0 <= i < j < |d| ==> d[i].0 != d[j].0
  }

  /** `d.get(k)` */
  function Get<V>(d: Dict<V>, k: string): (r: Option<V>)
    ensures r.Some? <==> k in Keys(d)
    decreases |d|
  {
    if d == [] then None
    else if d[0].0 == k then Some(d[0].1)
    else
      assert d == [d[0]] + d[1..];
      KeysCons(d[0], d[1..]);
      Get(d[1..], k)
  }

  /** A lookup returns the value paired with the key at the first position that holds it. */
  lemma {:induction false} GetFirst<V>(d: Dict<V>, k: string)
    requires Get(d, k).Some?
    ensures exists i :: 0 <= i < |d| && d[i] == (k, Get(d, k).value) && forall j :: 0 <= j < i ==> d[j].0 != k
    decreases |d|
  {
    if d[0].0 != k {
      GetFirst(d[1..], k);
      var i :| 0 <= i < |d[1..]| && d[1..][i] == (k, Get(d[1..], k).value) && forall j :: 0 <= j < i ==> d[1..][j].0 != k;
      assert d[i + 1] == (k, Get(d, k).value) && forall j :: 0 <= j < i + 1 ==> d[j].0 != k;
    }
  }

  /** `d[k] = v` */
  function Put<V>(d: Dict<V>, k: string, v: V): (r: Dict<V>)
    ensures Get(r, k) == Some(v)
    ensures forall k' :: k' != k ==> Get(r, k') == Get(d, k')
    ensures Keys(r) == Keys(d) + {k}
    ensures UniqueKeys(d) ==> UniqueKeys(r)
    decreases |d|
  {
    if d == [] then [(k, v)]
    else
      assert d == [d[0]] + d[1..];
      KeysCons(d[0], d[1..]);
      if d[0].0 == k then
        var r := [(k, v)] + d[1..];
        KeysCons((k, v), d[1..]);
        r
      else
        var t := Put(d[1..], k, v);
        var r := [d[0]] + t;
        KeysCons(d[0], t);
        assert r[1..] == t;
        r
  }

  /**
   * Where the assignment puts the key: a key already present keeps its position and only
   * its value changes; a new key goes at the end.
   */
  lemma {:induction false} PutPlacement<V>(d: Dict<V>, k: string, v: V)
    ensures k in Keys(d) ==> |Put(d, k, v)| == |d| && forall i :: 0 <= i < |d| ==> Put(d, k, v)[i].0 == d[i].0
    ensures k !in Keys(d) ==> Put(d, k, v) == d + [(k, v)]
    decreases |d|
  {
    if d != [] {
      assert d == [d[0]] + d[1..];
      KeysCons(d[0], d[1..]);
      if d[0].0 != k {
        PutPlacement(d[1..], k, v);
        var t := Put(d[1..], k, v);
        assert Put(d, k, v) == [d[0]] + t;
        if k !in Keys(d) {
          assert [d[0]] + (d[1..] + [(k, v)]) == d + [(k, v)];
        }
      }
    }
  }
}
