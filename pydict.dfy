/**
 * Python's insertion-ordered `dict`, as a list of key/value pairs without
 * repeated keys: lookup, assignment (`d[k] = v`), and the inverted dict
 * `{v: k for k, v in d.items()}`.
 */
module PyDict {
  import opened Wrappers

  /** Keys and values are strings, as in the Morse key. */
  type Dict = seq<(string, string)>

  /** No key occurs twice: what every dict built by `Put` satisfies. */
  ghost predicate KeysUnique(d: Dict)
  {
    forall i, j :: 0 <= i < j < |d| ==> d[i].0 != d[j].0
  }

  /** `d[k]`, or `None` where Python raises `KeyError`. */
  function Get(d: Dict, k: string): (r: Option<string>)
    ensures r.None? <==> forall i :: 0 <= i < |d| ==> d[i].0 != k
    ensures r.Some? ==> exists i :: 0 <= i < |d| && d[i] == (k, r.value)
  {
    if d == [] then None
    else if d[0].0 == k then Some(d[0].1)
    else
      var r := Get(d[1..], k);
      assert r.Some? ==> exists i :: 0 <= i < |d[1..]| && d[1..][i] == (k, r.value) && d[i + 1] == (k, r.value);
      r
  }

  /** In a dict, a pair present is the one lookup finds. */
  lemma GetPair(d: Dict, i: nat)
    requires KeysUnique(d) && i < |d|
    ensures Get(d, d[i].0) == Some(d[i].1)
  {
    if i > 0 && d[0].0 != d[i].0 {
      GetPair(d[1..], i - 1);
    }
  }

  /** The keys in insertion order. */
  function Keys(d: Dict): (r: seq<string>)
    ensures |r| == |d| && forall i :: 0 <= i < |d| ==> r[i] == d[i].0
  {
    if d == [] then [] else [d[0].0] + Keys(d[1..])
  }

  /**
   * `d[k] = v`: overwrites the value of a present key where it stands, and
   * appends a new key at the end.
   */
  function Put(d: Dict, k: string, v: string): Dict
  {
    if d == [] then [(k, v)]
    else if d[0].0 == k then [(k, v)] + d[1..]
    else [d[0]] + Put(d[1..], k, v)
  }

  /** After `d[k] = v`, `d[k]` is `v` and every other key looks up as before. */
  lemma {:induction false} PutGet(d: Dict, k: string, v: string, k': string)
    ensures Get(Put(d, k, v), k') == if k' == k then Some(v) else Get(d, k')
  {
    if d != [] && d[0].0 != k {
      PutGet(d[1..], k, v, k');
    }
  }

  /** Assignment keeps the insertion order of the keys; a new key goes last. */
  lemma {:induction false} PutKeys(d: Dict, k: string, v: string)
    ensures Keys(Put(d, k, v)) == if k in Keys(d) then Keys(d) else Keys(d) + [k]
  {
    if d == [] {
    } else if d[0].0 == k {
      KeysCons((k, v), d[1..]);
      KeysCons(d[0], d[1..]);
      assert d == [d[0]] + d[1..];
    } else {
      PutKeys(d[1..], k, v);
      var rest, kd := Keys(Put(d[1..], k, v)), Keys(d[1..]);
      KeysCons(d[0], Put(d[1..], k, v));
      KeysCons(d[0], d[1..]);
      assert d == [d[0]] + d[1..];
      assert k in Keys(d) <==> k in kd;
      if k !in kd {
        assert [d[0].0] + (kd + [k]) == ([d[0].0] + kd) + [k];
      }
    }
  }

  /** The keys of a dict with a pair put in front. */
  lemma KeysCons(x: (string, string), d: Dict)
    ensures Keys([x] + d) == [x.0] + Keys(d)
  {
    assert ([x] + d)[1..] == d;
  }

  /** Assignment never repeats a key. */
  lemma PutKeysUnique(d: Dict, k: string, v: string)
    requires KeysUnique(d)
    ensures KeysUnique(Put(d, k, v))
  {
    PutKeys(d, k, v);
    var r := Put(d, k, v);
    forall i, j | 0 <= i < j < |r|
      ensures r[i].0 != r[j].0
    {
      assert r[i].0 == Keys(r)[i] && r[j].0 == Keys(r)[j];
      if j < |d| {
        assert Keys(r)[i] == d[i].0 && Keys(r)[j] == d[j].0;
      } else {
        assert Keys(r)[i] == Keys(d)[i] == d[i].0;
      }
    }
  }

  /** The key of the last pair holding value `v`: the one the inverted dict keeps. */
  function LastKeyWith(d: Dict, v: string): (r: Option<string>)
    ensures r.Some? ==> exists i :: 0 <= i < |d| && d[i] == (r.value, v) && forall j :: i < j < |d| ==> d[j].1 != v
    ensures r.None? <==> forall i :: 0 <= i < |d| ==> d[i].1 != v
  {
    if d == [] then None
    else if d[|d| - 1].1 == v then Some(d[|d| - 1].0)
    else
      var r := LastKeyWith(d[..|d| - 1], v);
      assert r.Some? ==> exists i :: 0 <= i < |d| - 1 && d[..|d| - 1][i] == (r.value, v) && d[i] == (r.value, v)
                                     && forall j :: i < j < |d| - 1 ==> d[j].1 != v;
      r
  }

  /** `{v: k for k, v in d.items()}`: pairs inserted in order, so a later key overwrites an earlier one. */
  function Invert(d: Dict): Dict
  {
    if d == [] then []
    else Put(Invert(d[..|d| - 1]), d[|d| - 1].1, d[|d| - 1].0)
  }

  /** The inverted dict is a dict: no value of `d` becomes a key twice. */
  lemma {:induction false} InvertKeysUnique(d: Dict)
    ensures KeysUnique(Invert(d))
  {
    if d != [] {
      InvertKeysUnique(d[..|d| - 1]);
      PutKeysUnique(Invert(d[..|d| - 1]), d[|d| - 1].1, d[|d| - 1].0);
    }
  }

  /** Looking a value up in the inverted dict finds the last key holding it. */
  lemma {:induction false} InvertGet(d: Dict, v: string)
    ensures Get(Invert(d), v) == LastKeyWith(d, v)
  {
    if d != [] {
      InvertGet(d[..|d| - 1], v);
      PutGet(Invert(d[..|d| - 1]), d[|d| - 1].1, d[|d| - 1].0, v);
    }
  }

  /** No value occurs twice. */
  ghost predicate ValuesUnique(d: Dict)
  {
    forall i, j :: 0 <= i < j < |d| ==> d[i].1 != d[j].1
  }

  /**
   * When no two keys share a value, the inverted dict maps a value back to a
   * key exactly when the dict maps that key to it.
   */
  lemma InvertInverse(d: Dict, k: string, v: string)
    requires KeysUnique(d) && ValuesUnique(d)
    ensures Get(Invert(d), v) == Some(k) <==> Get(d, k) == Some(v)
  {
    InvertGet(d, v);
    if Get(d, k) == Some(v) {
      var i :| 0 <= i < |d| && d[i] == (k, v);
      var r := LastKeyWith(d, v);
      var i' :| 0 <= i' < |d| && d[i'] == (r.value, v) && forall j :: i' < j < |d| ==> d[j].1 != v;
      assert i' == i;
    }
    if Get(Invert(d), v) == Some(k) {
      var i :| 0 <= i < |d| && d[i] == (k, v) && forall j :: i < j < |d| ==> d[j].1 != v;
      GetPair(d, i);
    }
  }
}
