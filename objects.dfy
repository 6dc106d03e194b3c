/**
 * JSON values as both sides of the system see them, and dictionaries that keep
 * insertion order: a Python `dict` built by `d[k] = v`, a JavaScript object built
 * by spreading and assigning. A dictionary is its list of entries; assigning an
 * existing key replaces its value where it stands, a new key goes at the end.
 */
module Objects {
  import opened Wrappers

  /** The JSON values that occur in a result file: `null`, strings and objects. */
  datatype Json = Null | Str(s: string) | Obj(fields: seq<(string, Json)>)

  /** The fields of one JSON object, in insertion order. */
  type Fields = seq<(string, Json)>

  function Keys<V>(d: seq<(string, V)>): (ks: seq<string>)
    ensures |ks| == |d| && forall i :: 0 <= i < |d| ==> ks[i] == d[i].0
  {
    seq(|d|, i requires 0 <= i < |d| => d[i].0)
  }

  /** No key occurs twice, as in every dictionary the source builds. */
  predicate DistinctKeys<V>(d: seq<(string, V)>) {
    forall i, j :: 0 <= i < j < |d| ==> d[i].0 != d[j].0
  }

  /** `d.get(k)` / `d[k]`: the value stored under `k`, if any. */
  function Get<V>(d: seq<(string, V)>, k: string): (r: Option<V>)
    ensures r.Some? ==> (k, r.value) in d
  {
    if d == [] then None else if d[0].0 == k then Some(d[0].1) else Get(d[1..], k)
  }

  /** A key has a value exactly when it is one of the keys, and then its first entry holds it. */
  lemma {:induction false} GetKeys<V>(d: seq<(string, V)>, k: string)
    ensures Get(d, k).None? <==> k !in Keys(d)
    ensures Get(d, k).Some? ==> exists i :: 0 <= i < |d| && d[i] == (k, Get(d, k).value) && k !in Keys(d[..i])
  {
    if d != [] {
      GetKeys(d[1..], k);
      assert Keys(d) == [d[0].0] + Keys(d[1..]);
      if d[0].0 == k {
        assert d[0] == (k, Get(d, k).value) && k !in Keys(d[..0]);
      } else if Get(d, k).Some? {
        var i :| 0 <= i < |d[1..]| && d[1..][i] == (k, Get(d, k).value) && k !in Keys(d[1..][..i]);
        assert Keys(d[..i + 1]) == [d[0].0] + Keys(d[1..][..i]);
        assert d[i + 1] == (k, Get(d, k).value);
      }
    }
  }

  /** `d[k] = v`: replace the value of `k` in place, or append a new entry. */
  function Put<V>(d: seq<(string, V)>, k: string, v: V): (r: seq<(string, V)>)
    ensures Get(r, k) == Some(v)
    ensures forall k' {:trigger Get(r, k')} :: k' != k ==> Get(r, k') == Get(d, k')
  {
    if d == [] then [(k, v)]
    else if d[0].0 == k then [(k, v)] + d[1..]
    else
      var t := Put(d[1..], k, v);
      var r := [d[0]] + t;
      assert forall k' :: Get(r, k') == if k' == d[0].0 then Some(d[0].1) else Get(t, k');
      r
  }

  lemma KeysCons<V>(x: (string, V), t: seq<(string, V)>)
    ensures Keys([x] + t) == [x.0] + Keys(t)
  {
    var l, r := Keys([x] + t), [x.0] + Keys(t);
    forall i | 0 <= i < |l| ensures l[i] == r[i] {
      if i > 0 {
        assert ([x] + t)[i] == t[i - 1];
      }
    }
  }

  /** Assignment keeps the keys where they stand and appends a new key at the end. */
  lemma {:induction false} PutKeys<V>(d: seq<(string, V)>, k: string, v: V)
    ensures Keys(Put(d, k, v)) == if k in Keys(d) then Keys(d) else Keys(d) + [k]
  {
    if d != [] {
      assert d == [d[0]] + d[1..];
      KeysCons(d[0], d[1..]);
      if d[0].0 == k {
        KeysCons((k, v), d[1..]);
      } else {
        PutKeys(d[1..], k, v);
        KeysCons(d[0], Put(d[1..], k, v));
        assert k in Keys(d) <==> k in Keys(d[1..]);
      }
    }
  }

  /** Assigning a key that is not there appends its entry. */
  lemma {:induction false} PutAppends<V>(d: seq<(string, V)>, k: string, v: V)
    requires forall i :: 0 <= i < |d| ==> d[i].0 != k
    ensures Put(d, k, v) == d + [(k, v)]
  {
    if d != [] {
      PutAppends(d[1..], k, v);
      assert d == [d[0]] + d[1..];
    }
  }

  /** In a dictionary without duplicates every entry is found under its key. */
  lemma {:induction false} GetAt<V>(d: seq<(string, V)>, i: nat)
    requires DistinctKeys(d) && i < |d|
    ensures Get(d, d[i].0) == Some(d[i].1)
  {
    if i > 0 {
      assert DistinctKeys(d[1..]);
      GetAt(d[1..], i - 1);
    }
  }

  /** Assignment never creates a duplicate key. */
  lemma PutDistinct<V>(d: seq<(string, V)>, k: string, v: V)
    requires DistinctKeys(d)
    ensures DistinctKeys(Put(d, k, v))
  {
    var r := Put(d, k, v);
    var ks := Keys(d);
    PutKeys(d, k, v);
    assert forall i, j :: 0 <= i < j < |d| ==> ks[i] != ks[j];
    assert forall i, j :: 0 <= i < j < |r| ==> Keys(r)[i] != Keys(r)[j];
  }

  /** Assigning the value a key already holds changes nothing. */
  lemma {:induction false} PutSame<V>(d: seq<(string, V)>, k: string, v: V)
    requires Get(d, k) == Some(v)
    ensures Put(d, k, v) == d
  {
    if d[0].0 != k {
      PutSame(d[1..], k, v);
    } else {
      assert d == [d[0]] + d[1..];
    }
  }

  /** Assigning the same key twice is the same as assigning it once, with the last value. */
  lemma {:induction false} PutPut<V>(d: seq<(string, V)>, k: string, v: V, w: V)
    ensures Put(Put(d, k, v), k, w) == Put(d, k, w)
  {
    if d != [] && d[0].0 != k {
      PutPut(d[1..], k, v, w);
    }
  }

  /** JavaScript truthiness of a JSON value: `null` and `""` are falsy, objects are not. */
  predicate JsTruthy(v: Json) {
    match v
    case Null => false
    case Str(s) => s != ""
    case Obj(_) => true
  }

  /** Python truthiness of a JSON value: `None`, `""` and `{}` are falsy. */
  predicate PyTruthy(v: Json) {
    match v
    case Null => false
    case Str(s) => s != ""
    case Obj(f) => f != []
  }

  /**
   * `item.details` seen as an object by the viewer: its fields when it is an
   * object, and no fields when it is missing or `null`.
   */
  function DetailsFields(item: Fields): Fields
  {
    var d := Get(item, "details");
    if d.Some? && d.value.Obj? then d.value.fields else []
  }
}
