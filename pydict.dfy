/** A Python `dict` with string keys, as the interpreter keeps it: an
    insertion-ordered list of key/value pairs whose keys are distinct.
    Assigning to a key that is present overwrites its value where it stands;
    assigning to a new key appends the pair at the end. */
module PyDict {

  type Dict<V> = seq<(string, V)>

  /** The keys in insertion order (what `list(d)` yields). */
  function Keys<V>(d: Dict<V>): (ks: seq<string>)
    ensures |ks| == |d|
    ensures forall i :: 0 <= i < |d| ==> ks[i] == d[i].0
  {
    seq(|d|, i requires 0 <= i < |d| => d[i].0)
  }

  /** No key occurs twice; every dictionary this model builds keeps this. */
  predicate UniqueKeys<V>(d: Dict<V>) {
    forall i, j :: 0 <= i < j < |d| ==> d[i].0 != d[j].0
  }

  /** The position of `k`: the first pair whose key is `k`. */
  function IndexOf<V>(d: Dict<V>, k: string): (i: nat)
    requires k in Keys(d)
    ensures i < |d| && d[i].0 == k
    ensures forall j :: 0 <= j < i ==> d[j].0 != k
  {
    if d[0].0 == k then 0
    else
      assert Keys(d) == [d[0].0] + Keys(d[1..]);
      1 + IndexOf(d[1..], k)
  }

  /** `d[k]` for a present key. */
  function Get<V>(d: Dict<V>, k: string): (v: V)
    requires k in Keys(d)
    ensures exists i :: 0 <= i < |d| && d[i] == (k, v)
  {
    d[IndexOf(d, k)].1
  }

  /** `d[k] = v`. */
  function Put<V>(d: Dict<V>, k: string, v: V): (r: Dict<V>)
    ensures k in Keys(r)
    ensures Keys(r) == if k in Keys(d) then Keys(d) else Keys(d) + [k]
  {
    if k in Keys(d) then
      var i := IndexOf(d, k);
      assert Keys(d[i := (k, v)])[i] == k;
      assert Keys(d[i := (k, v)]) == Keys(d);
      d[i := (k, v)]
    else
      assert Keys(d + [(k, v)])[|d|] == k;
      d + [(k, v)]
  }

  /** After `d[k] = v`, reading `k` gives `v`, every other key keeps its
      value, and the keys stay distinct. */
  lemma PutGet<V>(d: Dict<V>, k: string, v: V)
    requires UniqueKeys(d)
    ensures UniqueKeys(Put(d, k, v))
    ensures Get(Put(d, k, v), k) == v
    ensures forall k' :: k' != k && k' in Keys(d) ==> k' in Keys(Put(d, k, v)) && Get(Put(d, k, v), k') == Get(d, k')
  {
    var r := Put(d, k, v);
    forall k' | k' != k && k' in Keys(d)
      ensures k' in Keys(r) && Get(r, k') == Get(d, k')
    {
      var i := IndexOf(d, k');
      assert r[i] == d[i];
      assert IndexOf(r, k') == i;
    }
    if k in Keys(d) {
      assert IndexOf(r, k) == IndexOf(d, k);
    } else {
      assert IndexOf(r, k) == |d|;
    }
  }

  /** After `d[k] = v`, every other key was already there with the value
      it still has. */
  lemma PutOthers<V>(d: Dict<V>, k: string, v: V)
    requires UniqueKeys(d)
    ensures forall k' :: k' != k && k' in Keys(Put(d, k, v)) ==> k' in Keys(d) && Get(Put(d, k, v), k') == Get(d, k')
  {
    PutGet(d, k, v);
    forall k' | k' != k && k' in Keys(Put(d, k, v)) ensures k' in Keys(d) {
      if k !in Keys(d) {
        assert k' in Keys(d) + [k];
      }
    }
  }

  /** The dictionary seen as a Dafny map, forgetting the order. */
  function ToMap<V>(d: Dict<V>): (m: map<string, V>)
    ensures m.Keys == set k | k in Keys(d)
  {
    map k | k in Keys(d) :: Get(d, k)
  }

  /** Assignment through the ordered dictionary is map update. */
  lemma PutIsMapUpdate<V>(d: Dict<V>, k: string, v: V)
    requires UniqueKeys(d)
    ensures ToMap(Put(d, k, v)) == ToMap(d)[k := v]
  {
    PutGet(d, k, v);
  }

  /** `sum(d.values())`, exact over the reals. */
  function SumValues(d: Dict<real>): real {
    if d == [] then 0.0 else d[0].1 + SumValues(d[1..])
  }

  predicate NonNegativeValues(d: Dict<real>) {
    forall i :: 0 <= i < |d| ==> d[i].1 >= 0.0
  }

  /** Storing a non-negative value keeps every value non-negative. */
  lemma PutNonNegative(d: Dict<real>, k: string, v: real)
    requires NonNegativeValues(d) && v >= 0.0
    ensures NonNegativeValues(Put(d, k, v))
  {
  }

  /** A sum of non-negative values is non-negative, and it is zero exactly
      when every value is zero (so `sum(...) or x` falls back to `x` both for
      an empty dictionary and for one whose values are all 0). */
  lemma {:induction false} SumOfNonNegative(d: Dict<real>)
    requires NonNegativeValues(d)
    ensures SumValues(d) >= 0.0
    ensures SumValues(d) == 0.0 <==> forall i :: 0 <= i < |d| ==> d[i].1 == 0.0
  {
    if d != [] {
      SumOfNonNegative(d[1..]);
      assert forall i :: 1 <= i < |d| ==> d[i].1 == d[1..][i - 1].1;
    }
  }
}
