/**
 A Python `dict` with string keys, as the middleware builds and reads them:
 an insertion-ordered list of (key, value) pairs whose keys are distinct.
 Assigning to an existing key keeps its position; a new key goes last.
 */
module PyDict {
  import opened Wrappers

  type Dict<V> = seq<(string, V)>

  /** The keys in insertion order (the order `json.dumps` writes them). */
  function Keys<V>(d: Dict<V>): seq<string> {
    if d == [] then [] else [d[0].0] + Keys(d[1..])
  }

  /** `d.get(k)`: the value stored under the first (for a dict: the only) pair with key `k`, or None. */
  function Get<V>(d: Dict<V>, k: string): Option<V> {
    if d == [] then None
    else if d[0].0 == k then Some(d[0].1)
    else Get(d[1..], k)
  }

  /** `k in d`. */
  predicate Contains<V>(d: Dict<V>, k: string) {
    Get(d, k).Some?
  }

  /** No key occurs twice: what every Python dict satisfies. */
  predicate Distinct<V>(d: Dict<V>) {
    d == [] || (!Contains(d[1..], d[0].0) && Distinct(d[1..]))
  }

  /** `d[k] = v`. */
  function Set<V>(d: Dict<V>, k: string, v: V): (r: Dict<V>)
    ensures Get(r, k) == Some(v)
    ensures forall k' :: k' != k ==> Get(r, k') == Get(d, k')
    ensures Contains(d, k) ==> Keys(r) == Keys(d)
    ensures !Contains(d, k) ==> Keys(r) == Keys(d) + [k]
    ensures Distinct(d) ==> Distinct(r)
  {
    if d == [] then [(k, v)]
    else if d[0].0 == k then [(k, v)] + d[1..]
    else
      var rest := Set(d[1..], k, v);
      assert ([d[0]] + rest)[1..] == rest;
      [d[0]] + rest
  }

  /** After `d[k] = v` the keys present are those of `d` and `k`. */
  lemma SetContains<V>(d: Dict<V>, k: string, v: V, k': string)
    ensures Contains(Set(d, k, v), k') <==> k' == k || Contains(d, k')
  {
    if k' != k {
      assert Get(Set(d, k, v), k') == Get(d, k');
    }
  }
}
