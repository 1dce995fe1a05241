/**
  Python's `dict` with string keys: keys kept in insertion order, assignment to a present key
  replaces its value in place, assignment to a new key appends it.
*/
module OrderedDict {
  import opened Wrappers
  import Text
  import Seqs

  type Dict<V> = seq<(string, V)>

  /** `list(d.keys())` */
  function Keys<V>(d: Dict<V>): (ks: seq<string>)
    ensures |ks| == |d|
    ensures forall i :: 0 <= i < |d| ==> ks[i] == d[i].0
  {
    if d == [] then [] else [d[0].0] + Keys(d[1..])
  }

  /** The keys of pairs with one more pair at the end. */
  lemma KeysAppend<V>(ps: seq<(string, V)>, p: (string, V))
    ensures Keys(ps + [p]) == Keys(ps) + [p.0]
  {
    var ks := Keys(ps + [p]);
    assert forall i :: 0 <= i < |ps| ==> ks[i] == (ps + [p])[i].0 == ps[i].0;
  }

  /** What every Python dict satisfies: no key twice. */
  predicate UniqueKeys<V>(d: Dict<V>) {
    forall i, j :: 0 <= i < j < |d| ==> d[i].0 != d[j].0
  }

  /** `d.get(k)` */
  function Get<V>(d: Dict<V>, k: string): (r: Option<V>)
    ensures r.None? <==> k !in Keys(d)
    ensures UniqueKeys(d) ==> forall i :: 0 <= i < |d| && d[i].0 == k ==> r == Some(d[i].1)
  {
    if d == [] then None
    else if d[0].0 == k then Some(d[0].1)
    else Get(d[1..], k)
  }

  /** `d[k] = v` */
  function Put<V>(d: Dict<V>, k: string, v: V): (r: Dict<V>)
    ensures Keys(r) == if k in Keys(d) then Keys(d) else Keys(d) + [k]
    ensures forall k' :: Get(r, k') == if k' == k then Some(v) else Get(d, k')
    ensures UniqueKeys(d) ==> UniqueKeys(r)
  {
    if d == [] then [(k, v)]
    else if d[0].0 == k then [(k, v)] + d[1..]
    else
      var t := Put(d[1..], k, v);
      assert Keys(d) == [d[0].0] + Keys(d[1..]);
      [d[0]] + t
  }

  /** The dictionary built by assigning the pairs of `ps` one after another. */
  function PutAll<V>(ps: seq<(string, V)>): Dict<V> {
    if ps == [] then [] else Put(PutAll(ps[..|ps| - 1]), ps[|ps| - 1].0, ps[|ps| - 1].1)
  }

  /** Assigning one more pair assigns it to the dictionary built so far. */
  lemma PutAllStep<V>(ps: seq<(string, V)>, p: (string, V))
    ensures PutAll(ps + [p]) == Put(PutAll(ps), p.0, p.1)
  {
    assert (ps + [p])[..|ps|] == ps;
  }

  /** The value assigned last to `k` in `ps`, if any. */
  function LastValue<V>(ps: seq<(string, V)>, k: string): Option<V> {
    if ps == [] then None
    else if ps[|ps| - 1].0 == k then Some(ps[|ps| - 1].1)
    else LastValue(ps[..|ps| - 1], k)
  }

  /**
    Assigning pairs in turn yields a dictionary whose keys are the distinct keys
    in order of first assignment, each mapped to the value assigned last.
  */
  lemma {:induction false} PutAllSpec<V>(ps: seq<(string, V)>)
    ensures Keys(PutAll(ps)) == Text.Dedup(Keys(ps))
    ensures UniqueKeys(PutAll(ps))
    ensures forall k :: Get(PutAll(ps), k) == LastValue(ps, k)
  {
    if ps != [] {
      var init, k, v := ps[..|ps| - 1], ps[|ps| - 1].0, ps[|ps| - 1].1;
      var d := PutAll(init);
      PutAllSpec(init);
      assert PutAll(ps) == Put(d, k, v);
      var ks := Keys(ps);
      assert ks[..|ks| - 1] == Keys(init) && ks[|ks| - 1] == k;
      assert Text.Dedup(ks) == if k in Text.Dedup(Keys(init)) then Text.Dedup(Keys(init)) else Text.Dedup(Keys(init)) + [k];
      forall k' ensures Get(PutAll(ps), k') == LastValue(ps, k') {
        assert LastValue(ps, k') == if k' == k then Some(v) else LastValue(init, k');
      }
    }
  }

  /** Assigning pairs in turn keeps each key once, in order of first assignment. */
  lemma PutAllKeys<V>(ps: seq<(string, V)>)
    ensures Keys(PutAll(ps)) == Text.Dedup(Keys(ps))
    ensures UniqueKeys(PutAll(ps))
  {
    PutAllSpec(ps);
  }

  /** Looking a key up after assigning pairs in turn finds the value assigned last to it. */
  lemma PutAllGet<V>(ps: seq<(string, V)>, k: string)
    ensures Get(PutAll(ps), k) == LastValue(ps, k)
  {
    PutAllSpec(ps);
  }

  /** Assigning pairs with distinct keys rebuilds exactly those pairs. */
  lemma {:induction false} PutAllDistinct<V>(ps: seq<(string, V)>)
    requires UniqueKeys(ps)
    ensures PutAll(ps) == ps
  {
    if ps != [] {
      var init := ps[..|ps| - 1];
      var k, v := ps[|ps| - 1].0, ps[|ps| - 1].1;
      PutAllDistinct(init);
      assert UniqueKeys(init);
      assert k !in Keys(init) by {
        forall i | 0 <= i < |init| ensures Keys(init)[i] != k {
          assert init[i] == ps[i];
        }
      }
      PutAppendsNew(init, k, v);
      calc {
        PutAll(ps);
        Put(PutAll(init), k, v);
        Put(init, k, v);
        init + [(k, v)];
        { Seqs.SplitLast(ps); }
        ps;
      }
    }
  }

  /** Assigning a key that is not present appends the pair. */
  lemma {:induction false} PutAppendsNew<V>(d: Dict<V>, k: string, v: V)
    requires k !in Keys(d)
    ensures Put(d, k, v) == d + [(k, v)]
  {
    if d != [] {
      assert Keys(d) == [d[0].0] + Keys(d[1..]);
      PutAppendsNew(d[1..], k, v);
      assert d == [d[0]] + d[1..];
    }
  }
}
