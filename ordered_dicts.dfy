/** Python's insertion-ordered `dict` with string keys, as a value: the keys
    in the order they were first inserted, and the mapping itself. */
module OrderedDicts {

  /** No element of s occurs twice. */
  predicate Distinct(s: seq<string>)
  {
    forall i, j :: 0 <= i < j < |s| ==> s[i] != s[j]
  }

  /** Position of the first occurrence of x in s. */
  function IndexOf(s: seq<string>, x: string): (i: nat)
    requires x in s
    ensures i < |s| && s[i] == x
    ensures forall j :: 0 <= j < i ==> s[j] != x
  {
    if s[0] == x then 0 else 1 + IndexOf(s[1..], x)
  }

  datatype ODict<V> = ODict(keys: seq<string>, vals: map<string, V>)
  {
    /** The key order lists each key of the mapping exactly once. */
    ghost predicate Valid()
    {
      Distinct(keys) && forall k :: k in vals <==> k in keys
    }

    /** `d[k] = v`: a new key is appended to the key order; a key already
        present keeps its position and only its value changes. */
    function Put(k: string, v: V): (d: ODict<V>)
      ensures Valid() ==> d.Valid()
      ensures d.vals.Keys == vals.Keys + {k} && d.vals[k] == v
      ensures forall k' :: k' in vals && k' != k ==> d.vals[k'] == vals[k']
      ensures |keys| <= |d.keys| && d.keys[..|keys|] == keys
      ensures Valid() ==> |d.keys| == |keys| + (if k in vals then 0 else 1)
    {
      if k in vals then ODict(keys, vals[k := v]) else ODict(keys + [k], vals[k := v])
    }
  }

  /** `dict()` */
  function Empty<V>(): (d: ODict<V>)
    ensures d.Valid() && d.keys == [] && d.vals == map[]
  {
    ODict([], map[])
  }

  /** The keys of a sequence of pairs, in order. */
  function Firsts<V>(ps: seq<(string, V)>): (ks: seq<string>)
    ensures |ks| == |ps| && forall i :: 0 <= i < |ps| ==> ks[i] == ps[i].0
  {
    seq(|ps|, i requires 0 <= i < |ps| => ps[i].0)
  }

  /** `d[k] = v` for every pair (k, v) of ps, in order. */
  function PutAll<V>(d: ODict<V>, ps: seq<(string, V)>): ODict<V>
    decreases |ps|
  {
    if ps == [] then d else PutAll(d.Put(ps[0].0, ps[0].1), ps[1..])
  }

  /** The value of the last pair of ps whose key is k. */
  function LastFor<V>(ps: seq<(string, V)>, k: string): (v: V)
    requires k in Firsts(ps)
    ensures exists i :: 0 <= i < |ps| && ps[i] == (k, v) && forall j :: i < j < |ps| ==> ps[j].0 != k
  {
    var n := |ps| - 1;
    if ps[n].0 == k then ps[n].1
    else
      assert Firsts(ps) == Firsts(ps[..n]) + [ps[n].0];
      var v := LastFor(ps[..n], k);
      assert forall i :: 0 <= i < n ==> ps[..n][i] == ps[i];
      v
  }

  /** s without repeats: each element is kept at its first occurrence only. */
  function Dedup(s: seq<string>): (r: seq<string>)
    ensures Distinct(r)
    ensures forall x :: x in r <==> x in s
  {
    if s == [] then []
    else
      var n := |s| - 1;
      var p := Dedup(s[..n]);
      assert forall x :: x in s <==> x in s[..n] || x == s[n] by {
        assert s == s[..n] + [s[n]];
      }
      if s[n] in s[..n] then p else p + [s[n]]
  }

  /** Removing repeats from a sequence that has none changes nothing. */
  lemma {:induction false} DedupDistinct(s: seq<string>)
    requires Distinct(s)
    ensures Dedup(s) == s
  {
    if s != [] {
      var n := |s| - 1;
      DedupDistinct(s[..n]);
      assert s[n] !in s[..n];
      assert s == s[..n] + [s[n]];
    }
  }

  /** Appending to a sequence never moves what Dedup already kept: the
      result for a prefix is a prefix of the result for the whole. */
  lemma {:induction false} DedupPrefix(a: seq<string>, b: seq<string>)
    ensures |Dedup(a)| <= |Dedup(a + b)| && Dedup(a + b)[..|Dedup(a)|] == Dedup(a)
    decreases |b|
  {
    if b != [] {
      var n := |b| - 1;
      DedupPrefix(a, b[..n]);
      assert a + b == (a + b[..n]) + [b[n]];
      assert (a + b)[..|a + b| - 1] == a + b[..n];
    } else {
      assert a + b == a;
    }
  }

  /** Dedup keeps elements in the order of their first occurrences. */
  lemma {:induction false} DedupOrder(s: seq<string>)
    ensures forall i, j :: 0 <= i < j < |Dedup(s)| ==> IndexOf(s, Dedup(s)[i]) < IndexOf(s, Dedup(s)[j])
  {
    if s != [] {
      var n := |s| - 1;
      var p := s[..n];
      DedupOrder(p);
      var r := Dedup(s);
      var rp := Dedup(p);
      assert s == p + [s[n]];
      forall x | x in p ensures IndexOf(s, x) == IndexOf(p, x) {
        IndexOfPrefix(p, [s[n]], x);
      }
      assert r == if s[n] in p then rp else rp + [s[n]];
      forall i, j | 0 <= i < j < |r| ensures IndexOf(s, r[i]) < IndexOf(s, r[j]) {
        assert r[i] == rp[i] && r[i] in p;
        assert IndexOf(s, r[i]) == IndexOf(p, rp[i]);
        if j < |rp| {
          assert r[j] == rp[j] && r[j] in p;
          assert IndexOf(s, r[j]) == IndexOf(p, rp[j]);
          assert IndexOf(p, rp[i]) < IndexOf(p, rp[j]);
        } else {
          assert r[j] == s[n] && s[n] !in p;
          assert IndexOf(s, r[j]) == n;
          assert IndexOf(p, r[i]) < n;
        }
      }
    }
  }

  lemma IndexOfPrefix(a: seq<string>, b: seq<string>, x: string)
    requires x in a
    ensures IndexOf(a + b, x) == IndexOf(a, x)
  {
    var i := IndexOf(a, x);
    var k := IndexOf(a + b, x);
    assert (a + b)[i] == x;
    assert k <= i;
    assert a[k] == x;
  }

  /** A run of puts starting with p is p's Put followed by the rest. */
  lemma PutAllCons<V>(d: ODict<V>, p: (string, V), ps: seq<(string, V)>)
    ensures PutAll(d, [p] + ps) == PutAll(d.Put(p.0, p.1), ps)
  {
    assert ([p] + ps)[0] == p && ([p] + ps)[1..] == ps;
  }

  /** Putting one more pair after a run of puts is one more Put. */
  lemma {:induction false} PutAllSnoc<V>(d: ODict<V>, ps: seq<(string, V)>, p: (string, V))
    ensures PutAll(d, ps + [p]) == PutAll(d, ps).Put(p.0, p.1)
    decreases |ps|
  {
    if ps == [] {
      assert [] + [p] == [p];
    } else {
      PutAllSnoc(d.Put(ps[0].0, ps[0].1), ps[1..], p);
      assert (ps + [p])[1..] == ps[1..] + [p];
    }
  }

  /** The keys a run of puts leaves in a dict: those it had and those put. */
  lemma {:induction false} PutAllKeySet<V>(d: ODict<V>, ps: seq<(string, V)>)
    ensures forall k :: k in PutAll(d, ps).vals <==> k in d.vals || k in Firsts(ps)
    decreases |ps|
  {
    if ps != [] {
      var n := |ps| - 1;
      var q := ps[..n];
      assert ps == q + [ps[n]];
      PutAllKeySet(d, q);
      PutAllSnoc(d, q, ps[n]);
      assert Firsts(ps) == Firsts(q) + [ps[n].0];
    }
  }

  /** The key order a run of puts leaves in a dict: the keys it had, then
      the new keys in the order of their first put. */
  lemma {:induction false} PutAllOrder<V>(d: ODict<V>, ps: seq<(string, V)>)
    requires d.Valid()
    ensures PutAll(d, ps).keys == Dedup(d.keys + Firsts(ps))
    decreases |ps|
  {
    if ps == [] {
      DedupDistinct(d.keys);
      assert d.keys + Firsts(ps) == d.keys;
    } else {
      var n := |ps| - 1;
      var q := ps[..n];
      var p := ps[n];
      PutAllOrder(d, q);
      PutAllKeySet(d, q);
      PutAllLast(d, ps);
      FirstsLast(d.keys, ps);
      PutKeyOrder(PutAll(d, q), p.0, p.1, d.keys + Firsts(q));
    }
  }

  lemma FirstsLast<V>(ks: seq<string>, ps: seq<(string, V)>)
    requires ps != []
    ensures var n := |ps| - 1;
            ks + Firsts(ps) == (ks + Firsts(ps[..n])) + [ps[n].0]
  {
    var n := |ps| - 1;
    assert Firsts(ps) == Firsts(ps[..n]) + [ps[n].0];
  }

  /** A non-empty run of puts is the run without its last pair, then one
      more Put. */
  lemma PutAllLast<V>(d: ODict<V>, ps: seq<(string, V)>)
    requires ps != []
    ensures var n := |ps| - 1;
            PutAll(d, ps) == PutAll(d, ps[..n]).Put(ps[n].0, ps[n].1)
  {
    var n := |ps| - 1;
    assert ps == ps[..n] + [ps[n]];
    PutAllSnoc(d, ps[..n], ps[n]);
  }

  /** A run of puts keeps a dict's key order in step with its mapping. */
  lemma {:induction false} PutAllValid<V>(d: ODict<V>, ps: seq<(string, V)>)
    requires d.Valid()
    ensures PutAll(d, ps).Valid()
    decreases |ps|
  {
    if ps != [] {
      PutAllValid(d.Put(ps[0].0, ps[0].1), ps[1..]);
    }
  }

  /** One put extends a key order that is the Dedup of s exactly as Dedup
      extends it for s + [k]. */
  lemma PutKeyOrder<V>(e: ODict<V>, k: string, v: V, s: seq<string>)
    requires e.keys == Dedup(s)
    requires forall x :: x in e.vals <==> x in s
    ensures e.Put(k, v).keys == Dedup(s + [k])
  {
    assert (s + [k])[..|s|] == s;
  }

  /** The values a run of puts leaves in a dict: each key put is bound to
      the value of its last put, every other key keeps its value. */
  lemma {:induction false} PutAllValues<V>(d: ODict<V>, ps: seq<(string, V)>)
    ensures forall k :: k in Firsts(ps) ==> k in PutAll(d, ps).vals && PutAll(d, ps).vals[k] == LastFor(ps, k)
    ensures forall k :: k in d.vals && k !in Firsts(ps) ==> k in PutAll(d, ps).vals && PutAll(d, ps).vals[k] == d.vals[k]
    decreases |ps|
  {
    PutAllKeySet(d, ps);
    if ps != [] {
      var n := |ps| - 1;
      var q := ps[..n];
      var p := ps[n];
      assert ps == q + [p];
      PutAllValues(d, q);
      PutAllKeySet(d, q);
      PutAllSnoc(d, q, p);
      assert Firsts(ps) == Firsts(q) + [p.0];
      forall k | k in Firsts(ps) ensures PutAll(d, ps).vals[k] == LastFor(ps, k) {
        LastForSnoc(ps, k);
      }
    }
  }

  /** The last value for k in a non-empty ps: the last pair's, when its
      key is k; otherwise the last value for k before it. */
  lemma LastForSnoc<V>(ps: seq<(string, V)>, k: string)
    requires k in Firsts(ps)
    ensures var n := |ps| - 1;
            LastFor(ps, k) == if ps[n].0 == k then ps[n].1 else LastFor(ps[..n], k)
  {
    var n := |ps| - 1;
    assert Firsts(ps) == Firsts(ps[..n]) + [ps[n].0];
  }

  /** A dict built by a run of puts from `dict()`: its keys are the keys
      put, each once, in the order of their first put, as many as there are
      distinct keys; each is bound to the value of its last put. */
  lemma PutAllFresh<V>(ps: seq<(string, V)>)
    ensures var d := PutAll(Empty(), ps);
            && d.Valid()
            && d.keys == Dedup(Firsts(ps))
            && |d.keys| == |set k | k in Firsts(ps)|
            && (forall k :: k in d.vals <==> k in Firsts(ps))
            && (forall k :: k in Firsts(ps) ==> d.vals[k] == LastFor(ps, k))
  {
    PutAllValid(Empty(), ps);
    PutAllOrder(Empty(), ps);
    PutAllKeySet(Empty(), ps);
    PutAllValues(Empty(), ps);
    assert Empty<V>().keys + Firsts(ps) == Firsts(ps);
    DedupCard(Firsts(ps));
  }

  /** Dedup keeps one element per distinct element. */
  lemma DedupCard(s: seq<string>)
    ensures |Dedup(s)| == |set x | x in s|
  {
    DistinctCard(Dedup(s));
    assert (set x | x in Dedup(s)) == (set x | x in s);
  }

  /** A sequence without repeats has as many elements as its set. */
  lemma {:induction false} DistinctCard(s: seq<string>)
    requires Distinct(s)
    ensures |set x | x in s| == |s|
  {
    if s != [] {
      var n := |s| - 1;
      DistinctCard(s[..n]);
      assert (set x | x in s) == (set x | x in s[..n]) + {s[n]} by {
        assert s == s[..n] + [s[n]];
      }
      assert s[n] !in s[..n];
    }
  }
}
