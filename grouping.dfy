/** The engine between a map phase and a reduce phase, for a job with a single reduce task
    (the jobs set no reducer count): the records the mappers wrote are grouped by key, and
    the reducer is called once per distinct key with the values written under that key, in
    the order they were written. The engine sorts the keys; here they come in an order of
    the model's own, which only changes the order of the reduce phase's output, since a
    reducer looks at its own key and values only. */
module Grouping {
  import opened TriadicClosure

  /** The distinct keys written, each once. */
  function Keys<K(==), V>(rs: seq<Record<K, V>>): (ks: seq<K>)
    decreases |rs|
  {
    if rs == [] then []
    else
      var ks := Keys(rs[1..]);
      if rs[0].key in ks then ks else [rs[0].key] + ks
  }

  /** One more record in front: its key joins the keys unless it is there already. */
  lemma KeysCons<K, V>(r: Record<K, V>, rs: seq<Record<K, V>>)
    ensures Keys([r] + rs) == if r.key in Keys(rs) then Keys(rs) else [r.key] + Keys(rs)
  {
    assert ([r] + rs)[1..] == rs;
  }

  /** Some record was written under `k`. */
  ghost predicate Written<K, V>(rs: seq<Record<K, V>>, k: K) {
    exists i :: 0 <= i < |rs| && rs[i].key == k
  }

  /** Exactly the keys that were written are grouped. */
  lemma {:induction false} KeysMembership<K, V>(rs: seq<Record<K, V>>, k: K)
    ensures k in Keys(rs) <==> Written(rs, k)
    decreases |rs|
  {
    if rs != [] {
      KeysMembership(rs[1..], k);
      if Written(rs[1..], k) {
        var i :| 0 <= i < |rs[1..]| && rs[1..][i].key == k;
        assert rs[i + 1].key == k;
      }
      if Written(rs, k) && rs[0].key != k {
        var i :| 0 <= i < |rs| && rs[i].key == k;
        assert rs[1..][i - 1].key == k;
      }
    }
  }

  /** No key is grouped twice, so every key reaches the reducer once. */
  lemma {:induction false} KeysDistinct<K, V>(rs: seq<Record<K, V>>)
    ensures forall i, j :: 0 <= i < j < |Keys(rs)| ==> Keys(rs)[i] != Keys(rs)[j]
    decreases |rs|
  {
    if rs != [] {
      KeysDistinct(rs[1..]);
      var ks := Keys(rs[1..]);
      if rs[0].key !in ks {
        forall i, j | 0 <= i < j < |Keys(rs)|
          ensures Keys(rs)[i] != Keys(rs)[j]
        {
          assert Keys(rs)[j] == ks[j - 1];
          if i > 0 {
            assert Keys(rs)[i] == ks[i - 1];
          }
        }
      }
    }
  }

  /** The values written under `k`, in the order they were written. */
  function ValuesOf<K(==), V>(rs: seq<Record<K, V>>, k: K): (vs: seq<V>)
    ensures |vs| <= |rs|
    decreases |rs|
  {
    if rs == [] then []
    else (if rs[0].key == k then [rs[0].value] else []) + ValuesOf(rs[1..], k)
  }

  /** One more record in front: its value comes first under its own key. */
  lemma ValuesOfCons<K, V>(r: Record<K, V>, rs: seq<Record<K, V>>, k: K)
    ensures ValuesOf([r] + rs, k) == (if r.key == k then [r.value] else []) + ValuesOf(rs, k)
  {
    assert ([r] + rs)[1..] == rs;
  }

  /** A value reaches `k`'s reducer exactly when it was written under `k`. */
  lemma {:induction false} ValuesOfMembership<K, V>(rs: seq<Record<K, V>>, k: K, v: V)
    ensures v in ValuesOf(rs, k) <==> Record(k, v) in rs
    decreases |rs|
  {
    if rs != [] {
      ValuesOfMembership(rs[1..], k, v);
      assert rs == [rs[0]] + rs[1..];
    }
  }

  /** The grouping loses and invents nothing: each value reaches `k`'s reducer as many times
      as it was written under `k`. */
  lemma {:induction false} ValuesOfCount<K, V>(rs: seq<Record<K, V>>, k: K, v: V)
    ensures multiset(ValuesOf(rs, k))[v] == multiset(rs)[Record(k, v)]
    decreases |rs|
  {
    if rs != [] {
      ValuesOfCount(rs[1..], k, v);
      ValuesOfCons(rs[0], rs[1..], k);
      assert rs == [rs[0]] + rs[1..];
    }
  }

  /** Grouping two runs of records together groups each run and puts the first one's values
      first. */
  lemma {:induction false} ValuesOfAppend<K, V>(rs: seq<Record<K, V>>, ts: seq<Record<K, V>>, k: K)
    ensures ValuesOf(rs + ts, k) == ValuesOf(rs, k) + ValuesOf(ts, k)
    decreases |rs|
  {
    if rs == [] {
      assert rs + ts == ts;
    } else {
      ValuesOfAppend(rs[1..], ts, k);
      assert rs == [rs[0]] + rs[1..];
      assert rs + ts == [rs[0]] + (rs[1..] + ts);
      ValuesOfCons(rs[0], rs[1..] + ts, k);
      ValuesOfCons(rs[0], rs[1..], k);
    }
  }

  /** The reducer's output for each key of `ks` in turn. */
  function ReduceAll<K(==), V, R>(reduce: (K, seq<V>) -> seq<R>, rs: seq<Record<K, V>>, ks: seq<K>): seq<R>
    decreases |ks|
  {
    if ks == [] then [] else reduce(ks[0], ValuesOf(rs, ks[0])) + ReduceAll(reduce, rs, ks[1..])
  }

  /** One more key in front: its reducer's output comes first. */
  lemma ReduceAllCons<K, V, R>(reduce: (K, seq<V>) -> seq<R>, rs: seq<Record<K, V>>, k: K, ks: seq<K>)
    ensures ReduceAll(reduce, rs, [k] + ks) == reduce(k, ValuesOf(rs, k)) + ReduceAll(reduce, rs, ks)
  {
    assert ([k] + ks)[1..] == ks;
  }

  /** Three keys: the three reducers' outputs in key order. */
  lemma ReduceAllThree<K, V, R>(reduce: (K, seq<V>) -> seq<R>, rs: seq<Record<K, V>>, a: K, b: K, c: K,
                                 ra: seq<R>, rb: seq<R>, rc: seq<R>)
    requires reduce(a, ValuesOf(rs, a)) == ra
    requires reduce(b, ValuesOf(rs, b)) == rb
    requires reduce(c, ValuesOf(rs, c)) == rc
    ensures ReduceAll(reduce, rs, [a] + ([b] + [c])) == ra + (rb + rc)
  {
    ReduceAllCons(reduce, rs, c, []);
    ReduceAllCons(reduce, rs, b, [c]);
    ReduceAllCons(reduce, rs, a, [b] + [c]);
  }

  /** A reduce phase: every distinct key written, with its values, through `reduce`. */
  function ReducePhase<K(==), V, R>(reduce: (K, seq<V>) -> seq<R>, rs: seq<Record<K, V>>): seq<R> {
    ReduceAll(reduce, rs, Keys(rs))
  }

  /** `x` is what the reducer writes for some key of `ks`. */
  ghost predicate ReducedFrom<K, V, R>(reduce: (K, seq<V>) -> seq<R>, rs: seq<Record<K, V>>,
                                       ks: seq<K>, x: R) {
    exists k :: k in ks && x in reduce(k, ValuesOf(rs, k))
  }

  lemma {:induction false} ReduceAllMembership<K, V, R>(reduce: (K, seq<V>) -> seq<R>,
                                                        rs: seq<Record<K, V>>, ks: seq<K>, x: R)
    ensures x in ReduceAll(reduce, rs, ks) <==> ReducedFrom(reduce, rs, ks, x)
    decreases |ks|
  {
    if ks != [] {
      ReduceAllMembership(reduce, rs, ks[1..], x);
      if ReducedFrom(reduce, rs, ks[1..], x) {
        var k :| k in ks[1..] && x in reduce(k, ValuesOf(rs, k));
        assert k in ks;
      }
      if ReducedFrom(reduce, rs, ks, x) {
        var k :| k in ks && x in reduce(k, ValuesOf(rs, k));
        if k != ks[0] {
          assert k in ks[1..];
        }
      }
    }
  }

  /** What a reduce phase writes is exactly what the reducer writes for some key that was
      written, given all values written under it. */
  lemma ReducePhaseMembership<K, V, R>(reduce: (K, seq<V>) -> seq<R>, rs: seq<Record<K, V>>, x: R)
    ensures x in ReducePhase(reduce, rs)
        <==> exists k :: Written(rs, k) && x in reduce(k, ValuesOf(rs, k))
  {
    ReduceAllMembership(reduce, rs, Keys(rs), x);
    if x in ReducePhase(reduce, rs) {
      var k :| k in Keys(rs) && x in reduce(k, ValuesOf(rs, k));
      KeysMembership(rs, k);
    }
    if exists k :: Written(rs, k) && x in reduce(k, ValuesOf(rs, k)) {
      var k :| Written(rs, k) && x in reduce(k, ValuesOf(rs, k));
      KeysMembership(rs, k);
    }
  }

  /** One more key in front, not among the others: it is counted when it is a hit. */
  lemma HitsCons<K>(k0: K, ks: seq<K>, hits: set<K>)
    requires k0 !in ks
    ensures |set k | k in [k0] + ks && k in hits|
            == |set k | k in ks && k in hits| + if k0 in hits then 1 else 0
  {
    var rest := set k | k in ks && k in hits;
    if k0 in hits {
      assert (set k | k in [k0] + ks && k in hits) == rest + {k0};
    } else {
      assert (set k | k in [k0] + ks && k in hits) == rest;
    }
  }

  /** When each key's reducer writes `x` once if the key is a hit and never otherwise, a
      reduce over distinct keys writes `x` once per hit among them. */
  lemma {:induction false} ReduceAllCount<K, V, R>(reduce: (K, seq<V>) -> seq<R>, rs: seq<Record<K, V>>,
                                                   ks: seq<K>, x: R, hits: set<K>)
    requires forall i, j :: 0 <= i < j < |ks| ==> ks[i] != ks[j]
    requires forall k :: k in ks ==>
               multiset(reduce(k, ValuesOf(rs, k)))[x] == if k in hits then 1 else 0
    ensures multiset(ReduceAll(reduce, rs, ks))[x] == |set k | k in ks && k in hits|
    decreases |ks|
  {
    if ks != [] {
      var k0, t := ks[0], ks[1..];
      assert forall i, j :: 0 <= i < j < |t| ==> t[i] != t[j] by {
        forall i, j | 0 <= i < j < |t|
          ensures t[i] != t[j]
        {
          assert t[i] == ks[i + 1] && t[j] == ks[j + 1];
        }
      }
      assert k0 !in t by {
        forall j | 0 <= j < |t|
          ensures t[j] != k0
        {
          assert t[j] == ks[j + 1];
        }
      }
      ReduceAllCount(reduce, rs, t, x, hits);
      assert ks == [k0] + t;
      HitsCons(k0, t, hits);
      assert ReduceAll(reduce, rs, ks) == reduce(k0, ValuesOf(rs, k0)) + ReduceAll(reduce, rs, t);
    }
  }

  /** When only key `p`'s reducer writes `x`, and writes it once, a reduce over distinct keys
      that include `p` writes `x` once. */
  lemma ReduceAllOnce<K, V, R>(reduce: (K, seq<V>) -> seq<R>, rs: seq<Record<K, V>>,
                               ks: seq<K>, x: R, p: K)
    requires forall i, j :: 0 <= i < j < |ks| ==> ks[i] != ks[j]
    requires p in ks
    requires forall k :: k in ks ==> multiset(reduce(k, ValuesOf(rs, k)))[x] == if k == p then 1 else 0
    ensures multiset(ReduceAll(reduce, rs, ks))[x] == 1
  {
    var hits := {p};
    ReduceAllCount(reduce, rs, ks, x, hits);
    assert (set k | k in ks && k in hits) == hits;
  }
}
