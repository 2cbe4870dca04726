/** The pairs of positions the triangle reducer's nested loops visit: for a list `s`, every
    two positions `i < j`, row by row (all `j` for `i = 0`, then all `j` for `i = 1`, ...),
    each turned into a value by a pairing function. The reducer's pairing function puts the
    smaller node first; the facts here hold for any pairing function. */
module Combinations {

  /** Row `x`: `x` paired with each later element `ys[k]`, in order. */
  function Fan<T, P>(pair: (T, T) -> P, x: T, ys: seq<T>): (ps: seq<P>)
    ensures |ps| == |ys|
    decreases |ys|
  {
    if ys == [] then [] else [pair(x, ys[0])] + Fan(pair, x, ys[1..])
  }

  /** All rows of `s`, first row first. */
  function Pairs<T, P>(pair: (T, T) -> P, s: seq<T>): (ps: seq<P>)
    ensures |s| < 2 <==> ps == []
    decreases |s|
  {
    if s == [] then [] else Fan(pair, s[0], s[1..]) + Pairs(pair, s[1..])
  }

  lemma {:induction false} FanAt<T, P>(pair: (T, T) -> P, x: T, ys: seq<T>, k: nat)
    requires k < |ys|
    ensures Fan(pair, x, ys)[k] == pair(x, ys[k])
    decreases k
  {
    if k > 0 {
      FanAt(pair, x, ys[1..], k - 1);
    }
  }

  lemma FanCons<T, P>(pair: (T, T) -> P, x: T, y: T, r: seq<T>)
    ensures Fan(pair, x, [y] + r) == [pair(x, y)] + Fan(pair, x, r)
  {
    assert ([y] + r)[1..] == r;
  }

  lemma {:induction false} FanAppend<T, P>(pair: (T, T) -> P, x: T, ys: seq<T>, zs: seq<T>)
    ensures Fan(pair, x, ys + zs) == Fan(pair, x, ys) + Fan(pair, x, zs)
    decreases |ys|
  {
    if ys != [] {
      FanAppend(pair, x, ys[1..], zs);
      assert ys + zs == [ys[0]] + (ys[1..] + zs);
      FanCons(pair, x, ys[0], ys[1..] + zs);
      FanCons(pair, x, ys[0], ys[1..]);
      assert ys == [ys[0]] + ys[1..];
    } else {
      assert ys + zs == zs;
    }
  }

  /** Extending the list at the end extends the row at the end. */
  lemma FanSnoc<T, P>(pair: (T, T) -> P, x: T, ys: seq<T>, y: T)
    ensures Fan(pair, x, ys + [y]) == Fan(pair, x, ys) + [pair(x, y)]
  {
    FanAppend(pair, x, ys, [y]);
    assert [y][1..] == [];
  }

  /** One more column of a row: the fan over `s[lo..j + 1]` extends the fan over `s[lo..j]`. */
  lemma FanExtend<T, P>(pair: (T, T) -> P, x: T, s: seq<T>, lo: nat, j: nat)
    requires lo <= j < |s|
    ensures Fan(pair, x, s[lo..j + 1]) == Fan(pair, x, s[lo..j]) + [pair(x, s[j])]
  {
    assert s[lo..j + 1] == s[lo..j] + [s[j]];
    FanSnoc(pair, x, s[lo..j], s[j]);
  }

  /** One more row: the pairs from position `i` on are row `i`'s fan and then the pairs from
      position `i + 1` on. */
  lemma PairsFrom<T, P>(pair: (T, T) -> P, s: seq<T>, i: nat)
    requires i < |s|
    ensures Pairs(pair, s[i..]) == Fan(pair, s[i], s[i + 1..]) + Pairs(pair, s[i + 1..])
  {
    assert s[i..] == [s[i]] + s[i + 1..];
    PairsCons(pair, s[i], s[i + 1..]);
  }

  /** The nested loops' outer invariant survives one row: once row `i` is appended to what
      was written before it, what is left to write is the pairs from position `i + 1` on. */
  lemma RowDone<T, P>(pair: (T, T) -> P, s: seq<T>, i: nat, before: seq<P>, written: seq<P>, all: seq<P>)
    requires i < |s|
    requires before + Pairs(pair, s[i..]) == all
    requires written == before + Fan(pair, s[i], s[i + 1..])
    ensures written + Pairs(pair, s[i + 1..]) == all
  {
    PairsFrom(pair, s, i);
  }

  lemma PairsCons<T, P>(pair: (T, T) -> P, y: T, r: seq<T>)
    ensures Pairs(pair, [y] + r) == Fan(pair, y, r) + Pairs(pair, r)
  {
    assert ([y] + r)[1..] == r;
  }

  /** A list of `k` elements has `k*(k-1)/2` pairs of positions, so none when `k < 2`. */
  lemma {:induction false} PairsCount<T, P>(pair: (T, T) -> P, s: seq<T>)
    ensures 2 * |Pairs(pair, s)| == |s| * (|s| - 1)
    decreases |s|
  {
    if s != [] {
      var n := |s|;
      PairsCount(pair, s[1..]);
      assert |Pairs(pair, s)| == (n - 1) + |Pairs(pair, s[1..])|;
      assert (n - 1) * (n - 2) == n * (n - 1) - 2 * (n - 1);
    }
  }

  /** `p` is what the pairing function makes of two positions `i < j` of `s`. */
  ghost predicate FromPositions<T, P>(pair: (T, T) -> P, s: seq<T>, p: P) {
    exists i, j :: 0 <= i < j < |s| && pair(s[i], s[j]) == p
  }

  /** Exactly the values made from two positions `i < j` occur. */
  lemma {:induction false} PairsMembership<T, P>(pair: (T, T) -> P, s: seq<T>, p: P)
    ensures p in Pairs(pair, s) <==> FromPositions(pair, s, p)
    decreases |s|
  {
    if s != [] {
      var t := s[1..];
      var f := Fan(pair, s[0], t);
      PairsMembership(pair, t, p);
      assert Pairs(pair, s) == f + Pairs(pair, t);
      if p in f {
        var k :| 0 <= k < |f| && f[k] == p;
        FanAt(pair, s[0], t, k);
        assert s[k + 1] == t[k];
        assert pair(s[0], s[k + 1]) == p;
      } else if p in Pairs(pair, t) {
        var i, j :| 0 <= i < j < |t| && pair(t[i], t[j]) == p;
        assert s[i + 1] == t[i] && s[j + 1] == t[j];
        assert pair(s[i + 1], s[j + 1]) == p;
      }
      if FromPositions(pair, s, p) {
        var i, j :| 0 <= i < j < |s| && pair(s[i], s[j]) == p;
        if i == 0 {
          assert t[j - 1] == s[j];
          FanAt(pair, s[0], t, j - 1);
          assert f[j - 1] == p;
        } else {
          assert t[i - 1] == s[i] && t[j - 1] == s[j];
          assert pair(t[i - 1], t[j - 1]) == p;
        }
      }
    }
  }

  // ---------------------------------------------------------------- order of the list

  /** A list is what comes before position `k`, the element at `k`, and what comes after. */
  lemma CutAt<T>(zs: seq<T>, k: nat)
    requires k < |zs|
    ensures zs == zs[..k] + [zs[k]] + zs[k + 1..]
  {
    assert zs[k..] == [zs[k]] + zs[k + 1..];
    assert zs == zs[..k] + zs[k..];
  }

  /** Where the head of `s` sits in a list `t` with the same elements, and what is left of
      both once it is taken out. */
  lemma MatchHead<T>(s: seq<T>, t: seq<T>) returns (k: nat)
    requires s != [] && multiset(s) == multiset(t)
    ensures k < |t| && t[k] == s[0]
    ensures t == t[..k] + [s[0]] + t[k + 1..]
    ensures multiset(s[1..]) == multiset(t[..k] + t[k + 1..])
  {
    var x := s[0];
    assert s == [x] + s[1..];
    assert x in multiset(t);
    k :| 0 <= k < |t| && t[k] == x;
    CutAt(t, k);
    ghost var before, after, tail := multiset(t[..k]), multiset(t[k + 1..]), multiset(s[1..]);
    assert multiset{x} + tail == before + multiset{x} + after;
    assert tail == multiset{x} + tail - multiset{x};
    assert before + after == before + multiset{x} + after - multiset{x};
  }

  /** `y`'s row across a list with `x` in it: the part before `x`, `x`, the part after. */
  lemma FanAcross<T, P>(pair: (T, T) -> P, y: T, a: seq<T>, x: T, b: seq<T>)
    ensures Fan(pair, y, a + [x] + b) == Fan(pair, y, a) + [pair(y, x)] + Fan(pair, y, b)
  {
    assert a + [x] + b == a + ([x] + b);
    FanAppend(pair, y, a, [x] + b);
    FanCons(pair, y, x, b);
  }

  /** Cutting the list at `k` cuts the row there. */
  lemma FanSplitAt<T, P>(pair: (T, T) -> P, x: T, zs: seq<T>, k: nat)
    requires k < |zs|
    ensures Fan(pair, x, zs)
         == Fan(pair, x, zs[..k]) + [pair(x, zs[k])] + Fan(pair, x, zs[k + 1..])
    ensures Fan(pair, x, zs[..k] + zs[k + 1..]) == Fan(pair, x, zs[..k]) + Fan(pair, x, zs[k + 1..])
  {
    CutAt(zs, k);
    FanAcross(pair, x, zs[..k], zs[k], zs[k + 1..]);
    FanAppend(pair, x, zs[..k], zs[k + 1..]);
  }

  /** Taking out element `k` takes its value out of the row's multiset. */
  lemma FanRemove<T, P>(pair: (T, T) -> P, x: T, zs: seq<T>, k: nat)
    requires k < |zs|
    ensures multiset(Fan(pair, x, zs))
         == multiset{pair(x, zs[k])} + multiset(Fan(pair, x, zs[..k] + zs[k + 1..]))
  {
    FanSplitAt(pair, x, zs, k);
    ghost var l, r := multiset(Fan(pair, x, zs[..k])), multiset(Fan(pair, x, zs[k + 1..]));
    ghost var c := multiset{pair(x, zs[k])};
    assert multiset(Fan(pair, x, zs)) == l + c + r;
    assert l + c + r == c + (l + r);
  }

  /** A row's multiset depends only on the multiset of later elements. */
  lemma {:induction false} FanPermutation<T, P>(pair: (T, T) -> P, x: T, ys: seq<T>, zs: seq<T>)
    requires multiset(ys) == multiset(zs)
    ensures multiset(Fan(pair, x, ys)) == multiset(Fan(pair, x, zs))
    decreases |ys|
  {
    if ys == [] {
      assert |zs| == |multiset(zs)| == 0;
    } else {
      var k := MatchHead(ys, zs);
      FanPermutation(pair, x, ys[1..], zs[..k] + zs[k + 1..]);
      assert ys == [ys[0]] + ys[1..];
      FanCons(pair, x, ys[0], ys[1..]);
      FanRemove(pair, x, zs, k);
    }
  }

  /** The pairing function does not care which of two elements of `s` comes first. */
  ghost predicate Symmetric<T, P>(pair: (T, T) -> P, s: seq<T>) {
    forall u, v :: u in s && v in s ==> pair(u, v) == pair(v, u)
  }

  lemma SymmetricTail<T, P>(pair: (T, T) -> P, y: T, r: seq<T>)
    requires Symmetric(pair, [y] + r)
    ensures Symmetric(pair, r)
    ensures forall u :: u in r ==> pair(y, u) == pair(u, y)
  {
  }

  lemma SymmetricPermuted<T, P>(pair: (T, T) -> P, s: seq<T>, t: seq<T>)
    requires Symmetric(pair, s)
    requires multiset(s) == multiset(t)
    ensures Symmetric(pair, t)
  {
    forall u, v | u in t && v in t ensures pair(u, v) == pair(v, u) {
      assert u in multiset(s) && v in multiset(s);
    }
  }

  /** The rows of `[a0] + a' + [x] + b`, as a multiset: `a0`'s row runs past `x`. */
  lemma RowsBefore<T, P>(pair: (T, T) -> P, a0: T, a': seq<T>, x: T, b: seq<T>)
    ensures multiset(Pairs(pair, [a0] + (a' + [x] + b)))
         == multiset(Fan(pair, a0, a')) + multiset{pair(a0, x)} + multiset(Fan(pair, a0, b))
            + multiset(Pairs(pair, a' + [x] + b))
  {
    PairsCons(pair, a0, a' + [x] + b);
    FanAcross(pair, a0, a', x, b);
  }

  /** The rows of `[x] + ([a0] + (a' + b))`, as a multiset: `x`'s row, then `a0`'s. */
  lemma RowsAfter<T, P>(pair: (T, T) -> P, a0: T, a': seq<T>, x: T, b: seq<T>)
    ensures multiset(Pairs(pair, [x] + ([a0] + (a' + b))))
         == multiset{pair(x, a0)} + multiset(Fan(pair, x, a' + b))
            + (multiset(Fan(pair, a0, a')) + multiset(Fan(pair, a0, b))) + multiset(Pairs(pair, a' + b))
  {
    PairsCons(pair, x, [a0] + (a' + b));
    FanCons(pair, x, a0, a' + b);
    PairsCons(pair, a0, a' + b);
    FanAppend(pair, a0, a', b);
  }

  /** Multiset union is associative and commutative, spelt out for the five parts of
      `MoveFrontStep`. */
  lemma Regroup<P>(fa: multiset<P>, c: multiset<P>, fb: multiset<P>, fx: multiset<P>, rest: multiset<P>)
    ensures fa + c + fb + (fx + rest) == c + fx + (fa + fb) + rest
  {
  }

  /** One step of moving `x` to the front: past the head `a0` of the elements before it. */
  lemma MoveFrontStep<T, P>(pair: (T, T) -> P, a0: T, a': seq<T>, x: T, b: seq<T>)
    requires pair(a0, x) == pair(x, a0)
    requires multiset(Pairs(pair, a' + [x] + b)) == multiset(Pairs(pair, [x] + (a' + b)))
    ensures multiset(Pairs(pair, [a0] + (a' + [x] + b)))
         == multiset(Pairs(pair, [x] + ([a0] + (a' + b))))
  {
    PairsCons(pair, x, a' + b);
    RowsBefore(pair, a0, a', x, b);
    RowsAfter(pair, a0, a', x, b);
    Regroup(multiset(Fan(pair, a0, a')), multiset{pair(a0, x)}, multiset(Fan(pair, a0, b)),
            multiset(Fan(pair, x, a' + b)), multiset(Pairs(pair, a' + b)));
  }

  /** Moving one element to the front leaves the multiset of pairs unchanged, when the
      pairing function is symmetric on the list. */
  lemma {:induction false} PairsMoveFront<T, P>(pair: (T, T) -> P, a: seq<T>, x: T, b: seq<T>)
    requires Symmetric(pair, a + [x] + b)
    ensures multiset(Pairs(pair, a + [x] + b)) == multiset(Pairs(pair, [x] + (a + b)))
    decreases |a|
  {
    if a == [] {
      assert a + [x] + b == [x] + (a + b);
    } else {
      var a0, a' := a[0], a[1..];
      assert a + [x] + b == [a0] + (a' + [x] + b) by { assert a == [a0] + a'; }
      assert [x] + (a + b) == [x] + ([a0] + (a' + b)) by { assert a == [a0] + a'; }
      SymmetricTail(pair, a0, a' + [x] + b);
      PairsMoveFront(pair, a', x, b);
      MoveFrontStep(pair, a0, a', x, b);
    }
  }

  /** Putting the same element in front of two lists with the same pairs. */
  lemma ConsPermutation<T, P>(pair: (T, T) -> P, x: T, s: seq<T>, t: seq<T>)
    requires multiset(Pairs(pair, s)) == multiset(Pairs(pair, t))
    requires multiset(Fan(pair, x, s)) == multiset(Fan(pair, x, t))
    ensures multiset(Pairs(pair, [x] + s)) == multiset(Pairs(pair, [x] + t))
  {
    PairsCons(pair, x, s);
    PairsCons(pair, x, t);
  }

  /** The multiset of pairs depends only on the multiset of the list, when the pairing
      function is symmetric on it. */
  lemma {:induction false} PairsPermutation<T, P>(pair: (T, T) -> P, s: seq<T>, t: seq<T>)
    requires multiset(s) == multiset(t)
    requires Symmetric(pair, s)
    ensures multiset(Pairs(pair, s)) == multiset(Pairs(pair, t))
    decreases |s|
  {
    if s == [] {
      assert |t| == |multiset(t)| == 0;
    } else {
      var x, s' := s[0], s[1..];
      var k := MatchHead(s, t);
      var t' := t[..k] + t[k + 1..];
      assert s == [x] + s';
      SymmetricTail(pair, x, s');
      SymmetricPermuted(pair, s, t);
      PairsPermutation(pair, s', t');
      FanPermutation(pair, x, s', t');
      ConsPermutation(pair, x, s', t');
      PairsMoveFront(pair, t[..k], x, t[k + 1..]);
    }
  }

  // ---------------------------------------------------------------- how often a value occurs

  /** No element occurs twice. */
  predicate Distinct<T(==)>(s: seq<T>) {
    forall i, j :: 0 <= i < j < |s| ==> s[i] != s[j]
  }

  /** A value row `x` makes from no later element does not occur in the row. */
  lemma FanMissing<T, P>(pair: (T, T) -> P, x: T, ys: seq<T>, p: P)
    requires forall y :: y in ys ==> pair(x, y) != p
    ensures multiset(Fan(pair, x, ys))[p] == 0
  {
    if p in Fan(pair, x, ys) {
      var k :| 0 <= k < |ys| && Fan(pair, x, ys)[k] == p;
      FanAt(pair, x, ys, k);
    }
  }

  /** Over distinct elements, a value row `x` makes from `y` alone occurs once when `y` is
      there and not at all otherwise. */
  lemma {:induction false} FanOnce<T, P>(pair: (T, T) -> P, x: T, ys: seq<T>, p: P, y: T)
    requires Distinct(ys)
    requires forall z :: z in ys ==> (pair(x, z) == p <==> z == y)
    ensures multiset(Fan(pair, x, ys))[p] == if y in ys then 1 else 0
    decreases |ys|
  {
    if ys != [] {
      var t := ys[1..];
      assert Distinct(t) by {
        forall i, j | 0 <= i < j < |t|
          ensures t[i] != t[j]
        {
          assert t[i] == ys[i + 1] && t[j] == ys[j + 1];
        }
      }
      FanOnce(pair, x, t, p, y);
      FanCons(pair, x, ys[0], t);
      assert ys == [ys[0]] + t;
    }
  }

  /** Over distinct elements, a value the pairing function makes only from `a` and `b`
      (either way round) occurs once when both are present and not at all otherwise: every
      two elements are paired exactly once. */
  lemma {:induction false} PairsOnce<T, P>(pair: (T, T) -> P, s: seq<T>, p: P, a: T, b: T)
    requires Distinct(s) && a != b
    requires forall x, y :: x in s && y in s ==>
               (pair(x, y) == p <==> (x == a && y == b) || (x == b && y == a))
    ensures multiset(Pairs(pair, s))[p] == if a in s && b in s then 1 else 0
    decreases |s|
  {
    if s != [] {
      var x, t := s[0], s[1..];
      assert s == [x] + t;
      assert Distinct(t) by {
        forall i, j | 0 <= i < j < |t|
          ensures t[i] != t[j]
        {
          assert t[i] == s[i + 1] && t[j] == s[j + 1];
        }
      }
      PairsOnce(pair, t, p, a, b);
      PairsCons(pair, x, t);
      if x == a {
        FanOnce(pair, x, t, p, b);
      } else if x == b {
        FanOnce(pair, x, t, p, a);
      } else {
        FanMissing(pair, x, t, p);
      }
    }
  }
}
