/** The meaning of the multi-operand set operations, on plain maps: the
    contents `m` of the first table and the contents `ns` of the tables that
    follow it, in argument order. Every fold takes one operand at a time,
    left to right, the order in which the tables are swept. */
module Algebra {

  /** `m` restricted to the keys of `S`. */
  function Restrict<K, V>(m: map<K, V>, S: set<K>): (r: map<K, V>)
    ensures r.Keys == m.Keys * S
    ensures forall k | k in r :: r[k] == m[k]
  {
    map k | k in m && k in S :: m[k]
  }

  /** One union step: add the entries of `n` to `m`. Without `reverse` the
      entries already in `m` are kept; with it those of `n` replace them. */
  function Merge<K, V>(m: map<K, V>, n: map<K, V>, reverse: bool): map<K, V>
  {
    if reverse then m + n else n + m
  }

  /** The union of `m` with every map of `ns`, taken left to right. */
  function UnionAll<K, V>(m: map<K, V>, ns: seq<map<K, V>>, reverse: bool): (r: map<K, V>)
    ensures m.Keys <= r.Keys
    ensures forall p | 0 <= p < |ns| :: ns[p].Keys <= r.Keys
    decreases |ns|
  {
    if ns == [] then m else Merge(UnionAll(m, ns[..|ns| - 1], reverse), ns[|ns| - 1], reverse)
  }

  /** Key `k` belongs to some map of `ns`. */
  ghost predicate InSome<K, V>(ns: seq<map<K, V>>, k: K)
  {
    exists p :: 0 <= p < |ns| && k in ns[p]
  }

  /** The entries of `m` whose key is (with `keep`) or is not (without it) in `S`. */
  function Filter<K, V>(m: map<K, V>, S: set<K>, keep: bool): (r: map<K, V>)
    ensures r.Keys == if keep then m.Keys * S else m.Keys - S
    ensures forall k | k in r :: r[k] == m[k]
  {
    map k | k in m && (k in S) == keep :: m[k]
  }

  /** `r` holds the entries of `m` that `Filter(m, S, keep)` keeps, stated key by key. */
  ghost predicate IsFiltered<K, V>(r: map<K, V>, m: map<K, V>, S: set<K>, keep: bool)
  {
    && r.Keys <= m.Keys
    && (forall k | k in m :: (k in r) == ((k in S) == keep))
    && (forall k | k in r :: r[k] == m[k])
  }

  lemma FilterIsFiltered<K, V>(m: map<K, V>, S: set<K>, keep: bool)
    ensures IsFiltered(Filter(m, S, keep), m, S, keep)
  {
  }

  lemma FilteredIs<K, V>(r: map<K, V>, m: map<K, V>, S: set<K>, keep: bool)
    requires IsFiltered(r, m, S, keep)
    ensures r == Filter(m, S, keep)
  {
  }

  /** Intersection (`keep`) or difference (not `keep`) of `m` with every map
      of `ns`, taken left to right. */
  function FilterAll<K, V>(m: map<K, V>, ns: seq<map<K, V>>, keep: bool): map<K, V>
    decreases |ns|
  {
    if ns == [] then m else Filter(FilterAll(m, ns[..|ns| - 1], keep), ns[|ns| - 1].Keys, keep)
  }

  /** The number of maps of `ms` that hold key `k`. */
  function Occurrences<K, V>(ms: seq<map<K, V>>, k: K): nat
    decreases |ms|
  {
    if ms == [] then 0 else Occurrences(ms[..|ms| - 1], k) + (if k in ms[|ms| - 1] then 1 else 0)
  }

  /** The symmetric difference: the keys held by exactly one of `m` and the
      maps of `ns`, each with the value of the one map holding it. */
  function SymDiff<K, V>(m: map<K, V>, ns: seq<map<K, V>>): map<K, V>
  {
    var u := UnionAll(m, ns, false);
    map k | k in u && Occurrences([m] + ns, k) == 1 :: u[k]
  }

  /** A filtering sweep that has visited the keys `S` of `m`: the visited keys
      that passed the test (kept or dropped per `keep`) and every key not yet
      visited. */
  function Swept<K, V>(m: map<K, V>, S: set<K>, K0: set<K>, keep: bool): map<K, V>
  {
    map k | k in m && (k in S ==> (k in K0) == keep) :: m[k]
  }

  /** Visiting one more key `k` of `m` keeps or drops exactly that key; a sweep
      that has visited nothing holds `m` and one that has visited every key
      holds the filtered map. */
  lemma SweptStep<K, V>(m: map<K, V>, S: set<K>, K0: set<K>, keep: bool, k: K)
    requires k in m && k !in S
    ensures k in Swept(m, S, K0, keep)
    ensures Swept(m, S + {k}, K0, keep) ==
      if (k in K0) == keep then Swept(m, S, K0, keep) else Swept(m, S, K0, keep) - {k}
  {
  }

  lemma SweptEnds<K, V>(m: map<K, V>, K0: set<K>, keep: bool)
    ensures Swept(m, {}, K0, keep) == m
    ensures Swept(m, m.Keys, K0, keep) == Filter(m, K0, keep)
  {
  }

  /** The keys of the union are the keys of all operands. */
  lemma {:induction false} UnionKeys<K, V>(m: map<K, V>, ns: seq<map<K, V>>, reverse: bool, k: K)
    ensures k in UnionAll(m, ns, reverse) <==> k in m || InSome(ns, k)
    decreases |ns|
  {
    if ns != [] {
      var init := ns[..|ns| - 1];
      UnionKeys(m, init, reverse, k);
      if InSome(init, k) {
        var p :| 0 <= p < |init| && k in init[p];
        assert k in ns[p];
      }
      if InSome(ns, k) && k !in ns[|ns| - 1] {
        var p :| 0 <= p < |ns| && k in ns[p];
        assert k in init[p];
      }
    }
  }

  /** Without `reverse` the first operand holding a key decides its value:
      the entries of `m` are never replaced, and a key `m` lacks takes its
      value from the leftmost map of `ns` that holds it. */
  lemma {:induction false} UnionFirstWins<K, V>(m: map<K, V>, ns: seq<map<K, V>>, k: K)
    ensures k in m ==> UnionAll(m, ns, false)[k] == m[k]
    ensures forall p | 0 <= p < |ns| && k !in m && k in ns[p] && (forall q | 0 <= q < p :: k !in ns[q]) ::
      UnionAll(m, ns, false)[k] == ns[p][k]
    decreases |ns|
  {
    if ns != [] {
      var init := ns[..|ns| - 1];
      UnionFirstWins(m, init, k);
      UnionKeys(m, init, false, k);
      forall p | 0 <= p < |ns| && k !in m && k in ns[p] && (forall q | 0 <= q < p :: k !in ns[q])
        ensures UnionAll(m, ns, false)[k] == ns[p][k]
      {
        if p < |ns| - 1 {
          assert k in init[p];
          assert forall q | 0 <= q < p :: k !in init[q];
        } else {
          assert !InSome(init, k);
        }
      }
    }
  }

  /** With `reverse` the last operand holding a key decides its value: the
      rightmost map of `ns` that holds it, or `m` when none of them does. */
  lemma {:induction false} UnionLastWins<K, V>(m: map<K, V>, ns: seq<map<K, V>>, k: K)
    ensures k in m && !InSome(ns, k) ==> UnionAll(m, ns, true)[k] == m[k]
    ensures forall p | 0 <= p < |ns| && k in ns[p] && (forall q | p < q < |ns| :: k !in ns[q]) ::
      UnionAll(m, ns, true)[k] == ns[p][k]
    decreases |ns|
  {
    if ns != [] {
      var init := ns[..|ns| - 1];
      UnionLastWins(m, init, k);
      forall p | 0 <= p < |ns| && k in ns[p] && (forall q | p < q < |ns| :: k !in ns[q])
        ensures UnionAll(m, ns, true)[k] == ns[p][k]
      {
        if p < |ns| - 1 {
          assert k in init[p];
          assert forall q | p < q < |init| :: k !in init[q];
        }
      }
    }
  }

  /** Intersection keeps exactly the keys of `m` held by every map of `ns`,
      and difference exactly those held by none; both keep the values of `m`. */
  lemma {:induction false} FilterAllKeys<K, V>(m: map<K, V>, ns: seq<map<K, V>>, keep: bool, k: K)
    ensures k in FilterAll(m, ns, keep) <==> k in m && forall p | 0 <= p < |ns| :: (k in ns[p]) == keep
    ensures k in FilterAll(m, ns, keep) ==> FilterAll(m, ns, keep)[k] == m[k]
    decreases |ns|
  {
    if ns != [] {
      var init := ns[..|ns| - 1];
      FilterAllKeys(m, init, keep, k);
      if k in m && forall p | 0 <= p < |ns| :: (k in ns[p]) == keep {
        assert forall p | 0 <= p < |init| :: (k in init[p]) == keep by {
          forall p | 0 <= p < |init| ensures (k in init[p]) == keep {
            assert init[p] == ns[p];
          }
        }
      }
    }
  }

  /** A key occurs in some map exactly when its count is positive. */
  lemma {:induction false} OccurrencesPositive<K, V>(ms: seq<map<K, V>>, k: K)
    ensures Occurrences(ms, k) > 0 <==> InSome(ms, k)
    decreases |ms|
  {
    if ms != [] {
      var init := ms[..|ms| - 1];
      OccurrencesPositive(init, k);
      if InSome(init, k) {
        var p :| 0 <= p < |init| && k in init[p];
        assert k in ms[p];
      }
      if InSome(ms, k) && k !in ms[|ms| - 1] {
        var p :| 0 <= p < |ms| && k in ms[p];
        assert k in init[p];
      }
    }
  }

  /** A key lies in the symmetric difference exactly when one and only one of
      the operands (`m` included) holds it. */
  lemma SymDiffKeys<K, V>(m: map<K, V>, ns: seq<map<K, V>>, k: K)
    ensures k in SymDiff(m, ns) <==> Occurrences([m] + ns, k) == 1
  {
    UnionKeys(m, ns, false, k);
    OccurrencesPositive([m] + ns, k);
    if k in m {
      assert ([m] + ns)[0] == m;
    }
    if InSome(ns, k) {
      var p :| 0 <= p < |ns| && k in ns[p];
      assert ([m] + ns)[p + 1] == ns[p];
    }
    if InSome([m] + ns, k) && k !in m {
      var p :| 0 <= p < |[m] + ns| && k in ([m] + ns)[p];
      assert p > 0 && k in ns[p - 1];
    }
  }

  /** Sweeping one more key `k` of `n` into a union step: the key is added
      with its value from `n` when it is new or `reverse` holds, and nothing
      changes otherwise. A sweep that has seen nothing is no step at all, and
      one that has seen every key of `n` is the whole step. */
  lemma MergeRestrictStep<K, V>(m: map<K, V>, n: map<K, V>, S: set<K>, k: K, reverse: bool)
    requires k in n && k !in S
    ensures var u := Merge(m, Restrict(n, S), reverse);
      && (k in u <==> k in m)
      && Merge(m, Restrict(n, S + {k}), reverse) == if reverse || k !in u then u[k := n[k]] else u
  {
  }

  lemma MergeRestrictEnds<K, V>(m: map<K, V>, n: map<K, V>, reverse: bool)
    ensures Merge(m, Restrict(n, {}), reverse) == m
    ensures Merge(m, Restrict(n, n.Keys), reverse) == Merge(m, n, reverse)
  {
    assert Restrict(n, n.Keys) == n;
  }

  /** The union over the first `p + 1` operands is one more step from the
      union over the first `p`. */
  lemma UnionAllSnoc<K, V>(m: map<K, V>, ns: seq<map<K, V>>, reverse: bool, p: nat)
    requires p < |ns|
    ensures UnionAll(m, ns[..p + 1], reverse) == Merge(UnionAll(m, ns[..p], reverse), ns[p], reverse)
  {
    assert ns[..p + 1][..p] == ns[..p];
  }

  lemma FilterAllSnoc<K, V>(m: map<K, V>, ns: seq<map<K, V>>, keep: bool, p: nat)
    requires p < |ns|
    ensures FilterAll(m, ns[..p + 1], keep) == Filter(FilterAll(m, ns[..p], keep), ns[p].Keys, keep)
  {
    assert ns[..p + 1][..p] == ns[..p];
  }

  /** The keys held by at least two of `m` and the maps of `ns`: a key joins
      when an operand holds it and an earlier one (`m` included) held it. */
  function Twice<K, V>(m: map<K, V>, ns: seq<map<K, V>>): (T: set<K>)
    ensures T <= UnionAll(m, ns, false).Keys
    decreases |ns|
  {
    if ns == [] then {}
    else Twice(m, ns[..|ns| - 1]) + (UnionAll(m, ns[..|ns| - 1], false).Keys * ns[|ns| - 1].Keys)
  }

  lemma TwiceSnoc<K, V>(m: map<K, V>, ns: seq<map<K, V>>, p: nat)
    requires p < |ns|
    ensures Twice(m, ns[..p + 1]) == Twice(m, ns[..p]) + (UnionAll(m, ns[..p], false).Keys * ns[p].Keys)
  {
    assert ns[..p + 1][..p] == ns[..p];
  }

  /** Some map of `[m] + ns` holds `k` exactly when `m` or some map of `ns` does. */
  lemma InSomeCons<K, V>(m: map<K, V>, ns: seq<map<K, V>>, k: K)
    ensures InSome([m] + ns, k) <==> k in m || InSome(ns, k)
  {
    if k in m {
      assert ([m] + ns)[0] == m;
    }
    if InSome(ns, k) {
      var p :| 0 <= p < |ns| && k in ns[p];
      assert ([m] + ns)[p + 1] == ns[p];
    }
    if InSome([m] + ns, k) && k !in m {
      var p :| 0 <= p < |[m] + ns| && k in ([m] + ns)[p];
      assert p > 0 && k in ns[p - 1];
    }
  }

  /** A key of the union is held by exactly one operand or by at least two. */
  lemma UnionOccurrences<K, V>(m: map<K, V>, ns: seq<map<K, V>>, k: K)
    ensures k in UnionAll(m, ns, false) <==> Occurrences([m] + ns, k) >= 1
  {
    UnionKeys(m, ns, false, k);
    OccurrencesPositive([m] + ns, k);
    InSomeCons(m, ns, k);
  }

  /** `Twice` holds exactly the keys counted at least twice. */
  lemma {:induction false} TwiceOccurrences<K, V>(m: map<K, V>, ns: seq<map<K, V>>, k: K)
    ensures k in Twice(m, ns) <==> Occurrences([m] + ns, k) >= 2
    decreases |ns|
  {
    if ns != [] {
      var init := ns[..|ns| - 1];
      TwiceOccurrences(m, init, k);
      UnionOccurrences(m, init, k);
      assert ([m] + ns)[..|[m] + ns| - 1] == [m] + init;
      assert ([m] + ns)[|[m] + ns| - 1] == ns[|ns| - 1];
    }
  }

  /** The three passes of the symmetric difference compose to `SymDiff`: drop
      every key held twice from `m` and from the union, then add the
      remaining union keys that `m` lacks. */
  lemma SymDiffPasses<K, V>(m: map<K, V>, ns: seq<map<K, V>>)
    ensures Merge(m - Twice(m, ns), UnionAll(m, ns, false) - Twice(m, ns), false) == SymDiff(m, ns)
  {
    var u := UnionAll(m, ns, false);
    var T := Twice(m, ns);
    var r := Merge(m - T, u - T, false);
    var sd := SymDiff(m, ns);
    forall k | k in r ensures k in sd && r[k] == sd[k] {
      UnionOccurrences(m, ns, k);
      TwiceOccurrences(m, ns, k);
      UnionFirstWins(m, ns, k);
      assert k in u && Occurrences([m] + ns, k) == 1;
    }
    forall k | k in sd ensures k in r {
      TwiceOccurrences(m, ns, k);
    }
    assert r.Keys == sd.Keys;
  }

  /** For sets {1, 2, 3} and {2, 3, 4} the symmetric difference is {1, 4}. */
  lemma SymDiffExample()
    ensures SymDiff(map[1 := (), 2 := (), 3 := ()], [map[2 := (), 3 := (), 4 := ()]]).Keys == {1, 4}
  {
    var a: map<int, ()> := map[1 := (), 2 := (), 3 := ()];
    var b: map<int, ()> := map[2 := (), 3 := (), 4 := ()];
    forall k: int ensures k in SymDiff(a, [b]) <==> k in {1, 4} {
      SymDiffKeys(a, [b], k);
      assert [a] + [b] == [a, b];
      assert [a, b][..1] == [a];
      assert [a][..0] == [];
      assert Occurrences([a], k) == if k in a then 1 else 0;
      assert Occurrences([a, b], k) == (if k in a then 1 else 0) + (if k in b then 1 else 0);
    }
  }
}
