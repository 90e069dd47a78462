/** Value-level view of the bucket array: a sequence of chains, each chain the
    sequence of entries reachable from one bucket head (index 0 is the head).

    `TableInv` is the representation invariant of a table: every entry sits in
    bucket `hash % nbuckets` with its cached hash, keys are unique, the chains
    hold exactly the key/value pairs of an abstract map, and the total number of
    chain nodes equals the size of that map. The lemmas say how prepending,
    unlinking and overwriting one node keep it, and how a sweep over all
    buckets in order visits every key exactly once (`Seen`). */
module Chains {
  import opened Wrappers

  /** An `unsigned int`. */
  type u32 = x: int | 0 <= x < 0x1_0000_0000

  /** One chain node without its `next` link: cached full hash, key, and value
      (`None` for key-only entries of a set). */
  datatype Entry<K, V> = Entry(hash: u32, key: K, val: Option<V>)

  /** Some node of chain `c` carries key `k`. */
  ghost predicate InChain<K, V>(c: seq<Entry<K, V>>, k: K)
  {
    exists b :: 0 <= b < |c| && c[b].key == k
  }

  /** Some node among the first `j` of chain `c` carries key `k`. */
  ghost predicate InPrefix<K, V>(c: seq<Entry<K, V>>, j: nat, k: K)
  {
    exists b :: 0 <= b < j && b < |c| && c[b].key == k
  }

  /** Total number of chain nodes. */
  function TotalLength<K, V>(t: seq<seq<Entry<K, V>>>): nat
  {
    if t == [] then 0 else TotalLength(t[..|t| - 1]) + |t[|t| - 1]|
  }

  /** Every node caches the hash of its key and sits in bucket `hash % |t|`. */
  ghost predicate Placed<K, V>(t: seq<seq<Entry<K, V>>>, hashfp: K -> u32)
  {
    forall a, b | 0 <= a < |t| && 0 <= b < |t[a]| ::
      t[a][b].hash == hashfp(t[a][b].key) && t[a][b].hash % |t| == a
  }

  /** Nodes `b1` and `b2` of chain `c` carry the same key. */
  ghost predicate Clash<K, V>(c: seq<Entry<K, V>>, b1: int, b2: int)
  {
    0 <= b1 < |c| && 0 <= b2 < |c| && c[b1].key == c[b2].key
  }

  /** No chain holds a key twice. (The trigger keeps this fact dormant until a
      proof names two nodes of one chain with `Clash`.) */
  ghost predicate ChainsDistinct<K, V>(t: seq<seq<Entry<K, V>>>)
  {
    forall a, b1, b2 {:trigger Clash(t[a], b1, b2)} | 0 <= a < |t| && Clash(t[a], b1, b2) :: b1 == b2
  }

  /** Every node agrees with map `m` and its key belongs to `D`. */
  ghost predicate Sound<K, V>(t: seq<seq<Entry<K, V>>>, m: map<K, Option<V>>, D: set<K>)
  {
    forall a, b | 0 <= a < |t| && 0 <= b < |t[a]| ::
      t[a][b].key in D && t[a][b].key in m && m[t[a][b].key] == t[a][b].val
  }

  /** Every key of `D` has a node in the bucket its hash selects. */
  ghost predicate Covers<K, V>(t: seq<seq<Entry<K, V>>>, hashfp: K -> u32, D: set<K>)
    requires |t| > 0
  {
    forall k | k in D :: InChain(t[hashfp(k) % |t|], k)
  }

  /** The chains hold exactly the keys of `D`, with the values of `m`. */
  ghost predicate PartialInv<K, V>(t: seq<seq<Entry<K, V>>>, hashfp: K -> u32, m: map<K, Option<V>>, D: set<K>)
  {
    && |t| > 0
    && Placed(t, hashfp)
    && ChainsDistinct(t)
    && Sound(t, m, D)
    && Covers(t, hashfp, D)
    && TotalLength(t) == |D|
  }

  /** The representation invariant: the chains represent the map `m`. */
  ghost predicate TableInv<K, V>(t: seq<seq<Entry<K, V>>>, hashfp: K -> u32, m: map<K, Option<V>>)
  {
    PartialInv(t, hashfp, m, m.Keys)
  }

  /** Set entries (`keyOnly`) have no value; map entries always have one. */
  ghost predicate ShapedMap<K, V>(m: map<K, Option<V>>, keyOnly: bool)
  {
    forall k | k in m :: m[k].None? == keyOnly
  }

  /** Dropping a key keeps the shape. */
  lemma ShapedRemove<K, V>(m: map<K, Option<V>>, key: K, keyOnly: bool)
    requires ShapedMap(m, keyOnly)
    ensures ShapedMap(m - {key}, keyOnly)
  {
  }

  /** `n` empty buckets. */
  function EmptyBuckets<K, V>(n: nat): (t: seq<seq<Entry<K, V>>>)
    ensures |t| == n && forall a | 0 <= a < n :: t[a] == []
  {
    seq(n, _ => [])
  }

  lemma {:induction false} TotalLengthEmpty<K, V>(t: seq<seq<Entry<K, V>>>)
    requires forall a | 0 <= a < |t| :: t[a] == []
    ensures TotalLength(t) == 0
  {
    if t != [] {
      TotalLengthEmpty(t[..|t| - 1]);
    }
  }

  /** Replacing one chain changes the node count by the difference in length. */
  lemma {:induction false} TotalLengthUpdate<K, V>(t: seq<seq<Entry<K, V>>>, s: nat, c: seq<Entry<K, V>>)
    requires s < |t|
    ensures TotalLength(t[s := c]) + |t[s]| == TotalLength(t) + |c|
  {
    var u := t[s := c];
    if s < |t| - 1 {
      assert u[..|u| - 1] == t[..|t| - 1][s := c];
      TotalLengthUpdate(t[..|t| - 1], s, c);
    } else {
      assert u[..|u| - 1] == t[..|t| - 1];
    }
  }

  /** An empty bucket array represents the empty map. */
  lemma EmptyInv<K, V>(n: nat, hashfp: K -> u32, m: map<K, Option<V>>)
    requires n > 0
    ensures PartialInv(EmptyBuckets<K, V>(n), hashfp, m, {})
  {
    TotalLengthEmpty(EmptyBuckets<K, V>(n));
  }

  /** A table representing the empty map has no nodes at all, so it is the
      empty start of a fill with the entries of any other map. */
  lemma EmptyTableInv<K, V>(t: seq<seq<Entry<K, V>>>, hashfp: K -> u32, m: map<K, Option<V>>)
    requires TableInv(t, hashfp, map[])
    ensures PartialInv(t, hashfp, m, {})
  {
  }

  /** Prepending (`e->next = buckets[s]; buckets[s] = e`) a node for a key not yet
      present, in the bucket its hash selects, adds exactly that key. */
  lemma PrependInv<K, V>(t: seq<seq<Entry<K, V>>>, hashfp: K -> u32, m: map<K, Option<V>>, D: set<K>, e: Entry<K, V>)
    requires PartialInv(t, hashfp, m, D)
    requires e.hash == hashfp(e.key) && e.key in m && m[e.key] == e.val && e.key !in D
    ensures PartialInv(t[e.hash % |t| := [e] + t[e.hash % |t|]], hashfp, m, D + {e.key})
  {
    var s := e.hash % |t|;
    TotalLengthUpdate(t, s, [e] + t[s]);
    PrependKeeps(t, hashfp, m, D, e);
    PrependCovers(t, hashfp, m, D, e);
  }

  lemma PrependKeeps<K, V>(t: seq<seq<Entry<K, V>>>, hashfp: K -> u32, m: map<K, Option<V>>, D: set<K>, e: Entry<K, V>)
    requires PartialInv(t, hashfp, m, D)
    requires e.hash == hashfp(e.key) && e.key in m && m[e.key] == e.val && e.key !in D
    ensures var u := t[e.hash % |t| := [e] + t[e.hash % |t|]];
      Placed(u, hashfp) && ChainsDistinct(u) && Sound(u, m, D + {e.key})
  {
    var s := e.hash % |t|;
    var c: seq<Entry<K, V>> := [e] + t[s];
    var u: seq<seq<Entry<K, V>>> := t[s := c];
    assert forall b | 1 <= b < |c| :: c[b] == t[s][b - 1];
    forall a, b | 0 <= a < |u| && 0 <= b < |u[a]|
      ensures u[a][b].hash == hashfp(u[a][b].key) && u[a][b].hash % |u| == a
      ensures u[a][b].key in D + {e.key} && u[a][b].key in m && m[u[a][b].key] == u[a][b].val
    {
      if a == s && b > 0 {
        assert u[a][b] == t[s][b - 1];
      }
    }
    forall a, b1, b2 | 0 <= a < |u| && Clash(u[a], b1, b2) ensures b1 == b2 {
      if a != s {
        assert Clash(t[a], b1, b2);
      } else if b1 > 0 && b2 > 0 {
        assert Clash(t[s], b1 - 1, b2 - 1);
      }
    }
  }

  lemma PrependCovers<K, V>(t: seq<seq<Entry<K, V>>>, hashfp: K -> u32, m: map<K, Option<V>>, D: set<K>, e: Entry<K, V>)
    requires PartialInv(t, hashfp, m, D)
    requires e.hash == hashfp(e.key)
    ensures Covers(t[e.hash % |t| := [e] + t[e.hash % |t|]], hashfp, D + {e.key})
  {
    var s := e.hash % |t|;
    var u := t[s := [e] + t[s]];
    forall k | k in D + {e.key} ensures InChain(u[hashfp(k) % |u|], k) {
      if k == e.key {
        assert u[s][0].key == k;
      } else {
        var a := hashfp(k) % |t|;
        var b :| 0 <= b < |t[a]| && t[a][b].key == k;
        if a == s {
          assert u[s][b + 1].key == k;
        } else {
          assert u[a][b].key == k;
        }
      }
    }
  }

  /** Inserting a fresh key: the chains then represent `m[e.key := e.val]`. */
  lemma InsertInv<K, V>(t: seq<seq<Entry<K, V>>>, hashfp: K -> u32, m: map<K, Option<V>>, e: Entry<K, V>)
    requires TableInv(t, hashfp, m)
    requires e.hash == hashfp(e.key) && e.key !in m
    ensures TableInv(t[e.hash % |t| := [e] + t[e.hash % |t|]], hashfp, m[e.key := e.val])
  {
    var m' := m[e.key := e.val];
    assert PartialInv(t, hashfp, m', m.Keys);
    PrependInv(t, hashfp, m', m.Keys, e);
    assert m.Keys + {e.key} == m'.Keys;
  }

  /** The chain `c` with node `j` unlinked. */
  function Unlinked<K, V>(c: seq<Entry<K, V>>, j: nat): (d: seq<Entry<K, V>>)
    requires j < |c|
    ensures |d| == |c| - 1
    ensures forall b | 0 <= b < |d| :: d[b] == if b < j then c[b] else c[b + 1]
  {
    c[..j] + c[j + 1..]
  }

  /** After unlinking node `j`, the chain from position `j` on is the old
      chain after `j`. */
  lemma UnlinkedSuffix<K, V>(c: seq<Entry<K, V>>, j: nat)
    requires j < |c|
    ensures Unlinked(c, j)[j..] == c[j + 1..]
  {
  }

  /** When chain `c` from `p` on matches chain `d` from `j` on, so do their
      tails after those nodes. */
  lemma SuffixStep<K, V>(c: seq<Entry<K, V>>, d: seq<Entry<K, V>>, p: nat, j: nat)
    requires p < |c| && j <= |d| && c[p..] == d[j..]
    ensures j < |d| && c[p] == d[j] && c[p + 1..] == d[j + 1..]
  {
    assert c[p..][0] == c[p];
    assert c[p + 1..] == c[p..][1..];
    assert d[j + 1..] == d[j..][1..];
  }

  /** Unlinking node `j` of chain `s` removes exactly its key. */
  lemma RemoveInv<K, V>(t: seq<seq<Entry<K, V>>>, hashfp: K -> u32, m: map<K, Option<V>>, s: nat, j: nat)
    requires TableInv(t, hashfp, m)
    requires s < |t| && j < |t[s]|
    ensures var k := t[s][j].key;
      && k in m
      && TableInv(t[s := Unlinked(t[s], j)], hashfp, m - {k})
      && |m - {k}| == |m| - 1
  {
    var k := t[s][j].key;
    var u := t[s := Unlinked(t[s], j)];
    var m' := m - {k};
    assert m'.Keys == m.Keys - {k};
    TotalLengthUpdate(t, s, u[s]);
    RemoveKeeps(t, hashfp, m, s, j);
    RemoveCovers(t, hashfp, m, s, j);
  }

  lemma RemoveKeeps<K, V>(t: seq<seq<Entry<K, V>>>, hashfp: K -> u32, m: map<K, Option<V>>, s: nat, j: nat)
    requires TableInv(t, hashfp, m)
    requires s < |t| && j < |t[s]|
    ensures var u := t[s := Unlinked(t[s], j)];
      Placed(u, hashfp) && ChainsDistinct(u) && Sound(u, m - {t[s][j].key}, m.Keys - {t[s][j].key})
  {
    var k := t[s][j].key;
    var u := t[s := Unlinked(t[s], j)];
    forall a, b | 0 <= a < |u| && 0 <= b < |u[a]|
      ensures u[a][b] == t[a][if a == s && b >= j then b + 1 else b]
    {
    }
    forall a, b | 0 <= a < |u| && 0 <= b < |u[a]| ensures u[a][b].key != k {
      var b' := if a == s && b >= j then b + 1 else b;
      assert t[a][b'].hash % |t| == a;
      assert Clash(t[s], b', j) ==> b' == j;
    }
    forall a, b1, b2 | 0 <= a < |u| && Clash(u[a], b1, b2) ensures b1 == b2 {
      var c1 := if a == s && b1 >= j then b1 + 1 else b1;
      var c2 := if a == s && b2 >= j then b2 + 1 else b2;
      assert Clash(t[a], c1, c2);
    }
  }

  lemma RemoveCovers<K, V>(t: seq<seq<Entry<K, V>>>, hashfp: K -> u32, m: map<K, Option<V>>, s: nat, j: nat)
    requires TableInv(t, hashfp, m)
    requires s < |t| && j < |t[s]|
    ensures Covers(t[s := Unlinked(t[s], j)], hashfp, m.Keys - {t[s][j].key})
  {
    var k := t[s][j].key;
    var u := t[s := Unlinked(t[s], j)];
    forall k' | k' in m.Keys - {k} ensures InChain(u[hashfp(k') % |u|], k') {
      var a := hashfp(k') % |t|;
      var b :| 0 <= b < |t[a]| && t[a][b].key == k';
      if a == s && b > j {
        assert u[s][b - 1].key == k';
      } else {
        assert u[a][b].key == k';
      }
    }
  }

  /** Overwriting node `j` of chain `s` with `e`, which has the same key and
      hash, changes only that key's value. */
  lemma ReplaceInv<K, V>(t: seq<seq<Entry<K, V>>>, hashfp: K -> u32, m: map<K, Option<V>>, s: nat, j: nat, e: Entry<K, V>)
    requires TableInv(t, hashfp, m)
    requires s < |t| && j < |t[s]| && e.key == t[s][j].key && e.hash == t[s][j].hash
    ensures TableInv(t[s := t[s][j := e]], hashfp, m[e.key := e.val])
  {
    var k := e.key;
    var u := t[s := t[s][j := e]];
    var m' := m[k := e.val];
    assert m'.Keys == m.Keys;
    TotalLengthUpdate(t, s, u[s]);
    forall a, b | 0 <= a < |u| && 0 <= b < |u[a]|
      ensures u[a][b].key == t[a][b].key && u[a][b].hash == t[a][b].hash
      ensures u[a][b].val == if a == s && b == j then e.val else t[a][b].val
    {
    }
    forall a, b | 0 <= a < |u| && 0 <= b < |u[a]|
      ensures u[a][b].key in m' && m'[u[a][b].key] == u[a][b].val
    {
      assert t[a][b].hash % |t| == a;
      assert Clash(t[s], b, j) ==> b == j;
    }
    forall k' | k' in m'.Keys ensures InChain(u[hashfp(k') % |u|], k') {
      var b :| 0 <= b < |t[hashfp(k') % |t|]| && t[hashfp(k') % |t|][b].key == k';
      assert u[hashfp(k') % |t|][b].key == k';
    }
    forall a, b1, b2 | 0 <= a < |u| && Clash(u[a], b1, b2) ensures b1 == b2 {
      assert Clash(t[a], b1, b2);
    }
  }

  /** Under the invariant, a node with the key's hash and the key is found in the
      key's bucket exactly when the key is present, and it carries the key's value. */
  lemma FindInv<K, V>(t: seq<seq<Entry<K, V>>>, hashfp: K -> u32, m: map<K, Option<V>>, k: K)
    requires TableInv(t, hashfp, m)
    ensures var c := t[hashfp(k) % |t|];
      && (k in m <==> exists b :: 0 <= b < |c| && c[b].hash == hashfp(k) && c[b].key == k)
      && (forall b | 0 <= b < |c| && c[b].key == k :: k in m && c[b].val == m[k])
  {
  }

  /** Every node carries a key of `m`, that key's value and that key's hash. */
  lemma NodeFacts<K, V>(t: seq<seq<Entry<K, V>>>, hashfp: K -> u32, m: map<K, Option<V>>, i: nat, j: nat)
    requires TableInv(t, hashfp, m) && i < |t| && j < |t[i]|
    ensures t[i][j].key in m && m[t[i][j].key] == t[i][j].val && t[i][j].hash == hashfp(t[i][j].key)
  {
  }

  /** Keys visited by a sweep standing at node `j` of bucket `i`: all keys of
      earlier buckets and the keys of the first `j` nodes of bucket `i`. */
  ghost function Seen<K, V>(t: seq<seq<Entry<K, V>>>, hashfp: K -> u32, m: map<K, Option<V>>, i: nat, j: nat): set<K>
    requires |t| > 0
  {
    set k | k in m && (hashfp(k) % |t| < i || (hashfp(k) % |t| == i && i < |t| && InPrefix(t[i], j, k)))
  }

  lemma SeenStart<K, V>(t: seq<seq<Entry<K, V>>>, hashfp: K -> u32, m: map<K, Option<V>>)
    requires |t| > 0
    ensures Seen(t, hashfp, m, 0, 0) == {}
  {
  }

  /** Visiting node `j` of bucket `i` adds its key, which had not been seen. */
  lemma SeenStep<K, V>(t: seq<seq<Entry<K, V>>>, hashfp: K -> u32, m: map<K, Option<V>>, i: nat, j: nat)
    requires TableInv(t, hashfp, m)
    requires i < |t| && j < |t[i]|
    ensures t[i][j].key in m && t[i][j].key !in Seen(t, hashfp, m, i, j)
    ensures Seen(t, hashfp, m, i, j + 1) == Seen(t, hashfp, m, i, j) + {t[i][j].key}
  {
    var k := t[i][j].key;
    forall k' | k' in Seen(t, hashfp, m, i, j + 1) ensures k' in Seen(t, hashfp, m, i, j) + {k} {
      if hashfp(k') % |t| == i && k' != k {
        var b :| 0 <= b < j + 1 && b < |t[i]| && t[i][b].key == k';
        assert b < j;
      }
    }
    if k in Seen(t, hashfp, m, i, j) {
      assert t[i][j].hash % |t| == i;
      var b :| 0 <= b < j && b < |t[i]| && t[i][b].key == k;
      assert Clash(t[i], b, j);
    }
    assert InPrefix(t[i], j + 1, k) by {
      assert t[i][j].key == k;
    }
  }

  /** Leaving bucket `i` after its last node is entering bucket `i + 1`. */
  lemma SeenNext<K, V>(t: seq<seq<Entry<K, V>>>, hashfp: K -> u32, m: map<K, Option<V>>, i: nat)
    requires TableInv(t, hashfp, m)
    requires i < |t|
    ensures Seen(t, hashfp, m, i, |t[i]|) == Seen(t, hashfp, m, i + 1, 0)
  {
    forall k | k in Seen(t, hashfp, m, i + 1, 0) ensures k in Seen(t, hashfp, m, i, |t[i]|) {
      if hashfp(k) % |t| == i {
        var b :| 0 <= b < |t[i]| && t[i][b].key == k;
        assert InPrefix(t[i], |t[i]|, k);
      }
    }
  }

  /** The bucket array after prepending `e` to the bucket its hash selects. */
  function Prepended<K, V>(t: seq<seq<Entry<K, V>>>, e: Entry<K, V>): (u: seq<seq<Entry<K, V>>>)
    requires |t| > 0
    ensures |u| == |t|
  {
    t[e.hash % |t| := [e] + t[e.hash % |t|]]
  }

  /** One step of a rehash: moving node `j` of old chain `i` into the new array. */
  lemma RehashStep<K, V>(t0: seq<seq<Entry<K, V>>>, t: seq<seq<Entry<K, V>>>, hashfp: K -> u32, m: map<K, Option<V>>, i: nat, j: nat)
    requires TableInv(t0, hashfp, m)
    requires i < |t0| && j < |t0[i]|
    requires PartialInv(t, hashfp, m, Seen(t0, hashfp, m, i, j))
    ensures PartialInv(Prepended(t, t0[i][j]), hashfp, m, Seen(t0, hashfp, m, i, j + 1))
  {
    SeenStep(t0, hashfp, m, i, j);
    PrependInv(t, hashfp, m, Seen(t0, hashfp, m, i, j), t0[i][j]);
  }

  /** A sweep past the last bucket has seen every key. */
  lemma SeenAll<K, V>(t: seq<seq<Entry<K, V>>>, hashfp: K -> u32, m: map<K, Option<V>>)
    requires |t| > 0
    ensures Seen(t, hashfp, m, |t|, 0) == m.Keys
  {
  }

  /** A rehash that has moved every old chain represents the whole map. */
  lemma RehashDone<K, V>(t0: seq<seq<Entry<K, V>>>, t: seq<seq<Entry<K, V>>>, hashfp: K -> u32, m: map<K, Option<V>>)
    requires |t0| > 0
    requires PartialInv(t, hashfp, m, Seen(t0, hashfp, m, |t0|, 0))
    ensures TableInv(t, hashfp, m)
  {
    SeenAll(t0, hashfp, m);
  }

  /** The node count equals the number of keys. */
  lemma NodeCount<K, V>(t: seq<seq<Entry<K, V>>>, hashfp: K -> u32, m: map<K, Option<V>>)
    requires TableInv(t, hashfp, m)
    ensures TotalLength(t) == |m|
  {
    assert |m.Keys| == |m|;
  }
}
