/** The two list-valued passes of ghash_symmetric_difference, as values.

    The first pass walks every operand node by node: a key already in the
    table `keys` is appended to `rem_keys`, any other key is inserted into
    `keys` with its value. `NodeStep`, `ChainStep` and `TableStep` are that
    walk folded over a node, a chain and a bucket array; the methods of
    `GHashOps` are proved to perform exactly these folds, and the lemmas here
    say what a fold over one operand computes: `keys` gains the operand
    without overriding, and `rem_keys` gains the keys it already held. The second pass drops the listed keys (`DropAll`). */
module SymPass {
  import opened Wrappers
  import opened Chains
  import opened Algebra

  /** The state of the first pass: the contents of `keys`, and `rem_keys`
      as the list of its keys in insertion order (duplicates allowed). */
  datatype Pass<K, V> = Pass(keys: map<K, Option<V>>, rem: seq<K>)

  /** The keys listed in `rem`. */
  ghost function KeysOf<K>(rem: seq<K>): set<K>
    decreases |rem|
  {
    if rem == [] then {} else KeysOf(rem[..|rem| - 1]) + {rem[|rem| - 1]}
  }

  lemma KeysOfAppend<K>(rem: seq<K>, k: K)
    ensures KeysOf(rem + [k]) == KeysOf(rem) + {k}
  {
    assert (rem + [k])[..|rem|] == rem;
  }

  /** One node of an operand. */
  ghost function NodeStep<K, V>(p: Pass<K, V>, e: Entry<K, V>): Pass<K, V>
  {
    if e.key in p.keys then Pass(p.keys, p.rem + [e.key]) else Pass(p.keys[e.key := e.val], p.rem)
  }

  /** The nodes of one chain, head first. */
  ghost function ChainStep<K, V>(p: Pass<K, V>, c: seq<Entry<K, V>>): Pass<K, V>
    decreases |c|
  {
    if c == [] then p else NodeStep(ChainStep(p, c[..|c| - 1]), c[|c| - 1])
  }

  /** The chains of one bucket array, bucket 0 first. */
  ghost function TableStep<K, V>(p: Pass<K, V>, t: seq<seq<Entry<K, V>>>): Pass<K, V>
    decreases |t|
  {
    if t == [] then p else ChainStep(TableStep(p, t[..|t| - 1]), t[|t| - 1])
  }

  lemma ChainStepSnoc<K, V>(p: Pass<K, V>, c: seq<Entry<K, V>>, j: nat)
    requires j < |c|
    ensures ChainStep(p, c[..j + 1]) == NodeStep(ChainStep(p, c[..j]), c[j])
  {
    assert c[..j + 1][..j] == c[..j];
  }

  lemma TableStepSnoc<K, V>(p: Pass<K, V>, t: seq<seq<Entry<K, V>>>, i: nat)
    requires i < |t|
    ensures TableStep(p, t[..i + 1]) == ChainStep(TableStep(p, t[..i]), t[i])
  {
    assert t[..i + 1][..i] == t[..i];
  }

  /** Part way through operand `n`: `keys` is the union `u` seen before `n`
      plus the keys `S` of `n` visited so far, and `rem_keys` lists the keys
      `T` seen twice before `n` plus the visited keys of `n` already in `u`. */
  ghost predicate Partway<K, V>(p: Pass<K, V>, u: map<K, Option<V>>, n: map<K, Option<V>>, S: set<K>, T: set<K>)
  {
    p.keys == Merge(u, Restrict(n, S), false) && KeysOf(p.rem) == T + u.Keys * S
  }

  /** One node whose key `k` of `n` was not yet visited. */
  lemma NodePartway<K, V>(q: Pass<K, V>, e: Entry<K, V>, u: map<K, Option<V>>, n: map<K, Option<V>>, S: set<K>, T: set<K>)
    requires Partway(q, u, n, S, T) && e.key in n && e.key !in S && n[e.key] == e.val
    ensures Partway(NodeStep(q, e), u, n, S + {e.key}, T)
  {
    MergeRestrictStep(u, n, S, e.key, false);
    KeysOfAppend(q.rem, e.key);
  }

  /** Walking the first `j` nodes of chain `i` of a bucket array `t` of `n`. */
  lemma {:induction false} ChainSpec<K, V>(p: Pass<K, V>, t: seq<seq<Entry<K, V>>>, hashfp: K -> u32,
                                           n: map<K, Option<V>>, i: nat, j: nat, u: map<K, Option<V>>, T: set<K>)
    requires TableInv(t, hashfp, n) && i < |t| && j <= |t[i]|
    requires Partway(p, u, n, Seen(t, hashfp, n, i, 0), T)
    ensures Partway(ChainStep(p, t[i][..j]), u, n, Seen(t, hashfp, n, i, j), T)
    decreases j
  {
    if j == 0 {
      assert t[i][..0] == [];
    } else {
      ChainSpec(p, t, hashfp, n, i, j - 1, u, T);
      ChainStepSnoc(p, t[i], j - 1);
      NodeFacts(t, hashfp, n, i, j - 1);
      SeenStep(t, hashfp, n, i, j - 1);
      NodePartway(ChainStep(p, t[i][..j - 1]), t[i][j - 1], u, n, Seen(t, hashfp, n, i, j - 1), T);
    }
  }

  /** Walking the whole chain `i` of a bucket array `t` of `n`. */
  lemma ChainWhole<K, V>(q: Pass<K, V>, t: seq<seq<Entry<K, V>>>, hashfp: K -> u32,
                         n: map<K, Option<V>>, i: nat, u: map<K, Option<V>>, T: set<K>)
    requires TableInv(t, hashfp, n) && i < |t|
    requires Partway(q, u, n, Seen(t, hashfp, n, i, 0), T)
    ensures Partway(ChainStep(q, t[i]), u, n, Seen(t, hashfp, n, i + 1, 0), T)
  {
    ChainSpec(q, t, hashfp, n, i, |t[i]|, u, T);
    assert t[i][..|t[i]|] == t[i];
    SeenNext(t, hashfp, n, i);
  }

  /** Walking the first `i` chains of a bucket array `t` of `n`. */
  lemma {:induction false} TablePrefixSpec<K, V>(p: Pass<K, V>, t: seq<seq<Entry<K, V>>>, hashfp: K -> u32,
                                                 n: map<K, Option<V>>, i: nat, u: map<K, Option<V>>, T: set<K>)
    requires TableInv(t, hashfp, n) && i <= |t|
    requires Partway(p, u, n, {}, T)
    ensures Partway(TableStep(p, t[..i]), u, n, Seen(t, hashfp, n, i, 0), T)
    decreases i
  {
    if i == 0 {
      SeenStart(t, hashfp, n);
      assert t[..0] == [];
    } else {
      TablePrefixSpec(p, t, hashfp, n, i - 1, u, T);
      TableStepSnoc(p, t, i - 1);
      ChainWhole(TableStep(p, t[..i - 1]), t, hashfp, n, i - 1, u, T);
    }
  }

  /** Before the first node of operand `n`. */
  lemma PartwayStart<K, V>(p: Pass<K, V>, n: map<K, Option<V>>)
    ensures Partway(p, p.keys, n, {}, KeysOf(p.rem))
  {
    MergeRestrictEnds(p.keys, n, false);
  }

  /** After the last node of operand `n`. */
  lemma PartwayDone<K, V>(q: Pass<K, V>, u: map<K, Option<V>>, n: map<K, Option<V>>, T: set<K>)
    requires Partway(q, u, n, n.Keys, T)
    ensures q.keys == Merge(u, n, false) && KeysOf(q.rem) == T + u.Keys * n.Keys
  {
    MergeRestrictEnds(u, n, false);
  }

  /** One whole operand `n`: `keys` gains `n` without overriding, and
      `rem_keys` gains the keys of `n` that `keys` already held. */
  lemma TableSpec<K, V>(p: Pass<K, V>, t: seq<seq<Entry<K, V>>>, hashfp: K -> u32, n: map<K, Option<V>>)
    requires TableInv(t, hashfp, n)
    ensures TableStep(p, t).keys == Merge(p.keys, n, false)
    ensures KeysOf(TableStep(p, t).rem) == KeysOf(p.rem) + p.keys.Keys * n.Keys
  {
    PartwayStart(p, n);
    TablePrefixSpec(p, t, hashfp, n, |t|, p.keys, KeysOf(p.rem));
    assert t[..|t|] == t;
    SeenAll(t, hashfp, n);
    PartwayDone(TableStep(p, t), p.keys, n, KeysOf(p.rem));
  }

  /** `m` without the keys listed in `rem`, removed one at a time. */
  ghost function DropAll<K, V>(m: map<K, V>, rem: seq<K>): map<K, V>
    decreases |rem|
  {
    if rem == [] then m else DropAll(m, rem[..|rem| - 1]) - {rem[|rem| - 1]}
  }

  lemma DropAllSnoc<K, V>(m: map<K, V>, rem: seq<K>, b: nat)
    requires b < |rem|
    ensures DropAll(m, rem[..b + 1]) == DropAll(m, rem[..b]) - {rem[b]}
  {
    assert rem[..b + 1][..b] == rem[..b];
  }

  /** Removing the listed keys one at a time removes the set of them; a key
      listed twice is simply absent the second time. */
  lemma {:induction false} DropAllKeys<K, V>(m: map<K, V>, rem: seq<K>)
    ensures DropAll(m, rem) == m - KeysOf(rem)
    decreases |rem|
  {
    if rem != [] {
      DropAllKeys(m, rem[..|rem| - 1]);
    }
  }

  /** The three passes compose to the symmetric difference: drop every key
      listed in `rem_keys` from `m` and from the union, then add the union's
      remaining keys that `m` lacks. */
  lemma SymDiffDrop<K, V>(m: map<K, V>, ns: seq<map<K, V>>, rem: seq<K>)
    requires KeysOf(rem) == Twice(m, ns)
    ensures Merge(DropAll(m, rem), DropAll(UnionAll(m, ns, false), rem), false) == SymDiff(m, ns)
  {
    DropAllKeys(m, rem);
    DropAllKeys(UnionAll(m, ns, false), rem);
    SymDiffPasses(m, ns);
  }

  /** The debug assertion of the second pass as written: every key listed
      in `rem_keys` is still in `keys` when its turn comes. */
  ghost predicate ListedStillPresent<K, V>(m: map<K, V>, rem: seq<K>)
  {
    forall b | 0 <= b < |rem| :: rem[b] in DropAll(m, rem[..b])
  }

  /** A key held by three tables is listed twice: a first table holding
      1, then two operands holding 1, each with one node in one bucket. */
  lemma ThreeTablesListTwice(e: Entry<int, ()>)
    requires e == Entry(0, 1, None)
    ensures TableStep(TableStep(Pass(map[1 := None], []), [[e]]), [[e]]) == Pass(map[1 := None], [1, 1])
  {
    var p0 := Pass(map[1 := None], []);
    assert [[e]][..0] == [] && [e][..0] == [];
    assert TableStep(p0, [[e]]) == ChainStep(p0, [e]) == NodeStep(p0, e);
    var p1 := TableStep(p0, [[e]]);
    assert p1 == Pass(map[1 := None], [1]);
    assert TableStep(p1, [[e]]) == ChainStep(p1, [e]) == NodeStep(p1, e);
  }

  /** The assertion fails at the second listing of a key: it was dropped
      at the first. */
  lemma ListedTwiceBreaksAssertion<V>(m: map<int, V>)
    requires m.Keys == {1}
    ensures !ListedStillPresent(m, [1, 1])
  {
    assert [1, 1][..1] == [1] && [1][..0] == [];
    assert DropAll(m, [1, 1][..1]) == m - {1};
  }
}
