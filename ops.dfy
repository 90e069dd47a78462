/** The multi-operand operations of BLI_ghash.c (union, intersection,
    difference, symmetric difference) and the relational predicates.

    The table written to (`gh1`) is a `GHash` object. The other operands are
    only read, so every sweep over an operand walks a value snapshot of its
    bucket array (`ts[p]`, representing `ns[p]`); the public entry points take
    the snapshots before anything changes and require `gh1` to share no
    memory with the operands. */
module GHashOps {
  import opened Wrappers
  import opened Chains
  import opened Algebra
  import opened GHashTable
  import opened SymPass

  /** The contents of every table of `gs`, in order. */
  ghost function ContentsOf<K, V>(gs: seq<GHash<K, V>>): (ns: seq<map<K, Option<V>>>)
    reads set q | 0 <= q < |gs| :: gs[q]
    ensures |ns| == |gs| && forall q | 0 <= q < |gs| :: ns[q] == gs[q].Contents
    decreases |gs|
  {
    if gs == [] then [] else ContentsOf(gs[..|gs| - 1]) + [gs[|gs| - 1].Contents]
  }

  /** `ts[p]` is a bucket array representing `ns[p]` under `hashfp`. */
  ghost predicate Tables<K, V>(ts: seq<seq<seq<Entry<K, V>>>>, hashfp: K -> u32, ns: seq<map<K, Option<V>>>)
  {
    |ts| == |ns| && forall p | 0 <= p < |ts| :: TableInv(ts[p], hashfp, ns[p])
  }

  /** Every map of `ns` has the entry shape `keyOnly`. */
  ghost predicate AllShaped<K, V>(ns: seq<map<K, Option<V>>>, keyOnly: bool)
  {
    forall p | 0 <= p < |ns| :: ShapedMap(ns[p], keyOnly)
  }

  /** The operand list, read: the bucket array of every table of `gs`. */
  method Snapshots<K(==), V>(gs: seq<GHash<K, V>>, ghost hashfp: K -> u32) returns (ts: seq<seq<seq<Entry<K, V>>>>)
    requires forall q | 0 <= q < |gs| :: gs[q].Valid() && gs[q].hashfp == hashfp
    ensures Tables(ts, hashfp, ContentsOf(gs))
  {
    ts := [];
    var q := 0;
    while q < |gs|
      invariant 0 <= q <= |gs| && |ts| == q
      invariant forall p | 0 <= p < q :: TableInv(ts[p], hashfp, gs[p].Contents)
    {
      var t := gs[q].Snapshot();
      ts := ts + [t];
      q := q + 1;
    }
  }

  // ---------------------------------------------------------------- union

  /** The loops of ghash_union over one operand `n` (bucket array `t`): every
      key of `n` missing from `gh1` is added with its value, and with
      `reverse` a key already present takes the value of `n`. Each node is
      handled as ghash_insert_safe does (lookup, then link and resize, or
      overwrite in place). */
  method MergeInto<K(==), V>(gh1: GHash<K, V>, t: seq<seq<Entry<K, V>>>, ghost n: map<K, Option<V>>, reverse: bool)
    requires gh1.Valid() && TableInv(t, gh1.hashfp, n) && ShapedMap(n, gh1.keyOnly)
    modifies gh1.Repr
    ensures gh1.Valid() && fresh(gh1.Repr - old(gh1.Repr)) && gh1.flags == old(gh1.flags)
    ensures gh1.Contents == Merge(old(gh1.Contents), n, reverse)
  {
    ghost var m0 := gh1.Contents;
    ghost var hashfp := gh1.hashfp;
    MergeRestrictEnds(m0, n, reverse);
    SeenStart(t, hashfp, n);
    ghost var S: set<K> := {};
    var i := 0;
    while i < |t|
      invariant 0 <= i <= |t| && S == Seen(t, hashfp, n, i, 0)
      invariant gh1.Valid() && fresh(gh1.Repr - old(gh1.Repr)) && gh1.flags == old(gh1.flags)
      invariant gh1.Contents == Merge(m0, Restrict(n, S), reverse)
    {
      MergeChain(gh1, t, n, i, reverse, m0);
      S := Seen(t, hashfp, n, i + 1, 0);
      i := i + 1;
    }
    SeenAll(t, hashfp, n);
  }

  /** The inner loop of that sweep, over chain `i` of `t`. */
  method MergeChain<K(==), V>(gh1: GHash<K, V>, t: seq<seq<Entry<K, V>>>, ghost n: map<K, Option<V>>, i: nat,
                              reverse: bool, ghost m0: map<K, Option<V>>)
    requires gh1.Valid() && TableInv(t, gh1.hashfp, n) && ShapedMap(n, gh1.keyOnly) && i < |t|
    requires gh1.Contents == Merge(m0, Restrict(n, Seen(t, gh1.hashfp, n, i, 0)), reverse)
    modifies gh1.Repr
    ensures gh1.Valid() && fresh(gh1.Repr - old(gh1.Repr)) && gh1.flags == old(gh1.flags)
    ensures gh1.Contents == Merge(m0, Restrict(n, Seen(t, gh1.hashfp, n, i + 1, 0)), reverse)
  {
    ghost var hashfp := gh1.hashfp;
    ghost var S := Seen(t, hashfp, n, i, 0);
    var j := 0;
    while j < |t[i]|
      invariant 0 <= j <= |t[i]| && S == Seen(t, hashfp, n, i, j)
      invariant gh1.Valid() && fresh(gh1.Repr - old(gh1.Repr)) && gh1.flags == old(gh1.flags)
      invariant gh1.Contents == Merge(m0, Restrict(n, S), reverse)
    {
      var e := t[i][j];
      NodeFacts(t, hashfp, n, i, j);
      SeenStep(t, hashfp, n, i, j);
      MergeRestrictStep(m0, n, S, e.key, reverse);
      var _ := gh1.InsertSafe(e.key, e.val, reverse);
      S := S + {e.key};
      j := j + 1;
    }
    SeenNext(t, hashfp, n, i);
  }

  /** The operand loop of ghash_union: merge every operand, left to right. */
  method UnionInto<K(==), V>(gh1: GHash<K, V>, ts: seq<seq<seq<Entry<K, V>>>>, ghost ns: seq<map<K, Option<V>>>,
                             reverse: bool)
    requires gh1.Valid() && Tables(ts, gh1.hashfp, ns) && AllShaped(ns, gh1.keyOnly)
    modifies gh1.Repr
    ensures gh1.Valid() && fresh(gh1.Repr - old(gh1.Repr)) && gh1.flags == old(gh1.flags)
    ensures gh1.Contents == UnionAll(old(gh1.Contents), ns, reverse)
  {
    ghost var m0 := gh1.Contents;
    var p := 0;
    while p < |ts|
      invariant 0 <= p <= |ts|
      invariant gh1.Valid() && fresh(gh1.Repr - old(gh1.Repr)) && gh1.flags == old(gh1.flags)
      invariant gh1.Contents == UnionAll(m0, ns[..p], reverse)
    {
      MergeInto(gh1, ts[p], ns[p], reverse);
      UnionAllSnoc(m0, ns, reverse, p);
      p := p + 1;
    }
    assert ns[..p] == ns;
  }

  // --------------------------------------------- intersection and difference

  /** The operand loop of ghash_intersection (`keep`) and ghash_difference
      (not `keep`): one sweep with its deferred count and forced shrink per
      operand, left to right. */
  method FilterInto<K(==), V>(gh1: GHash<K, V>, ts: seq<seq<seq<Entry<K, V>>>>, ghost ns: seq<map<K, Option<V>>>,
                              keep: bool)
    requires gh1.Valid() && Tables(ts, gh1.hashfp, ns)
    modifies gh1.Repr
    ensures gh1.Valid() && fresh(gh1.Repr - old(gh1.Repr)) && gh1.flags == old(gh1.flags)
    ensures gh1.Contents == FilterAll(old(gh1.Contents), ns, keep) && gh1.sizeMin == old(gh1.sizeMin)
  {
    ghost var m0 := gh1.Contents;
    var p := 0;
    while p < |ts|
      invariant 0 <= p <= |ts|
      invariant gh1.Valid() && fresh(gh1.Repr - old(gh1.Repr)) && gh1.flags == old(gh1.flags)
      invariant gh1.Contents == FilterAll(m0, ns[..p], keep) && gh1.sizeMin == old(gh1.sizeMin)
    {
      gh1.FilterStep(ts[p], ns[p], keep);
      FilterAllSnoc(m0, ns, keep, p);
      p := p + 1;
    }
    assert ns[..p] == ns;
  }

  // ------------------------------------------------- symmetric difference

  /** One node `e` of an operand in the first pass of
      ghash_symmetric_difference: a key already in `keys` goes to `rem_keys`,
      any other key is inserted into `keys` with its value. */
  method SymNode<K(==), V>(keys: GHash<K, V>, rem: seq<K>, e: Entry<K, V>) returns (rem': seq<K>)
    requires keys.Valid() && e.hash == keys.hashfp(e.key) && e.val.None? == keys.keyOnly
    modifies keys.Repr
    ensures keys.Valid() && fresh(keys.Repr - old(keys.Repr))
    ensures Pass(keys.Contents, rem') == NodeStep(Pass(old(keys.Contents), rem), e)
  {
    var found := keys.HasKey(e.key);
    if found {
      rem' := rem + [e.key];
    } else {
      keys.InsertEx(e.key, e.val, e.hash);
      rem' := rem;
    }
  }

  /** The first pass over chain `i` of one operand `n` (bucket array `t`). */
  method SymChain<K(==), V>(keys: GHash<K, V>, rem: seq<K>, t: seq<seq<Entry<K, V>>>, i: nat,
                            ghost n: map<K, Option<V>>)
    returns (rem': seq<K>)
    requires keys.Valid() && TableInv(t, keys.hashfp, n) && ShapedMap(n, keys.keyOnly) && i < |t|
    modifies keys.Repr
    ensures keys.Valid() && fresh(keys.Repr - old(keys.Repr))
    ensures Pass(keys.Contents, rem') == ChainStep(Pass(old(keys.Contents), rem), t[i])
  {
    ghost var p0 := Pass(keys.Contents, rem);
    ghost var hashfp := keys.hashfp;
    rem' := rem;
    var j := 0;
    while j < |t[i]|
      invariant 0 <= j <= |t[i]|
      invariant keys.Valid() && fresh(keys.Repr - old(keys.Repr))
      invariant Pass(keys.Contents, rem') == ChainStep(p0, t[i][..j])
    {
      NodeFacts(t, hashfp, n, i, j);
      ChainStepSnoc(p0, t[i], j);
      rem' := SymNode(keys, rem', t[i][j]);
      j := j + 1;
    }
    assert t[i][..j] == t[i];
  }

  /** The first pass over one operand `n`, bucket by bucket: `keys` gains
      the keys of `n` it lacked, and `rem_keys` gains those it already had. */
  method SymOperand<K(==), V>(keys: GHash<K, V>, rem: seq<K>, t: seq<seq<Entry<K, V>>>, ghost n: map<K, Option<V>>)
    returns (rem': seq<K>)
    requires keys.Valid() && TableInv(t, keys.hashfp, n) && ShapedMap(n, keys.keyOnly)
    modifies keys.Repr
    ensures keys.Valid() && fresh(keys.Repr - old(keys.Repr))
    ensures keys.Contents == Merge(old(keys.Contents), n, false)
    ensures KeysOf(rem') == KeysOf(rem) + old(keys.Contents).Keys * n.Keys
  {
    ghost var p0 := Pass(keys.Contents, rem);
    rem' := rem;
    var i := 0;
    while i < |t|
      invariant 0 <= i <= |t|
      invariant keys.Valid() && fresh(keys.Repr - old(keys.Repr))
      invariant Pass(keys.Contents, rem') == TableStep(p0, t[..i])
    {
      TableStepSnoc(p0, t, i);
      rem' := SymChain(keys, rem', t, i, n);
      i := i + 1;
    }
    assert t[..i] == t;
    TableSpec(p0, t, keys.hashfp, n);
  }

  /** The first pass of ghash_symmetric_difference: afterwards `keys` holds the
      union of its contents on entry and every operand, and `rem_keys` lists,
      possibly more than once, exactly the keys seen at least twice. */
  method SymFirstPass<K(==), V>(keys: GHash<K, V>, ts: seq<seq<seq<Entry<K, V>>>>, ghost ns: seq<map<K, Option<V>>>)
    returns (rem: seq<K>)
    requires keys.Valid() && Tables(ts, keys.hashfp, ns) && AllShaped(ns, keys.keyOnly)
    modifies keys.Repr
    ensures keys.Valid() && fresh(keys.Repr - old(keys.Repr))
    ensures keys.Contents == UnionAll(old(keys.Contents), ns, false)
    ensures KeysOf(rem) == Twice(old(keys.Contents), ns)
  {
    ghost var m1 := keys.Contents;
    rem := [];
    var q := 0;
    while q < |ts|
      invariant 0 <= q <= |ts|
      invariant keys.Valid() && fresh(keys.Repr - old(keys.Repr))
      invariant keys.Contents == UnionAll(m1, ns[..q], false)
      invariant KeysOf(rem) == Twice(m1, ns[..q])
    {
      rem := SymOperand(keys, rem, ts[q], ns[q]);
      UnionAllSnoc(m1, ns, false, q);
      TwiceSnoc(m1, ns, q);
      q := q + 1;
    }
    assert ns[..q] == ns;
  }

  /** The second pass on one table: unlink every key of `rem_keys` from `g`,
      one at a time, without resizing it. */
  method DiscardAll<K(==), V>(g: GHash<K, V>, rem: seq<K>)
    requires g.Valid()
    modifies g.Repr
    ensures g.Valid() && g.Repr == old(g.Repr) && g.flags == old(g.flags)
    ensures g.Contents == DropAll(old(g.Contents), rem)
  {
    ghost var m := g.Contents;
    var b := 0;
    while b < |rem|
      invariant 0 <= b <= |rem|
      invariant g.Valid() && g.Repr == old(g.Repr) && g.flags == old(g.flags)
      invariant g.Contents == DropAll(m, rem[..b])
    {
      g.Discard(rem[b], g.hashfp(rem[b]));
      DropAllSnoc(m, rem, b);
      b := b + 1;
    }
    assert rem[..b] == rem;
  }

  /** The temporary tables of ghash_symmetric_difference: `keys` starts as a
      copy of `gh1` and takes the first pass and its share of the second;
      what is left of it is returned as a snapshot `tk` of its buckets,
      representing `nk`, together with `rem_keys`. `gh1` is only read. */
  method SymKeys<K(==), V>(gh1: GHash<K, V>, ts: seq<seq<seq<Entry<K, V>>>>, ghost ns: seq<map<K, Option<V>>>)
    returns (tk: seq<seq<Entry<K, V>>>, ghost nk: map<K, Option<V>>, rem: seq<K>)
    requires gh1.Valid() && Tables(ts, gh1.hashfp, ns) && AllShaped(ns, gh1.keyOnly)
    ensures KeysOf(rem) == Twice(gh1.Contents, ns)
    ensures nk == DropAll(UnionAll(gh1.Contents, ns, false), rem)
    ensures TableInv(tk, gh1.hashfp, nk) && ShapedMap(nk, gh1.keyOnly)
  {
    var keys := gh1.Copy();
    rem := SymFirstPass(keys, ts, ns);
    DiscardAll(keys, rem);
    tk := keys.buckets[..];
    nk := keys.Contents;
  }

  /** ghash_symmetric_difference once its first table is settled: the first
      pass into `keys`, the second pass on `gh1`, the final merge of `keys`
      into `gh1`, and a size re-evaluation with shrinking forced. */
  method SymDiffInto<K(==), V>(gh1: GHash<K, V>, ts: seq<seq<seq<Entry<K, V>>>>, ghost ns: seq<map<K, Option<V>>>)
    requires gh1.Valid() && Tables(ts, gh1.hashfp, ns) && AllShaped(ns, gh1.keyOnly)
    modifies gh1.Repr
    ensures gh1.Valid() && fresh(gh1.Repr - old(gh1.Repr)) && gh1.flags == old(gh1.flags)
    ensures gh1.Contents == SymDiff(old(gh1.Contents), ns)
  {
    ghost var m1 := gh1.Contents;
    var tk, nk, rem := SymKeys(gh1, ts, ns);
    DiscardAll(gh1, rem);
    MergeInto(gh1, tk, nk, false);
    SymDiffDrop(m1, ns, rem);
    gh1.ExpandBuckets(gh1.nentries, false, true);
  }

  // ------------------------------------------------------- entry points

  /** The operands of a call: every table of `gs` is valid and hashes with
      `hashfp`, and `gh1`, when given, is valid, hashes the same way and
      shares no memory with any operand. */
  ghost predicate Operands<K, V>(gh1: GHash?<K, V>, gs: seq<GHash<K, V>>, hashfp: K -> u32)
    reads gh1, set q | 0 <= q < |gs| :: gs[q]
    reads if gh1 == null then {} else gh1.Repr
    reads set q, o | 0 <= q < |gs| && o in gs[q].Repr :: o
  {
    && (forall q | 0 <= q < |gs| :: gs[q].Valid() && gs[q].hashfp == hashfp)
    && (gh1 != null ==> gh1.Valid() && gh1.hashfp == hashfp && forall q | 0 <= q < |gs| :: gh1.Repr !! gs[q].Repr)
  }

  /** Every table of `gs`, and `gh1` when given, has entries of shape `keyOnly`. */
  ghost predicate SameShape<K, V>(gh1: GHash?<K, V>, gs: seq<GHash<K, V>>, keyOnly: bool)
    reads gh1, set q | 0 <= q < |gs| :: gs[q]
  {
    && (forall q | 0 <= q < |gs| :: gs[q].keyOnly == keyOnly)
    && (gh1 != null ==> gh1.keyOnly == keyOnly)
  }

  /** The maps a call consumes, in order, as they are on entry: the
      contents of `gh1`, if given, then those of every operand. */
  ghost function Inputs<K, V>(gh1: GHash?<K, V>, gs: seq<GHash<K, V>>): seq<map<K, Option<V>>>
    reads gh1, set q | 0 <= q < |gs| :: gs[q]
  {
    if gh1 == null then ContentsOf(gs) else [gh1.Contents] + ContentsOf(gs)
  }

  /** Tables of one shape hold maps of that shape. */
  lemma OperandsShaped<K, V>(gs: seq<GHash<K, V>>, keyOnly: bool)
    requires forall q | 0 <= q < |gs| :: gs[q].Valid() && gs[q].keyOnly == keyOnly
    ensures AllShaped(ContentsOf(gs), keyOnly)
  {
    var cs := ContentsOf(gs);
    forall p | 0 <= p < |cs| ensures ShapedMap(cs[p], keyOnly) {
      assert gs[p].Valid();
    }
  }

  /** The passes of intersection (`keep`) and difference on the table
      they work on: filter `gh1` by every operand, left to right. */
  method FilterInPlace<K(==), V>(gh1: GHash<K, V>, gs: seq<GHash<K, V>>, keep: bool)
    requires Operands(gh1, gs, gh1.hashfp)
    modifies gh1.Repr
    ensures gh1.Valid() && fresh(gh1.Repr - old(gh1.Repr)) && gh1.flags == old(gh1.flags)
    ensures gh1.Contents == FilterAll(old(gh1.Contents), old(ContentsOf(gs)), keep)
    ensures gh1.sizeMin == old(gh1.sizeMin)
  {
    ghost var ns := ContentsOf(gs);
    var ts := Snapshots(gs, gh1.hashfp);
    FilterInto(gh1, ts, ns, keep);
  }

  /** The passes of union on the table it works on: merge every operand
      into `gh1`, left to right. */
  method UniteInPlace<K(==), V>(gh1: GHash<K, V>, gs: seq<GHash<K, V>>, reverse: bool)
    requires Operands(gh1, gs, gh1.hashfp) && SameShape(gh1, gs, gh1.keyOnly)
    modifies gh1.Repr
    ensures gh1.Valid() && fresh(gh1.Repr - old(gh1.Repr)) && gh1.flags == old(gh1.flags)
    ensures gh1.Contents == UnionAll(old(gh1.Contents), old(ContentsOf(gs)), reverse)
  {
    ghost var ns := ContentsOf(gs);
    OperandsShaped(gs, gh1.keyOnly);
    var ts := Snapshots(gs, gh1.hashfp);
    UnionInto(gh1, ts, ns, reverse);
  }

  /** The passes of the symmetric difference on the table it works on. */
  method SymDiffInPlace<K(==), V>(gh1: GHash<K, V>, gs: seq<GHash<K, V>>)
    requires Operands(gh1, gs, gh1.hashfp) && SameShape(gh1, gs, gh1.keyOnly)
    modifies gh1.Repr
    ensures gh1.Valid() && fresh(gh1.Repr - old(gh1.Repr)) && gh1.flags == old(gh1.flags)
    ensures gh1.Contents == SymDiff(old(gh1.Contents), old(ContentsOf(gs)))
  {
    ghost var ns := ContentsOf(gs);
    OperandsShaped(gs, gh1.keyOnly);
    var ts := Snapshots(gs, gh1.hashfp);
    SymDiffInto(gh1, ts, ns);
  }

  /** The NULL-`gh1` start of every multi-operand operation: a copy of the
      first operand becomes the table to work on, and the operands after it
      are still to be combined with it. */
  method CopyFirst<K(==), V>(gs: seq<GHash<K, V>>) returns (r: GHash<K, V>)
    requires |gs| > 0 && Operands(null, gs, gs[0].hashfp)
    ensures fresh(r.Repr) && r.flags == {} && r.keyOnly == gs[0].keyOnly && r.hashfp == gs[0].hashfp
    ensures Operands(r, gs[1..], r.hashfp) && r.Contents == old(gs[0].Contents)
    ensures ContentsOf(gs[1..]) == old(ContentsOf(gs))[1..]
    ensures SameShape(null, gs, gs[0].keyOnly) ==> SameShape(r, gs[1..], r.keyOnly)
  {
    ghost var ms := ContentsOf(gs);
    assert ms[1..] == ContentsOf(gs[1..]);
    r := gs[0].Copy();
    forall q | 0 <= q < |gs| - 1 ensures gs[1..][q].Valid() && r.Repr !! gs[1..][q].Repr {
      assert gs[1..][q] == gs[q + 1];
    }
  }

  /** Intersection (`keep`) or difference when `gh1` is NULL: filter a
      copy of the first operand by the others. */
  method FilteredCopy<K(==), V>(gs: seq<GHash<K, V>>, keep: bool) returns (r: GHash<K, V>)
    requires |gs| > 0 && Operands(null, gs, gs[0].hashfp)
    ensures r.Valid() && r.hashfp == gs[0].hashfp
    ensures fresh(r.Repr) && r.flags == {} && r.keyOnly == gs[0].keyOnly
    ensures var ms := old(ContentsOf(gs)); r.Contents == FilterAll(ms[0], ms[1..], keep)
  {
    r := CopyFirst(gs);
    FilterInPlace(r, gs[1..], keep);
  }

  /** Union when `gh1` is NULL: merge the other operands into a copy of the
      first. */
  method UnitedCopy<K(==), V>(gs: seq<GHash<K, V>>, reverse: bool) returns (r: GHash<K, V>)
    requires |gs| > 0 && Operands(null, gs, gs[0].hashfp) && SameShape(null, gs, gs[0].keyOnly)
    ensures r.Valid() && r.hashfp == gs[0].hashfp
    ensures fresh(r.Repr) && r.flags == {} && r.keyOnly == gs[0].keyOnly
    ensures var ms := old(ContentsOf(gs)); r.Contents == UnionAll(ms[0], ms[1..], reverse)
  {
    r := CopyFirst(gs);
    UniteInPlace(r, gs[1..], reverse);
  }

  /** The symmetric difference when `gh1` is NULL, on a copy of the first
      operand. */
  method SymDiffCopy<K(==), V>(gs: seq<GHash<K, V>>) returns (r: GHash<K, V>)
    requires |gs| > 0 && Operands(null, gs, gs[0].hashfp) && SameShape(null, gs, gs[0].keyOnly)
    ensures r.Valid() && r.hashfp == gs[0].hashfp
    ensures fresh(r.Repr) && r.flags == {} && r.keyOnly == gs[0].keyOnly
    ensures var ms := old(ContentsOf(gs)); r.Contents == SymDiff(ms[0], ms[1..])
  {
    r := CopyFirst(gs);
    SymDiffInPlace(r, gs[1..]);
  }

  /** BLI_ghash_union (`reverse` false) and BLI_ghash_union_reversed
      (`reverse` true): merge every operand, left to right, into `gh1` or,
      when `gh1` is NULL, into a copy of the first operand. Without
      `reverse` the first table holding a key gives its value; with it the
      last one does. */
  method Union<K(==), V>(gh1: GHash?<K, V>, gs: seq<GHash<K, V>>, reverse: bool) returns (r: GHash<K, V>)
    requires |gs| > 0 && Operands(gh1, gs, gs[0].hashfp) && SameShape(gh1, gs, gs[0].keyOnly)
    modifies if gh1 == null then {} else gh1.Repr
    ensures r.Valid() && r.hashfp == gs[0].hashfp
    ensures gh1 != null ==> r == gh1 && fresh(r.Repr - old(gh1.Repr)) && r.flags == old(gh1.flags)
    ensures gh1 == null ==> fresh(r.Repr) && r.flags == {} && r.keyOnly == gs[0].keyOnly
    ensures var ms := old(Inputs(gh1, gs)); r.Contents == UnionAll(ms[0], ms[1..], reverse)
  {
    if gh1 == null {
      r := UnitedCopy(gs, reverse);
    } else {
      UniteInPlace(gh1, gs, reverse);
      r := gh1;
    }
  }

  /** BLI_ghash_intersection: keep only the keys present in every operand. */
  method Intersection<K(==), V>(gh1: GHash?<K, V>, gs: seq<GHash<K, V>>) returns (r: GHash<K, V>)
    requires |gs| > 0 && Operands(gh1, gs, gs[0].hashfp)
    modifies if gh1 == null then {} else gh1.Repr
    ensures r.Valid() && r.hashfp == gs[0].hashfp
    ensures gh1 != null ==> r == gh1 && fresh(r.Repr - old(gh1.Repr)) && r.flags == old(gh1.flags)
    ensures gh1 == null ==> fresh(r.Repr) && r.flags == {} && r.keyOnly == gs[0].keyOnly
    ensures var ms := old(Inputs(gh1, gs)); r.Contents == FilterAll(ms[0], ms[1..], true)
  {
    if gh1 == null {
      r := FilteredCopy(gs, true);
    } else {
      FilterInPlace(gh1, gs, true);
      r := gh1;
    }
  }

  /** BLI_ghash_difference: drop every key present in some operand. */
  method Difference<K(==), V>(gh1: GHash?<K, V>, gs: seq<GHash<K, V>>) returns (r: GHash<K, V>)
    requires |gs| > 0 && Operands(gh1, gs, gs[0].hashfp)
    modifies if gh1 == null then {} else gh1.Repr
    ensures r.Valid() && r.hashfp == gs[0].hashfp
    ensures gh1 != null ==> r == gh1 && fresh(r.Repr - old(gh1.Repr)) && r.flags == old(gh1.flags)
    ensures gh1 == null ==> fresh(r.Repr) && r.flags == {} && r.keyOnly == gs[0].keyOnly
    ensures var ms := old(Inputs(gh1, gs)); r.Contents == FilterAll(ms[0], ms[1..], false)
  {
    if gh1 == null {
      r := FilteredCopy(gs, false);
    } else {
      FilterInPlace(gh1, gs, false);
      r := gh1;
    }
  }

  /** BLI_ghash_symmetric_difference: keep the keys held by exactly one of
      the tables, with their values. */
  method SymmetricDifference<K(==), V>(gh1: GHash?<K, V>, gs: seq<GHash<K, V>>) returns (r: GHash<K, V>)
    requires |gs| > 0 && Operands(gh1, gs, gs[0].hashfp) && SameShape(gh1, gs, gs[0].keyOnly)
    modifies if gh1 == null then {} else gh1.Repr
    ensures r.Valid() && r.hashfp == gs[0].hashfp
    ensures gh1 != null ==> r == gh1 && fresh(r.Repr - old(gh1.Repr)) && r.flags == old(gh1.flags)
    ensures gh1 == null ==> fresh(r.Repr) && r.flags == {} && r.keyOnly == gs[0].keyOnly
    ensures var ms := old(Inputs(gh1, gs)); r.Contents == SymDiff(ms[0], ms[1..])
  {
    if gh1 == null {
      r := SymDiffCopy(gs);
    } else {
      SymDiffInPlace(gh1, gs);
      r := gh1;
    }
  }
}
