/** The GHash iterator: a cursor over the chains of a table that is not
    mutated while the cursor is in use. It stands on a node (`curEntry`, the
    index of the node in chain `curBucket`) or on nothing (NULL), which means
    it is done. The ghost set `Visited` holds the keys it has stepped past;
    every step adds one key not yet visited, and the iterator is done exactly
    when every key has been visited, so it steps exactly as many times as the
    table has entries. */
module GHashIterators {
  import opened Wrappers
  import opened Chains
  import opened GHashTable
  import opened SymPass

  /** The bucket loop shared by init and step: from bucket `b0`, whose
      chain is used up, move to the next bucket until one has a head or the
      buckets run out. A sweep entering that bucket has seen the same keys
      as one leaving `b0`; running out, it has seen them all. */
  method Scan<K, V>(t: seq<seq<Entry<K, V>>>, ghost hashfp: K -> u32, ghost m: map<K, Option<V>>, b0: int)
    returns (b: int, e: Option<nat>)
    requires TableInv(t, hashfp, m) && -1 <= b0 < |t|
    ensures b0 < b <= |t|
    ensures e.None? ==> b == |t| && Seen(t, hashfp, m, b0 + 1, 0) == m.Keys
    ensures e.Some? ==> b < |t| && e == Some(0) && |t[b]| > 0 && Seen(t, hashfp, m, b, 0) == Seen(t, hashfp, m, b0 + 1, 0)
  {
    b, e := b0, None;
    while e.None?
      invariant b0 <= b < |t|
      invariant e.None? ==> Seen(t, hashfp, m, b + 1, 0) == Seen(t, hashfp, m, b0 + 1, 0)
      invariant e.Some? ==> b0 < b && e == Some(0) && |t[b]| > 0 && Seen(t, hashfp, m, b, 0) == Seen(t, hashfp, m, b0 + 1, 0)
      decreases |t| - b, if e.None? then 1 else 0
    {
      if b + 1 == |t| {
        SeenAll(t, hashfp, m);
        return b + 1, None;
      }
      b := b + 1;
      e := if |t[b]| > 0 then Some(0) else None;
      if e.None? {
        SeenNext(t, hashfp, m, b);
      }
    }
  }

  /** Cursor `b`, `e` over the bucket array `t` of `m` has stepped past the
      keys `visited`, met in the order `walked`: standing on node `e` of
      chain `b`, these are the keys a sweep visits before that node; standing
      on nothing (done), they are all the keys. */
  ghost predicate At<K, V>(t: seq<seq<Entry<K, V>>>, hashfp: K -> u32, m: map<K, Option<V>>,
                           b: int, e: Option<nat>, visited: set<K>, walked: seq<K>)
    requires |t| > 0
  {
    && -1 <= b <= |t|
    && KeysOf(walked) == visited && |walked| == |visited|
    && match e
       case None => visited == m.Keys
       case Some(j) => 0 <= b < |t| && j < |t[b]| && visited == Seen(t, hashfp, m, b, j)
  }

  /** The search of BLI_ghashIterator_init: starting before bucket 0 (the
      UINT_MAX that wraps to zero), find the first node, unless the table
      has no entries. */
  method Start<K, V>(t: seq<seq<Entry<K, V>>>, ghost hashfp: K -> u32, ghost m: map<K, Option<V>>, nentries: nat)
    returns (b: int, e: Option<nat>)
    requires TableInv(t, hashfp, m) && nentries == |m|
    ensures At(t, hashfp, m, b, e, {}, []) && (e.None? <==> nentries == 0)
  {
    b, e := -1, None;
    if nentries != 0 {
      b, e := Scan(t, hashfp, m, -1);
      SeenStart(t, hashfp, m);
    }
  }

  /** The move of BLI_ghashIterator_step from node `j` of chain `b`: the
      next node of the chain, or else the head of the next non-empty bucket,
      or else nothing. The key of node `j` is visited, for the first time. */
  method Advance<K, V>(t: seq<seq<Entry<K, V>>>, ghost hashfp: K -> u32, ghost m: map<K, Option<V>>,
                       b: int, j: nat, ghost visited: set<K>, ghost walked: seq<K>)
    returns (b': int, e': Option<nat>, ghost visited': set<K>, ghost walked': seq<K>)
    requires TableInv(t, hashfp, m) && At(t, hashfp, m, b, Some(j), visited, walked)
    ensures At(t, hashfp, m, b', e', visited', walked')
    ensures t[b][j].key !in visited && visited' == visited + {t[b][j].key} && walked' == walked + [t[b][j].key]
    ensures j + 1 < |t[b]| ==> b' == b && e' == Some(j + 1)
    ensures j + 1 >= |t[b]| ==> b < b' && (e'.Some? ==> e' == Some(0) && |t[b']| > 0)
    ensures e'.None? ==> b' == |t|
  {
    var k := t[b][j].key;
    SeenStep(t, hashfp, m, b, j);
    KeysOfAppend(walked, k);
    visited', walked' := visited + {k}, walked + [k];
    if j + 1 < |t[b]| {
      b', e' := b, Some(j + 1);
    } else {
      SeenNext(t, hashfp, m, b);
      b', e' := Scan(t, hashfp, m, b);
    }
  }

  class GHashIterator<K(==), V> {
    const gh: GHash<K, V>
    /** The bucket of the current node; -1 stands for the initial UINT_MAX,
        which the first increment wraps to bucket 0. */
    var curBucket: int
    /** The position of the current node in its chain; nothing is NULL. */
    var curEntry: Option<nat>
    /** The keys stepped past, as a set and in the order met. */
    ghost var Visited: set<K>
    ghost var Walked: seq<K>
    /** The chains and the mapping of `gh` when the iteration began. */
    ghost const Chains: seq<seq<Entry<K, V>>>
    ghost const Map: map<K, Option<V>>

    /** The table is as it was when the iteration began, and the cursor
        stands where `At` says on its chains. */
    ghost predicate Valid()
      reads this, gh, gh.buckets
    {
      && gh.buckets != null && gh.buckets[..] == Chains && gh.Contents == Map
      && TableInv(Chains, gh.hashfp, Map)
      && At(Chains, gh.hashfp, Map, curBucket, curEntry, Visited, Walked)
    }

    /** The key of the current node. */
    ghost function Current(): K
      reads this, gh, gh.buckets
      requires gh.buckets != null && curEntry.Some?
      requires 0 <= curBucket < gh.buckets.Length && curEntry.value < |gh.buckets[curBucket]|
    {
      gh.buckets[curBucket][curEntry.value].key
    }

    /** BLI_ghashIterator_new and BLI_ghashIterator_init: stand on the head
        of the first non-empty bucket, or be done at once when the table is
        empty. */
    constructor (gh: GHash<K, V>)
      requires gh.Valid()
      ensures Valid() && this.gh == gh && Visited == {} && Walked == []
      ensures curEntry.None? <==> gh.nentries == 0
    {
      this.gh := gh;
      Chains, Map := gh.buckets[..], gh.Contents;
      Visited, Walked := {}, [];
      new;
      curBucket, curEntry := Start(gh.buckets[..], gh.hashfp, gh.Contents, gh.nentries);
    }

    /** BLI_ghashIterator_step: move to the next node of the chain, or else
        to the head of the next non-empty bucket, or else be done. A done
        iterator stays where it is. */
    method Step()
      requires Valid()
      modifies this
      ensures Valid()
      ensures old(curEntry).None? ==> curEntry.None? && curBucket == old(curBucket)
      ensures old(curEntry).None? ==> Visited == old(Visited) && Walked == old(Walked)
      ensures old(curEntry).Some? && curEntry.None? ==> curBucket == gh.buckets.Length
      ensures old(curEntry).Some? ==> old(Current()) !in old(Visited) && Visited == old(Visited) + {old(Current())}
      ensures old(curEntry).Some? ==> Walked == old(Walked) + [old(Current())]
    {
      if curEntry.Some? {
        curBucket, curEntry, Visited, Walked := Advance(gh.buckets[..], gh.hashfp, Map, curBucket, curEntry.value, Visited, Walked);
      }
    }

    /** BLI_ghashIterator_done: the cursor stands on nothing, which happens
        exactly when every key has been visited. */
    method Done() returns (b: bool)
      requires Valid()
      ensures b <==> curEntry.None?
      ensures b <==> Visited == gh.Contents.Keys
    {
      b := curEntry.None?;
      if !b {
        SeenStep(Chains, gh.hashfp, Map, curBucket, curEntry.value);
      }
    }

    /** BLI_ghashIterator_getKey: the key of the current node, one the cursor
        has not visited yet. */
    method GetKey() returns (k: K)
      requires Valid() && curEntry.Some?
      ensures k == Current() && k in gh.Contents && k !in Visited
    {
      SeenStep(Chains, gh.hashfp, Map, curBucket, curEntry.value);
      k := gh.buckets[curBucket][curEntry.value].key;
    }

    /** BLI_ghashIterator_getValue: the value of the current node, which is
        the value the table maps its key to. The entries of a set have no
        value part, so the table is a map. */
    method GetValue() returns (v: Option<V>)
      requires Valid() && curEntry.Some? && !gh.keyOnly
      ensures v == gh.Contents[Current()]
    {
      NodeFacts(Chains, gh.hashfp, Map, curBucket, curEntry.value);
      v := gh.buckets[curBucket][curEntry.value].val;
    }

    /** BLI_ghashIterator_getValue_p: the address of the value slot of the
        current node, through which `GHash.StoreAt` writes; as for the
        value itself, the table is a map. */
    method GetValueP() returns (s: Slot)
      requires Valid() && curEntry.Some? && !gh.keyOnly
      ensures gh.IsSlotOf(s, Current())
      ensures gh.Contents[Current()] == gh.buckets[s.bucket][s.index].val
    {
      NodeFacts(Chains, gh.hashfp, Map, curBucket, curEntry.value);
      s := Slot(curBucket, curEntry.value);
    }
  }

  /** Visiting one more key leaves fewer keys to visit. */
  lemma Progress<K>(keys: set<K>, visited: set<K>, k: K)
    requires k in keys && k !in visited
    ensures |keys - (visited + {k})| < |keys - visited|
  {
    assert keys - (visited + {k}) == (keys - visited) - {k};
  }

  /** The documented use of the iterator: from init until done, collecting
      the key of every node. The walk takes exactly BLI_ghash_size(gh) steps
      and meets every key of the table once. */
  method Keys<K(==), V>(gh: GHash<K, V>) returns (keys: seq<K>)
    requires gh.Valid()
    ensures |keys| == |gh.Contents| && KeysOf(keys) == gh.Contents.Keys
  {
    var it := new GHashIterator(gh);
    keys := [];
    var done := it.Done();
    while !done
      invariant it.Valid() && it.gh == gh && fresh(it)
      invariant done <==> it.curEntry.None?
      invariant keys == it.Walked
      decreases |gh.Contents.Keys - it.Visited|
    {
      var k := it.GetKey();
      ghost var visited := it.Visited;
      it.Step();
      Progress(gh.Contents.Keys, visited, k);
      keys := keys + [k];
      done := it.Done();
    }
    assert |gh.Contents.Keys| == |gh.Contents|;
  }
}
