/** The hash table engine shared by the map shape (`GHash`) and the set shape
    (`GSet`, `keyOnly` tables whose entries carry no value).

    The bucket array is an array of chains; a chain is the sequence of entries
    reachable from one bucket head, head first, so prepending an entry is
    `buckets[s] := [e] + buckets[s]` and unlinking entry `j` through its
    predecessor (or through the bucket head when `j == 0`) is
    `buckets[s] := Unlinked(buckets[s], j)`. The ghost map `Contents` is the
    abstraction every operation is specified against. */
module GHashTable {
  import opened Wrappers
  import opened Sizing
  import opened Chains
  import opened Algebra

  /** The user-settable flags. */
  datatype Flag = AllowDupes | AllowShrink

  /** A position inside the bucket array (the address of an entry). */
  datatype Slot = Slot(bucket: nat, index: nat)

  /** The loops of ghash_resize_buckets: move every chain of `bucketsOld`, bucket
      by bucket, into the empty array `bucketsNew`. */
  method RehashAll<K, V>(bucketsOld: array<seq<Entry<K, V>>>, bucketsNew: array<seq<Entry<K, V>>>,
                         ghost t0: seq<seq<Entry<K, V>>>, ghost hashfp: K -> u32, ghost m: map<K, Option<V>>)
    requires bucketsOld != bucketsNew
    requires bucketsOld[..] == t0 && TableInv(t0, hashfp, m)
    requires PartialInv(bucketsNew[..], hashfp, m, {})
    modifies bucketsNew
    ensures TableInv(bucketsNew[..], hashfp, m)
  {
    SeenStart(t0, hashfp, m);
    var i := 0;
    while i < bucketsOld.Length
      invariant 0 <= i <= bucketsOld.Length
      invariant PartialInv(bucketsNew[..], hashfp, m, Seen(t0, hashfp, m, i, 0))
    {
      RehashChain(bucketsOld[i], bucketsNew, t0, hashfp, m, i);
      i := i + 1;
    }
    RehashDone(t0, bucketsNew[..], hashfp, m);
  }

  /** The inner loop of ghash_resize_buckets: prepend every entry of chain `i`
      of the old bucket array `t0` to bucket `hash % Length` of `bucketsNew`. */
  method RehashChain<K, V>(chain: seq<Entry<K, V>>, bucketsNew: array<seq<Entry<K, V>>>,
                           ghost t0: seq<seq<Entry<K, V>>>, ghost hashfp: K -> u32,
                           ghost m: map<K, Option<V>>, ghost i: nat)
    requires TableInv(t0, hashfp, m) && i < |t0| && chain == t0[i]
    requires PartialInv(bucketsNew[..], hashfp, m, Seen(t0, hashfp, m, i, 0))
    modifies bucketsNew
    ensures PartialInv(bucketsNew[..], hashfp, m, Seen(t0, hashfp, m, i + 1, 0))
  {
    var j := 0;
    while j < |chain|
      invariant 0 <= j <= |chain|
      invariant PartialInv(bucketsNew[..], hashfp, m, Seen(t0, hashfp, m, i, j))
    {
      RehashEntry(chain[j], bucketsNew, t0, hashfp, m, i, j);
      j := j + 1;
    }
    SeenNext(t0, hashfp, m, i);
  }

  /** One round of that inner loop: prepend node `j` of chain `i` of `t0`. */
  method RehashEntry<K, V>(e: Entry<K, V>, bucketsNew: array<seq<Entry<K, V>>>, ghost t0: seq<seq<Entry<K, V>>>,
                           ghost hashfp: K -> u32, ghost m: map<K, Option<V>>, ghost i: nat, ghost j: nat)
    requires TableInv(t0, hashfp, m) && i < |t0| && j < |t0[i]| && e == t0[i][j]
    requires PartialInv(bucketsNew[..], hashfp, m, Seen(t0, hashfp, m, i, j))
    modifies bucketsNew
    ensures PartialInv(bucketsNew[..], hashfp, m, Seen(t0, hashfp, m, i, j + 1))
  {
    var bucketHash := e.hash % bucketsNew.Length;
    ghost var t := bucketsNew[..];
    RehashStep(t0, t, hashfp, m, i, j);
    bucketsNew[bucketHash] := [e] + bucketsNew[bucketHash];
    assert bucketsNew[..] == Prepended(t, e);
  }

  /** ghash_resize_buckets on values: a fresh array of `newN` buckets holding
      every entry of `bucketsOld` at `hash % newN`. */
  method Rehashed<K, V>(bucketsOld: array?<seq<Entry<K, V>>>, newN: nat,
                        ghost t0: seq<seq<Entry<K, V>>>, ghost hashfp: K -> u32, ghost m: map<K, Option<V>>)
    returns (bucketsNew: array<seq<Entry<K, V>>>)
    requires newN > 0
    requires if bucketsOld == null then m == map[] else bucketsOld[..] == t0 && TableInv(t0, hashfp, m)
    ensures fresh(bucketsNew) && bucketsNew.Length == newN
    ensures TableInv(bucketsNew[..], hashfp, m)
  {
    bucketsNew := new seq<Entry<K, V>>[newN](_ => []);
    assert bucketsNew[..] == EmptyBuckets(newN);
    EmptyInv(newN, hashfp, m);
    if bucketsOld != null {
      RehashAll(bucketsOld, bucketsNew, t0, hashfp, m);
    } else {
      assert m.Keys == {};
    }
  }

  /** The two loops of ghash_expand_buckets, on the sizing fields passed in and
      returned: walk the size classes up past every grow threshold `n` exceeds,
      then (when shrinking) down past every shrink threshold it is below, above
      the floor `sizeMin`. */
  method ResizeTarget(cursize0: nat, sizeMin: nat, n: nat, shrinking: bool)
    returns (cursize: nat, newNbuckets: nat)
    requires sizeMin <= cursize0 < MaxSize
    ensures cursize == TargetClass(cursize0, n, sizeMin, shrinking)
    ensures sizeMin <= cursize < MaxSize && newNbuckets == HashSize(cursize)
    ensures n > LimitGrow(newNbuckets) ==> cursize == MaxSize - 1
    ensures shrinking && n < LimitShrink(newNbuckets) ==> cursize == sizeMin
  {
    ExpandConsistent(cursize0, n, sizeMin, shrinking);
    cursize := cursize0;
    var limitGrow, limitShrink := LimitGrow(HashSize(cursize)), LimitShrink(HashSize(cursize));
    ghost var c0 := cursize;
    ClassFacts(c0);
    newNbuckets := HashSize(cursize);
    while n > limitGrow && cursize < MaxSize - 1
      invariant c0 <= cursize < MaxSize
      invariant GrowClass(cursize, n) == GrowClass(c0, n)
      invariant newNbuckets == HashSize(cursize) && limitGrow == LimitGrow(newNbuckets)
      invariant cursize > c0 ==> n > LimitGrow(HashSize(c0))
      invariant limitShrink == LimitShrink(HashSize(c0))
      decreases MaxSize - cursize
    {
      GrowStep(cursize, n);
      cursize := cursize + 1;
      newNbuckets := HashSize(cursize);
      limitGrow := LimitGrow(newNbuckets);
    }
    GrowStep(cursize, n);
    ghost var g := cursize;
    if shrinking {
      while n < limitShrink && cursize > sizeMin
        invariant sizeMin <= cursize <= g < MaxSize
        invariant newNbuckets == HashSize(cursize) && limitGrow == LimitGrow(HashSize(g))
        invariant g == c0 ==> limitShrink == LimitShrink(HashSize(cursize))
        invariant g == c0 ==> ShrinkClass(cursize, n, sizeMin) == ShrinkClass(c0, n, sizeMin)
        invariant g > c0 ==> cursize == g && limitShrink == LimitShrink(HashSize(c0)) && n >= limitShrink
        decreases cursize
      {
        ShrinkStep(cursize, n, sizeMin);
        cursize := cursize - 1;
        newNbuckets := HashSize(cursize);
        limitShrink := LimitShrink(newNbuckets);
      }
      if g == c0 {
        ShrinkStep(cursize, n, sizeMin);
      }
    }
  }

  /** The chain walk of ghash_lookup_entry_ex (and of ghash_remove_ex, whose
      `e_prev` is the node before the one found): the first node of `chain`
      carrying `hash` and `key`. */
  method FindInChain<K(==), V>(chain: seq<Entry<K, V>>, key: K, hash: u32) returns (r: Option<nat>)
    ensures r.Some? ==> r.value < |chain| && chain[r.value].hash == hash && chain[r.value].key == key
    ensures r.Some? ==> forall b | 0 <= b < r.value :: !(chain[b].hash == hash && chain[b].key == key)
    ensures r.None? <==> forall b | 0 <= b < |chain| :: !(chain[b].hash == hash && chain[b].key == key)
  {
    var j := 0;
    while j < |chain|
      invariant 0 <= j <= |chain|
      invariant forall b | 0 <= b < j :: !(chain[b].hash == hash && chain[b].key == key)
    {
      if chain[j].hash == hash && chain[j].key == key {
        return Some(j);
      }
      j := j + 1;
    }
    return None;
  }

  /** The store of a value through a slot, on the bucket array alone. */
  method Overwrite<K, V>(buckets: array<seq<Entry<K, V>>>, s: Slot, ghost key: K, v: Option<V>,
                         ghost hashfp: K -> u32, ghost m: map<K, Option<V>>)
    requires TableInv(buckets[..], hashfp, m) && s.bucket < buckets.Length && s.index < |buckets[s.bucket]|
    requires buckets[s.bucket][s.index].key == key
    modifies buckets
    ensures key in m && m[key := v].Keys == m.Keys
    ensures TableInv(buckets[..], hashfp, m[key := v])
  {
    var chain := buckets[s.bucket];
    var e := Entry(chain[s.index].hash, chain[s.index].key, v);
    ReplaceInv(buckets[..], hashfp, m, s.bucket, s.index, e);
    assert m[key := v].Keys == m.Keys;
    buckets[s.bucket] := chain[s.index := e];
  }

  /** Unlinking node `index` of bucket `bucket`, on the bucket array alone:
      through its predecessor, or through the bucket head when it is first. */
  method UnlinkAt<K, V>(buckets: array<seq<Entry<K, V>>>, s: Slot, ghost key: K,
                        ghost hashfp: K -> u32, ghost m: map<K, Option<V>>)
    returns (ghost mr: map<K, Option<V>>)
    requires TableInv(buckets[..], hashfp, m) && s.bucket < buckets.Length && s.index < |buckets[s.bucket]|
    requires buckets[s.bucket][s.index].key == key
    modifies buckets
    ensures key in m && mr == m - {key} && |mr| == |m| - 1
    ensures TableInv(buckets[..], hashfp, mr)
    ensures buckets[..] == old(buckets[..])[s.bucket := Unlinked(old(buckets[s.bucket]), s.index)]
  {
    RemoveInv(buckets[..], hashfp, m, s.bucket, s.index);
    buckets[s.bucket] := Unlinked(buckets[s.bucket], s.index);
    mr := m - {key};
  }

  /** ghash_lookup_entry_ex on the bucket array `t` of a table that does not
      change meanwhile: whether `key`, with its `hash`, is present. */
  method FindIn<K(==), V>(t: seq<seq<Entry<K, V>>>, ghost hashfp: K -> u32, ghost m: map<K, Option<V>>,
                          key: K, hash: u32) returns (found: bool)
    requires TableInv(t, hashfp, m) && hash == hashfp(key)
    ensures found <==> key in m
  {
    var j := FindInChain(t[hash % |t|], key, hash);
    FindInv(t, hashfp, m, key);
    found := j.Some?;
  }

  /** The inner loop of the sweeps of ghash_intersection (`keep`) and
      ghash_difference (not `keep`) over chain `i`: test the key of every node
      against the table whose bucket array is `tn`, unlink (through `e_prev`,
      or through the bucket head) each node whose presence there differs from
      `keep`, and decrement the deferred count for it. `t0` is the bucket array
      of the swept table before the sweep. */
  method FilterChain<K(==), V>(a: array<seq<Entry<K, V>>>, i: nat, count0: nat,
                               ghost t0: seq<seq<Entry<K, V>>>, ghost hashfp: K -> u32, ghost m: map<K, Option<V>>,
                               tn: seq<seq<Entry<K, V>>>, ghost mn: map<K, Option<V>>, keep: bool)
    returns (count: nat)
    requires TableInv(t0, hashfp, m) && TableInv(tn, hashfp, mn) && i < |t0| && a.Length == |t0| && a[i] == t0[i]
    requires TableInv(a[..], hashfp, Swept(m, Seen(t0, hashfp, m, i, 0), mn.Keys, keep))
    requires count0 == |Swept(m, Seen(t0, hashfp, m, i, 0), mn.Keys, keep)|
    modifies a
    ensures TableInv(a[..], hashfp, Swept(m, Seen(t0, hashfp, m, i + 1, 0), mn.Keys, keep))
    ensures count == |Swept(m, Seen(t0, hashfp, m, i + 1, 0), mn.Keys, keep)|
    ensures forall b | i < b < a.Length :: a[b] == old(a[b])
  {
    count := count0;
    var p := 0;
    ghost var j := 0;
    ghost var S := Seen(t0, hashfp, m, i, 0);
    ghost var cur := Swept(m, S, mn.Keys, keep);
    while p < |a[i]|
      invariant 0 <= p <= |a[i]| && j <= |t0[i]|
      invariant a[i][p..] == t0[i][j..]
      invariant forall b | i < b < a.Length :: a[b] == old(a[b])
      invariant S == Seen(t0, hashfp, m, i, j) && cur == Swept(m, S, mn.Keys, keep)
      invariant TableInv(a[..], hashfp, cur) && count == |cur|
      decreases |a[i]| - p
    {
      SuffixStep(a[i], t0[i], p, j);
      ghost var k := t0[i][j].key;
      SeenStep(t0, hashfp, m, i, j);
      SweptStep(m, S, mn.Keys, keep, k);
      var found := FindIn(tn, hashfp, mn, a[i][p].key, a[i][p].hash);
      p, count, cur := FilterNode(a, i, p, count, hashfp, cur, found != keep);
      S := S + {k};
      j := j + 1;
    }
    assert j == |t0[i]|;
    SeenNext(t0, hashfp, m, i);
  }

  /** One round of that inner loop, at node `p` of chain `i`: unlink the node
      when `drop` holds, else step past it. */
  method FilterNode<K(==), V>(a: array<seq<Entry<K, V>>>, i: nat, p: nat, count0: nat,
                              ghost hashfp: K -> u32, ghost cur: map<K, Option<V>>, drop: bool)
    returns (p': nat, count: nat, ghost cur': map<K, Option<V>>)
    requires TableInv(a[..], hashfp, cur) && count0 == |cur|
    requires i < a.Length && p < |a[i]|
    modifies a
    ensures cur' == if drop then cur - {old(a[i][p].key)} else cur
    ensures TableInv(a[..], hashfp, cur') && count == |cur'|
    ensures p' <= |a[i]| && |a[i]| - p' < old(|a[i]|) - p && a[i][p'..] == old(a[i][p + 1..])
    ensures forall b | 0 <= b < a.Length && b != i :: a[b] == old(a[b])
  {
    ghost var c := a[i];
    if drop {
      ghost var k := a[i][p].key;
      cur' := UnlinkAt(a, Slot(i, p), k, hashfp, cur);
      assert a[i] == Unlinked(c, p) by {
        assert a[..][i] == Unlinked(c, p);
      }
      UnlinkedSuffix(c, p);
      p', count := p, count0 - 1;
    } else {
      p', count, cur' := p + 1, count0, cur;
    }
  }

  /** The bucket loop of those sweeps: filter every chain in place; the
      returned count is the deferred `new_gh1_nentries`. */
  method FilterBuckets<K(==), V>(a: array<seq<Entry<K, V>>>, count0: nat, ghost hashfp: K -> u32, ghost m: map<K, Option<V>>,
                                 tn: seq<seq<Entry<K, V>>>, ghost mn: map<K, Option<V>>, keep: bool, ghost keyOnly: bool)
    returns (count: nat, ghost mf: map<K, Option<V>>)
    requires TableInv(a[..], hashfp, m) && count0 == |m| && TableInv(tn, hashfp, mn) && ShapedMap(m, keyOnly)
    modifies a
    ensures TableInv(a[..], hashfp, mf) && count == |mf| && IsFiltered(mf, m, mn.Keys, keep) && ShapedMap(mf, keyOnly)
  {
    ghost var t0 := a[..];
    SeenStart(t0, hashfp, m);
    SweptEnds(m, mn.Keys, keep);
    count := count0;
    var i := 0;
    while i < a.Length
      invariant 0 <= i <= a.Length
      invariant forall b | i <= b < a.Length :: a[b] == t0[b]
      invariant TableInv(a[..], hashfp, Swept(m, Seen(t0, hashfp, m, i, 0), mn.Keys, keep))
      invariant count == |Swept(m, Seen(t0, hashfp, m, i, 0), mn.Keys, keep)|
    {
      count := FilterChain(a, i, count, t0, hashfp, m, tn, mn, keep);
      i := i + 1;
    }
    SeenAll(t0, hashfp, m);
    mf := Filter(m, mn.Keys, keep);
    FilterIsFiltered(m, mn.Keys, keep);
  }

  class GHash<K(==), V> {
    /** The hash callback; the comparison callback is key equality. */
    const hashfp: K -> u32
    /** True for a set: entries are allocated without their value part. */
    const keyOnly: bool

    var buckets: array?<seq<Entry<K, V>>>
    var nbuckets: nat
    var limitGrow: nat
    var limitShrink: nat
    var cursize: nat
    var sizeMin: nat
    var nentries: nat
    var flags: set<Flag>

    ghost var Contents: map<K, Option<V>>
    ghost var Repr: set<object>

    /** The chains represent `Contents` (no bucket array: empty table). */
    ghost predicate Chained()
      reads this, Repr
    {
      && this in Repr
      && (if buckets == null then Repr == {this} && Contents == map[]
          else Repr == {this, buckets} && buckets.Length == nbuckets
               && TableInv(buckets[..], hashfp, Contents))
    }

    /** The sizing state: a prime size class at or above the floor, and the
        thresholds of that class. */
    ghost predicate SizeOk()
      reads this
    {
      && cursize < MaxSize && sizeMin <= cursize
      && nbuckets == HashSize(cursize)
      && limitGrow == LimitGrow(nbuckets) && limitShrink == LimitShrink(nbuckets)
    }

    /** Set entries have no value; map entries always have one. */
    ghost predicate Shaped()
      reads this
    {
      ShapedMap(Contents, keyOnly)
    }

    ghost predicate Inv()
      reads this, Repr
    {
      Chained() && SizeOk() && Shaped() && nentries == |Contents|
    }

    /** The invariant of a table reachable by users: its bucket array exists. */
    ghost predicate Valid()
      reads this, Repr
    {
      Inv() && buckets != null
    }

    /** ghash_new: an empty table with `nentriesReserve` entries reserved. */
    constructor (hashfp: K -> u32, nentriesReserve: nat, keyOnly: bool)
      ensures Valid() && fresh(Repr)
      ensures this.hashfp == hashfp && this.keyOnly == keyOnly
      ensures Contents == map[] && nentries == 0 && flags == {}
      ensures cursize == GrowClass(0, nentriesReserve)
      ensures sizeMin == if nentriesReserve != 0 then cursize else 0
    {
      this.hashfp := hashfp;
      this.keyOnly := keyOnly;
      buckets := null;
      Repr := {this};
      new;
      BucketsReset(nentriesReserve);
    }

    /** ghash_resize_buckets: move every entry into a fresh array of `newN`
        buckets, at `hash % newN`. With modulo buckets both branches of the
        source (growing and shrinking) rehash every entry the same way. */
    method ResizeBuckets(newN: nat)
      requires Chained() && newN > 0
      requires buckets == null || newN != nbuckets
      modifies this
      ensures buckets != null && fresh(buckets) && buckets.Length == newN && nbuckets == newN
      ensures Repr == {this, buckets} && TableInv(buckets[..], hashfp, Contents)
      ensures Contents == old(Contents)
      ensures cursize == old(cursize) && sizeMin == old(sizeMin) && nentries == old(nentries) && flags == old(flags)
      ensures limitGrow == old(limitGrow) && limitShrink == old(limitShrink)
    {
      var bucketsNew := Rehashed(buckets, newN, if buckets == null then [] else buckets[..], hashfp, Contents);
      buckets := bucketsNew;
      nbuckets := newN;
      Repr := {this, buckets};
    }

    /** ghash_expand_buckets: re-evaluate the sizing policy for `n` entries and
        rehash when the bucket count changes. The grow loop runs first; the
        shrink loop (enabled by `forceShrink` or the AllowShrink flag) then
        starts from the shrink threshold of the class the table had on entry.
        A user-defined size (reserve) raises the floor to the resulting class. */
    method ExpandBuckets(n: nat, userDefined: bool, forceShrink: bool)
      requires Inv()
      modifies Repr
      ensures Valid() && fresh(Repr - old(Repr))
      ensures Contents == old(Contents) && nentries == old(nentries) && flags == old(flags)
      ensures cursize == TargetClass(old(cursize), n, old(sizeMin), forceShrink || AllowShrink in flags)
      ensures sizeMin == if userDefined && !(old(buckets) != null && n < old(limitGrow) && n > old(limitShrink))
                         then cursize else old(sizeMin)
      ensures n > limitGrow ==> cursize == MaxSize - 1
      ensures (forceShrink || AllowShrink in flags) && n < limitShrink ==> cursize == old(sizeMin) || userDefined
      ensures old(buckets) != null && cursize == old(cursize) ==> buckets == old(buckets) && buckets[..] == old(buckets[..])
    {
      ghost var shrinking := forceShrink || AllowShrink in flags;
      if buckets != null && n < limitGrow && n > limitShrink {
        WindowIsStable(cursize, n, sizeMin, shrinking);
        return;
      }
      var c, newNbuckets := ResizeTarget(cursize, sizeMin, n, forceShrink || AllowShrink in flags);
      Install(c, if userDefined then c else sizeMin, newNbuckets);
    }

    /** The tail of ghash_expand_buckets: record size class `c` (and the floor),
        then rebuild the bucket array unless its size is unchanged. */
    method Install(c: nat, floor: nat, newN: nat)
      requires Inv() && floor <= c < MaxSize && newN == HashSize(c)
      modifies Repr
      ensures Valid() && fresh(Repr - old(Repr))
      ensures Contents == old(Contents) && nentries == old(nentries) && flags == old(flags)
      ensures cursize == c && sizeMin == floor
      ensures old(buckets) != null && c == old(cursize) ==> buckets == old(buckets) && buckets[..] == old(buckets[..])
    {
      if newN == nbuckets && buckets != null {
        if c != cursize {
          SizesInjective(c, cursize);
        }
        sizeMin := floor;
      } else {
        Rebuild(c, floor, newN);
      }
    }

    /** Record size class `c` with its thresholds and floor, and rehash into
        `newN` buckets. */
    method Rebuild(c: nat, floor: nat, newN: nat)
      requires Inv() && floor <= c < MaxSize && newN == HashSize(c)
      requires buckets == null || newN != nbuckets
      modifies this
      ensures Valid() && fresh(buckets) && Repr == {this, buckets}
      ensures Contents == old(Contents) && nentries == old(nentries) && flags == old(flags)
      ensures cursize == c && sizeMin == floor
    {
      ClassFacts(c);
      ResizeBuckets(newN);
      cursize, limitGrow, limitShrink, sizeMin := c, LimitGrow(newN), LimitShrink(newN), floor;
    }

    /** ghash_buckets_reset: drop the bucket array, return to the smallest class
        with no floor and no flags, then size for `n` entries (a non-zero `n`
        counts as user-defined and becomes the floor). */
    method BucketsReset(n: nat)
      requires this in Repr
      modifies this
      ensures Valid() && fresh(Repr - {this})
      ensures Contents == map[] && nentries == 0 && flags == {}
      ensures cursize == GrowClass(0, n)
      ensures sizeMin == if n != 0 then cursize else 0
    {
      buckets := null;
      cursize := 0;
      sizeMin := 0;
      nbuckets := HashSize(cursize);
      limitGrow := LimitGrow(nbuckets);
      limitShrink := LimitShrink(nbuckets);
      nentries := 0;
      flags := {};
      Contents := map[];
      Repr := {this};
      ExpandBuckets(n, n != 0, false);
    }

    /** ghash_lookup_entry: the position of the node holding `key`, if any; it
        lies in bucket `hash % nbuckets` and carries the key's value. */
    method LookupEntry(key: K) returns (r: Option<Slot>)
      requires Valid()
      ensures r.Some? <==> key in Contents
      ensures r.Some? ==> var s := r.value;
        && s.bucket == hashfp(key) % nbuckets && s.index < |buckets[s.bucket]|
        && buckets[s.bucket][s.index].key == key && buckets[s.bucket][s.index].val == Contents[key]
    {
      var hash := hashfp(key);
      var bucketHash := hash % nbuckets;
      var j := FindInChain(buckets[bucketHash], key, hash);
      FindInv(buckets[..], hashfp, Contents, key);
      r := if j.Some? then Some(Slot(bucketHash, j.value)) else None;
    }

    /** BLI_ghash_haskey. */
    method HasKey(key: K) returns (b: bool)
      requires Valid()
      ensures b <==> key in Contents
    {
      var e := LookupEntry(key);
      b := e.Some?;
    }

    /** BLI_ghash_lookup: the value, or nothing (NULL) for a missing key. */
    method Lookup(key: K) returns (r: Option<V>)
      requires Valid() && !keyOnly
      ensures r == if key in Contents then Contents[key] else None
    {
      var e := LookupEntry(key);
      r := if e.Some? then buckets[e.value.bucket][e.value.index].val else None;
    }

    /** BLI_ghash_lookup_default: the value, or `valDefault` for a missing key. */
    method LookupDefault(key: K, valDefault: V) returns (r: V)
      requires Valid() && !keyOnly
      ensures key in Contents ==> Contents[key] == Some(r)
      ensures key !in Contents ==> r == valDefault
    {
      var e := LookupEntry(key);
      if e.Some? {
        r := buckets[e.value.bucket][e.value.index].val.value;
      } else {
        r := valDefault;
      }
    }

    /** BLI_ghash_lookup_p: the address of the value slot of `key`; nothing
        (NULL) always means the key is missing. */
    method LookupP(key: K) returns (r: Option<Slot>)
      requires Valid() && !keyOnly
      ensures r.Some? <==> key in Contents
      ensures r.Some? ==> IsSlotOf(r.value, key)
    {
      r := LookupEntry(key);
    }

    /** The chains as a value: a bucket array representing `Contents`. */
    method Snapshot() returns (t: seq<seq<Entry<K, V>>>)
      requires Valid()
      ensures TableInv(t, hashfp, Contents) && |t| == nbuckets
    {
      t := buckets[..];
    }

    /** `s` addresses the node of `key`. */
    ghost predicate IsSlotOf(s: Slot, key: K)
      reads this, buckets
    {
      buckets != null && s.bucket < buckets.Length && s.index < |buckets[s.bucket]|
      && buckets[s.bucket][s.index].key == key
    }

    /** BLI_ghash_size. */
    method Size() returns (n: nat)
      requires Valid()
      ensures n == |Contents|
    {
      n := nentries;
    }

    /** The loops of ghash_copy, run on the new table: prepend a copy of every
        entry of `src` (the bucket array of the table being copied) to the
        bucket its hash selects here, then take over the count `n`. */
    method Fill(src: array<seq<Entry<K, V>>>, ghost m: map<K, Option<V>>, n: nat)
      requires Valid() && Contents == map[] && src !in Repr
      requires TableInv(src[..], hashfp, m) && n == |m| && forall k | k in m :: m[k].None? == keyOnly
      modifies Repr
      ensures Valid() && Repr == old(Repr) && buckets == old(buckets)
      ensures Contents == m && nentries == n
      ensures cursize == old(cursize) && sizeMin == old(sizeMin) && flags == old(flags)
    {
      EmptyTableInv(buckets[..], hashfp, m);
      RehashAll(src, buckets, src[..], hashfp, m);
      Contents := m;
      nentries := n;
    }

    /** ghash_copy: a new table with the same hash callback, shape and mapping
        (and count), no flags, and sized for the count with no floor. */
    method Copy() returns (c: GHash<K, V>)
      requires Valid()
      ensures fresh(c.Repr) && c.Valid()
      ensures c.hashfp == hashfp && c.keyOnly == keyOnly
      ensures c.Contents == Contents && c.nentries == nentries && c.flags == {}
      ensures c.cursize == GrowClass(0, nentries) && c.sizeMin == 0
    {
      c := new GHash(hashfp, 0, keyOnly);
      c.ExpandBuckets(nentries, false, false);
      c.Fill(buckets, Contents, nentries);
    }

    /** The linking step of ghash_insert_ex: prepend node `e` to its bucket
        and count it. */
    method Link(e: Entry<K, V>)
      requires Valid() && e.hash == hashfp(e.key) && e.key !in Contents && e.val.None? == keyOnly
      modifies Repr
      ensures Inv() && buckets == old(buckets) && Repr == old(Repr)
      ensures Contents == old(Contents)[e.key := e.val] && nentries == old(nentries) + 1
      ensures buckets[..] == old(buckets[..])[e.hash % nbuckets := [e] + old(buckets[e.hash % nbuckets])]
      ensures cursize == old(cursize) && sizeMin == old(sizeMin) && flags == old(flags)
    {
      var bucketHash := e.hash % nbuckets;
      InsertInv(buckets[..], hashfp, Contents, e);
      buckets[bucketHash] := [e] + buckets[bucketHash];
      Contents := Contents[e.key := e.val];
      nentries := nentries + 1;
    }

    /** ghash_insert_ex and ghash_insert_ex_keyonly (`v` is nothing for a set):
        link a node for a key known to be absent, then let the sizing policy
        react to the new count. */
    method InsertEx(key: K, v: Option<V>, hash: u32)
      requires Valid() && hash == hashfp(key) && key !in Contents && v.None? == keyOnly
      modifies Repr
      ensures Valid() && fresh(Repr - old(Repr))
      ensures Contents == old(Contents)[key := v] && nentries == old(nentries) + 1 && flags == old(flags)
      ensures cursize == TargetClass(old(cursize), nentries, old(sizeMin), AllowShrink in flags) && sizeMin == old(sizeMin)
      ensures nentries > limitGrow ==> cursize == MaxSize - 1
    {
      Link(Entry(hash, key, v));
      ExpandBuckets(nentries, false, false);
    }

    /** BLI_ghash_insert: the caller guarantees that `key` is absent. */
    method Insert(key: K, val: V)
      requires Valid() && !keyOnly && key !in Contents
      modifies Repr
      ensures Valid() && fresh(Repr - old(Repr))
      ensures Contents == old(Contents)[key := Some(val)] && nentries == old(nentries) + 1
      ensures flags == old(flags) && (nentries > limitGrow ==> cursize == MaxSize - 1)
      ensures cursize == TargetClass(old(cursize), nentries, old(sizeMin), AllowShrink in flags) && sizeMin == old(sizeMin)
    {
      InsertEx(key, Some(val), hashfp(key));
    }

    /** Store `v` through the value slot `s` (a write through the pointer
        BLI_ghash_lookup_p returns, while the table is otherwise unchanged, or
        the in-place override of ghash_insert_safe); the key, the count and
        the sizing stay. */
    method StoreAt(s: Slot, ghost key: K, v: Option<V>)
      requires Valid() && IsSlotOf(s, key) && v.None? == keyOnly
      modifies Repr
      ensures Valid() && Repr == old(Repr) && buckets == old(buckets)
      ensures Contents == old(Contents)[key := v]
      ensures nentries == old(nentries) && flags == old(flags) && cursize == old(cursize) && sizeMin == old(sizeMin)
    {
      ghost var m := Contents[key := v];
      assert forall k | k in m :: m[k].None? == keyOnly;
      Overwrite(buckets, s, key, v, hashfp, Contents);
      Contents := m;
    }

    /** ghash_insert_safe and ghash_insert_safe_keyonly: add `key` when it is
        absent; when it is present, replace its value if `override` holds and
        otherwise change nothing. True exactly when a key was added. */
    method InsertSafe(key: K, v: Option<V>, override: bool) returns (added: bool)
      requires Valid() && v.None? == keyOnly
      modifies Repr
      ensures Valid() && fresh(Repr - old(Repr)) && flags == old(flags)
      ensures added <==> key !in old(Contents)
      ensures Contents == if added || override then old(Contents)[key := v] else old(Contents)
      ensures nentries == if added then old(nentries) + 1 else old(nentries)
      ensures !added ==> buckets == old(buckets) && cursize == old(cursize) && sizeMin == old(sizeMin)
      ensures !added && !override ==> buckets[..] == old(buckets[..])
      ensures added ==> (nentries > limitGrow ==> cursize == MaxSize - 1)
      ensures added ==> cursize == TargetClass(old(cursize), nentries, old(sizeMin), AllowShrink in flags) && sizeMin == old(sizeMin)
    {
      var hash := hashfp(key);
      var bucketHash := hash % nbuckets;
      var j := FindInChain(buckets[bucketHash], key, hash);
      FindInv(buckets[..], hashfp, Contents, key);
      if j.Some? {
        if override {
          StoreAt(Slot(bucketHash, j.value), key, v);
        }
        return false;
      }
      InsertEx(key, v, hash);
      return true;
    }

    /** BLI_ghash_add: insert unless the key is present. */
    method Add(key: K, val: V) returns (added: bool)
      requires Valid() && !keyOnly
      modifies Repr
      ensures Valid() && fresh(Repr - old(Repr)) && flags == old(flags)
      ensures added <==> key !in old(Contents)
      ensures Contents == if added then old(Contents)[key := Some(val)] else old(Contents)
      ensures nentries == if added then old(nentries) + 1 else old(nentries)
      ensures !added ==> buckets == old(buckets) && buckets[..] == old(buckets[..])
      ensures !added ==> cursize == old(cursize) && sizeMin == old(sizeMin)
      ensures added ==> cursize == TargetClass(old(cursize), nentries, old(sizeMin), AllowShrink in flags) && sizeMin == old(sizeMin)
      ensures added ==> (nentries > limitGrow ==> cursize == MaxSize - 1)
    {
      added := InsertSafe(key, Some(val), false);
    }

    /** BLI_ghash_reinsert: insert, or overwrite the value of a present key. */
    method Reinsert(key: K, val: V) returns (added: bool)
      requires Valid() && !keyOnly
      modifies Repr
      ensures Valid() && fresh(Repr - old(Repr)) && flags == old(flags)
      ensures added <==> key !in old(Contents)
      ensures Contents == old(Contents)[key := Some(val)]
      ensures nentries == if added then old(nentries) + 1 else old(nentries)
      ensures !added ==> buckets == old(buckets) && cursize == old(cursize) && sizeMin == old(sizeMin)
      ensures added ==> cursize == TargetClass(old(cursize), nentries, old(sizeMin), AllowShrink in flags) && sizeMin == old(sizeMin)
      ensures added ==> (nentries > limitGrow ==> cursize == MaxSize - 1)
    {
      added := InsertSafe(key, Some(val), true);
    }

    /** The unlinking step of ghash_remove_ex and of the symmetric difference:
        unlink the node of `key` at slot `s` and uncount it, without resizing. */
    method Unlink(s: Slot, ghost key: K)
      requires Valid() && IsSlotOf(s, key)
      modifies Repr
      ensures Inv() && Repr == old(Repr) && buckets == old(buckets)
      ensures Contents == old(Contents) - {key} && nentries == old(nentries) - 1
      ensures flags == old(flags) && cursize == old(cursize) && sizeMin == old(sizeMin)
    {
      RemoveInv(buckets[..], hashfp, Contents, s.bucket, s.index);
      ShapedRemove(Contents, key, keyOnly);
      buckets[s.bucket] := Unlinked(buckets[s.bucket], s.index);
      Contents, nentries := Contents - {key}, nentries - 1;
    }

    /** The unlinking loops of the second pass of ghash_symmetric_difference:
        unlink the node of `key` if there is one, and resize nothing. */
    method Discard(key: K, hash: u32)
      requires Valid() && hash == hashfp(key)
      modifies Repr
      ensures Valid() && Repr == old(Repr) && buckets == old(buckets)
      ensures Contents == old(Contents) - {key}
      ensures flags == old(flags) && cursize == old(cursize) && sizeMin == old(sizeMin)
    {
      var bucketHash := hash % nbuckets;
      var j := FindInChain(buckets[bucketHash], key, hash);
      FindInv(buckets[..], hashfp, Contents, key);
      if j.None? {
        assert Contents - {key} == Contents;
        return;
      }
      Unlink(Slot(bucketHash, j.value), key);
    }

    /** One operand of ghash_intersection (`keep`) or ghash_difference (not
        `keep`): sweep the table against the bucket array `tn` of the operand
        with the count deferred, store the count, and re-evaluate the size
        with shrinking forced. */
    method FilterStep(tn: seq<seq<Entry<K, V>>>, ghost mn: map<K, Option<V>>, keep: bool)
      requires Valid() && TableInv(tn, hashfp, mn)
      modifies Repr
      ensures Valid() && fresh(Repr - old(Repr)) && flags == old(flags)
      ensures Contents == Filter(old(Contents), mn.Keys, keep)
      ensures cursize == TargetClass(old(cursize), nentries, old(sizeMin), true) && sizeMin == old(sizeMin)
    {
      FilterSweep(tn, mn, keep);
      FilteredIs(Contents, old(Contents), mn.Keys, keep);
      ExpandBuckets(nentries, false, true);
    }

    /** The sweep of one such operand and the store of the deferred count;
        the bucket array keeps its size. */
    method FilterSweep(tn: seq<seq<Entry<K, V>>>, ghost mn: map<K, Option<V>>, keep: bool)
      requires Valid() && TableInv(tn, hashfp, mn)
      modifies Repr
      ensures Valid() && Repr == old(Repr) && buckets == old(buckets)
      ensures IsFiltered(Contents, old(Contents), mn.Keys, keep)
      ensures flags == old(flags) && cursize == old(cursize) && sizeMin == old(sizeMin)
    {
      var count, mf := FilterBuckets(buckets, nentries, hashfp, Contents, tn, mn, keep, keyOnly);
      Contents, nentries := mf, count;
    }

    /** ghash_remove_ex: unlink the node of `key` if there is one, let the
        sizing policy react to the smaller count, and return the node. */
    method RemoveEx(key: K, hash: u32) returns (r: Option<Entry<K, V>>)
      requires Valid() && hash == hashfp(key)
      modifies Repr
      ensures Valid() && fresh(Repr - old(Repr)) && flags == old(flags)
      ensures r.Some? <==> key in old(Contents)
      ensures r.Some? ==> r.value == Entry(hash, key, old(Contents)[key])
      ensures Contents == old(Contents) - {key}
      ensures nentries == if r.Some? then old(nentries) - 1 else old(nentries)
      ensures r.None? ==> buckets == old(buckets) && buckets[..] == old(buckets[..]) && cursize == old(cursize)
      ensures r.Some? ==> cursize == TargetClass(old(cursize), nentries, old(sizeMin), AllowShrink in flags)
      ensures sizeMin == old(sizeMin)
    {
      var bucketHash := hash % nbuckets;
      var j := FindInChain(buckets[bucketHash], key, hash);
      FindInv(buckets[..], hashfp, Contents, key);
      if j.None? {
        assert Contents - {key} == Contents;
        return None;
      }
      var e := buckets[bucketHash][j.value];
      Unlink(Slot(bucketHash, j.value), key);
      ExpandBuckets(nentries, false, false);
      return Some(e);
    }

    /** BLI_ghash_remove: true exactly when `key` was present; afterwards it is
        absent and every other key keeps its value. */
    method Remove(key: K) returns (removed: bool)
      requires Valid()
      modifies Repr
      ensures Valid() && fresh(Repr - old(Repr)) && flags == old(flags)
      ensures removed <==> key in old(Contents)
      ensures Contents == old(Contents) - {key}
      ensures nentries == if removed then old(nentries) - 1 else old(nentries)
      ensures removed ==> cursize == TargetClass(old(cursize), nentries, old(sizeMin), AllowShrink in flags)
      ensures !removed ==> cursize == old(cursize)
      ensures sizeMin == old(sizeMin) && sizeMin <= cursize
      ensures AllowShrink !in flags ==> cursize >= old(cursize)
    {
      var e := RemoveEx(key, hashfp(key));
      removed := e.Some?;
      if removed {
        ExpandConsistent(old(cursize), nentries, old(sizeMin), AllowShrink in flags);
      }
    }

    /** BLI_ghash_popkey: remove `key` and return its value, or nothing (NULL)
        when it was missing. */
    method PopKey(key: K) returns (r: Option<V>)
      requires Valid() && !keyOnly
      modifies Repr
      ensures Valid() && fresh(Repr - old(Repr)) && flags == old(flags)
      ensures r == if key in old(Contents) then old(Contents)[key] else None
      ensures Contents == old(Contents) - {key}
      ensures nentries == if key in old(Contents) then old(nentries) - 1 else old(nentries)
      ensures key in old(Contents) ==> cursize == TargetClass(old(cursize), nentries, old(sizeMin), AllowShrink in flags)
      ensures key !in old(Contents) ==> cursize == old(cursize)
      ensures sizeMin == old(sizeMin) && sizeMin <= cursize
      ensures AllowShrink !in flags ==> cursize >= old(cursize)
    {
      var e := RemoveEx(key, hashfp(key));
      if e.Some? {
        ExpandConsistent(old(cursize), nentries, old(sizeMin), AllowShrink in flags);
      }
      r := if e.Some? then e.value.val else None;
    }

    /** BLI_ghash_clear_ex: drop every entry and the flags, and size the empty
        table for `nentriesReserve` entries. */
    method ClearEx(nentriesReserve: nat)
      requires Valid()
      modifies this
      ensures Valid() && fresh(Repr - {this})
      ensures Contents == map[] && nentries == 0 && flags == {}
      ensures cursize == GrowClass(0, nentriesReserve)
      ensures sizeMin == if nentriesReserve != 0 then cursize else 0
    {
      BucketsReset(nentriesReserve);
    }

    /** BLI_ghash_clear. */
    method Clear()
      requires Valid()
      modifies this
      ensures Valid() && fresh(Repr - {this})
      ensures Contents == map[] && nentries == 0 && flags == {} && cursize == 0 && sizeMin == 0
    {
      ClearEx(0);
    }

    /** BLI_ghash_reserve: re-evaluate the sizing policy for `nentriesReserve`
        entries (the given count, not the larger of it and the current one),
        as a user-defined size that becomes the floor. */
    method Reserve(nentriesReserve: nat)
      requires Valid()
      modifies Repr
      ensures Valid() && fresh(Repr - old(Repr))
      ensures Contents == old(Contents) && nentries == old(nentries) && flags == old(flags)
      ensures cursize == TargetClass(old(cursize), nentriesReserve, old(sizeMin), AllowShrink in flags)
      ensures nentriesReserve > limitGrow ==> cursize == MaxSize - 1
      ensures sizeMin == if nentriesReserve < old(limitGrow) && nentriesReserve > old(limitShrink)
                         then old(sizeMin) else cursize
    {
      ExpandBuckets(nentriesReserve, true, false);
    }

    /** BLI_ghash_flag_set. */
    method FlagSet(flag: set<Flag>)
      requires Valid()
      modifies this
      ensures Valid() && Repr == old(Repr) && Contents == old(Contents) && flags == old(flags) + flag
      ensures buckets == old(buckets) && nentries == old(nentries)
      ensures cursize == old(cursize) && sizeMin == old(sizeMin)
    {
      flags := flags + flag;
    }

    /** BLI_ghash_flag_clear. */
    method FlagClear(flag: set<Flag>)
      requires Valid()
      modifies this
      ensures Valid() && Repr == old(Repr) && Contents == old(Contents) && flags == old(flags) - flag
      ensures buckets == old(buckets) && nentries == old(nentries)
      ensures cursize == old(cursize) && sizeMin == old(sizeMin)
    {
      flags := flags - flag;
    }
  }
}
