/** The relational predicates of BLI_ghash.c: isdisjoint, isequal, issubset
    and issuperset. Each compares key sets only (values are ignored) by
    walking the buckets of one table and looking every key up in the other,
    stopping at the first key that settles the answer. */
module GHashRelations {
  import opened Wrappers
  import opened Chains
  import opened GHashTable

  /** The sweep shared by the predicates: walk the bucket array `t` of `n`
      and look each key up in `g`; the answer is whether every key of `n`
      is in `g` (`want`) or every key is missing from `g` (`!want`). */
  method AllKeys<K(==), V>(t: seq<seq<Entry<K, V>>>, ghost n: map<K, Option<V>>, g: GHash<K, V>, want: bool)
    returns (b: bool)
    requires g.Valid() && TableInv(t, g.hashfp, n)
    ensures b <==> forall k | k in n :: (k in g.Contents) == want
  {
    ghost var hashfp := g.hashfp;
    SeenStart(t, hashfp, n);
    var i := 0;
    while i < |t|
      invariant 0 <= i <= |t|
      invariant forall k | k in Seen(t, hashfp, n, i, 0) :: (k in g.Contents) == want
    {
      var j := 0;
      while j < |t[i]|
        invariant 0 <= j <= |t[i]|
        invariant forall k | k in Seen(t, hashfp, n, i, j) :: (k in g.Contents) == want
      {
        NodeFacts(t, hashfp, n, i, j);
        SeenStep(t, hashfp, n, i, j);
        var found := g.HasKey(t[i][j].key);
        if found != want {
          return false;
        }
        j := j + 1;
      }
      SeenNext(t, hashfp, n, i);
      i := i + 1;
    }
    SeenAll(t, hashfp, n);
    return true;
  }

  /** A subset with as many elements as its superset is the whole set. */
  lemma SubsetSameSize<K>(a: set<K>, b: set<K>)
    requires a <= b && |a| == |b|
    ensures a == b
  {
    if a != b {
      var k :| k in b && k !in a;
      SubsetSize(a, b - {k});
    }
  }

  /** A subset is no larger than its superset. */
  lemma SubsetSize<K>(a: set<K>, b: set<K>)
    requires a <= b
    ensures |a| <= |b|
  {
    assert b == a + (b - a);
  }

  /** BLI_ghash_isdisjoint: no key is in both tables. The smaller table is
      the one walked. */
  method IsDisjoint<K(==), V>(gh1: GHash<K, V>, gh2: GHash<K, V>) returns (b: bool)
    requires gh1.Valid() && gh2.Valid() && gh1.hashfp == gh2.hashfp
    ensures b <==> gh1.Contents.Keys !! gh2.Contents.Keys
  {
    var small, large := gh1, gh2;
    if gh1.nentries > gh2.nentries {
      small, large := gh2, gh1;
    }
    b := AllKeys(small.buckets[..], small.Contents, large, false);
  }

  /** BLI_ghash_isequal: both tables hold the same keys. Tables of different
      sizes are told apart without a walk. */
  method IsEqual<K(==), V>(gh1: GHash<K, V>, gh2: GHash<K, V>) returns (b: bool)
    requires gh1.Valid() && gh2.Valid() && gh1.hashfp == gh2.hashfp
    ensures b <==> gh1.Contents.Keys == gh2.Contents.Keys
  {
    if gh1.nentries != gh2.nentries {
      assert |gh1.Contents.Keys| != |gh2.Contents.Keys|;
      return false;
    }
    b := AllKeys(gh1.buckets[..], gh1.Contents, gh2, true);
    if b {
      SubsetSameSize(gh1.Contents.Keys, gh2.Contents.Keys);
    }
  }

  /** BLI_ghash_issubset: the keys of `gh2` are a subset of those of `gh1`
      (the second argument is the subset). A `gh1` with fewer entries is
      rejected without a walk. */
  method IsSubset<K(==), V>(gh1: GHash<K, V>, gh2: GHash<K, V>) returns (b: bool)
    requires gh1.Valid() && gh2.Valid() && gh1.hashfp == gh2.hashfp
    ensures b <==> gh2.Contents.Keys <= gh1.Contents.Keys
  {
    if gh1.nentries < gh2.nentries {
      if gh2.Contents.Keys <= gh1.Contents.Keys {
        SubsetSize(gh2.Contents.Keys, gh1.Contents.Keys);
      }
      return false;
    }
    b := AllKeys(gh2.buckets[..], gh2.Contents, gh1, true);
  }

  /** BLI_ghash_issuperset: the keys of `gh2` are a superset of those of
      `gh1`; issubset with the arguments swapped. */
  method IsSuperset<K(==), V>(gh1: GHash<K, V>, gh2: GHash<K, V>) returns (b: bool)
    requires gh1.Valid() && gh2.Valid() && gh1.hashfp == gh2.hashfp
    ensures b <==> gh1.Contents.Keys <= gh2.Contents.Keys
  {
    b := IsSubset(gh2, gh1);
  }
}
