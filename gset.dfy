/** The GSet API of BLI_ghash.c: a set is a table created with the set entry
    size, whose entries have a key and no value, driven through the GHash
    operations. Every wrapper here states its effect on the element set. */
module GSets {
  import opened Wrappers
  import opened Sizing
  import opened Chains
  import opened Algebra
  import opened GHashTable
  import opened GHashRelations
  import opened GHashOps

  /** A GSet is a GHash whose value part is never allocated. */
  type GSet<K(==)> = GHash<K, ()>

  /** A live set: a valid table of key-only entries. */
  ghost predicate IsSet<K>(gs: GSet<K>)
    reads gs, gs.Repr
  {
    gs.Valid() && gs.keyOnly
  }

  /** The elements of a set. */
  ghost function Elements<K>(gs: GSet<K>): set<K>
    reads gs
  {
    gs.Contents.Keys
  }

  /** BLI_gset_new_ex: an empty set with room reserved for
      `nentriesReserve` elements. */
  method NewEx<K(==)>(hashfp: K -> u32, nentriesReserve: nat) returns (gs: GSet<K>)
    ensures IsSet(gs) && fresh(gs.Repr) && gs.hashfp == hashfp && gs.flags == {}
    ensures Elements(gs) == {} && gs.nentries == 0
    ensures gs.cursize == GrowClass(0, nentriesReserve)
    ensures gs.sizeMin == if nentriesReserve != 0 then gs.cursize else 0
  {
    gs := new GHash(hashfp, nentriesReserve, true);
  }

  /** BLI_gset_new: an empty set with nothing reserved. */
  method New<K(==)>(hashfp: K -> u32) returns (gs: GSet<K>)
    ensures IsSet(gs) && fresh(gs.Repr) && gs.hashfp == hashfp && gs.flags == {}
    ensures Elements(gs) == {} && gs.cursize == 0 && gs.sizeMin == 0
  {
    gs := NewEx(hashfp, 0);
  }

  /** BLI_gset_copy: a new set with the same elements. */
  method Copy<K(==)>(gs: GSet<K>) returns (c: GSet<K>)
    requires IsSet(gs)
    ensures IsSet(c) && fresh(c.Repr) && c.hashfp == gs.hashfp
    ensures Elements(c) == Elements(gs) && c.flags == {}
  {
    c := gs.Copy();
  }

  /** BLI_gset_size: the number of elements. */
  method Size<K(==)>(gs: GSet<K>) returns (n: nat)
    requires IsSet(gs)
    ensures n == |Elements(gs)|
  {
    n := gs.Size();
    assert |gs.Contents.Keys| == |gs.Contents|;
  }

  /** BLI_gset_insert: add an element known not to be in the set. */
  method Insert<K(==)>(gs: GSet<K>, key: K)
    requires IsSet(gs) && key !in Elements(gs)
    modifies gs.Repr
    ensures IsSet(gs) && fresh(gs.Repr - old(gs.Repr)) && gs.flags == old(gs.flags)
    ensures Elements(gs) == old(Elements(gs)) + {key}
    ensures gs.cursize == TargetClass(old(gs.cursize), gs.nentries, old(gs.sizeMin), AllowShrink in gs.flags) && gs.sizeMin == old(gs.sizeMin)
  {
    gs.InsertEx(key, None, gs.hashfp(key));
  }

  /** BLI_gset_add: add the element unless it is there already; the answer
      says whether it was added. */
  method Add<K(==)>(gs: GSet<K>, key: K) returns (added: bool)
    requires IsSet(gs)
    modifies gs.Repr
    ensures IsSet(gs) && fresh(gs.Repr - old(gs.Repr)) && gs.flags == old(gs.flags)
    ensures added <==> key !in old(Elements(gs))
    ensures Elements(gs) == old(Elements(gs)) + {key}
    ensures !added ==> gs.Contents == old(gs.Contents)
    ensures !added ==> gs.cursize == old(gs.cursize) && gs.sizeMin == old(gs.sizeMin)
    ensures added ==> gs.cursize == TargetClass(old(gs.cursize), gs.nentries, old(gs.sizeMin), AllowShrink in gs.flags) && gs.sizeMin == old(gs.sizeMin)
  {
    added := gs.InsertSafe(key, None, false);
  }

  /** BLI_gset_reinsert: add the element, replacing the stored key when it
      is there already; the answer says whether it was new. */
  method Reinsert<K(==)>(gs: GSet<K>, key: K) returns (added: bool)
    requires IsSet(gs)
    modifies gs.Repr
    ensures IsSet(gs) && fresh(gs.Repr - old(gs.Repr)) && gs.flags == old(gs.flags)
    ensures added <==> key !in old(Elements(gs))
    ensures Elements(gs) == old(Elements(gs)) + {key}
    ensures !added ==> gs.cursize == old(gs.cursize) && gs.sizeMin == old(gs.sizeMin)
    ensures added ==> gs.cursize == TargetClass(old(gs.cursize), gs.nentries, old(gs.sizeMin), AllowShrink in gs.flags) && gs.sizeMin == old(gs.sizeMin)
  {
    added := gs.InsertSafe(key, None, true);
  }

  /** BLI_gset_remove: remove the element; the answer says whether it was
      there. */
  method Remove<K(==)>(gs: GSet<K>, key: K) returns (removed: bool)
    requires IsSet(gs)
    modifies gs.Repr
    ensures IsSet(gs) && fresh(gs.Repr - old(gs.Repr)) && gs.flags == old(gs.flags)
    ensures removed <==> key in old(Elements(gs))
    ensures Elements(gs) == old(Elements(gs)) - {key}
    ensures removed ==> gs.cursize == TargetClass(old(gs.cursize), gs.nentries, old(gs.sizeMin), AllowShrink in gs.flags)
    ensures !removed ==> gs.cursize == old(gs.cursize)
    ensures gs.sizeMin == old(gs.sizeMin) && (AllowShrink !in gs.flags ==> gs.cursize >= old(gs.cursize))
  {
    removed := gs.Remove(key);
  }

  /** BLI_gset_haskey: membership. */
  method HasKey<K(==)>(gs: GSet<K>, key: K) returns (b: bool)
    requires IsSet(gs)
    ensures b <==> key in Elements(gs)
  {
    b := gs.HasKey(key);
  }

  /** BLI_gset_clear_ex: remove every element and reserve room for
      `nentriesReserve`. */
  method ClearEx<K(==)>(gs: GSet<K>, nentriesReserve: nat)
    requires IsSet(gs)
    modifies gs
    ensures IsSet(gs) && fresh(gs.Repr - {gs}) && Elements(gs) == {} && gs.flags == {}
    ensures gs.cursize == GrowClass(0, nentriesReserve)
    ensures gs.sizeMin == if nentriesReserve != 0 then gs.cursize else 0
  {
    gs.ClearEx(nentriesReserve);
  }

  /** BLI_gset_clear: remove every element. */
  method Clear<K(==)>(gs: GSet<K>)
    requires IsSet(gs)
    modifies gs
    ensures IsSet(gs) && fresh(gs.Repr - {gs}) && Elements(gs) == {} && gs.flags == {}
    ensures gs.cursize == 0 && gs.sizeMin == 0
  {
    gs.Clear();
  }

  /** BLI_gset_flag_set: turn the flags of `flag` on. */
  method FlagSet<K(==)>(gs: GSet<K>, flag: set<Flag>)
    requires IsSet(gs)
    modifies gs
    ensures IsSet(gs) && gs.Repr == old(gs.Repr) && Elements(gs) == old(Elements(gs))
    ensures gs.flags == old(gs.flags) + flag && gs.nentries == old(gs.nentries)
    ensures gs.cursize == old(gs.cursize) && gs.sizeMin == old(gs.sizeMin)
  {
    gs.FlagSet(flag);
  }

  /** BLI_gset_flag_clear: turn the flags of `flag` off. */
  method FlagClear<K(==)>(gs: GSet<K>, flag: set<Flag>)
    requires IsSet(gs)
    modifies gs
    ensures IsSet(gs) && gs.Repr == old(gs.Repr) && Elements(gs) == old(Elements(gs))
    ensures gs.flags == old(gs.flags) - flag && gs.nentries == old(gs.nentries)
    ensures gs.cursize == old(gs.cursize) && gs.sizeMin == old(gs.sizeMin)
  {
    gs.FlagClear(flag);
  }

  /** BLI_gset_isdisjoint: no element in common. */
  method IsDisjoint<K(==)>(gs1: GSet<K>, gs2: GSet<K>) returns (b: bool)
    requires IsSet(gs1) && IsSet(gs2) && gs1.hashfp == gs2.hashfp
    ensures b <==> Elements(gs1) !! Elements(gs2)
  {
    b := GHashRelations.IsDisjoint(gs1, gs2);
  }

  /** BLI_gset_isequal: the same elements. */
  method IsEqual<K(==)>(gs1: GSet<K>, gs2: GSet<K>) returns (b: bool)
    requires IsSet(gs1) && IsSet(gs2) && gs1.hashfp == gs2.hashfp
    ensures b <==> Elements(gs1) == Elements(gs2)
  {
    b := GHashRelations.IsEqual(gs1, gs2);
  }

  /** BLI_gset_issubset: the elements of `gs2` all belong to `gs1` (the
      second argument is the subset, as for the GHash version). */
  method IsSubset<K(==)>(gs1: GSet<K>, gs2: GSet<K>) returns (b: bool)
    requires IsSet(gs1) && IsSet(gs2) && gs1.hashfp == gs2.hashfp
    ensures b <==> Elements(gs2) <= Elements(gs1)
  {
    b := GHashRelations.IsSubset(gs1, gs2);
  }

  /** BLI_gset_issuperset: the elements of `gs1` all belong to `gs2`; the
      GHash subset test with the arguments swapped. */
  method IsSuperset<K(==)>(gs1: GSet<K>, gs2: GSet<K>) returns (b: bool)
    requires IsSet(gs1) && IsSet(gs2) && gs1.hashfp == gs2.hashfp
    ensures b <==> Elements(gs1) <= Elements(gs2)
  {
    b := GHashRelations.IsSubset(gs2, gs1);
  }

  // ------------------------------------------------- the set operations

  /** Key `k` is an element of every map of `ms`. */
  ghost predicate InAll<K, V>(ms: seq<map<K, V>>, k: K)
  {
    forall p | 0 <= p < |ms| :: k in ms[p]
  }

  /** The union holds exactly the keys held by some operand. */
  lemma UnionElements<K, V>(ms: seq<map<K, V>>, k: K)
    requires |ms| > 0
    ensures k in UnionAll(ms[0], ms[1..], false) <==> InSome(ms, k)
  {
    UnionKeys(ms[0], ms[1..], false, k);
    if InSome(ms[1..], k) {
      var p :| 0 <= p < |ms[1..]| && k in ms[1..][p];
      assert k in ms[p + 1];
    }
    if InSome(ms, k) && k !in ms[0] {
      var p :| 0 <= p < |ms| && k in ms[p];
      assert k in ms[1..][p - 1];
    }
  }

  /** The intersection holds exactly the keys held by every operand. */
  lemma IntersectionElements<K, V>(ms: seq<map<K, V>>, k: K)
    requires |ms| > 0
    ensures k in FilterAll(ms[0], ms[1..], true) <==> InAll(ms, k)
  {
    FilterAllKeys(ms[0], ms[1..], true, k);
    if k in ms[0] && forall p | 0 <= p < |ms[1..]| :: k in ms[1..][p] {
      forall p | 0 <= p < |ms| ensures k in ms[p] {
        if p > 0 {
          assert ms[1..][p - 1] == ms[p];
        }
      }
    }
  }

  /** The difference holds exactly the keys of the first operand that no
      later operand holds. */
  lemma DifferenceElements<K, V>(ms: seq<map<K, V>>, k: K)
    requires |ms| > 0
    ensures k in FilterAll(ms[0], ms[1..], false) <==> k in ms[0] && !InSome(ms[1..], k)
  {
    FilterAllKeys(ms[0], ms[1..], false, k);
  }

  /** The symmetric difference holds exactly the keys held by one and only
      one operand. */
  lemma SymmetricDifferenceElements<K, V>(ms: seq<map<K, V>>, k: K)
    requires |ms| > 0
    ensures k in SymDiff(ms[0], ms[1..]) <==> Occurrences(ms, k) == 1
  {
    SymDiffKeys(ms[0], ms[1..], k);
    assert [ms[0]] + ms[1..] == ms;
  }

  /** BLI_gset_union: the elements of all operands. Without `gs1` a new
      set is made from a copy of `gss[0]`; with it, `gs1` is updated. */
  method Union<K(==)>(gs1: GHash?<K, ()>, gss: seq<GSet<K>>) returns (r: GSet<K>)
    requires |gss| > 0 && Operands(gs1, gss, gss[0].hashfp) && SameShape(gs1, gss, true)
    modifies if gs1 == null then {} else gs1.Repr
    ensures IsSet(r) && r.hashfp == gss[0].hashfp
    ensures gs1 != null ==> r == gs1 && fresh(r.Repr - old(gs1.Repr)) && r.flags == old(gs1.flags)
    ensures gs1 == null ==> fresh(r.Repr) && r.flags == {}
    ensures forall k :: k in Elements(r) <==> InSome(old(Inputs(gs1, gss)), k)
  {
    ghost var ms := Inputs(gs1, gss);
    r := GHashOps.Union(gs1, gss, false);
    assert r.keyOnly by {
      if gs1 == null {
        assert gss[0].keyOnly;
      }
    }
    assert |ms| > 0;
    forall k ensures k in Elements(r) <==> InSome(ms, k) {
      UnionElements(ms, k);
    }
  }

  /** BLI_gset_intersection: the elements common to all operands. */
  method Intersection<K(==)>(gs1: GHash?<K, ()>, gss: seq<GSet<K>>) returns (r: GSet<K>)
    requires |gss| > 0 && Operands(gs1, gss, gss[0].hashfp) && SameShape(gs1, gss, true)
    modifies if gs1 == null then {} else gs1.Repr
    ensures IsSet(r) && r.hashfp == gss[0].hashfp
    ensures gs1 != null ==> r == gs1 && fresh(r.Repr - old(gs1.Repr)) && r.flags == old(gs1.flags)
    ensures gs1 == null ==> fresh(r.Repr) && r.flags == {}
    ensures forall k :: k in Elements(r) <==> InAll(old(Inputs(gs1, gss)), k)
  {
    ghost var ms := Inputs(gs1, gss);
    r := GHashOps.Intersection(gs1, gss);
    assert r.keyOnly by {
      if gs1 == null {
        assert gss[0].keyOnly;
      }
    }
    assert |ms| > 0;
    forall k ensures k in Elements(r) <==> InAll(ms, k) {
      IntersectionElements(ms, k);
    }
  }

  /** BLI_gset_difference: the elements of the first operand in none of
      the others. */
  method Difference<K(==)>(gs1: GHash?<K, ()>, gss: seq<GSet<K>>) returns (r: GSet<K>)
    requires |gss| > 0 && Operands(gs1, gss, gss[0].hashfp) && SameShape(gs1, gss, true)
    modifies if gs1 == null then {} else gs1.Repr
    ensures IsSet(r) && r.hashfp == gss[0].hashfp
    ensures gs1 != null ==> r == gs1 && fresh(r.Repr - old(gs1.Repr)) && r.flags == old(gs1.flags)
    ensures gs1 == null ==> fresh(r.Repr) && r.flags == {}
    ensures var ms := old(Inputs(gs1, gss));
      forall k :: k in Elements(r) <==> k in ms[0] && !InSome(ms[1..], k)
  {
    ghost var ms := Inputs(gs1, gss);
    r := GHashOps.Difference(gs1, gss);
    assert r.keyOnly by {
      if gs1 == null {
        assert gss[0].keyOnly;
      }
    }
    assert |ms| > 0;
    forall k ensures k in Elements(r) <==> k in ms[0] && !InSome(ms[1..], k) {
      DifferenceElements(ms, k);
    }
  }

  /** BLI_gset_symmetric_difference: the elements held by exactly one
      operand. */
  method SymmetricDifference<K(==)>(gs1: GHash?<K, ()>, gss: seq<GSet<K>>) returns (r: GSet<K>)
    requires |gss| > 0 && Operands(gs1, gss, gss[0].hashfp) && SameShape(gs1, gss, true)
    modifies if gs1 == null then {} else gs1.Repr
    ensures IsSet(r) && r.hashfp == gss[0].hashfp
    ensures gs1 != null ==> r == gs1 && fresh(r.Repr - old(gs1.Repr)) && r.flags == old(gs1.flags)
    ensures gs1 == null ==> fresh(r.Repr) && r.flags == {}
    ensures forall k :: k in Elements(r) <==> Occurrences(old(Inputs(gs1, gss)), k) == 1
  {
    ghost var ms := Inputs(gs1, gss);
    r := GHashOps.SymmetricDifference(gs1, gss);
    assert r.keyOnly by {
      if gs1 == null {
        assert gss[0].keyOnly;
      }
    }
    assert |ms| > 0;
    forall k ensures k in Elements(r) <==> Occurrences(ms, k) == 1 {
      SymmetricDifferenceElements(ms, k);
    }
  }
}
