/** Bucket-count size classes and the grow/shrink policy of the hash table.

    The table only ever uses bucket counts from the prime table `HashSizes`.
    `GrowClass`, `ShrinkClass` and `TargetClass` are the reference definitions
    of where the resize state machine in `GHash.ExpandBuckets` ends up. */
module Sizing {

  /** Number of size classes (GHASH_MAX_SIZE with modulo buckets). */
  const MaxSize: nat := 27

  /** A list of bucket counts. The table is kept as a linked list with a
      recursive accessor rather than a sequence display, so that looking up a
      symbolic class unfolds one cell at a time. */
  datatype Sizes = Nil | Cons(head: nat, tail: Sizes)

  /** The ascending prime bucket counts (`hashsizes`). */
  const HashSizes: Sizes :=
    Cons(5, Cons(11, Cons(17, Cons(37, Cons(67, Cons(131, Cons(257, Cons(521, Cons(1031, Cons(2053, Cons(4099, Cons(8209,
    Cons(16411, Cons(32771, Cons(65537, Cons(131101, Cons(262147, Cons(524309, Cons(1048583, Cons(2097169,
    Cons(4194319, Cons(8388617, Cons(16777259, Cons(33554467, Cons(67108879, Cons(134217757,
    Cons(268435459, Nil)))))))))))))))))))))))))))

  function Length(l: Sizes): nat
  {
    if l.Nil? then 0 else 1 + Length(l.tail)
  }

  /** Element `i` of `l`. */
  function At(l: Sizes, i: nat): nat
    requires i < Length(l)
  {
    if i == 0 then l.head else At(l.tail, i - 1)
  }

  /** Entry count above which the table grows: 3/4 of the bucket count. */
  function LimitGrow(nbuckets: nat): nat { (nbuckets * 3) / 4 }

  /** Entry count below which the table may shrink: 3/16 of the bucket count. */
  function LimitShrink(nbuckets: nat): nat { (nbuckets * 3) / 16 }

  /** What the resize policy needs of a table of bucket counts: every count is
      positive, its thresholds fit an unsigned 32-bit `nbuckets * 3`, its
      shrink threshold is below its grow threshold, the counts increase, and the
      shrink threshold of a count is at most the grow threshold of the one before. */
  ghost predicate Ascending(l: Sizes)
  {
    l.Cons? ==>
      && 0 < l.head && l.head * 3 < 0x1_0000_0000
      && LimitShrink(l.head) < LimitGrow(l.head)
      && (l.tail.Cons? ==> l.head < l.tail.head && LimitShrink(l.tail.head) <= LimitGrow(l.head))
      && Ascending(l.tail)
  }

  lemma AscendingCons(h: nat, t: Sizes)
    requires Ascending(t) && 0 < h && h * 3 < 0x1_0000_0000 && LimitShrink(h) < LimitGrow(h)
    requires t.Cons? ==> h < t.head && LimitShrink(t.head) <= LimitGrow(h)
    ensures Ascending(Cons(h, t)) && Length(Cons(h, t)) == 1 + Length(t)
  {
  }

  /** The constant table has `MaxSize` classes and meets `Ascending`, checked one
      cell at a time from the last. */
  lemma TableAscending()
    ensures Length(HashSizes) == MaxSize && Ascending(HashSizes)
  {
    var l26 := Cons(268435459, Nil);
    AscendingCons(268435459, Nil);
    var l25 := Cons(134217757, l26);
    AscendingCons(134217757, l26);
    var l24 := Cons(67108879, l25);
    AscendingCons(67108879, l25);
    var l23 := Cons(33554467, l24);
    AscendingCons(33554467, l24);
    var l22 := Cons(16777259, l23);
    AscendingCons(16777259, l23);
    var l21 := Cons(8388617, l22);
    AscendingCons(8388617, l22);
    var l20 := Cons(4194319, l21);
    AscendingCons(4194319, l21);
    var l19 := Cons(2097169, l20);
    AscendingCons(2097169, l20);
    var l18 := Cons(1048583, l19);
    AscendingCons(1048583, l19);
    var l17 := Cons(524309, l18);
    AscendingCons(524309, l18);
    var l16 := Cons(262147, l17);
    AscendingCons(262147, l17);
    var l15 := Cons(131101, l16);
    AscendingCons(131101, l16);
    var l14 := Cons(65537, l15);
    AscendingCons(65537, l15);
    var l13 := Cons(32771, l14);
    AscendingCons(32771, l14);
    var l12 := Cons(16411, l13);
    AscendingCons(16411, l13);
    var l11 := Cons(8209, l12);
    AscendingCons(8209, l12);
    var l10 := Cons(4099, l11);
    AscendingCons(4099, l11);
    var l9 := Cons(2053, l10);
    AscendingCons(2053, l10);
    var l8 := Cons(1031, l9);
    AscendingCons(1031, l9);
    var l7 := Cons(521, l8);
    AscendingCons(521, l8);
    var l6 := Cons(257, l7);
    AscendingCons(257, l7);
    var l5 := Cons(131, l6);
    AscendingCons(131, l6);
    var l4 := Cons(67, l5);
    AscendingCons(67, l5);
    var l3 := Cons(37, l4);
    AscendingCons(37, l4);
    var l2 := Cons(17, l3);
    AscendingCons(17, l3);
    var l1 := Cons(11, l2);
    AscendingCons(11, l2);
    var l0 := Cons(5, l1);
    AscendingCons(5, l1);
    assert HashSizes == l0;
  }

  /** The facts of `Ascending` at position `i` of `l`. */
  lemma {:induction false} AscendingAt(l: Sizes, i: nat)
    requires Ascending(l) && i < Length(l)
    ensures 0 < At(l, i) && At(l, i) * 3 < 0x1_0000_0000
    ensures LimitShrink(At(l, i)) < LimitGrow(At(l, i))
    ensures i + 1 < Length(l) ==> At(l, i) < At(l, i + 1) && LimitShrink(At(l, i + 1)) <= LimitGrow(At(l, i))
  {
    if i > 0 {
      AscendingAt(l.tail, i - 1);
    }
  }

  /** The bucket count of size class `c` (`hashsizes[c]`). */
  function HashSize(c: nat): nat
    requires c < MaxSize
  {
    TableAscending();
    At(HashSizes, c)
  }

  /** The table facts for one class; the thresholds never overflow an unsigned
      32-bit computation `nbuckets * 3`. */
  lemma ClassFacts(c: nat)
    requires c < MaxSize
    ensures 0 < HashSize(c) && HashSize(c) * 3 < 0x1_0000_0000
    ensures LimitShrink(HashSize(c)) < LimitGrow(HashSize(c))
  {
    TableAscending();
    AscendingAt(HashSizes, c);
  }

  /** The table facts for two neighbouring classes. */
  lemma AdjacentFacts(c: nat)
    requires c + 1 < MaxSize
    ensures HashSize(c) < HashSize(c + 1) && LimitShrink(HashSize(c + 1)) <= LimitGrow(HashSize(c))
  {
    TableAscending();
    AscendingAt(HashSizes, c);
  }

  /** Distinct size classes have distinct bucket counts. */
  lemma {:induction false} SizesInjective(i: nat, j: nat)
    requires i < MaxSize && j < MaxSize && i != j
    ensures HashSize(i) != HashSize(j)
  {
    if i < j {
      SizesIncreasing(i, j);
    } else {
      SizesIncreasing(j, i);
    }
  }

  lemma {:induction false} SizesIncreasing(i: nat, j: nat)
    requires i < j < MaxSize
    ensures HashSize(i) < HashSize(j)
    decreases j - i
  {
    AdjacentFacts(i);
    if i + 1 < j {
      SizesIncreasing(i + 1, j);
    }
  }

  /** The grow loop: advance one class at a time while `n` exceeds the grow
      threshold and a larger class exists. */
  function GrowClass(c: nat, n: nat): (r: nat)
    requires c < MaxSize
    ensures c <= r < MaxSize
    decreases MaxSize - c
  {
    if n > LimitGrow(HashSize(c)) && c < MaxSize - 1 then GrowClass(c + 1, n) else c
  }

  /** The shrink loop: retreat one class at a time while `n` is below the shrink
      threshold and the floor has not been reached. */
  function ShrinkClass(c: nat, n: nat, floor: nat): (r: nat)
    requires floor <= c < MaxSize
    ensures floor <= r <= c
    decreases c
  {
    if n < LimitShrink(HashSize(c)) && c > floor then ShrinkClass(c - 1, n, floor) else c
  }

  /** One round of the grow loop, and its exit. */
  lemma GrowStep(c: nat, n: nat)
    requires c < MaxSize
    ensures n > LimitGrow(HashSize(c)) && c < MaxSize - 1 ==> GrowClass(c, n) == GrowClass(c + 1, n)
    ensures !(n > LimitGrow(HashSize(c)) && c < MaxSize - 1) ==> GrowClass(c, n) == c
  {
  }

  /** One round of the shrink loop, and its exit. */
  lemma ShrinkStep(c: nat, n: nat, floor: nat)
    requires floor <= c < MaxSize
    ensures n < LimitShrink(HashSize(c)) && c > floor ==> ShrinkClass(c, n, floor) == ShrinkClass(c - 1, n, floor)
    ensures !(n < LimitShrink(HashSize(c)) && c > floor) ==> ShrinkClass(c, n, floor) == c
  {
  }

  /** Where one evaluation of the resize policy ends, as the source computes it:
      the shrink loop only runs with the threshold of the starting class, so it
      has an effect only when the grow loop had none. */
  function TargetClass(c: nat, n: nat, floor: nat, shrinking: bool): nat
    requires floor <= c < MaxSize
  {
    var g := GrowClass(c, n);
    if g == c && shrinking then ShrinkClass(c, n, floor) else g
  }

  lemma {:induction false} GrowClassResult(c: nat, n: nat)
    requires c < MaxSize
    ensures var r := GrowClass(c, n);
      && (n > LimitGrow(HashSize(r)) ==> r == MaxSize - 1)
      && (r > c ==> n > LimitGrow(HashSize(r - 1)))
      && (r == c <==> !(n > LimitGrow(HashSize(c)) && c < MaxSize - 1))
    decreases MaxSize - c
  {
    if n > LimitGrow(HashSize(c)) && c < MaxSize - 1 {
      GrowClassResult(c + 1, n);
    }
  }

  lemma {:induction false} ShrinkClassResult(c: nat, n: nat, floor: nat)
    requires floor <= c < MaxSize
    ensures var r := ShrinkClass(c, n, floor);
      && (n < LimitShrink(HashSize(r)) ==> r == floor)
      && (r < c ==> n < LimitShrink(HashSize(r + 1)))
      && (r == c <==> !(n < LimitShrink(HashSize(c)) && c > floor))
    decreases c
  {
    if n < LimitShrink(HashSize(c)) && c > floor {
      ShrinkClassResult(c - 1, n, floor);
    }
  }

  /** The sizing state after one evaluation of the policy is consistent: the class
      stays within [floor, MaxSize), the entry count is at most the grow
      threshold unless the largest class is reached, and (when shrinking is
      enabled) at least the shrink threshold unless the floor is reached. */
  lemma ExpandConsistent(c: nat, n: nat, floor: nat, shrinking: bool)
    requires floor <= c < MaxSize
    ensures var r := TargetClass(c, n, floor, shrinking);
      && floor <= r < MaxSize
      && (n > LimitGrow(HashSize(r)) ==> r == MaxSize - 1)
      && (shrinking && n < LimitShrink(HashSize(r)) ==> r == floor)
      && (!shrinking ==> r >= c)
  {
    GrowClassResult(c, n);
    var g := GrowClass(c, n);
    if g == c && shrinking {
      ShrinkClassResult(c, n, floor);
      var s := ShrinkClass(c, n, floor);
      if s < c {
        AdjacentFacts(s);
        // n is below the shrink threshold of class s + 1, which is at most the
        // grow threshold of class s: the shrunk table is not over-full.
        assert n < LimitShrink(HashSize(s + 1)) <= LimitGrow(HashSize(s));
      }
    } else if g > c {
      AdjacentFacts(g - 1);
      // n is above the grow threshold of class g - 1, which is at least the
      // shrink threshold of class g: the grown table is not under-full.
      assert n > LimitGrow(HashSize(g - 1)) >= LimitShrink(HashSize(g));
    }
  }

  /** Hysteresis: an entry count inside the closed window of the current class
      never changes the class. */
  lemma {:induction false} WindowIsStable(c: nat, n: nat, floor: nat, shrinking: bool)
    requires floor <= c < MaxSize
    requires LimitShrink(HashSize(c)) <= n <= LimitGrow(HashSize(c))
    ensures TargetClass(c, n, floor, shrinking) == c
  {
  }

  /** The stale shrink threshold in the source is harmless: the policy is the same
      as growing first and then shrinking with the thresholds of the grown class. */
  lemma StaleShrinkHarmless(c: nat, n: nat, floor: nat, shrinking: bool)
    requires floor <= c < MaxSize
    ensures TargetClass(c, n, floor, shrinking)
         == (if shrinking then ShrinkClass(GrowClass(c, n), n, floor) else GrowClass(c, n))
  {
    GrowClassResult(c, n);
    var g := GrowClass(c, n);
    if g > c && shrinking {
      AdjacentFacts(g - 1);
      assert n > LimitGrow(HashSize(g - 1)) >= LimitShrink(HashSize(g));
    }
  }
}
