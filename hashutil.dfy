/** The integer and string hash functions of BLI_ghash.c, on 32-bit
    unsigned words (`bv32`, so every `+`, `*` and `<<` wraps around as
    `unsigned int` arithmetic does) and bytes (`bv8`, a `char`). */
module GHashUtil {

  // ------------------------------------------------------------ djb hash

  /** `(unsigned int)` of a byte read as a `signed char`: bytes from 0x80 up
      are negative and sign-extend. */
  function Widen(c: bv8): (w: bv32)
    ensures w as int == if c < 0x80 then c as int else c as int - 0x100 + 0x1_0000_0000
  {
    if c < 0x80 then c as bv32 else c as bv32 | 0xFFFF_FF00
  }

  /** One round of the djb hash, `h * 33 + c` written as the source does. */
  function DjbStep(h: bv32, c: bv8): bv32
  {
    (h << 5) + h + Widen(c)
  }

  lemma Times33(h: bv32, w: bv32) ensures (h << 5) + h + w == h * 33 + w {}

  /** The shift-and-add round is the documented `hash * 33 + c`, modulo
      2^32. */
  lemma DjbStepTimes33(h: bv32, c: bv8)
    ensures DjbStep(h, c) == h * 33 + Widen(c)
  {
    Times33(h, Widen(c));
  }

  /** The djb hash of the bytes `s`: 5381, then one round per byte. */
  function Djb(s: seq<bv8>): bv32
    decreases |s|
  {
    if s == [] then 5381 else DjbStep(Djb(s[..|s| - 1]), s[|s| - 1])
  }

  lemma DjbSnoc(s: seq<bv8>, p: nat)
    requires p < |s|
    ensures Djb(s[..p + 1]) == DjbStep(Djb(s[..p]), s[p])
  {
    assert s[..p + 1][..p] == s[..p];
  }

  /** The string `key` is readable for the loop of strhash_n with bound `n`:
      it holds `n` bytes, or it ends in a NUL. */
  ghost predicate Readable(key: seq<bv8>, n: nat)
  {
    n <= |key| || exists i :: 0 <= i < |key| && key[i] == 0
  }

  /** The number of bytes strhash_n hashes: those before the first NUL,
      but no more than `n`. */
  function HashedLength(key: seq<bv8>, n: nat): (len: nat)
    requires Readable(key, n)
    ensures len <= n && len <= |key|
    ensures forall i | 0 <= i < len :: key[i] != 0
    ensures len < n ==> len < |key| && key[len] == 0
    decreases n
  {
    if n == 0 || key[0] == 0 then 0
    else
      assert Readable(key[1..], n - 1) by {
        if n > |key| {
          var i :| 0 <= i < |key| && key[i] == 0;
          assert key[1..][i - 1] == 0;
        }
      }
      var r := HashedLength(key[1..], n - 1);
      assert forall i | 1 <= i < 1 + r :: key[i] == key[1..][i - 1];
      1 + r
  }

  /** The lengths the contract of `HashedLength` allows are just one. */
  lemma HashedLengthUnique(key: seq<bv8>, n: nat, len: nat)
    requires Readable(key, n) && len <= n && len <= |key|
    requires forall i | 0 <= i < len :: key[i] != 0
    requires len < n ==> len < |key| && key[len] == 0
    ensures len == HashedLength(key, n)
  {
  }

  /** BLI_ghashutil_strhash_n: the djb hash of at most `n` bytes of `key`,
      stopping at a NUL. */
  method StrHashN(key: seq<bv8>, n: nat) returns (h: bv32)
    requires Readable(key, n)
    ensures h == Djb(key[..HashedLength(key, n)])
  {
    h := 5381;
    var p, rest := 0, n;
    assert key[..0] == [];
    while rest != 0 && key[p] != 0
      invariant 0 <= p <= |key| && p + rest == n
      invariant forall i | 0 <= i < p :: key[i] != 0
      invariant h == Djb(key[..p])
    {
      DjbSnoc(key, p);
      h := DjbStep(h, key[p]);
      p, rest := p + 1, rest - 1;
    }
    HashedLengthUnique(key, n, p);
  }

  /** The length of the NUL-terminated string `key`. */
  function StrLen(key: seq<bv8>): (len: nat)
    requires exists i :: 0 <= i < |key| && key[i] == 0
    ensures len < |key| && key[len] == 0 && forall i | 0 <= i < len :: key[i] != 0
    decreases |key|
  {
    if key[0] == 0 then 0
    else
      assert exists i :: 0 <= i < |key[1..]| && key[1..][i] == 0 by {
        var i :| 0 <= i < |key| && key[i] == 0;
        assert key[1..][i - 1] == 0;
      }
      var r := StrLen(key[1..]);
      assert forall i | 1 <= i < 1 + r :: key[i] == key[1..][i - 1];
      1 + r
  }

  /** BLI_ghashutil_strhash_p: the djb hash of the NUL-terminated `key`. */
  method StrHashP(key: seq<bv8>) returns (h: bv32)
    requires exists i :: 0 <= i < |key| && key[i] == 0
    ensures h == Djb(key[..StrLen(key)])
  {
    h := 5381;
    var p := 0;
    assert key[..0] == [];
    while key[p] != 0
      invariant 0 <= p <= StrLen(key)
      invariant h == Djb(key[..p])
      decreases StrLen(key) - p
    {
      DjbSnoc(key, p);
      h := DjbStep(h, key[p]);
      p := p + 1;
    }
  }

  /** strhash_p hashes what strhash_n hashes under any bound that reaches
      the NUL, and strhash_n under a shorter bound hashes the first `n`
      bytes. */
  lemma HashedLengthOfString(key: seq<bv8>, n: nat)
    requires exists i :: 0 <= i < |key| && key[i] == 0
    ensures Readable(key, n)
    ensures HashedLength(key, n) == if n < StrLen(key) then n else StrLen(key)
  {
    var len := if n < StrLen(key) then n else StrLen(key);
    HashedLengthUnique(key, n, len);
  }

  // ------------------------------------------------------------ uinthash

  /** The six mixing steps of BLI_ghashutil_uinthash, in order. */
  function Mix1(x: bv32): bv32 { x + !(x << 16) }
  function Mix2(x: bv32): bv32 { x ^ (x >> 5) }
  function Mix3(x: bv32): bv32 { x + (x << 3) }
  function Mix4(x: bv32): bv32 { x ^ (x >> 13) }
  function Mix5(x: bv32): bv32 { x + !(x << 9) }
  function Mix6(x: bv32): bv32 { x ^ (x >> 17) }

  /** BLI_ghashutil_uinthash: Thomas Wang's integer mix. */
  function UintHash(key: bv32): bv32
  {
    Mix6(Mix5(Mix4(Mix3(Mix2(Mix1(key))))))
  }

  /** `x + ~(x << 16)` is `x * (1 - 2^16) - 1`; `1 + 2^16` inverts `1 - 2^16`
      modulo 2^32. */
  function Unmix1(y: bv32): bv32 { var z := y + 1; z + (z << 16) }
  /** An xor with a right shift is undone by xoring in every multiple of
      the shift. */
  function Unmix2(y: bv32): bv32 { y ^ (y >> 5) ^ (y >> 10) ^ (y >> 15) ^ (y >> 20) ^ (y >> 25) ^ (y >> 30) }
  /** `x + (x << 3)` is `x * 9`; 0x38E3_8E39 inverts 9 modulo 2^32. */
  function Unmix3(y: bv32): bv32 { y * 0x38E3_8E39 }
  function Unmix4(y: bv32): bv32 { y ^ (y >> 13) ^ (y >> 26) }
  function Unmix6(y: bv32): bv32 { y ^ (y >> 17) }

  lemma Undo1(x: bv32) ensures Unmix1(x + !(x << 16)) == x {}
  lemma Undo2(x: bv32) ensures Unmix2(x ^ (x >> 5)) == x {}
  lemma Undo3(x: bv32) ensures Unmix3(x * 9) == x {}
  lemma Times8(x: bv32) ensures x << 3 == x * 8 {}
  lemma Undo4(x: bv32) ensures Unmix4(x ^ (x >> 13)) == x {}
  lemma Undo6(x: bv32) ensures Unmix6(x ^ (x >> 17)) == x {}

  /** Steps 1, 2, 3, 4 and 6 of uinthash each have a left inverse, so each
      maps distinct words to distinct words. */
  lemma Mix1Invertible(x: bv32) ensures Unmix1(Mix1(x)) == x { Undo1(x); }
  lemma Mix2Invertible(x: bv32) ensures Unmix2(Mix2(x)) == x { Undo2(x); }
  lemma Mix3Invertible(x: bv32) ensures Unmix3(Mix3(x)) == x { Times8(x); Undo3(x); }
  lemma Mix4Invertible(x: bv32) ensures Unmix4(Mix4(x)) == x { Undo4(x); }
  lemma Mix6Invertible(x: bv32) ensures Unmix6(Mix6(x)) == x { Undo6(x); }

  /** Keys that agree after the first four steps are equal. */
  lemma MixPrefixInjective(a: bv32, b: bv32)
    requires Mix4(Mix3(Mix2(Mix1(a)))) == Mix4(Mix3(Mix2(Mix1(b))))
    ensures a == b
  {
    Mix4Invertible(Mix3(Mix2(Mix1(a))));
    Mix4Invertible(Mix3(Mix2(Mix1(b))));
    Mix3Invertible(Mix2(Mix1(a)));
    Mix3Invertible(Mix2(Mix1(b)));
    Mix2Invertible(Mix1(a));
    Mix2Invertible(Mix1(b));
    Mix1Invertible(a);
    Mix1Invertible(b);
  }

  /** Two keys whose uinthash values agree already agree before the last
      step: the final xor-shift merges no words. */
  lemma UintHashCollision(a: bv32, b: bv32)
    requires UintHash(a) == UintHash(b)
    ensures Mix5(Mix4(Mix3(Mix2(Mix1(a))))) == Mix5(Mix4(Mix3(Mix2(Mix1(b)))))
  {
    Mix6Invertible(Mix5(Mix4(Mix3(Mix2(Mix1(a))))));
    Mix6Invertible(Mix5(Mix4(Mix3(Mix2(Mix1(b))))));
  }

  /** BLI_ghashutil_uinthash_v4: multiply by 37 and add the next word,
      three times. */
  function UintHashV4(key: seq<bv32>): bv32
    requires |key| == 4
  {
    var h0 := key[0];
    var h1 := h0 * 37 + key[1];
    var h2 := h1 * 37 + key[2];
    h2 * 37 + key[3]
  }

  /** The four words read as the digits of a number in base 37, wrapping
      modulo 2^32. */
  lemma UintHashV4Base37(key: seq<bv32>)
    requires |key| == 4
    ensures UintHashV4(key) == key[0] * 50653 + key[1] * 1369 + key[2] * 37 + key[3]
  {
  }
}
