/** The rule table of an automaton: its canonical textual key (`to_str`) and
    the interestingness gate (`get_interesting`), src/automata/types.rs. */
module Rules {

  /** An unsigned byte: the element type of the rule table and of the space. */
  type U8 = x: int | 0 <= x < 256

  /** Every entry is 0 or 1. */
  predicate AllBits(s: seq<U8>) {
    forall i :: 0 <= i < |s| ==> s[i] <= 1
  }

  function Pow2(n: nat): (p: nat)
    ensures p >= 1
  {
    if n == 0 then 1 else 2 * Pow2(n - 1)
  }

  lemma {:induction false} Pow2Add(a: nat, b: nat)
    ensures Pow2(a + b) == Pow2(a) * Pow2(b)
  {
    if a > 0 {
      Pow2Add(a - 1, b);
    }
  }

  // ---------------------------------------------------------------------------
  // Byte packing
  // ---------------------------------------------------------------------------

  /** `e << b` on a u8: shifting by one doubles, and the bit shifted past
      bit 7 is lost. */
  function Shl(e: U8, b: nat): U8 {
    if b == 0 then e else (2 * Shl(e, b - 1)) % 256
  }

  /** A bit shifted to a position below 8 is that power of two. */
  lemma {:induction false} ShlBit(e: U8, b: nat)
    requires e <= 1 && b < 8
    ensures Shl(e, b) == if e == 0 then 0 else Pow2(b)
  {
    if b > 0 {
      ShlBit(e, b - 1);
      Pow2Monotone(b - 1, 6);
      assert Pow2(6) == 64;
    }
  }

  /** The accumulator `acc` of `to_str` after it has absorbed the n entries
      rules[lo], ..., rules[lo + n - 1] of one group, in order: entry lo + j
      is shifted by j and added with u8 wrap-around. */
  function Acc(rules: seq<U8>, lo: nat, n: nat): U8
    requires lo + n <= |rules|
  {
    if n == 0 then 0 else (Acc(rules, lo, n - 1) + Shl(rules[lo + n - 1], n - 1)) % 256
  }

  /** The little-endian weighted sum  s[0]*2^0 + s[1]*2^1 + ... : the earliest
      entry is the least significant bit. */
  function Weighted(s: seq<U8>): nat {
    if s == [] then 0 else s[0] + 2 * Weighted(s[1..])
  }

  /** Appending a bit adds it at the next power of two. */
  lemma {:induction false} WeightedSnoc(s: seq<U8>, e: U8)
    requires e <= 1
    ensures Weighted(s + [e]) == Weighted(s) + (if e == 0 then 0 else Pow2(|s|))
  {
    if s != [] {
      assert (s + [e])[1..] == s[1..] + [e];
      WeightedSnoc(s[1..], e);
    }
  }

  lemma {:induction false} WeightedBound(s: seq<U8>)
    requires AllBits(s)
    ensures Weighted(s) < Pow2(|s|)
  {
    if s != [] {
      WeightedBound(s[1..]);
    }
  }

  lemma {:induction false} Pow2Monotone(a: nat, b: nat)
    requires a <= b
    ensures Pow2(a) <= Pow2(b)
  {
    if a < b {
      Pow2Monotone(a, b - 1);
    }
  }

  /** For a group of at most eight 0/1 entries the u8 accumulator never wraps,
      so it holds exactly the little-endian weighted sum of the group. */
  lemma {:induction false} AccIsWeighted(rules: seq<U8>, lo: nat, n: nat)
    requires lo + n <= |rules| && n <= 8 && AllBits(rules)
    ensures Acc(rules, lo, n) == Weighted(rules[lo .. lo + n])
  {
    if n > 0 {
      var init := rules[lo .. lo + n - 1];
      var e := rules[lo + n - 1];
      assert rules[lo .. lo + n] == init + [e];
      AccIsWeighted(rules, lo, n - 1);
      AbsorbBit(init, e);
    }
  }

  /** One step of the accumulator on a group that cannot overflow yet. */
  lemma AbsorbBit(init: seq<U8>, e: U8)
    requires AllBits(init) && e <= 1 && |init| < 8
    ensures (Weighted(init) + Shl(e, |init|)) % 256 == Weighted(init + [e])
  {
    var k := |init|;
    WeightedSnoc(init, e);
    ShlBit(e, k);
    assert Weighted(init) + Shl(e, k) == Weighted(init + [e]);
    assert Weighted(init) + Shl(e, k) < 256 by {
      WeightedBound(init);
      Pow2Monotone(k, 7);
      assert Pow2(7) == 128;
    }
    ModSmall(Weighted(init) + Shl(e, k));
  }

  lemma ModSmall(x: nat)
    requires x < 256
    ensures x % 256 == x
  {
  }

  /** The bytes of the first g complete groups of eight entries. */
  function PackedPrefix(rules: seq<U8>, g: nat): (bytes: seq<U8>)
    requires 8 * g <= |rules|
    ensures |bytes| == g
  {
    if g == 0 then [] else PackedPrefix(rules, g - 1) + [Acc(rules, 8 * (g - 1), 8)]
  }

  /** The bytes `to_str` emits: one per complete group of eight entries. */
  function Packed(rules: seq<U8>): (bytes: seq<U8>)
    ensures |bytes| == |rules| / 8
  {
    PackedPrefix(rules, |rules| / 8)
  }

  /** Byte k is the accumulator of group k. */
  lemma {:induction false} PackedPrefixAt(rules: seq<U8>, g: nat, k: nat)
    requires 8 * g <= |rules| && k < g
    ensures PackedPrefix(rules, g)[k] == Acc(rules, 8 * k, 8)
  {
    if k < g - 1 {
      PackedPrefixAt(rules, g - 1, k);
    }
  }

  lemma {:induction false} AccLocal(a: seq<U8>, b: seq<U8>, lo: nat, n: nat)
    requires lo + n <= |a| && lo + n <= |b|
    requires forall i :: lo <= i < lo + n ==> a[i] == b[i]
    ensures Acc(a, lo, n) == Acc(b, lo, n)
  {
    if n > 0 {
      AccLocal(a, b, lo, n - 1);
    }
  }

  /** The first g bytes depend only on the first 8g entries. */
  lemma {:induction false} PackedPrefixLocal(a: seq<U8>, b: seq<U8>, g: nat)
    requires 8 * g <= |a| && 8 * g <= |b|
    requires forall i :: 0 <= i < 8 * g ==> a[i] == b[i]
    ensures PackedPrefix(a, g) == PackedPrefix(b, g)
  {
    if g > 0 {
      PackedPrefixLocal(a, b, g - 1);
      AccLocal(a, b, 8 * (g - 1), 8);
    }
  }

  // ---------------------------------------------------------------------------
  // Rendering one byte
  // ---------------------------------------------------------------------------

  function BinDigit(bit: nat): char
    requires bit < 2
  {
    if bit == 0 then '0' else '1'
  }

  /** The last n binary digits of v, most significant first. */
  function BinDigits(v: nat, n: nat): (s: string)
    ensures |s| == n
  {
    if n == 0 then "" else BinDigits(v / 2, n - 1) + [BinDigit(v % 2)]
  }

  /** `format!("{:08b}", b)`: eight binary digits, zero-padded. */
  function Bin8(b: U8): string {
    BinDigits(b, 8)
  }

  /** The value of a string of binary digits, most significant first. */
  function ParseBin(s: string): nat {
    if s == [] then 0 else 2 * ParseBin(s[..|s| - 1]) + (if s[|s| - 1] == '1' then 1 else 0)
  }

  lemma {:induction false} ParseBinDigits(v: nat, n: nat)
    requires v < Pow2(n)
    ensures ParseBin(BinDigits(v, n)) == v
  {
    if n > 0 {
      var s := BinDigits(v, n);
      assert s[..n - 1] == BinDigits(v / 2, n - 1);
      ParseBinDigits(v / 2, n - 1);
    }
  }

  const HexDigits: string := "0123456789abcdef"

  /** `format!("{:x}", b)`: lower-case hexadecimal without padding. */
  function Hex(b: U8): string {
    if b < 16 then [HexDigits[b]] else [HexDigits[b / 16], HexDigits[b % 16]]
  }

  /** One emitted byte, as binary or as hexadecimal. */
  function Render(b: U8, bin: bool): string {
    if bin then Bin8(b) else Hex(b)
  }

  /** The rendered bytes, concatenated in order. */
  function RenderAll(bytes: seq<U8>, bin: bool): string
    decreases |bytes|
  {
    if bytes == [] then "" else RenderAll(bytes[..|bytes| - 1], bin) + Render(bytes[|bytes| - 1], bin)
  }

  /** The canonical text of a rule table: `rules.to_str(bin)`. */
  function Encode(rules: seq<U8>, bin: bool): string {
    RenderAll(Packed(rules), bin)
  }

  /** `to_str`: walks the table once, shifting each entry into `acc` at its
      position within its group of eight, and emits `acc` when the group's
      last position (bit 7) has been absorbed. */
  method ToStr(rules: seq<U8>, bin: bool) returns (s: string)
    ensures s == Encode(rules, bin)
  {
    var acc: U8 := 0;
    s := "";
    ghost var groups: nat := 0;
    ghost var bit: nat := 0;
    var idx := 0;
    while idx < |rules|
      invariant idx == 8 * groups + bit && bit < 8 && idx <= |rules|
      invariant s == RenderAll(PackedPrefix(rules, groups), bin)
      invariant acc == Acc(rules, 8 * groups, bit)
    {
      var bitIdx := idx % 8;
      PositionInGroup(idx, groups, bit);
      AccNext(rules, 8 * groups, bit, idx, acc);
      acc := (acc + Shl(rules[idx], bitIdx)) % 256;
      if idx > 0 && bitIdx == 7 {
        PackedNext(rules, groups, acc, bin);
        s := s + Render(acc, bin);
        acc := 0;
        groups := groups + 1;
        bit := 0;
      } else {
        bit := bit + 1;
      }
      idx := idx + 1;
    }
    assert groups == |rules| / 8;
  }

  /** Entry idx = 8g + bit sits at position idx % 8 == bit of group g, and the group is
      complete exactly when that bit is 7. */
  lemma PositionInGroup(idx: nat, g: nat, bit: nat)
    requires idx == 8 * g + bit && bit < 8
    ensures idx % 8 == bit
    ensures (idx > 0 && idx % 8 == 7) <==> bit == 7
  {
  }

  /** Absorbing the entry at position b of a group extends the group's
      accumulator by that entry. */
  lemma AccNext(rules: seq<U8>, lo: nat, b: nat, idx: nat, acc: U8)
    requires idx == lo + b && idx < |rules| && acc == Acc(rules, lo, b)
    ensures Acc(rules, lo, b + 1) == (acc + Shl(rules[idx], b)) % 256
  {
  }

  /** `s.push_str(&format!(..., acc))` at the end of group g: the key so
      far gains the rendering of the group's byte. */
  lemma PackedNext(rules: seq<U8>, g: nat, acc: U8, bin: bool)
    requires 8 * g + 8 <= |rules| && acc == Acc(rules, 8 * g, 8)
    ensures RenderAll(PackedPrefix(rules, g + 1), bin) == RenderAll(PackedPrefix(rules, g), bin) + Render(acc, bin)
  {
    RenderAllSnoc(PackedPrefix(rules, g), acc, bin);
  }

  lemma RenderAllSnoc(bytes: seq<U8>, b: U8, bin: bool)
    ensures RenderAll(bytes + [b], bin) == RenderAll(bytes, bin) + Render(b, bin)
  {
    assert (bytes + [b])[..|bytes|] == bytes;
  }

  // ---------------------------------------------------------------------------
  // Properties of the encoding
  // ---------------------------------------------------------------------------

  /** Byte k of the key is the little-endian value of entries 8k .. 8k+7:
      entry 8k+j contributes rules[8k+j] * 2^j. */
  lemma PackedByteIsWeighted(rules: seq<U8>, k: nat)
    requires AllBits(rules) && k < |rules| / 8
    ensures Packed(rules)[k] == Weighted(rules[8 * k .. 8 * k + 8])
  {
    PackedPrefixAt(rules, |rules| / 8, k);
    AccIsWeighted(rules, 8 * k, 8);
  }

  /** Only complete groups of eight are emitted: the trailing |rules| % 8
      entries never affect the key. */
  lemma TrailingEntriesIgnored(rules: seq<U8>, bin: bool)
    ensures Encode(rules, bin) == Encode(rules[..8 * (|rules| / 8)], bin)
  {
    var g := |rules| / 8;
    var cut := rules[..8 * g];
    assert |cut| / 8 == g;
    PackedPrefixLocal(rules, cut, g);
  }

  lemma {:induction false} RenderAllBinLength(bytes: seq<U8>)
    ensures |RenderAll(bytes, true)| == 8 * |bytes|
  {
    if bytes != [] {
      RenderAllBinLength(bytes[..|bytes| - 1]);
    }
  }

  /** The binary key has exactly eight characters per complete group; a
      table of fewer than eight entries has the empty key. */
  lemma BinaryKeyLength(rules: seq<U8>)
    ensures |Encode(rules, true)| == 8 * (|rules| / 8)
    ensures |rules| < 8 ==> Encode(rules, true) == ""
  {
    RenderAllBinLength(Packed(rules));
  }

  /** Reads a binary key back into its bytes, eight characters at a time. */
  function DecodeBytes(s: string): seq<nat>
    decreases |s|
  {
    if |s| < 8 then [] else DecodeBytes(s[..|s| - 8]) + [ParseBin(s[|s| - 8..])]
  }

  lemma {:induction false} DecodeRenderAll(bytes: seq<U8>)
    ensures DecodeBytes(RenderAll(bytes, true)) == bytes
  {
    if bytes != [] {
      var n := |bytes| - 1;
      var s := RenderAll(bytes, true);
      RenderAllBinLength(bytes[..n]);
      assert s[..|s| - 8] == RenderAll(bytes[..n], true);
      assert s[|s| - 8..] == Bin8(bytes[n]);
      assert Pow2(8) == 256;
      ParseBinDigits(bytes[n], 8);
      DecodeRenderAll(bytes[..n]);
      assert bytes == bytes[..n] + [bytes[n]];
    }
  }

  /** The n low bits of v, least significant first. */
  function Unpack(v: nat, n: nat): (bits: seq<U8>)
    ensures |bits| == n
  {
    if n == 0 then [] else [v % 2] + Unpack(v / 2, n - 1)
  }

  lemma {:induction false} UnpackWeighted(s: seq<U8>)
    requires AllBits(s)
    ensures Unpack(Weighted(s), |s|) == s
  {
    if s != [] {
      UnpackWeighted(s[1..]);
    }
  }

  /** Reads a binary key back into a rule table. */
  function DecodeBinaryKey(s: string): seq<U8>
  {
    var bytes := DecodeBytes(s);
    UnpackAll(bytes)
  }

  /** The bits of every byte, least significant first, in byte order. */
  function UnpackAll(bytes: seq<nat>): seq<U8>
    decreases |bytes|
  {
    if bytes == [] then [] else UnpackAll(bytes[..|bytes| - 1]) + Unpack(bytes[|bytes| - 1], 8)
  }

  lemma UnpackAllSnoc(bytes: seq<nat>, b: nat)
    ensures UnpackAll(bytes + [b]) == UnpackAll(bytes) + Unpack(b, 8)
  {
    assert (bytes + [b])[..|bytes|] == bytes;
  }

  /** A packed group unpacks to its eight entries. */
  lemma GroupUnpacks(rules: seq<U8>, lo: nat)
    requires AllBits(rules) && lo + 8 <= |rules|
    ensures Unpack(Acc(rules, lo, 8), 8) == rules[lo .. lo + 8]
  {
    var group := rules[lo .. lo + 8];
    AccIsWeighted(rules, lo, 8);
    assert AllBits(group);
    UnpackWeighted(group);
  }

  /** Unpacking the first g bytes gives back the first 8g entries. */
  lemma {:induction false} UnpackAllPacked(rules: seq<U8>, g: nat)
    requires AllBits(rules) && 8 * g <= |rules|
    ensures UnpackAll(PackedPrefix(rules, g)) == rules[..8 * g]
  {
    if g > 0 {
      var lo := 8 * (g - 1);
      var prev := PackedPrefix(rules, g - 1);
      var b := Acc(rules, lo, 8);
      assert UnpackAll(PackedPrefix(rules, g)) == UnpackAll(prev) + Unpack(b, 8) by {
        assert PackedPrefix(rules, g) == prev + [b];
        UnpackAllSnoc(prev, b);
      }
      assert UnpackAll(prev) == rules[..lo] by {
        UnpackAllPacked(rules, g - 1);
      }
      assert Unpack(b, 8) == rules[lo .. lo + 8] by {
        GroupUnpacks(rules, lo);
      }
      assert rules[..8 * g] == rules[..lo] + rules[lo .. lo + 8];
    }
  }

  lemma {:induction false} UnpackBits(v: nat, n: nat)
    ensures AllBits(Unpack(v, n))
  {
    if n > 0 {
      UnpackBits(v / 2, n - 1);
    }
  }

  /** The n bits of a value below 2^n read back as that value. */
  lemma {:induction false} WeightedUnpack(v: nat, n: nat)
    requires v < Pow2(n)
    ensures Weighted(Unpack(v, n)) == v
  {
    if n > 0 {
      WeightedUnpack(v / 2, n - 1);
      assert Unpack(v, n)[1..] == Unpack(v / 2, n - 1);
    }
  }

  lemma {:induction false} UnpackAllBits(bytes: seq<nat>)
    ensures AllBits(UnpackAll(bytes)) && |UnpackAll(bytes)| == 8 * |bytes|
    decreases |bytes|
  {
    if bytes != [] {
      UnpackAllBits(bytes[..|bytes| - 1]);
      UnpackBits(bytes[|bytes| - 1], 8);
    }
  }

  /** The other direction of the round trip: bytes spread out into a 0/1
      table, eight entries each, pack back to the same bytes. So every byte
      sequence is the packing of some 0/1 table. */
  lemma {:induction false} PackUnpack(bytes: seq<U8>)
    ensures AllBits(UnpackAll(bytes)) && Packed(UnpackAll(bytes)) == bytes
    decreases |bytes|
  {
    if bytes != [] {
      var n := |bytes|;
      var r := UnpackAll(bytes);
      UnpackAllBits(bytes);
      assert |r| / 8 == n;
      LastGroupPacks(bytes);
      FrontGroupsPack(bytes);
      PackUnpack(bytes[..n - 1]);
      assert bytes == bytes[..n - 1] + [bytes[n - 1]];
    }
  }

  /** The last eight entries of an unpacked table pack to its last byte. */
  lemma {:induction false} LastGroupPacks(bytes: seq<U8>)
    requires bytes != []
    ensures 8 * |bytes| == |UnpackAll(bytes)|
    ensures Acc(UnpackAll(bytes), 8 * (|bytes| - 1), 8) == bytes[|bytes| - 1]
  {
    var n := |bytes|;
    var b := bytes[n - 1];
    var r0, c := UnpackAll(bytes[..n - 1]), Unpack(b, 8);
    assert UnpackAll(bytes) == r0 + c;
    UnpackAllBits(bytes[..n - 1]);
    UnpackBits(b, 8);
    assert Weighted(c) == b by {
      assert Pow2(8) == 256;
      WeightedUnpack(b, 8);
    }
    GroupAfter(r0, c);
  }

  /** A group of eight 0/1 entries appended to a 0/1 table accumulates to
      the group's weighted sum. */
  lemma GroupAfter(a: seq<U8>, c: seq<U8>)
    requires AllBits(a) && AllBits(c) && |c| == 8
    ensures Acc(a + c, |a|, 8) == Weighted(c)
  {
    assert AllBits(a + c);
    assert (a + c)[|a|..|a| + 8] == c;
    AccIsWeighted(a + c, |a|, 8);
  }

  /** The bytes before the last one pack as they do without it. */
  lemma {:induction false} FrontGroupsPack(bytes: seq<U8>)
    requires bytes != []
    ensures 8 * |bytes| == |UnpackAll(bytes)|
    ensures Packed(UnpackAll(bytes)) ==
              Packed(UnpackAll(bytes[..|bytes| - 1])) + [Acc(UnpackAll(bytes), 8 * (|bytes| - 1), 8)]
  {
    var n := |bytes|;
    var r, r0 := UnpackAll(bytes), UnpackAll(bytes[..n - 1]);
    UnpackAllBits(bytes);
    UnpackAllBits(bytes[..n - 1]);
    assert r == r0 + Unpack(bytes[n - 1], 8);
    assert |r| / 8 == n && |r0| / 8 == n - 1;
    PackedPrefixAppend(r0, Unpack(bytes[n - 1], 8), n - 1);
  }

  /** Appending entries leaves the bytes of complete groups unchanged. */
  lemma PackedPrefixAppend(a: seq<U8>, c: seq<U8>, g: nat)
    requires 8 * g <= |a|
    ensures PackedPrefix(a + c, g) == PackedPrefix(a, g)
  {
    PackedPrefixLocal(a + c, a, g);
  }

  /** The binary key round-trips: a 0/1 table whose length is a multiple of
      eight is recovered from its key. */
  lemma BinaryKeyRoundTrip(rules: seq<U8>)
    requires AllBits(rules) && |rules| % 8 == 0
    ensures DecodeBinaryKey(Encode(rules, true)) == rules
  {
    DecodeRenderAll(Packed(rules));
    UnpackAllPacked(rules, |rules| / 8);
    assert rules[..8 * (|rules| / 8)] == rules;
  }

  /** Hence distinct 0/1 tables whose lengths are multiples of eight have
      distinct binary keys. */
  lemma BinaryKeyInjective(a: seq<U8>, b: seq<U8>)
    requires AllBits(a) && |a| % 8 == 0
    requires AllBits(b) && |b| % 8 == 0
    requires Encode(a, true) == Encode(b, true)
    ensures a == b
  {
    BinaryKeyRoundTrip(a);
    BinaryKeyRoundTrip(b);
  }

  // ---------------------------------------------------------------------------
  // Interestingness
  // ---------------------------------------------------------------------------

  /** `InterestingRules`: the ratio alive / total is kept as the exact pair. */
  datatype Interesting = Interesting(alive: nat, total: nat, isInteresting: bool)

  /** The number of entries that are > 0. */
  function CountAlive(rules: seq<U8>): (k: nat)
    ensures k <= |rules|
    decreases |rules|
  {
    if rules == [] then 0
    else CountAlive(rules[..|rules| - 1]) + (if rules[|rules| - 1] > 0 then 1 else 0)
  }

  /** The live entries are all entries but the zeros. */
  lemma {:induction false} CountAliveNonZero(rules: seq<U8>)
    ensures CountAlive(rules) == |rules| - multiset(rules)[0]
    decreases |rules|
  {
    if rules != [] {
      var init := rules[..|rules| - 1];
      assert rules == init + [rules[|rules| - 1]];
      CountAliveNonZero(init);
    }
  }

  /** `get_interesting`: interesting iff 0.2 < alive / total < 0.3, strictly.
      The comparison is made in integers: an empty table (whose ratio is NaN)
      is never interesting. */
  function GetInteresting(rules: seq<U8>): (r: Interesting)
    ensures r.alive == CountAlive(rules) && r.total == |rules|
    ensures r.isInteresting <==>
              |rules| > 0 && 0.2 < (r.alive as real) / (|rules| as real) < 0.3
  {
    var alive := CountAlive(rules);
    var n := |rules|;
    var interesting := 10 * alive > 2 * n && 10 * alive < 3 * n;
    RatioBand(alive, n);
    Interesting(alive, n, interesting)
  }

  lemma RatioBand(alive: nat, n: nat)
    ensures (10 * alive > 2 * n && 10 * alive < 3 * n) <==>
              n > 0 && 0.2 < (alive as real) / (n as real) < 0.3
  {
    if n > 0 {
      ScaledCompare(alive as real, n as real);
    }
  }

  /** Comparing a / d with 0.2 and 0.3 is comparing 10a with 2d and 3d. */
  lemma ScaledCompare(a: real, d: real)
    requires d > 0.0
    ensures 0.2 < a / d <==> 2.0 * d < 10.0 * a
    ensures a / d < 0.3 <==> 10.0 * a < 3.0 * d
  {
    var r := a / d;
    assert a == r * d;
  }

  /** The band is open at both ends: ratios of exactly 1/5 and 3/10 are not
      interesting, nor is the empty table. */
  lemma BandIsOpen(rules: seq<U8>)
    requires |rules| == 0 || 5 * CountAlive(rules) == |rules| || 10 * CountAlive(rules) == 3 * |rules|
    ensures !GetInteresting(rules).isInteresting
  {
  }
}
