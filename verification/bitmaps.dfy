/**
 * The rounding helper and the two bitmap sets of benchs/main.cpp, the baselines
 * the hash sets are measured against. `size_t` and `uint64_t` values are
 * naturals below 2^64, with the bit operators of NatBits.
 */
module Bitmaps {
  import opened NatBits

  /**
   * `get_aligned(count, align)` for align == 2^e on a `size_t` of `bits` bits
   * (64 on the targets): when one of the low e bits of count is set,
   * `(count + align) & ~(align - 1)` with the addition wrapping at 2^bits;
   * otherwise count itself. The result fits the word.
   */
  function GetAligned(count: nat, e: nat, bits: nat): (r: nat)
    requires e < bits && count < Pow2(bits)
    ensures r < Pow2(bits)
  {
    if And(count, Pow2(e) - 1) != 0 then And((count + Pow2(e)) % Pow2(bits), HighMask(e, bits)) else count
  }

  /** The test `count & (align - 1)` asks whether count is a multiple of align. */
  lemma LowBitsTest(count: nat, e: nat)
    ensures (And(count, Pow2(e) - 1) != 0) == (count % Pow2(e) != 0)
  {
    AndLowMask(count, e);
  }

  /** Rounding down to a multiple of p. */
  lemma RoundDownArith(y: nat, p: nat)
    requires p > 0
    ensures y % p <= y && (y - y % p) % p == 0
  {
    DivMod(y, p);
    ModUnique(y - y % p, p, y / p, 0);
  }

  /** The mask `~(align - 1)` rounds a word down to a multiple of align. */
  lemma RoundDown(y: nat, e: nat, bits: nat)
    requires e < bits && y < Pow2(bits)
    ensures And(y, HighMask(e, bits)) == y - y % Pow2(e)
    ensures And(y, HighMask(e, bits)) % Pow2(e) == 0
  {
    AndHighMask(y, e, bits);
    ModUnique(y, Pow2(bits), 0, y);
    RoundDownArith(y, Pow2(e));
  }

  /**
   * What `get_aligned` computes, without bit operators: an aligned count is
   * returned as it is; otherwise count + align, reduced modulo 2^bits, is
   * rounded down to a multiple of align.
   */
  lemma GetAlignedValue(count: nat, e: nat, bits: nat)
    requires e < bits && count < Pow2(bits)
    ensures var y := (count + Pow2(e)) % Pow2(bits);
      GetAligned(count, e, bits) == if count % Pow2(e) == 0 then count else y - y % Pow2(e)
  {
    LowBitsTest(count, e);
    if count % Pow2(e) != 0 {
      RoundDown((count + Pow2(e)) % Pow2(bits), e, bits);
    }
  }

  /** The result is always a multiple of align, even when the addition wraps. */
  lemma GetAlignedIsMultiple(count: nat, e: nat, bits: nat)
    requires e < bits && count < Pow2(bits)
    ensures GetAligned(count, e, bits) % Pow2(e) == 0
  {
    GetAlignedValue(count, e, bits);
    if count % Pow2(e) != 0 {
      RoundDownArith((count + Pow2(e)) % Pow2(bits), Pow2(e));
    }
  }

  /** count comes back unchanged exactly when it already is a multiple of align. */
  lemma GetAlignedFixed(count: nat, e: nat, bits: nat)
    requires e < bits && count < Pow2(bits)
    ensures (GetAligned(count, e, bits) == count) == (count % Pow2(e) == 0)
  {
    LowBitsTest(count, e);
    GetAlignedIsMultiple(count, e, bits);
  }

  /** Adding p to a count that is not a multiple of p and rounding down lands strictly between. */
  lemma RoundUpArith(count: nat, p: nat)
    requires p > 0 && count % p != 0
    ensures (count + p) % p <= count + p
    ensures count < (count + p) - (count + p) % p < count + p
  {
    var q, r := count / p, count % p;
    DivMod(count, p);
    MulSucc(q, p);
    ModUnique(count + p, p, q + 1, r);
  }

  /** Of two multiples of p, one within p above count and one at least count, the first is the smaller. */
  lemma LeastMultiple(count: nat, p: nat, r: nat, m: nat)
    requires p > 0 && r % p == 0 && m % p == 0
    requires count <= m && count <= r < count + p
    ensures r <= m
  {
    if m < r {
      var a, b := m / p, r / p;
      DivMod(m, p);
      DivMod(r, p);
      if b <= a {
        MulMono(b, a, p);
      } else {
        MulMono(a + 1, b, p);
        MulSucc(a, p);
      }
    }
  }

  /**
   * When count + align stays below 2^bits the result is the least multiple of
   * align that is at least count (see also GetAlignedIsLeast).
   */
  lemma GetAlignedRoundsUp(count: nat, e: nat, bits: nat)
    requires e < bits && count + Pow2(e) < Pow2(bits)
    ensures count <= GetAligned(count, e, bits) < count + Pow2(e)
  {
    GetAlignedValue(count, e, bits);
    if count % Pow2(e) != 0 {
      var y := count + Pow2(e);
      ModUnique(y, Pow2(bits), 0, y);
      RoundUpArith(count, Pow2(e));
    }
  }

  /** Every multiple of align that is at least count is at least the result. */
  lemma GetAlignedIsLeast(count: nat, e: nat, bits: nat, m: nat)
    requires e < bits && count + Pow2(e) < Pow2(bits)
    requires m % Pow2(e) == 0 && count <= m
    ensures GetAligned(count, e, bits) <= m
  {
    GetAlignedRoundsUp(count, e, bits);
    GetAlignedIsMultiple(count, e, bits);
    LeastMultiple(count, Pow2(e), GetAligned(count, e, bits), m);
  }

  /** A number of bits that is a multiple of 256 is a whole number of bytes and of 64-bit words. */
  lemma WholeWords(r: nat)
    requires r % 256 == 0
    ensures 8 * ((r / 8) / 8) == r / 8 && 64 * ((r / 8) / 8) == r
  {
    var q := r / 256;
    DivMod(r, 256);
    ModUnique(r, 8, 32 * q, 0);
    ModUnique(32 * q, 8, 4 * q, 0);
  }

  /**
   * The sizing of `bitmap_set_raw`: get_aligned(max_capacity, 256) is a whole
   * number of 64-bit words and, without wrap-around, covers max_capacity with
   * fewer than 256 bits to spare.
   */
  lemma RawSizing(maxCapacity: nat)
    requires maxCapacity < Pow2(64)
    ensures var r := GetAligned(maxCapacity, 8, 64);
      8 * ((r / 8) / 8) == r / 8 &&
      (maxCapacity + 256 < Pow2(64) ==> maxCapacity <= 64 * ((r / 8) / 8) < maxCapacity + 256)
  {
    assert Pow2(8) == 256;
    GetAlignedIsMultiple(maxCapacity, 8, 64);
    WholeWords(GetAligned(maxCapacity, 8, 64));
    if maxCapacity + 256 < Pow2(64) {
      GetAlignedRoundsUp(maxCapacity, 8, 64);
    }
  }

  /** The ids whose bits are set in a vector of 64-bit words: id d is bit d % 64 of word d / 64. */
  ghost function Members(ws: seq<nat>): set<nat>
  {
    set d: nat | d < 64 * |ws| && Bit(ws[d / 64], d % 64)
  }

  /** Id d is present exactly when its bit is set. */
  lemma MembersHas(ws: seq<nat>, d: nat)
    requires d < 64 * |ws|
    ensures d / 64 < |ws|
    ensures (d in Members(ws)) == Bit(ws[d / 64], d % 64)
  {
  }

  /** A vector of zero words holds no id, and no word has a bit set. */
  lemma ZeroWords(ws: seq<nat>)
    requires forall i | 0 <= i < |ws| :: ws[i] == 0
    ensures Members(ws) == {}
    ensures forall i, k | 0 <= i < |ws| :: !Bit(ws[i], k)
  {
    forall i, k | 0 <= i < |ws|
      ensures !Bit(ws[i], k)
    {
      ZeroBit(k);
    }
  }

  /** Setting bit k < 64 of a 64-bit word leaves a 64-bit word. */
  lemma SetBitWidth(w: nat, k: nat)
    requires k < 64 && forall j | Bit(w, j) :: j < 64
    ensures forall j | Bit(Or(w, Pow2(k)), j) :: j < 64
  {
    forall j | Bit(Or(w, Pow2(k)), j)
      ensures j < 64
    {
      OrBit(w, Pow2(k), j);
      PowBit(k, j);
    }
  }

  /** `w |= 1UL << (d % 64)` on the word of d adds d and no other id. */
  lemma MembersInsert(ws: seq<nat>, d: nat)
    requires d < 64 * |ws|
    ensures Members(ws[d / 64 := Or(ws[d / 64], Pow2(d % 64))]) == Members(ws) + {d}
  {
    var ws' := ws[d / 64 := Or(ws[d / 64], Pow2(d % 64))];
    forall x: nat | x < 64 * |ws|
      ensures Bit(ws'[x / 64], x % 64) == (Bit(ws[x / 64], x % 64) || x == d)
    {
      if x / 64 == d / 64 {
        OrBit(ws[d / 64], Pow2(d % 64), x % 64);
        PowBit(d % 64, x % 64);
      }
    }
  }

  /** `bitmap_set_raw`: one bit per id in a calloc'ed array of 64-bit words. */
  class BitmapSetRaw {
    /** `count_`: the ids inserted since the last clear. */
    var count: nat
    /** `capacity_`: the size of the bitmap in bytes. */
    const capacity: nat
    /** `bitmap_`: capacity / 8 words. */
    const bitmap: array<nat>

    ghost predicate Valid()
      reads this, bitmap
    {
      && capacity == 8 * bitmap.Length
      && (forall i, k | 0 <= i < bitmap.Length && Bit(bitmap[i], k) :: k < 64)
      && count == |Members(bitmap[..])|
    }

    /** The ids present. */
    ghost function Contents(): set<nat>
      reads bitmap
    {
      Members(bitmap[..])
    }

    /**
     * `capacity_` is max_capacity rounded up to 256 bits and counted in bytes;
     * the words come zeroed from calloc. Unless the rounding wraps, every id
     * below max_capacity has its bit, and at most 255 bits are spare.
     */
    constructor (maxCapacity: nat)
      requires maxCapacity < Pow2(64)
      ensures Valid() && fresh(bitmap) && Contents() == {} && count == 0
      ensures capacity == GetAligned(maxCapacity, 8, 64) / 8
      ensures maxCapacity + 256 < Pow2(64) ==> maxCapacity <= 64 * bitmap.Length < maxCapacity + 256
    {
      var bytes := GetAligned(maxCapacity, 8, 64) / 8;
      count := 0;
      capacity := bytes;
      bitmap := new nat[bytes / 8](_ => 0);
      new;
      RawSizing(maxCapacity);
      ZeroWords(bitmap[..]);
    }

    /** Sets the bit of docid; false when it was already set. */
    method Insert(docid: nat) returns (inserted: bool)
      requires Valid() && docid < 0x1_0000_0000 && docid < 64 * bitmap.Length
      modifies this, bitmap
      ensures Valid()
      ensures inserted == (docid !in old(Contents()))
      ensures Contents() == old(Contents()) + {docid}
      ensures count == old(count) + (if inserted then 1 else 0)
    {
      ghost var ws := bitmap[..];
      var i, k := docid / 64, docid % 64;
      var w := bitmap[i];
      MembersHas(ws, docid);
      if Bit(w, k) {
        return false;
      }
      MembersInsert(ws, docid);
      SetBitWidth(w, k);
      bitmap[i] := Or(w, Pow2(k));
      assert bitmap[..] == ws[i := Or(w, Pow2(k))];
      count := count + 1;
      inserted := true;
    }

    /** `count()`: the number of ids present. */
    function Count(): (c: nat)
      requires Valid()
      reads this, bitmap
      ensures c == |Contents()|
    {
      count
    }

    /** `memset(bitmap_, 0, capacity_)`: capacity_ bytes are every word. */
    method Clear()
      requires Valid()
      modifies this, bitmap
      ensures Valid() && Contents() == {} && count == 0
    {
      count := 0;
      forall i | 0 <= i < capacity / 8 {
        bitmap[i] := 0;
      }
      ZeroWords(bitmap[..]);
    }
  }

  /** `bitmap_set_std`: one `std::vector<bool>` entry per id. */
  class BitmapSetStd {
    var bm: seq<bool>
    /** `count_`: the ids inserted since the last clear. */
    var count: nat

    /** The ids present. */
    ghost function Contents(): set<nat>
      reads this
    {
      set i: nat | i < |bm| && bm[i]
    }

    ghost predicate Valid()
      reads this
    {
      count == |Contents()|
    }

    /** `bm(max_set)`: max_set entries, all false. */
    constructor (maxSet: nat)
      ensures Valid() && |bm| == maxSet && Contents() == {} && count == 0
    {
      bm := seq(maxSet, _ => false);
      count := 0;
    }

    /** Sets the entry of id; false when it was already set. */
    method Insert(id: nat) returns (inserted: bool)
      requires Valid() && id < 0x1_0000_0000 && id < |bm|
      modifies this
      ensures Valid() && |bm| == old(|bm|)
      ensures inserted == (id !in old(Contents()))
      ensures Contents() == old(Contents()) + {id}
      ensures count == old(count) + (if inserted then 1 else 0)
    {
      if bm[id] {
        return false;
      }
      ghost var before := Contents();
      bm := bm[id := true];
      assert Contents() == before + {id};
      count := count + 1;
      inserted := true;
    }

    /** `count()`: the number of ids present. */
    function Count(): (c: nat)
      requires Valid()
      reads this
      ensures c == |Contents()|
    {
      count
    }

    /** `bm.assign(bm.size(), 0)`: same length, every entry false. */
    method Clear()
      requires Valid()
      modifies this
      ensures Valid() && |bm| == old(|bm|) && Contents() == {} && count == 0
    {
      count := 0;
      bm := seq(|bm|, _ => false);
    }
  }
}
