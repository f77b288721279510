/**
 * The bit operations the scripts apply to a field's /Ff entry, on Python's unbounded
 * integers. Python treats an int as an infinite two's-complement bit string; bit `k` of `x`
 * is `(x >> k) & 1`, which is `(x / 2^k) % 2` with floor division. Dafny's `/` and `%` are
 * Euclidean, which coincides with floor division for a positive divisor, so `Bit` below is
 * exact for negative values too.
 *
 * Bit 0 (value 1) is ReadOnly and bit 1 (value 2) is Required among the field flags of
 * section 12.7.3.1 (Table 221) of ISO 32000-1; the scripts use bit 1 believing it hides a
 * field. The model follows the code.
 */
module Flags {

  function Pow2(k: nat): (r: nat)
    ensures r >= 1
  {
    if k == 0 then 1 else 2 * Pow2(k - 1)
  }

  /** Bit `k` of `x`: `(x >> k) & 1`. */
  function Bit(x: int, k: nat): (b: int)
    ensures 0 <= b <= 1
    decreases k
  {
    if k == 0 then x % 2 else Bit(x / 2, k - 1)
  }

  /** `x | (1 << k)` */
  function SetBit(x: int, k: nat): int {
    if Bit(x, k) == 1 then x else x + Pow2(k)
  }

  /** `x & ~(1 << k)` */
  function ClearBit(x: int, k: nat): int {
    if Bit(x, k) == 1 then x - Pow2(k) else x
  }

  /** Adding `2^k` to a number whose bit `k` is clear sets that bit and no other. */
  lemma {:induction false} AddPow2(x: int, k: nat, j: nat)
    requires Bit(x, k) == 0
    ensures Bit(x + Pow2(k), j) == if j == k then 1 else Bit(x, j)
    decreases k
  {
    if k == 0 {
      if j > 0 {
        assert (x + 1) / 2 == x / 2;
      }
    } else {
      var p := Pow2(k - 1);
      assert Pow2(k) == 2 * p;
      if j > 0 {
        assert (x + 2 * p) / 2 == x / 2 + p;
        AddPow2(x / 2, k - 1, j - 1);
      } else {
        assert (x + 2 * p) % 2 == x % 2;
      }
    }
  }

  /** Subtracting `2^k` from a number whose bit `k` is set clears that bit and no other. */
  lemma {:induction false} SubPow2(x: int, k: nat, j: nat)
    requires Bit(x, k) == 1
    ensures Bit(x - Pow2(k), j) == if j == k then 0 else Bit(x, j)
    decreases k
  {
    if k == 0 {
      if j > 0 {
        assert (x - 1) / 2 == x / 2;
      }
    } else {
      var p := Pow2(k - 1);
      assert Pow2(k) == 2 * p;
      if j > 0 {
        assert (x - 2 * p) / 2 == x / 2 - p;
        SubPow2(x / 2, k - 1, j - 1);
      } else {
        assert (x - 2 * p) % 2 == x % 2;
      }
    }
  }

  /** Setting bit `k` makes it 1 and leaves every other bit as it was. */
  lemma SetBitOnly(x: int, k: nat, j: nat)
    ensures Bit(SetBit(x, k), j) == if j == k then 1 else Bit(x, j)
  {
    if Bit(x, k) == 0 {
      AddPow2(x, k, j);
    }
  }

  /** Clearing bit `k` makes it 0 and leaves every other bit as it was. */
  lemma ClearBitOnly(x: int, k: nat, j: nat)
    ensures Bit(ClearBit(x, k), j) == if j == k then 0 else Bit(x, j)
  {
    if Bit(x, k) == 1 {
      SubPow2(x, k, j);
    }
  }

  lemma SetBitIdempotent(x: int, k: nat)
    ensures SetBit(SetBit(x, k), k) == SetBit(x, k)
  {
    SetBitOnly(x, k, k);
  }

  lemma ClearBitIdempotent(x: int, k: nat)
    ensures ClearBit(ClearBit(x, k), k) == ClearBit(x, k)
  {
    ClearBitOnly(x, k, k);
  }
}
