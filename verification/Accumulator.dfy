/** Portable 128-bit arithmetic of the NUMBER decoder: a 64 x 64 -> 128 bit multiplication and the
    overflow-checked accumulator built on it. */
module Accumulator {
  import opened Machine
  import opened Digits

  /** Schoolbook multiplication over 32-bit halves. */
  method Mul64(a: uint64, b: uint64) returns (hi: uint64, lo: uint64)
    ensures hi * TWO64 + lo == a * b
  {
    var a0, a1, b0, b1 := a % TWO32, a / TWO32, b % TWO32, b / TWO32;
    HalvesProduct(a0, b0);
    HalvesProduct(a0, b1);
    HalvesProduct(a1, b0);
    HalvesProduct(a1, b1);
    var p00: uint64, p01: uint64, p10: uint64, p11: uint64 := a0 * b0, a0 * b1, a1 * b0, a1 * b1;
    var mid: uint64 := p00 / TWO32 + p01 % TWO32 + p10 % TWO32;
    CrossProducts(a0, a1, b0, b1);
    ProductBound(a, b);
    hi := p11 + p01 / TWO32 + p10 / TWO32 + mid / TWO32;
    lo := mid % TWO32 * TWO32 + p00 % TWO32;
  }

  lemma HalvesProduct(x: uint32, y: uint32)
    ensures 0 <= x * y <= 0xFFFF_FFFE_0000_0001
  {
    MulMonotone(x, TWO32 - 1, y);
    MulMonotone(y, TWO32 - 1, TWO32 - 1);
  }

  lemma ProductBound(x: uint64, y: uint64)
    ensures 0 <= x * y <= (TWO64 - 1) * (TWO64 - 1)
  {
    MulMonotone(x, TWO64 - 1, y);
    MulMonotone(y, TWO64 - 1, TWO64 - 1);
  }

  lemma CrossProducts(a0: nat, a1: nat, b0: nat, b1: nat)
    ensures (a1 * TWO32 + a0) * (b1 * TWO32 + b0)
         == a1 * b1 * TWO64 + (a0 * b1 + a1 * b0) * TWO32 + a0 * b0
  {
    var x := b1 * TWO32 + b0;
    Distribute(a1 * TWO32, a0, x);
    assert a0 * x == a0 * b1 * TWO32 + a0 * b0;
    assert a1 * x == a1 * b1 * TWO32 + a1 * b0;
    assert a1 * TWO32 * x == a1 * x * TWO32;
  }

  class Acc {
    var hi: uint64
    var lo: uint64

    constructor ()
      ensures Value() == 0
    {
      hi, lo := 0, 0;
    }

    ghost function Value(): (v: nat)
      reads this
      ensures v < TWO128
    {
      hi * TWO64 + lo
    }

    /** this = this * multiplier + addend. False exactly when that needs more than 128 bits. */
    method MulAdd(multiplier: uint64, addend: uint64) returns (ok: bool)
      modifies this
      ensures ok <==> old(Value()) * multiplier + addend < TWO128
      ensures ok ==> Value() == old(Value()) * multiplier + addend
    {
      if hi == 0 {
        ProductBound(lo, multiplier);
        if lo == 0 {
          lo := addend;
          return true;
        }
        var pHi, pLo := Mul64(lo, multiplier);
        hi := pHi;
        lo := Add64(pLo, addend);
        if lo < addend {
          hi := Add64(hi, 1);
          if hi == 0 {
            return false;
          }
        }
        return true;
      }
      Distribute(hi * TWO64, lo, multiplier);
      MulAssoc(TWO64, hi, multiplier);
      var hHi, hLo := Mul64(hi, multiplier);
      if hHi != 0 {
        return false;
      }
      var pHi, pLo := Mul64(lo, multiplier);
      var newHi := Add64(hLo, pHi);
      if newHi < hLo {
        return false;
      }
      var newLo := Add64(pLo, addend);
      if newLo < addend && Add64(newHi, 1) == 0 {
        return false;
      }
      hi := newHi + if newLo < addend then 1 else 0;
      lo := newLo;
      return true;
    }

    method Increment() returns (ok: bool)
      modifies this
      ensures ok <==> old(Value()) + 1 < TWO128
      ensures ok ==> Value() == old(Value()) + 1
    {
      lo := Add64(lo, 1);
      if lo == 0 {
        hi := Add64(hi, 1);
        if hi == 0 {
          return false;
        }
      }
      return true;
    }
  }
}
