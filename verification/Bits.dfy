/**
  Shifts, masks and bit strings on unsigned machine words, as natural numbers.
 */
module Bits {

  type Byte = x: int | 0 <= x < 256

  function Pow2(n: nat): (r: nat)
    ensures r >= 1
  {
    if n == 0 then 1 else 2 * Pow2(n - 1)
  }

  lemma PowersOfTwo()
    ensures Pow2(4) == 16 && Pow2(5) == 32 && Pow2(7) == 128 && Pow2(8) == 256
    ensures Pow2(16) == 0x1_0000 && Pow2(24) == 0x100_0000 && Pow2(27) == 0x800_0000
  {
  }

  function Shr(x: nat, n: nat): nat
    decreases n
  {
    if n == 0 then x else Shr(x / 2, n - 1)
  }

  function BitOr(x: nat, y: nat): nat
    decreases x + y
  {
    if x == 0 && y == 0 then 0
    else 2 * BitOr(x / 2, y / 2) + (if x % 2 == 1 || y % 2 == 1 then 1 else 0)
  }

  function BitAnd(x: nat, y: nat): (r: nat)
    ensures r <= y
    decreases x + y
  {
    if x == 0 && y == 0 then 0
    else 2 * BitAnd(x / 2, y / 2) + (if x % 2 == 1 && y % 2 == 1 then 1 else 0)
  }

  /** Or-ing into low bits that are zero adds. */
  lemma {:induction false} OrIntoZeros(x: nat, y: nat, n: nat)
    requires y < Pow2(n)
    ensures BitOr(x * Pow2(n), y) == x * Pow2(n) + y
    decreases n
  {
    if n == 0 {
      OrZero(x);
    } else {
      ShiftProduct(x, n);
      OrIntoZeros(x, y / 2, n - 1);
    }
  }

  lemma {:induction false} OrZero(x: nat)
    ensures BitOr(x, 0) == x
  {
    if x > 0 {
      OrZero(x / 2);
    }
  }

  // ---------------------------------------------------------------------------------
  // Bit strings, most significant bit first
  // ---------------------------------------------------------------------------------

  predicate Bit(x: nat, k: nat) {
    Shr(x, k) % 2 == 1
  }

  /** The n low bits of x. */
  function BitString(x: nat, n: nat): (r: seq<bool>)
    ensures |r| == n && forall i :: 0 <= i < n ==> r[i] == Bit(x, n - 1 - i)
  {
    seq(n, i requires 0 <= i < n => Bit(x, n - 1 - i))
  }

  function Value(bits: seq<bool>): (r: nat)
    ensures r < Pow2(|bits|)
  {
    if bits == [] then 0
    else 2 * Value(bits[..|bits| - 1]) + (if bits[|bits| - 1] then 1 else 0)
  }

  lemma ValueSnoc(bits: seq<bool>, b: bool)
    ensures Value(bits + [b]) == 2 * Value(bits) + (if b then 1 else 0)
  {
  }

  lemma BitStringStep(x: nat, n: nat)
    requires n > 0
    ensures BitString(x, n) == BitString(x / 2, n - 1) + [x % 2 == 1]
  {
  }

  lemma {:induction false} BitStringOfValue(bits: seq<bool>)
    ensures BitString(Value(bits), |bits|) == bits
  {
    if bits != [] {
      BitStringStep(Value(bits), |bits|);
      BitStringOfValue(bits[..|bits| - 1]);
    }
  }

  lemma ValueStep(x: nat, n: nat)
    requires n > 0
    ensures Value(BitString(x, n)) == 2 * Value(BitString(x / 2, n - 1)) + x % 2
  {
    BitStringStep(x, n);
    ValueSnoc(BitString(x / 2, n - 1), x % 2 == 1);
  }

  lemma ShiftProduct(x: nat, n: nat)
    requires n > 0
    ensures x * Pow2(n) == 2 * (x * Pow2(n - 1))
  {
  }

  /** A word is its high part, shifted, plus the value of its low bits. */
  lemma {:induction false} SplitWord(x: nat, n: nat)
    ensures x == Shr(x, n) * Pow2(n) + Value(BitString(x, n))
    decreases n
  {
    if n > 0 {
      SplitWord(x / 2, n - 1);
      ValueStep(x, n);
      ShiftProduct(Shr(x, n), n);
    }
  }

  lemma {:induction false} ValueOfBitString(x: nat, n: nat)
    requires x < Pow2(n)
    ensures Value(BitString(x, n)) == x
    decreases n
  {
    if n > 0 {
      ValueOfBitString(x / 2, n - 1);
      ValueStep(x, n);
    }
  }

  lemma AndStep(x: nat, m: nat)
    ensures BitAnd(x, 2 * m + 1) == 2 * BitAnd(x / 2, m) + x % 2
  {
  }

  /** Masking with n one bits keeps the n low bits. */
  lemma {:induction false} AndMask(x: nat, n: nat)
    ensures BitAnd(x, Pow2(n) - 1) == Value(BitString(x, n))
    decreases n
  {
    hide BitAnd;
    if n == 0 {
      AndZero(x);
    } else {
      AndMask(x / 2, n - 1);
      AndStep(x, Pow2(n - 1) - 1);
      ValueStep(x, n);
    }
  }

  lemma MaskKeepsBits(x: nat, n: nat)
    ensures BitString(BitAnd(x, Pow2(n) - 1), n) == BitString(x, n)
  {
    AndMask(x, n);
    BitStringOfValue(BitString(x, n));
  }

  lemma {:induction false} AndZero(x: nat)
    ensures BitAnd(x, 0) == 0
  {
  }

  lemma BitStep(z: nat, y: nat, j: nat)
    ensures Bit(2 * z + y, j) == if j == 0 then y % 2 == 1 else Bit(z + y / 2, j - 1)
  {
  }

  /** Bits of a word put together from a high part and k low bits. */
  lemma {:induction false} JoinBit(x: nat, y: nat, k: nat, j: nat)
    requires j < k || y < Pow2(k)
    ensures Bit(x * Pow2(k) + y, j) == if j < k then Bit(y, j) else Bit(x, j - k)
    decreases k
  {
    if k > 0 {
      var z := x * Pow2(k - 1);
      ShiftProduct(x, k);
      BitStep(z, y, j);
      if j > 0 {
        JoinBit(x, y / 2, k - 1, j - 1);
      }
    }
  }

  lemma BitStringJoin(x: nat, y: nat, n: nat, k: nat)
    requires y < Pow2(k)
    ensures BitString(x * Pow2(k) + y, n + k) == BitString(x, n) + BitString(y, k)
  {
    forall i | 0 <= i < n + k
      ensures BitString(x * Pow2(k) + y, n + k)[i] == (BitString(x, n) + BitString(y, k))[i]
    {
      JoinBit(x, y, k, n + k - 1 - i);
    }
  }

  /** The n low bits do not see what lies above them. */
  lemma BitStringLow(x: nat, y: nat, n: nat, k: nat)
    requires n <= k
    ensures BitString(x * Pow2(k) + y, n) == BitString(y, n)
  {
    forall i | 0 <= i < n ensures BitString(x * Pow2(k) + y, n)[i] == BitString(y, n)[i] {
      JoinBit(x, y, k, n - 1 - i);
    }
  }

  lemma {:induction false} ShrBit(x: nat, n: nat, j: nat)
    ensures Bit(Shr(x, n), j) == Bit(x, n + j)
    decreases n
  {
    if n > 0 {
      ShrBit(x / 2, n - 1, j);
    }
  }

  lemma BitStringSplit(x: nat, m: nat, n: nat)
    ensures BitString(x, m + n) == BitString(Shr(x, n), m) + BitString(x, n)
  {
    forall i | 0 <= i < m ensures BitString(x, m + n)[i] == BitString(Shr(x, n), m)[i] {
      ShrBit(x, n, m - 1 - i);
    }
  }

  function Zeros(n: nat): (r: seq<bool>)
    ensures |r| == n
  {
    seq(n, i => false)
  }
}
