/**
  The code of a time step: TotpUtils::generateCodeForStep of src/utils/totp_utils.cpp against
  section 5.3 of RFC 4226.  HMAC-SHA1 itself is a parameter; it may fail.
 */
module Hotp {
  import opened Bits
  import opened Options

  // HMAC of a key and a message, or None when the library reports an error.
  type Mac = (seq<Byte>, seq<Byte>) -> Option<seq<Byte>>

  ghost predicate IsHmacSha1(mac: Mac) {
    forall key, message :: mac(key, message).Some? ==> |mac(key, message).value| == 20
  }

  const INT64_MIN := -0x8000_0000_0000_0000
  const INT64_MAX := 0x7FFF_FFFF_FFFF_FFFF

  // ---------------------------------------------------------------------------------
  // The counter
  // ---------------------------------------------------------------------------------

  /** Arithmetic shift by n bytes. */
  function ShiftBytes(x: int, n: nat): int
    decreases n
  {
    if n == 0 then x else ShiftBytes(x / 256, n - 1)
  }

  lemma {:induction false} ShiftOneMore(x: int, n: nat)
    ensures ShiftBytes(x, n + 1) == ShiftBytes(x, n) / 256
    decreases n
  {
    if n > 0 {
      ShiftOneMore(x / 256, n - 1);
    }
  }

  /** The n low bytes of the two's complement of x, most significant first. */
  function BigEndian(x: int, n: nat): (r: seq<Byte>)
    ensures |r| == n && forall i :: 0 <= i < n ==> r[i] == ShiftBytes(x, n - 1 - i) % 256
  {
    seq(n, i requires 0 <= i < n => ShiftBytes(x, n - 1 - i) % 256)
  }

  lemma BigEndianStep(x: int, n: nat)
    requires n > 0
    ensures BigEndian(x, n) == BigEndian(x / 256, n - 1) + [x % 256]
  {
  }

  function FromBytes(bytes: seq<Byte>): int {
    if bytes == [] then 0 else 256 * FromBytes(bytes[..|bytes| - 1]) + bytes[|bytes| - 1]
  }

  function Pow256(n: nat): nat {
    if n == 0 then 1 else 256 * Pow256(n - 1)
  }

  lemma {:induction false} BytesRecover(x: int, n: nat)
    ensures x == ShiftBytes(x, n) * Pow256(n) + FromBytes(BigEndian(x, n))
    decreases n
  {
    if n > 0 {
      BytesRecover(x / 256, n - 1);
      BigEndianStep(x, n);
      FromBytesStep(BigEndian(x / 256, n - 1), x % 256);
      ScaleBy256(ShiftBytes(x, n), Pow256(n - 1));
    }
  }

  lemma FromBytesStep(bytes: seq<Byte>, b: Byte)
    ensures FromBytes(bytes + [b]) == 256 * FromBytes(bytes) + b
  {
  }

  lemma ScaleBy256(q: int, p: int)
    ensures q * (256 * p) == 256 * (q * p)
  {
  }

  lemma Pow256Of8()
    ensures Pow256(8) == 0x1_0000_0000_0000_0000
  {
  }

  lemma SameBytes(a: int, b: int, n: nat)
    requires BigEndian(a, n) == BigEndian(b, n) && Pow256(n) == 0x1_0000_0000_0000_0000
    requires INT64_MIN <= a <= INT64_MAX && INT64_MIN <= b <= INT64_MAX
    ensures a == b
  {
    hide ShiftBytes, BigEndian, FromBytes, Pow256;
    BytesRecover(a, n);
    BytesRecover(b, n);
    assert a == ShiftBytes(a, n) * 0x1_0000_0000_0000_0000 + FromBytes(BigEndian(a, n));
    assert b == ShiftBytes(b, n) * 0x1_0000_0000_0000_0000 + FromBytes(BigEndian(b, n));
  }

  /** Section 5.2 of RFC 4226: the eight bytes are the counter as a big-endian number. */
  lemma CounterIsBigEndian(x: int)
    requires 0 <= x <= INT64_MAX
    ensures FromBytes(BigEndian(x, 8)) == x
  {
    hide ShiftBytes, BigEndian, FromBytes, Pow256;
    Pow256Of8();
    CounterRecovers(x, 8);
  }

  lemma CounterRecovers(x: int, n: nat)
    requires 0 <= x < Pow256(n)
    ensures FromBytes(BigEndian(x, n)) == x
  {
    hide BigEndian, FromBytes;
    BytesRecover(x, n);
    ShiftedOut(x, n);
  }

  lemma {:induction false} ShiftedOut(x: int, n: nat)
    requires 0 <= x < Pow256(n)
    ensures ShiftBytes(x, n) == 0
    decreases n
  {
    if n > 0 {
      ShiftedOut(x / 256, n - 1);
    }
  }

  /** Different time steps are authenticated as different messages. */
  lemma CounterIsInjective(a: int, b: int)
    requires INT64_MIN <= a <= INT64_MAX && INT64_MIN <= b <= INT64_MAX
    requires BigEndian(a, 8) == BigEndian(b, 8)
    ensures a == b
  {
    Pow256Of8();
    SameBytes(a, b, 8);
  }

  // ---------------------------------------------------------------------------------
  // Dynamic truncation
  // ---------------------------------------------------------------------------------

  /** Section 5.3 of RFC 4226: the low 31 bits of the word at the offset the last byte names. */
  function Truncate(hash: seq<Byte>): (r: nat)
    requires |hash| == 20
    ensures r < 0x8000_0000
  {
    var o := hash[19] % 16;
    var b0: int, b1: int, b2: int, b3: int := hash[o], hash[o + 1], hash[o + 2], hash[o + 3];
    (0x100_0000 * b0 + 0x1_0000 * b1 + 0x100 * b2 + b3) % 0x8000_0000
  }

  /** Read as a big-endian number, the four bytes at the offset, without the sign bit. */
  lemma TruncateReadsAtOffset(hash: seq<Byte>, o: nat)
    requires |hash| == 20 && o < 16 && exists high: nat :: hash[19] == 16 * high + o
    ensures Truncate(hash) == FromBytes(hash[o..o + 4]) % 0x8000_0000
  {
    var word := hash[o..o + 4];
    assert word[..3][..2][..1][..0] == [];
    assert word[..3][..2] == word[..2] && word[..2][..1] == word[..1];
    var b0: int, b1: int, b2: int := word[0], word[1], word[2];
    assert FromBytes(word[..1]) == b0;
    assert FromBytes(word[..2]) == 256 * b0 + b1;
    assert FromBytes(word[..3]) == 256 * (256 * b0 + b1) + b2;
    assert word == [hash[o], hash[o + 1], hash[o + 2], hash[o + 3]];
  }

  /** The example of section 5.4 of RFC 4226. */
  lemma TruncationExample()
    ensures Truncate([0x1f, 0x86, 0x98, 0x69, 0x0e, 0x02, 0xca, 0x16, 0x61, 0x85,
                      0x50, 0xef, 0x7f, 0x19, 0xda, 0x8e, 0x94, 0x5b, 0x55, 0x5a]) == 0x50ef7f19
    ensures 0x50ef7f19 % 1_000_000 == 872921
  {
  }

  lemma MaskBits(b: Byte, n: nat)
    ensures BitAnd(b, Pow2(n) - 1) == b - Shr(b, n) * Pow2(n) < Pow2(n)
  {
    AndMask(b, n);
    SplitWord(b, n);
  }

  lemma MaskByte(b: Byte)
    ensures BitAnd(b, 0x0F) == b % 16 && BitAnd(b, 0x7F) == b % 128 && BitAnd(b, 0xFF) == b
  {
    hide BitAnd, Shr, Pow2;
    PowersOfTwo();
    MaskBits(b, 4);
    MaskBits(b, 7);
    MaskBits(b, 8);
  }

  lemma OrBytes(a: nat, b: Byte, c: Byte, d: Byte)
    ensures BitOr(BitOr(BitOr(a * 0x100_0000, b * 0x1_0000), c * 0x100), d)
            == a * 0x100_0000 + b * 0x1_0000 + c * 0x100 + d
  {
    hide BitOr, Pow2;
    PowersOfTwo();
    OrIntoZeros(a, b * 0x1_0000, 24);
    OrIntoZeros(a * 0x100 + b, c * 0x100, 16);
    OrIntoZeros((a * 0x100 + b) * 0x100 + c, d, 8);
  }

  /** The shift-and-or expression of the source, on the four bytes it selects. */
  function Assemble(b0: Byte, b1: Byte, b2: Byte, b3: Byte): nat {
    BitOr(BitOr(BitOr(BitAnd(b0, 0x7F) * 0x100_0000, BitAnd(b1, 0xFF) * 0x1_0000), BitAnd(b2, 0xFF) * 0x100),
          BitAnd(b3, 0xFF))
  }

  lemma AssembledWord(b0: Byte, b1: Byte, b2: Byte, b3: Byte)
    ensures Assemble(b0, b1, b2, b3) ==
        (0x100_0000 * b0 as int + 0x1_0000 * b1 as int + 0x100 * b2 as int + b3) % 0x8000_0000
  {
    hide BitOr, BitAnd;
    MaskByte(b0);
    MaskByte(b1);
    MaskByte(b2);
    MaskByte(b3);
    OrBytes(b0 % 128, b1, b2, b3);
  }

  // ---------------------------------------------------------------------------------
  // Six digits
  // ---------------------------------------------------------------------------------

  function Digit(n: nat): char
    requires n < 10
  {
    (n + '0' as int) as char
  }

  predicate IsDigits(s: string) {
    forall i :: 0 <= i < |s| ==> '0' <= s[i] <= '9'
  }

  /** What operator<< writes for a non-negative int. */
  function Decimal(n: nat): (r: string)
    ensures IsDigits(r)
  {
    if n < 10 then [Digit(n)] else Decimal(n / 10) + [Digit(n % 10)]
  }

  /** std::setw(width) << std::setfill('0') */
  function Pad(s: string, width: nat): (r: string)
    ensures IsDigits(s) ==> IsDigits(r)
    decreases width - |s|
  {
    if |s| >= width then s else Pad("0" + s, width)
  }

  function Parse(s: string): int
    requires IsDigits(s)
  {
    if s == "" then 0 else 10 * Parse(s[..|s| - 1]) + (s[|s| - 1] as int - '0' as int)
  }

  function Pow10(n: nat): nat {
    if n == 0 then 1 else 10 * Pow10(n - 1)
  }

  lemma {:induction false} ParseDecimal(n: nat)
    ensures Parse(Decimal(n)) == n
  {
    if n < 10 {
      assert [Digit(n)][..0] == "";
    } else {
      ParseDecimal(n / 10);
      assert Decimal(n)[..|Decimal(n)| - 1] == Decimal(n / 10);
    }
  }

  lemma {:induction false} DecimalLength(n: nat, k: nat)
    requires n < Pow10(k) && k > 0
    ensures 1 <= |Decimal(n)| <= k
    decreases k
  {
    if n >= 10 {
      DecimalLength(n / 10, k - 1);
    }
  }

  lemma {:induction false} ParseLeadingZero(s: string)
    requires IsDigits(s)
    ensures Parse("0" + s) == Parse(s)
  {
    if s == "" {
      assert "0" + s == "0" && "0"[..0] == "";
    } else {
      ParseLeadingZero(s[..|s| - 1]);
      assert ("0" + s)[..|s|] == "0" + s[..|s| - 1];
    }
  }

  lemma {:induction false} PadKeepsValue(s: string, width: nat)
    requires IsDigits(s)
    ensures Parse(Pad(s, width)) == Parse(s)
    ensures |s| <= width ==> |Pad(s, width)| == width
    decreases width - |s|
  {
    if |s| < width {
      ParseLeadingZero(s);
      PadKeepsValue("0" + s, width);
    }
  }

  /** A value below 10^k is printed as exactly k digits, and they read back as the value. */
  lemma PrintedCode(n: nat, k: nat)
    requires n < Pow10(k) && k > 0
    ensures var code := Pad(Decimal(n), k); |code| == k && IsDigits(code) && Parse(code) == n
  {
    DecimalLength(n, k);
    PadKeepsValue(Decimal(n), k);
    ParseDecimal(n);
  }

  // ---------------------------------------------------------------------------------
  // The code of a time step
  // ---------------------------------------------------------------------------------

  /** The HOTP value of a counter, or the empty string when the HMAC fails. */
  function Code(mac: Mac, key: seq<Byte>, step: int): string {
    var hash := mac(key, BigEndian(step, 8));
    if hash.None? || |hash.value| != 20 then "" else Pad(Decimal(Truncate(hash.value) % 1_000_000), 6)
  }

  /** The loop that fills timeData. */
  method PackCounter(timeStep: int) returns (timeData: array<Byte>)
    requires INT64_MIN <= timeStep <= INT64_MAX
    ensures fresh(timeData) && timeData[..] == BigEndian(timeStep, 8)
  {
    timeData := new Byte[8];
    var ts := timeStep;
    for i := 8 downto 0
      invariant ts == ShiftBytes(timeStep, 8 - i)
      invariant forall j :: i <= j < 8 ==> timeData[j] == ShiftBytes(timeStep, 7 - j) % 256
    {
      ShiftOneMore(timeStep, 7 - i);
      timeData[i] := ts % 256;
      ts := ts / 256;
    }
  }

  method GenerateCodeForStep(mac: Mac, key: seq<Byte>, timeStep: int) returns (code: string)
    requires IsHmacSha1(mac) && INT64_MIN <= timeStep <= INT64_MAX
    ensures code == Code(mac, key, timeStep)
  {
    hide BitAnd, BigEndian, Assemble, Decimal, Pad;
    var timeData := PackCounter(timeStep);
    var result := mac(key, timeData[..]);
    if result.None? {
      return "";
    }
    var hash := result.value;
    MaskByte(hash[|hash| - 1]);
    var offset := BitAnd(hash[|hash| - 1], 0x0F);
    var binary := Assemble(hash[offset], hash[offset + 1], hash[offset + 2], hash[offset + 3]);
    AssembledWord(hash[offset], hash[offset + 1], hash[offset + 2], hash[offset + 3]);
    var otp := binary % 1_000_000;
    return Pad(Decimal(otp), 6);
  }

  /** A code is six digits that spell the truncated MAC modulo 10^6, or the HMAC failed. */
  lemma CodeIsHotp(mac: Mac, key: seq<Byte>, step: int)
    requires IsHmacSha1(mac)
    ensures var code, hash := Code(mac, key, step), mac(key, BigEndian(step, 8));
            if hash.None? then code == ""
            else |code| == 6 && IsDigits(code) && Parse(code) == Truncate(hash.value) % 1_000_000
  {
    var hash := mac(key, BigEndian(step, 8));
    if hash.Some? {
      assert Pow10(6) == 1_000_000;
      PrintedCode(Truncate(hash.value) % 1_000_000, 6);
    }
  }
}
