/**
  Base32 secrets: TotpUtils::base32Decode and TotpUtils::generateSecret of
  src/utils/totp_utils.cpp against section 6 of RFC 4648.
 */
module Base32 {
  import opened Bits
  import opened Options

  const B32_CHARS := "ABCDEFGHIJKLMNOPQRSTUVWXYZ234567"

  const UINT32 := 0x1_0000_0000

  // ---------------------------------------------------------------------------------
  // The decoder
  // ---------------------------------------------------------------------------------

  function Upper(c: char): char {
    if 'a' <= c <= 'z' then (c as int - 'a' as int + 'A' as int) as char else c
  }

  /** The alphabet of table 3 of RFC 4648: A to Z, then 2 to 7. */
  function LetterValue(c: char): (r: Option<nat>)
    ensures r.Some? ==> r.value < 32
  {
    if 'A' <= c <= 'Z' then Some(c as int - 'A' as int)
    else if '2' <= c <= '7' then Some(26 + (c as int - '2' as int))
    else None
  }

  function Letter(v: nat): char
    requires v < 32
  {
    if v < 26 then (v + 'A' as int) as char else (v - 26 + '2' as int) as char
  }

  /** std::strchr(B32_CHARS, c) - B32_CHARS: the terminating NUL counts as part of the string. */
  function StrChr(c: char): Option<nat> {
    if c == '\0' then Some(32) else LetterValue(c)
  }

  /** Position of the first occurrence of c at or after i. */
  function Find(text: string, c: char, i: nat): Option<nat>
    requires i <= |text|
    decreases |text| - i
  {
    if i == |text| then None else if text[i] == c then Some(i) else Find(text, c, i + 1)
  }

  lemma {:induction false} FindLetter(c: char, i: nat)
    requires i <= 32 == |B32_CHARS| && forall j: nat :: j < 32 ==> B32_CHARS[j] == Letter(j)
    requires LetterValue(c).Some? ==> i <= LetterValue(c).value
    ensures Find(B32_CHARS, c, i) == LetterValue(c)
    decreases 32 - i
  {
    if i < 32 {
      assert B32_CHARS[i] == Letter(i);
      if B32_CHARS[i] != c {
        FindLetter(c, i + 1);
      }
    }
  }

  /** StrChr is a search in the literal alphabet string. */
  lemma StrChrSearchesAlphabet(c: char)
    ensures |B32_CHARS| == 32
    ensures StrChr(c) == if c == '\0' then Some(|B32_CHARS|) else Find(B32_CHARS, c, 0)
  {
    FindLetter(c, 0);
  }

  // The local variables of the loop.
  datatype Accumulator = Accumulator(buffer: nat, bitsLeft: nat, result: seq<Byte>)

  /** One round of the loop; `buffer` is a 32-bit word that is never masked. */
  function Absorb(acc: Accumulator, c: char): Accumulator {
    var p := StrChr(Upper(c));
    if p.None? then acc
    else
      var buffer := BitOr((acc.buffer * 32) % UINT32, p.value);
      var bitsLeft := acc.bitsLeft + 5;
      if bitsLeft >= 8 then
        Accumulator(buffer, bitsLeft - 8, acc.result + [BitAnd(Shr(buffer, bitsLeft - 8), 0xFF)])
      else
        Accumulator(buffer, bitsLeft, acc.result)
  }

  function AbsorbAll(secret: string): Accumulator {
    if secret == "" then Accumulator(0, 0, [])
    else Absorb(AbsorbAll(secret[..|secret| - 1]), secret[|secret| - 1])
  }

  method Base32Decode(secret: string) returns (result: seq<Byte>)
    ensures result == AbsorbAll(secret).result
    ensures NulFree(secret) ==> result == RfcDecode(secret)
  {
    result := [];
    var buffer: nat := 0;
    var bitsLeft: nat := 0;
    for i := 0 to |secret|
      invariant Accumulator(buffer, bitsLeft, result) == AbsorbAll(secret[..i])
    {
      var upper := Upper(secret[i]);
      var p := StrChr(upper);
      assert secret[..i + 1][..i] == secret[..i];
      if p.Some? {
        buffer := BitOr((buffer * 32) % UINT32, p.value);
        bitsLeft := bitsLeft + 5;
        if bitsLeft >= 8 {
          result := result + [BitAnd(Shr(buffer, bitsLeft - 8), 0xFF)];
          bitsLeft := bitsLeft - 8;
        }
      }
    }
    assert secret[..|secret|] == secret;
    if NulFree(secret) {
      DecoderFollowsRfc(secret);
    }
  }

  // ---------------------------------------------------------------------------------
  // Section 6 of RFC 4648
  // ---------------------------------------------------------------------------------

  predicate NulFree(s: string) {
    forall i :: 0 <= i < |s| ==> s[i] != '\0'
  }

  /** 5-bit values of the alphabet characters of s, upper or lower case; others are skipped. */
  function Values(s: string): (r: seq<nat>)
    ensures forall i :: 0 <= i < |r| ==> r[i] < 32
  {
    if s == "" then []
    else
      var p := LetterValue(Upper(s[|s| - 1]));
      Values(s[..|s| - 1]) + (if p.Some? then [p.value] else [])
  }

  /** The bit stream that a sequence of w-bit values spells. */
  function Stream(values: seq<nat>, w: nat): seq<bool> {
    if values == [] then [] else BitString(values[0], w) + Stream(values[1..], w)
  }

  /** Cut a bit stream into w-bit values; fewer than w bits at the end are dropped. */
  function Cut(bits: seq<bool>, w: nat): (r: seq<nat>)
    requires w > 0
    ensures forall i :: 0 <= i < |r| ==> r[i] < Pow2(w)
    decreases |bits|
  {
    if |bits| < w then [] else [Value(bits[..w])] + Cut(bits[w..], w)
  }

  function RfcDecode(s: string): seq<nat> {
    Cut(Stream(Values(s), 5), 8)
  }

  lemma {:induction false} StreamAppend(a: seq<nat>, b: seq<nat>, w: nat)
    ensures Stream(a + b, w) == Stream(a, w) + Stream(b, w)
  {
    if a == [] {
      assert a + b == b;
    } else {
      assert (a + b)[0] == a[0] && (a + b)[1..] == a[1..] + b;
      StreamAppend(a[1..], b, w);
    }
  }

  lemma {:induction false} StreamLength(values: seq<nat>, w: nat)
    ensures |Stream(values, w)| == |values| * w
  {
    if values != [] {
      StreamLength(values[1..], w);
    }
  }

  lemma CutStep(head: seq<bool>, tail: seq<bool>, w: nat)
    requires w > 0 && |head| == w
    ensures Cut(head + tail, w) == [Value(head)] + Cut(tail, w)
  {
  }

  /** Cutting a stream of w-bit values gives the values back. */
  lemma {:induction false} CutOfStream(values: seq<nat>, w: nat, extra: seq<bool>)
    requires w > 0 && |extra| < w && forall i :: 0 <= i < |values| ==> values[i] < Pow2(w)
    ensures Cut(Stream(values, w) + extra, w) == values
  {
    if values != [] {
      var head, tail := BitString(values[0], w), Stream(values[1..], w) + extra;
      assert Stream(values, w) + extra == head + tail;
      CutStep(head, tail, w);
      ValueOfBitString(values[0], w);
      CutOfStream(values[1..], w, extra);
    }
  }

  lemma StreamOfMore(head: seq<bool>, values: seq<nat>, w: nat)
    requires |head| == w
    ensures Stream([Value(head)] + values, w) == head + Stream(values, w)
  {
    BitStringOfValue(head);
    StreamAppend([Value(head)], values, w);
    OneValue(Value(head), w);
  }

  /** The stream of the values cut from a bit stream is that bit stream without its remainder. */
  lemma {:induction false} StreamOfCut(bits: seq<bool>, w: nat) returns (rest: seq<bool>)
    requires w > 0
    ensures Stream(Cut(bits, w), w) + rest == bits && |rest| < w
    decreases |bits|
  {
    if |bits| < w {
      rest := bits;
    } else {
      var head, tail := bits[..w], bits[w..];
      rest := StreamOfCut(tail, w);
      StreamOfMore(head, Cut(tail, w), w);
      assert Cut(bits, w) == [Value(head)] + Cut(tail, w);
      assert bits == head + (Stream(Cut(tail, w), w) + rest);
    }
  }

  lemma OneValue(v: nat, w: nat)
    ensures Stream([v], w) == BitString(v, w)
  {
  }

  // ---------------------------------------------------------------------------------
  // The decoder computes it
  // ---------------------------------------------------------------------------------

  /**
    The state of the loop against the bits read so far: the bytes spell all but the last
    few, and the low bitsLeft bits of the buffer, whatever is above them, are the rest.
   */
  ghost predicate Spells(acc: Accumulator, bits: seq<bool>, w: nat) {
    acc.bitsLeft < w && bits == Stream(acc.result, w) + BitString(acc.buffer, acc.bitsLeft)
  }

  lemma WrapAround(buffer: nat)
    ensures (buffer * 32) % UINT32 == (buffer % 0x800_0000) * 32
  {
  }

  lemma ShiftIn(lost: nat, high: nat, v: nat, n: nat, k: nat, m: nat)
    requires v < Pow2(k) && n <= m
    ensures BitString(BitOr(high * Pow2(k), v), n + k) == BitString(lost * Pow2(m) + high, n) + BitString(v, k)
  {
    OrIntoZeros(high, v, k);
    BitStringJoin(high, v, n, k);
    BitStringLow(lost, high, n, m);
  }

  /** The wrap-around of the 32-bit word only loses bits that are already out. */
  lemma ShiftInFive(buffer: nat, n: nat, v: nat)
    requires n < 8 && v < 32
    ensures BitString(BitOr((buffer * 32) % UINT32, v), n + 5) == BitString(buffer, n) + BitString(v, 5)
  {
    WrapAround(buffer);
    PowersOfTwo();
    ShiftIn(buffer / 0x800_0000, buffer % 0x800_0000, v, n, 5, 27);
  }

  lemma AppendOctet(bytes: seq<nat>, v: nat, w: nat, low: seq<bool>)
    ensures Stream(bytes + [v], w) + low == Stream(bytes, w) + (BitString(v, w) + low)
  {
    StreamAppend(bytes, [v], w);
    OneValue(v, w);
  }

  lemma ShiftOutValue(bytes: seq<nat>, buffer: nat, n: nat, w: nat, v: nat)
    requires BitString(v, w) == BitString(Shr(buffer, n), w)
    ensures Stream(bytes + [v], w) + BitString(buffer, n) == Stream(bytes, w) + BitString(buffer, w + n)
  {
    AppendOctet(bytes, v, w, BitString(buffer, n));
    BitStringSplit(buffer, w, n);
  }

  lemma ShiftOut(bytes: seq<nat>, buffer: nat, n: nat, w: nat)
    ensures Stream(bytes + [BitAnd(Shr(buffer, n), Pow2(w) - 1)], w) + BitString(buffer, n)
            == Stream(bytes, w) + BitString(buffer, w + n)
  {
    var v := BitAnd(Shr(buffer, n), Pow2(w) - 1);
    MaskKeepsBits(Shr(buffer, n), w);
    ShiftOutValue(bytes, buffer, n, w, v);
  }

  lemma AbsorbSpells(acc: Accumulator, bits: seq<bool>, c: char, v: nat)
    requires Spells(acc, bits, 8) && StrChr(Upper(c)) == Some(v) && v < 32
    ensures Spells(Absorb(acc, c), bits + BitString(v, 5), 8)
  {
    var buffer := BitOr((acc.buffer * 32) % UINT32, v);
    ShiftInFive(acc.buffer, acc.bitsLeft, v);
    if acc.bitsLeft + 5 >= 8 {
      assert Pow2(8) == 256 by { PowersOfTwo(); }
      ShiftOut(acc.result, buffer, acc.bitsLeft - 3, 8);
    }
  }

  lemma ValuesSnoc(s: string, c: char)
    ensures var p := LetterValue(Upper(c));
            Values(s + [c]) == Values(s) + (if p.Some? then [p.value] else [])
  {
  }

  lemma EmptySpells()
    ensures Spells(Accumulator(0, 0, []), Stream([], 5), 8)
  {
  }

  lemma {:induction false} AbsorbAllSpells(s: string)
    requires NulFree(s)
    ensures Spells(AbsorbAll(s), Stream(Values(s), 5), 8)
  {
    hide Stream, BitString;
    if s == "" {
      EmptySpells();
    } else {
      var front, c := s[..|s| - 1], s[|s| - 1];
      AbsorbAllSpells(front);
      var p := LetterValue(Upper(c));
      assert s == front + [c] && Upper(c) != '\0';
      ValuesSnoc(front, c);
      if p.Some? {
        AbsorbSpells(AbsorbAll(front), Stream(Values(front), 5), c, p.value);
        StreamAppend(Values(front), [p.value], 5);
        OneValue(p.value, 5);
      } else {
        assert Values(front) + [] == Values(front);
      }
    }
  }

  /** For every NUL-free string the decoder's output is that of section 6 of RFC 4648. */
  lemma DecoderFollowsRfc(s: string)
    requires NulFree(s)
    ensures AbsorbAll(s).result == RfcDecode(s)
  {
    var acc := AbsorbAll(s);
    AbsorbAllSpells(s);
    assert Pow2(8) == 256 by { PowersOfTwo(); }
    CutOfStream(acc.result, 8, BitString(acc.buffer, acc.bitsLeft));
  }

  // ---------------------------------------------------------------------------------
  // Characters outside the alphabet
  // ---------------------------------------------------------------------------------

  /** Table 3 of RFC 4648, in either case; nothing else but NUL has a value for the decoder. */
  lemma TableOfLetters(c: char)
    ensures 'A' <= c <= 'Z' ==> StrChr(Upper(c)) == Some(c as int - 'A' as int)
    ensures 'a' <= c <= 'z' ==> StrChr(Upper(c)) == Some(c as int - 'a' as int)
    ensures '2' <= c <= '7' ==> StrChr(Upper(c)) == Some(c as int - '2' as int + 26)
    ensures !('A' <= c <= 'Z' || 'a' <= c <= 'z' || '2' <= c <= '7' || c == '\0') <==> StrChr(Upper(c)) == None
  {
  }

  predicate Foreign(c: char) {
    LetterValue(Upper(c)).None?
  }

  lemma ForeignIsSkipped(acc: Accumulator, c: char)
    requires Foreign(c) && c != '\0'
    ensures Absorb(acc, c) == acc
  {
  }

  lemma {:induction false} AbsorbAllSkips(s: string, c: char, t: string)
    requires Foreign(c) && c != '\0'
    ensures AbsorbAll(s + [c] + t) == AbsorbAll(s + t)
    decreases |t|
  {
    hide Absorb, Foreign;
    if t == "" {
      assert s + [c] + t == s + [c] && (s + [c])[..|s|] == s && s + t == s;
      ForeignIsSkipped(AbsorbAll(s), c);
    } else {
      var n := |t| - 1;
      AbsorbAllSkips(s, c, t[..n]);
      assert (s + [c] + t)[..|s + [c] + t| - 1] == s + [c] + t[..n];
      assert (s + t)[..|s + t| - 1] == s + t[..n];
    }
  }

  lemma NulIsNotSkipped()
    ensures AbsorbAll("A\0").result != AbsorbAll("A").result
  {
  }

  /**
    A character outside the alphabet is skipped wherever it stands if and only if it is
    not NUL, which strchr finds at the end of the alphabet string.
   */
  lemma ForeignSkippedIffNotNul(c: char)
    requires Foreign(c)
    ensures (forall s, t :: AbsorbAll(s + [c] + t).result == AbsorbAll(s + t).result) <==> c != '\0'
  {
    if c != '\0' {
      forall s, t ensures AbsorbAll(s + [c] + t).result == AbsorbAll(s + t).result {
        AbsorbAllSkips(s, c, t);
      }
    } else {
      NulIsNotSkipped();
      assert "A" + [c] + "" == "A\0" && "A" + "" == "A";
      assert AbsorbAll("A" + [c] + "").result != AbsorbAll("A" + "").result;
    }
  }

  // ---------------------------------------------------------------------------------
  // Encoding, and back
  // ---------------------------------------------------------------------------------

  /** Zero bits that fill the last group of w bits. */
  function Fill(n: nat, w: nat): nat
    requires w > 0
  {
    if n % w == 0 then 0 else w - n % w
  }

  /** The RFC 4648 encoding: 5-bit groups, the last one filled with zeros; no `=` padding yet. */
  function RfcEncode(key: seq<Byte>): string {
    var bits := Stream(key, 8);
    assert Pow2(5) == 32;
    Letters(Cut(bits + Zeros(Fill(|bits|, 5)), 5))
  }

  function Letters(values: seq<nat>): (r: string)
    requires forall i :: 0 <= i < |values| ==> values[i] < 32
    ensures |r| == |values| && forall i :: 0 <= i < |r| ==> r[i] == Letter(values[i])
  {
    seq(|values|, i requires 0 <= i < |values| => Letter(values[i]))
  }

  /** What is left of s after dropping foreign characters and raising letters to upper case. */
  function Significant(s: string): string {
    if s == "" then ""
    else Significant(s[..|s| - 1]) + (if Foreign(s[|s| - 1]) then "" else [Upper(s[|s| - 1])])
  }

  lemma {:induction false} ValuesOfSignificant(s: string)
    ensures Values(s) == Values(Significant(s))
  {
    if s != "" {
      var front, c := s[..|s| - 1], s[|s| - 1];
      ValuesOfSignificant(front);
      assert s == front + [c];
      ValuesSnoc(front, c);
      if !Foreign(c) {
        ValuesSnoc(Significant(front), Upper(c));
        assert Upper(Upper(c)) == Upper(c);
      } else {
        assert Values(front) + [] == Values(front) && Significant(front) + "" == Significant(front);
      }
    }
  }

  lemma ValueOfLetter(v: nat)
    requires v < 32
    ensures LetterValue(Letter(v)) == Some(v) && Upper(Letter(v)) == Letter(v)
  {
  }

  lemma LettersSnoc(values: seq<nat>, v: nat)
    requires v < 32 && forall i :: 0 <= i < |values| ==> values[i] < 32
    ensures Letters(values + [v]) == Letters(values) + [Letter(v)]
  {
  }

  lemma {:induction false} ValuesOfLetters(values: seq<nat>)
    requires forall i :: 0 <= i < |values| ==> values[i] < 32
    ensures Values(Letters(values)) == values
  {
    if values != [] {
      hide LetterValue, Letter, Upper, Letters;
      var front, last := values[..|values| - 1], values[|values| - 1];
      ValuesOfLetters(front);
      LettersSnoc(front, last);
      assert values == front + [last];
      ValuesSnoc(Letters(front), Letter(last));
      ValueOfLetter(last);
    }
  }

  lemma SmallMultiple(d: int, w: nat, r: nat)
    requires d * w == r < w
    ensures r == 0
  {
  }

  lemma Distribute(k: int, q: int, w: int)
    ensures (k - q) * w == k * w - q * w
  {
  }

  lemma FillCompletes(n: nat, w: nat, q: nat, r: nat)
    requires w > 0 && n + Fill(n, w) == q * w + r && r < w
    ensures r == 0
  {
    var k := n / w + if n % w == 0 then 0 else 1;
    assert n + Fill(n, w) == k * w by {
      assert n == (n / w) * w + n % w;
    }
    Distribute(k, q, w);
    SmallMultiple(k - q, w, r);
  }

  /** The groups of the encoding spell the key's bits and the fill. */
  lemma StreamOfEncoding(bits: seq<bool>, w: nat)
    requires w > 0
    ensures Stream(Cut(bits + Zeros(Fill(|bits|, w)), w), w) == bits + Zeros(Fill(|bits|, w))
  {
    var all := bits + Zeros(Fill(|bits|, w));
    var rest := StreamOfCut(all, w);
    StreamLength(Cut(all, w), w);
    FillCompletes(|bits|, w, |Cut(all, w)|, |rest|);
  }

  /**
    Decoding undoes the RFC 4648 encoding of any key, also when letters are written in lower
    case and when `=` padding or any other foreign characters are strewn in.
   */
  lemma {:induction false} RoundTrip(key: seq<Byte>, s: string)
    requires NulFree(s) && Significant(s) == RfcEncode(key)
    ensures AbsorbAll(s).result == key
  {
    assert Pow2(5) == 32 && Pow2(8) == 256 by { PowersOfTwo(); }
    var bits := Stream(key, 8);
    DecoderFollowsRfc(s);
    ValuesOfSignificant(s);
    ValuesOfLetters(Cut(bits + Zeros(Fill(|bits|, 5)), 5));
    StreamOfEncoding(bits, 5);
    CutOfStream(key, 8, Zeros(Fill(|bits|, 5)));
  }

  // ---------------------------------------------------------------------------------
  // Generated secrets
  // ---------------------------------------------------------------------------------

  predicate IsSecret(s: string) {
    |s| == 32 && forall i :: 0 <= i < |s| ==> LetterValue(s[i]).Some?
  }

  lemma LetterAt(v: nat)
    requires v < 32
    ensures |B32_CHARS| == 32 && B32_CHARS[v] == Letter(v)
  {
  }

  /** `random` holds the results of randombytes_uniform(32). */
  method GenerateSecret(sodiumReady: bool, random: seq<nat>) returns (secret: string)
    requires |random| == 32 && forall i :: 0 <= i < 32 ==> random[i] < 32
    ensures !sodiumReady ==> secret == ""
    ensures sodiumReady ==> IsSecret(secret) && Values(secret) == random
  {
    if !sodiumReady {
      return "";
    }
    secret := "";
    for i := 0 to 32
      invariant secret == Letters(random[..i])
    {
      LetterAt(random[i]);
      secret := secret + [B32_CHARS[random[i]]];
    }
    assert random[..32] == random;
    ValuesOfLetters(random);
  }

  lemma {:induction false} LettersOfValues(s: string)
    requires forall i :: 0 <= i < |s| ==> LetterValue(s[i]).Some?
    ensures Letters(Values(s)) == s && |Values(s)| == |s|
  {
    if s != "" {
      LettersOfValues(s[..|s| - 1]);
    }
  }

  lemma {:induction false} SignificantOfLetters(values: seq<nat>)
    requires forall i :: 0 <= i < |values| ==> values[i] < 32
    ensures Significant(Letters(values)) == Letters(values)
  {
    if values != [] {
      var front, last := values[..|values| - 1], values[|values| - 1];
      SignificantOfLetters(front);
      assert Letters(values) == Letters(front) + [Letter(last)];
      assert Letters(values)[..|values| - 1] == Letters(front);
      assert Upper(Letter(last)) == Letter(last) && LetterValue(Letter(last)) == Some(last);
    }
  }

  /** Values of v bits that fill m values of w bits are regrouped without a remainder. */
  lemma Regroup(values: seq<nat>, v: nat, w: nat, m: nat)
    requires w > 0 && |values| * v == m * w
    ensures var cut := Cut(Stream(values, v), w);
            |cut| == m && Stream(cut, w) == Stream(values, v)
  {
    var bits := Stream(values, v);
    var rest := StreamOfCut(bits, w);
    StreamLength(values, v);
    StreamLength(Cut(bits, w), w);
    Distribute(m, |Cut(bits, w)|, w);
    SmallMultiple(m - |Cut(bits, w)|, w, |rest|);
    SameMultiple(m, |Cut(bits, w)|, w);
    assert Stream(Cut(bits, w), w) + [] == Stream(Cut(bits, w), w);
  }

  lemma SameMultiple(m: nat, n: nat, w: nat)
    requires w > 0 && m * w == n * w
    ensures m == n
  {
  }

  /** A key that fills whole groups is encoded without fill. */
  lemma EncodeWhole(key: seq<Byte>)
    requires |key| % 5 == 0
    ensures RfcEncode(key) == Letters(Cut(Stream(key, 8), 5))
  {
    hide Stream, Cut, Letters;
    var bits := Stream(key, 8);
    StreamLength(key, 8);
    WholeGroups(|key|);
    assert bits + Zeros(0) == bits;
  }

  lemma WholeGroups(n: nat)
    requires n % 5 == 0
    ensures Fill(n * 8, 5) == 0
  {
  }

  /** Every 32-letter secret decodes to a 20-byte key from which it is encoded. */
  lemma SecretDecodesToKey(s: string)
    requires IsSecret(s)
    ensures |AbsorbAll(s).result| == 20 && RfcEncode(AbsorbAll(s).result) == s
  {
    var values := Values(s);
    DecoderFollowsRfc(s);
    LettersOfValues(s);
    Regroup(values, 5, 8, 20);
    EncodeWhole(AbsorbAll(s).result);
    assert Pow2(5) == 32 by { PowersOfTwo(); }
    CutOfStream(values, 5, []);
    assert Stream(values, 5) + [] == Stream(values, 5);
  }

  /** Every 20-byte key is encoded as a 32-letter secret that decodes to it. */
  lemma {:induction false} KeyEncodesAsSecret(key: seq<Byte>)
    requires |key| == 20
    ensures IsSecret(RfcEncode(key)) && AbsorbAll(RfcEncode(key)).result == key
  {
    assert Pow2(5) == 32 by { PowersOfTwo(); }
    EncodeWhole(key);
    Regroup(key, 8, 5, 32);
    LettersMakeSecret(Cut(Stream(key, 8), 5));
    RoundTrip(key, RfcEncode(key));
  }

  lemma LettersMakeSecret(values: seq<nat>)
    requires |values| == 32 && forall i :: 0 <= i < |values| ==> values[i] < 32
    ensures IsSecret(Letters(values)) && NulFree(Letters(values)) && Significant(Letters(values)) == Letters(values)
  {
    SignificantOfLetters(values);
  }
}
