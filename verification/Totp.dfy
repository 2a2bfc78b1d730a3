/**
  Time-based codes: TotpUtils::getCurrentTimeStep and TotpUtils::validateCode of
  src/utils/totp_utils.cpp against sections 4.2 and 5.2 of RFC 6238.
 */
module Totp {
  import opened Base32
  import opened Bits
  import opened Clock
  import opened Hotp

  /** The time step of a system clock reading, in ticks since the epoch. */
  function CurrentTimeStep(now: int): int {
    TruncDiv(WholeSeconds(now), 30)
  }

  /** The key that a secret stands for. */
  function KeyOf(secret: string): seq<Byte> {
    AbsorbAll(secret).result
  }

  /** For every NUL-free secret that is its decoding by RFC 4648. */
  lemma KeyIsDecoded(secret: string)
    requires NulFree(secret)
    ensures KeyOf(secret) == RfcDecode(secret)
  {
    DecoderFollowsRfc(secret);
  }

  /** So it is the key of which the secret is an encoding, in either case and with anything strewn in. */
  lemma KeyIsEncoded(secret: string, key: seq<Byte>)
    requires NulFree(secret) && Significant(secret) == RfcEncode(key)
    ensures RfcDecode(secret) == key
  {
    RoundTrip(key, secret);
    DecoderFollowsRfc(secret);
  }

  /** One of the codes of the previous, the current and the next step is the given one. */
  ghost predicate Accepts(mac: Mac, secret: string, code: string, now: int) {
    && secret != "" && |code| == 6
    && exists step: int :: CurrentTimeStep(now) - 1 <= step <= CurrentTimeStep(now) + 1 &&
        Code(mac, KeyOf(secret), step) == code
  }

  lemma TimeStepInRange(now: int)
    requires INT64_MIN <= now <= INT64_MAX
    ensures INT64_MIN < CurrentTimeStep(now) < INT64_MAX
  {
  }

  /**
    The code is six characters long and the HOTP value of the secret's key for the present step
    or a neighbour; for an encoded key, of that key.
   */
  method ValidateCode(mac: Mac, secret: string, code: string, now: int) returns (accepted: bool)
    requires IsHmacSha1(mac) && INT64_MIN <= now <= INT64_MAX
    ensures accepted <==> Accepts(mac, secret, code, now)
    ensures NulFree(secret) ==>
      (accepted <==>
       && secret != "" && |code| == 6
       && exists step: int :: -1 <= step - CurrentTimeStep(now) <= 1 && Code(mac, RfcDecode(secret), step) == code)
    ensures forall key: seq<Byte> :: secret != "" && NulFree(secret) && Significant(secret) == RfcEncode(key) ==>
      (accepted <==>
       |code| == 6 && exists step: int :: -1 <= step - CurrentTimeStep(now) <= 1 && Code(mac, key, step) == code)
  {
    hide Code, AbsorbAll, RfcDecode, RfcEncode, Significant, NulFree, CurrentTimeStep;
    if NulFree(secret) {
      KeyIsDecoded(secret);
      forall key: seq<Byte> | Significant(secret) == RfcEncode(key) ensures RfcDecode(secret) == key {
        KeyIsEncoded(secret, key);
      }
    }
    if secret == "" || |code| != 6 {
      return false;
    }
    var keyBytes := Base32Decode(secret);
    accepted := MatchesWindow(mac, keyBytes, code, now);
    assert keyBytes == KeyOf(secret);
  }

  /** The loop over the three steps. */
  method MatchesWindow(mac: Mac, keyBytes: seq<Byte>, code: string, now: int) returns (found: bool)
    requires IsHmacSha1(mac) && INT64_MIN <= now <= INT64_MAX
    ensures found <==> exists step: int :: -1 <= step - CurrentTimeStep(now) <= 1 && Code(mac, keyBytes, step) == code
  {
    hide Code, CurrentTimeStep;
    var currentStep := CurrentTimeStep(now);
    TimeStepInRange(now);
    for i := -1 to 2
      invariant forall step: int :: currentStep - 1 <= step < currentStep + i ==> Code(mac, keyBytes, step) != code
    {
      var generated := GenerateCodeForStep(mac, keyBytes, currentStep + i);
      if generated == code {
        assert Code(mac, keyBytes, currentStep + i) == code;
        return true;
      }
    }
    return false;
  }

  /** From the epoch on, the time step counts whole half minutes. */
  lemma TimeStepIsFloor(now: int)
    requires now >= 0
    ensures CurrentTimeStep(now) * 30 * SECOND <= now < (CurrentTimeStep(now) + 1) * 30 * SECOND
    ensures CurrentTimeStep(now) == now / 30_000_000_000
  {
  }

  /** Before it the divisions truncate toward zero. */
  lemma TimeStepTruncates(now: int)
    requires now <= 0
    ensures CurrentTimeStep(now) == -(-now / 30_000_000_000)
  {
  }

  /**
    Section 5.2 of RFC 6238: a code generated successfully at one time is accepted at every
    time at most 30 seconds before or after.
   */
  lemma CodeIsAcceptedInWindow(mac: Mac, secret: string, generatedAt: int, checkedAt: int)
    requires IsHmacSha1(mac) && secret != "" && generatedAt >= 0 && checkedAt >= 0
    requires -30 * SECOND <= checkedAt - generatedAt <= 30 * SECOND
    requires mac(KeyOf(secret), BigEndian(CurrentTimeStep(generatedAt), 8)).Some?
    ensures Accepts(mac, secret, Code(mac, KeyOf(secret), CurrentTimeStep(generatedAt)), checkedAt)
  {
    hide BigEndian, Code;
    TimeStepIsFloor(generatedAt);
    TimeStepIsFloor(checkedAt);
    CodeIsHotp(mac, KeyOf(secret), CurrentTimeStep(generatedAt));
  }

  /**
    Only the HOTP values of the step of the check and its two neighbours are accepted, and
    only from an HMAC that succeeded.
   */
  lemma {:induction false} AcceptedCodeIsHotp(mac: Mac, secret: string, code: string, now: int) returns (step: int)
    requires IsHmacSha1(mac) && now >= 0 && Accepts(mac, secret, code, now)
    ensures now / (30 * SECOND) - 1 <= step <= now / (30 * SECOND) + 1
    ensures var hash := mac(KeyOf(secret), BigEndian(step, 8));
            && hash.Some? && IsDigits(code)
            && Parse(code) == Truncate(hash.value) % 1_000_000
  {
    hide BigEndian, Code;
    step :| CurrentTimeStep(now) - 1 <= step <= CurrentTimeStep(now) + 1 && Code(mac, KeyOf(secret), step) == code;
    TimeStepIsFloor(now);
    CodeIsHotp(mac, KeyOf(secret), step);
  }

  /** When the three HMACs of the window fail nothing is accepted. */
  lemma FailedHmacAcceptsNothing(mac: Mac, secret: string, code: string, now: int)
    requires forall step: int :: CurrentTimeStep(now) - 1 <= step <= CurrentTimeStep(now) + 1 ==>
               mac(KeyOf(secret), BigEndian(step, 8)).None?
    ensures !Accepts(mac, secret, code, now)
  {
  }

  /**
    The window is exactly one step to either side: if the codes of the steps concerned are
    different, a code is accepted if and only if the steps are at most one apart.
   */
  lemma AcceptedIffNeighbours(mac: Mac, secret: string, generatedAt: int, checkedAt: int)
    requires IsHmacSha1(mac) && secret != ""
    requires mac(KeyOf(secret), BigEndian(CurrentTimeStep(generatedAt), 8)).Some?
    requires forall step: int ::
               CurrentTimeStep(checkedAt) - 1 <= step <= CurrentTimeStep(checkedAt) + 1 &&
                   step != CurrentTimeStep(generatedAt) ==>
               Code(mac, KeyOf(secret), step) != Code(mac, KeyOf(secret), CurrentTimeStep(generatedAt))
    ensures Accepts(mac, secret, Code(mac, KeyOf(secret), CurrentTimeStep(generatedAt)), checkedAt)
            <==> -1 <= CurrentTimeStep(generatedAt) - CurrentTimeStep(checkedAt) <= 1
  {
    hide BigEndian, Code, CurrentTimeStep;
    CodeIsHotp(mac, KeyOf(secret), CurrentTimeStep(generatedAt));
  }
}
