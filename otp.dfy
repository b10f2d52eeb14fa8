/** One-time codes for e-mail verification (backEnd/src/utils/OTPGenrate.js). */
module Otp {
  import opened Text

  const DIGITS: string := "0123456789"

  /** A code lives for ten minutes. */
  const OTP_TTL: nat := 10 * 60 * 1000

  /** A value of `Math.floor(Math.random() * 10)`. */
  type Digit = d: int | 0 <= d < 10

  lemma DigitsAreDigits(d: Digit)
    ensures IsDigit(DIGITS[d])
  {
  }

  /** `generateOTP(length)`: `draw(i)` is the random digit drawn on round i and
      `now` is `Date.now()`. */
  method GenerateOtp(length: int, now: nat, draw: nat -> Digit) returns (otp: string, expire: nat)
    ensures |otp| == (if length > 0 then length else 0)
    ensures forall i :: 0 <= i < |otp| ==> otp[i] == DIGITS[draw(i)] && IsDigit(otp[i])
    ensures expire == now + OTP_TTL
  {
    otp := "";
    var i := 0;
    while i < length
      invariant 0 <= i <= (if length > 0 then length else 0)
      invariant |otp| == i
      invariant forall k :: 0 <= k < i ==> otp[k] == DIGITS[draw(k)] && IsDigit(otp[k])
    {
      DigitsAreDigits(draw(i));
      otp := otp + [DIGITS[draw(i)]];
      i := i + 1;
    }
    expire := now + OTP_TTL;
  }
}
