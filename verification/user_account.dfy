/**
 * The account side of a user row: the one-time code (OTP) that verifies an
 * email address and authorises a password reset, and the transitions the
 * account handlers apply to a user.  A code is four decimal digits, lives
 * for one minute, and is cleared once it has been used.
 */
module UserAccount {
  import opened Common
  import opened Store

  /** How long an issued code stays valid, in milliseconds (one minute). */
  const OtpLifetimeMs: int := 60000

  // ---------------------------------------------------------------------
  // Decimal text of a natural number (`Number.prototype.toString()`)
  // ---------------------------------------------------------------------

  predicate IsDigit(c: char) {
    '0' <= c <= '9'
  }

  predicate AllDigits(s: string) {
    forall i :: 0 <= i < |s| ==> IsDigit(s[i])
  }

  function DigitChar(d: nat): (c: char)
    requires d < 10
    ensures IsDigit(c) && (c as int) - ('0' as int) == d
  {
    (('0' as int) + d) as char
  }

  /** The decimal text of `n`: no sign, no leading zero unless `n` is 0. */
  function DecimalString(n: nat): (s: string)
    ensures |s| >= 1 && AllDigits(s)
    ensures s[0] == '0' ==> n == 0
    decreases n
  {
    if n < 10 then [DigitChar(n)] else DecimalString(n / 10) + [DigitChar(n % 10)]
  }

  /** The number a string of digits denotes. */
  function DecimalValue(s: string): nat
    requires AllDigits(s)
  {
    if s == [] then 0 else DecimalValue(s[..|s| - 1]) * 10 + ((s[|s| - 1] as int) - ('0' as int))
  }

  /** Reading back the text of a number gives the number. */
  lemma {:induction false} DecimalRoundTrip(n: nat)
    ensures DecimalValue(DecimalString(n)) == n
    decreases n
  {
    if n >= 10 {
      var s := DecimalString(n);
      assert s[..|s| - 1] == DecimalString(n / 10);
      DecimalRoundTrip(n / 10);
    }
  }

  /** Distinct numbers have distinct texts. */
  lemma DecimalInjective(a: nat, b: nat)
    requires DecimalString(a) == DecimalString(b)
    ensures a == b
  {
    DecimalRoundTrip(a);
    DecimalRoundTrip(b);
  }

  /** Numbers from 1000 to 9999 print as exactly four digits. */
  lemma FourDigitText(n: nat)
    requires 1000 <= n <= 9999
    ensures |DecimalString(n)| == 4
  {
    assert DecimalString(n) == DecimalString(n / 10) + [DigitChar(n % 10)];
    assert DecimalString(n / 10) == DecimalString(n / 100) + [DigitChar(n / 10 % 10)];
    assert DecimalString(n / 100) == DecimalString(n / 1000) + [DigitChar(n / 100 % 10)];
  }

  // ---------------------------------------------------------------------
  // The code itself: `Math.floor(1000 + Math.random() * 9000).toString()`
  // ---------------------------------------------------------------------

  /** The number behind a code, from a draw of `Math.random()` in [0, 1). */
  function OtpNumber(random: real): (n: int)
    requires 0.0 <= random < 1.0
    ensures 1000 <= n <= 9999
  {
    (1000.0 + random * 9000.0).Floor
  }

  /** The code for a random draw: four digits denoting a number in 1000..9999. */
  function OtpCode(random: real): (code: string)
    requires 0.0 <= random < 1.0
    ensures |code| == 4 && AllDigits(code)
    ensures 1000 <= DecimalValue(code) <= 9999
  {
    var n := OtpNumber(random);
    FourDigitText(n);
    DecimalRoundTrip(n);
    DecimalString(n)
  }

  /** Every number from 1000 to 9999 is the code of some draw. */
  lemma OtpCodeCovers(n: nat) returns (random: real)
    requires 1000 <= n <= 9999
    ensures 0.0 <= random < 1.0
    ensures OtpCode(random) == DecimalString(n)
  {
    random := (n - 1000) as real / 9000.0;
    assert 1000.0 + random * 9000.0 == n as real;
  }

  // ---------------------------------------------------------------------
  // Transitions of one user row
  // ---------------------------------------------------------------------

  /** Stores a new code that expires one minute after `now`; the previous code is lost. */
  function IssueCode(u: User, code: string, now: int): (r: User)
    ensures r.resetCode == Some(code) && r.resetCodeExpiresAt == Some(now + OtpLifetimeMs)
    ensures r.(resetCode := u.resetCode, resetCodeExpiresAt := u.resetCodeExpiresAt) == u
  {
    u.(resetCode := Some(code), resetCodeExpiresAt := Some(now + OtpLifetimeMs))
  }

  /**
   * The code check of verifyOtp: the stored code equals the submitted one, an
   * expiry is stored, and `now` is not past it.
   */
  predicate OtpAccepted(u: User, otp: string, now: int) {
    u.resetCode == Some(otp) && u.resetCodeExpiresAt.Some? && !(now > u.resetCodeExpiresAt.value)
  }

  /** A successful verifyOtp: the code is consumed and the email counts as verified. */
  function MarkVerified(u: User): (r: User)
    ensures r.emailVerified && r.resetCode.None? && r.resetCodeExpiresAt.None?
    ensures r.(emailVerified := u.emailVerified, resetCode := u.resetCode, resetCodeExpiresAt := u.resetCodeExpiresAt) == u
  {
    u.(resetCode := None, resetCodeExpiresAt := None, emailVerified := true)
  }

  /** A successful resetPassword: the new hash is stored and any code is cleared. */
  function SetPassword(u: User, hash: string): (r: User)
    ensures r.password == hash && r.resetCode.None? && r.resetCodeExpiresAt.None?
    ensures r.(password := u.password, resetCode := u.resetCode, resetCodeExpiresAt := u.resetCodeExpiresAt) == u
  {
    u.(password := hash, resetCode := None, resetCodeExpiresAt := None)
  }

  /** A freshly issued code is accepted exactly when it is the submitted one and a minute has not passed. */
  lemma CodeLivesOneMinute(u: User, code: string, issuedAt: int, otp: string, now: int)
    ensures OtpAccepted(IssueCode(u, code, issuedAt), otp, now) <==> (otp == code && now <= issuedAt + 60000)
  {
  }

  /** Issuing a new code invalidates every other code, the previous one included. */
  lemma ReissueInvalidatesOld(u: User, code: string, issuedAt: int, otp: string, now: int)
    requires otp != code
    ensures !OtpAccepted(IssueCode(u, code, issuedAt), otp, now)
  {
  }

  /** A code works once: after verification or a password reset no code is accepted. */
  lemma CodeIsSingleUse(u: User, hash: string, otp: string, now: int)
    ensures !OtpAccepted(MarkVerified(u), otp, now)
    ensures !OtpAccepted(SetPassword(u, hash), otp, now)
  {
  }
}
