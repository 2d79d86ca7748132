/**
 * The one-time-password table: codes issued per email address and checked
 * once. Time is in seconds; `LocalDateTime.now()` is the parameter `now`, and
 * the value `Random.nextInt(999999)` draws is the parameter `draw`.
 */
module OtpService {
  import opened Wrappers

  /** An OTP record, keyed by email. */
  datatype Otp = Otp(email: string, otpCode: string, expirationTime: int)

  /** The bound passed to `Random.nextInt`: codes are drawn from 0 .. 999998. */
  const OtpBound := 999999
  /** Two minutes. */
  const OtpValidity := 120
  const CodeWidth := 6

  function Digit(d: nat): (c: char)
    requires d < 10
    ensures '0' <= c <= '9'
  {
    ('0' as int + d) as char
  }

  predicate IsDigits(s: string) {
    forall i :: 0 <= i < |s| ==> '0' <= s[i] <= '9'
  }

  /** The last `width` decimal digits of `n`, most significant first, zero-padded. */
  function DecimalDigits(n: nat, width: nat): (s: string)
    ensures |s| == width && IsDigits(s)
  {
    if width == 0 then "" else DecimalDigits(n / 10, width - 1) + [Digit(n % 10)]
  }

  /** The number a string of decimal digits denotes. */
  function DigitsValue(s: string): nat
    requires IsDigits(s)
  {
    if s == [] then 0 else DigitsValue(s[..|s| - 1]) * 10 + (s[|s| - 1] as int - '0' as int)
  }

  function Pow10(k: nat): (p: nat)
    ensures p >= 1
  {
    if k == 0 then 1 else 10 * Pow10(k - 1)
  }

  lemma {:induction false} DecimalDigitsValue(n: nat, width: nat)
    requires n < Pow10(width)
    ensures DigitsValue(DecimalDigits(n, width)) == n
  {
    if width > 0 {
      DecimalDigitsValue(n / 10, width - 1);
      var s := DecimalDigits(n, width);
      assert s[..|s| - 1] == DecimalDigits(n / 10, width - 1);
    }
  }

  /** `String.format("%06d", n)` for a value below 10^6. */
  function FormatCode(n: nat): string
    requires n < OtpBound
  {
    DecimalDigits(n, CodeWidth)
  }

  /** An issued code is six decimal digits that spell the drawn value, zero-padded. */
  lemma FormatCodeShape(n: nat)
    requires n < OtpBound
    ensures |FormatCode(n)| == CodeWidth && IsDigits(FormatCode(n))
    ensures DigitsValue(FormatCode(n)) == n
  {
    assert Pow10(CodeWidth) == 1000000;
    DecimalDigitsValue(n, CodeWidth);
  }

  /** Distinct draws give distinct codes. */
  lemma FormatCodeInjective(m: nat, n: nat)
    requires m < OtpBound && n < OtpBound && FormatCode(m) == FormatCode(n)
    ensures m == n
  {
    FormatCodeShape(m);
    FormatCodeShape(n);
  }

  /** The record `generateAndSendOtp` saves for a draw at a given time. */
  function IssuedOtp(email: string, draw: nat, now: int): (o: Otp)
    ensures o.email == email && o.expirationTime == now + OtpValidity
    ensures |o.otpCode| == CodeWidth && IsDigits(o.otpCode) && DigitsValue(o.otpCode) == draw % OtpBound
  {
    FormatCodeShape(draw % OtpBound);
    Otp(email, FormatCode(draw % OtpBound), now + OtpValidity)
  }

  /** What `verifyOtp` returns, or the exception it ends with. */
  function VerifyOutcome(otps: map<string, Otp>, email: string, otp: string, now: int): (r: Result<bool>)
    ensures r.Success? ==> r.value
  {
    if email !in otps then Failure(NoSuchElement)
    else if otps[email].expirationTime < now then Failure(IllegalArgument)
    else if otps[email].otpCode != otp then Failure(IllegalArgument)
    else Success(true)
  }

  /** The table after the statements of `verifyOtp` run: an expired or a matching OTP is deleted. */
  function TableAfterVerify(otps: map<string, Otp>, email: string, otp: string, now: int): map<string, Otp> {
    if email !in otps then otps
    else if otps[email].expirationTime < now then otps - {email}
    else if otps[email].otpCode != otp then otps
    else otps - {email}
  }

  /**
   * The table once the `@Transactional` call has ended: an exception rolls the
   * statements back, so only a successful check removes the OTP.
   */
  function CommittedAfterVerify(otps: map<string, Otp>, email: string, otp: string, now: int): (after: map<string, Otp>)
    ensures VerifyOutcome(otps, email, otp, now).Success? ==> after == otps - {email}
    ensures VerifyOutcome(otps, email, otp, now).Failure? ==> after == otps
  {
    if VerifyOutcome(otps, email, otp, now).Success? then TableAfterVerify(otps, email, otp, now) else otps
  }

  /** The OTP table of the repository. */
  class OtpRepository {
    var otps: map<string, Otp>

    /** Each record is stored under its own email, the entity's id. */
    predicate Valid()
      reads this
    {
      forall e :: e in otps ==> otps[e].email == e
    }

    constructor ()
      ensures Valid() && otps == map[]
    {
      otps := map[];
    }

    /** `otpRepository.save`: insert, or replace the record with the same email. */
    method Save(o: Otp)
      requires Valid()
      modifies this
      ensures Valid()
      ensures otps == old(otps)[o.email := o]
    {
      otps := otps[o.email := o];
    }

    /** `otpRepository.delete`. */
    method Delete(o: Otp)
      requires Valid()
      modifies this
      ensures Valid()
      ensures otps == old(otps) - {o.email}
    {
      otps := otps - {o.email};
    }

    /** `otpRepository.findById`. */
    method FindById(email: string) returns (r: Option<Otp>)
      ensures r.Some? <==> email in otps
      ensures r.Some? ==> r.value == otps[email]
    {
      r := if email in otps then Some(otps[email]) else None;
    }
  }

  /**
   * `generateAndSendOtp`: store a fresh code valid for two minutes, then mail it.
   * `delivered` says whether SendGrid answered with a 2xx status; otherwise (a
   * failed status or an IOException) a RuntimeException ends the transaction
   * and the save is rolled back.
   */
  method GenerateAndSendOtp(repo: OtpRepository, email: string, draw: nat, now: int, delivered: bool)
    returns (r: Result<()>)
    requires repo.Valid()
    modifies repo
    ensures repo.Valid()
    ensures r == (if delivered then Success(()) else Failure(Runtime))
    ensures repo.otps == if delivered then old(repo.otps)[email := IssuedOtp(email, draw, now)] else old(repo.otps)
  {
    var snapshot := repo.otps;
    var otpCode := FormatCode(draw % OtpBound);
    var expirationTime := now + OtpValidity;
    var otp := Otp(email, otpCode, expirationTime);
    repo.Save(otp);
    r := Success(());
    if !delivered {
      r := Failure(Runtime);
      repo.otps := snapshot;
    }
  }

  /** The statements of `verifyOtp`, before the transaction ends. */
  method VerifyOtp(repo: OtpRepository, email: string, otp: string, now: int) returns (r: Result<bool>)
    requires repo.Valid()
    modifies repo
    ensures repo.Valid()
    ensures r == VerifyOutcome(old(repo.otps), email, otp, now)
    ensures repo.otps == TableAfterVerify(old(repo.otps), email, otp, now)
  {
    var storedOtp := repo.FindById(email);
    if storedOtp.None? {
      return Failure(NoSuchElement);
    }
    if storedOtp.value.expirationTime < now {
      repo.Delete(storedOtp.value);
      return Failure(IllegalArgument);
    }
    if storedOtp.value.otpCode != otp {
      return Failure(IllegalArgument);
    }
    repo.Delete(storedOtp.value);
    r := Success(true);
  }

  /** `verifyOtp` called through its transactional proxy: on an exception the table is restored. */
  method VerifyOtpTransactional(repo: OtpRepository, email: string, otp: string, now: int) returns (r: Result<bool>)
    requires repo.Valid()
    modifies repo
    ensures repo.Valid()
    ensures r == VerifyOutcome(old(repo.otps), email, otp, now)
    ensures repo.otps == CommittedAfterVerify(old(repo.otps), email, otp, now)
  {
    var snapshot := repo.otps;
    r := VerifyOtp(repo, email, otp, now);
    if r.Failure? {
      repo.otps := snapshot;
    }
  }

  /** No stored OTP: NoSuchElementException and no change. */
  lemma VerifyMissing(otps: map<string, Otp>, email: string, otp: string, now: int)
    requires email !in otps
    ensures VerifyOutcome(otps, email, otp, now) == Failure(NoSuchElement)
    ensures TableAfterVerify(otps, email, otp, now) == otps
  {
  }

  /**
   * An expired OTP: IllegalArgumentException after the record is deleted; the
   * rollback of that exception puts it back.
   */
  lemma VerifyExpired(otps: map<string, Otp>, email: string, otp: string, now: int)
    requires email in otps && otps[email].expirationTime < now
    ensures VerifyOutcome(otps, email, otp, now) == Failure(IllegalArgument)
    ensures TableAfterVerify(otps, email, otp, now) == otps - {email}
    ensures CommittedAfterVerify(otps, email, otp, now) == otps
  {
  }

  /** A live OTP with another code: IllegalArgumentException and the OTP stays. */
  lemma VerifyWrongCode(otps: map<string, Otp>, email: string, otp: string, now: int)
    requires email in otps && now <= otps[email].expirationTime && otps[email].otpCode != otp
    ensures VerifyOutcome(otps, email, otp, now) == Failure(IllegalArgument)
    ensures TableAfterVerify(otps, email, otp, now) == otps
  {
  }

  /** A matching live OTP is consumed: true, the record is gone, and a second check finds nothing. */
  lemma VerifySingleUse(otps: map<string, Otp>, email: string, otp: string, now: int, otp2: string, later: int)
    requires email in otps && now <= otps[email].expirationTime && otps[email].otpCode == otp
    ensures VerifyOutcome(otps, email, otp, now) == Success(true)
    ensures CommittedAfterVerify(otps, email, otp, now) == otps - {email}
    ensures VerifyOutcome(CommittedAfterVerify(otps, email, otp, now), email, otp2, later) == Failure(NoSuchElement)
  {
  }

  /** verifyOtp never returns false: every failure is an exception. */
  lemma VerifyNeverFalse(otps: map<string, Otp>, email: string, otp: string, now: int)
    ensures VerifyOutcome(otps, email, otp, now) != Success(false)
  {
  }

  /**
   * A freshly issued code passes until its expiry instant and fails after it;
   * every other OTP in the table is untouched by the issue.
   */
  lemma IssueThenVerify(otps: map<string, Otp>, email: string, draw: nat, issued: int, now: int)
    ensures var after := otps[email := IssuedOtp(email, draw, issued)];
      var code := FormatCode(draw % OtpBound);
      (now <= issued + OtpValidity ==> VerifyOutcome(after, email, code, now) == Success(true))
      && (now > issued + OtpValidity ==> VerifyOutcome(after, email, code, now) == Failure(IllegalArgument))
      && (forall e :: e in otps && e != email ==> e in after && after[e] == otps[e])
  {
  }
}
