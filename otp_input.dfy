/**
 * The one-time-code input of the verification page
 * (frontend/src/components/Auth/OTPVerification.jsx).
 */
module OtpInput {
  import opened Common
  import opened Seqs
  import opened Text
  import Accounts

  const CodeLength := 6

  /**
   * `value.replace(/\D/g, '').slice(0, 6)`: the first six decimal digits
   * of what was typed, in their order.
   */
  function Sanitize(typed: string): (r: string)
    ensures IsDigits(r) && |r| <= CodeLength
    ensures |r| == Min(CodeLength, |DigitsOnly(typed)|)
    ensures r == DigitsOnly(typed)[..|r|]
  {
    Take(DigitsOnly(typed), CodeLength)
  }

  /** Sanitising an already sanitised value changes nothing. */
  lemma {:induction false} SanitizeIdempotent(typed: string)
    ensures Sanitize(Sanitize(typed)) == Sanitize(typed)
  {
    var r := Sanitize(typed);
    DigitsOnlyOfDigits(r);
  }

  /** Typed digits alone, at most six of them, are kept as typed. */
  lemma {:induction false} SanitizeKeepsShortCodes(typed: string)
    requires IsDigits(typed) && |typed| <= CodeLength
    ensures Sanitize(typed) == typed
  {
    DigitsOnlyOfDigits(typed);
  }

  /** The verify button: enabled only for a full code while no request is loading. */
  predicate VerifyEnabled(otp: string, loading: bool) {
    !loading && |otp| == CodeLength
  }

  /**
   * A code the page lets the user submit always passes the server's
   * shape check on the code; only the address can still fail it.
   */
  lemma EnabledCodePassesServerCheck(typed: string, email: string, isEmail: string -> bool)
    requires VerifyEnabled(Sanitize(typed), false)
    ensures Accounts.VerifyRequestValid(email, Sanitize(typed), isEmail) <==> isEmail(email)
  {
  }
}
