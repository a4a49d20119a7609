/** The password-reset form: its validation and the state changes of
    `handlePasswordReset`. Sending the reset e-mail is an input: whether it succeeds is a
    parameter, and whether the form reached it is part of the result. */
module PasswordResetPage {
  import opened Wrappers
  import opened EmailValidation

  const InvalidEmailMessage: string := "Invalid email address."
  const SentMessage: string := "Password reset email has been sent. Please check your inbox."
  const FailedMessage: string := "Failed to send password reset email. Please check the email address and try again."

  /** `validateForm`: only the e-mail is checked. */
  function ValidateForm(email: string): (error: Option<string>)
    ensures error.None? <==> IsValidEmail(email)
    ensures error.Some? ==> error.value == InvalidEmailMessage
  {
    if !IsValidEmail(email) then Some(InvalidEmailMessage) else None
  }

  datatype ResetView = ResetView(loading: bool, error: Option<string>, message: Option<string>, isSentReset: bool)

  /** The form after `handlePasswordReset`, and whether it asked for the reset e-mail. */
  function HandlePasswordReset(v: ResetView, email: string, sendSucceeds: bool): (r: (ResetView, bool))
    ensures var (after, attempted) := r;
            && (attempted <==> IsValidEmail(email))
            && (!attempted ==> after == v.(error := Some(InvalidEmailMessage)))
            && (attempted ==> !after.loading)
            && (attempted && sendSucceeds ==> after.isSentReset && after.message == Some(SentMessage) && after.error.None?)
            && (attempted && !sendSucceeds ==>
                  after.isSentReset == v.isSentReset && after.error == Some(FailedMessage) && after.message.None?)
  {
    var check := ValidateForm(email);
    if check.Some? then (v.(error := check), false)
    else
      var started := v.(loading := true, error := None, message := None);
      var settled := if sendSucceeds then started.(message := Some(SentMessage), isSentReset := true)
                     else started.(error := Some(FailedMessage));
      (settled.(loading := false), true)
  }

  /** A failed request leaves a form that had not sent a reset e-mail still unsent. */
  lemma FailedResetNotSent(v: ResetView, email: string)
    requires !v.isSentReset
    ensures !HandlePasswordReset(v, email, false).0.isSentReset
  {
  }
}
