/** The sign-in form: its validation and the state changes of `handleLogin` and
    `handleRegister`. The Firebase Auth calls are inputs: their outcome is a parameter,
    and whether the form reached them is part of the result. */
module LoginPage {
  import opened Wrappers
  import opened EmailValidation
  import FirebaseConfig

  const MinPasswordLength: int := 6

  const InvalidEmailMessage: string := "Invalid email address."
  const ShortPasswordMessage: string := "Password must be at least 6 characters long."
  const UnverifiedMessage: string := "Please verify your email before logging in."

  /** `validateForm`: the error it sets, or `None` when the form is valid. */
  function ValidateForm(email: string, password: string): (error: Option<string>)
    ensures error.None? <==> IsValidEmail(email) && |password| >= MinPasswordLength
    ensures !IsValidEmail(email) ==> error == Some(InvalidEmailMessage)
    ensures IsValidEmail(email) && |password| < MinPasswordLength ==> error == Some(ShortPasswordMessage)
  {
    if !IsValidEmail(email) then Some(InvalidEmailMessage)
    else if |password| < MinPasswordLength then Some(ShortPasswordMessage)
    else None
  }

  /** A password of six characters is long enough and one of five is not. */
  lemma PasswordBoundary(email: string, five: string, six: string)
    requires IsValidEmail(email) && |five| == 5 && |six| == 6
    ensures ValidateForm(email, six).None?
    ensures ValidateForm(email, five) == Some(ShortPasswordMessage)
  {
  }

  /** The state the form keeps, and what it reported to its parent through `isVerified`. */
  datatype LoginView = LoginView(
    loading: bool,
    error: Option<string>,
    showResendVerification: bool,
    emailSent: bool,
    verifiedReported: bool)

  /** How `signInWithEmailAndPassword` ends. */
  datatype SignInResult = SignedIn(emailVerified: bool) | SignInError(code: string)

  /** The form after `handleLogin`, and whether it called the sign-in service. */
  function HandleLogin(v: LoginView, email: string, password: string, signIn: SignInResult): (r: (LoginView, bool))
    ensures var (after, attempted) := r;
            && (attempted <==> ValidateForm(email, password).None?)
            && (!attempted ==> after == v.(error := ValidateForm(email, password)))
            && (attempted ==> !after.loading && after.emailSent == v.emailSent)
            && (attempted ==> (after.verifiedReported <==> v.verifiedReported || signIn == SignedIn(true)))
            && (attempted && signIn == SignedIn(true) ==> after.error.None? && !after.showResendVerification)
            && (attempted && signIn == SignedIn(false) ==> after.error == Some(UnverifiedMessage) && after.showResendVerification)
            && (attempted && signIn.SignInError? ==> after.error == Some(signIn.code) && !after.showResendVerification)
  {
    var check := ValidateForm(email, password);
    if check.Some? then (v.(error := check), false)
    else
      var started := v.(loading := true, error := None, showResendVerification := false);
      var settled := match signIn
        case SignedIn(verified) =>
          if verified then started.(verifiedReported := true)
          else started.(error := Some(UnverifiedMessage), showResendVerification := true)
        case SignInError(code) => started.(error := Some(code));
      (settled.(loading := false), true)
  }

  /** Which call of `handleRegister` throws, if any, with the error code it throws. */
  datatype RegisterFault =
    | RegisterSucceeds
    | CreateFails(code: string)
    | VerificationFails(code: string)
    | WriteFails(code: string)

  /** The form after `handleRegister`, whether it called the sign-up service, and the
      user node it wrote. */
  function HandleRegister(v: LoginView, email: string, password: string, uid: string, fault: RegisterFault)
    : (r: (LoginView, bool, Option<(string, FirebaseConfig.UserRecord)>))
    ensures var (after, attempted, written) := r;
            && (attempted <==> ValidateForm(email, password).None?)
            && (!attempted ==> after == v.(error := ValidateForm(email, password)) && written.None?)
            && (attempted ==> !after.loading)
            && (written.Some? <==> attempted && fault == RegisterSucceeds)
            && (written.Some? ==> written.value.0 == uid
                                  && written.value.1 == FirebaseConfig.EmptyRecord.(email := Some(email), subscriptionPaid := Some(false)))
            && (attempted ==> after.showResendVerification == v.showResendVerification
                              && after.verifiedReported == v.verifiedReported)
            && (attempted ==> (after.emailSent <==> v.emailSent || fault == RegisterSucceeds))
            && (attempted && fault != RegisterSucceeds ==> after.error == Some(fault.code))
            && (attempted && fault == RegisterSucceeds ==> after.error.None?)
  {
    var check := ValidateForm(email, password);
    if check.Some? then (v.(error := check), false, None)
    else
      var started := v.(loading := true, error := None);
      match fault
      case RegisterSucceeds =>
        var node := FirebaseConfig.EmptyRecord.(email := Some(email), subscriptionPaid := Some(false));
        (started.(emailSent := true, loading := false), true, Some((uid, node)))
      case _ =>
        (started.(error := Some(fault.code), loading := false), true, None)
  }
}
