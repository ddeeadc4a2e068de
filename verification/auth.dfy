/** The sign-up and sign-in forms: the order in which fields are checked,
    what is sent to the authentication service, and how its errors are
    turned into messages. */
module Auth {
  import opened Wrappers
  import opened Text

  datatype Role = Teacher | Student

  /** The sign-up form as typed. */
  datatype SignUpForm = SignUpForm(email: string, password: string, fullName: string, rollNumber: string, role: Role)

  /** The sign-up request: the typed values, untrimmed, with the roll
      number dropped for teachers. */
  datatype SignUpRequest = SignUpRequest(email: string, password: string, fullName: string, rollNumber: Option<string>)

  /** An error from the authentication service; its message may be
      absent. */
  datatype AuthError = AuthError(message: Option<string>)

  /** The checks a form can fail before anything is sent. */
  datatype FormError = InvalidEmail | ShortPassword | NameRequired | RollRequired

  /** The toast of each failed check. */
  function FormErrorText(e: FormError): string {
    match e
    case InvalidEmail => "Invalid email address"
    case ShortPassword => "Password must be at least 6 characters"
    case NameRequired => "Full name is required"
    case RollRequired => "Roll number is required for students"
  }

  /** The minimum password length. */
  const MinPassword := 6

  // ---------------------------------------------------------------------
  // Lengths as JavaScript counts them
  // ---------------------------------------------------------------------

  /** `s.length`: UTF-16 code units, so a character outside the Basic
      Multilingual Plane counts twice. */
  function Utf16Length(s: string): (n: nat)
    ensures |s| <= n <= 2 * |s|
  {
    if |s| == 0 then 0 else (if s[0] > '\U{FFFF}' then 2 else 1) + Utf16Length(s[1..])
  }

  /** The length of a concatenation is the sum of the lengths: each
      character counts on its own, one unit or two. */
  lemma {:induction false} Utf16LengthAppend(a: string, b: string)
    ensures Utf16Length(a + b) == Utf16Length(a) + Utf16Length(b)
  {
    if |a| == 0 {
      assert a + b == b;
    } else {
      assert (a + b)[0] == a[0] && (a + b)[1..] == a[1..] + b;
      Utf16LengthAppend(a[1..], b);
    }
  }

  /** Only characters outside the Basic Multilingual Plane make the two
      lengths differ. */
  lemma {:induction false} Utf16LengthBmp(s: string)
    ensures Utf16Length(s) == |s| <==> forall i :: 0 <= i < |s| ==> s[i] <= '\U{FFFF}'
  {
    if |s| > 0 {
      Utf16LengthBmp(s[1..]);
      assert forall i :: 1 <= i < |s| ==> s[i] == s[1..][i - 1];
    }
  }

  /** Three emoji make a long enough password. */
  lemma ThreeEmojiPassword()
    ensures PasswordError("\U{1F600}\U{1F600}\U{1F600}").None?
  {
    var s := "\U{1F600}\U{1F600}\U{1F600}";
    assert s[1..][1..][1..] == "";
  }

  // ---------------------------------------------------------------------
  // Validation
  // ---------------------------------------------------------------------

  /** The email schema: trimmed, then checked against the email pattern
      (`isEmail`, left abstract). */
  function EmailError(email: string, isEmail: string -> bool): (e: Option<FormError>)
    ensures e.None? <==> isEmail(Trim(email))
    ensures e.Some? ==> e.value == InvalidEmail
  {
    if isEmail(Trim(email)) then None else Some(InvalidEmail)
  }

  /** Whitespace around the typed address never changes the verdict, since
      the address is trimmed before it is checked. */
  lemma EmailPaddingIgnored(a: string, email: string, b: string, isEmail: string -> bool)
    requires IsBlank(a) && IsBlank(b)
    ensures EmailError(a + email + b, isEmail) == EmailError(email, isEmail)
  {
    TrimPadded(a, email, b);
  }


  /** The password schema: at least six UTF-16 code units, not trimmed. */
  function PasswordError(password: string): (e: Option<FormError>)
    ensures e.None? ==> |password| >= MinPassword / 2
    ensures |password| >= MinPassword ==> e.None?
    ensures e.Some? ==> e.value == ShortPassword
  {
    if Utf16Length(password) >= MinPassword then None else Some(ShortPassword)
  }

  /** A field left blank: `!field.trim()`. */
  function Missing(field: string): (b: bool)
    ensures b <==> IsBlank(field)
  {
    TrimEmptyIffBlank(field);
    Trim(field) == ""
  }

  /** The checks of `handleSignUp` before anything is sent, in order:
      email, password, full name, and for students the roll number. The
      first failing check gives the message. */
  function ValidateSignUp(f: SignUpForm, isEmail: string -> bool): (r: Result<SignUpRequest, FormError>)
    ensures r.Ok? <==>
      && isEmail(Trim(f.email))
      && Utf16Length(f.password) >= MinPassword
      && !IsBlank(f.fullName)
      && (f.role == Student ==> !IsBlank(f.rollNumber))
    ensures !isEmail(Trim(f.email)) ==> r == Err(InvalidEmail)
    ensures isEmail(Trim(f.email)) && Utf16Length(f.password) < MinPassword ==> r == Err(ShortPassword)
    ensures r == Err(NameRequired) <==>
      isEmail(Trim(f.email)) && Utf16Length(f.password) >= MinPassword && IsBlank(f.fullName)
    ensures r == Err(RollRequired) <==>
      && isEmail(Trim(f.email))
      && Utf16Length(f.password) >= MinPassword
      && !IsBlank(f.fullName)
      && f.role == Student
      && IsBlank(f.rollNumber)
    ensures r.Ok? ==> r.value.email == f.email && r.value.password == f.password && r.value.fullName == f.fullName
    ensures r.Ok? ==> (r.value.rollNumber.Some? <==> f.role == Student)
    ensures r.Ok? && f.role == Student ==> r.value.rollNumber == Some(f.rollNumber)
  {
    var e := EmailError(f.email, isEmail);
    var p := PasswordError(f.password);
    if e.Some? then Err(e.value)
    else if p.Some? then Err(p.value)
    else if Missing(f.fullName) then Err(NameRequired)
    else if f.role == Student && Missing(f.rollNumber) then Err(RollRequired)
    else Ok(SignUpRequest(f.email, f.password, f.fullName, if f.role == Student then Some(f.rollNumber) else None))
  }

  /** Roll numbers are asked of students only: a teacher's form passes or
      fails the same whatever its roll number field holds. */
  lemma TeacherRollIgnored(f: SignUpForm, roll: string, isEmail: string -> bool)
    requires f.role == Teacher
    ensures ValidateSignUp(f, isEmail) == ValidateSignUp(f.(rollNumber := roll), isEmail)
  {
  }

  // ---------------------------------------------------------------------
  // Error mapping
  // ---------------------------------------------------------------------

  /** The message shown for a failed request: a known phrase is replaced by
      a friendly text, otherwise the service's own message, falling back
      to `fallback` when it is missing or empty. */
  function ServiceErrorText(e: AuthError, phrase: string, friendly: string, fallback: string): (t: string)
    ensures e.message.Some? && Contains(e.message.value, phrase) ==> t == friendly
    ensures (e.message.None? || e.message.value == "") && phrase != "" ==> t == fallback
    ensures e.message.Some? && e.message.value != "" && !Contains(e.message.value, phrase) ==> t == e.message.value
  {
    if e.message.Some? && Contains(e.message.value, phrase) then friendly
    else if e.message.Some? && e.message.value != "" then e.message.value
    else fallback
  }

  /** A sign-up error text. */
  function SignUpErrorText(e: AuthError): string {
    ServiceErrorText(e, "already registered", "This email is already registered", "Sign up failed")
  }

  /** A sign-in error text. */
  function SignInErrorText(e: AuthError): string {
    ServiceErrorText(e, "Invalid login credentials", "Invalid email or password", "Sign in failed")
  }

  /** The user is always told something: no error text is empty. */
  lemma ErrorTextsNonEmpty(e: AuthError)
    ensures SignUpErrorText(e) != "" && SignInErrorText(e) != ""
  {
  }

  /** The service's message is matched anywhere inside, not only as a
      whole: a longer message mentioning the phrase still maps to the
      friendly text. */
  lemma PhraseMatchedInside(prefix: string, suffix: string)
    ensures SignUpErrorText(AuthError(Some(prefix + "already registered" + suffix))) == "This email is already registered"
  {
    var m := prefix + "already registered" + suffix;
    assert "already registered" <= m[|prefix|..];
  }

  // ---------------------------------------------------------------------
  // The two handlers
  // ---------------------------------------------------------------------

  /** What a sign-up produces: the request sent (if validation passed),
      the role row written (if the account was created) and the toast (none
      when the service created no user and reported no error). */
  datatype SignUpOutcome = SignUpOutcome(request: Option<SignUpRequest>, roleRow: Option<(string, Role)>, notice: Option<Notice>)

  /** `handleSignUp`. `reply` is the service's answer (the new user's id,
      if it returned one, or an error); `roleOk` is whether the role row
      was stored. */
  function SignUp(f: SignUpForm, isEmail: string -> bool, reply: Result<Option<string>, AuthError>, roleOk: bool)
    : (o: SignUpOutcome)
    ensures o.request.Some? <==> ValidateSignUp(f, isEmail).Ok?
    ensures o.request.Some? ==> o.request.value == ValidateSignUp(f, isEmail).value
    ensures o.request.Some? ==> o.request.value.email == f.email && o.request.value.password == f.password
    ensures o.request.Some? ==> (o.request.value.rollNumber.Some? <==> f.role == Student)
    ensures o.request.None? ==> o.roleRow.None? && o.notice == Some(Failure(FormErrorText(ValidateSignUp(f, isEmail).error)))
    ensures o.roleRow.Some? <==> o.request.Some? && reply.Ok? && reply.value.Some?
    ensures o.roleRow.Some? ==> o.roleRow.value == (reply.value.value, f.role)
    ensures o.notice.None? <==> o.request.Some? && reply == Ok(None)
    ensures o.notice.Some? && o.notice.value.Success? <==> o.roleRow.Some? && roleOk
    ensures o.request.Some? && reply.Err? ==> o.notice == Some(Failure(SignUpErrorText(reply.error)))
  {
    match ValidateSignUp(f, isEmail)
    case Err(e) => SignUpOutcome(None, None, Some(Failure(FormErrorText(e))))
    case Ok(req) =>
      match reply
      case Err(e) => SignUpOutcome(Some(req), None, Some(Failure(SignUpErrorText(e))))
      case Ok(None) => SignUpOutcome(Some(req), None, None)
      case Ok(Some(id)) =>
        SignUpOutcome(Some(req), Some((id, f.role)),
          Some(if roleOk then Success("Account created successfully! Please sign in.")
               else Failure("Account created but role assignment failed")))
  }

  /** What a sign-in produces: whether the credentials were sent, and the
      toast. */
  datatype SignInOutcome = SignInOutcome(sent: bool, notice: Notice)

  /** `handleSignIn`: the same email and password checks, then the
      service's answer (`error`, if it refused). */
  function SignIn(email: string, password: string, isEmail: string -> bool, error: Option<AuthError>): (o: SignInOutcome)
    ensures o.sent <==> isEmail(Trim(email)) && Utf16Length(password) >= MinPassword
    ensures !o.sent ==> o.notice == Failure(FormErrorText(if isEmail(Trim(email)) then ShortPassword else InvalidEmail))
    ensures o.notice.Success? <==> o.sent && error.None?
    ensures o.sent && error.Some? ==> o.notice == Failure(SignInErrorText(error.value))
  {
    match EmailError(email, isEmail)
    case Some(e) => SignInOutcome(false, Failure(FormErrorText(e)))
    case None =>
      match PasswordError(password)
      case Some(e) => SignInOutcome(false, Failure(FormErrorText(e)))
      case None =>
        if error.Some? then SignInOutcome(true, Failure(SignInErrorText(error.value)))
        else SignInOutcome(true, Success("Signed in successfully!"))
  }

  /** Sign-up and sign-in agree on which email and password are acceptable
      and report them with the same messages. */
  lemma SameCredentialChecks(f: SignUpForm, isEmail: string -> bool, error: Option<AuthError>)
    ensures var i := SignIn(f.email, f.password, isEmail, error);
      && (!i.sent <==> ValidateSignUp(f, isEmail).Err? && ValidateSignUp(f, isEmail).error in {InvalidEmail, ShortPassword})
      && (!i.sent ==> i.notice == Failure(FormErrorText(ValidateSignUp(f, isEmail).error)))
  {
    var v := ValidateSignUp(f, isEmail);
    var i := SignIn(f.email, f.password, isEmail, error);
    if !isEmail(Trim(f.email)) {
      assert v == Err(InvalidEmail) && !i.sent;
    } else if Utf16Length(f.password) < MinPassword {
      assert v == Err(ShortPassword) && !i.sent;
    } else {
      assert i.sent;
    }
  }
}
