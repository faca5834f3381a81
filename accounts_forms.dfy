/** The participant registration form of accounts/forms.py: the bounds of its
    fields, `clean_email` and `clean_password_confirm`, and the verdict of
    `form.is_valid()` that gates the registration view. Django's char fields
    strip surrounding whitespace before validating; email syntax checking is
    not modelled. */
module AccountsForms {
  import opened Wrappers
  import opened PyStr
  import opened AccountsModels

  /** The submitted form fields, as posted (a missing field is empty).
      `yearOfStudy` is the integer the field parses, None when blank or not a number. */
  datatype RegistrationForm = RegistrationForm(
    firstName: string,
    lastName: string,
    email: string,
    password: string,
    passwordConfirm: string,
    rollNumber: string,
    branch: string,
    yearOfStudy: Option<int>,
    registrationCode: string)

  const NameMaxLength := 100
  const RollNumberMaxLength := 20
  const BranchMaxLength := 50
  const MinYearOfStudy := 1
  const MaxYearOfStudy := 5
  /** Bounds the user model itself puts on the two columns the form saves
      without a form-level bound (checked when the form validates the instance). */
  const EmailMaxLength := 254
  const PasswordMaxLength := 128

  const EmailExistsMessage := "An account with this email already exists."
  const PasswordMismatchMessage := "Passwords do not match."

  /** A required char field with a maximum length, after stripping. */
  predicate RequiredText(raw: string, maxLength: nat)
  {
    var v := Strip(raw);
    v != [] && |v| <= maxLength
  }

  predicate EmailTaken(users: map<UserId, User>, email: string)
  {
    exists u :: u in users && users[u].email == email
  }

  /** `clean_email`: the lower-cased email, unless a user already has it. */
  function CleanEmail(users: map<UserId, User>, email: string): Result<string>
  {
    var lowered := ToLower(email);
    if EmailTaken(users, lowered) then Err(EmailExistsMessage) else Ok(lowered)
  }

  /** `clean_password_confirm`: `password` is None when that field did not
      clean (it is then absent from `cleaned_data`). */
  function CleanPasswordConfirm(password: Option<string>, confirm: string): Result<string>
  {
    if password.Some? && password.value != "" && confirm != "" && password.value != confirm
    then Err(PasswordMismatchMessage)
    else Ok(confirm)
  }

  /** The cleaned password, which a blank entry does not produce. */
  function CleanedPassword(f: RegistrationForm): Option<string>
  {
    var p := Strip(f.password);
    if p == "" then None else Some(p)
  }

  /** The form's `cleaned_data`: every char field stripped, the email lower-cased. */
  datatype CleanedData = CleanedData(
    firstName: string,
    lastName: string,
    email: string,
    password: string,
    rollNumber: string,
    branch: string,
    yearOfStudy: Option<int>,
    registrationCode: string)

  function Cleaned(f: RegistrationForm): CleanedData
  {
    CleanedData(Strip(f.firstName), Strip(f.lastName), ToLower(Strip(f.email)), Strip(f.password),
                Strip(f.rollNumber), Strip(f.branch), f.yearOfStudy, Strip(f.registrationCode))
  }

  /** `form.is_valid()` against the current users. */
  predicate FormIsValid(users: map<UserId, User>, f: RegistrationForm)
  {
    && RequiredText(f.firstName, NameMaxLength)
    && RequiredText(f.lastName, NameMaxLength)
    && Strip(f.email) != "" && CleanEmail(users, Strip(f.email)).Ok?
    && |Strip(f.email)| <= EmailMaxLength
    && Strip(f.password) != "" && |Strip(f.password)| <= PasswordMaxLength
    && Strip(f.passwordConfirm) != ""
    && CleanPasswordConfirm(CleanedPassword(f), Strip(f.passwordConfirm)).Ok?
    && RequiredText(f.rollNumber, RollNumberMaxLength)
    && RequiredText(f.branch, BranchMaxLength)
    && f.yearOfStudy.Some? && MinYearOfStudy <= f.yearOfStudy.value <= MaxYearOfStudy
    && RequiredText(f.registrationCode, CodeMaxLength)
  }

  /** `clean_email` accepts exactly the addresses no user holds in lower case,
      says so the same way whatever the case of the input, and hands back a
      lower-case address that is its own lower case. */
  lemma CleanEmailVerdict(users: map<UserId, User>, a: string, b: string)
    requires ToLower(a) == ToLower(b)
    ensures CleanEmail(users, a).Ok? <==> forall u :: u in users ==> users[u].email != ToLower(a)
    ensures CleanEmail(users, a) == CleanEmail(users, b)
    ensures CleanEmail(users, a).Ok? ==> CleanEmail(users, a).value == ToLower(a)
    ensures CleanEmail(users, a).Ok? ==> ToLower(CleanEmail(users, a).value) == CleanEmail(users, a).value
  {
    ToLowerIdempotent(a);
  }

  /** The confirmation check fails only when both entries are present and differ. */
  lemma PasswordConfirmVerdict(password: Option<string>, confirm: string)
    ensures CleanPasswordConfirm(password, confirm).Err? <==>
      (password.Some? && password.value != "" && confirm != "" && password.value != confirm)
    ensures CleanPasswordConfirm(password, confirm).Ok? ==> CleanPasswordConfirm(password, confirm).value == confirm
  {
  }

  /** In a valid form both password entries are present, so they are equal;
      the year lies in 1..5, and the code is non-empty and at most 50
      characters. */
  lemma ValidFormFacts(users: map<UserId, User>, f: RegistrationForm)
    requires FormIsValid(users, f)
    ensures Strip(f.password) == Strip(f.passwordConfirm)
    ensures 1 <= f.yearOfStudy.value <= 5
    ensures 0 < |Strip(f.registrationCode)| <= 50
    ensures !EmailTaken(users, ToLower(Strip(f.email)))
  {
  }
}
