/** The checks the form's submit handler runs before registering a user, in
    order, stopping at the first one that fails. */
module Validation {
  import opened Wrappers
  import opened JsStrings
  import opened Email
  import opened Dates

  /** The raw values read from the form's controls on submission. */
  datatype Fields = Fields(name: string, email: string, password: string, dob: string, acceptTerms: bool)

  /** A registered user as kept in the registry and in storage. */
  datatype UserRecord = UserRecord(name: string, email: string, password: string, dob: string, acceptTerms: bool)

  /** Why a submission was refused; each has its own message in the form. */
  datatype ValidationError =
    | EmptyName
    | InvalidEmail
    | WeakPassword
    | MissingDob
    | InvalidDate
    | AgeOutOfRange
    | TermsNotAccepted

  const MinPasswordLength := 6
  const MinAge := 18
  const MaxAge := 55

  /** What every record the form accepts satisfies: a non-empty trimmed name,
      an e-mail of the accepted shape, a password of at least six UTF-16 code
      units, a date of birth in `YYYY-MM-DD` form, and accepted terms. */
  predicate WellFormedRecord(u: UserRecord)
  {
    u.name != [] && Trim(u.name) == u.name &&
    IsValidEmail(u.email) && Trim(u.email) == u.email &&
    Utf16Length(u.password) >= MinPasswordLength &&
    ParseDob(u.dob).Some? &&
    u.acceptTerms
  }

  /** The submit handler's checks: name, e-mail, password, date of birth
      present, date of birth parseable, age in range, terms accepted. On
      success the record holds the trimmed name and e-mail and the password
      and date of birth exactly as entered. */
  function Validate(f: Fields, today: Date): (r: Result<UserRecord, ValidationError>)
    ensures r.Success? ==> WellFormedRecord(r.value)
  {
    var name := Trim(f.name);
    var email := Trim(f.email);
    if name == [] then Failure(EmptyName)
    else if !IsValidEmail(email) then Failure(InvalidEmail)
    else if Utf16Length(f.password) < MinPasswordLength then Failure(WeakPassword)
    else if f.dob == [] then Failure(MissingDob)
    else
      match CalculateAge(f.dob, today)
      case None => Failure(InvalidDate)
      case Some(age) =>
        if age < MinAge || age > MaxAge then Failure(AgeOutOfRange)
        else if !f.acceptTerms then Failure(TermsNotAccepted)
        else
          TrimIdempotent(f.name);
          TrimIdempotent(f.email);
          Success(UserRecord(name, email, f.password, f.dob, f.acceptTerms))
  }

  /** The position of each rule in the handler's sequence of checks. */
  function Rank(e: ValidationError): (n: nat)
  {
    match e
    case EmptyName => 0
    case InvalidEmail => 1
    case WeakPassword => 2
    case MissingDob => 3
    case InvalidDate => 4
    case AgeOutOfRange => 5
    case TermsNotAccepted => 6
  }

  /** Each rule on its own, as a condition on the submitted fields. */
  predicate Passes(rule: ValidationError, f: Fields, today: Date)
  {
    match rule
    case EmptyName => !AllSpace(f.name)
    case InvalidEmail => IsValidEmail(Trim(f.email))
    case WeakPassword => Utf16Length(f.password) >= MinPasswordLength
    case MissingDob => f.dob != []
    case InvalidDate => ParseDob(f.dob).Some?
    case AgeOutOfRange =>
      ParseDob(f.dob).Some? ==> MinAge <= Age(ParseDob(f.dob).value, today) <= MaxAge
    case TermsNotAccepted => f.acceptTerms
  }

  /** The error reported is the first rule, in the handler's order, that the
      submission breaks: rule `e` fails and every earlier rule holds. */
  lemma ValidateReportsFirstFailure(f: Fields, today: Date, e: ValidationError)
    ensures Validate(f, today) == Failure(e) <==>
              !Passes(e, f, today) &&
              forall e': ValidationError | Rank(e') < Rank(e) :: Passes(e', f, today)
  {
    ValidateFollowsRules(f, today);
    if Validate(f, today) == Failure(e) {
      forall e': ValidationError | Rank(e') < Rank(e) ensures Passes(e', f, today) {
      }
    }
    if !Passes(e, f, today) && forall e': ValidationError | Rank(e') < Rank(e) :: Passes(e', f, today) {
      assert Rank(e) > 0 ==> Passes(EmptyName, f, today);
      assert Rank(e) > 1 ==> Passes(InvalidEmail, f, today);
      assert Rank(e) > 2 ==> Passes(WeakPassword, f, today);
      assert Rank(e) > 3 ==> Passes(MissingDob, f, today);
      assert Rank(e) > 4 ==> Passes(InvalidDate, f, today);
      assert Rank(e) > 5 ==> Passes(AgeOutOfRange, f, today);
    }
  }

  /** `Validate` is the chain of the rules' outcomes, in rank order. */
  lemma ValidateFollowsRules(f: Fields, today: Date)
    ensures Validate(f, today) ==
      if !Passes(EmptyName, f, today) then Failure(EmptyName)
      else if !Passes(InvalidEmail, f, today) then Failure(InvalidEmail)
      else if !Passes(WeakPassword, f, today) then Failure(WeakPassword)
      else if !Passes(MissingDob, f, today) then Failure(MissingDob)
      else if !Passes(InvalidDate, f, today) then Failure(InvalidDate)
      else if !Passes(AgeOutOfRange, f, today) then Failure(AgeOutOfRange)
      else if !Passes(TermsNotAccepted, f, today) then Failure(TermsNotAccepted)
      else Success(UserRecord(Trim(f.name), Trim(f.email), f.password, f.dob, f.acceptTerms))
  {
    TrimEmptyIffAllSpace(f.name);
    if Trim(f.name) == [] {
      assert !Passes(EmptyName, f, today);
    } else if !IsValidEmail(Trim(f.email)) {
      assert !Passes(InvalidEmail, f, today);
    } else if Utf16Length(f.password) < MinPasswordLength {
      assert !Passes(WeakPassword, f, today);
    } else if f.dob == [] {
      assert !Passes(MissingDob, f, today);
    } else {
      match CalculateAge(f.dob, today)
      case None =>
        assert !Passes(InvalidDate, f, today);
      case Some(age) =>
        assert Passes(InvalidDate, f, today);
        assert Passes(AgeOutOfRange, f, today) <==> MinAge <= age <= MaxAge;
    }
  }

  /** A submission is accepted exactly when it passes every rule, and the
      record then carries the trimmed name and e-mail and the untouched
      password, date of birth and terms flag. */
  lemma ValidateAcceptsIffAllPass(f: Fields, today: Date)
    ensures Validate(f, today).Success? <==> forall e: ValidationError :: Passes(e, f, today)
    ensures Validate(f, today).Success? ==>
              Validate(f, today).value == UserRecord(Trim(f.name), Trim(f.email), f.password, f.dob, true)
  {
    TrimEmptyIffAllSpace(f.name);
    var r := Validate(f, today);
    if r.Success? {
      forall e: ValidationError ensures Passes(e, f, today) {
        assert ParseDob(f.dob).Some?;
      }
    }
    if forall e: ValidationError :: Passes(e, f, today) {
      assert Passes(EmptyName, f, today) && Passes(InvalidEmail, f, today);
      assert Passes(WeakPassword, f, today) && Passes(MissingDob, f, today);
      assert Passes(InvalidDate, f, today) && Passes(AgeOutOfRange, f, today);
      assert Passes(TermsNotAccepted, f, today);
    }
  }

  /** The age limits are inclusive, counted on the date of birth as typed: for
      a submission whose other fields are acceptable and whose date of birth is
      today's month and day `n` years back, it is accepted exactly when
      18 <= n <= 55; with a birthday still ahead this year it is accepted
      exactly when 19 <= n <= 56. */
  lemma AgeLimitsOnBirthday(f: Fields, today: Date, birth: Date, n: int)
    requires ValidDate(birth) && 0 <= birth.year <= 9999 && birth.year == today.year - n
    requires f.dob == FormatDate(birth) && f.acceptTerms
    requires !AllSpace(f.name) && IsValidEmail(Trim(f.email)) && Utf16Length(f.password) >= MinPasswordLength
    ensures (birth.month, birth.day) == (today.month, today.day) ==>
              (Validate(f, today).Success? <==> MinAge <= n <= MaxAge)
    ensures !OnOrBefore(Date(0, birth.month, birth.day), Date(0, today.month, today.day)) ==>
              (Validate(f, today).Success? <==> MinAge + 1 <= n <= MaxAge + 1)
    ensures Validate(f, today).Failure? ==> Validate(f, today).error == AgeOutOfRange
  {
    ParseFormatDate(birth);
    TrimEmptyIffAllSpace(f.name);
    AgeOnAndBeforeBirthday(birth, today, n);
  }
}
