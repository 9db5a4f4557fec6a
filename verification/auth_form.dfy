/**
  The sign-in / sign-up form. Submitting checks that the e-mail address ends
  with the campus domain and, when signing up, that a name was typed; only
  then is the parent's login or signup callback invoked. The callbacks
  themselves (and the `error` they may report back) belong to the parent and
  appear here only as the call the form makes and as an input.
 */
module AuthForm {
  import opened TextUtil
  import opened Records

  const CampusDomain := "@srmap.edu.in"
  const DomainError := "Only SRMAP email addresses (@srmap.edu.in) are allowed"
  const NameError := "Please enter your name"

  datatype Mode = Login | Signup

  /** The component's state. */
  datatype Form = Form(
    mode: Mode,
    email: string,
    password: string,
    name: string,
    showPassword: bool,
    validationError: Option<string>)

  /** A fresh form: login mode, every field empty, no error. */
  const InitialForm := Form(Login, "", "", "", false, None)

  /** The parent callback a submission invokes, if any. */
  datatype Call =
    | NoCall
    | CallLogin(email: string, password: string)
    | CallSignup(email: string, password: string, name: string)

  /** The form with only its validation error replaced. */
  predicate SameFields(a: Form, b: Form) {
    a.(validationError := None) == b.(validationError := None)
  }

  /** `validateEmail`: the verdict, and the form with the error set or cleared. */
  function ValidateEmail(f: Form): (r: (bool, Form))
    ensures r.0 <==> EndsWith(f.email, CampusDomain)
    ensures SameFields(f, r.1)
    ensures r.1.validationError == if r.0 then None else Some(DomainError)
  {
    if !EndsWith(f.email, CampusDomain) then (false, f.(validationError := Some(DomainError)))
    else (true, f.(validationError := None))
  }

  /** Every address made of some local part and the campus domain passes. */
  lemma CampusAddressesPass(f: Form, local: string)
    ensures ValidateEmail(f.(email := local + CampusDomain)).0
  {
    EndsWithConcat(local, CampusDomain);
  }

  /** Every address that passes is some local part followed by the campus domain. */
  lemma PassingAddressesAreCampus(f: Form)
    requires ValidateEmail(f).0
    ensures |f.email| >= |CampusDomain|
    ensures f.email == f.email[..|f.email| - |CampusDomain|] + CampusDomain
  {
  }

  /** The comparison is exact: another case or a trailing suffix fails. */
  lemma OtherSpellingsFail(f: Form)
    ensures !ValidateEmail(f.(email := "a@SRMAP.EDU.IN")).0
    ensures !ValidateEmail(f.(email := "a@srmap.edu.in.com")).0
    ensures !ValidateEmail(f.(email := "a@gmail.com")).0
  {
    var u := "a@SRMAP.EDU.IN";
    assert u[|u| - |CampusDomain|..][1] != CampusDomain[1];
    var t := "a@srmap.edu.in.com";
    assert t[|t| - |CampusDomain|..][0] != CampusDomain[0];
    var g := "a@gmail.com";
    assert |g| < |CampusDomain|;
  }

  /**
    `handleSubmit`: validate the address, then call `onLogin`, or, in signup
    mode, refuse a blank name and otherwise call `onSignup` with the name as
    typed.
   */
  function HandleSubmit(f: Form): (r: (Form, Call))
    ensures SameFields(f, r.0)
    ensures r.1.NoCall? <==> r.0.validationError.Some?
    ensures r.0.validationError == Some(DomainError) <==> !EndsWith(f.email, CampusDomain)
    ensures r.0.validationError == Some(NameError) <==>
              EndsWith(f.email, CampusDomain) && f.mode == Signup && Trim(f.name) == []
    ensures r.1.CallLogin? <==> EndsWith(f.email, CampusDomain) && f.mode == Login
    ensures r.1.CallSignup? <==> EndsWith(f.email, CampusDomain) && f.mode == Signup && Trim(f.name) != []
    ensures r.1.CallLogin? ==> r.1 == CallLogin(f.email, f.password)
    ensures r.1.CallSignup? ==> r.1 == CallSignup(f.email, f.password, f.name)
  {
    var v := ValidateEmail(f);
    var blank := Trim(f.name) == [];
    MessagesDiffer();
    if !v.0 then (v.1, NoCall)
    else
      match f.mode
      case Login => (v.1, CallLogin(f.email, f.password))
      case Signup =>
        if blank then (v.1.(validationError := Some(NameError)), NoCall)
        else (v.1, CallSignup(f.email, f.password, f.name))
  }

  lemma MessagesDiffer()
    ensures NameError != DomainError
  {
    assert |NameError| != |DomainError|;
  }

  /** Submitting twice in a row gives the same form and the same call. */
  lemma SubmitIsIdempotent(f: Form)
    ensures HandleSubmit(HandleSubmit(f).0) == HandleSubmit(f)
  {
  }

  /** Whitespace around a typed name does not decide whether signup is called. */
  lemma PaddedNameStillSignsUp(f: Form, p: string, q: string)
    requires AllWhitespace(p) && AllWhitespace(q)
    ensures HandleSubmit(f.(name := p + f.name + q)).1.CallSignup? <==> HandleSubmit(f).1.CallSignup?
  {
    TrimIgnoresPadding(p, f.name, q);
  }

  /** The e-mail `onChange`: store the value and clear the validation error. */
  function OnEmailChange(f: Form, value: string): (r: Form)
    ensures r.email == value && r.validationError == None
    ensures r.(email := f.email, validationError := f.validationError) == f
  {
    f.(email := value, validationError := None)
  }

  /** The mode toggle buttons: only the mode changes; a validation error stays. */
  function SetMode(f: Form, m: Mode): (r: Form)
    ensures r.mode == m && r.validationError == f.validationError
    ensures r.(mode := f.mode) == f
  {
    f.(mode := m)
  }

  /** The eye button flips `showPassword`. */
  function TogglePassword(f: Form): (r: Form)
    ensures r.showPassword != f.showPassword
    ensures r.(showPassword := f.showPassword) == f
  {
    f.(showPassword := !f.showPassword)
  }

  lemma ToggleTwiceRestores(f: Form)
    ensures TogglePassword(TogglePassword(f)) == f
  {
  }

  /** The `type` of the password input. */
  function PasswordInputType(f: Form): (t: string)
    ensures t == "text" <==> f.showPassword
    ensures t == "text" || t == "password"
  {
    if f.showPassword then "text" else "password"
  }

  /** The alert box: the parent's error when it is truthy, else the form's own. */
  function DisplayedError(external: Option<string>, f: Form): (r: Option<string>)
    ensures r.None? <==> !Truthy(external) && !Truthy(f.validationError)
    ensures Truthy(external) ==> r == external
    ensures !Truthy(external) && Truthy(f.validationError) ==> r == f.validationError
    ensures r.Some? ==> r.value != ""
  {
    if Truthy(external) then external
    else if Truthy(f.validationError) then f.validationError
    else None
  }

  /** After a submission that reaches a callback, only the parent's error can show. */
  lemma CallMeansNoFormError(external: Option<string>, f: Form)
    requires !HandleSubmit(f).1.NoCall?
    ensures DisplayedError(external, HandleSubmit(f).0) == if Truthy(external) then external else None
  {
  }

  /** Editing the address hides a validation error until the next submission. */
  lemma EmailChangeHidesFormError(external: Option<string>, f: Form, value: string)
    ensures DisplayedError(external, OnEmailChange(f, value)) == if Truthy(external) then external else None
  {
  }

  /** A rejected submission always has something to show. */
  lemma RejectionIsShown(external: Option<string>, f: Form)
    requires HandleSubmit(f).1.NoCall?
    ensures DisplayedError(external, HandleSubmit(f).0).Some?
  {
  }
}
