/** The sign-in and registration form
    (`frontend/src/components/AuthForm.jsx`): the field rules, the error
    messages, and the state the input, toggle and submit handlers change. */
module AuthForm {
  import opened Common

  datatype Field = Email | Username | Password | ConfirmPassword

  /** A key of the `errors` object: one per field and `general`. */
  datatype ErrorKey = FieldKey(field: Field) | General

  /** `formData`. */
  datatype FormData = FormData(email: string, username: string, password: string, confirmPassword: string)

  const EmptyForm: FormData := FormData("", "", "", "")

  function Get(data: FormData, f: Field): string {
    match f
    case Email => data.email
    case Username => data.username
    case Password => data.password
    case ConfirmPassword => data.confirmPassword
  }

  /** `{ ...prev, [name]: value }`. */
  function With(data: FormData, f: Field, value: string): (r: FormData)
    ensures Get(r, f) == value
    ensures forall g :: g != f ==> Get(r, g) == Get(data, g)
  {
    match f
    case Email => data.(email := value)
    case Username => data.(username := value)
    case Password => data.(password := value)
    case ConfirmPassword => data.(confirmPassword := value)
  }

  // ---------------------------------------------------------------------------
  // The e-mail pattern `^[^\s@]+@[^\s@]+\.[^\s@]+$`

  /** A non-empty run of characters that are neither blank nor '@'. */
  predicate Part(x: string) {
    x != [] && forall k :: 0 <= k < |x| ==> !IsSpace(x[k]) && x[k] != '@'
  }

  /** The '@' at `i` and a '.' at `j` split `s` into three parts. */
  predicate SplitsAt(s: string, i: int, j: int) {
    0 < i && i + 1 < j < |s| - 1 && s[i] == '@' && s[j] == '.' &&
    Part(s[..i]) && Part(s[i + 1..j]) && Part(s[j + 1..])
  }

  predicate EmailPattern(s: string) {
    exists i, j :: 0 <= i < |s| && 0 <= j < |s| && SplitsAt(s, i, j)
  }

  /** Three parts joined by '@' and '.' match the pattern. */
  lemma EmailPatternOfParts(a: string, b: string, c: string)
    requires Part(a) && Part(b) && Part(c)
    ensures EmailPattern(a + "@" + b + "." + c)
  {
    var s := a + "@" + b + "." + c;
    var i, j := |a|, |a| + 1 + |b|;
    assert s[..i] == a && s[i + 1..j] == b && s[j + 1..] == c;
    assert SplitsAt(s, i, j);
  }

  /** Every match is three such parts joined by '@' and '.'. */
  lemma EmailPatternParts(s: string) returns (a: string, b: string, c: string)
    requires EmailPattern(s)
    ensures Part(a) && Part(b) && Part(c) && s == a + "@" + b + "." + c
  {
    var i, j :| 0 <= i < |s| && 0 <= j < |s| && SplitsAt(s, i, j);
    a, b, c := s[..i], s[i + 1..j], s[j + 1..];
    assert s == s[..i] + [s[i]] + s[i + 1..j] + [s[j]] + s[j + 1..];
  }

  // ---------------------------------------------------------------------------
  // Field rules

  /** `!value.trim()`: nothing but blanks. */
  predicate Blank(s: string) { AllSpace(s) }

  /** Blank exactly when trimming leaves nothing. */
  lemma BlankIsTrimEmpty(s: string)
    ensures Blank(s) <==> Strip(s) == []
  {
    StripBlank(s);
  }

  /** The message for a field, if any; the user name and the confirmation
      are checked only when registering. */
  function ErrorOf(isLogin: bool, data: FormData, f: Field): Option<string> {
    match f
    case Email =>
      if Blank(data.email) then Some("Email is required")
      else if !EmailPattern(data.email) then Some("Please enter a valid email")
      else None
    case Username =>
      if !isLogin && Blank(data.username) then Some("Username is required") else None
    case Password =>
      if data.password == "" then Some("Password is required")
      else if |data.password| < 6 then Some("Password must be at least 6 characters")
      else None
    case ConfirmPassword =>
      if isLogin then None
      else if data.confirmPassword == "" then Some("Please confirm your password")
      else if data.password != data.confirmPassword then Some("Passwords do not match")
      else None
  }

  /** The `errors` object: a message per key, `None` where the key is
      absent. A key that is present with the empty string is `Some("")`. */
  datatype Errors = Errors(onEmail: Option<string>, onUsername: Option<string>, onPassword: Option<string>,
                           onConfirm: Option<string>, general: Option<string>)

  const NoErrors: Errors := Errors(None, None, None, None, None)

  function ErrorAt(e: Errors, k: ErrorKey): Option<string> {
    match k
    case General => e.general
    case FieldKey(f) =>
      (match f
       case Email => e.onEmail
       case Username => e.onUsername
       case Password => e.onPassword
       case ConfirmPassword => e.onConfirm)
  }

  /** `{ ...prev, [name]: value }` on the errors. */
  function SetError(e: Errors, k: ErrorKey, value: string): (r: Errors)
    ensures ErrorAt(r, k) == Some(value)
    ensures forall j :: j != k ==> ErrorAt(r, j) == ErrorAt(e, j)
  {
    match k
    case General => e.(general := Some(value))
    case FieldKey(f) =>
      (match f
       case Email => e.(onEmail := Some(value))
       case Username => e.(onUsername := Some(value))
       case Password => e.(onPassword := Some(value))
       case ConfirmPassword => e.(onConfirm := Some(value)))
  }

  /** `newErrors`: one message per failing field. */
  function ErrorsOf(isLogin: bool, data: FormData): (r: Errors)
    ensures forall f :: ErrorAt(r, FieldKey(f)) == ErrorOf(isLogin, data, f)
    ensures r.general.None?
  {
    Errors(ErrorOf(isLogin, data, Email), ErrorOf(isLogin, data, Username),
           ErrorOf(isLogin, data, Password), ErrorOf(isLogin, data, ConfirmPassword), None)
  }

  /** The form is accepted exactly when the address is given and matches,
      the password has at least six characters, and, when registering, the
      user name is given and the confirmation is given and equal. */
  lemma AcceptedSpec(isLogin: bool, data: FormData)
    ensures ErrorsOf(isLogin, data) == NoErrors <==>
              !Blank(data.email) && EmailPattern(data.email) && |data.password| >= 6 &&
              (!isLogin ==> !Blank(data.username) && data.confirmPassword != "" &&
                            data.confirmPassword == data.password)
  {
  }

  /** In sign-in mode only the address and the password can fail. */
  lemma LoginChecksTwoFields(data: FormData)
    ensures ErrorsOf(true, data).onUsername.None? && ErrorsOf(true, data).onConfirm.None?
  {
  }

  /** A missing address is reported as missing, never as malformed. */
  lemma EmailRequiredFirst(isLogin: bool, data: FormData)
    requires Blank(data.email)
    ensures ErrorsOf(isLogin, data).onEmail == Some("Email is required")
  {
  }

  // ---------------------------------------------------------------------------
  // The component's state

  /** The call a submission makes. */
  datatype AuthCall = NoCall | LoginCall(username: string, password: string) |
                      RegisterCall(email: string, username: string, password: string)

  /** How that call ended: its `result`, or an exception. */
  datatype Outcome = Succeeded | Failed(error: string) | Threw

  const Unexpected := "An unexpected error occurred"

  class Form {
    var isLogin: bool
    var data: FormData
    var errors: Errors
    var loading: bool

    constructor()
      ensures isLogin && data == EmptyForm && errors == NoErrors && !loading
    {
      isLogin, data, errors, loading := true, EmptyForm, NoErrors, false;
    }

    /** `handleInputChange`: sets the field and blanks its message only. */
    method InputChange(f: Field, value: string)
      modifies this
      ensures data == With(old(data), f, value) && isLogin == old(isLogin) && loading == old(loading)
      ensures ErrorAt(errors, FieldKey(f)) == if ErrorAt(old(errors), FieldKey(f)).Some? && ErrorAt(old(errors), FieldKey(f)).value != ""
                                              then Some("") else ErrorAt(old(errors), FieldKey(f))
      ensures forall k :: k != FieldKey(f) ==> ErrorAt(errors, k) == ErrorAt(old(errors), k)
    {
      data := With(data, f, value);
      var current := ErrorAt(errors, FieldKey(f));
      if current.Some? && current.value != "" {
        errors := SetError(errors, FieldKey(f), "");
      }
    }

    /** `validateForm`: the messages field by field; true when there are none. */
    method ValidateForm() returns (ok: bool)
      modifies this
      ensures errors == ErrorsOf(isLogin, data) && (ok <==> errors == NoErrors)
      ensures isLogin == old(isLogin) && data == old(data) && loading == old(loading)
    {
      var e := NoErrors;
      if Blank(data.email) {
        e := e.(onEmail := Some("Email is required"));
      } else if !EmailPattern(data.email) {
        e := e.(onEmail := Some("Please enter a valid email"));
      }
      assert e.onEmail == ErrorOf(isLogin, data, Email);
      if !isLogin && Blank(data.username) {
        e := e.(onUsername := Some("Username is required"));
      }
      assert e.onUsername == ErrorOf(isLogin, data, Username);
      if data.password == "" {
        e := e.(onPassword := Some("Password is required"));
      } else if |data.password| < 6 {
        e := e.(onPassword := Some("Password must be at least 6 characters"));
      }
      assert e.onPassword == ErrorOf(isLogin, data, Password);
      if !isLogin {
        if data.confirmPassword == "" {
          e := e.(onConfirm := Some("Please confirm your password"));
        } else if data.password != data.confirmPassword {
          e := e.(onConfirm := Some("Passwords do not match"));
        }
      }
      assert e.onConfirm == ErrorOf(isLogin, data, ConfirmPassword);
      assert e == ErrorsOf(isLogin, data);
      errors := e;
      ok := e == NoErrors;
    }

    /** `toggleForm`. */
    method Toggle()
      modifies this
      ensures isLogin == !old(isLogin) && data == EmptyForm && errors == NoErrors && loading == old(loading)
    {
      isLogin := !isLogin;
      data := EmptyForm;
      errors := NoErrors;
    }

    /** `handleSubmit`: no call is made when validation fails; otherwise
        the call for the mode, a failure shown as the only message, and
        loading off at the end. */
    method Submit(outcome: Outcome) returns (call: AuthCall)
      modifies this
      ensures isLogin == old(isLogin) && data == old(data)
      ensures call.NoCall? <==> ErrorsOf(isLogin, data) != NoErrors
      ensures call.NoCall? ==> errors == ErrorsOf(isLogin, data) && loading == old(loading)
      ensures call.LoginCall? <==> isLogin && ErrorsOf(isLogin, data) == NoErrors
      ensures call.LoginCall? ==> call == LoginCall(data.email, data.password)
      ensures call.RegisterCall? ==> call == RegisterCall(data.email, data.username, data.password)
      ensures !call.NoCall? ==> !loading && errors == AfterCall(outcome)
    {
      var ok := ValidateForm();
      if !ok {
        return NoCall;
      }
      loading := true;
      call := if isLogin then LoginCall(data.email, data.password)
              else RegisterCall(data.email, data.username, data.password);
      match outcome {
        case Succeeded =>
        case Failed(error) => errors := NoErrors.(general := Some(error));
        case Threw => errors := NoErrors.(general := Some(Unexpected));
      }
      loading := false;
    }
  }

  /** The messages after a submission that made its call. */
  function AfterCall(outcome: Outcome): Errors {
    match outcome
    case Succeeded => NoErrors
    case Failed(error) => NoErrors.(general := Some(error))
    case Threw => NoErrors.(general := Some(Unexpected))
  }
}
