/**
 * The registration form: an ordered validation of its fields, then one
 * `POST /user/register` whose token is stored on success.
 */
module Register {
  import opened Wrappers
  import opened Storage
  import opened Toasts

  const MinPasswordLength: nat := 6

  datatype Form = Form(username: string, email: string, phone: string,
                       password: string, confirmPassword: string)

  /** The outcome of `validateForm`: success, or the first check that failed. */
  datatype Check = Valid | MissingFields | InvalidEmail | PasswordMismatch | WeakPassword

  /**
   * JavaScript's `length`: the number of UTF-16 code units, so a character
   * outside the Basic Multilingual Plane counts twice.
   */
  function Utf16Length(s: string): (n: nat)
    ensures |s| <= n <= 2 * |s|
    ensures (forall i :: 0 <= i < |s| ==> s[i] as int < 0x1_0000) ==> n == |s|
    ensures (forall i :: 0 <= i < |s| ==> s[i] as int >= 0x1_0000) ==> n == 2 * |s|
  {
    if s == [] then 0 else (if s[0] as int >= 0x1_0000 then 2 else 1) + Utf16Length(s[1..])
  }

  /** The length of a concatenation is the sum of the lengths: each character counts on its own. */
  lemma {:induction false} Utf16LengthOfConcat(a: string, b: string)
    ensures Utf16Length(a + b) == Utf16Length(a) + Utf16Length(b)
  {
    if a == [] {
      assert a + b == b;
    } else {
      assert (a + b)[0] == a[0] && (a + b)[1..] == a[1..] + b;
      Utf16LengthOfConcat(a[1..], b);
    }
  }

  /** A character outside the Basic Multilingual Plane counts as two units, any other as one. */
  lemma Utf16LengthOfChar(c: char)
    ensures Utf16Length([c]) == if c as int >= 0x1_0000 then 2 else 1
  {
    assert [c][1..] == [];
  }

  predicate MissingField(f: Form)
  {
    f.username == "" || f.email == "" || f.password == "" || f.confirmPassword == ""
  }

  /**
   * `validateForm`: the four checks in order (required fields, an `@` in
   * the email, matching passwords, at least six characters); the first
   * that fails is reported. The phone number is not checked.
   */
  function Validate(f: Form): (c: Check)
    ensures c == Valid <==>
              f.username != "" && f.email != "" && f.password != "" && f.confirmPassword != "" &&
              '@' in f.email && f.password == f.confirmPassword &&
              Utf16Length(f.password) >= MinPasswordLength
    ensures c == MissingFields <==> MissingField(f)
    ensures c == InvalidEmail <==> !MissingField(f) && '@' !in f.email
    ensures c == PasswordMismatch <==>
              !MissingField(f) && '@' in f.email && f.password != f.confirmPassword
    ensures c == WeakPassword <==>
              !MissingField(f) && '@' in f.email && f.password == f.confirmPassword &&
              Utf16Length(f.password) < MinPasswordLength
  {
    if MissingField(f) then MissingFields
    else if '@' !in f.email then InvalidEmail
    else if f.password != f.confirmPassword then PasswordMismatch
    else if Utf16Length(f.password) < MinPasswordLength then WeakPassword
    else Valid
  }

  /** The phone number never affects validation. */
  lemma PhoneNotRequired(f: Form, phone: string)
    ensures Validate(f.(phone := phone)) == Validate(f)
  {
  }

  /** Six UTF-16 units can be as few as three characters: `length` is not a character count. */
  lemma AstralPasswordOfThreeCharactersPasses()
    ensures Validate(Form("u", "a@b", "", "\U{1F600}\U{1F600}\U{1F600}", "\U{1F600}\U{1F600}\U{1F600}")) == Valid
  {
    var p := "\U{1F600}\U{1F600}\U{1F600}";
    assert Utf16Length(p[2..]) == 2;
    assert p[1..][1..] == p[2..];
  }

  /** The toast for a failed check: each check has its own title, none of them a registration result. */
  function ValidationToast(c: Check): (t: Toast)
    requires c != Valid
    ensures c == MissingFields <==> t.title == "Missing Fields"
    ensures c == InvalidEmail <==> t.title == "Invalid Email"
    ensures c == PasswordMismatch <==> t.title == "Password Mismatch"
    ensures c == WeakPassword <==> t.title == "Weak Password"
    ensures c == WeakPassword ==> t.description == "Password must be at least 6 characters long"
    ensures t.title != "Registration Successful" && t.title != "Registration Failed"
  {
    match c
    case MissingFields => Toast("Missing Fields", "Please fill in all required fields")
    case InvalidEmail => Toast("Invalid Email", "Please enter a valid email address")
    case PasswordMismatch => Toast("Password Mismatch", "Passwords do not match")
    case WeakPassword => Toast("Weak Password", "Password must be at least 6 characters long")
  }

  /** What the register endpoint answers; `serverError` is the `error` field of an error response, if any. */
  datatype RegisterResponse = Registered(token: string) | RegisterFailed(serverError: Option<string>)

  /** The body of the register request: the confirmation field is not sent. */
  datatype RegisterRequest = RegisterRequest(username: string, email: string, phone: string, password: string)

  const DefaultFailure: string := "Registration failed. Please try again."

  /** `error.response?.data?.error || default`: an absent or empty server message gives the default. */
  function FailureDescription(serverError: Option<string>): (d: string)
    ensures d != ""
    ensures serverError.Some? && serverError.value != "" ==> d == serverError.value
    ensures serverError.None? || serverError.value == "" ==> d == DefaultFailure
  {
    if serverError.Some? && serverError.value != "" then serverError.value else DefaultFailure
  }

  class RegisterForm {
    var username: string
    var email: string
    var phone: string
    var password: string
    var confirmPassword: string
    var loading: bool
    const store: KeyValueStore

    constructor (store: KeyValueStore)
      ensures username == email == phone == password == confirmPassword == ""
      ensures !loading && this.store == store
    {
      username, email, phone, password, confirmPassword := "", "", "", "", "";
      loading := false;
      this.store := store;
    }

    function Fields(): Form
      reads this
    {
      Form(username, email, phone, password, confirmPassword)
    }

    /**
     * `handleRegister`, with `response` the server's answer if asked.
     * Returns the request sent (if any), the toast shown, and whether
     * `onRegisterSuccess` was called.
     */
    method HandleRegister(response: RegisterResponse) returns (request: Option<RegisterRequest>, toast: Toast, succeeded: bool)
      modifies this`loading, store
      ensures var c := Validate(Fields());
              c != Valid ==> request == None && toast == ValidationToast(c) && !succeeded &&
                             loading == old(loading) && store.items == old(store.items)
      ensures Validate(Fields()) == Valid ==>
                request == Some(RegisterRequest(username, email, phone, password)) && !loading
      ensures Validate(Fields()) == Valid && response.Registered? ==>
                succeeded && store.items == old(store.items)[AuthTokenKey := response.token] &&
                toast == Toast("Registration Successful", "Welcome to Journal App!")
      ensures Validate(Fields()) == Valid && response.RegisterFailed? ==>
                !succeeded && store.items == old(store.items) &&
                toast == Toast("Registration Failed", FailureDescription(response.serverError))
    {
      var check := Validate(Fields());
      if check != Valid {
        request, toast, succeeded := None, ValidationToast(check), false;
        return;
      }

      loading := true;
      request := Some(RegisterRequest(username, email, phone, password));
      match response {
        case Registered(token) =>
          store.SetItem(AuthTokenKey, token);
          toast := Toast("Registration Successful", "Welcome to Journal App!");
          succeeded := true;
        case RegisterFailed(serverError) =>
          toast := Toast("Registration Failed", FailureDescription(serverError));
          succeeded := false;
      }
      loading := false;
    }
  }
}
