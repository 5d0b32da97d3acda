/**
 * The sign-in form: a guard against blank fields, one `POST /user/login`
 * whose token is stored on success, and a three-way classification of
 * failures into the toast the user sees.
 */
module Auth {
  import opened Wrappers
  import opened Storage
  import opened Toasts

  // -------------------------------------------------- String.prototype.trim

  /**
   * ECMAScript's WhiteSpace and LineTerminator characters, the ones `trim`
   * removes, as inclusive ranges of code points.
   */
  const JsWhitespace: seq<(char, char)> := [
    ('\t', '\r'),                // tab, line feed, vertical tab, form feed, carriage return
    (' ', ' '),
    ('\U{00A0}', '\U{00A0}'),    // no-break space
    ('\U{1680}', '\U{1680}'),    // Ogham space mark
    ('\U{2000}', '\U{200A}'),    // en quad to hair space
    ('\U{2028}', '\U{2029}'),    // line and paragraph separators
    ('\U{202F}', '\U{202F}'),    // narrow no-break space
    ('\U{205F}', '\U{205F}'),    // medium mathematical space
    ('\U{3000}', '\U{3000}'),    // ideographic space
    ('\U{FEFF}', '\U{FEFF}')     // zero width no-break space (byte order mark)
  ]

  predicate InRanges(c: char, ranges: seq<(char, char)>)
  {
    ranges != [] && (ranges[0].0 <= c <= ranges[0].1 || InRanges(c, ranges[1..]))
  }

  /** A character lies in one of the ranges iff some range holds it. */
  lemma {:induction false} InRangesIffSome(c: char, ranges: seq<(char, char)>)
    ensures InRanges(c, ranges) <==> exists i :: 0 <= i < |ranges| && ranges[i].0 <= c <= ranges[i].1
  {
    if ranges != [] {
      InRangesIffSome(c, ranges[1..]);
      if exists i :: 0 <= i < |ranges| && ranges[i].0 <= c <= ranges[i].1 {
        var i :| 0 <= i < |ranges| && ranges[i].0 <= c <= ranges[i].1;
        if i > 0 {
          assert ranges[1..][i - 1] == ranges[i];
        }
      }
    }
  }

  predicate IsJsWhitespace(c: char)
  {
    InRanges(c, JsWhitespace)
  }

  /** Printable ASCII characters other than the space are never whitespace. */
  lemma VisibleIsNotWhitespace(c: char)
    requires '!' <= c <= '~'
    ensures !IsJsWhitespace(c)
  {
    InRangesIffSome(c, JsWhitespace);
  }

  /** Every character of `s` is whitespace. */
  predicate AllWhitespace(s: string)
  {
    s == [] || (IsJsWhitespace(s[0]) && AllWhitespace(s[1..]))
  }

  lemma {:induction false} AllWhitespaceIffEvery(s: string)
    ensures AllWhitespace(s) <==> forall i :: 0 <= i < |s| ==> IsJsWhitespace(s[i])
  {
    if s != [] {
      AllWhitespaceIffEvery(s[1..]);
      assert forall i :: 0 < i < |s| ==> s[i] == s[1..][i - 1];
    }
  }

  lemma {:induction false} AllWhitespaceOfConcat(a: string, b: string)
    ensures AllWhitespace(a + b) <==> AllWhitespace(a) && AllWhitespace(b)
  {
    if a == [] {
      assert a + b == b;
    } else {
      assert (a + b)[0] == a[0] && (a + b)[1..] == a[1..] + b;
      AllWhitespaceOfConcat(a[1..], b);
    }
  }

  /** A whitespace character before a whitespace prefix of the rest gives a longer whitespace prefix. */
  lemma WhitespacePrefixGrows(s: string, m: nat)
    requires s != [] && IsJsWhitespace(s[0])
    requires m < |s| && AllWhitespace(s[1..][..m])
    ensures AllWhitespace(s[..m + 1])
  {
    assert s[..m + 1][0] == s[0] && s[..m + 1][1..] == s[1..][..m];
  }

  /** A whitespace suffix of all but the last character, then a whitespace last character, is a whitespace suffix. */
  lemma WhitespaceSuffixGrows(s: string, k: nat)
    requires s != [] && IsJsWhitespace(s[|s| - 1])
    requires k < |s| && AllWhitespace(s[..|s| - 1][k..])
    ensures AllWhitespace(s[k..])
  {
    assert s[k..] == s[..|s| - 1][k..] + [s[|s| - 1]];
    assert AllWhitespace([s[|s| - 1]]) by { assert [s[|s| - 1]][1..] == []; }
    AllWhitespaceOfConcat(s[..|s| - 1][k..], [s[|s| - 1]]);
  }

  /** The number of whitespace characters `s` starts with. */
  function LeadingWhitespace(s: string): (k: nat)
    ensures k <= |s|
    ensures AllWhitespace(s[..k])
    ensures k < |s| ==> !IsJsWhitespace(s[k])
  {
    if s != [] && IsJsWhitespace(s[0]) then
      var k := LeadingWhitespace(s[1..]);
      WhitespacePrefixGrows(s, k);
      k + 1
    else
      assert s[..0] == [];
      0
  }

  /** Where the whitespace that `s` ends with begins. */
  function TrailingWhitespace(s: string): (k: nat)
    ensures k <= |s|
    ensures AllWhitespace(s[k..])
    ensures k > 0 ==> !IsJsWhitespace(s[k - 1])
  {
    if s != [] && IsJsWhitespace(s[|s| - 1]) then
      var k := TrailingWhitespace(s[..|s| - 1]);
      WhitespaceSuffixGrows(s, k);
      k
    else
      assert s[|s|..] == [];
      |s|
  }

  /** `s` without its leading whitespace: what is removed is whitespace, and what is left does not start with it. */
  function TrimStart(s: string): (r: string)
    ensures |r| <= |s| && r == s[|s| - |r|..]
    ensures AllWhitespace(s[..|s| - |r|])
    ensures r == [] <==> AllWhitespace(s)
    ensures r != [] ==> !IsJsWhitespace(r[0])
  {
    var k := LeadingWhitespace(s);
    AllWhitespaceOfSplit(s, k);
    s[k..]
  }

  /** `s` without its trailing whitespace: what is removed is whitespace, and what is left does not end with it. */
  function TrimEnd(s: string): (r: string)
    ensures |r| <= |s| && r == s[..|r|]
    ensures AllWhitespace(s[|r|..])
    ensures r == [] <==> AllWhitespace(s)
    ensures r != [] ==> !IsJsWhitespace(r[|r| - 1])
  {
    var k := TrailingWhitespace(s);
    AllWhitespaceOfSplit(s, k);
    assert k > 0 ==> !AllWhitespace(s[..k]) by {
      if k > 0 {
        assert s[..k][k - 1] == s[k - 1];
        AllWhitespaceIffEvery(s[..k]);
      }
    }
    s[..k]
  }

  /** `s.trim()`: a piece of `s` that neither starts nor ends with whitespace; empty iff `s` is all whitespace. */
  function Trim(s: string): (r: string)
    ensures r == [] <==> AllWhitespace(s)
    ensures r != [] ==> !IsJsWhitespace(r[0]) && !IsJsWhitespace(r[|r| - 1])
  {
    var front := TrimStart(s);
    AllWhitespaceOfSplit(s, |s| - |front|);
    var r := TrimEnd(front);
    assert r != [] ==> r[0] == front[0];
    r
  }

  /** A string is blank iff both pieces of any split of it are. */
  lemma AllWhitespaceOfSplit(s: string, k: nat)
    requires k <= |s|
    ensures AllWhitespace(s) <==> AllWhitespace(s[..k]) && AllWhitespace(s[k..])
  {
    assert s == s[..k] + s[k..];
    AllWhitespaceOfConcat(s[..k], s[k..]);
  }

  /** `trim()` removes only whitespace: around the piece it keeps there is nothing else. */
  lemma TrimRemovesOnlyWhitespace(s: string)
    ensures exists i, j :: 0 <= i <= j <= |s| && Trim(s) == s[i..j] && AllWhitespace(s[..i]) && AllWhitespace(s[j..])
  {
    var front := TrimStart(s);
    var r := TrimEnd(front);
    var i := |s| - |front|;
    SliceOfSlice(s, i, |r|);
    assert r == s[i..i + |r|] && s[i + |r|..] == front[|r|..];
  }

  /** Slicing a slice is slicing the original at shifted indices. */
  lemma SliceOfSlice(s: string, i: nat, k: nat)
    requires i + k <= |s|
    ensures s[i..][..k] == s[i..i + k] && s[i..][k..] == s[i + k..]
  {
  }

  // ----------------------------------------------------------- the request

  datatype Credentials = Credentials(email: string, password: string)

  /** `email.trim() === "" || password.trim() === ""`. */
  predicate EmptyFields(email: string, password: string)
  {
    Trim(email) == "" || Trim(password) == ""
  }

  /** The guard rejects exactly the forms where a field is blank (empty or only whitespace). */
  lemma EmptyFieldsIffBlank(email: string, password: string)
    ensures EmptyFields(email, password) <==> AllWhitespace(email) || AllWhitespace(password)
  {
  }

  /** Fields padded with spaces pass the guard: only a blank field is refused. */
  lemma PaddedFieldsPassGuard()
    ensures !EmptyFields(" a@b ", " pw ")
  {
    VisibleIsNotWhitespace('a');
    VisibleIsNotWhitespace('p');
    assert !AllWhitespace(" a@b ") by { assert " a@b "[1..][0] == 'a'; }
    assert !AllWhitespace(" pw ") by { assert " pw "[1..][0] == 'p'; }
  }

  // ------------------------------------------------------------- failures

  /** The body of an error response, with its `error` field if present. */
  datatype ServerReply = ServerReply(error: Option<string>)

  /**
   * A failed login as axios reports it: the server's response if one
   * arrived, and whether the request was sent at all.
   */
  datatype LoginError = LoginError(response: Option<ServerReply>, requestSent: bool)

  datatype LoginResponse = LoggedIn(token: string) | LoginFailed(error: LoginError)

  const EmptyFieldsToast: Toast := Toast("Empty Fields", "Please enter both email and password.")
  const SuccessToast: Toast := Toast("Login Successful", "Welcome back! Redirecting...")

  /**
   * The toast for a failed login: a server response gives "Login Failed"
   * with the server's message (or "Invalid credentials"); a request with no
   * response gives "Connection Error"; anything else gives "Error".
   */
  function FailureToast(e: LoginError): (t: Toast)
    ensures t.title == "Login Failed" <==> e.response.Some?
    ensures t.title == "Connection Error" <==> e.response.None? && e.requestSent
    ensures t.title == "Error" <==> e.response.None? && !e.requestSent
    ensures e.response.Some? && e.response.value.error.Some? && e.response.value.error.value != "" ==>
              t.description == e.response.value.error.value
    ensures e.response.Some? && (e.response.value.error.None? || e.response.value.error.value == "") ==>
              t.description == "Invalid credentials"
  {
    if e.response.Some? then
      var message :=
        if e.response.value.error.Some? && e.response.value.error.value != ""
        then e.response.value.error.value
        else "Invalid credentials";
      Toast("Login Failed", message)
    else if e.requestSent then
      Toast("Connection Error", "Please check your internet connection.")
    else
      Toast("Error", "Something went wrong. Please try again.")
  }

  /** Whatever the failure, the toast is never the success or empty-fields one. */
  lemma FailureToastIsAnError(e: LoginError)
    ensures FailureToast(e) != SuccessToast && FailureToast(e) != EmptyFieldsToast
  {
  }

  // ---------------------------------------------------------------- form

  class SignInForm {
    var email: string
    var password: string
    var loading: bool
    const store: KeyValueStore

    constructor (store: KeyValueStore)
      ensures email == "" && password == "" && !loading && this.store == store
    {
      email, password, loading := "", "", false;
      this.store := store;
    }

    /**
     * `handleSignIn`, with `response` the server's answer if asked.
     * Returns the credentials sent (if any), the toast shown, and whether
     * `onAuthSuccess` was scheduled.
     */
    method HandleSignIn(response: LoginResponse) returns (request: Option<Credentials>, toast: Toast, successScheduled: bool)
      modifies this`loading, store
      ensures old(EmptyFields(email, password)) ==>
                request == None && toast == EmptyFieldsToast && !successScheduled &&
                loading == old(loading) && store.items == old(store.items)
      ensures !old(EmptyFields(email, password)) ==>
                request == Some(Credentials(email, password)) && !loading
      ensures !old(EmptyFields(email, password)) && response.LoggedIn? ==>
                store.items == old(store.items)[AuthTokenKey := response.token] &&
                toast == SuccessToast && successScheduled
      ensures !old(EmptyFields(email, password)) && response.LoginFailed? ==>
                store.items == old(store.items) && toast == FailureToast(response.error) &&
                !successScheduled
    {
      if EmptyFields(email, password) {
        request, toast, successScheduled := None, EmptyFieldsToast, false;
        return;
      }

      loading := true;
      request := Some(Credentials(email, password));
      match response {
        case LoggedIn(token) =>
          store.SetItem(AuthTokenKey, token);
          toast := SuccessToast;
          successScheduled := true;
        case LoginFailed(error) =>
          toast := FailureToast(error);
          successScheduled := false;
      }
      loading := false;
    }
  }
}
