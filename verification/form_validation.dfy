/** The sign-up and sign-in forms. Both revisions of each screen trim every
    input, then check the fields in a fixed order and stop at the first
    problem, moving the focus to that field; the request is made only when
    every check passes.
 */
module FormValidation {
  import opened Wrappers
  import opened Text

  datatype Field = Name | Email | Password

  /** Why a form was refused, which also names the field that gets the
      focus: a field left blank, or a password under six UTF-16 units. */
  datatype Problem = Blank(field: Field) | PasswordTooShort

  const MinPasswordLength: nat := 6

  /** `infoValidationCheck` of the sign-up screen: name, email, password
      blank, then password length as `String.length` counts it, in UTF-16
      units; `None` means valid. */
  function RegisterCheck(name: string, email: string, pw: string): (r: Option<Problem>)
    ensures r.None? <==> !IsBlank(name) && !IsBlank(email) && !IsBlank(pw) && Utf16Length(pw) >= MinPasswordLength
    ensures r == Some(Blank(Name)) <==> IsBlank(name)
    ensures r == Some(Blank(Email)) <==> !IsBlank(name) && IsBlank(email)
    ensures r == Some(Blank(Password)) <==> !IsBlank(name) && !IsBlank(email) && IsBlank(pw)
    ensures r == Some(PasswordTooShort) <==>
              !IsBlank(name) && !IsBlank(email) && !IsBlank(pw) && Utf16Length(pw) < MinPasswordLength
  {
    if IsBlank(name) then Some(Blank(Name))
    else if IsBlank(email) then Some(Blank(Email))
    else if IsBlank(pw) then Some(Blank(Password))
    else if Utf16Length(pw) < MinPasswordLength then Some(PasswordTooShort)
    else None
  }

  /** `attemptRegister`: the trimmed inputs are checked and, when valid,
      sent on as they are after trimming. */
  function AttemptRegister(name: string, email: string, pw: string): (r: Option<(string, string, string)>)
    ensures r.Some? <==> Trim(name) != [] && Trim(email) != [] && Utf16Length(Trim(pw)) >= MinPasswordLength
    ensures r.Some? ==> r.value == (Trim(name), Trim(email), Trim(pw))
  {
    var (n, e, p) := (Trim(name), Trim(email), Trim(pw));
    BlankIffTrimEmpty(name);
    BlankIffTrimEmpty(email);
    BlankIffTrimEmpty(pw);
    TrimIdempotent(name);
    TrimIdempotent(email);
    TrimIdempotent(pw);
    BlankIffTrimEmpty(n);
    BlankIffTrimEmpty(e);
    BlankIffTrimEmpty(p);
    if RegisterCheck(n, e, p).None? then Some((n, e, p)) else None
  }

  /** Surrounding whitespace never counts towards the password length: a
      password of six characters one of which is a space is refused. */
  lemma PaddedPasswordTooShort()
    ensures RegisterCheck("kim", "kim@mail", Trim(" abcde")) == Some(PasswordTooShort)
    ensures AttemptRegister("kim", "kim@mail", " abcde").None?
  {
    TrimDropsPadding();
    assert Utf16Length("abcde") == 5 by {
      var s := "abcde";
      assert forall i :: 0 <= i < |s| ==> !Supplementary(s[i]);
    }
    assert !IsBlank("kim") by { assert !IsWhitespace("kim"[0]); }
    assert !IsBlank("kim@mail") by { assert !IsWhitespace("kim@mail"[0]); }
    assert !IsBlank("abcde") by { assert !IsWhitespace("abcde"[0]); }
  }

  lemma TrimDropsPadding()
    ensures Trim(" abcde") == "abcde"
  {
    var s := " abcde";
    assert IsWhitespace(s[0]) && !IsWhitespace(s[1]);
    assert FirstNonBlank(s[1..]) == 0;
    assert FirstNonBlank(s) == 1;
    assert s[1..] == "abcde";
    assert LastNonBlankEnd("abcde") == 5;
  }

  /** The length rule counts UTF-16 units, not characters: three emoji
      make a long enough password, five letters do not. */
  lemma EmojiPasswordLongEnough()
    ensures RegisterCheck("kim", "kim@mail", "\U{1F600}\U{1F600}\U{1F600}").None?
    ensures RegisterCheck("kim", "kim@mail", "abcde") == Some(PasswordTooShort)
  {
    var pw := "\U{1F600}\U{1F600}\U{1F600}";
    assert Supplementary(pw[0]) && Supplementary(pw[1]) && Supplementary(pw[2]);
    assert !IsBlank("kim") by { assert !IsWhitespace("kim"[0]); }
    assert !IsBlank("kim@mail") by { assert !IsWhitespace("kim@mail"[0]); }
    assert !IsBlank(pw) by { assert !IsWhitespace(pw[0]); }
    assert !IsBlank("abcde") by { assert !IsWhitespace("abcde"[0]); }
    assert !Supplementary("abcde"[4]);
  }

  /** `infoValidationCheck` of the sign-in screen: email, then password. */
  function LoginCheck(email: string, pw: string): (r: Option<Problem>)
    ensures r.None? <==> !IsBlank(email) && !IsBlank(pw)
    ensures r == Some(Blank(Email)) <==> IsBlank(email)
    ensures r == Some(Blank(Password)) <==> !IsBlank(email) && IsBlank(pw)
    ensures r != Some(Blank(Name)) && r != Some(PasswordTooShort)
  {
    if IsBlank(email) then Some(Blank(Email))
    else if IsBlank(pw) then Some(Blank(Password))
    else None
  }

  /** `attemptLogin`: the trimmed inputs are checked and, when valid, the
      sign-in is attempted with them. */
  function AttemptLogin(email: string, pw: string): (r: Option<(string, string)>)
    ensures r.Some? <==> Trim(email) != [] && Trim(pw) != []
    ensures r.Some? ==> r.value == (Trim(email), Trim(pw))
  {
    var (e, p) := (Trim(email), Trim(pw));
    BlankIffTrimEmpty(e);
    BlankIffTrimEmpty(p);
    if LoginCheck(e, p).None? then Some((e, p)) else None
  }

  /** Any input the sign-up form would accept as email and password passes
      the sign-in form too. */
  lemma RegisterAcceptsImpliesLoginAccepts(name: string, email: string, pw: string)
    requires AttemptRegister(name, email, pw).Some?
    ensures AttemptLogin(email, pw) == Some((Trim(email), Trim(pw)))
  {
  }
}
