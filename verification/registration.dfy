/**
 Account creation in the auth controller: the registration validator, the
 email format it checks, and the decisions of `register` and `googleAuth`.
 Token signing and password hashing are left to their callers: the new
 user's id and the server secret are parameters.
 */
module Registration {

  import opened Outcomes
  import opened JsStrings
  import opened Users

  // ---------------------------------------------------------------- email

  /** A character the class `[^\s@]` accepts. */
  predicate Plain(c: char) {
    !IsWhitespace(c) && c != '@'
  }

  /** A non-empty run of `[^\s@]` characters: `[^\s@]+`. */
  predicate PlainRun(t: string) {
    |t| > 0 && forall k :: 0 <= k < |t| ==> Plain(t[k])
  }

  /** `^[^\s@]+@[^\s@]+\.[^\s@]+$`, read as the regular expression it is:
      three plain runs separated by `@` and `.`. */
  ghost predicate MatchesEmailRegex(s: string) {
    exists a: string, b: string, c: string ::
      s == a + "@" + b + "." + c && PlainRun(a) && PlainRun(b) && PlainRun(c)
  }

  /** The email check as a string predicate: no whitespace, exactly one `@`
      with something before it, and after it a domain free of `@` holding a
      `.` that is neither its first nor its last character. */
  predicate IsEmailFormat(s: string) {
    && (forall k :: 0 <= k < |s| ==> !IsWhitespace(s[k]))
    && exists i :: 0 < i < |s| && s[i] == '@'
         && (forall k :: 0 <= k < |s| && k != i ==> s[k] != '@')
         && exists j :: i + 1 < j < |s| - 1 && s[j] == '.'
  }

  /** Where the parts of `a + "@" + b + "." + c` sit. */
  lemma SplitPositions(s: string, a: string, b: string, c: string)
    requires s == a + "@" + b + "." + c
    ensures |s| == |a| + |b| + |c| + 2
    ensures s[|a|] == '@' && s[|a| + 1 + |b|] == '.'
    ensures forall k :: 0 <= k < |a| ==> s[k] == a[k]
    ensures forall k :: 0 <= k < |b| ==> s[|a| + 1 + k] == b[k]
    ensures forall k :: 0 <= k < |c| ==> s[|a| + |b| + 2 + k] == c[k]
  {
  }

  /** Every string the predicate accepts matches the regular expression. */
  lemma EmailFormatImpliesRegex(s: string)
    requires IsEmailFormat(s)
    ensures MatchesEmailRegex(s)
  {
    var i :| 0 < i < |s| && s[i] == '@'
       && (forall k :: 0 <= k < |s| && k != i ==> s[k] != '@')
       && exists j :: i + 1 < j < |s| - 1 && s[j] == '.';
    var j :| i + 1 < j < |s| - 1 && s[j] == '.';
    var a, b, c := s[..i], s[i + 1..j], s[j + 1..];
    assert s == a + "@" + b + "." + c by {
      assert s == s[..i] + [s[i]] + s[i + 1..j] + [s[j]] + s[j + 1..];
    }
    assert PlainRun(a) by {
      forall k | 0 <= k < |a| ensures Plain(a[k]) { assert a[k] == s[k]; }
    }
    assert PlainRun(b) by {
      forall k | 0 <= k < |b| ensures Plain(b[k]) { assert b[k] == s[i + 1 + k]; }
    }
    assert PlainRun(c) by {
      forall k | 0 <= k < |c| ensures Plain(c[k]) { assert c[k] == s[j + 1 + k]; }
    }
  }

  /** In `a + "@" + b + "." + c`, every character other than the two
      separators comes from one of the runs. */
  lemma PlainOutsideSeparators(s: string, a: string, b: string, c: string, k: int)
    requires s == a + "@" + b + "." + c && PlainRun(a) && PlainRun(b) && PlainRun(c)
    requires 0 <= k < |s| && k != |a| && k != |a| + 1 + |b|
    ensures Plain(s[k])
  {
    SplitPositions(s, a, b, c);
    var i := |a|;
    var j := |a| + 1 + |b|;
    if k < i { assert s[k] == a[k]; }
    else if k < j { assert s[k] == b[k - i - 1]; }
    else { assert s[k] == c[k - j - 1]; }
  }

  /** Every string the regular expression matches is accepted by the
      predicate. */
  lemma RegexImpliesEmailFormat(s: string)
    requires MatchesEmailRegex(s)
    ensures IsEmailFormat(s)
  {
    var a: string, b: string, c: string :|
      s == a + "@" + b + "." + c && PlainRun(a) && PlainRun(b) && PlainRun(c);
    SplitPositions(s, a, b, c);
    var i := |a|;
    var j := |a| + 1 + |b|;
    assert !IsWhitespace('@') && !IsWhitespace('.');
    forall k | 0 <= k < |s|
      ensures !IsWhitespace(s[k])
      ensures k != i ==> s[k] != '@'
    {
      if k != i && k != j { PlainOutsideSeparators(s, a, b, c, k); }
    }
    assert i + 1 < j < |s| - 1 && s[j] == '.';
  }

  /** The string predicate accepts exactly what the regular expression
      matches. */
  lemma EmailFormatMatchesRegex(s: string)
    ensures IsEmailFormat(s) <==> MatchesEmailRegex(s)
  {
    if IsEmailFormat(s) { EmailFormatImpliesRegex(s); }
    if MatchesEmailRegex(s) { RegexImpliesEmailFormat(s); }
  }

  // ----------------------------------------------------------- validation

  /** At most one message per field; `None` means the field is fine. */
  datatype FieldErrors = FieldErrors(name: Option<string>, email: Option<string>, password: Option<string>)

  datatype Validation = Validation(isValid: bool, errors: FieldErrors)

  /** The name check of `validateRegistration`. */
  function NameError(name: Option<string>): (e: Option<string>)
    ensures e == Some("Name is required") <==> !Present(name) || AllWhitespace(name.value)
    ensures e == Some("Name must be at least 2 characters long") <==> Present(name) && |Trim(name.value)| == 1
    ensures e.None? <==> Present(name) && |Trim(name.value)| >= 2
  {
    TrimEmptyIff(OrElse(name, ""));
    if !Present(name) || |Trim(name.value)| == 0 then Some("Name is required")
    else if |Trim(name.value)| < 2 then Some("Name must be at least 2 characters long")
    else None
  }

  /** The email check of `validateRegistration`. */
  function EmailError(email: Option<string>): (e: Option<string>)
    ensures e == Some("Email is required") <==> !Present(email)
    ensures e == Some("Invalid email format") <==> Present(email) && !MatchesEmailRegex(email.value)
    ensures e.None? <==> Present(email) && MatchesEmailRegex(email.value)
  {
    EmailFormatMatchesRegex(OrElse(email, ""));
    if !Present(email) then Some("Email is required")
    else if !IsEmailFormat(email.value) then Some("Invalid email format")
    else None
  }

  /** The password check of `validateRegistration`: length only, no trim. */
  function PasswordError(password: Option<string>): (e: Option<string>)
    ensures e == Some("Password is required") <==> !Present(password)
    ensures e == Some("Password must be at least 6 characters long") <==> Present(password) && |password.value| < 6
    ensures e.None? <==> Present(password) && |password.value| >= 6
  {
    if !Present(password) then Some("Password is required")
    else if |password.value| < 6 then Some("Password must be at least 6 characters long")
    else None
  }

  /** `validateRegistration`: valid exactly when no field has an error; each
      field carries at most one error. */
  function ValidateRegistration(name: Option<string>, email: Option<string>, password: Option<string>)
    : (v: Validation)
    ensures v.isValid <==> v.errors == FieldErrors(None, None, None)
    ensures v.isValid <==>
      && Present(name) && |Trim(name.value)| >= 2
      && Present(email) && MatchesEmailRegex(email.value)
      && Present(password) && |password.value| >= 6
    ensures v.errors == FieldErrors(NameError(name), EmailError(email), PasswordError(password))
  {
    var errors := FieldErrors(NameError(name), EmailError(email), PasswordError(password));
    Validation(errors == FieldErrors(None, None, None), errors)
  }

  // ------------------------------------------------------------- register

  datatype RegisterRequest = RegisterRequest(
    name: Option<string>,
    email: Option<string>,
    password: Option<string>,
    role: Option<string>,
    interests: Option<seq<string>>)

  /** `register`: 400 when name, email or password is missing (before any
      lookup), 400 when the lower-cased email is taken; otherwise a user is
      stored with trimmed name, lower-cased email, role defaulting to
      traveller and interests defaulting to none. */
  function Register(s: Store, req: RegisterRequest, newId: UserId): (r: Transition<Store, User>)
    requires newId !in s
    ensures r.result == Fail(BadRequest("Missing required fields"))
      <==> !Present(req.name) || !Present(req.email) || !Present(req.password)
    ensures r.result == Fail(BadRequest("User already exists"))
      <==> Present(req.name) && Present(req.email) && Present(req.password)
           && EmailTaken(s, ToLower(req.email.value))
    ensures r.result.Ok? <==>
      Present(req.name) && Present(req.email) && Present(req.password)
      && !EmailTaken(s, ToLower(req.email.value))
    ensures r.result.Fail? ==> r.after == s
    ensures r.result.Ok? ==>
      var u := r.result.value;
      && r.after == s[newId := u]
      && u.id == newId
      && u.name == Trim(req.name.value)
      && u.email == ToLower(req.email.value) && IsLowerCase(u.email)
      && u.credential == req.password.value
      && (u.role == Traveller <==> !Present(req.role) || req.role.value == Traveller)
      && (Present(req.role) ==> u.role == req.role.value)
      && (req.interests.None? ==> u.interests == [])
      && (req.interests.Some? ==> u.interests == req.interests.value)
      && u.following == [] && u.followers == [] && u.googleId.None?
  {
    if !Present(req.name) || !Present(req.email) || !Present(req.password) then
      Transition(s, Fail(BadRequest("Missing required fields")))
    else
      var email := ToLower(req.email.value);
      if EmailTaken(s, email) then Transition(s, Fail(BadRequest("User already exists")))
      else
        var u := User(newId, Trim(req.name.value), email, req.password.value,
                      OrElse(req.role, Traveller), None, "",
                      if req.interests.Some? then req.interests.value else [], [], []);
        Transition(s[newId := u], Ok(u))
  }

  /** `register` does not call the validator: a whitespace-only name and a
      malformed email are accepted. */
  lemma RegisterSkipsValidation()
    ensures var req := RegisterRequest(Some(" "), Some("x"), Some("p"), None, None);
      && Register(map[], req, "id").result.Ok?
      && !ValidateRegistration(req.name, req.email, req.password).isValid
  {
    var req := RegisterRequest(Some(" "), Some("x"), Some("p"), None, None);
    assert !EmailTaken(map[], ToLower("x"));
    assert AllWhitespace(" ") by { assert IsWhitespace(" "[0]); }
    assert NameError(req.name) == Some("Name is required");
  }

  /** Registration keeps emails unique. */
  lemma RegisterKeepsEmailsUnique(s: Store, req: RegisterRequest, newId: UserId)
    requires newId !in s
    requires EmailsUnique(s)
    ensures EmailsUnique(Register(s, req, newId).after)
  {
  }

  /** A registered user is found again under the lower-cased email, and a
      second registration with the same email is refused. */
  lemma RegisterThenFind(s: Store, req: RegisterRequest, newId: UserId, newId2: UserId)
    requires newId !in s && EmailsUnique(s)
    requires Register(s, req, newId).result.Ok?
    requires newId2 !in Register(s, req, newId).after
    ensures var s' := Register(s, req, newId).after;
      && EmailsUnique(s')
      && FindByEmail(s', ToLower(req.email.value)) == Some(newId)
      && Register(s', req, newId2) == Transition(s', Fail(BadRequest("User already exists")))
  {
    RegisterKeepsEmailsUnique(s, req, newId);
    var s' := Register(s, req, newId).after;
    assert s'[newId].email == ToLower(req.email.value);
    assert EmailTaken(s', ToLower(req.email.value));
  }

  /** Registration keeps every stored email lower-case. */
  lemma RegisterKeepsEmailsLowerCase(s: Store, req: RegisterRequest, newId: UserId)
    requires newId !in s
    requires forall id :: id in s ==> IsLowerCase(s[id].email)
    ensures var s' := Register(s, req, newId).after;
      forall id :: id in s' ==> IsLowerCase(s'[id].email)
  {
  }

  // ----------------------------------------------------------- googleAuth

  datatype GoogleRequest = GoogleRequest(
    name: Option<string>,
    email: Option<string>,
    uid: Option<string>,
    photoURL: Option<string>,
    role: Option<string>)

  /** `googleAuth`: 400 without email or uid; a user is created only when the
      lower-cased email is unknown; an existing user gets the Google id only
      when it has none, and an existing Google id is never overwritten. */
  function GoogleAuth(s: Store, req: GoogleRequest, newId: UserId, secret: string): (r: Transition<Store, User>)
    requires newId !in s
    requires WellKeyed(s) && EmailsUnique(s)
    ensures r.result.Fail? <==> !Present(req.email) || !Present(req.uid)
    ensures r.result.Fail? ==>
      r.result.failure == BadRequest("Missing required fields from Google authentication") && r.after == s
    ensures r.result.Ok? && !EmailTaken(s, ToLower(req.email.value)) ==>
      var u := r.result.value;
      && r.after == s[newId := u]
      && u.id == newId && u.email == ToLower(req.email.value)
      && u.name == OrElse(req.name, "Google User")
      && u.googleId == Some(req.uid.value)
      && u.profilePicture == OrElse(req.photoURL, "")
      && u.role == OrElse(req.role, Traveller)
      && u.credential == req.uid.value + secret
      && u.interests == [] && u.following == [] && u.followers == []
    ensures r.result.Ok? && EmailTaken(s, ToLower(req.email.value)) ==>
      var u := r.result.value;
      && u.id in s && s[u.id].email == ToLower(req.email.value)
      && r.after == s[u.id := u]
      && u == s[u.id].(googleId := u.googleId)
      && (Present(s[u.id].googleId) ==> u.googleId == s[u.id].googleId)
      && (!Present(s[u.id].googleId) ==> u.googleId == Some(req.uid.value))
  {
    if !Present(req.email) || !Present(req.uid) then
      Transition(s, Fail(BadRequest("Missing required fields from Google authentication")))
    else
      var email := ToLower(req.email.value);
      match FindByEmail(s, email)
      case None =>
        var u := User(newId, OrElse(req.name, "Google User"), email, req.uid.value + secret,
                      OrElse(req.role, Traveller), Some(req.uid.value), OrElse(req.photoURL, ""), [], [], []);
        Transition(s[newId := u], Ok(u))
      case Some(id) =>
        var u := if Present(s[id].googleId) then s[id] else s[id].(googleId := Some(req.uid.value));
        Transition(s[id := u], Ok(u))
  }

  /** Google sign-in keeps emails unique and every record under its id. */
  lemma GoogleAuthKeepsStoreInvariants(s: Store, req: GoogleRequest, newId: UserId, secret: string)
    requires newId !in s
    requires WellKeyed(s) && EmailsUnique(s)
    ensures WellKeyed(GoogleAuth(s, req, newId, secret).after)
    ensures EmailsUnique(GoogleAuth(s, req, newId, secret).after)
  {
  }

  /** A second Google sign-in with the same request creates no second user
      and changes nothing. */
  lemma GoogleAuthTwice(s: Store, req: GoogleRequest, newId: UserId, newId2: UserId, secret: string)
    requires newId !in s
    requires WellKeyed(s) && EmailsUnique(s)
    requires GoogleAuth(s, req, newId, secret).result.Ok?
    requires newId2 !in GoogleAuth(s, req, newId, secret).after
    ensures var s1 := GoogleAuth(s, req, newId, secret).after;
      WellKeyed(s1) && EmailsUnique(s1) && GoogleAuth(s1, req, newId2, secret).after == s1
  {
    GoogleAuthKeepsStoreInvariants(s, req, newId, secret);
    var t := GoogleAuth(s, req, newId, secret);
    var s1 := t.after;
    var e := ToLower(req.email.value);
    var u := t.result.value;
    assert u.id in s1 && s1[u.id].email == e;
    assert EmailTaken(s1, e);
    assert Present(s1[u.id].googleId);
  }
}
