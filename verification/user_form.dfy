/**
 * The create/edit form: its initial data, field updates, the status select,
 * the email pattern and the validation that decides whether a save request is
 * sent.
 */
module UserForm {
  import opened Wrappers
  import opened JsText
  import opened UserFields

  /** The keys of the `errors` record: "firstName", "lastName", "email". */
  datatype ErrorKey = FirstNameKey | LastNameKey | EmailKey

  /** `formData`, the `errors` record, and `isEditMode`. */
  datatype Form = Form(data: UserField, errors: map<ErrorKey, Message>, editMode: bool)

  // ---------------------------------------------------------------------------
  // Initial state

  /** `a || fallback` on strings: the empty string is falsy. */
  function OrElse(a: string, fallback: string): string {
    if a == "" then fallback else a
  }

  /**
   * The initial `formData`: `id ?? 0`, each string `|| ""`, `status || false`
   * from the initial data, or all defaults without it.
   */
  function InitialData(initial: Option<UserField>): (d: UserField)
    ensures initial.Some? ==> d == initial.value
    ensures initial.None? ==> d.id == 0 && d.firstName == "" && d.lastName == "" && d.email == "" && !d.status
  {
    match initial
    case Some(u) => UserField(u.id, OrElse(u.firstName, ""), OrElse(u.lastName, ""), OrElse(u.email, ""), u.status || false)
    case None => UserField(0, "", "", "", false)
  }

  /** The form as first rendered: no errors; edit mode exactly when initial data is given. */
  function Init(initial: Option<UserField>): (f: Form)
    ensures f.editMode <==> initial.Some?
    ensures f.errors == map[]
  {
    Form(InitialData(initial), map[], initial.Some?)
  }

  // ---------------------------------------------------------------------------
  // Field updates

  /** The inputs wired to `handleChange`, by their `name` attribute. */
  datatype TextInput = FirstNameInput | LastNameInput | EmailInput

  function Read(d: UserField, input: TextInput): string {
    match input
    case FirstNameInput => d.firstName
    case LastNameInput => d.lastName
    case EmailInput => d.email
  }

  /** `handleChange`: `{...prev, [name]: value}`. */
  function HandleChange(f: Form, input: TextInput, value: string): (g: Form)
    ensures Read(g.data, input) == value
    ensures forall other :: other != input ==> Read(g.data, other) == Read(f.data, other)
    ensures g.data.id == f.data.id && g.data.status == f.data.status
    ensures g.errors == f.errors && g.editMode == f.editMode
  {
    var d := f.data;
    var d' := match input
      case FirstNameInput => d.(firstName := value)
      case LastNameInput => d.(lastName := value)
      case EmailInput => d.(email := value);
    f.(data := d')
  }

  /** The status select's value for a status flag. */
  function StatusOption(status: bool): string {
    if status then "Activo" else "Inactivo"
  }

  /** The status select's `onChange`: the flag is whether "Activo" was chosen. */
  function ChangeStatus(f: Form, selected: string): (g: Form)
    ensures g.data == f.data.(status := selected == "Activo")
    ensures g.errors == f.errors && g.editMode == f.editMode
  {
    f.(data := f.data.(status := selected == "Activo"))
  }

  /** Showing a flag in the select and choosing what is shown gives back the flag, and the reverse for either option. */
  lemma StatusRoundTrip(f: Form, status: bool, option: string)
    ensures ChangeStatus(f, StatusOption(status)).data.status == status
    ensures option == "Activo" || option == "Inactivo" ==> StatusOption(ChangeStatus(f, option).data.status) == option
  {
  }

  // ---------------------------------------------------------------------------
  // The email pattern ^[^\s@]+@[^\s@]+\.[^\s@]+$

  /** A character of the class `[^\s@]`. */
  predicate PlainChar(c: char) {
    !IsSpace(c) && c != '@'
  }

  /** Every character of `t` is in `[^\s@]` (so `t` is one run of the class, or empty). */
  predicate Clean(t: string) {
    |t| == 0 || (PlainChar(t[0]) && Clean(t[1..]))
  }

  /** `Clean` says of every character what its recursion says of the first. */
  lemma {:induction false} CleanIff(t: string)
    ensures Clean(t) <==> forall k :: 0 <= k < |t| ==> PlainChar(t[k])
    decreases |t|
  {
    if |t| > 0 {
      CleanIff(t[1..]);
      assert forall k :: 0 < k < |t| ==> t[k] == t[1..][k - 1];
    }
  }

  /** Cutting a clean string around one of its characters leaves two clean pieces, and the reverse. */
  lemma CleanSplit(t: string, j: int)
    requires 0 <= j < |t| && PlainChar(t[j])
    ensures Clean(t) <==> Clean(t[..j]) && Clean(t[j + 1..])
  {
    CleanIff(t);
    CleanIff(t[..j]);
    CleanIff(t[j + 1..]);
    if Clean(t[..j]) && Clean(t[j + 1..]) {
      forall k | 0 <= k < |t| ensures PlainChar(t[k]) {
        if k < j {
          assert t[k] == t[..j][k];
        } else if k > j {
          assert t[k] == t[j + 1..][k - j - 1];
        }
      }
    }
  }

  /** `[^\s@]+\.[^\s@]+` matches the whole of `d`, splitting it at some '.'. */
  ghost predicate DomainMatches(d: string) {
    exists j :: 0 < j < |d| - 1 && d[j] == '.' && Clean(d[..j]) && Clean(d[j + 1..])
  }

  /** `s` is a run of `[^\s@]*` up to an '@' at `at`, and the domain pattern matches the rest. */
  ghost predicate SplitAt(s: string, at: int) {
    0 <= at < |s| && s[at] == '@' && Clean(s[..at]) && DomainMatches(s[at + 1..])
  }

  /** The anchored pattern matches `s`: a non-empty local part, then '@' and a matching domain. */
  ghost predicate PatternMatches(s: string) {
    exists at :: 0 < at && SplitAt(s, at)
  }

  /**
   * The states of a left-to-right scan for the pattern: nothing read, inside
   * the local part, just past the '@', inside the domain before a usable '.',
   * just past such a '.', inside the part after it, and failed.
   */
  datatype ScanState = Start | Local | AtSign | Host | Dotted | Tail | Reject

  /** One character of the scan. */
  function Next(st: ScanState, c: char): ScanState {
    if IsSpace(c) then Reject
    else if c == '@' then (if st == Local then AtSign else Reject)
    else match st
      case Start => Local
      case Local => Local
      case AtSign => Host
      case Host => if c == '.' then Dotted else Host
      case Dotted => Tail
      case Tail => Tail
      case Reject => Reject
  }

  /** The state after reading all of `s` from `st`. */
  function Scan(st: ScanState, s: string): ScanState
    decreases |s|
  {
    if |s| == 0 then st else Scan(Next(st, s[0]), s[1..])
  }

  /** `validateEmail`: `re.test(email)`, decided by scanning the email once. */
  predicate ValidateEmail(s: string) {
    Scan(Start, s) == Tail
  }

  lemma {:induction false} RejectSticks(s: string)
    ensures Scan(Reject, s) == Reject
    decreases |s|
  {
    if |s| > 0 {
      RejectSticks(s[1..]);
    }
  }

  /** From the part after the domain's '.', the scan accepts exactly the clean strings. */
  lemma {:induction false} TailAccepts(s: string)
    ensures Scan(Tail, s) == Tail <==> Clean(s)
    decreases |s|
  {
    if |s| > 0 {
      if PlainChar(s[0]) {
        TailAccepts(s[1..]);
      } else {
        RejectSticks(s[1..]);
      }
    }
  }

  /** A '.' of `s` that has at least one character after it. */
  ghost predicate DotBeforeLast(s: string) {
    exists j :: 0 <= j < |s| - 1 && s[j] == '.'
  }

  /** Inside the domain, the scan accepts exactly the clean strings with a '.' before their last character. */
  lemma {:induction false} HostAccepts(s: string)
    ensures Scan(Host, s) == Tail <==> Clean(s) && DotBeforeLast(s)
    decreases |s|
  {
    if |s| > 0 {
      var c, rest := s[0], s[1..];
      if !PlainChar(c) {
        RejectSticks(rest);
      } else if c == '.' {
        if |rest| > 0 {
          assert Scan(Host, s) == Scan(Next(Dotted, rest[0]), rest[1..]);
          TailAccepts(rest[1..]);
          RejectSticks(rest[1..]);
          assert s[0] == '.' && 0 < |s| - 1;
          assert DotBeforeLast(s);
        }
      } else {
        HostAccepts(rest);
        if DotBeforeLast(s) {
          var j :| 0 <= j < |s| - 1 && s[j] == '.';
          assert rest[j - 1] == '.';
        }
        if DotBeforeLast(rest) {
          var j :| 0 <= j < |rest| - 1 && rest[j] == '.';
          assert s[j + 1] == '.';
        }
      }
    }
  }

  /** Just past the '@', the scan accepts exactly the strings the domain pattern matches. */
  lemma AtSignAccepts(d: string)
    ensures Scan(AtSign, d) == Tail <==> DomainMatches(d)
  {
    if |d| == 0 {
      return;
    }
    var c, rest := d[0], d[1..];
    if !PlainChar(c) {
      RejectSticks(rest);
      return;
    }
    HostAccepts(rest);
    if Scan(AtSign, d) == Tail {
      var j :| 0 <= j < |rest| - 1 && rest[j] == '.';
      CleanSplit(d, j + 1);
      assert d[j + 2..] == rest[j + 1..];
      assert DomainMatches(d);
    }
    if DomainMatches(d) {
      var j :| 0 < j < |d| - 1 && d[j] == '.' && Clean(d[..j]) && Clean(d[j + 1..]);
      CleanSplit(d, j);
      assert rest[j - 1] == '.';
      assert DotBeforeLast(rest);
    }
  }

  /** Shifting the '@' by one plain leading character. */
  lemma SplitShift(s: string, at: int)
    requires |s| > 0 && PlainChar(s[0]) && 0 <= at
    ensures SplitAt(s, at + 1) <==> SplitAt(s[1..], at)
  {
    if at < |s| - 1 {
      assert s[..at + 1] == [s[0]] + s[1..][..at];
      assert s[..at + 1][1..] == s[1..][..at];
      assert s[at + 2..] == s[1..][at + 1..];
    }
  }

  /** A split with a non-empty local part begins with a plain character. */
  lemma SplitStartsPlain(s: string, at: int)
    requires 0 < at && SplitAt(s, at)
    ensures PlainChar(s[0])
  {
    assert s[..at][0] == s[0];
  }

  /** Inside the local part, the scan accepts exactly the strings that split at some '@'. */
  lemma {:induction false} LocalAccepts(s: string)
    ensures Scan(Local, s) == Tail <==> exists at :: SplitAt(s, at)
    decreases |s|
  {
    if |s| == 0 {
      return;
    }
    var c, rest := s[0], s[1..];
    if !PlainChar(c) {
      if c == '@' {
        AtSignAccepts(rest);
        if SplitAt(s, 0) {
          assert s[1..] == rest;
        }
        if Scan(Local, s) == Tail {
          assert s[..0] == [] && s[1..] == rest;
          assert SplitAt(s, 0);
        }
      } else {
        RejectSticks(rest);
      }
      forall at | 0 < at && SplitAt(s, at) ensures false {
        SplitStartsPlain(s, at);
      }
    } else {
      LocalAccepts(rest);
      if at :| SplitAt(rest, at) {
        SplitShift(s, at);
      }
      if at :| SplitAt(s, at) {
        SplitShift(s, at - 1);
      }
    }
  }

  /** The scan from the start decides exactly the anchored pattern. */
  lemma ValidateEmailMatches(s: string)
    ensures ValidateEmail(s) <==> PatternMatches(s)
  {
    if |s| == 0 {
      return;
    }
    var c, rest := s[0], s[1..];
    if !PlainChar(c) {
      RejectSticks(rest);
      forall at | 0 < at && SplitAt(s, at) ensures false {
        SplitStartsPlain(s, at);
      }
    } else {
      LocalAccepts(rest);
      if at :| SplitAt(rest, at) {
        SplitShift(s, at);
      }
      if at :| 0 < at && SplitAt(s, at) {
        SplitShift(s, at - 1);
      }
    }
  }

  /** The domain has a '.' that is neither its first nor its last character. */
  ghost predicate InnerDot(domain: string) {
    exists j :: 0 < j < |domain| - 1 && domain[j] == '.'
  }

  /**
   * The same language in plain words: no whitespace, exactly one '@' with
   * something before it, and a domain after it with an inner '.'.
   */
  ghost predicate EmailShape(s: string) {
    && (forall k :: 0 <= k < |s| ==> !IsSpace(s[k]))
    && multiset(s)['@'] == 1
    && exists at :: 0 < at < |s| && s[at] == '@' && InnerDot(s[at + 1..])
  }

  /** A string with no '@' contributes none to the count. */
  lemma NoAtCount(t: string)
    requires Clean(t)
    ensures multiset(t)['@'] == 0
  {
    CleanIff(t);
    assert '@' !in t;
  }

  /** A match of the pattern has the plain-words shape. */
  lemma MatchHasShape(s: string, at: int)
    requires 0 < at && SplitAt(s, at)
    ensures EmailShape(s)
  {
    var local, domain := s[..at], s[at + 1..];
    var j :| 0 < j < |domain| - 1 && domain[j] == '.' && Clean(domain[..j]) && Clean(domain[j + 1..]);
    CleanSplit(domain, j);
    CleanIff(local);
    CleanIff(domain);
    assert s == local + [s[at]] + domain;
    forall k | 0 <= k < |s| ensures !IsSpace(s[k]) {
      if k < at {
        assert s[k] == local[k];
      } else if at < k {
        assert s[k] == domain[k - at - 1];
      }
    }
    NoAtCount(local);
    NoAtCount(domain);
    assert InnerDot(domain);
  }

  /** Both sides of the only '@' of a well-shaped string are clean. */
  lemma ShapeSidesClean(s: string, at: int)
    requires forall k :: 0 <= k < |s| ==> !IsSpace(s[k])
    requires multiset(s)['@'] == 1
    requires 0 <= at < |s| && s[at] == '@'
    ensures Clean(s[..at]) && Clean(s[at + 1..])
  {
    var local, domain := s[..at], s[at + 1..];
    assert s == local + [s[at]] + domain;
    assert multiset(local)['@'] == 0 && multiset(domain)['@'] == 0;
    forall k | 0 <= k < |local| ensures PlainChar(local[k]) {
      assert local[k] == s[k];
      assert local[k] in multiset(local);
    }
    forall k | 0 <= k < |domain| ensures PlainChar(domain[k]) {
      assert domain[k] == s[at + 1 + k];
      assert domain[k] in multiset(domain);
    }
    CleanIff(local);
    CleanIff(domain);
  }

  /** A string of the plain-words shape matches the pattern at its '@' and inner '.'. */
  lemma ShapeMatches(s: string)
    requires EmailShape(s)
    ensures PatternMatches(s)
  {
    var at :| 0 < at < |s| && s[at] == '@' && InnerDot(s[at + 1..]);
    ShapeSidesClean(s, at);
    var domain := s[at + 1..];
    var j :| 0 < j < |domain| - 1 && domain[j] == '.';
    CleanSplit(domain, j);
    assert DomainMatches(domain);
    assert SplitAt(s, at);
  }

  /** The pattern accepts exactly the strings of the plain-words description. */
  lemma ValidateEmailIff(s: string)
    ensures ValidateEmail(s) <==> EmailShape(s)
  {
    ValidateEmailMatches(s);
    if PatternMatches(s) {
      var at :| 0 < at && SplitAt(s, at);
      MatchHasShape(s, at);
    }
    if EmailShape(s) {
      ShapeMatches(s);
    }
  }

  // ---------------------------------------------------------------------------
  // Validation and submission

  /** The messages `handleSubmit` can put in `errors`, each with the text shown under its field. */
  datatype Message = FirstNameRequired | LastNameRequired | EmailRequired | EmailMalformed {
    function Text(): string {
      match this
      case FirstNameRequired => "El nombre es requerido."
      case LastNameRequired => "El apellido es requerido."
      case EmailRequired => "El correo es requerido."
      case EmailMalformed => "El formato del correo no es válido."
    }
  }

  /** The validation block of `handleSubmit`. */
  function Validate(d: UserField): (errors: map<ErrorKey, Message>)
    ensures FirstNameKey in errors <==> IsBlank(d.firstName)
    ensures LastNameKey in errors <==> IsBlank(d.lastName)
    ensures EmailKey in errors <==> IsBlank(d.email) || !ValidateEmail(d.email)
  {
    var e1: map<ErrorKey, Message> := if IsBlank(d.firstName) then map[FirstNameKey := FirstNameRequired] else map[];
    var e2 := if IsBlank(d.lastName) then e1[LastNameKey := LastNameRequired] else e1;
    if IsBlank(d.email) then e2[EmailKey := EmailRequired]
    else if !ValidateEmail(d.email) then e2[EmailKey := EmailMalformed]
    else e2
  }

  /** A first-name error is raised exactly when the name is empty or all whitespace, and then says the name is required. */
  lemma FirstNameError(d: UserField)
    ensures FirstNameKey in Validate(d) <==> AllSpace(d.firstName)
    ensures FirstNameKey in Validate(d) ==> Validate(d)[FirstNameKey] == FirstNameRequired
  {
    BlankIffAllSpace(d.firstName);
  }

  /** A last-name error is raised exactly when the name is empty or all whitespace, and then says the name is required. */
  lemma LastNameError(d: UserField)
    ensures LastNameKey in Validate(d) <==> AllSpace(d.lastName)
    ensures LastNameKey in Validate(d) ==> Validate(d)[LastNameKey] == LastNameRequired
  {
    BlankIffAllSpace(d.lastName);
  }

  /**
   * The email gets one message at most: "required" when it is all whitespace,
   * "format" when it is not but breaks the pattern, nothing otherwise.
   */
  lemma EmailErrors(d: UserField)
    ensures var e := Validate(d);
      && (EmailKey in e && e[EmailKey] == EmailRequired <==> AllSpace(d.email))
      && (EmailKey in e && e[EmailKey] == EmailMalformed <==> !AllSpace(d.email) && !EmailShape(d.email))
      && (EmailKey !in e <==> EmailShape(d.email))
  {
    BlankIffAllSpace(d.email);
    ValidateEmailIff(d.email);
    if EmailShape(d.email) {
      assert |d.email| > 0 && !IsSpace(d.email[0]);
    }
  }

  /**
   * The pattern is applied to the untrimmed email: surrounding whitespace on a
   * non-blank email is a format error.
   */
  lemma PaddedEmailMalformed(d: UserField)
    requires !AllSpace(d.email)
    requires IsSpace(d.email[0]) || IsSpace(d.email[|d.email| - 1])
    ensures EmailKey in Validate(d) && Validate(d)[EmailKey] == EmailMalformed
  {
    assert !EmailShape(d.email);
    EmailErrors(d);
  }

  /** The pattern accepts "ana@mail.co", splitting it at its '@' and its '.'. */
  lemma ExampleAccepted()
    ensures ValidateEmail("ana@mail.co")
  {
    var t := "ana@mail.co";
    assert SplitAt(t, 3) by {
      var domain := t[4..];
      assert t[..3] == "ana" && Clean("ana");
      assert DomainMatches(domain) by {
        assert domain == "mail.co";
        assert domain[4] == '.' && domain[..4] == "mail" && domain[5..] == "co";
        assert Clean("mail") && Clean("co");
      }
    }
    ValidateEmailMatches(t);
  }

  /** " ana@mail.co" trims to an address the pattern accepts. */
  lemma PaddedExampleTrimsValid()
    ensures ValidateEmail(Trim(" ana@mail.co"))
  {
    var s := " ana@mail.co";
    assert TrimStart(s) == s[1..];
    assert Trim(s) == "ana@mail.co";
    ExampleAccepted();
  }

  /** The form rejects the email " ana@mail.co" as malformed, though `PaddedExampleTrimsValid` shows its trimmed text is accepted. */
  lemma PaddedEmailExample(d: UserField)
    requires d.email == " ana@mail.co"
    ensures EmailKey in Validate(d) && Validate(d)[EmailKey] == EmailMalformed
  {
    assert !AllSpace(d.email) by {
      assert !IsSpace(d.email[1]);
    }
    PaddedEmailMalformed(d);
  }

  /** The request a valid form sends: PUT to the user's id in edit mode, POST otherwise. */
  datatype Request = Update(id: int, body: UserField) | Create(body: UserField)

  datatype Submission =
    | Blocked(form: Form)
    | Send(request: Request)

  /** `handleSubmit` up to the request: errors block it and replace the shown errors. */
  function Submit(f: Form): (s: Submission)
    ensures s.Send? <==> Validate(f.data) == map[]
    ensures s.Blocked? ==> s.form == f.(errors := Validate(f.data))
    ensures s.Send? ==> s.request.body == f.data && (s.request.Update? <==> f.editMode)
    ensures s.Send? && f.editMode ==> s.request.id == f.data.id
  {
    var errors := Validate(f.data);
    if |errors| > 0 then Blocked(f.(errors := errors))
    else if f.editMode then Send(Update(f.data.id, f.data))
    else Send(Create(f.data))
  }

  /**
   * The three text inputs carry `required` and the form has no `noValidate`,
   * so the browser refuses to fire `submit` while any of them is empty.
   * Whitespace counts as a value.
   */
  predicate RequiredFilled(d: UserField) {
    d.firstName != "" && d.lastName != "" && d.email != ""
  }

  /** Pressing the submit button: `None` when the browser stops it, otherwise what `handleSubmit` does. */
  function Press(f: Form): (o: Option<Submission>)
    ensures o.None? <==> f.data.firstName == "" || f.data.lastName == "" || f.data.email == ""
    ensures o.Some? ==> o.value == Submit(f)
  {
    if RequiredFilled(f.data) then Some(Submit(f)) else None
  }

  /** An untouched create form never reaches `handleSubmit` through the button. */
  lemma UntouchedFormStoppedByBrowser()
    ensures Press(Init(None)) == None
  {
  }

  /** Through the button, a "required" message is only ever shown for a field made of whitespace alone. */
  lemma PressedRequiredMeansWhitespace(f: Form)
    requires Press(f).Some? && Press(f).value.Blocked?
    ensures var e := Press(f).value.form.errors;
      && (FirstNameKey in e ==> |f.data.firstName| > 0 && AllSpace(f.data.firstName))
      && (LastNameKey in e ==> |f.data.lastName| > 0 && AllSpace(f.data.lastName))
      && (EmailKey in e && e[EmailKey] == EmailRequired ==> |f.data.email| > 0 && AllSpace(f.data.email))
  {
    FirstNameError(f.data);
    LastNameError(f.data);
    EmailErrors(f.data);
  }

  /** A request is sent only for names that are not all whitespace and an email of the accepted shape. */
  lemma SubmitSendsOnlyValid(f: Form)
    requires Submit(f).Send?
    ensures !AllSpace(f.data.firstName) && !AllSpace(f.data.lastName) && EmailShape(f.data.email)
  {
    FirstNameError(f.data);
    LastNameError(f.data);
    EmailErrors(f.data);
  }

  /**
   * `handleSubmit` run on a freshly opened create form blocks it and reports
   * every required field; the button never gets that far (`UntouchedFormStoppedByBrowser`).
   */
  lemma EmptyFormBlocked()
    ensures var s := Submit(Init(None));
      s.Blocked? && s.form.errors == map[
        FirstNameKey := FirstNameRequired, LastNameKey := LastNameRequired, EmailKey := EmailRequired]
  {
  }
}
