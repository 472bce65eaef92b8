/**
 * The validations a `User` declares, run in declaration order. Each rule is
 * independent and may add one message to one attribute; the record is valid when
 * none of them does.
 */
module Validation {
  import opened Wrappers
  import opened Chars
  import opened Hex
  import opened EmailFormat
  import opened Users

  datatype Field = Login | PasswordSalt | PasswordVerifier | Password | Email | EmailForward

  datatype FieldError = FieldError(field: Field, message: string)

  const BlankMsg := "can't be blank"
  const TakenMsg := "has already been taken"
  const LoginFormatMsg := "Only letters, digits and _ allowed"
  const HexFormatMsg := "Only hex numbers allowed"
  const ConfirmationMsg := "doesn't match confirmation"
  const PasswordLengthMsg := "needs to be at least 8 characters long"
  const EmailFormatMsg := "needs to be a valid email address"
  const AliasConflictMsg := "may not be the same as an alias"

  function DomainMsg(domain: string): string { "needs to end in @" + domain }

  /** `\A[A-Za-z\d_]+\z`. */
  predicate IsLogin(s: string) { |s| > 0 && forall i :: 0 <= i < |s| ==> IsWordChar(s[i]) }

  /** No character that `.` refuses to match. */
  predicate LineFree(s: string) { forall k :: 0 <= k < |s| ==> s[k] != '\n' }

  /** The unanchored `.{8}.*`: somewhere eight characters in a row without a newline. */
  predicate IsPasswordFormat(s: string)
  {
    exists i | 0 <= i <= |s| - 8 :: LineFreeWindow(s, i)
  }

  /** Eight characters from position `i` on, none of them a newline. */
  predicate LineFreeWindow(s: string, i: int)
  {
    0 <= i <= |s| - 8 && LineFree(s[i..i + 8])
  }

  /** A rule that adds `msg` on `f` unless `ok`. */
  function Check(f: Field, ok: bool, msg: string): seq<FieldError>
  {
    if ok then [] else [FieldError(f, msg)]
  }

  function Presence(f: Field, value: string): seq<FieldError>
  {
    Check(f, !IsBlank(value), BlankMsg)
  }

  /** The conflict check is skipped when the last alias already carries errors. */
  predicate AliasCheckRuns(aliases: seq<LocalEmail>)
  {
    !(|aliases| > 0 && aliases[|aliases| - 1].errors != [])
  }

  function AliasEmails(aliases: seq<LocalEmail>): seq<string>
  {
    seq(|aliases|, i requires 0 <= i < |aliases| => aliases[i].email)
  }

  /** `email_differs_from_email_aliases`, as the messages it adds. */
  function AliasConflictErrors(email: string, aliases: seq<LocalEmail>): (errs: seq<FieldError>)
    ensures |errs| <= 1
    ensures forall e :: e in errs ==> e == FieldError(Email, AliasConflictMsg)
    ensures errs != [] <==>
      AliasCheckRuns(aliases) && exists i :: 0 <= i < |aliases| && aliases[i].email == email
    ensures !AliasCheckRuns(aliases) ==> errs == []
  {
    if !AliasCheckRuns(aliases) then []
    else
      var emails := AliasEmails(aliases);
      assert (email in emails) <==> exists i :: 0 <= i < |aliases| && aliases[i].email == email by {
        if email in emails {
          var i :| 0 <= i < |emails| && emails[i] == email;
          assert aliases[i].email == email;
        }
        if exists i :: 0 <= i < |aliases| && aliases[i].email == email {
          var i :| 0 <= i < |aliases| && aliases[i].email == email;
          assert emails[i] == email;
        }
      }
      Check(Email, email !in emails, AliasConflictMsg)
  }

  /** Lines 13 to 25: presence, uniqueness and format of the login and the hex credentials. */
  function CredentialErrors(r: UserRecord, otherLogins: set<string>): seq<FieldError>
  {
    Presence(Login, r.login) + Presence(PasswordSalt, r.passwordSalt)
    + Presence(PasswordVerifier, r.passwordVerifier)
    + (if Serverside() then Check(Login, r.login !in otherLogins, TakenMsg) else [])
    + Check(Login, IsLogin(r.login), LoginFormatMsg)
    + Check(PasswordSalt, IsHexString(r.passwordSalt), HexFormatMsg)
    + Check(PasswordVerifier, IsHexString(r.passwordVerifier), HexFormatMsg)
  }

  /** Lines 27 to 29: presence, confirmation and length of the password. */
  function PasswordErrors(r: UserRecord): seq<FieldError>
  {
    Presence(Password, r.Password())
    + Check(Password, r.passwordConfirmation.None? || r.passwordConfirmation.value == r.Password(), ConfirmationMsg)
    + Check(Password, IsPasswordFormat(r.Password()), PasswordLengthMsg)
  }

  /** Lines 32 to 40: the address rules on `email` and `email_forward`. */
  function AddressErrors(r: UserRecord, cfg: Config): seq<FieldError>
  {
    Check(Email, IsEmailFormat(r.email), EmailFormatMsg)
    + Check(Email, EndsInDomain(r.email, cfg.domain), DomainMsg(cfg.domain))
    + Check(EmailForward, IsEmailFormat(r.emailForward), EmailFormatMsg)
  }

  /** The declarative `validates` rules, lines 13 to 40, in order. */
  function DeclaredErrors(r: UserRecord, cfg: Config, otherLogins: set<string>): seq<FieldError>
  {
    CredentialErrors(r, otherLogins) + PasswordErrors(r) + AddressErrors(r, cfg)
  }

  /**
   * Everything `valid?` collects: the declared rules, then the custom rule of line 42.
   * `otherLogins` are the logins of the other stored users.
   */
  function Errors(r: UserRecord, cfg: Config, otherLogins: set<string>): seq<FieldError>
  {
    DeclaredErrors(r, cfg, otherLogins) + AliasConflictErrors(r.email, r.emailAliases)
  }

  /** `errors[f]`: the messages on one attribute, in the order they were added. */
  function ErrorsOn(errs: seq<FieldError>, f: Field): (msgs: seq<string>)
    ensures forall m :: m in msgs <==> FieldError(f, m) in errs
    ensures |msgs| <= |errs|
  {
    if errs == [] then []
    else (if errs[0].field == f then [errs[0].message] else []) + ErrorsOn(errs[1..], f)
  }

  // ---- what each rule accepts ----

  lemma LoginNotBlank(s: string)
    requires IsLogin(s)
    ensures !IsBlank(s)
  {
    assert IsWordChar(s[0]);
  }

  lemma HexNotBlank(s: string)
    requires IsHexString(s)
    ensures !IsBlank(s) && LineFree(s)
  {
    assert IsHexDigit(s[0]);
  }

  /** For a string without newlines, the length rule is exactly "at least 8 characters". */
  lemma PasswordFormatOfLineFree(s: string)
    requires LineFree(s)
    ensures IsPasswordFormat(s) <==> |s| >= 8
  {
    if |s| >= 8 {
      assert LineFreeWindow(s, 0);
    }
  }

  lemma DomainMsgDistinct(domain: string)
    ensures DomainMsg(domain) != EmailFormatMsg && DomainMsg(domain) != AliasConflictMsg
  {
    assert DomainMsg(domain)[9] == 'e' && EmailFormatMsg[9] == 'b';
    assert DomainMsg(domain)[0] == 'n' && AliasConflictMsg[0] == 'm';
  }

  lemma CredentialMembers(r: UserRecord, otherLogins: set<string>, e: FieldError)
    ensures e in CredentialErrors(r, otherLogins) <==>
      || (e == FieldError(Login, BlankMsg) && IsBlank(r.login))
      || (e == FieldError(PasswordSalt, BlankMsg) && IsBlank(r.passwordSalt))
      || (e == FieldError(PasswordVerifier, BlankMsg) && IsBlank(r.passwordVerifier))
      || (e == FieldError(Login, TakenMsg) && r.login in otherLogins)
      || (e == FieldError(Login, LoginFormatMsg) && !IsLogin(r.login))
      || (e == FieldError(PasswordSalt, HexFormatMsg) && !IsHexString(r.passwordSalt))
      || (e == FieldError(PasswordVerifier, HexFormatMsg) && !IsHexString(r.passwordVerifier))
  {
  }

  lemma PasswordMembers(r: UserRecord, e: FieldError)
    ensures e in PasswordErrors(r) <==>
      || (e == FieldError(Password, BlankMsg) && IsBlank(r.passwordVerifier))
      || (e == FieldError(Password, ConfirmationMsg)
          && r.passwordConfirmation.Some? && r.passwordConfirmation.value != r.passwordVerifier)
      || (e == FieldError(Password, PasswordLengthMsg) && !IsPasswordFormat(r.passwordVerifier))
  {
  }

  lemma AddressMembers(r: UserRecord, cfg: Config, e: FieldError)
    ensures e in AddressErrors(r, cfg) <==>
      || (e == FieldError(Email, EmailFormatMsg) && !IsEmailFormat(r.email))
      || (e == FieldError(Email, DomainMsg(cfg.domain)) && !EndsInDomain(r.email, cfg.domain))
      || (e == FieldError(EmailForward, EmailFormatMsg) && !IsEmailFormat(r.emailForward))
  {
  }

  /** Which messages `valid?` collects: one per rule that fires, and nothing else. */
  lemma ErrorsMembers(r: UserRecord, cfg: Config, otherLogins: set<string>, e: FieldError)
    ensures e in Errors(r, cfg, otherLogins) <==>
      || (e == FieldError(Login, BlankMsg) && IsBlank(r.login))
      || (e == FieldError(PasswordSalt, BlankMsg) && IsBlank(r.passwordSalt))
      || (e == FieldError(PasswordVerifier, BlankMsg) && IsBlank(r.passwordVerifier))
      || (e == FieldError(Login, TakenMsg) && r.login in otherLogins)
      || (e == FieldError(Login, LoginFormatMsg) && !IsLogin(r.login))
      || (e == FieldError(PasswordSalt, HexFormatMsg) && !IsHexString(r.passwordSalt))
      || (e == FieldError(PasswordVerifier, HexFormatMsg) && !IsHexString(r.passwordVerifier))
      || (e == FieldError(Password, BlankMsg) && IsBlank(r.passwordVerifier))
      || (e == FieldError(Password, ConfirmationMsg)
          && r.passwordConfirmation.Some? && r.passwordConfirmation.value != r.passwordVerifier)
      || (e == FieldError(Password, PasswordLengthMsg) && !IsPasswordFormat(r.passwordVerifier))
      || (e == FieldError(Email, EmailFormatMsg) && !IsEmailFormat(r.email))
      || (e == FieldError(Email, DomainMsg(cfg.domain)) && !EndsInDomain(r.email, cfg.domain))
      || (e == FieldError(EmailForward, EmailFormatMsg) && !IsEmailFormat(r.emailForward))
      || (e == FieldError(Email, AliasConflictMsg) && AliasConflictErrors(r.email, r.emailAliases) != [])
  {
    CredentialMembers(r, otherLogins, e);
    PasswordMembers(r, e);
    AddressMembers(r, cfg, e);
  }

  /** No message on `f` at all. */
  predicate NoErrorOn(errs: seq<FieldError>, f: Field)
  {
    forall e :: e in errs ==> e.field != f
  }

  lemma NoErrorOnIff(errs: seq<FieldError>, f: Field)
    ensures ErrorsOn(errs, f) == [] <==> NoErrorOn(errs, f)
  {
    if ErrorsOn(errs, f) != [] {
      assert ErrorsOn(errs, f)[0] in ErrorsOn(errs, f);
    }
  }

  /**
   * Login: the presence and format rules pass exactly for a non-empty word; any other
   * character brings the format message.
   */
  lemma LoginFormatRules(r: UserRecord, cfg: Config, otherLogins: set<string>)
    ensures var errs := Errors(r, cfg, otherLogins);
      && (FieldError(Login, BlankMsg) !in errs && FieldError(Login, LoginFormatMsg) !in errs
          <==> |r.login| > 0 && forall i :: 0 <= i < |r.login| ==> IsWordChar(r.login[i]))
      && ((exists i :: 0 <= i < |r.login| && !IsWordChar(r.login[i])) ==> FieldError(Login, LoginFormatMsg) in errs)
  {
    if IsLogin(r.login) { LoginNotBlank(r.login); }
    ErrorsMembers(r, cfg, otherLogins, FieldError(Login, BlankMsg));
    ErrorsMembers(r, cfg, otherLogins, FieldError(Login, LoginFormatMsg));
  }

  /**
   * Login uniqueness: since the server-side guard always holds, a login another user
   * already has is refused, and only such a login.
   */
  lemma LoginUniqueness(r: UserRecord, cfg: Config, otherLogins: set<string>)
    ensures FieldError(Login, TakenMsg) in Errors(r, cfg, otherLogins) <==> r.login in otherLogins
  {
    ErrorsMembers(r, cfg, otherLogins, FieldError(Login, TakenMsg));
  }

  /** Login: no message at all exactly for a fresh, well-formed login. */
  lemma LoginRules(r: UserRecord, cfg: Config, otherLogins: set<string>)
    ensures ErrorsOn(Errors(r, cfg, otherLogins), Login) == [] <==> IsLogin(r.login) && r.login !in otherLogins
  {
    var errs := Errors(r, cfg, otherLogins);
    LoginFormatRules(r, cfg, otherLogins);
    LoginUniqueness(r, cfg, otherLogins);
    forall e | e in errs && e.field == Login
      ensures !IsLogin(r.login) || r.login in otherLogins
    {
      ErrorsMembers(r, cfg, otherLogins, e);
    }
    NoErrorOnIff(errs, Login);
  }

  /** Salt: no message exactly when the string is one or more hex digits. */
  lemma SaltRules(r: UserRecord, cfg: Config, otherLogins: set<string>)
    ensures var errs := Errors(r, cfg, otherLogins);
      && (FieldError(PasswordSalt, HexFormatMsg) in errs <==> !IsHexString(r.passwordSalt))
      && (ErrorsOn(errs, PasswordSalt) == [] <==> IsHexString(r.passwordSalt))
  {
    var errs := Errors(r, cfg, otherLogins);
    if IsHexString(r.passwordSalt) { HexNotBlank(r.passwordSalt); }
    ErrorsMembers(r, cfg, otherLogins, FieldError(PasswordSalt, HexFormatMsg));
    forall e | e in errs && e.field == PasswordSalt
      ensures !IsHexString(r.passwordSalt)
    {
      ErrorsMembers(r, cfg, otherLogins, e);
    }
    NoErrorOnIff(errs, PasswordSalt);
  }

  /** Verifier: no message exactly when the string is one or more hex digits. */
  lemma VerifierRules(r: UserRecord, cfg: Config, otherLogins: set<string>)
    ensures var errs := Errors(r, cfg, otherLogins);
      && (FieldError(PasswordVerifier, HexFormatMsg) in errs <==> !IsHexString(r.passwordVerifier))
      && (ErrorsOn(errs, PasswordVerifier) == [] <==> IsHexString(r.passwordVerifier))
  {
    var errs := Errors(r, cfg, otherLogins);
    if IsHexString(r.passwordVerifier) { HexNotBlank(r.passwordVerifier); }
    ErrorsMembers(r, cfg, otherLogins, FieldError(PasswordVerifier, HexFormatMsg));
    forall e | e in errs && e.field == PasswordVerifier
      ensures !IsHexString(r.passwordVerifier)
    {
      ErrorsMembers(r, cfg, otherLogins, e);
    }
    NoErrorOnIff(errs, PasswordVerifier);
  }

  /** A submitted confirmation must equal the verifier. */
  lemma ConfirmationRule(r: UserRecord, cfg: Config, otherLogins: set<string>)
    ensures FieldError(Password, ConfirmationMsg) in Errors(r, cfg, otherLogins)
      <==> r.passwordConfirmation.Some? && r.passwordConfirmation.value != r.passwordVerifier
  {
    ErrorsMembers(r, cfg, otherLogins, FieldError(Password, ConfirmationMsg));
  }

  /**
   * Password (the verifier): a hex verifier has no password message exactly when it
   * has at least 8 characters and any submitted confirmation equals it.
   */
  lemma PasswordRules(r: UserRecord, cfg: Config, otherLogins: set<string>)
    requires IsHexString(r.passwordVerifier)
    ensures ErrorsOn(Errors(r, cfg, otherLogins), Password) == []
      <==> |r.passwordVerifier| >= 8
           && (r.passwordConfirmation.None? || r.passwordConfirmation.value == r.passwordVerifier)
  {
    var errs := Errors(r, cfg, otherLogins);
    HexNotBlank(r.passwordVerifier);
    PasswordFormatOfLineFree(r.passwordVerifier);
    ErrorsMembers(r, cfg, otherLogins, FieldError(Password, ConfirmationMsg));
    ErrorsMembers(r, cfg, otherLogins, FieldError(Password, PasswordLengthMsg));
    forall e | e in errs && e.field == Password
      ensures !IsPasswordFormat(r.passwordVerifier)
        || (r.passwordConfirmation.Some? && r.passwordConfirmation.value != r.passwordVerifier)
    {
      ErrorsMembers(r, cfg, otherLogins, e);
    }
    NoErrorOnIff(errs, Password);
  }

  /** Email: its two format rules and the alias rule are the only ones that speak about it. */
  lemma EmailRules(r: UserRecord, cfg: Config, otherLogins: set<string>)
    ensures var errs := Errors(r, cfg, otherLogins);
      && (FieldError(Email, EmailFormatMsg) in errs <==> !IsEmailFormat(r.email))
      && (FieldError(Email, DomainMsg(cfg.domain)) in errs <==> !EndsInDomain(r.email, cfg.domain))
      && (FieldError(Email, AliasConflictMsg) in errs <==> AliasConflictErrors(r.email, r.emailAliases) != [])
      && (ErrorsOn(errs, Email) == []
          <==> IsEmailFormat(r.email) && EndsInDomain(r.email, cfg.domain)
               && AliasConflictErrors(r.email, r.emailAliases) == [])
  {
    var errs := Errors(r, cfg, otherLogins);
    DomainMsgDistinct(cfg.domain);
    ErrorsMembers(r, cfg, otherLogins, FieldError(Email, EmailFormatMsg));
    ErrorsMembers(r, cfg, otherLogins, FieldError(Email, DomainMsg(cfg.domain)));
    ErrorsMembers(r, cfg, otherLogins, FieldError(Email, AliasConflictMsg));
    forall e | e in errs && e.field == Email
      ensures !IsEmailFormat(r.email) || !EndsInDomain(r.email, cfg.domain)
        || AliasConflictErrors(r.email, r.emailAliases) != []
    {
      ErrorsMembers(r, cfg, otherLogins, e);
    }
    NoErrorOnIff(errs, Email);
  }

  /** Email forward: only the format rule speaks about it. */
  lemma EmailForwardRules(r: UserRecord, cfg: Config, otherLogins: set<string>)
    ensures var errs := Errors(r, cfg, otherLogins);
      && (FieldError(EmailForward, EmailFormatMsg) in errs <==> !IsEmailFormat(r.emailForward))
      && (ErrorsOn(errs, EmailForward) == [] <==> IsEmailFormat(r.emailForward))
  {
    var errs := Errors(r, cfg, otherLogins);
    ErrorsMembers(r, cfg, otherLogins, FieldError(EmailForward, EmailFormatMsg));
    forall e | e in errs && e.field == EmailForward
      ensures !IsEmailFormat(r.emailForward)
    {
      ErrorsMembers(r, cfg, otherLogins, e);
    }
    NoErrorOnIff(errs, EmailForward);
  }

  /** What a record that passes every rule looks like, stated without the rules. */
  ghost predicate Acceptable(r: UserRecord, cfg: Config, otherLogins: set<string>)
  {
    && IsLogin(r.login) && r.login !in otherLogins
    && IsHexString(r.passwordSalt) && IsHexString(r.passwordVerifier)
    && |r.passwordVerifier| >= 8
    && (r.passwordConfirmation.None? || r.passwordConfirmation.value == r.passwordVerifier)
    && IsEmailFormat(r.email) && EndsInDomain(r.email, cfg.domain)
    && IsEmailFormat(r.emailForward)
    && !(AliasCheckRuns(r.emailAliases)
         && exists i :: 0 <= i < |r.emailAliases| && r.emailAliases[i].email == r.email)
  }

  /** A record is valid if and only if no declared check fires. */
  lemma ValidIff(r: UserRecord, cfg: Config, otherLogins: set<string>)
    ensures Errors(r, cfg, otherLogins) == [] <==> Acceptable(r, cfg, otherLogins)
  {
    if IsLogin(r.login) { LoginNotBlank(r.login); }
    if IsHexString(r.passwordSalt) { HexNotBlank(r.passwordSalt); }
    if IsHexString(r.passwordVerifier) {
      HexNotBlank(r.passwordVerifier);
      PasswordFormatOfLineFree(r.passwordVerifier);
    }
  }

  /** The fixture's login is a word and its salt and verifier are hex. */
  lemma FixtureCredentials()
    ensures IsLogin("me") && IsHexString("4321AB") && IsHexString("1234ABCD")
  {
    var login, salt, verifier := "me", "4321AB", "1234ABCD";
    assert IsLogin(login) by {
      forall i | 0 <= i < 2 ensures IsWordChar(login[i]) { assert IsLower(login[i]); }
    }
    assert IsHexString(salt) by {
      forall i | 0 <= i < |salt| ensures IsHexDigit(salt[i]) {
        assert '1' <= salt[i] <= 'B';
      }
    }
    assert IsHexString(verifier) by {
      forall i | 0 <= i < |verifier| ensures IsHexDigit(verifier[i]) {
        assert '1' <= verifier[i] <= 'D';
      }
    }
  }

  /**
   * The fixture passes the login, hex and password rules; having no email, it fails
   * the domain rule, and that is its only message.
   */
  lemma FixtureErrors(cfg: Config, otherLogins: set<string>)
    requires "me" !in otherLogins
    ensures Errors(ValidAttributesHash(), cfg, otherLogins) == [FieldError(Email, DomainMsg(cfg.domain))]
  {
    var r := ValidAttributesHash();
    FixtureCredentials();
    LoginNotBlank(r.login);
    HexNotBlank(r.passwordSalt);
    HexNotBlank(r.passwordVerifier);
    PasswordFormatOfLineFree(r.passwordVerifier);
    assert !EndsInDomain("", cfg.domain);
  }

  /** Given an address at the configured domain, the fixture passes every rule. */
  lemma FixtureWithAddressIsValid(cfg: Config, otherLogins: set<string>)
    requires cfg.domain == "example.org" && "me" !in otherLogins
    ensures Errors(ValidAttributesHash().(email := "me@example.org"), cfg, otherLogins) == []
  {
    var r := ValidAttributesHash().(email := "me@example.org");
    assert r == UserRecord("me", "1234ABCD", "4321AB", "me@example.org", "", [], None);
    FixtureCredentials();
    ExampleEmailRules();
    assert Acceptable(r, cfg, otherLogins);
    ValidIff(r, cfg, otherLogins);
  }

  /** A login with a space is refused by the format rule. */
  lemma LoginWithSpace(r: UserRecord, cfg: Config, otherLogins: set<string>)
    requires r.login == "m e"
    ensures FieldError(Login, LoginFormatMsg) in Errors(r, cfg, otherLogins)
  {
    assert !IsWordChar(r.login[1]);
  }

  /** A salt with a `G` is refused by the hex rule. */
  lemma SaltWithG(r: UserRecord, cfg: Config, otherLogins: set<string>)
    requires r.passwordSalt == "12G4"
    ensures FieldError(PasswordSalt, HexFormatMsg) in Errors(r, cfg, otherLogins)
  {
    assert !IsHexDigit(r.passwordSalt[2]);
  }

  /** A seven-character confirmation of the fixture's verifier does not match it. */
  lemma ShortConfirmation(cfg: Config, otherLogins: set<string>)
    ensures FieldError(Password, ConfirmationMsg)
      in Errors(ValidAttributesHash().(passwordConfirmation := Some("1234ABC")), cfg, otherLogins)
  {
    assert |"1234ABC"| != |"1234ABCD"|;
  }

  /**
   * Submitting the user's own email as an alias is caught: the freshly built alias
   * has no errors, so the alias rule runs and fires.
   */
  lemma OwnEmailAsAliasConflicts(r: UserRecord, a: AliasAttributes, rest: seq<AliasAttributes>)
    requires a.email == r.email
    ensures AliasConflictErrors(r.email, AssignEmailAliases(r.emailAliases, Some([a] + rest)))
      == [FieldError(Email, AliasConflictMsg)]
  {
    var aliases := AssignEmailAliases(r.emailAliases, Some([a] + rest));
    assert aliases[|r.emailAliases|].email == r.email;
  }

  /** `errors[f]` of a concatenation is the concatenation of the parts' messages. */
  lemma {:induction false} ErrorsOnConcat(a: seq<FieldError>, b: seq<FieldError>, f: Field)
    ensures ErrorsOn(a + b, f) == ErrorsOn(a, f) + ErrorsOn(b, f)
  {
    if a == [] {
      assert a + b == b;
    } else {
      assert (a + b)[0] == a[0];
      assert (a + b)[1..] == a[1..] + b;
      ErrorsOnConcat(a[1..], b, f);
    }
  }

  /**
   * No rule consults admin status or reads the login outside the login rules:
   * renaming a user leaves the messages on every other attribute as they were.
   * So nothing in validation keeps an admin from changing the login.
   */
  lemma RenameKeepsOtherMessages(r: UserRecord, l: string, cfg: Config, otherLogins: set<string>, f: Field)
    requires f != Login
    ensures ErrorsOn(Errors(r.(login := l), cfg, otherLogins), f) == ErrorsOn(Errors(r, cfg, otherLogins), f)
  {
    var r' := r.(login := l);
    var rest := PasswordErrors(r) + AddressErrors(r, cfg) + AliasConflictErrors(r.email, r.emailAliases);
    assert Errors(r, cfg, otherLogins) == CredentialErrors(r, otherLogins) + rest;
    assert Errors(r', cfg, otherLogins) == CredentialErrors(r', otherLogins) + rest;
    ErrorsOnConcat(CredentialErrors(r, otherLogins), rest, f);
    ErrorsOnConcat(CredentialErrors(r', otherLogins), rest, f);
    CredentialErrorsOn(r, otherLogins, f);
    CredentialErrorsOn(r', otherLogins, f);
  }

  /** Off the login, the credential rules speak only of the salt and the verifier. */
  lemma CredentialErrorsOn(r: UserRecord, otherLogins: set<string>, f: Field)
    requires f != Login
    ensures ErrorsOn(CredentialErrors(r, otherLogins), f) ==
      ErrorsOn(Presence(PasswordSalt, r.passwordSalt), f) + ErrorsOn(Presence(PasswordVerifier, r.passwordVerifier), f)
      + ErrorsOn(Check(PasswordSalt, IsHexString(r.passwordSalt), HexFormatMsg), f)
      + ErrorsOn(Check(PasswordVerifier, IsHexString(r.passwordVerifier), HexFormatMsg), f)
  {
    var a1, a2, a3 := Presence(Login, r.login), Presence(PasswordSalt, r.passwordSalt), Presence(PasswordVerifier, r.passwordVerifier);
    var a4 := Check(Login, r.login !in otherLogins, TakenMsg);
    var a5 := Check(Login, IsLogin(r.login), LoginFormatMsg);
    var a6 := Check(PasswordSalt, IsHexString(r.passwordSalt), HexFormatMsg);
    var a7 := Check(PasswordVerifier, IsHexString(r.passwordVerifier), HexFormatMsg);
    assert CredentialErrors(r, otherLogins) == a1 + a2 + a3 + a4 + a5 + a6 + a7;
    LoginCheckSilent(r.login !in otherLogins, TakenMsg, f);
    LoginCheckSilent(IsLogin(r.login), LoginFormatMsg, f);
    LoginCheckSilent(!IsBlank(r.login), BlankMsg, f);
    var e2, e3, e6, e7 := ErrorsOn(a2, f), ErrorsOn(a3, f), ErrorsOn(a6, f), ErrorsOn(a7, f);
    ErrorsOnConcat(a1, a2, f);
    assert ErrorsOn(a1 + a2, f) == e2;
    ErrorsOnConcat(a1 + a2, a3, f);
    assert ErrorsOn(a1 + a2 + a3, f) == e2 + e3;
    ErrorsOnConcat(a1 + a2 + a3, a4, f);
    assert ErrorsOn(a1 + a2 + a3 + a4, f) == e2 + e3;
    ErrorsOnConcat(a1 + a2 + a3 + a4, a5, f);
    assert ErrorsOn(a1 + a2 + a3 + a4 + a5, f) == e2 + e3;
    ErrorsOnConcat(a1 + a2 + a3 + a4 + a5, a6, f);
    assert ErrorsOn(a1 + a2 + a3 + a4 + a5 + a6, f) == e2 + e3 + e6;
    ErrorsOnConcat(a1 + a2 + a3 + a4 + a5 + a6, a7, f);
  }

  lemma LoginCheckSilent(ok: bool, msg: string, f: Field)
    requires f != Login
    ensures ErrorsOn(Check(Login, ok, msg), f) == []
  {
    if !ok {
      assert Check(Login, ok, msg)[1..] == [];
    }
  }

  /**
   * A valid admin renamed to a fresh, well-formed login is still valid, and keeps
   * admin status only if the new login is on the admin list.
   */
  lemma RenamedAdminStaysValid(r: UserRecord, l: string, cfg: Config, otherLogins: set<string>)
    ensures Errors(r, cfg, otherLogins) == [] && IsLogin(l) && l !in otherLogins
      ==> Errors(r.(login := l), cfg, otherLogins) == []
    ensures r.(login := l).IsAdmin(cfg.admins) <==> l in cfg.admins
  {
    ValidIff(r, cfg, otherLogins);
    ValidIff(r.(login := l), cfg, otherLogins);
  }
}
