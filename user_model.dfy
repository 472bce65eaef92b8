/**
 * The `User` object: its properties, the error list that validation fills, and the
 * two operations that change it in place.
 */
module UserModel {
  import opened Wrappers
  import opened Users
  import opened Validation

  class User {
    var login: string
    var passwordVerifier: string
    var passwordSalt: string
    var email: string
    var emailForward: string
    var emailAliases: seq<LocalEmail>
    var passwordConfirmation: Option<string>
    /** `errors`, in the order messages were added. */
    var errors: seq<FieldError>

    /** The properties as a value, for the validation rules. */
    function Record(): UserRecord
      reads this
    {
      UserRecord(login, passwordVerifier, passwordSalt, email, emailForward, emailAliases, passwordConfirmation)
    }

    /**
     * A user object holding a stored document's properties, aliases included, with
     * no errors until validation runs.
     */
    constructor (attributes: UserRecord)
      ensures Record() == attributes && errors == []
    {
      login := attributes.login;
      passwordVerifier := attributes.passwordVerifier;
      passwordSalt := attributes.passwordSalt;
      email := attributes.email;
      emailForward := attributes.emailForward;
      emailAliases := attributes.emailAliases;
      passwordConfirmation := attributes.passwordConfirmation;
      errors := [];
    }

    /**
     * `email_differs_from_email_aliases`: adds the alias message when the email is one
     * of the alias emails, unless the last alias already has errors.
     */
    method EmailDiffersFromEmailAliases()
      modifies this`errors
      ensures errors == old(errors) + AliasConflictErrors(email, emailAliases)
    {
      if |emailAliases| > 0 && emailAliases[|emailAliases| - 1].errors != [] {
        return;
      }
      var emails := AliasEmails(emailAliases);
      if email in emails {
        errors := errors + [FieldError(Email, AliasConflictMsg)];
      }
    }

    /** `email_aliases_attributes=`: appends the alias built from the first submitted value. */
    method SetEmailAliasesAttributes(attrs: Option<seq<AliasAttributes>>)
      modifies this`emailAliases
      ensures emailAliases == AssignEmailAliases(old(emailAliases), attrs)
    {
      if attrs.Some? {
        emailAliases := emailAliases + [FirstSubmittedAlias(attrs.value)];
      }
    }

    /**
     * `valid?`: clears the errors, runs the declared rules and then the custom one, and
     * reports whether no message was added.
     */
    method IsValid(cfg: Config, otherLogins: set<string>) returns (ok: bool)
      modifies this`errors
      ensures Record() == old(Record())
      ensures errors == Errors(Record(), cfg, otherLogins)
      ensures ok <==> Acceptable(Record(), cfg, otherLogins)
      ensures ok <==> errors == []
    {
      errors := DeclaredErrors(Record(), cfg, otherLogins);
      EmailDiffersFromEmailAliases();
      ValidIff(Record(), cfg, otherLogins);
      ok := errors == [];
    }
  }
}
