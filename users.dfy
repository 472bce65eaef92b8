/**
 * The document a `User` stores, its derived accessors, the test fixture and the
 * nested-attributes setter for aliases, as values.
 */
module Users {
  import opened Wrappers
  import Hex

  /**
   * An embedded alias address, with the messages its own validation left on it
   * (that validation belongs to the alias class and is an input here).
   */
  datatype LocalEmail = LocalEmail(email: string, errors: seq<string>)

  /** One entry of a submitted nested-attributes hash: its key and the alias email it carries. */
  datatype AliasAttributes = AliasAttributes(key: string, email: string)

  /** The configuration the model consults: the mail domain and the admin logins. */
  datatype Config = Config(domain: string, admins: seq<string>)

  /**
   * The properties of a user document. An unset string property is "" (format rules
   * read it through `to_s`); the confirmation is `None` when it was not submitted.
   */
  datatype UserRecord = UserRecord(
    login: string,
    passwordVerifier: string,
    passwordSalt: string,
    email: string,
    emailForward: string,
    emailAliases: seq<LocalEmail>,
    passwordConfirmation: Option<string>)
  {
    /** The salt handed to the SRP session: the number the stored hex string denotes. */
    function Salt(): (n: nat)
      ensures Hex.IsHexString(passwordSalt) ==> n == Hex.Value(passwordSalt)
      ensures n < Hex.Pow16(|passwordSalt|)
    {
      Hex.StringHex(passwordSalt)
    }

    /** The verifier handed to the SRP session. */
    function Verifier(): (n: nat)
      ensures Hex.IsHexString(passwordVerifier) ==> n == Hex.Value(passwordVerifier)
      ensures n < Hex.Pow16(|passwordVerifier|)
    {
      Hex.StringHex(passwordVerifier)
    }

    /** The attribute the password rules validate is the verifier string itself. */
    function Password(): string { passwordVerifier }

    /** Admins are configured by login. */
    predicate IsAdmin(admins: seq<string>) { login in admins }
  }

  /** The guard of the uniqueness rule: the model always runs on the server. */
  predicate Serverside() { true }

  /** The attributes the tests build a valid user from. */
  function ValidAttributesHash(): UserRecord
  {
    UserRecord("me", "1234ABCD", "4321AB", "", "", [], None)
  }

  /** The alias `build` makes from the first submitted value; a missing value gives an empty alias. */
  function FirstSubmittedAlias(attrs: seq<AliasAttributes>): LocalEmail
  {
    LocalEmail(if attrs == [] then "" else attrs[0].email, [])
  }

  /**
   * `email_aliases_attributes=`: with a hash, only its first value becomes a new
   * alias, appended after the existing ones; nil changes nothing.
   */
  function AssignEmailAliases(aliases: seq<LocalEmail>, attrs: Option<seq<AliasAttributes>>): (r: seq<LocalEmail>)
    ensures attrs.None? ==> r == aliases
    ensures attrs.Some? ==> |r| == |aliases| + 1 && r[..|aliases|] == aliases
    ensures attrs.Some? && attrs.value != [] ==> r[|aliases|] == LocalEmail(attrs.value[0].email, [])
    ensures attrs.Some? && attrs.value == [] ==> r[|aliases|] == LocalEmail("", [])
  {
    match attrs
    case None => aliases
    case Some(values) => aliases + [FirstSubmittedAlias(values)]
  }

  /** Only the first submitted value matters; the rest of the hash is ignored. */
  lemma OnlyFirstAliasCounts(aliases: seq<LocalEmail>, a: AliasAttributes, rest: seq<AliasAttributes>, rest': seq<AliasAttributes>)
    ensures AssignEmailAliases(aliases, Some([a] + rest)) == AssignEmailAliases(aliases, Some([a] + rest'))
  {
  }
}
