# User record validation and credential decoding

A Dafny model of the `User` document of the LEAP web application
(`users/app/models/user.rb`). A user carries a login, the SRP password salt and
password verifier as hex strings, a primary email, a forwarding email, and a list
of alias addresses. The model covers:

- every validation the class declares, run in declaration order, each adding at
  most one message to one attribute; the record is valid when none fires;
- `salt` and `verifier`, which turn the stored hex strings into the unsigned
  integers handed to the SRP session;
- the custom rule `email_differs_from_email_aliases` and the setter
  `email_aliases_attributes=`, as methods of a `User` class that updates its
  `errors` list and its alias list in place;
- `valid?`, as a method on that class;
- the keys that the `by_email_alias` and `by_email_or_alias` map functions emit
  for one document.

Modules, leaves first:

- `Wrappers` (`wrappers.dfy`): `Option`, standing for Ruby's nil where the model needs to tell it apart (the submitted confirmation and the alias hash).
- `Chars` (`chars.dfy`): ASCII character classes: Ruby's `\d` and `\s`, the login
  class `[A-Za-z\d_]`, and Rails' `blank?`.
- `Hex` (`hex.dfy`): hex digits, the base-16 value of a digit string, Ruby's
  `String#hex`, and a reference encoder used to state the round trips.
- `EmailFormat` (`email_format.dfy`): the address regular expression written as
  predicates. It is tied to a declarative reading (local part, `@`, labels each
  followed by `.`, final letters) by an if-and-only-if lemma.
- `Users` (`users.dfy`): the document as a value (`UserRecord`), its accessors
  (`Salt`, `Verifier`, `Password`, `IsAdmin`), `serverside?`, the test fixture,
  and the alias setter as a function on values.
- `Validation` (`validation.dfy`): the rules, the collected error list, and one
  lemma per attribute saying exactly when that attribute gets a message.
- `Views` (`views.dfy`): the per-document emission of the two custom views.
- `UserModel` (`user_model.dfy`): the `User` class with its `errors` field and its
  in-place operations.

The configuration (`APP_CONFIG[:domain]`, `APP_CONFIG['admins']`) is an explicit
`Config` value. Uniqueness is checked against the set of logins of the other
stored users, which the caller passes in.

Behaviour of the code as written worth noting:

- Hex strings of odd length are accepted. The rule is `\A[\dA-Fa-f]+\z` only.
- The uniqueness rule is guarded by `serverside?`, which is constantly true, so
  it always runs. There is no switch.
- The length rule applies to the verifier itself, because `password` returns the
  verifier. The confirmation only has to equal the verifier.
- The alias conflict rule compares the email with the record's own aliases only.
  No other account is consulted.

Consequences of the code as written that the lemmas make explicit:

- The email rules end in `\Z`, which also matches just before a final newline.
  So an address followed by one `"\n"` passes the format rule
  (`EmailFormat.FinalNewlineAccepted`).
- The domain rule has no "empty allowed" alternative. A record without an email
  therefore always fails it. The fixture `valid_attributes_hash` has no email, so
  its only message is the domain message (`Validation.FixtureErrors`). With the
  address `me@example.org` and the domain `example.org` it passes every rule
  (`Validation.FixtureWithAddressIsValid`).

## Model

| member | source | states |
|---|---|---|
| `Hex.Value` | users/app/models/user.rb:105-111 | the number a digit string denotes is below 16 to the power of its length |
| `Hex.HexPrefix` | users/app/models/user.rb:105-111 | `.hex` reads the longest leading run of hex digits: it is a prefix, all hex, and the next character (if any) is not a hex digit |
| `Hex.StringHex` | users/app/models/user.rb:105-111 | on a string of hex digits `.hex` is the base-16 value of the whole string; it is always below 16 to the power of the length |
| `Hex.ValueAppend` | users/app/models/user.rb:105-111 | appending a digit d gives decode(s) * 16 + d |
| `Hex.ValueIgnoresCase` | users/app/models/user.rb:105-111 | decoding is case-insensitive: strings equal up to case have equal values |
| `Hex.ValueOfLower` | users/app/models/user.rb:24-25 | the rule admits both cases of a-f, and lower-casing a stored string keeps its value |
| `Hex.DecodeEncode` | users/app/models/user.rb:105-111 | decoding the reference encoding of n gives n back |
| `Hex.EncodeDecode` | users/app/models/user.rb:105-111 | re-encoding the decoded value gives the stored string back, lower-cased with leading zeros stripped |
| `Users.UserRecord.Salt` | users/app/models/user.rb:105-107 | `salt` of a valid salt string is the base-16 value of that string, below 16 to the power of its length |
| `Users.UserRecord.Verifier` | users/app/models/user.rb:109-111 | `verifier` of a valid verifier string is the base-16 value of that string, below 16 to the power of its length |
| `Users.AssignEmailAliases` | users/app/models/user.rb:124-126 | nil leaves the aliases unchanged; a hash appends exactly one alias after the unchanged old ones, carrying the first submitted email (an empty alias for an empty hash) |
| `Users.OnlyFirstAliasCounts` | users/app/models/user.rb:122-126 | submitted values after the first have no effect |
| `Users.UserRecord.IsAdmin` | users/app/models/user.rb:117-120 | `is_admin?`: the login is on the configured admin list; see `Validation.RenamedAdminStaysValid` for what this means under a rename |
| `Users.UserRecord.Password` | users/app/models/user.rb:140-142 | `password` is the verifier string; `Validation.PasswordRules` states the password rules in terms of the verifier |
| `Users.Serverside` | users/app/models/user.rb:145-147 | `serverside?` is constantly true; `Validation.LoginUniqueness` shows the uniqueness rule therefore always runs |
| `Users.ValidAttributesHash` | users/app/models/user.rb:84-88 | the fixture's attributes; `Validation.FixtureErrors` and `Validation.FixtureWithAddressIsValid` say which rules it passes |
| `EmailFormat.DomainSound` | users/app/models/user.rb:33 | every domain made of one or more labels, each followed by a dot, then at least two lower-case letters, is accepted |
| `EmailFormat.DomainComplete` | users/app/models/user.rb:33 | every accepted domain splits into such labels and final letters |
| `EmailFormat.AddressMatchesSpec` | users/app/models/user.rb:33 | the address predicate holds iff the string is local part + `@` + such a domain, with a non-empty local part free of `@` and whitespace |
| `EmailFormat.EmailFormatWithoutNewline` | users/app/models/user.rb:39-40 | on a string without a newline, the format rule accepts exactly the empty string and the addresses |
| `EmailFormat.PrimaryEmailRules` | users/app/models/user.rb:32-37 | on a string without a newline, `email` passes both of its rules iff it is an address ending in `@` + domain |
| `EmailFormat.FinalNewlineAccepted` | users/app/models/user.rb:33 | because of `\Z`, an address followed by one newline also passes the format rule |
| `EmailFormat.ExampleAddress` | users/app/models/user.rb:33 | `me@example.org` is an address |
| `EmailFormat.ExampleNotAnAddress` | users/test/unit/email_test.rb:10-13 | the string `email` fails the format rule whose message is "needs to be a valid email address" |
| `Hex.IsHexString` | users/app/models/user.rb:24-25 | the rule `\A[\dA-Fa-f]+\z`: one or more hex digits of either case; `Validation.SaltRules` and `Validation.VerifierRules` state when it fires |
| `EmailFormat.IsEmailFormat` | users/app/models/user.rb:32-33 | the address rule, `\Z` included; characterized by `EmailFormat.EmailFormatWithoutNewline` and `EmailFormat.FinalNewlineAccepted` |
| `EmailFormat.EndsInDomain` | users/app/models/user.rb:35-37 | the domain rule `@<domain>\Z` with the domain read literally; `EmailFormat.PrimaryEmailRules` combines it with the address rule |
| `EmailFormat.ExampleEmailRules` | users/app/models/user.rb:32-40 | `me@example.org` passes both rules on `email` for the domain `example.org`, and the empty forward passes its format rule |
| `Validation.IsLogin` | users/app/models/user.rb:20-22 | the rule `\A[A-Za-z\d_]+\z`; `Validation.LoginFormatRules` states when it fires |
| `Validation.IsPasswordFormat` | users/app/models/user.rb:27-29 | the unanchored `.{8}.*`; `Validation.PasswordFormatOfLineFree` reduces it to a length bound |
| `Validation.Errors` | users/app/models/user.rb:13-42 | the messages `valid?` collects; `Validation.ErrorsMembers` and `Validation.ValidIff` characterize them |
| `Validation.AliasConflictErrors` | users/app/models/user.rb:132-137 | at most one message, always "may not be the same as an alias" on email; it is added iff the check runs and some alias has the record's email; nothing when the last alias already has errors |
| `Validation.ErrorsMembers` | users/app/models/user.rb:13-42 | `valid?` collects one message for each rule that fires and nothing else |
| `Validation.PasswordFormatOfLineFree` | users/app/models/user.rb:29 | for a string without newlines, the unanchored `.{8}.*` holds iff the length is at least 8 |
| `Validation.LoginFormatRules` | users/app/models/user.rb:13-22 | the login passes presence and format iff it is non-empty and every character is an ASCII letter, digit or `_`; any other character brings "Only letters, digits and _ allowed" |
| `Validation.LoginUniqueness` | users/app/models/user.rb:16-18 | "has already been taken" appears iff another user has the login; the guard `serverside?` (lines 145-147) is always true |
| `Validation.LoginRules` | users/app/models/user.rb:13-22 | the login gets no message at all iff it is a well-formed login no other user has |
| `Validation.SaltRules` | users/app/models/user.rb:24-25 | the salt gets "Only hex numbers allowed" iff it is not one or more hex digits, and then no message at all iff it is |
| `Validation.VerifierRules` | users/app/models/user.rb:24-25 | the same for the verifier |
| `Validation.ConfirmationRule` | users/app/models/user.rb:27-29 | "doesn't match confirmation" appears iff a confirmation was submitted and differs from the verifier |
| `Validation.PasswordRules` | users/app/models/user.rb:27-29 | the password is the verifier (lines 140-142); a hex verifier gets no password message iff it has at least 8 characters and any submitted confirmation equals it |
| `Validation.EmailRules` | users/app/models/user.rb:32-42 | each email message appears iff its rule fails, and the email gets no message iff it passes the format rule, the domain rule and the alias rule |
| `Validation.EmailForwardRules` | users/app/models/user.rb:39-40 | the forwarding email gets a message iff it fails the format rule |
| `Validation.ValidIff` | users/app/models/user.rb:13-42 | the record is valid iff: the login is a fresh word; salt and verifier are hex; the verifier has at least 8 characters and equals any confirmation; both email rules hold; the forward format holds; the alias rule does not fire |
| `Validation.FixtureErrors` | users/app/models/user.rb:84-88 | the fixture passes the login, hex and password rules; with no email, its only message is "needs to end in @" + domain |
| `Validation.FixtureWithAddressIsValid` | users/app/models/user.rb:84-88 | the fixture with the address `me@example.org`, under the domain `example.org` and with no other user named `me`, gets no message at all |
| `Validation.RenameKeepsOtherMessages` | users/app/models/user.rb:117-120 | changing the login leaves the messages on every other attribute exactly as they were; no rule consults admin status |
| `Validation.RenamedAdminStaysValid` | users/app/models/user.rb:117-120 | a valid user renamed to a fresh well-formed login stays valid, and is an admin iff the new login is on the admin list: validation does not keep admins from changing their login |
| `Validation.LoginWithSpace` | users/app/models/user.rb:20-22 | the login `m e` is refused by the format rule |
| `Validation.SaltWithG` | users/app/models/user.rb:24-25 | the salt `12G4` is refused by the hex rule |
| `Validation.ShortConfirmation` | users/app/models/user.rb:27-29 | the fixture with confirmation `1234ABC` gets the confirmation message |
| `Validation.OwnEmailAsAliasConflicts` | users/app/models/user.rb:124-137 | submitting the user's own email as the first alias makes the alias rule fire, because the freshly built alias has no errors |
| `Views.EmailAliasKeys` | users/app/models/user.rb:51-61 | `by_email_alias` emits nothing for other document types, and for a user one key per alias, in order, namely that alias's email |
| `Views.EmailOrAliasKeys` | users/app/models/user.rb:63-76 | `by_email_or_alias` emits nothing for other document types; for a user it emits the email first when it is set, then each alias's email in list order, and nothing else |
| `Views.EmailOrAliasKeysIff` | users/app/models/user.rb:63-76 | `by_email_or_alias` emits a key iff the document is a user and the key is its email (when set) or one of its alias emails |
| `Views.AliasRuleKeepsEmailKeyUnique` | users/app/models/user.rb:63-76 | where the alias rule runs, it passes iff the user's email is emitted exactly once by `by_email_or_alias` |
| `UserModel.User.constructor` | users/app/models/user.rb:5-11 | a new user holds the given properties and no errors |
| `UserModel.User.EmailDiffersFromEmailAliases` | users/app/models/user.rb:132-137 | appends the alias-conflict messages to `errors` and changes nothing else |
| `UserModel.User.SetEmailAliasesAttributes` | users/app/models/user.rb:124-126 | the alias list becomes `AssignEmailAliases` of the old list; nothing else changes |
| `UserModel.User.IsValid` | users/app/models/user.rb:13-42 | replaces `errors` with the collected messages, leaves the properties unchanged, and returns true iff the record is acceptable in the sense of `ValidIff` |

## Left out

- CouchRest persistence is not modelled: `use_database`, `timestamps!`, `find_by_param`, `to_param`, and the `by_login`, `by_created_at` and `by_email` views. These are database I/O. Only the emission of the two custom views is modelled.
- `initialize_auth` is not modelled. It wraps `SRP::Session` from an external library that is not part of this model. That library's ephemeral values are random and its arithmetic is big-number cryptography.
- `to_json` is not modelled. It is JSON serialisation by a library, and it only echoes `login` and `valid?`.
- `Users.UserRecord.Salt`, `Users.UserRecord.Verifier`: an unset salt or verifier is nil in the source, and `nil.hex` raises an error. The model reads an unset property as the empty string, so these return 0 instead of failing.
- `UserModel.User.constructor`: CouchRest's mass-assignment protection is not modelled. `email_aliases` is the one property not marked `:accessible`, so `User.new(attributes)` ignores it and aliases arrive through `email_aliases_attributes=`. The constructor builds the object from a stored document, aliases included.
- `username` is not modelled. It is a plain alias for `login`.
- `APP_CONFIG` lookups are replaced by the explicit `Config` value.
- The domain rule is modelled as a literal suffix `@` + domain. The source interpolates the domain into a regular expression unescaped, so a `.` in the domain matches any character. The source is therefore looser than the model.
- The `LocalEmail` and `Email` classes are not part of this model. An alias's own messages are input data. Any validation CouchRest runs on embedded aliases is not modelled.
- Rails behaviour is modelled only as "each declared rule runs and may add one message":
  - An unset string property is the empty string, as the format validator's `to_s` makes it. `Validation.AliasConflictErrors` differs here: the source compares the email with the alias emails by `include?`, with no `to_s`, so nil and `""` are different values there. For example, an email set to `""` and an alias built from an empty hash (whose email is nil) add no message in the source, but the model reads both as `""` and adds "may not be the same as an alias". Such a record fails the domain rule either way.
  - Messages are the default English texts.
  - The confirmation message is placed on `password`.
  - `blank?` is taken to mean ASCII whitespace only.
- The uniqueness rule's database query is not modelled. The caller supplies the set of other users' logins. How CouchRest excludes the record itself from its query, and its row limit, are not modelled.
- `Hex.StringHex`: only the "stop at the first non-hex character" part of Ruby's `String#hex` is modelled. Leading whitespace, a sign, a `0x` prefix and underscores are not. Strings that pass the hex rule contain none of these.
- Atomic uniqueness across concurrent registrations is left out. It is a property of the database, and the source does not enforce it.
- Idempotence of validation is not stated as a lemma. Validation is a function of the record, the configuration and the other logins, so it holds by construction.
