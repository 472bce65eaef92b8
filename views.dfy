/**
 * What the `by_email_alias` and `by_email_or_alias` map functions emit for one
 * document. Every emitted value is the document itself, so only the keys are kept.
 */
module Views {
  import opened Users
  import opened Validation

  /** A stored document: its `type` tag and its properties. */
  datatype Document = Document(docType: string, user: UserRecord)

  /** `by_email_alias`: one key per alias, in list order, and nothing for other types. */
  function EmailAliasKeys(doc: Document): (keys: seq<string>)
    ensures doc.docType != "User" ==> keys == []
    ensures doc.docType == "User" ==> |keys| == |doc.user.emailAliases|
    ensures forall i :: 0 <= i < |keys| ==> keys[i] == doc.user.emailAliases[i].email
  {
    if doc.docType != "User" then [] else AliasEmails(doc.user.emailAliases)
  }

  /** `by_email_or_alias`: the email when it is set, then every alias. */
  function EmailOrAliasKeys(doc: Document): (keys: seq<string>)
    ensures doc.docType != "User" ==> keys == []
    ensures doc.docType == "User" ==>
      |keys| == (if doc.user.email != "" then 1 else 0) + |doc.user.emailAliases|
    ensures doc.docType == "User" && doc.user.email != "" ==> keys[0] == doc.user.email
    ensures doc.docType == "User" ==> var o := if doc.user.email != "" then 1 else 0;
      forall i :: 0 <= i < |doc.user.emailAliases| ==> keys[o + i] == doc.user.emailAliases[i].email
  {
    if doc.docType != "User" then []
    else (if doc.user.email != "" then [doc.user.email] else []) + AliasEmails(doc.user.emailAliases)
  }

  /** A key is emitted exactly for the set email and for each alias of a user document. */
  lemma EmailOrAliasKeysIff(doc: Document, k: string)
    ensures k in EmailOrAliasKeys(doc) <==>
      doc.docType == "User"
      && ((k == doc.user.email && k != "")
          || exists i :: 0 <= i < |doc.user.emailAliases| && doc.user.emailAliases[i].email == k)
  {
    var aliases := doc.user.emailAliases;
    if exists i :: 0 <= i < |aliases| && aliases[i].email == k {
      var i :| 0 <= i < |aliases| && aliases[i].email == k;
      assert AliasEmails(aliases)[i] == k;
    }
  }

  lemma CountAbsent(s: seq<string>, x: string)
    requires x !in s
    ensures multiset(s)[x] == 0
  {
  }

  /**
   * Where the alias rule runs, it passes exactly when the set email of a user
   * document is emitted once by the combined index, so that the email resolves to
   * this document by one row only.
   */
  lemma AliasRuleKeepsEmailKeyUnique(doc: Document)
    requires doc.docType == "User" && doc.user.email != ""
    requires AliasCheckRuns(doc.user.emailAliases)
    ensures AliasConflictErrors(doc.user.email, doc.user.emailAliases) == []
      <==> multiset(EmailOrAliasKeys(doc))[doc.user.email] == 1
  {
    var email, aliases := doc.user.email, doc.user.emailAliases;
    var rest := AliasEmails(aliases);
    assert EmailOrAliasKeys(doc) == [email] + rest;
    assert multiset([email] + rest) == multiset([email]) + multiset(rest);
    if AliasConflictErrors(email, aliases) == [] {
      assert email !in rest;
      CountAbsent(rest, email);
    } else {
      var i :| 0 <= i < |aliases| && aliases[i].email == email;
      assert rest[i] == email;
      assert multiset(rest)[email] >= 1;
    }
  }
}
