/**
 * The address shape of the User model's email rules,
 * `\A(([^@\s]+)@((?:[-a-z0-9]+\.)+[a-z]{2,}))?\Z`, and the domain rule
 * `@<domain>\Z`, written as predicates over strings.
 */
module EmailFormat {
  import opened Chars

  /** `[-a-z0-9]`. */
  predicate IsLabelChar(c: char) { c == '-' || IsLower(c) || IsDigit(c) }

  /** `[-a-z0-9]+`. */
  predicate IsLabel(l: string) { |l| > 0 && forall k :: 0 <= k < |l| ==> IsLabelChar(l[k]) }

  /** `[a-z]{2,}`. */
  predicate IsTld(t: string) { |t| >= 2 && forall k :: 0 <= k < |t| ==> IsLower(t[k]) }

  /** `[^@\s]+`. */
  predicate IsLocalPart(l: string)
  {
    |l| > 0 && forall k :: 0 <= k < |l| ==> l[k] != '@' && !IsSpace(l[k])
  }

  /**
   * `(?:[-a-z0-9]+\.)+[a-z]{2,}`. A label holds no dot, so the first dot ends the
   * first label; what follows is either the final letters or another such domain.
   */
  predicate IsDomain(d: string)
    decreases |d|
  {
    var i := IndexOf(d, '.');
    i < |d| && IsLabel(d[..i]) && (IsTld(d[i + 1..]) || IsDomain(d[i + 1..]))
  }

  /** The group `([^@\s]+)@(domain)`: the local part ends at the first `@`. */
  predicate IsAddress(s: string)
  {
    var j := IndexOf(s, '@');
    j < |s| && IsLocalPart(s[..j]) && IsDomain(s[j + 1..])
  }

  /** `\A(address)?` followed by the end of the string. */
  predicate IsOptionalAddress(s: string) { s == "" || IsAddress(s) }

  /** The whole format rule: Ruby's `\Z` also matches just before a final newline. */
  predicate IsEmailFormat(s: string)
  {
    IsOptionalAddress(s) || (|s| > 0 && s[|s| - 1] == '\n' && IsOptionalAddress(s[..|s| - 1]))
  }

  /** The rule `@<domain>\Z`, reading the configured domain literally. */
  predicate EndsInDomain(s: string, domain: string)
  {
    HasSuffix(s, "@" + domain) || HasSuffix(s, "@" + domain + "\n")
  }

  // ---- an independent, declarative reading of the same shape ----

  /** `labels[0] + "." + labels[1] + "." + ... + "."`. */
  function Dotted(labels: seq<string>): string
  {
    if labels == [] then "" else labels[0] + "." + Dotted(labels[1..])
  }

  predicate IsDomainParts(labels: seq<string>, tld: string)
  {
    |labels| >= 1 && (forall k :: 0 <= k < |labels| ==> IsLabel(labels[k])) && IsTld(tld)
  }

  /** An address is local + "@" + one or more labels each followed by "." + final letters. */
  ghost predicate AddressSpec(s: string)
  {
    exists local, labels, tld :: IsLocalPart(local) && IsDomainParts(labels, tld)
      && s == local + "@" + Dotted(labels) + tld
  }

  lemma LabelHasNoDot(l: string)
    requires IsLabel(l)
    ensures forall k :: 0 <= k < |l| ==> l[k] != '.'
  {
  }

  /** Every domain assembled from labels and final letters is accepted. */
  lemma {:induction false} DomainSound(labels: seq<string>, tld: string)
    requires IsDomainParts(labels, tld)
    ensures IsDomain(Dotted(labels) + tld)
    decreases |labels|
  {
    var a, b := labels[0], Dotted(labels[1..]) + tld;
    var d := Dotted(labels) + tld;
    assert d == a + ['.'] + b;
    LabelHasNoDot(a);
    IndexOfAfterPrefix(a, '.', b);
    if |labels| == 1 {
      assert b == tld;
    } else {
      assert IsDomainParts(labels[1..], tld) by {
        forall k | 0 <= k < |labels| - 1 ensures IsLabel(labels[1..][k]) {
          assert labels[1..][k] == labels[k + 1];
        }
      }
      DomainSound(labels[1..], tld);
    }
  }

  /** Every accepted domain splits into labels and final letters. */
  lemma {:induction false} DomainComplete(d: string) returns (labels: seq<string>, tld: string)
    requires IsDomain(d)
    ensures IsDomainParts(labels, tld) && d == Dotted(labels) + tld
    decreases |d|
  {
    var i := IndexOf(d, '.');
    var a, rest := d[..i], d[i + 1..];
    assert d == a + "." + rest;
    if IsTld(rest) {
      labels, tld := [a], rest;
      assert Dotted(labels) == a + "." + Dotted([]);
    } else {
      var more;
      more, tld := DomainComplete(rest);
      labels := [a] + more;
      assert labels[1..] == more;
      assert Dotted(labels) + tld == a + "." + (Dotted(more) + tld);
    }
  }

  /** The format predicate and the declarative reading agree on every string. */
  lemma AddressMatchesSpec(s: string)
    ensures IsAddress(s) <==> AddressSpec(s)
  {
    if IsAddress(s) {
      var j := IndexOf(s, '@');
      var labels, tld := DomainComplete(s[j + 1..]);
      assert s == s[..j] + "@" + Dotted(labels) + tld;
    }
    if AddressSpec(s) {
      var local, labels, tld :| IsLocalPart(local) && IsDomainParts(labels, tld)
        && s == local + "@" + Dotted(labels) + tld;
      var d := Dotted(labels) + tld;
      assert s == local + ['@'] + d;
      IndexOfAfterPrefix(local, '@', d);
      DomainSound(labels, tld);
    }
  }

  /**
   * For a string without a newline the format rule accepts exactly the empty string
   * and the addresses.
   */
  lemma EmailFormatWithoutNewline(s: string)
    requires forall k :: 0 <= k < |s| ==> s[k] != '\n'
    ensures IsEmailFormat(s) <==> s == "" || AddressSpec(s)
  {
    AddressMatchesSpec(s);
  }

  /** Both rules on `email` together: for a string without a newline, an address at the domain. */
  lemma PrimaryEmailRules(s: string, domain: string)
    requires forall k :: 0 <= k < |s| ==> s[k] != '\n'
    ensures IsEmailFormat(s) && EndsInDomain(s, domain) <==> AddressSpec(s) && HasSuffix(s, "@" + domain)
  {
    AddressMatchesSpec(s);
    NoNewlineSuffix(s, "@" + domain + "\n");
  }

  lemma NoNewlineSuffix(s: string, t: string)
    requires forall k :: 0 <= k < |s| ==> s[k] != '\n'
    requires |t| > 0 && t[|t| - 1] == '\n'
    ensures !HasSuffix(s, t)
  {
    if |t| <= |s| {
      assert s[|s| - |t|..][|t| - 1] == s[|s| - 1];
    }
  }

  /** The `\Z` anchor lets one trailing newline through after an address. */
  lemma FinalNewlineAccepted(s: string)
    requires IsAddress(s)
    ensures IsEmailFormat(s + "\n")
  {
    assert (s + "\n")[..|s|] == s;
  }

  lemma ExampleParts()
    ensures IsLocalPart("me") && IsLabel("example") && IsTld("org")
  {
    var local, name, tld := "me", "example", "org";
    assert IsLocalPart(local) by {
      forall k | 0 <= k < 2 ensures local[k] != '@' && !IsSpace(local[k]) {
        assert local[k] == 'm' || local[k] == 'e';
      }
    }
    assert IsLabel(name) by {
      forall k | 0 <= k < |name| ensures IsLabelChar(name[k]) {
        assert 'a' <= name[k] <= 'x';
      }
    }
    assert IsTld(tld) by {
      forall k | 0 <= k < |tld| ensures IsLower(tld[k]) {
        assert 'g' <= tld[k] <= 'r';
      }
    }
  }

  /** A plain address is accepted. */
  lemma ExampleAddress()
    ensures IsAddress("me@example.org")
  {
    ExampleParts();
    var d := Dotted(["example"]) + "org";
    assert Dotted(["example"]) == "example.";
    assert IsDomainParts(["example"], "org");
    DomainSound(["example"], "org");
    IndexOfAfterPrefix("me", '@', d);
    assert "me@example.org" == "me" + ['@'] + d;
  }

  /** The address passes both rules on `email` for its own domain; the empty forward passes its rule. */
  lemma ExampleEmailRules()
    ensures IsEmailFormat("me@example.org") && EndsInDomain("me@example.org", "example.org")
    ensures IsEmailFormat("")
  {
    ExampleAddress();
    assert IsOptionalAddress("me@example.org");
    ExampleInDomain();
  }

  lemma ExampleInDomain()
    ensures HasSuffix("me@example.org", "@" + "example.org")
  {
    assert "me@example.org" == "me" + ("@" + "example.org");
    SuffixOfConcat("me", "@" + "example.org");
  }

  /** The string "email" has no `@` and is rejected. */
  lemma ExampleNotAnAddress()
    ensures !IsEmailFormat("email")
  {
    var e := "email";
    assert forall k :: 0 <= k < |e| ==> e[k] != '@';
    assert IndexOf(e, '@') == |e|;
    assert e[|e| - 1] != '\n';
  }
}
