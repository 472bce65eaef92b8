/** ASCII character classes used by the User model's regular expressions. */
module Chars {
  /** Ruby's `\d` (ASCII digits). */
  predicate IsDigit(c: char) { '0' <= c <= '9' }

  predicate IsUpper(c: char) { 'A' <= c <= 'Z' }

  predicate IsLower(c: char) { 'a' <= c <= 'z' }

  /** The login class `[A-Za-z\d_]`. */
  predicate IsWordChar(c: char) { IsUpper(c) || IsLower(c) || IsDigit(c) || c == '_' }

  /** Ruby's `\s`: space, tab, newline, vertical tab, form feed, carriage return. */
  predicate IsSpace(c: char)
  {
    c == ' ' || c == '\t' || c == '\n' || c == '\U{000B}' || c == '\U{000C}' || c == '\r'
  }

  /** ASCII lower-casing; every other character is left alone. */
  function ToLower(c: char): (r: char)
    ensures !IsUpper(r)
    ensures IsUpper(c) ==> IsLower(r) && r as int - c as int == 32
    ensures !IsUpper(c) ==> r == c
  {
    if IsUpper(c) then (c as int + 32) as char else c
  }

  function Lower(s: string): string
  {
    seq(|s|, i requires 0 <= i < |s| => ToLower(s[i]))
  }

  /** `blank?` of a string: nothing but whitespace (the empty string included). */
  predicate IsBlank(s: string) { forall i :: 0 <= i < |s| ==> IsSpace(s[i]) }

  predicate HasSuffix(s: string, suffix: string)
  {
    |suffix| <= |s| && s[|s| - |suffix|..] == suffix
  }

  lemma SuffixOfConcat(a: string, b: string)
    ensures HasSuffix(a + b, b)
  {
    assert (a + b)[|a|..] == b;
  }

  /** The position of the first `c` in `s`, or `|s|` when there is none. */
  function IndexOf(s: string, c: char): (i: nat)
    ensures i <= |s|
    ensures i < |s| ==> s[i] == c
    ensures forall k :: 0 <= k < i ==> s[k] != c
  {
    if s == [] then 0 else if s[0] == c then 0 else 1 + IndexOf(s[1..], c)
  }

  /** Splitting at the first occurrence finds the separator right after a prefix free of it. */
  lemma IndexOfAfterPrefix(a: string, c: char, b: string)
    requires forall k :: 0 <= k < |a| ==> a[k] != c
    ensures IndexOf(a + [c] + b, c) == |a|
    ensures (a + [c] + b)[..|a|] == a && (a + [c] + b)[|a| + 1..] == b
  {
    var s := a + [c] + b;
    assert s[|a|] == c;
  }
}
