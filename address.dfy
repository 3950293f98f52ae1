/**
 * Extracting the domain of one e-mail field. Parsing the mailbox is delegated
 * to a library parser, which the model receives as a function value; what is
 * modelled is the split of the parsed address at its last '@'.
 */
module Address {
  import opened Wrappers
  import opened Strings

  /** What the mailbox parser returns: the bare address, or why it failed. */
  datatype ParseResult = Parsed(address: string) | ParseFailed(reason: string)

  const NoAtSign := "No @ in email address"

  /**
   * The domain of `full`: the part of the parsed address after its last '@'.
   * Like the source, it returns a (domain, error) pair with an empty domain
   * whenever there is an error.
   */
  function ExtractDomain(full: string, parse: string -> ParseResult): (r: (string, Option<string>))
    ensures r.1.Some? ==> r.0 == ""
    ensures parse(full).ParseFailed? ==> r.1 == Some(parse(full).reason)
    ensures parse(full).Parsed? && '@' !in parse(full).address ==> r.1 == Some(NoAtSign)
    ensures r.1.None? <==> parse(full).Parsed? && '@' in parse(full).address
    ensures r.1.None? ==>
              var a := parse(full).address;
              '@' !in r.0 && |r.0| < |a| && a == a[..|a| - |r.0| - 1] + "@" + r.0
  {
    match parse(full)
    case ParseFailed(reason) => ("", Some(reason))
    case Parsed(address) =>
      // The last '@' separates the domain: the local part may hold quoted or
      // escaped '@' signs.
      var atIdx := LastIndex(address, '@');
      if atIdx == -1 then ("", Some(NoAtSign))
      else
        assert address == address[..atIdx] + "@" + address[atIdx + 1..];
        (address[atIdx + 1..], None)
  }

  /**
   * The converse of the split: whatever local part precedes it, a domain
   * without '@' is recovered exactly from the address local + "@" + domain.
   */
  lemma {:induction false} ExtractDomainOfJoin(full: string, parse: string -> ParseResult, local: string, domain: string)
    requires parse(full) == Parsed(local + "@" + domain)
    requires '@' !in domain
    ensures ExtractDomain(full, parse) == (domain, None)
  {
    LastIndexOfJoin(local, '@', domain);
    assert (local + "@" + domain)[|local| + 1..] == domain;
  }

  /**
   * The address table of the repository's tests, given what the mailbox
   * parser returns for each input.
   */
  lemma AddressTable(parse: string -> ParseResult)
    requires parse("foo@foo.com") == Parsed("foo@foo.com")
    requires parse("<foo@foo.com>") == Parsed("foo@foo.com")
    requires parse("an invalid address") == ParseFailed("mail: missing phrase")
    requires parse("") == ParseFailed("mail: no address")
    requires parse("\"John Doe\" <foo@foo.com>") == Parsed("foo@foo.com")
    requires parse("\"John Doe@Work\" <foo@foo.com>") == Parsed("foo@foo.com")
    requires parse("@foo.com") == ParseFailed("mail: missing word in phrase: mail: invalid string")
    requires parse("foo@@foo.com") == ParseFailed("mail: no angle-addr")
    ensures ExtractDomain("foo@foo.com", parse) == ("foo.com", None)
    ensures ExtractDomain("<foo@foo.com>", parse) == ("foo.com", None)
    ensures ExtractDomain("an invalid address", parse) == ("", Some("mail: missing phrase"))
    ensures ExtractDomain("", parse) == ("", Some("mail: no address"))
    ensures ExtractDomain("\"John Doe\" <foo@foo.com>", parse) == ("foo.com", None)
    ensures ExtractDomain("\"John Doe@Work\" <foo@foo.com>", parse) == ("foo.com", None)
    ensures ExtractDomain("@foo.com", parse)
              == ("", Some("mail: missing word in phrase: mail: invalid string"))
    ensures ExtractDomain("foo@@foo.com", parse) == ("", Some("mail: no angle-addr"))
  {
    assert "foo" + "@" + "foo.com" == "foo@foo.com";
    ExtractDomainOfJoin("foo@foo.com", parse, "foo", "foo.com");
    ExtractDomainOfJoin("<foo@foo.com>", parse, "foo", "foo.com");
    ExtractDomainOfJoin("\"John Doe\" <foo@foo.com>", parse, "foo", "foo.com");
    ExtractDomainOfJoin("\"John Doe@Work\" <foo@foo.com>", parse, "foo", "foo.com");
  }

  /**
   * A quoted local part may hold `@`. The parser drops the quotes, so the
   * parsed address has two `@`s, and only a split at the last one gives the
   * domain.
   */
  lemma QuotedLocalPart(parse: string -> ParseResult)
    requires parse("\"a@b\"@foo.com") == Parsed("a@b@foo.com")
    ensures ExtractDomain("\"a@b\"@foo.com", parse) == ("foo.com", None)
  {
    assert "a@b" + "@" + "foo.com" == "a@b@foo.com";
    ExtractDomainOfJoin("\"a@b\"@foo.com", parse, "a@b", "foo.com");
  }
}
