/** The examples in the docstrings of email_validator.py, worked out on the model. */
module EmailExamples {
  import opened Results
  import opened Strings
  import opened Patterns
  import opened Email

  lemma ExampleParts(s: string)
    requires s == "user@example.com"
    ensures AddressParts(s, 4, 12)
  {
    assert s[..4] == "user";
    assert s[5..12] == "example";
    assert s[13..] == "com";
  }

  lemma ExampleTrimmed(s: string)
    requires s == "user@example.com"
    ensures Strip(s) == s && Body(s) == s
  {
    StripTrimmed(s);
  }

  /** `is_valid("user@example.com")` is true. */
  lemma ExampleIsValid()
    ensures IsValid("user@example.com")
  {
    var s := "user@example.com";
    ExampleParts(s);
    ExampleTrimmed(s);
    PartsIsBody(s, 4, 12);
  }

  /** `extract_domain("user@example.com")` is `'example.com'`. */
  lemma ExampleDomain()
    ensures ExtractDomain("user@example.com") == Some("example.com")
  {
    var s := "user@example.com";
    ExampleIsValid();
    ExampleAt(s);
    var r := ExtractDomain(s);
    assert r.value == s[5..];
  }

  lemma ExampleAt(s: string)
    requires s == "user@example.com"
    ensures OnlyAt(s, 4) && s[5..] == "example.com"
  {
    ExampleParts(s);
    PartsLineFree(s, 4, 12);
  }

  /** `is_valid("invalid-email")` is false: there is no `@`. */
  lemma ExampleInvalid()
    ensures !IsValid("invalid-email")
  {
    var s := "invalid-email";
    StripTrimmed(s);
    assert Body(s) == s;
    NoAt(s);
  }

  lemma NoAt(s: string)
    requires s == "invalid-email"
    ensures FirstIndex(s, '@') == None
  {
    assert forall j :: 0 <= j < |s| ==> s[j] != '@';
  }
}
