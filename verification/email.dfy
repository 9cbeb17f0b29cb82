/** `EmailValidator` and `validate_github_email` from email_validator.py.

    The address pattern is `^[a-zA-Z0-9._%+-]+@[a-zA-Z0-9.-]+\.[a-zA-Z]{2,}$`,
    applied with `re.match` to the stripped input. Its character classes are
    ASCII, so the model is exact on ASCII input. */
module Email {
  import opened Results
  import opened Strings
  import opened Patterns

  // ---------------------------------------------------------------------------
  // Character classes

  predicate IsAsciiLetter(c: char) {
    ('a' <= c <= 'z') || ('A' <= c <= 'Z')
  }

  /** `[a-zA-Z0-9._%+-]`: what the part before `@` may hold. */
  predicate IsLocalChar(c: char) {
    IsAsciiLetter(c) || IsDigit(c) || c == '.' || c == '_' || c == '%' || c == '+' || c == '-'
  }

  /** `[a-zA-Z0-9.-]`: what the domain may hold. */
  predicate IsDomainChar(c: char) {
    IsAsciiLetter(c) || IsDigit(c) || c == '.' || c == '-'
  }

  predicate AllLocal(s: string) {
    forall i :: 0 <= i < |s| ==> IsLocalChar(s[i])
  }

  predicate AllDomain(s: string) {
    forall i :: 0 <= i < |s| ==> IsDomainChar(s[i])
  }

  predicate AllLetters(s: string) {
    forall i :: 0 <= i < |s| ==> IsAsciiLetter(s[i])
  }

  /** The first index holding `c`. */
  function FirstIndex(s: string, c: char): (r: Option<nat>)
    ensures r.Some? ==> r.value < |s| && s[r.value] == c && forall j :: 0 <= j < r.value ==> s[j] != c
    ensures r.None? ==> forall j :: 0 <= j < |s| ==> s[j] != c
    decreases |s|
  {
    if |s| == 0 then None
    else if s[0] == c then Some(0)
    else
      match FirstIndex(s[1..], c)
      case None => None
      case Some(k) => Some(k + 1)
  }

  /** The last index holding `c`. */
  function LastIndex(s: string, c: char): (r: Option<nat>)
    ensures r.Some? ==> r.value < |s| && s[r.value] == c && forall j :: r.value < j < |s| ==> s[j] != c
    ensures r.None? ==> forall j :: 0 <= j < |s| ==> s[j] != c
    decreases |s|
  {
    if |s| == 0 then None
    else if s[|s| - 1] == c then Some(|s| - 1)
    else LastIndex(s[..|s| - 1], c)
  }

  // ---------------------------------------------------------------------------
  // The address pattern

  /** The pattern's parts fall at these positions of a line `b`: the local
      part is `b[..at]`, the domain `b[at + 1..dot]` and the top-level label
      `b[dot + 1..]`. */
  predicate AddressParts(b: string, at: int, dot: int) {
    && 1 <= at && at + 2 <= dot && dot + 3 <= |b|
    && b[at] == '@' && b[dot] == '.'
    && AllLocal(b[..at]) && AllDomain(b[at + 1..dot]) && AllLetters(b[dot + 1..])
  }

  /** What `re.match` accepts: a local part, `@`, a domain, `.`, and two or
      more letters, covering the input up to a place where `$` may match. */
  ghost predicate MatchesAddress(s: string) {
    exists k, at, dot :: 0 <= k <= |s| && DollarAt(s, k) && AddressParts(s[..k], at, dot)
  }

  /** The pattern matched directly against the text `$` leaves to it. */
  predicate IsAddress(s: string) {
    AddressBody(Body(s))
  }

  /** The local part ends at the first `@` (the local class excludes it),
      and the top-level label starts after the last `.` (the letter class
      excludes it). */
  predicate AddressBody(b: string) {
    match FirstIndex(b, '@')
    case None => false
    case Some(at) =>
      var rest := b[at + 1..];
      && at >= 1 && AllLocal(b[..at]) && AllDomain(rest)
      && match LastIndex(rest, '.')
         case None => false
         case Some(d) => d >= 1 && |rest| - d - 1 >= 2 && AllLetters(rest[d + 1..])
  }

  lemma IsAddressIsMatch(s: string)
    ensures IsAddress(s) <==> MatchesAddress(s)
  {
    var b := Body(s);
    if IsAddress(s) {
      var at := BodyParts(b);
      assert 0 <= |b| <= |s| && DollarAt(s, |b|) && AddressParts(s[..|b|], at.0, at.1);
    }
    if MatchesAddress(s) {
      var k, at, dot :| 0 <= k <= |s| && DollarAt(s, k) && AddressParts(s[..k], at, dot);
      PartsLineFree(s[..k], at, dot);
      DollarAfterLineFree(s, k);
      PartsIsBody(s[..k], at, dot);
    }
  }

  /** The direct test accepts a line only where the parts fall. */
  lemma BodyParts(b: string) returns (p: (int, int))
    requires AddressBody(b)
    ensures AddressParts(b, p.0, p.1)
  {
    var at := FirstIndex(b, '@').value;
    var rest := b[at + 1..];
    var d := LastIndex(rest, '.').value;
    var dot := at + 1 + d;
    assert b[dot] == rest[d];
    assert b[at + 1..dot] == rest[..d];
    assert b[dot + 1..] == rest[d + 1..];
    p := (at, dot);
  }

  /** Every character the pattern admits is neither a line break nor, outside
      the one place, an `@`. */
  lemma PartsLineFree(b: string, at: int, dot: int)
    requires AddressParts(b, at, dot)
    ensures NoNewline(b)
    ensures forall j :: 0 <= j < |b| && j != at ==> b[j] != '@'
  {
    forall j | 0 <= j < |b|
      ensures b[j] != '\n' && (j != at ==> b[j] != '@')
    {
      if j < at {
        assert IsLocalChar(b[..at][j]);
      } else if at < j < dot {
        assert IsDomainChar(b[at + 1..dot][j - at - 1]);
      } else if dot < j {
        assert IsAsciiLetter(b[dot + 1..][j - dot - 1]);
      }
    }
  }

  lemma PartsIsBody(b: string, at: int, dot: int)
    requires AddressParts(b, at, dot)
    ensures AddressBody(b)
  {
    PartsLineFree(b, at, dot);
    assert FirstIndex(b, '@') == Some(at);
    var rest := b[at + 1..];
    forall j | 0 <= j < |rest|
      ensures IsDomainChar(rest[j]) && (dot - at - 1 < j ==> rest[j] != '.')
    {
      if j < dot - at - 1 {
        assert rest[j] == b[at + 1..dot][j];
      } else if j > dot - at - 1 {
        assert rest[j] == b[dot + 1..][j - (dot - at)];
      }
    }
    assert LastIndex(rest, '.') == Some(dot - at - 1);
    assert rest[dot - at..] == b[dot + 1..];
  }

  /** `at` is the position of the only `@` in `s`. */
  predicate OnlyAt(s: string, at: int) {
    0 <= at < |s| && s[at] == '@' && forall j :: 0 <= j < |s| && j != at ==> s[j] != '@'
  }

  /** An address holds exactly one `@`, at the end of its local part. */
  lemma AddressOneAt(s: string) returns (at: int)
    requires IsAddress(s)
    ensures OnlyAt(s, at)
  {
    var b := Body(s);
    var p := BodyParts(b);
    at := p.0;
    PartsLineFree(b, p.0, p.1);
    forall j | 0 <= j < |s| && j != at
      ensures s[j] != '@'
    {
      if j < |b| {
        assert s[j] == b[j];
      }
    }
  }

  /** Whitespace around a string with one `@` adds no other. */
  lemma PaddedOnlyAt(email: string, i: int, r: string, at: int)
    requires 0 <= i <= |email| - |r| && email[i..i + |r|] == r
    requires AllSpace(email[..i]) && AllSpace(email[i + |r|..])
    requires OnlyAt(r, at)
    ensures OnlyAt(email, i + at)
  {
    forall j | 0 <= j < |email| && j != i + at
      ensures email[j] != '@'
    {
      if j < i {
        assert IsSpace(email[..i][j]);
      } else if j < i + |r| {
        assert email[j] == r[j - i];
      } else {
        assert IsSpace(email[i + |r|..][j - i - |r|]);
      }
    }
    assert email[i + at] == r[at];
  }

  // ---------------------------------------------------------------------------
  // The public operations

  /** `EmailValidator.is_valid`: empty input is rejected before matching, and
      the pattern sees the stripped input. */
  predicate IsValid(email: string) {
    |email| > 0 && IsAddress(Strip(email))
  }

  /** Surrounding whitespace never changes validity. */
  lemma IsValidStripInvariant(email: string)
    ensures IsValid(Strip(email)) <==> IsValid(email)
  {
    StripIdempotent(email);
    if IsValid(email) {
      var _ := AddressOneAt(Strip(email));
    }
  }

  /** A valid input, whitespace and all, holds exactly one `@`. */
  lemma ValidAt(email: string) returns (at: int)
    requires IsValid(email)
    ensures OnlyAt(email, at)
  {
    var i := StripSpan(email);
    at := PaddedAddressAt(email, i, Strip(email));
  }

  lemma PaddedAddressAt(email: string, i: int, r: string) returns (at: int)
    requires IsAddress(r)
    requires 0 <= i <= |email| - |r| && email[i..i + |r|] == r
    requires AllSpace(email[..i]) && AllSpace(email[i + |r|..])
    ensures OnlyAt(email, at)
  {
    var k := AddressOneAt(r);
    PaddedOnlyAt(email, i, r, k);
    at := i + k;
  }

  lemma ValidOneAt(email: string)
    requires IsValid(email)
    ensures FirstIndex(email, '@').Some? && OnlyAt(email, FirstIndex(email, '@').value)
  {
    var at := ValidAt(email);
    OnlyAtFirst(email, at);
  }

  lemma OnlyAtFirst(s: string, at: int)
    requires OnlyAt(s, at)
    ensures FirstIndex(s, '@') == Some(at)
  {
  }

  lemma OnlyAtContains(s: string, at: int)
    requires OnlyAt(s, at)
    ensures Contains(s, "@")
  {
    assert s[at..at + 1] == "@";
    ContainsAt(s, at, "@");
  }

  /** Splitting at the only `@` gives the text before and after it. */
  lemma SplitAtOnlyAt(email: string, at: int)
    requires OnlyAt(email, at)
    ensures SplitOn(email, "@") == [email[..at], email[at + 1..]]
  {
    assert OccursAt(email, at, "@");
    forall j | 0 <= j < at
      ensures !OccursAt(email, j, "@")
    {
      assert email[j..j + 1][0] == email[j];
    }
    assert IndexOf(email, "@") == Some(at);
    var rest := email[at + 1..];
    ContainsFirstChar(rest, "@");
    forall k | 0 <= k < |rest|
      ensures rest[k] != '@'
    {
      assert rest[k] == email[at + 1 + k];
    }
    assert SplitOn(rest, "@") == [rest];
  }

  /** `EmailValidator.extract_domain`: `email.split('@')[1]` on the original
      (unstripped) input, guarded by `is_valid`. */
  function ExtractDomain(email: string): (r: Option<string>)
    ensures r.Some? <==> IsValid(email)
    ensures r.Some? ==> forall at :: OnlyAt(email, at) ==> r.value == email[at + 1..]
  {
    if !IsValid(email) then None
    else
      ValidOneAt(email);
      var at := FirstIndex(email, '@').value;
      SplitAtOnlyAt(email, at);
      var parts := SplitOn(email, "@");
      if |parts| > 1 then Some(parts[1]) else None
  }

  /** The domain holds no `@`, and joined to the text before the `@` it
      restores the input. */
  lemma ExtractDomainSplits(email: string)
    requires IsValid(email)
    ensures '@' !in ExtractDomain(email).value
    ensures exists local :: email == local + "@" + ExtractDomain(email).value
  {
    var at := ValidAt(email);
    OnlyAtSplit(email, at);
  }

  lemma OnlyAtSplit(s: string, at: int)
    requires OnlyAt(s, at)
    ensures '@' !in s[at + 1..]
    ensures s == s[..at] + "@" + s[at + 1..]
  {
    var d := s[at + 1..];
    forall k | 0 <= k < |d|
      ensures d[k] != '@'
    {
      assert d[k] == s[at + 1 + k];
    }
  }

  /** `EmailValidator.validate_or_raise`: the stripped address, or the
      `ValueError` message quoting the original input. */
  function ValidateOrRaise(email: string): (r: Result<string, string>)
    ensures r.Ok? <==> IsValid(email)
    ensures r.Ok? ==> r.value == Strip(email) && IsValid(r.value)
    ensures r.Err? ==> r.error == "Invalid email address: " + email
  {
    var cleaned := if |email| > 0 then Strip(email) else "";
    IsValidStripInvariant(email);
    if !IsValid(cleaned) then Err("Invalid email address: " + email) else Ok(cleaned)
  }

  /** Validating a cleaned address returns it unchanged. */
  lemma ValidateOrRaiseIdempotent(email: string)
    requires ValidateOrRaise(email).Ok?
    ensures ValidateOrRaise(ValidateOrRaise(email).value) == ValidateOrRaise(email)
  {
    StripIdempotent(email);
  }

  /** `validate_github_email`: the domain test never decides, because every
      valid input contains `@`. */
  function ValidateGithubEmail(email: string): (r: bool)
    ensures r <==> IsValid(email)
  {
    if !IsValid(email) then false
    else
      var domain := ExtractDomain(email);
      ValidHasAt(email);
      domain == Some("github.com") || domain == Some("users.noreply.github.com") || Contains(email, "@")
  }

  lemma ValidHasAt(email: string)
    requires IsValid(email)
    ensures Contains(email, "@")
  {
    var at := ValidAt(email);
    OnlyAtContains(email, at);
  }
}
