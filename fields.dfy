/** The validated fields of a contact (clipack/classes.py, `Field` and its
    subclasses). Each field kind has a validity predicate; constructing a
    field either yields the stored value or raises `ValueError`. The
    source's setter first stores `None` and then raises, so the half-built
    object is discarded by the exception and never seen: constructing is
    modelled as a function returning a `Result`. */
module Fields {
  import opened Base
  import opened Text
  import opened Calendar

  /** `FirstName.is_valid`: a non-empty string of letters. */
  predicate FirstNameValid(s: string) {
    IsAlpha(s)
  }

  /** `SecondName.is_valid`: absent, or a non-empty string of letters. */
  predicate SecondNameValid(s: Option<string>) {
    s.None? || IsAlpha(s.value)
  }

  /** `Phone.is_valid`: exactly ten digits. */
  predicate PhoneValid(s: string) {
    IsDigits(s) && |s| == 10
  }

  /** `Birthday.is_valid`: absent, or a string `strptime` reads as
      `%d-%m-%Y`. */
  predicate BirthdayValid(s: Option<string>) {
    s.None? || ParseDate(s.value).Some?
  }

  /** `Email.is_valid`: absent, or a string the e-mail pattern matches at
      its start. */
  predicate EmailValid(s: Option<string>) {
    s.None? || EmailMatches(s.value)
  }

  // ---------------------------------------------------------------------
  // Field construction

  /** `FirstName(s)`. */
  function NewFirstName(s: string): (r: Result<string>)
    ensures r.Ok? <==> FirstNameValid(s)
    ensures r.Ok? ==> r.value == s
    ensures r.Err? ==> r.error == ValueError
  {
    if FirstNameValid(s) then Ok(s) else Err(ValueError)
  }

  /** `SecondName(s)`: `None` stays absent. */
  function NewSecondName(s: Option<string>): (r: Result<Option<string>>)
    ensures r.Ok? <==> s.None? || IsAlpha(s.value)
    ensures r.Ok? ==> r.value == s
    ensures r.Err? ==> r.error == ValueError
  {
    if SecondNameValid(s) then Ok(s) else Err(ValueError)
  }

  /** `Phone(s)`. */
  function NewPhone(s: string): (r: Result<string>)
    ensures r.Ok? <==> |s| == 10 && forall i :: 0 <= i < |s| ==> IsAsciiDigit(s[i])
    ensures r.Ok? ==> r.value == s
    ensures r.Err? ==> r.error == ValueError
  {
    if PhoneValid(s) then Ok(s) else Err(ValueError)
  }

  /** `Birthday(s)`: the parsed date, `None` for `None`. */
  function NewBirthday(s: Option<string>): (r: Result<Option<Date>>)
    ensures r.Ok? <==> BirthdayValid(s)
    ensures r.Ok? ==> (r.value.None? <==> s.None?)
    ensures r.Ok? && s.Some? ==> r.value == ParseDate(s.value)
    ensures r.Ok? && r.value.Some? ==> ValidDate(r.value.value)
    ensures r.Err? ==> r.error == ValueError
  {
    match s
    case None => Ok(None)
    case Some(t) => if ParseDate(t).Some? then Ok(ParseDate(t)) else Err(ValueError)
  }

  /** `Email(s)`: `None` stays absent. */
  function NewEmail(s: Option<string>): (r: Result<Option<string>>)
    ensures r.Ok? <==> s.None? || EmailMatches(s.value)
    ensures r.Ok? ==> r.value == s
    ensures r.Err? ==> r.error == ValueError
  {
    if EmailValid(s) then Ok(s) else Err(ValueError)
  }

  // ---------------------------------------------------------------------
  // The e-mail pattern: a letter, one or more letters, digits, dots or
  // underscores, an '@', one or more letters or digits, a '.', two or more
  // letters and a word boundary. It is applied with re.match, which anchors
  // it at the start of the string only.

  predicate IsLocalChar(c: char) {
    IsAsciiAlnum(c) || c == '.' || c == '_'
  }

  /** The three character classes of the pattern: `[A-Za-z0-9._]`,
      `[A-Za-z0-9]` and `[A-Za-z]`. */
  datatype CharClass = LocalClass | AlnumClass | LetterClass

  predicate InClass(k: CharClass, c: char) {
    match k
    case LocalClass => IsLocalChar(c)
    case AlnumClass => IsAsciiAlnum(c)
    case LetterClass => IsAsciiLetter(c)
  }

  /** Length of the longest prefix of `s` whose characters are in class
      `k`. */
  function Span(s: string, k: CharClass): (n: nat)
    ensures n <= |s|
  {
    if s == [] || !InClass(k, s[0]) then 0 else 1 + Span(s[1..], k)
  }

  /** The span is the longest such prefix: every character before it is
      in the class, and the one at it, if any, is not. */
  lemma {:induction false} SpanFacts(s: string, k: CharClass)
    ensures forall i :: 0 <= i < Span(s, k) ==> InClass(k, s[i])
    ensures Span(s, k) < |s| ==> !InClass(k, s[Span(s, k)])
    decreases |s|
  {
    if s != [] && InClass(k, s[0]) {
      SpanFacts(s[1..], k);
      assert forall i :: 1 <= i < |s| ==> s[1..][i - 1] == s[i];
    }
  }

  /** The pattern as a recogniser. Neither '@' nor '.' belongs to the class
      before it, so the local part runs to the first '@' and the domain to
      the next '.'; the top-level domain is the run of letters after that
      '.', and the closing `\b` holds only where that run ends at the end of
      the string or before a non-word character. Both alternatives of the
      pattern agree at the start of the string, because a match begins with
      a letter. */
  predicate EmailMatches(s: string) {
    var a := Span(s, LocalClass);
    a >= 2 && IsAsciiLetter(s[0]) && a < |s| && s[a] == '@' && DomainMatches(s[a + 1..])
  }

  /** The part after the '@'. */
  predicate DomainMatches(rest: string) {
    var b := Span(rest, AlnumClass);
    b >= 1 && b < |rest| && rest[b] == '.' && TopLevelMatches(rest[b + 1..])
  }

  /** The part after the domain's '.'. */
  predicate TopLevelMatches(t: string) {
    var c := Span(t, LetterClass);
    c >= 2 && (c == |t| || !IsWordChar(t[c]))
  }

  predicate LocalPart(local: string) {
    |local| >= 2 && IsAsciiLetter(local[0]) && forall i :: 0 <= i < |local| ==> IsLocalChar(local[i])
  }

  predicate DomainPart(domain: string) {
    |domain| >= 1 && forall i :: 0 <= i < |domain| ==> IsAsciiAlnum(domain[i])
  }

  predicate TopLevelPart(tld: string) {
    |tld| >= 2 && forall i :: 0 <= i < |tld| ==> IsAsciiLetter(tld[i])
  }

  /** The pieces of a matching string: a local part of at least two
      characters starting with a letter, a domain of letters and digits, a
      top-level domain of at least two letters, and whatever follows, which
      must not start with a word character. */
  predicate EmailParts(local: string, domain: string, tld: string, tail: string) {
    LocalPart(local) && DomainPart(domain) && TopLevelPart(tld) && (tail == [] || !IsWordChar(tail[0]))
  }

  lemma {:induction false} SpanConcat(x: string, y: string, k: CharClass)
    requires forall i :: 0 <= i < |x| ==> InClass(k, x[i])
    requires y == [] || !InClass(k, y[0])
    ensures Span(x + y, k) == |x|
  {
    if x == [] {
      assert x + y == y;
    } else {
      assert (x + y)[0] == x[0];
      assert (x + y)[1..] == x[1..] + y;
      SpanConcat(x[1..], y, k);
    }
  }

  lemma TopLevelOfParts(top: string, tail: string)
    requires TopLevelPart(top) && (tail == [] || !IsWordChar(tail[0]))
    ensures TopLevelMatches(top + tail)
  {
    SpanConcat(top, tail, LetterClass);
    assert tail != [] ==> (top + tail)[|top|] == tail[0];
  }

  lemma DomainOfParts(domain: string, tld: string)
    requires DomainPart(domain) && TopLevelMatches(tld)
    ensures DomainMatches(domain + ("." + tld))
  {
    var rest := domain + ("." + tld);
    SpanConcat(domain, "." + tld, AlnumClass);
    assert rest[|domain|] == '.';
    assert rest[|domain| + 1..] == tld;
  }

  lemma LocalOfParts(local: string, rest: string)
    requires LocalPart(local) && DomainMatches(rest)
    ensures EmailMatches(local + ("@" + rest))
  {
    var s := local + ("@" + rest);
    SpanConcat(local, "@" + rest, LocalClass);
    assert s[0] == local[0];
    assert s[|local|] == '@';
    assert s[|local| + 1..] == rest;
  }

  /** The string the pieces spell. */
  function EmailOf(local: string, domain: string, tld: string, tail: string): string {
    local + ("@" + (domain + ("." + (tld + tail))))
  }

  /** Every string made of the pieces matches. */
  lemma EmailPartsMatch(local: string, domain: string, top: string, tail: string)
    requires EmailParts(local, domain, top, tail)
    ensures EmailMatches(EmailOf(local, domain, top, tail))
  {
    TopLevelOfParts(top, tail);
    DomainOfParts(domain, top + tail);
    LocalOfParts(local, domain + ("." + (top + tail)));
  }

  lemma SplitAround(s: string, a: int, c: char)
    requires 0 <= a < |s| && s[a] == c
    ensures s == s[..a] + ([c] + s[a + 1..])
  {
  }

  /** The run before the '@' is a local part. */
  lemma LocalPrefix(s: string)
    requires EmailMatches(s)
    ensures Span(s, LocalClass) < |s| && LocalPart(s[..Span(s, LocalClass)])
  {
    SpanFacts(s, LocalClass);
  }

  /** The pattern goes on matching after the '@'. */
  lemma AfterLocal(s: string)
    requires EmailMatches(s)
    ensures Span(s, LocalClass) < |s| && s[Span(s, LocalClass)] == '@'
    ensures DomainMatches(s[Span(s, LocalClass) + 1..])
  {
  }

  /** The run before the '.' is a domain. */
  lemma DomainPrefix(rest: string)
    requires DomainMatches(rest)
    ensures Span(rest, AlnumClass) < |rest| && DomainPart(rest[..Span(rest, AlnumClass)])
  {
    SpanFacts(rest, AlnumClass);
  }

  /** The top-level domain's pattern matches after the '.'. */
  lemma AfterDomain(rest: string)
    requires DomainMatches(rest)
    ensures Span(rest, AlnumClass) < |rest| && rest[Span(rest, AlnumClass)] == '.'
    ensures TopLevelMatches(rest[Span(rest, AlnumClass) + 1..])
  {
  }

  lemma TopLevelPrefix(t: string)
    requires TopLevelMatches(t)
    ensures Span(t, LetterClass) <= |t| && TopLevelPart(t[..Span(t, LetterClass)])
  {
    SpanFacts(t, LetterClass);
  }

  lemma AfterTopLevel(t: string)
    requires TopLevelMatches(t)
    ensures var c := Span(t, LetterClass); t[c..] == [] || !IsWordChar(t[c..][0])
  {
  }

  /** Some pieces of the required form spell `s`. */
  ghost predicate SpelledByParts(s: string) {
    exists local, domain, tld, tail :: EmailParts(local, domain, tld, tail) && s == EmailOf(local, domain, tld, tail)
  }

  lemma EmailWitness(s: string, local: string, domain: string, tld: string, tail: string)
    requires EmailParts(local, domain, tld, tail) && s == EmailOf(local, domain, tld, tail)
    ensures SpelledByParts(s)
  {
  }

  /** Cutting a string around an '@' at `a`, and its rest around a '.' at
      `b` and at `c`, loses nothing. */
  lemma PiecesRebuild(s: string, a: nat, b: nat, c: nat)
    requires a < |s| && s[a] == '@'
    requires b < |s[a + 1..]| && s[a + 1..][b] == '.'
    requires c <= |s[a + 1..][b + 1..]|
    ensures var rest := s[a + 1..]; var tld := rest[b + 1..];
      s == EmailOf(s[..a], rest[..b], tld[..c], tld[c..])
  {
    var rest := s[a + 1..];
    var tld := rest[b + 1..];
    SplitAround(s, a, '@');
    SplitAround(rest, b, '.');
    assert tld == tld[..c] + tld[c..];
  }

  /** Pieces of the required form, cut around an '@' and a '.', are a
      witness for the string. */
  lemma PiecesWitness(s: string, a: nat, b: nat, c: nat)
    requires a < |s| && s[a] == '@'
    requires b < |s[a + 1..]| && s[a + 1..][b] == '.'
    requires c <= |s[a + 1..][b + 1..]|
    requires var rest := s[a + 1..]; var tld := rest[b + 1..];
      EmailParts(s[..a], rest[..b], tld[..c], tld[c..])
    ensures SpelledByParts(s)
  {
    PiecesRebuild(s, a, b, c);
    var rest := s[a + 1..];
    var tld := rest[b + 1..];
    EmailWitness(s, s[..a], rest[..b], tld[..c], tld[c..]);
  }

  /** The top-level domain is the last piece cut. */
  lemma TopLevelSplits(s: string, a: nat, b: nat)
    requires a < |s| && s[a] == '@' && LocalPart(s[..a])
    requires b < |s[a + 1..]| && s[a + 1..][b] == '.' && DomainPart(s[a + 1..][..b])
    requires TopLevelMatches(s[a + 1..][b + 1..])
    ensures SpelledByParts(s)
  {
    var tld := s[a + 1..][b + 1..];
    TopLevelPrefix(tld);
    AfterTopLevel(tld);
    PiecesWitness(s, a, b, Span(tld, LetterClass));
  }

  /** Then the domain. */
  lemma DomainSplits(s: string, a: nat)
    requires a < |s| && s[a] == '@' && LocalPart(s[..a])
    requires DomainMatches(s[a + 1..])
    ensures SpelledByParts(s)
  {
    var rest := s[a + 1..];
    DomainPrefix(rest);
    AfterDomain(rest);
    TopLevelSplits(s, a, Span(rest, AlnumClass));
  }

  /** Every matching string splits into the pieces: the local part is cut
      first. */
  lemma EmailMatchSplits(s: string)
    requires EmailMatches(s)
    ensures SpelledByParts(s)
  {
    LocalPrefix(s);
    AfterLocal(s);
    DomainSplits(s, Span(s, LocalClass));
  }

  /** The recogniser accepts exactly the strings made of the pieces. */
  lemma EmailMatchesIff(s: string)
    ensures EmailMatches(s) <==>
      exists local, domain, tld, tail :: EmailParts(local, domain, tld, tail) && s == EmailOf(local, domain, tld, tail)
  {
    if EmailMatches(s) {
      EmailMatchSplits(s);
    }
    if exists local, domain, tld, tail :: EmailParts(local, domain, tld, tail) && s == EmailOf(local, domain, tld, tail) {
      var local, domain, top, tail :| EmailParts(local, domain, top, tail) && s == EmailOf(local, domain, top, tail);
      EmailPartsMatch(local, domain, top, tail);
    }
  }
}
