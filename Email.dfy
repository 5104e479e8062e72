/** The form's e-mail syntax check: the regular expression
    `^[A-Za-z0-9._%+-]+@[A-Za-z0-9.-]+\.[A-Za-z]{2,}$` applied with `re.match`
    to the stripped input. */
module Email {
  import opened Text
  import opened Wrappers

  predicate IsAsciiLetter(c: char)
  {
    ('A' <= c <= 'Z') || ('a' <= c <= 'z')
  }

  predicate IsAsciiDigit(c: char)
  {
    '0' <= c <= '9'
  }

  /** The class `[A-Za-z0-9._%+-]` of the local part. */
  predicate IsLocalChar(c: char)
  {
    IsAsciiLetter(c) || IsAsciiDigit(c) || c == '.' || c == '_' || c == '%' || c == '+' || c == '-'
  }

  /** The class `[A-Za-z0-9.-]` of the domain body. */
  predicate IsDomainChar(c: char)
  {
    IsAsciiLetter(c) || IsAsciiDigit(c) || c == '.' || c == '-'
  }

  predicate AllLocal(s: string)
  {
    forall k :: 0 <= k < |s| ==> IsLocalChar(s[k])
  }

  predicate AllDomain(s: string)
  {
    forall k :: 0 <= k < |s| ==> IsDomainChar(s[k])
  }

  predicate AllLetters(s: string)
  {
    forall k :: 0 <= k < |s| ==> IsAsciiLetter(s[k])
  }

  /** The way the pattern reads `t`: the `@` at index `at`, the last `.` at index `dot`,
      so that t == L + "@" + D + "." + T with L a non-empty run of local characters,
      D a non-empty run of domain characters and T two or more ASCII letters. */
  ghost predicate PatternSplit(t: string, at: int, dot: int)
  {
    && 0 < at && at + 1 < dot && dot + 2 < |t|
    && t[at] == '@' && t[dot] == '.'
    && AllLocal(t[..at]) && AllDomain(t[at + 1..dot]) && AllLetters(t[dot + 1..])
  }

  /** `t` is matched in full by the pattern (without the `$` newline allowance). */
  ghost predicate MatchesPattern(t: string)
  {
    exists at, dot :: PatternSplit(t, at, dot)
  }

  /** Index of the first occurrence of `c` in `s`. */
  function FindFirst(s: string, c: char): (r: Option<nat>)
    ensures r.None? ==> c !in s
    ensures r.Some? ==> r.value < |s| && s[r.value] == c && c !in s[..r.value]
  {
    if s == [] then None
    else if s[0] == c then Some(0)
    else
      match FindFirst(s[1..], c)
      case None => None
      case Some(i) =>
        assert s[..i + 1] == [s[0]] + s[1..][..i];
        Some(i + 1)
  }

  /** Index of the last occurrence of `c` in `s`. */
  function FindLast(s: string, c: char): (r: Option<nat>)
    ensures r.None? ==> c !in s
    ensures r.Some? ==> r.value < |s| && s[r.value] == c && c !in s[r.value + 1..]
  {
    if s == [] then None
    else if s[|s| - 1] == c then Some(|s| - 1)
    else
      var init := s[..|s| - 1];
      match FindLast(init, c)
      case None =>
        assert s == init + [s[|s| - 1]];
        None
      case Some(i) =>
        assert s[i + 1..] == init[i + 1..] + [s[|s| - 1]];
        Some(i)
  }

  /** The pattern decided without backtracking: since no character class admits `@`,
      the `@` is the first one; since the top-level domain admits no `.`, its dot
      is the last one after the `@`. */
  predicate EmailShape(t: string)
  {
    match FindFirst(t, '@')
    case None => false
    case Some(at) =>
      var host := t[at + 1..];
      match FindLast(host, '.')
      case None => false
      case Some(dot) =>
        && 0 < at && AllLocal(t[..at])
        && 0 < dot && AllDomain(host[..dot])
        && |host| - dot - 1 >= 2 && AllLetters(host[dot + 1..])
  }

  /** `re.match` of the pattern against `t`. Python's `$` without MULTILINE also
      matches just before a final line feed, an allowance that makes no difference
      to a string without surrounding whitespace. */
  function RegexMatch(t: string): (m: bool)
    ensures IsStripped(t) ==> (m <==> EmailShape(t))
  {
    EmailShape(t) || (t != [] && t[|t| - 1] == '\n' && EmailShape(t[..|t| - 1]))
  }

  /** `(s or "")`: Python's None, like the empty string, becomes "". */
  function OrEmpty(s: Option<string>): string
  {
    match s
    case None => ""
    case Some(v) => v
  }

  /** `is_email(s)`: `(s or "").strip()` is matched by the pattern in full, the `$`
      allowance playing no part. */
  function IsEmail(s: Option<string>): (ok: bool)
    ensures ok <==> MatchesPattern(Strip(OrEmpty(s)))
  {
    EmailShapeCorrect(Strip(OrEmpty(s)));
    RegexMatch(Strip(OrEmpty(s)))
  }

  lemma LocalExcludes(s: string)
    requires AllLocal(s)
    ensures '@' !in s
  {
  }

  lemma DomainExcludes(s: string)
    requires AllDomain(s)
    ensures '@' !in s
  {
  }

  lemma LettersExclude(s: string)
    requires AllLetters(s)
    ensures '@' !in s && '.' !in s
  {
  }

  /** An occurrence with none before it is the one FindFirst reports. */
  lemma FindFirstAt(s: string, c: char, i: nat)
    requires i < |s| && s[i] == c && c !in s[..i]
    ensures FindFirst(s, c) == Some(i)
  {
  }

  /** An occurrence with none after it is the one FindLast reports. */
  lemma FindLastAt(s: string, c: char, i: nat)
    requires i < |s| && s[i] == c && c !in s[i + 1..]
    ensures FindLast(s, c) == Some(i)
  {
  }

  lemma EmailShapeSound(t: string)
    requires EmailShape(t)
    ensures MatchesPattern(t)
  {
    var at := FindFirst(t, '@').value;
    var host := t[at + 1..];
    var dot := FindLast(host, '.').value;
    assert host[..dot] == t[at + 1..at + 1 + dot];
    assert host[dot + 1..] == t[at + 1 + dot + 1..];
    assert PatternSplit(t, at, at + 1 + dot);
  }

  lemma EmailShapeComplete(t: string, at: int, dot: int)
    requires PatternSplit(t, at, dot)
    ensures EmailShape(t)
  {
    LocalExcludes(t[..at]);
    FindFirstAt(t, '@', at);
    var host := t[at + 1..];
    var d := dot - at - 1;
    assert host[d + 1..] == t[dot + 1..];
    LettersExclude(t[dot + 1..]);
    FindLastAt(host, '.', d);
    assert host[..d] == t[at + 1..dot];
  }

  /** The computed check accepts exactly the strings the pattern describes. */
  lemma EmailShapeCorrect(t: string)
    ensures EmailShape(t) <==> MatchesPattern(t)
  {
    if EmailShape(t) {
      EmailShapeSound(t);
    }
    if MatchesPattern(t) {
      var at, dot :| PatternSplit(t, at, dot);
      EmailShapeComplete(t, at, dot);
    }
  }

  /** Surrounding whitespace does not matter to `is_email`. */
  lemma IsEmailIgnoresSurroundingSpace(s: string)
    ensures IsEmail(Some(s)) == IsEmail(Some(Strip(s)))
  {
    StripIdempotent(s);
  }

  lemma SplitHasOneAt(t: string, at: int, dot: int)
    requires PatternSplit(t, at, dot)
    ensures multiset(t)['@'] == 1
  {
    var a, b, c := t[..at], t[at + 1..dot], t[dot + 1..];
    assert t == a + ['@'] + b + ['.'] + c;
    LocalExcludes(a);
    DomainExcludes(b);
    LettersExclude(c);
    assert multiset(t) == multiset(a) + multiset{'@'} + multiset(b) + multiset{'.'} + multiset(c);
  }

  /** Every accepted address holds exactly one `@`. */
  lemma AcceptedHasOneAt(s: Option<string>)
    requires IsEmail(s)
    ensures multiset(Strip(OrEmpty(s)))['@'] == 1
  {
    var t := Strip(OrEmpty(s));
    var at, dot :| PatternSplit(t, at, dot);
    SplitHasOneAt(t, at, dot);
  }

  /** None and the empty or all-blank string are rejected. */
  lemma BlankRejected(s: Option<string>)
    requires s.None? || AllSpace(s.value)
    ensures !IsEmail(s)
  {
    StripEmptyIff(OrEmpty(s));
  }

  /** "a@b.co" is accepted. */
  lemma AcceptsShortAddress()
    ensures IsEmail(Some("a@b.co"))
  {
    var t := "a@b.co";
    StripOfStripped(t);
    assert AllLocal(t[..1]) && AllDomain(t[2..3]) && AllLetters(t[4..]);
    assert PatternSplit(t, 1, 3);
  }

  /** "a@b", which has no top-level domain, is rejected. */
  lemma RejectsMissingTopLevelDomain()
    ensures !IsEmail(Some("a@b"))
  {
  }

  /** The empty string is rejected. */
  lemma RejectsEmpty()
    ensures !IsEmail(Some(""))
  {
  }
}
