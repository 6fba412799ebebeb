/**
 * The string-utils validators: isEmail, isAlphanumeric, isEmpty and hasMinLength,
 * with isUrl and matchesPattern delegated to a caller-supplied recogniser.
 */
module StringValidators {
  import opened Chars
  import opened StringFormatters

  // ---------------------------------------------------------------- isEmail

  /** `[^\s@]` */
  predicate IsEmailAtomChar(c: char) { !IsWhite(c) && c != '@' }

  /** `[^\s@]+` */
  predicate IsAtom(w: string) { w != [] && All(w, IsEmailAtomChar) }

  /**
   * `/^[^\s@]+@[^\s@]+\.[^\s@]+$/.test(s)`: the regular expression backtracks over every
   * choice of the `@` at index `i` and the `.` at index `j`, and accepts when the three
   * stretches around them are non-empty atoms.
   */
  predicate IsEmail(s: string) {
    exists i, j | 0 < i < |s| && i + 1 < j < |s| - 1 ::
      s[i] == '@' && s[j] == '.' && IsAtom(s[..i]) && IsAtom(s[i + 1..j]) && IsAtom(s[j + 1..])
  }

  function EmailOf(a: string, b: string, c: string): string { a + "@" + b + "." + c }

  /** Gluing three atoms with `@` and `.` always gives an accepted address. */
  lemma EmailOfIsEmail(a: string, b: string, c: string)
    requires IsAtom(a) && IsAtom(b) && IsAtom(c)
    ensures IsEmail(EmailOf(a, b, c))
  {
    var s := EmailOf(a, b, c);
    var i, j := |a|, |a| + 1 + |b|;
    assert s[..i] == a;
    assert s[i + 1..j] == b;
    assert s[j + 1..] == c;
    assert s[i] == '@' && s[j] == '.';
  }

  /** Cutting at an `@` at `i` and a `.` at `j` and gluing back gives the same string. */
  lemma EmailOfCuts(s: string, i: int, j: int)
    requires 0 < i < |s| && i + 1 < j < |s| - 1 && s[i] == '@' && s[j] == '.'
    ensures s == EmailOf(s[..i], s[i + 1..j], s[j + 1..])
  {
    assert s == s[..i] + [s[i]] + s[i + 1..j] + [s[j]] + s[j + 1..];
  }

  /** An accepted address is three atoms glued with `@` and `.`. */
  lemma EmailAtoms(s: string)
    requires IsEmail(s)
    ensures exists a, b, c :: IsAtom(a) && IsAtom(b) && IsAtom(c) && s == EmailOf(a, b, c)
  {
    var i, j :| 0 < i < |s| && i + 1 < j < |s| - 1 && s[i] == '@' && s[j] == '.'
      && IsAtom(s[..i]) && IsAtom(s[i + 1..j]) && IsAtom(s[j + 1..]);
    EmailOfCuts(s, i, j);
  }

  /** isEmail holds exactly of the strings `a + "@" + b + "." + c` with non-empty atoms `a`, `b`, `c`. */
  lemma IsEmailSplit(s: string)
    ensures IsEmail(s) <==> exists a, b, c :: IsAtom(a) && IsAtom(b) && IsAtom(c) && s == EmailOf(a, b, c)
  {
    if IsEmail(s) {
      EmailAtoms(s);
    }
    forall a, b, c | IsAtom(a) && IsAtom(b) && IsAtom(c) && s == EmailOf(a, b, c) ensures IsEmail(s) {
      EmailOfIsEmail(a, b, c);
    }
  }

  /** Around a matching `@` at `i` and `.` at `j`, every other character is an atom character. */
  lemma EmailAtomsAround(s: string, i: int, j: int)
    requires 0 < i < |s| && i + 1 < j < |s| - 1 && s[i] == '@' && s[j] == '.'
    requires IsAtom(s[..i]) && IsAtom(s[i + 1..j]) && IsAtom(s[j + 1..])
    ensures forall k :: 0 <= k < |s| && k != i ==> IsEmailAtomChar(s[k])
  {
    var a, b, c := s[..i], s[i + 1..j], s[j + 1..];
    AllIff(a, IsEmailAtomChar);
    AllIff(b, IsEmailAtomChar);
    AllIff(c, IsEmailAtomChar);
    forall k | 0 <= k < |s| && k != i ensures IsEmailAtomChar(s[k]) {
      if k < i {
        assert s[k] == a[k];
      } else if k < j {
        assert s[k] == b[k - i - 1];
      } else if k > j {
        assert s[k] == c[k - j - 1];
      }
    }
  }

  /** A character found only at index `i` occurs once. */
  lemma OccursOnce(s: string, i: int, c: char)
    requires 0 <= i < |s| && s[i] == c
    requires forall k :: 0 <= k < |s| && k != i ==> s[k] != c
    ensures multiset(s)[c] == 1
  {
    var head, tail := s[..i], s[i + 1..];
    assert s == head + [s[i]] + tail;
    assert c !in head by {
      assert forall k :: 0 <= k < |head| ==> head[k] == s[k];
    }
    assert c !in tail by {
      assert forall k :: 0 <= k < |tail| ==> tail[k] == s[k + i + 1];
    }
    assert multiset(s) == multiset(head) + multiset([s[i]]) + multiset(tail);
  }

  /** An accepted address has exactly one `@`, no whitespace, at least five characters, and starts and ends with an atom character. */
  lemma IsEmailShape(s: string)
    requires IsEmail(s)
    ensures multiset(s)['@'] == 1
    ensures forall k :: 0 <= k < |s| ==> !IsWhite(s[k])
    ensures |s| >= 5 && IsEmailAtomChar(s[0]) && IsEmailAtomChar(s[|s| - 1])
  {
    var i, j :| 0 < i < |s| && i + 1 < j < |s| - 1 && s[i] == '@' && s[j] == '.'
      && IsAtom(s[..i]) && IsAtom(s[i + 1..j]) && IsAtom(s[j + 1..]);
    EmailAtomsAround(s, i, j);
    OccursOnce(s, i, '@');
  }

  // ---------------------------------------------------------------- isAlphanumeric

  /** `/^[a-zA-Z0-9]+$/.test(s)` */
  predicate IsAlphanumeric(s: string) { s != [] && All(s, IsAsciiAlnum) }

  lemma IsAlphanumericIff(s: string)
    ensures IsAlphanumeric(s) <==> |s| > 0 && forall k :: 0 <= k < |s| ==> IsAsciiAlnum(s[k])
  {
    AllIff(s, IsAsciiAlnum);
  }

  // ---------------------------------------------------------------- isEmpty

  /** Drops trailing whitespace: the result is the longest prefix that does not end in whitespace. */
  function TrimEnd(s: string): (r: string)
    ensures |r| <= |s| && r == s[..|r|]
    ensures forall k :: |r| <= k < |s| ==> IsWhite(s[k])
    ensures r != [] ==> !IsWhite(r[|r| - 1])
    decreases |s|
  {
    if s != [] && IsWhite(s[|s| - 1]) then TrimEnd(s[..|s| - 1]) else s
  }

  /** `String.prototype.trim`: leading and trailing whitespace and line terminators removed. */
  function Trim(s: string): string {
    TrimEnd(SkipRun(s, IsWhite))
  }

  /**
   * trim keeps a contiguous middle piece of the string: everything cut from either
   * end is whitespace or a line terminator, and the piece kept neither starts nor
   * ends with one.
   */
  lemma TrimFacts(s: string)
    ensures exists i, j ::
              && 0 <= i <= j <= |s| && Trim(s) == s[i..j]
              && (forall k :: 0 <= k < i ==> IsWhite(s[k]))
              && (forall k :: j <= k < |s| ==> IsWhite(s[k]))
    ensures Trim(s) != [] ==> !IsWhite(Trim(s)[0]) && !IsWhite(Trim(s)[|Trim(s)| - 1])
  {
    var rest := SkipRun(s, IsWhite);
    SkipRunFacts(s, IsWhite);
    var i := |s| - |rest|;
    var r := TrimEnd(rest);
    var j := i + |r|;
    assert r == s[i..j];
    assert forall k :: j <= k < |s| ==> IsWhite(s[k]) by {
      assert forall k :: j <= k < |s| ==> s[k] == rest[k - i];
    }
    if r != [] {
      assert r[0] == rest[0];
    }
  }

  /** `str.trim().length === 0` */
  predicate IsEmpty(s: string) { |Trim(s)| == 0 }

  /** A string that starts with a non-whitespace character keeps it through TrimEnd. */
  lemma {:induction false} TrimEndKeepsFirst(s: string)
    requires s != [] && !IsWhite(s[0])
    ensures TrimEnd(s) != []
    decreases |s|
  {
    if IsWhite(s[|s| - 1]) {
      TrimEndKeepsFirst(s[..|s| - 1]);
    }
  }

  /** TrimEnd of whitespace is empty. */
  lemma {:induction false} TrimEndOfWhite(s: string)
    requires forall k :: 0 <= k < |s| ==> IsWhite(s[k])
    ensures TrimEnd(s) == []
    decreases |s|
  {
    if s != [] {
      TrimEndOfWhite(s[..|s| - 1]);
    }
  }

  /** isEmpty holds exactly when every character is whitespace or a line terminator. */
  lemma IsEmptyIffAllWhite(s: string)
    ensures IsEmpty(s) <==> forall k :: 0 <= k < |s| ==> IsWhite(s[k])
  {
    var rest := SkipRun(s, IsWhite);
    SkipRunFacts(s, IsWhite);
    if rest == [] {
      assert forall k :: 0 <= k < |s| ==> IsWhite(s[k]);
    } else {
      TrimEndKeepsFirst(rest);
      assert !IsWhite(s[|s| - |rest|]);
    }
  }

  // ---------------------------------------------------------------- hasMinLength

  /** `str.length >= minLength` */
  predicate HasMinLength(s: string, minLength: int) { |s| >= minLength }

  /** Always true for a bound `<= 0`, and monotone in the bound. */
  lemma HasMinLengthFacts(s: string, n: int, m: int)
    ensures n <= 0 ==> HasMinLength(s, n)
    ensures HasMinLength(s, n) && m <= n ==> HasMinLength(s, m)
    ensures HasMinLength(s, n) <==> |s| >= n
  {
  }

  // ---------------------------------------------------------------- cross-validator facts

  /** An alphanumeric string is neither blank nor an email address. */
  lemma AlphanumericIsNotEmptyNorEmail(s: string)
    requires IsAlphanumeric(s)
    ensures !IsEmpty(s)
    ensures !IsEmail(s)
  {
    IsAlphanumericIff(s);
    IsEmptyIffAllWhite(s);
    if IsEmail(s) {
      IsEmailShape(s);
      assert false;
    }
  }

  // ---------------------------------------------------------------- host-delegated validators

  /** `isUrl`: true exactly when the host URL constructor accepts `s` without throwing. */
  predicate IsUrl(s: string, hostUrlParses: string -> bool) { hostUrlParses(s) }

  /** `matchesPattern`: the caller's regular expression, given as its `test` function. */
  predicate MatchesPattern(s: string, patternTest: string -> bool) { patternTest(s) }

  // ------------------------------------------- camelCase then isAlphanumeric

  /** Text made of letters, digits and camelCase separators, with at least one
      letter or digit, camel-cases to an alphanumeric string. */
  lemma CamelCaseIsAlphanumeric(s: string)
    requires forall i :: 0 <= i < |s| ==> IsAsciiAlnum(s[i]) || IsCamelSeparator(s[i])
    requires exists i :: 0 <= i < |s| && IsAsciiAlnum(s[i])
    ensures IsAlphanumeric(CamelCase(s))
  {
    CamelCaseOfWords(s);
    IsAlphanumericIff(CamelCase(s));
  }

  lemma CamelCaseHelloWorldIsAlphanumeric()
    ensures IsAlphanumeric(CamelCase("hello world"))
  {
    var s := "hello world";
    assert IsAsciiAlnum(s[0]);
    CamelCaseIsAlphanumeric(s);
  }

  // ---------------------------------------------------------------- examples

  /** Visible ASCII other than `@` is an atom character. */
  lemma VisibleAsciiIsAtomChar(c: char)
    requires '!' <= c <= '~' && c != '@'
    ensures IsEmailAtomChar(c)
  {
  }

  /** An `@` at `i` and a `.` at `j`, with visible ASCII everywhere else, make an address. */
  lemma EmailAt(s: string, i: int, j: int)
    requires 0 < i && i + 1 < j < |s| - 1 && s[i] == '@' && s[j] == '.'
    requires forall k :: 0 <= k < |s| && k != i ==> '!' <= s[k] <= '~' && s[k] != '@'
    ensures IsEmail(s)
  {
    var a, b, c := s[..i], s[i + 1..j], s[j + 1..];
    forall k | 0 <= k < |s| && k != i ensures IsEmailAtomChar(s[k]) {
      VisibleAsciiIsAtomChar(s[k]);
    }
    AllIff(a, IsEmailAtomChar);
    AllIff(b, IsEmailAtomChar);
    AllIff(c, IsEmailAtomChar);
    assert forall k :: 0 <= k < |a| ==> a[k] == s[k];
    assert forall k :: 0 <= k < |b| ==> b[k] == s[i + 1 + k];
    assert forall k :: 0 <= k < |c| ==> c[k] == s[j + 1 + k];
  }

  lemma EmailExampleSimple()
    ensures IsEmail("test@example.com")
  {
    EmailAt("test@example.com", 4, 12);
  }

  lemma EmailExampleDotted()
    ensures IsEmail("user.name@domain.co.uk")
  {
    EmailAt("user.name@domain.co.uk", 9, 19);
  }

  lemma EmailExampleTagged()
    ensures IsEmail("user+tag@example.org")
  {
    EmailAt("user+tag@example.org", 8, 16);
  }

  /** A string without an `@` after its first character is never an address. */
  lemma NoLaterAtIsNotEmail(s: string)
    requires forall k :: 0 < k < |s| ==> s[k] != '@'
    ensures !IsEmail(s)
  {
  }

  lemma NotEmailExamples()
    ensures !IsEmail("invalid-email")
    ensures !IsEmail("test@")
    ensures !IsEmail("@example.com")
    ensures !IsEmail("test.example.com")
    ensures !IsEmail("")
  {
    NoLaterAtIsNotEmail("invalid-email");
    NoLaterAtIsNotEmail("@example.com");
    NoLaterAtIsNotEmail("test.example.com");
  }

  lemma EmptyExamples()
    ensures IsEmpty("") && IsEmpty("   ") && IsEmpty("\t\n  ")
    ensures !IsEmpty("hello") && !IsEmpty("a") && !IsEmpty(" a ")
  {
    IsEmptyIffAllWhite("");
    IsEmptyIffAllWhite("   ");
    IsEmptyIffAllWhite("\t\n  ");
    IsEmptyIffAllWhite("hello");
    assert !IsWhite("hello"[0]);
    IsEmptyIffAllWhite("a");
    assert !IsWhite("a"[0]);
    IsEmptyIffAllWhite(" a ");
    assert !IsWhite(" a "[1]);
  }

  /** One character outside `[a-zA-Z0-9]` rejects the whole string. */
  lemma NotAlphanumericAt(s: string, k: int)
    requires 0 <= k < |s| && !IsAsciiAlnum(s[k])
    ensures !IsAlphanumeric(s)
  {
    IsAlphanumericIff(s);
  }

  lemma AlphanumericOf(s: string)
    requires s != [] && forall k :: 0 <= k < |s| ==> IsAsciiAlnum(s[k])
    ensures IsAlphanumeric(s)
  {
    IsAlphanumericIff(s);
  }

  lemma AlphanumericExamplesMixed()
    ensures IsAlphanumeric("abc123") && IsAlphanumeric("ABC123")
  {
    AlphanumericOf("abc123");
    AlphanumericOf("ABC123");
  }

  lemma AlphanumericExamplesPlain()
    ensures IsAlphanumeric("test") && IsAlphanumeric("123")
  {
    AlphanumericOf("test");
    AlphanumericOf("123");
  }

  lemma NotAlphanumericExamples()
    ensures !IsAlphanumeric("abc-123") && !IsAlphanumeric("abc 123") && !IsAlphanumeric("abc@123") && !IsAlphanumeric("")
  {
    NotAlphanumericAt("abc-123", 3);
    NotAlphanumericAt("abc 123", 3);
    NotAlphanumericAt("abc@123", 3);
  }
}
