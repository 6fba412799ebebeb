/**
 * The string-utils formatters: kebabCase, camelCase, capitalize, titleCase,
 * slugify and truncate. Each chained `.replace(/.../g, ...)` is one recursive pass
 * over the string; case mapping is ASCII.
 */
module StringFormatters {
  import opened Chars

  // ---------------------------------------------------------------- kebabCase

  /** First kebabCase pass, `.replace(/([a-z])([A-Z])/g, '$1-$2')`: the match consumes both letters. */
  function HyphenateCaseBoundaries(s: string): string
    decreases |s|
  {
    if |s| >= 2 && IsLower(s[0]) && IsUpper(s[1]) then [s[0], '-', s[1]] + HyphenateCaseBoundaries(s[2..])
    else if s == [] then []
    else [s[0]] + HyphenateCaseBoundaries(s[1..])
  }

  /** Position-wise reference: after every character, a `-` exactly when a lower-case letter meets an upper-case one. */
  function InsertAtCaseBoundaries(s: string): string
    decreases |s|
  {
    if s == [] then []
    else [s[0]] + (if |s| >= 2 && IsLower(s[0]) && IsUpper(s[1]) then "-" else "") + InsertAtCaseBoundaries(s[1..])
  }

  /** The consuming regex scan puts one hyphen at each lowercase-to-uppercase boundary and nowhere else. */
  lemma {:induction false} HyphenateAtEveryBoundary(s: string)
    ensures HyphenateCaseBoundaries(s) == InsertAtCaseBoundaries(s)
    decreases |s|
  {
    if |s| >= 2 && IsLower(s[0]) && IsUpper(s[1]) {
      var t := s[1..];
      assert t[1..] == s[2..];
      calc {
        InsertAtCaseBoundaries(s);
        [s[0]] + "-" + InsertAtCaseBoundaries(t);
        { assert !IsLower(t[0]); }
        [s[0]] + "-" + ([s[1]] + InsertAtCaseBoundaries(s[2..]));
        { HyphenateAtEveryBoundary(s[2..]); }
        [s[0], '-', s[1]] + HyphenateCaseBoundaries(s[2..]);
        HyphenateCaseBoundaries(s);
      }
    } else if s != [] {
      HyphenateAtEveryBoundary(s[1..]);
    }
  }

  /** No lowercase-to-uppercase boundary: the first pass is the identity. */
  lemma {:induction false} HyphenateWithoutBoundaries(s: string)
    requires forall i :: 0 <= i < |s| - 1 ==> !(IsLower(s[i]) && IsUpper(s[i + 1]))
    ensures HyphenateCaseBoundaries(s) == s
    decreases |s|
  {
    if s != [] {
      HyphenateWithoutBoundaries(s[1..]);
    }
  }

  /** The first pass works piecewise when the cut is not a lowercase-to-uppercase boundary. */
  lemma {:induction false} HyphenateConcat(a: string, t: string)
    requires a != [] && t != [] ==> !(IsLower(a[|a| - 1]) && IsUpper(t[0]))
    ensures HyphenateCaseBoundaries(a + t) == HyphenateCaseBoundaries(a) + HyphenateCaseBoundaries(t)
    decreases |a|
  {
    if a == [] {
      assert a + t == t;
    } else if |a| >= 2 && IsLower(a[0]) && IsUpper(a[1]) {
      assert (a + t)[2..] == a[2..] + t;
      HyphenateConcat(a[2..], t);
    } else {
      assert (a + t)[1..] == a[1..] + t;
      HyphenateConcat(a[1..], t);
      if |a| == 1 {
        assert a[1..] == [];
      }
    }
  }

  /** `[\s_]` */
  predicate IsKebabSeparator(c: char) { IsWhite(c) || c == '_' }

  /** `kebabCase`: hyphenate case boundaries, turn `[\s_]+` runs into `-`, then lowercase. */
  function KebabCase(s: string): string {
    LowerString(ReplaceRuns(HyphenateCaseBoundaries(s), IsKebabSeparator, "-"))
  }

  /**
   * Text without separators and without case boundaries is only lowercased; since
   * kebabCase output has neither, kebabCase is idempotent.
   */
  lemma KebabCaseOfPlainText(s: string)
    requires forall i :: 0 <= i < |s| ==> !IsKebabSeparator(s[i])
    requires forall i :: 0 <= i < |s| - 1 ==> !(IsLower(s[i]) && IsUpper(s[i + 1]))
    ensures KebabCase(s) == LowerString(s)
  {
    HyphenateWithoutBoundaries(s);
    ReplaceRunsAbsent(s, IsKebabSeparator, "-");
  }

  /** Hyphenation keeps every property that its input characters and `-` have. */
  lemma {:induction false} HyphenatePreserves(s: string, q: char -> bool)
    requires q('-')
    requires forall i :: 0 <= i < |s| ==> q(s[i])
    ensures forall j :: 0 <= j < |HyphenateCaseBoundaries(s)| ==> q(HyphenateCaseBoundaries(s)[j])
    decreases |s|
  {
    if |s| >= 2 && IsLower(s[0]) && IsUpper(s[1]) {
      HyphenatePreserves(s[2..], q);
      var r, tail := HyphenateCaseBoundaries(s), HyphenateCaseBoundaries(s[2..]);
      forall j | 3 <= j < |r| ensures q(r[j]) {
        assert r[j] == tail[j - 3];
      }
    } else if s != [] {
      HyphenatePreserves(s[1..], q);
      var r, tail := HyphenateCaseBoundaries(s), HyphenateCaseBoundaries(s[1..]);
      forall j | 1 <= j < |r| ensures q(r[j]) {
        assert r[j] == tail[j - 1];
      }
    }
  }

  /** kebabCase output has no ASCII upper-case letter, no whitespace and no `_`; the empty string maps to itself. */
  lemma KebabCaseShape(s: string)
    ensures KebabCase("") == ""
    ensures forall i :: 0 <= i < |KebabCase(s)| ==>
      !IsUpper(KebabCase(s)[i]) && !IsWhite(KebabCase(s)[i]) && KebabCase(s)[i] != '_'
  {
    var h := HyphenateCaseBoundaries(s);
    var notSep := (c: char) => !IsKebabSeparator(c);
    ReplaceRunsPreserves(h, IsKebabSeparator, "-", notSep);
    var k := KebabCase(s);
    forall i | 0 <= i < |k| ensures !IsUpper(k[i]) && !IsWhite(k[i]) && k[i] != '_' {
      CaseMapFacts(ReplaceRuns(h, IsKebabSeparator, "-")[i]);
    }
  }

  lemma KebabCaseIdempotent(s: string)
    ensures KebabCase(KebabCase(s)) == KebabCase(s)
  {
    var k := KebabCase(s);
    KebabCaseShape(s);
    KebabCaseOfPlainText(k);
    LowerStringOfLower(k);
  }

  /** The first pass keeps the first and the last character. */
  lemma {:induction false} HyphenateEnds(s: string)
    requires s != []
    ensures HyphenateCaseBoundaries(s) != []
    ensures HyphenateCaseBoundaries(s)[0] == s[0]
    ensures HyphenateCaseBoundaries(s)[|HyphenateCaseBoundaries(s)| - 1] == s[|s| - 1]
    decreases |s|
  {
    if |s| >= 2 && IsLower(s[0]) && IsUpper(s[1]) {
      if |s| > 2 {
        HyphenateEnds(s[2..]);
      }
    } else if |s| > 1 {
      HyphenateEnds(s[1..]);
    }
  }

  /** No case boundary touches a separator run, so the first pass leaves it in place. */
  lemma HyphenateAroundRun(a: string, w: string, b: string)
    requires w != [] && forall i :: 0 <= i < |w| ==> IsKebabSeparator(w[i])
    ensures HyphenateCaseBoundaries(a + w + b) == HyphenateCaseBoundaries(a) + w + HyphenateCaseBoundaries(b)
  {
    assert HyphenateCaseBoundaries(a + w) == HyphenateCaseBoundaries(a) + w by {
      HyphenateConcat(a, w);
      HyphenateWithoutBoundaries(w);
    }
    assert (a + w)[|a + w| - 1] == w[|w| - 1];
    HyphenateConcat(a + w, b);
  }

  /** A run between two non-separators becomes one replacement. */
  lemma ReplaceRunBetween(x: string, w: string, y: string, p: char -> bool, rep: string)
    requires x != [] && !p(x[|x| - 1])
    requires w != [] && forall i :: 0 <= i < |w| ==> p(w[i])
    requires y != [] && !p(y[0])
    ensures ReplaceRuns(x + w + y, p, rep) == ReplaceRuns(x, p, rep) + rep + ReplaceRuns(y, p, rep)
  {
    ReplaceRunsConcat(x, w, p, rep);
    assert (x + w)[|x + w| - 1] == w[|w| - 1];
    ReplaceRunsConcat(x + w, y, p, rep);
    ReplaceRunsOfRun(w, p, rep);
  }

  /**
   * A run of whitespace and `_` between two words becomes exactly one `-`, and the
   * words are converted on their own.
   */
  lemma KebabCaseJoin(a: string, w: string, b: string)
    requires a != [] && !IsKebabSeparator(a[|a| - 1])
    requires w != [] && forall i :: 0 <= i < |w| ==> IsKebabSeparator(w[i])
    requires b != [] && !IsKebabSeparator(b[0])
    ensures KebabCase(a + w + b) == KebabCase(a) + "-" + KebabCase(b)
  {
    var ha, hb := HyphenateCaseBoundaries(a), HyphenateCaseBoundaries(b);
    HyphenateEnds(a);
    HyphenateEnds(b);
    HyphenateAroundRun(a, w, b);
    ReplaceRunBetween(ha, w, hb, IsKebabSeparator, "-");
    var ra, rb := ReplaceRuns(ha, IsKebabSeparator, "-"), ReplaceRuns(hb, IsKebabSeparator, "-");
    LowerStringConcat(ra, "-");
    LowerStringConcat(ra + "-", rb);
  }

  /**
   * Two words without separators joined by a separator run: each word is hyphenated at
   * its case boundaries and lowered, and the run becomes one hyphen between them.
   */
  lemma KebabCaseTwoWords(s: string, a: string, w: string, b: string, ha: string, hb: string, r: string)
    requires ha == InsertAtCaseBoundaries(a) && hb == InsertAtCaseBoundaries(b)
    requires forall i :: 0 <= i < |ha| ==> !IsKebabSeparator(ha[i])
    requires forall i :: 0 <= i < |hb| ==> !IsKebabSeparator(hb[i])
    requires a != [] && b != []
    requires w != [] && forall i :: 0 <= i < |w| ==> IsKebabSeparator(w[i])
    requires s == a + w + b && r == LowerString(ha) + "-" + LowerString(hb)
    ensures KebabCase(s) == r
  {
    HyphenateAtEveryBoundary(a);
    HyphenateAtEveryBoundary(b);
    HyphenateEnds(a);
    HyphenateEnds(b);
    ReplaceRunsAbsent(ha, IsKebabSeparator, "-");
    ReplaceRunsAbsent(hb, IsKebabSeparator, "-");
    KebabCaseJoin(a, w, b);
  }

  lemma MixedCaseBoundariesFirst()
    ensures InsertAtCaseBoundaries("MiXeD") == "Mi-Xe-D"
  {
  }

  lemma MixedCaseBoundariesSecond()
    ensures InsertAtCaseBoundaries("CaSe") == "Ca-Se"
  {
  }

  lemma MixedCaseLowered()
    ensures LowerString("Mi-Xe-D") + "-" + LowerString("Ca-Se") == "mi-xe-d-ca-se"
  {
  }

  lemma MixedCaseWordsUnseparated()
    ensures forall i :: 0 <= i < |"Mi-Xe-D"| ==> !IsKebabSeparator("Mi-Xe-D"[i])
    ensures forall i :: 0 <= i < |"Ca-Se"| ==> !IsKebabSeparator("Ca-Se"[i])
  {
  }

  lemma KebabCaseMixedExample()
    ensures KebabCase("MiXeD CaSe") == "mi-xe-d-ca-se"
  {
    MixedCaseBoundariesFirst();
    MixedCaseBoundariesSecond();
    MixedCaseLowered();
    MixedCaseWordsUnseparated();
    KebabCaseTwoWords("MiXeD CaSe", "MiXeD", " ", "CaSe", "Mi-Xe-D", "Ca-Se", "mi-xe-d-ca-se");
  }

  lemma PlainWordsBoundaries()
    ensures InsertAtCaseBoundaries("Hello") == "Hello" && InsertAtCaseBoundaries("World") == "World"
  {
    HyphenateWithoutBoundaries("Hello");
    HyphenateAtEveryBoundary("Hello");
    HyphenateWithoutBoundaries("World");
    HyphenateAtEveryBoundary("World");
  }

  lemma PlainWordsLowered()
    ensures LowerString("Hello") + "-" + LowerString("World") == "hello-world"
  {
  }

  lemma PlainWordsUnseparated()
    ensures forall i :: 0 <= i < |"Hello"| ==> !IsKebabSeparator("Hello"[i])
    ensures forall i :: 0 <= i < |"World"| ==> !IsKebabSeparator("World"[i])
  {
  }

  lemma KebabCaseWordsExample()
    ensures KebabCase("Hello World") == "hello-world"
  {
    PlainWordsBoundaries();
    PlainWordsLowered();
    PlainWordsUnseparated();
    KebabCaseTwoWords("Hello World", "Hello", " ", "World", "Hello", "World", "hello-world");
  }

  // ---------------------------------------------------------------- camelCase

  /** `[-_\s]` */
  predicate IsCamelSeparator(c: char) { c == '-' || c == '_' || IsWhite(c) }

  /**
   * `camelCase`, `.replace(/[-_\s]+(.)?/g, (_, c) => c ? c.toUpperCase() : '')`: each
   * maximal separator run is removed together with the character after it, which is
   * put back upper-cased. That character is never a line terminator (those are in
   * `\s`, so the greedy run has already taken them), hence `(.)` always captures it
   * when the run is not at the end.
   */
  function CamelCase(s: string): string
    decreases |s|
  {
    if s == [] then []
    else if IsCamelSeparator(s[0]) then
      var rest := SkipRun(s, IsCamelSeparator);
      if rest == [] then [] else [ToUpper(rest[0])] + CamelCase(rest[1..])
    else [s[0]] + CamelCase(s[1..])
  }

  /** camelCase output has no separator and is never longer than its input; `""` maps to `""`. */
  lemma {:induction false} CamelCaseShape(s: string)
    ensures CamelCase("") == ""
    ensures |CamelCase(s)| <= |s|
    ensures forall i :: 0 <= i < |CamelCase(s)| ==> !IsCamelSeparator(CamelCase(s)[i])
    decreases |s|
  {
    if s == [] {
    } else if IsCamelSeparator(s[0]) {
      var rest := SkipRun(s, IsCamelSeparator);
      SkipRunFacts(s, IsCamelSeparator);
      if rest != [] {
        CamelCaseShape(rest[1..]);
        var r, tail := CamelCase(s), CamelCase(rest[1..]);
        assert r == [ToUpper(rest[0])] + tail;
        forall j | 1 <= j < |r| ensures !IsCamelSeparator(r[j]) {
          assert r[j] == tail[j - 1];
        }
      }
    } else {
      CamelCaseShape(s[1..]);
      var r, tail := CamelCase(s), CamelCase(s[1..]);
      forall j | 1 <= j < |r| ensures !IsCamelSeparator(r[j]) {
        assert r[j] == tail[j - 1];
      }
    }
  }

  /** A leading stretch without separators is copied unchanged. */
  lemma {:induction false} CamelCaseKeepsPlainPrefix(a: string, t: string)
    requires forall i :: 0 <= i < |a| ==> !IsCamelSeparator(a[i])
    ensures CamelCase(a + t) == a + CamelCase(t)
    decreases |a|
  {
    if a != [] {
      assert (a + t)[1..] == a[1..] + t;
      assert (a + t)[0] == a[0] && !IsCamelSeparator(a[0]);
      calc {
        CamelCase(a + t);
        [a[0]] + CamelCase(a[1..] + t);
        { CamelCaseKeepsPlainPrefix(a[1..], t); }
        [a[0]] + (a[1..] + CamelCase(t));
        { assert a == [a[0]] + a[1..]; }
        a + CamelCase(t);
      }
    } else {
      assert a + t == t;
    }
  }

  /** A separator run followed by `c` becomes `c` upper-cased; a separator run at the end disappears. */
  lemma CamelCaseAfterRun(w: string, c: char, t: string)
    requires w != [] && forall i :: 0 <= i < |w| ==> IsCamelSeparator(w[i])
    requires !IsCamelSeparator(c)
    ensures CamelCase(w + [c] + t) == [ToUpper(c)] + CamelCase(t)
    ensures CamelCase(w) == []
  {
    SkipRunOfRun(w, [c] + t, IsCamelSeparator);
    assert w + [c] + t == w + ([c] + t);
    SkipRunOfRun(w, [], IsCamelSeparator);
    assert w + [] == w;
  }

  /**
   * Words of `[a-zA-Z0-9]` between separator runs come out as one alphanumeric string,
   * which is empty only when there is no word.
   */
  lemma {:induction false} CamelCaseOfWords(s: string)
    requires forall i :: 0 <= i < |s| ==> IsAsciiAlnum(s[i]) || IsCamelSeparator(s[i])
    ensures forall j :: 0 <= j < |CamelCase(s)| ==> IsAsciiAlnum(CamelCase(s)[j])
    ensures (exists i :: 0 <= i < |s| && IsAsciiAlnum(s[i])) ==> CamelCase(s) != []
    decreases |s|
  {
    if s == [] {
    } else if IsCamelSeparator(s[0]) {
      var rest := SkipRun(s, IsCamelSeparator);
      SkipRunFacts(s, IsCamelSeparator);
      assert forall i :: 0 <= i < |rest| ==> rest[i] == s[|s| - |rest| + i];
      if rest != [] {
        assert IsAsciiAlnum(rest[0]) by {
          assert rest[0] == s[|s| - |rest|];
        }
        assert forall i :: 0 <= i < |rest[1..]| ==> rest[1..][i] == s[|s| - |rest| + 1 + i];
        CamelCaseOfWords(rest[1..]);
        var r, tail := CamelCase(s), CamelCase(rest[1..]);
        assert r == [ToUpper(rest[0])] + tail;
        forall j | 1 <= j < |r| ensures IsAsciiAlnum(r[j]) {
          assert r[j] == tail[j - 1];
        }
      } else {
        assert forall i :: 0 <= i < |s| ==> IsCamelSeparator(s[i]);
      }
    } else {
      CamelCaseOfWords(s[1..]);
      var r, tail := CamelCase(s), CamelCase(s[1..]);
      assert r == [s[0]] + tail;
      forall j | 1 <= j < |r| ensures IsAsciiAlnum(r[j]) {
        assert r[j] == tail[j - 1];
      }
    }
  }

  /** camelCase leaves separator-free text alone, so it is idempotent. */
  lemma CamelCaseIdempotent(s: string)
    ensures CamelCase(CamelCase(s)) == CamelCase(s)
  {
    var c := CamelCase(s);
    CamelCaseShape(s);
    CamelCaseKeepsPlainPrefix(c, []);
    assert c + [] == c;
  }

  /** Two separator-free words around one separator: the second word's first character is uppercased. */
  lemma CamelCaseTwoWords(s: string, a: string, sep: char, c: char, t: string, r: string)
    requires forall i :: 0 <= i < |a| ==> !IsCamelSeparator(a[i])
    requires IsCamelSeparator(sep) && !IsCamelSeparator(c)
    requires forall i :: 0 <= i < |t| ==> !IsCamelSeparator(t[i])
    requires s == a + [sep] + [c] + t && r == a + [ToUpper(c)] + t
    ensures CamelCase(s) == r
  {
    assert s == a + ([sep] + [c] + t);
    CamelCaseKeepsPlainPrefix(a, [sep] + [c] + t);
    CamelCaseAfterRun([sep], c, t);
    CamelCaseKeepsPlainPrefix(t, []);
    assert t + [] == t;
  }

  lemma CamelCaseExample()
    ensures CamelCase("hello-world") == "helloWorld"
  {
    CamelCaseTwoWords("hello-world", "hello", '-', 'w', "orld", "helloWorld");
  }

  // ---------------------------------------------------------------- capitalize

  /** `capitalize`: `str.charAt(0).toUpperCase() + str.slice(1)`; `charAt(0)` of `""` is `""`. */
  function Capitalize(s: string): string {
    if s == [] then [] else [ToUpper(s[0])] + s[1..]
  }

  /** Only the first character changes, to its upper case; applying capitalize twice equals applying it once. */
  lemma CapitalizeSpec(s: string)
    ensures Capitalize("") == ""
    ensures |Capitalize(s)| == |s|
    ensures s != [] ==> Capitalize(s)[0] == ToUpper(s[0]) && Capitalize(s)[1..] == s[1..]
    ensures Capitalize(Capitalize(s)) == Capitalize(s)
  {
    if s != [] {
      CaseMapFacts(s[0]);
    }
  }

  // ---------------------------------------------------------------- titleCase

  /** Index of the first `' '` in `s`, or `|s|` if there is none. */
  function IndexOfSpace(s: string): (k: nat)
    ensures k <= |s|
    ensures forall i :: 0 <= i < k ==> s[i] != ' '
    ensures k < |s| ==> s[k] == ' '
    decreases |s|
  {
    if s == [] then 0 else if s[0] == ' ' then 0 else 1 + IndexOfSpace(s[1..])
  }

  /** `str.split(' ')`: the pieces between single spaces, empty pieces included; `""` splits into `[""]`. */
  function SplitOnSpace(s: string): (parts: seq<string>)
    ensures |parts| >= 1
    decreases |s|
  {
    var k := IndexOfSpace(s);
    if k == |s| then [s] else [s[..k]] + SplitOnSpace(s[k + 1..])
  }

  /** `parts.join(' ')` */
  function JoinWithSpace(parts: seq<string>): string
    requires |parts| >= 1
    decreases |parts|
  {
    if |parts| == 1 then parts[0] else parts[0] + " " + JoinWithSpace(parts[1..])
  }

  /** `parts.map(capitalize)` */
  function MapCapitalize(parts: seq<string>): (r: seq<string>)
    ensures |r| == |parts|
    decreases |parts|
  {
    if parts == [] then [] else [Capitalize(parts[0])] + MapCapitalize(parts[1..])
  }

  /** Splitting on spaces and joining with spaces gives the string back, and no piece contains a space. */
  lemma {:induction false} SplitJoinRoundTrip(s: string)
    ensures JoinWithSpace(SplitOnSpace(s)) == s
    ensures forall k, i :: 0 <= k < |SplitOnSpace(s)| && 0 <= i < |SplitOnSpace(s)[k]| ==> SplitOnSpace(s)[k][i] != ' '
    decreases |s|
  {
    var k := IndexOfSpace(s);
    if k < |s| {
      var rest := s[k + 1..];
      var tail := SplitOnSpace(rest);
      assert SplitOnSpace(s) == [s[..k]] + tail;
      SplitJoinRoundTrip(rest);
      assert JoinWithSpace(SplitOnSpace(s)) == s by {
        assert JoinWithSpace([s[..k]] + tail) == s[..k] + " " + JoinWithSpace(tail);
        assert s == s[..k] + " " + rest;
      }
      SplitPiecesSpaceFree(s[..k], tail);
    }
  }

  /** Helper: a space-free head in front of space-free pieces keeps every piece space-free. */
  lemma SplitPiecesSpaceFree(head: string, tail: seq<string>)
    requires forall i :: 0 <= i < |head| ==> head[i] != ' '
    requires forall k, i :: 0 <= k < |tail| && 0 <= i < |tail[k]| ==> tail[k][i] != ' '
    ensures forall k, i :: 0 <= k < |[head] + tail| && 0 <= i < |([head] + tail)[k]| ==> ([head] + tail)[k][i] != ' '
  {
    forall k, i | 0 <= k < |[head] + tail| && 0 <= i < |([head] + tail)[k]|
      ensures ([head] + tail)[k][i] != ' '
    {
      if k > 0 {
        assert ([head] + tail)[k] == tail[k - 1];
      }
    }
  }

  /** `titleCase`: split on single spaces, capitalize every piece, join with single spaces. */
  function TitleCase(s: string): string {
    JoinWithSpace(MapCapitalize(SplitOnSpace(s)))
  }

  /**
   * Position-wise meaning of titleCase: the length is preserved, every character that
   * starts the string or follows a space is upper-cased, and every other character
   * (spaces included, so runs of spaces are not collapsed) is unchanged.
   */
  lemma {:induction false} TitleCaseAt(s: string)
    ensures |TitleCase(s)| == |s|
    ensures forall i {:trigger TitleCase(s)[i]} :: 0 <= i < |s| ==>
      TitleCase(s)[i] == if i == 0 || s[i - 1] == ' ' then ToUpper(s[i]) else s[i]
    decreases |s|
  {
    var k := IndexOfSpace(s);
    var head := s[..k];
    if k == |s| {
      assert TitleCase(s) == Capitalize(s);
    } else {
      var rest := s[k + 1..];
      var ch, t := Capitalize(head), TitleCase(rest);
      assert SplitOnSpace(s) == [head] + SplitOnSpace(rest);
      assert MapCapitalize(SplitOnSpace(s)) == [ch] + MapCapitalize(SplitOnSpace(rest));
      assert TitleCase(s) == ch + " " + t;
      CapitalizeSpec(head);
      TitleCaseAt(rest);
      TitleCaseJoinAt(s, k, head, rest, ch, t);
    }
  }

  /** Helper for TitleCaseAt: the capitalized first piece, a space, then the title-cased rest. */
  lemma TitleCaseJoinAt(s: string, k: nat, head: string, rest: string, ch: string, t: string)
    requires k < |s| && s[k] == ' ' && forall i :: 0 <= i < k ==> s[i] != ' '
    requires head == s[..k] && rest == s[k + 1..]
    requires |ch| == |head| && (head != [] ==> ch[0] == ToUpper(head[0]) && ch[1..] == head[1..])
    requires |t| == |rest|
    requires forall i {:trigger t[i]} :: 0 <= i < |rest| ==> t[i] == if i == 0 || rest[i - 1] == ' ' then ToUpper(rest[i]) else rest[i]
    ensures |ch + " " + t| == |s|
    ensures forall i {:trigger (ch + " " + t)[i]} :: 0 <= i < |s| ==> (ch + " " + t)[i] == if i == 0 || s[i - 1] == ' ' then ToUpper(s[i]) else s[i]
  {
    var r := ch + " " + t;
    forall i | 0 <= i < |s| ensures r[i] == if i == 0 || s[i - 1] == ' ' then ToUpper(s[i]) else s[i] {
      if i < k {
        assert r[i] == ch[i] && head[i] == s[i];
        if i > 0 {
          assert ch[i] == ch[1..][i - 1] == head[1..][i - 1];
          assert s[i - 1] != ' ';
        }
      } else if i == k {
        assert r[i] == ' ' == ToUpper(' ');
      } else {
        var j := i - k - 1;
        assert r[i] == t[j] && rest[j] == s[i];
        if j > 0 {
          assert rest[j - 1] == s[i - 1];
        }
      }
    }
  }

  // ---------------------------------------------------------------- slugify

  /** Characters kept by the second slugify pass, `[a-z0-9\s-]`. */
  predicate IsSlugKept(c: char) { IsLower(c) || IsDigit(c) || IsWhite(c) || c == '-' }
  predicate IsNotSlugKept(c: char) { !IsSlugKept(c) }
  predicate IsDash(c: char) { c == '-' }
  /** `[a-z0-9-]`, the alphabet of a slug. */
  predicate IsSlugChar(c: char) { IsLower(c) || IsDigit(c) || c == '-' }

  /** `.replace(/^-|-$/g, '')`: one leading and one trailing `-` are removed (a lone `"-"` is matched once). */
  function TrimDashes(s: string): string {
    var t := if s != [] && s[0] == '-' then s[1..] else s;
    if t != [] && t[|t| - 1] == '-' then t[..|t| - 1] else t
  }

  /** `slugify`: lowercase, drop `[^a-z0-9\s-]`, `\s+` to `-`, `-+` to `-`, trim one `-` at each end. */
  function Slugify(s: string): string {
    var lowered := LowerString(s);
    var kept := RemoveAll(lowered, IsNotSlugKept);
    var dashed := ReplaceRuns(kept, IsWhite, "-");
    var collapsed := ReplaceRuns(dashed, IsDash, "-");
    TrimDashes(collapsed)
  }

  /** The three output-shape guarantees of a slug. */
  ghost predicate IsSlug(r: string) {
    && (forall i :: 0 <= i < |r| ==> IsSlugChar(r[i]))
    && (r != [] ==> r[0] != '-' && r[|r| - 1] != '-')
    && (forall i :: 0 <= i < |r| - 1 ==> !(r[i] == '-' && r[i + 1] == '-'))
  }

  /** Trimming one dash at each end of a string without `--` leaves no dash at either end. */
  lemma TrimDashesShape(s: string)
    requires forall i :: 0 <= i < |s| ==> IsSlugChar(s[i])
    requires forall i :: 0 <= i < |s| - 1 ==> !(s[i] == '-' && s[i + 1] == '-')
    ensures IsSlug(TrimDashes(s))
  {
    var t := if s != [] && s[0] == '-' then s[1..] else s;
    assert forall i :: 0 <= i < |t| - 1 ==> !(t[i] == '-' && t[i + 1] == '-');
    assert t != [] ==> t[0] != '-';
  }

  /** slugify output uses only `[a-z0-9-]`, never starts or ends with `-` and never contains `--`. */
  lemma SlugifyShape(s: string)
    ensures IsSlug(Slugify(s))
  {
    var lowered := LowerString(s);
    var kept := RemoveAll(lowered, IsNotSlugKept);
    RemoveAllPreserves(lowered, IsNotSlugKept, IsSlugKept);
    var dashed := ReplaceRuns(kept, IsWhite, "-");
    ReplaceRunsPreserves(kept, IsWhite, "-", IsSlugChar);
    var collapsed := ReplaceRuns(dashed, IsDash, "-");
    ReplaceRunsPreserves(dashed, IsDash, "-", IsSlugChar);
    ReplaceRunsSeparated(dashed, IsDash, '-');
    TrimDashesShape(collapsed);
  }

  /** Every pass of slugify leaves a slug unchanged. */
  lemma SlugifyOfSlug(t: string)
    requires IsSlug(t)
    ensures Slugify(t) == t
  {
    forall i | 0 <= i < |t| ensures !IsUpper(t[i]) && !IsNotSlugKept(t[i]) && !IsWhite(t[i]) {
      SlugCharFacts(t[i]);
    }
    assert LowerString(t) == t by {
      LowerStringOfLower(t);
    }
    assert RemoveAll(t, IsNotSlugKept) == t by {
      RemoveAllAbsent(t, IsNotSlugKept);
    }
    assert ReplaceRuns(t, IsWhite, "-") == t by {
      ReplaceRunsAbsent(t, IsWhite, "-");
    }
    DashRunsOfSingles(t);
  }

  lemma SlugCharFacts(c: char)
    requires IsSlugChar(c)
    ensures !IsUpper(c) && !IsNotSlugKept(c) && !IsWhite(c)
  {
  }

  /** Collapsing `-+` in a string without `--` changes nothing. */
  lemma {:induction false} DashRunsOfSingles(t: string)
    requires forall i :: 0 <= i < |t| - 1 ==> !(t[i] == '-' && t[i + 1] == '-')
    ensures ReplaceRuns(t, IsDash, "-") == t
    decreases |t|
  {
    if t != [] {
      DashRunsOfSingles(t[1..]);
      if t[0] == '-' {
        assert SkipRun(t, IsDash) == t[1..] by {
          assert t[1..] == [] || t[1] != '-';
        }
      }
    }
  }

  /** slugify is idempotent. */
  lemma SlugifyIdempotent(s: string)
    ensures Slugify(Slugify(s)) == Slugify(s)
  {
    SlugifyShape(s);
    SlugifyOfSlug(Slugify(s));
  }

  /** Two alphanumeric words with punctuation after each: the punctuation is dropped and the words close up. */
  lemma SlugifyDropsPunctuation(s: string, a: string, n: string, b: string, m: string)
    requires LowerString(s) == a + n + b + m
    requires forall i :: 0 <= i < |a| ==> IsLower(a[i]) || IsDigit(a[i])
    requires forall i :: 0 <= i < |b| ==> IsLower(b[i]) || IsDigit(b[i])
    requires forall i :: 0 <= i < |n| ==> IsNotSlugKept(n[i])
    requires forall i :: 0 <= i < |m| ==> IsNotSlugKept(m[i])
    ensures Slugify(s) == a + b
  {
    var kept := a + b;
    assert RemoveAll(LowerString(s), IsNotSlugKept) == kept by {
      RemoveAllConcat(a + n + b, m, IsNotSlugKept);
      RemoveAllConcat(a + n, b, IsNotSlugKept);
      RemoveAllConcat(a, n, IsNotSlugKept);
      RemoveAllAbsent(a, IsNotSlugKept);
      RemoveAllAbsent(b, IsNotSlugKept);
      RemoveAllOfClass(n, IsNotSlugKept);
      RemoveAllOfClass(m, IsNotSlugKept);
      assert a + n + b + m == (a + n + b) + m;
    }
    assert forall i :: 0 <= i < |kept| ==> IsLower(kept[i]) || IsDigit(kept[i]) by {
      assert forall i :: 0 <= i < |a| ==> kept[i] == a[i];
      assert forall i :: |a| <= i < |kept| ==> kept[i] == b[i - |a|];
    }
    assert forall i :: 0 <= i < |kept| ==> !IsWhite(kept[i]) && !IsDash(kept[i]);
    ReplaceRunsAbsent(kept, IsWhite, "-");
    ReplaceRunsAbsent(kept, IsDash, "-");
  }

  lemma PunctuatedLowered()
    ensures LowerString("Hello@#$%World!") == "hello" + "@#$%" + "world" + "!"
  {
  }

  lemma PunctuationNotKept()
    ensures forall i :: 0 <= i < |"@#$%"| ==> IsNotSlugKept("@#$%"[i])
    ensures forall i :: 0 <= i < |"!"| ==> IsNotSlugKept("!"[i])
  {
  }

  lemma SlugifyExample()
    ensures Slugify("Hello@#$%World!") == "helloworld"
  {
    PunctuatedLowered();
    PunctuationNotKept();
    SlugifyDropsPunctuation("Hello@#$%World!", "hello", "@#$%", "world", "!");
  }

  // ---------------------------------------------------------------- truncate

  /** The default `suffix` of `truncate`. */
  const Ellipsis: string := "..."

  function Max(a: int, b: int): int { if a < b then b else a }

  /**
   * `str.slice(0, end)` for an integer `end`: a negative `end` counts back from the
   * end of the string and is clamped at 0; an `end` past the end is clamped to `|s|`.
   */
  function SliceTo(s: string, end: int): string {
    var e := if end < 0 then Max(|s| + end, 0) else if end < |s| then end else |s|;
    s[..e]
  }

  /**
   * `truncate(str, length, suffix)`. The result is `str` itself when it fits; otherwise it
   * ends with `suffix` and, when the suffix fits in `length`, is exactly `length` long and
   * starts with the first `length - |suffix|` characters of `str`. When the suffix is longer
   * than `length` the slice bound is negative and counts back from the end of `str`, so the
   * result can be longer than `str`.
   */
  function Truncate(s: string, length: int, suffix: string): (r: string)
    ensures |s| <= length ==> r == s
    ensures |s| > length ==> |suffix| <= |r| && r[|r| - |suffix|..] == suffix
    ensures |s| > length && |suffix| <= length ==>
      |r| == length && r == s[..length - |suffix|] + suffix
    ensures |s| > length && |suffix| > length ==>
      r == s[..Max(|s| + length - |suffix|, 0)] + suffix
  {
    if |s| <= length then s else SliceTo(s, length - |suffix|) + suffix
  }

  /** Truncating with a suffix longer than `length` can make the string longer. */
  lemma TruncateCanLengthen()
    ensures Truncate("Hello World", 2, Ellipsis) == "Hello Worl..."
  {
    assert "Hello World"[..10] == "Hello Worl";
  }

  lemma TruncateExamples()
    ensures Truncate("Hello World", 5, Ellipsis) == "He..."
    ensures Truncate("This is a long string", 10, Ellipsis) == "This is..."
    ensures Truncate("Hello", 10, Ellipsis) == "Hello"
    ensures Truncate("Hello World", 5, "!") == "Hell!"
    ensures Truncate("Hello World", 5, "---") == "He---"
    ensures Truncate("", 5, Ellipsis) == ""
    ensures Truncate("Hello", 5, Ellipsis) == "Hello"
  {
    assert "Hello World"[..2] == "He";
    assert "Hello World"[..4] == "Hell";
    assert "This is a long string"[..7] == "This is";
  }
}
