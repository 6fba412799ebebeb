/** Option, the one wrapper the model needs: a timestamp that may be NaN. */
module Wrappers {
  datatype Option<+T> = None | Some(value: T)
}

/**
 * Character classes and whole-string passes shared by the string and date utilities:
 * ASCII case mapping, the ECMAScript whitespace set, and the two kinds of global
 * regular-expression replacement the formatters chain together.
 */
module Chars {

  /**
   * The ECMAScript WhiteSpace code points (ECMA-262 section 12.2: TAB, VT, FF, SP,
   * NBSP, ZWNBSP and every Unicode "Zs" space) together with the LineTerminator code
   * points (ECMA-262 section 12.3: LF, CR, LS, PS). This is the set matched by `\s`
   * and removed by `String.prototype.trim`.
   */
  predicate IsWhite(c: char) {
    || c == '\t' || c == '\U{000B}' || c == '\U{000C}' || c == ' '
    || c == '\U{00A0}' || c == '\U{FEFF}' || c == '\U{1680}'
    || ('\U{2000}' <= c <= '\U{200A}')
    || c == '\U{202F}' || c == '\U{205F}' || c == '\U{3000}'
    || c == '\n' || c == '\r' || c == '\U{2028}' || c == '\U{2029}'
  }

  predicate IsLower(c: char) { 'a' <= c <= 'z' }
  predicate IsUpper(c: char) { 'A' <= c <= 'Z' }
  predicate IsDigit(c: char) { '0' <= c <= '9' }

  /** `[a-zA-Z0-9]` */
  predicate IsAsciiAlnum(c: char) { IsLower(c) || IsUpper(c) || IsDigit(c) }

  /** Every character of `w` has property `p`, checked left to right. */
  predicate All(w: string, p: char -> bool)
    decreases |w|
  {
    w == [] || (p(w[0]) && All(w[1..], p))
  }

  /** The scan agrees with the quantified statement. */
  lemma {:induction false} AllIff(w: string, p: char -> bool)
    ensures All(w, p) <==> forall k :: 0 <= k < |w| ==> p(w[k])
    decreases |w|
  {
    if w != [] {
      AllIff(w[1..], p);
      assert forall k :: 1 <= k < |w| ==> w[k] == w[1..][k - 1];
    }
  }

  /** ASCII `toUpperCase` of one character: only `a`-`z` change. */
  function ToUpper(c: char): char {
    if IsLower(c) then (c as int - 32) as char else c
  }

  /** ASCII `toLowerCase` of one character: only `A`-`Z` change. */
  function ToLower(c: char): char {
    if IsUpper(c) then (c as int + 32) as char else c
  }

  /**
   * The two case maps are inverse bijections between `a`-`z` and `A`-`Z` and fix every
   * other character; uppercasing twice is uppercasing once, and lowercasing never yields
   * an upper-case letter.
   */
  lemma CaseMapFacts(c: char)
    ensures IsLower(c) ==> IsUpper(ToUpper(c)) && ToLower(ToUpper(c)) == c
    ensures IsUpper(c) ==> IsLower(ToLower(c)) && ToUpper(ToLower(c)) == c
    ensures !IsLower(c) && !IsUpper(c) ==> ToUpper(c) == c && ToLower(c) == c
    ensures ToUpper(ToUpper(c)) == ToUpper(c)
    ensures !IsUpper(ToLower(c))
    ensures IsWhite(ToLower(c)) == IsWhite(c) && IsWhite(ToUpper(c)) == IsWhite(c)
  {
  }

  /** `String.prototype.toLowerCase`, restricted to ASCII case mapping. */
  function LowerString(s: string): string {
    seq(|s|, i requires 0 <= i < |s| => ToLower(s[i]))
  }

  /** Lowercasing works piecewise. */
  lemma LowerStringConcat(a: string, b: string)
    ensures LowerString(a + b) == LowerString(a) + LowerString(b)
  {
  }

  /** A string without ASCII upper-case letters is its own lower-case form. */
  lemma LowerStringOfLower(s: string)
    requires forall i :: 0 <= i < |s| ==> !IsUpper(s[i])
    ensures LowerString(s) == s
  {
  }

  /** The longest prefix of `s` made of `p`-characters is dropped. */
  function SkipRun(s: string, p: char -> bool): (rest: string)
    ensures |rest| <= |s|
    ensures s != [] && p(s[0]) ==> |rest| < |s|
    decreases |s|
  {
    if s != [] && p(s[0]) then SkipRun(s[1..], p) else s
  }

  /** What SkipRun drops is a run of `p`-characters, and what it keeps is a suffix that does not start with one. */
  lemma {:induction false} SkipRunFacts(s: string, p: char -> bool)
    ensures SkipRun(s, p) == s[|s| - |SkipRun(s, p)|..]
    ensures forall i :: 0 <= i < |s| - |SkipRun(s, p)| ==> p(s[i])
    ensures SkipRun(s, p) != [] ==> !p(SkipRun(s, p)[0])
    decreases |s|
  {
    if s != [] && p(s[0]) {
      SkipRunFacts(s[1..], p);
    }
  }

  /** A run of `p`-characters followed by something that does not start with one is skipped exactly. */
  lemma {:induction false} SkipRunOfRun(w: string, t: string, p: char -> bool)
    requires forall i :: 0 <= i < |w| ==> p(w[i])
    requires t != [] ==> !p(t[0])
    ensures SkipRun(w + t, p) == t
    decreases |w|
  {
    if w != [] {
      assert (w + t)[1..] == w[1..] + t;
      SkipRunOfRun(w[1..], t, p);
    } else {
      assert w + t == t;
    }
  }

  /**
   * `s.replace(/[P]+/g, rep)` for a character class P given as `p`: each maximal
   * run of P-characters becomes one copy of `rep`; every other character is kept.
   */
  function ReplaceRuns(s: string, p: char -> bool, rep: string): string
    decreases |s|
  {
    if s == [] then []
    else if p(s[0]) then rep + ReplaceRuns(SkipRun(s, p), p, rep)
    else [s[0]] + ReplaceRuns(s[1..], p, rep)
  }

  /**
   * A character property `q` that holds of `rep` and of every character of `s`
   * outside the class holds of every character of the result.
   */
  lemma {:induction false} ReplaceRunsPreserves(s: string, p: char -> bool, rep: string, q: char -> bool)
    requires forall i :: 0 <= i < |rep| ==> q(rep[i])
    requires forall i :: 0 <= i < |s| ==> p(s[i]) || q(s[i])
    ensures forall j :: 0 <= j < |ReplaceRuns(s, p, rep)| ==> q(ReplaceRuns(s, p, rep)[j])
    decreases |s|
  {
    if s == [] {
    } else if p(s[0]) {
      var rest := SkipRun(s, p);
      SkipRunFacts(s, p);
      assert forall i :: 0 <= i < |rest| ==> rest[i] == s[|s| - |rest| + i];
      ReplaceRunsPreserves(rest, p, rep, q);
      var r, tail := ReplaceRuns(s, p, rep), ReplaceRuns(rest, p, rep);
      assert r == rep + tail;
      forall j | |rep| <= j < |r| ensures q(r[j]) {
        assert r[j] == tail[j - |rep|];
      }
    } else {
      ReplaceRunsPreserves(s[1..], p, rep, q);
      var r, tail := ReplaceRuns(s, p, rep), ReplaceRuns(s[1..], p, rep);
      assert r == [s[0]] + tail;
      forall j | 1 <= j < |r| ensures q(r[j]) {
        assert r[j] == tail[j - 1];
      }
    }
  }

  /** Replacing runs of a class that does not occur changes nothing. */
  lemma {:induction false} ReplaceRunsAbsent(s: string, p: char -> bool, rep: string)
    requires forall i :: 0 <= i < |s| ==> !p(s[i])
    ensures ReplaceRuns(s, p, rep) == s
    decreases |s|
  {
    if s != [] {
      ReplaceRunsAbsent(s[1..], p, rep);
    }
  }

  /** A maximal leading run of `p`-characters becomes one copy of `rep`. */
  lemma ReplaceRunsRunPrefix(w: string, t: string, p: char -> bool, rep: string)
    requires w != [] && forall i :: 0 <= i < |w| ==> p(w[i])
    requires t != [] ==> !p(t[0])
    ensures ReplaceRuns(w + t, p, rep) == rep + ReplaceRuns(t, p, rep)
  {
    SkipRunOfRun(w, t, p);
    assert (w + t)[0] == w[0];
  }

  /** Skipping a leading run is unaffected by what follows, unless a run straddles the cut. */
  lemma {:induction false} SkipRunConcat(a: string, b: string, p: char -> bool)
    requires a != []
    requires b != [] ==> !(p(a[|a| - 1]) && p(b[0]))
    ensures SkipRun(a + b, p) == SkipRun(a, p) + b
    decreases |a|
  {
    if p(a[0]) {
      assert (a + b)[1..] == a[1..] + b;
      if a[1..] == [] {
        assert a[1..] + b == b;
      } else {
        SkipRunConcat(a[1..], b, p);
      }
    }
  }

  /** Run replacement works piecewise when no run straddles the cut. */
  lemma {:induction false} ReplaceRunsConcat(a: string, b: string, p: char -> bool, rep: string)
    requires a != [] && b != [] ==> !(p(a[|a| - 1]) && p(b[0]))
    ensures ReplaceRuns(a + b, p, rep) == ReplaceRuns(a, p, rep) + ReplaceRuns(b, p, rep)
    decreases |a|
  {
    if a == [] {
      assert a + b == b;
    } else if p(a[0]) {
      var ra := SkipRun(a, p);
      SkipRunFacts(a, p);
      SkipRunConcat(a, b, p);
      assert ra != [] ==> ra[|ra| - 1] == a[|a| - 1];
      ReplaceRunsConcat(ra, b, p, rep);
      assert (a + b)[0] == a[0];
    } else {
      assert (a + b)[1..] == a[1..] + b;
      ReplaceRunsConcat(a[1..], b, p, rep);
      assert (a + b)[0] == a[0];
    }
  }

  /** A string that is one run of `p`-characters becomes one copy of `rep`. */
  lemma ReplaceRunsOfRun(w: string, p: char -> bool, rep: string)
    requires w != [] && forall i :: 0 <= i < |w| ==> p(w[i])
    ensures ReplaceRuns(w, p, rep) == rep
  {
    ReplaceRunsRunPrefix(w, [], p, rep);
    assert w + [] == w;
  }

  /** A replacement that is one `p`-character `x` is never followed by another `p`-character. */
  lemma {:induction false} ReplaceRunsSeparated(s: string, p: char -> bool, x: char)
    requires p(x)
    ensures forall j :: 0 <= j < |ReplaceRuns(s, p, [x])| - 1 ==>
      !(p(ReplaceRuns(s, p, [x])[j]) && p(ReplaceRuns(s, p, [x])[j + 1]))
    ensures s != [] && !p(s[0]) ==> ReplaceRuns(s, p, [x]) != [] && ReplaceRuns(s, p, [x])[0] == s[0]
    decreases |s|
  {
    if s == [] {
    } else if p(s[0]) {
      var rest := SkipRun(s, p);
      SkipRunFacts(s, p);
      ReplaceRunsSeparated(rest, p, x);
    } else {
      ReplaceRunsSeparated(s[1..], p, x);
    }
  }

  /** `s.replace(/[P]/g, '')`: every `p`-character is deleted. */
  function RemoveAll(s: string, p: char -> bool): string
    decreases |s|
  {
    if s == [] then []
    else if p(s[0]) then RemoveAll(s[1..], p)
    else [s[0]] + RemoveAll(s[1..], p)
  }

  /** A property `q` of every character of `s` outside the class holds of every character of the result. */
  lemma {:induction false} RemoveAllPreserves(s: string, p: char -> bool, q: char -> bool)
    requires forall i :: 0 <= i < |s| ==> p(s[i]) || q(s[i])
    ensures forall j :: 0 <= j < |RemoveAll(s, p)| ==> q(RemoveAll(s, p)[j])
    decreases |s|
  {
    if s != [] {
      RemoveAllPreserves(s[1..], p, q);
      var r, tail := RemoveAll(s, p), RemoveAll(s[1..], p);
      if !p(s[0]) {
        assert r == [s[0]] + tail;
        forall j | 1 <= j < |r| ensures q(r[j]) {
          assert r[j] == tail[j - 1];
        }
      }
    }
  }

  /** Deleting a class that does not occur changes nothing. */
  lemma {:induction false} RemoveAllAbsent(s: string, p: char -> bool)
    requires forall i :: 0 <= i < |s| ==> !p(s[i])
    ensures RemoveAll(s, p) == s
    decreases |s|
  {
    if s != [] {
      RemoveAllAbsent(s[1..], p);
    }
  }

  /** Deletion works piecewise: it distributes over concatenation. */
  lemma {:induction false} RemoveAllConcat(a: string, b: string, p: char -> bool)
    ensures RemoveAll(a + b, p) == RemoveAll(a, p) + RemoveAll(b, p)
    decreases |a|
  {
    if a != [] {
      assert (a + b)[1..] == a[1..] + b;
      RemoveAllConcat(a[1..], b, p);
    } else {
      assert a + b == b;
    }
  }

  /** A string made only of the deleted class disappears. */
  lemma {:induction false} RemoveAllOfClass(w: string, p: char -> bool)
    requires forall i :: 0 <= i < |w| ==> p(w[i])
    ensures RemoveAll(w, p) == []
    decreases |w|
  {
    if w != [] {
      RemoveAllOfClass(w[1..], p);
    }
  }
}
