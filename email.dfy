/**
 * `extract_email`: the first match of the pattern
 *   [a-zA-Z0-9_.+-]+ @ [a-zA-Z0-9-]+ \. [a-zA-Z0-9-.]+
 * in the résumé text, found by a leftmost search.
 *
 * The pattern is given two readings. `Decomposes` / `RegexMatches` / `IsSearchResult`
 * say what the regular expression and the search mean: some split of a window into
 * the three runs, the leftmost start, and at that start the end the greedy runs pick.
 * `MatchAt` / `LeftmostMatch` / `ExtractEmail` compute the match with maximal runs and
 * no backtracking. None of the three classes holds `@`, and the domain class does not
 * hold `.`, so the run before `@` and the run before `.` are forced; the lemmas below
 * prove that the two readings agree.
 */
module EmailPattern {
  import opened Wrappers

  datatype CharClass = LocalPart | DomainPart | SuffixPart

  predicate IsAsciiAlnum(c: char)
  {
    ('a' <= c <= 'z') || ('A' <= c <= 'Z') || ('0' <= c <= '9')
  }

  /**
   * The three character classes of the pattern. In `[a-zA-Z0-9-.]` the `-` that follows
   * the range `0-9` is a literal, so the suffix class is letters, digits, `-` and `.`.
   */
  predicate InClass(k: CharClass, c: char)
  {
    match k
    case LocalPart => IsAsciiAlnum(c) || c == '_' || c == '.' || c == '+' || c == '-'
    case DomainPart => IsAsciiAlnum(c) || c == '-'
    case SuffixPart => IsAsciiAlnum(c) || c == '-' || c == '.'
  }

  /** The character at position `t` of `s` is in class `k`. */
  predicate InClassAt(k: CharClass, s: string, t: int)
    requires 0 <= t < |s|
  {
    InClass(k, s[t])
  }

  /** The end of the maximal run of class-`k` characters that starts at `i`. */
  function RunEnd(s: string, i: nat, k: CharClass): (j: nat)
    requires i <= |s|
    ensures i <= j <= |s|
    ensures forall t :: i <= t < j ==> InClassAt(k, s, t)
    ensures j == |s| || !InClassAt(k, s, j)
    decreases |s| - i
  {
    if i < |s| && InClass(k, s[i]) then RunEnd(s, i + 1, k) else i
  }

  // ----- the regular expression, read declaratively -----

  /** `s[i..e]` matches the pattern with `@` at `at` and the dot at `dot`. */
  ghost predicate Decomposes(s: string, i: nat, at: nat, dot: nat, e: nat)
  {
    i < at && at + 1 < dot && dot + 1 < e <= |s|
    && (forall t :: i <= t < at ==> InClassAt(LocalPart, s, t))
    && s[at] == '@'
    && (forall t :: at < t < dot ==> InClassAt(DomainPart, s, t))
    && s[dot] == '.'
    && (forall t :: dot < t < e ==> InClassAt(SuffixPart, s, t))
  }

  /** The pattern matches the window `s[i..e]`. */
  ghost predicate RegexMatches(s: string, i: nat, e: nat)
  {
    exists at: nat, dot: nat :: Decomposes(s, i, at, dot, e)
  }

  /**
   * What `re.search` reports: a match at the leftmost start position that admits one,
   * ending where the greedy runs end, which here is the longest match at that start.
   */
  ghost predicate IsSearchResult(s: string, i: nat, e: nat)
  {
    RegexMatches(s, i, e)
    && (forall e': nat :: RegexMatches(s, i, e') ==> e' <= e)
    && (forall i': nat, e': nat :: i' < i ==> !RegexMatches(s, i', e'))
  }

  // ----- the deterministic scan -----

  /** The pattern matches at start `i`, each part taken as a maximal run. */
  predicate MatchAt(s: string, i: nat)
    requires i <= |s|
  {
    var at := RunEnd(s, i, LocalPart);
    i < at < |s| && s[at] == '@' &&
    var dot := RunEnd(s, at + 1, DomainPart);
    at + 1 < dot < |s| && s[dot] == '.' &&
    dot + 1 < RunEnd(s, dot + 1, SuffixPart)
  }

  function AtOf(s: string, i: nat): nat
    requires i <= |s|
  {
    RunEnd(s, i, LocalPart)
  }

  function DotOf(s: string, i: nat): nat
    requires i <= |s| && MatchAt(s, i)
  {
    RunEnd(s, AtOf(s, i) + 1, DomainPart)
  }

  /** Where the match at `i` ends: the end of the maximal suffix run after the dot. */
  function MatchEnd(s: string, i: nat): nat
    requires i <= |s| && MatchAt(s, i)
  {
    RunEnd(s, DotOf(s, i) + 1, SuffixPart)
  }

  /** The smallest start position at or after `from` where the pattern matches. */
  function LeftmostMatch(s: string, from: nat): (r: Option<nat>)
    requires from <= |s|
    ensures r.Some? ==> from <= r.value <= |s| && MatchAt(s, r.value)
    ensures forall i :: from <= i <= |s| && (r.None? || i < r.value) ==> !MatchAt(s, i)
    decreases |s| - from
  {
    if MatchAt(s, from) then Some(from)
    else if from == |s| then None
    else LeftmostMatch(s, from + 1)
  }

  /** `extract_email`: `match.group(0)` of the first match, or `None`. */
  function ExtractEmail(s: string): Option<string>
  {
    match LeftmostMatch(s, 0)
    case None => None
    case Some(i) => Some(s[i..MatchEnd(s, i)])
  }

  // ----- the two readings agree -----

  /** The maximal runs give a match of the pattern. */
  lemma MatchAtIsRegexMatch(s: string, i: nat)
    requires i <= |s| && MatchAt(s, i)
    ensures Decomposes(s, i, AtOf(s, i), DotOf(s, i), MatchEnd(s, i))
    ensures RegexMatches(s, i, MatchEnd(s, i))
  {
    assert Decomposes(s, i, AtOf(s, i), DotOf(s, i), MatchEnd(s, i));
  }

  /** Any way of matching at `i` uses the `@` and the dot of the maximal runs and ends no later than they do. */
  lemma DecompositionIsForced(s: string, i: nat, at: nat, dot: nat, e: nat)
    requires Decomposes(s, i, at, dot, e)
    ensures i <= |s| && MatchAt(s, i)
    ensures at == AtOf(s, i) && dot == DotOf(s, i) && e <= MatchEnd(s, i)
  {
    assert !InClassAt(LocalPart, s, at) && InClassAt(DomainPart, s, at + 1);
    assert !InClassAt(DomainPart, s, dot) && InClassAt(SuffixPart, s, dot + 1);
  }

  lemma RegexMatchImpliesMatchAt(s: string, i: nat, e: nat)
    ensures RegexMatches(s, i, e) ==> i <= |s| && MatchAt(s, i) && e <= MatchEnd(s, i)
  {
    if RegexMatches(s, i, e) {
      var at: nat, dot: nat :| Decomposes(s, i, at, dot, e);
      DecompositionIsForced(s, i, at, dot, e);
    }
  }

  /** `extract_email` returns `None` exactly when no window of the text matches the pattern. */
  lemma ExtractEmailNone(s: string)
    ensures ExtractEmail(s) == None <==> forall i: nat, e: nat :: !RegexMatches(s, i, e)
  {
    match LeftmostMatch(s, 0)
    case None =>
      forall i: nat, e: nat ensures !RegexMatches(s, i, e) {
        RegexMatchImpliesMatchAt(s, i, e);
      }
    case Some(i) =>
      MatchAtIsRegexMatch(s, i);
  }

  /** A returned address is the window `re.search` reports. */
  lemma ExtractEmailIsSearchResult(s: string)
    ensures ExtractEmail(s).Some? ==>
      exists i: nat, e: nat :: i <= e <= |s| && IsSearchResult(s, i, e) && ExtractEmail(s).value == s[i..e]
  {
    if LeftmostMatch(s, 0).Some? {
      var i := LeftmostMatch(s, 0).value;
      var e := MatchEnd(s, i);
      MatchAtIsRegexMatch(s, i);
      forall e': nat ensures RegexMatches(s, i, e') ==> e' <= e {
        RegexMatchImpliesMatchAt(s, i, e');
      }
      forall i': nat, e': nat | i' < i ensures !RegexMatches(s, i', e') {
        RegexMatchImpliesMatchAt(s, i', e');
      }
      assert IsSearchResult(s, i, e);
    }
  }

  /** Any match starts no earlier than the search result, and one at the same start ends no later. */
  lemma SearchResultIsFirst(s: string, i: nat, e: nat, j: nat, f: nat)
    requires IsSearchResult(s, i, e) && RegexMatches(s, j, f)
    ensures i <= j && (j == i ==> f <= e)
  {
  }

  /** And conversely, the window `re.search` reports is what `extract_email` returns. */
  lemma SearchResultIsExtracted(s: string, i: nat, e: nat)
    requires IsSearchResult(s, i, e)
    ensures i <= e <= |s|
    ensures ExtractEmail(s) == Some(s[i..e])
  {
    RegexMatchImpliesMatchAt(s, i, e);
    var r := LeftmostMatch(s, 0);
    assert r.Some?;
    var j := r.value;
    MatchAtIsRegexMatch(s, j);
    SearchResultIsFirst(s, i, e, j, MatchEnd(s, j));
    assert j == i;
    SearchResultIsFirst(s, i, e, i, MatchEnd(s, i));
    assert MatchEnd(s, i) == e;
  }

  /** Extending a match one local-part character to the left is again a match. */
  lemma MatchExtendsLeft(s: string, i: nat)
    requires 0 < i <= |s|
    ensures InClassAt(LocalPart, s, i - 1) && MatchAt(s, i) ==> MatchAt(s, i - 1)
  {
  }

  /**
   * The match starts where a maximal run of local-part characters starts:
   * the local part is the whole run of allowed characters before the `@`.
   */
  lemma MatchStartsRun(s: string)
    requires LeftmostMatch(s, 0).Some?
    ensures var i := LeftmostMatch(s, 0).value; i == 0 || !InClassAt(LocalPart, s, i - 1)
  {
    var i := LeftmostMatch(s, 0).value;
    if i > 0 {
      MatchExtendsLeft(s, i);
    }
  }

  /** The shape of a returned address: exactly one `@`, no dot in the domain, then a dot and a non-empty suffix. */
  lemma ExtractedEmailShape(s: string)
    requires ExtractEmail(s).Some?
    ensures var m := ExtractEmail(s).value;
      5 <= |m| && multiset(m)['@'] == 1
      && exists at: nat, dot: nat :: Decomposes(m, 0, at, dot, |m|) && '.' !in m[at + 1..dot]
  {
    var m := ExtractEmail(s).value;
    ExtractedDecomposes(s);
    var at: nat, dot: nat :| Decomposes(m, 0, at, dot, |m|);
    DecomposedShape(m, at, dot);
  }

  /** A returned address, taken on its own, matches the whole pattern. */
  lemma ExtractedDecomposes(s: string)
    requires ExtractEmail(s).Some?
    ensures exists at: nat, dot: nat :: Decomposes(ExtractEmail(s).value, 0, at, dot, |ExtractEmail(s).value|)
  {
    var i := LeftmostMatch(s, 0).value;
    MatchedWindowDecomposes(s, i);
  }

  /** The window of a match at `i`, taken on its own, matches the whole pattern. */
  lemma MatchedWindowDecomposes(s: string, i: nat)
    requires i <= |s| && MatchAt(s, i)
    ensures var m := s[i..MatchEnd(s, i)];
      Decomposes(m, 0, AtOf(s, i) - i, DotOf(s, i) - i, |m|)
  {
    MatchAtIsRegexMatch(s, i);
    DecomposesShift(s, i, AtOf(s, i), DotOf(s, i), MatchEnd(s, i));
  }

  /** A match of the window `s[i..e]` is a match of the whole string `s[i..e]`. */
  lemma DecomposesShift(s: string, i: nat, at: nat, dot: nat, e: nat)
    requires Decomposes(s, i, at, dot, e)
    ensures Decomposes(s[i..e], 0, at - i, dot - i, e - i)
  {
    var m := s[i..e];
    forall t | 0 <= t < at - i ensures InClassAt(LocalPart, m, t) { assert InClassAt(LocalPart, s, i + t); }
    forall t | at - i < t < dot - i ensures InClassAt(DomainPart, m, t) { assert InClassAt(DomainPart, s, i + t); }
    forall t | dot - i < t < e - i ensures InClassAt(SuffixPart, m, t) { assert InClassAt(SuffixPart, s, i + t); }
  }

  lemma DecomposedShape(m: string, at: nat, dot: nat)
    requires Decomposes(m, 0, at, dot, |m|)
    ensures 5 <= |m| && multiset(m)['@'] == 1 && '.' !in m[at + 1..dot]
  {
    assert m == m[..at] + [m[at]] + m[at + 1..];
    assert '@' !in m[..at] by {
      forall t | 0 <= t < at ensures m[..at][t] != '@' { assert InClassAt(LocalPart, m, t); }
    }
    assert '@' !in m[at + 1..] by {
      forall t | at + 1 <= t < |m| ensures m[t] != '@' {
        if t < dot { assert InClassAt(DomainPart, m, t); }
        else if t > dot { assert InClassAt(SuffixPart, m, t); }
      }
    }
    assert multiset(m) == multiset(m[..at]) + multiset{'@'} + multiset(m[at + 1..]);
    assert '.' !in m[at + 1..dot] by {
      forall t | at + 1 <= t < dot ensures m[t] != '.' { assert InClassAt(DomainPart, m, t); }
    }
  }

  /** A text without `@` has no address in it. */
  lemma NoAtSignNoEmail(s: string)
    requires '@' !in s
    ensures ExtractEmail(s) == None
  {
    forall i | 0 <= i <= |s| ensures MatchAt(s, i) ==> '@' in s {
    }
  }
}
