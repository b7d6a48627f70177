/**
 * The Python `str` operations that the recommender relies on, over `seq<char>`:
 * whitespace, ASCII case folding, substring containment (`in`), `replace` of one
 * character, `split(sep)`, `strip()`, `split()` and `isdigit()`.
 */
module Strings {

  /** The characters for which Python's `str.isspace` holds; `strip()` and `split()` use the same set. */
  predicate IsSpace(c: char)
  {
    ('\t' <= c <= '\r') || ('\U{1C}' <= c <= '\U{1F}') || c == ' ' || c == '\U{85}' || c == '\U{A0}'
    || c == '\U{1680}' || ('\U{2000}' <= c <= '\U{200A}') || c == '\U{2028}' || c == '\U{2029}'
    || c == '\U{202F}' || c == '\U{205F}' || c == '\U{3000}'
  }

  /** `str.lower()` restricted to ASCII: upper-case Latin letters fold, every other character is kept. */
  function LowerChar(c: char): char
  {
    if 'A' <= c <= 'Z' then (c as int + 32) as char else c
  }

  /**
   * `s.lower()`, one character at a time. The two clauses only give the comprehension in
   * the pointwise form the proofs quantify over; `LowerSpec` states what lowering means.
   */
  function Lower(s: string): (r: string)
    ensures |r| == |s|
    ensures forall k {:trigger r[k]} :: 0 <= k < |s| ==> r[k] == LowerChar(s[k])
  {
    seq(|s|, k requires 0 <= k < |s| => LowerChar(s[k]))
  }

  /**
   * Lowered text has no ASCII capital left, lowering twice changes nothing more, it
   * distributes over concatenation, and an occurrence of `needle` in `hay` is still one
   * after both are lowered, which is what makes the comparisons case-insensitive.
   */
  lemma LowerSpec(hay: string, needle: string)
    ensures forall k :: 0 <= k < |Lower(hay)| ==> !('A' <= Lower(hay)[k] <= 'Z')
    ensures Lower(Lower(hay)) == Lower(hay)
    ensures Lower(hay + needle) == Lower(hay) + Lower(needle)
    ensures Contains(hay, needle) ==> Contains(Lower(hay), Lower(needle))
  {
    var lowered := Lower(hay);
    assert forall k :: 0 <= k < |lowered| ==> LowerChar(lowered[k]) == lowered[k];
    assert Lower(hay + needle) == Lower(hay) + Lower(needle);
    if Contains(hay, needle) {
      var k :| 0 <= k <= |hay| - |needle| && OccursAt(hay, needle, k);
      assert Lower(hay)[k..k + |needle|] == Lower(needle) by {
        forall t | 0 <= t < |needle| ensures Lower(hay)[k + t] == Lower(needle)[t] {
          assert hay[k + t] == needle[t];
        }
      }
      assert OccursAt(Lower(hay), Lower(needle), k);
    }
  }

  /** `needle in hay`: some window of `hay` equals `needle` (the empty needle is in every string). */
  predicate Contains(hay: string, needle: string)
  {
    exists k | 0 <= k <= |hay| - |needle| :: OccursAt(hay, needle, k)
  }

  /** `needle` is the window of `hay` that starts at `k`. */
  predicate OccursAt(hay: string, needle: string, k: int)
  {
    0 <= k && k + |needle| <= |hay| && hay[k..k + |needle|] == needle
  }

  /** `s.replace(target, replacement)` for single characters. */
  function ReplaceChar(s: string, target: char, replacement: char): (r: string)
    ensures |r| == |s|
    ensures forall k {:trigger r[k]} :: 0 <= k < |s| ==> r[k] == if s[k] == target then replacement else s[k]
  {
    if s == [] then []
    else [if s[0] == target then replacement else s[0]] + ReplaceChar(s[1..], target, replacement)
  }

  /** `s.split(sep)` with an explicit separator: the pieces between separators, `[""]` for the empty string. */
  function Split(s: string, sep: char): (r: seq<string>)
    ensures |r| >= 1
    ensures forall k :: 0 <= k < |r| ==> sep !in r[k]
  {
    if s == [] then [[]]
    else
      var rest := Split(s[1..], sep);
      if s[0] == sep then [[]] + rest
      else [[s[0]] + rest[0]] + rest[1..]
  }

  /** `sep.join(parts)`. */
  function Join(parts: seq<string>, sep: char): string
  {
    if parts == [] then []
    else if |parts| == 1 then parts[0]
    else parts[0] + [sep] + Join(parts[1..], sep)
  }

  /** Splitting loses nothing: joining the pieces with the separator gives back the text. */
  lemma {:induction false} JoinSplit(s: string, sep: char)
    ensures Join(Split(s, sep), sep) == s
  {
    if s != [] {
      var rest := Split(s[1..], sep);
      JoinSplit(s[1..], sep);
      if s[0] == sep {
        assert Split(s, sep)[1..] == rest;
      } else if |rest| == 1 {
        assert Split(s, sep) == [[s[0]] + rest[0]];
      } else {
        var parts := Split(s, sep);
        assert parts[1..] == rest[1..];
        assert parts[0] == [s[0]] + rest[0];
        assert Join(rest, sep) == rest[0] + [sep] + Join(rest[1..], sep);
      }
    }
  }

  /** Splitting inverts joining when no piece contains the separator. */
  lemma {:induction false} SplitJoin(parts: seq<string>, sep: char)
    requires |parts| >= 1
    requires forall k :: 0 <= k < |parts| ==> sep !in parts[k]
    ensures Split(Join(parts, sep), sep) == parts
    decreases |parts|, |parts[0]|
  {
    if |parts| == 1 {
      SplitNoSeparator(parts[0], sep);
    } else if parts[0] == [] {
      SplitJoin(parts[1..], sep);
      assert Join(parts, sep) == [sep] + Join(parts[1..], sep);
      assert [[]] + parts[1..] == parts;
    } else {
      var head := parts[0];
      var shorter := [head[1..]] + parts[1..];
      assert shorter[1..] == parts[1..];
      SplitJoin(shorter, sep);
      assert Join(parts, sep) == [head[0]] + Join(shorter, sep);
      assert Join(parts, sep)[1..] == Join(shorter, sep);
      assert [head[0]] + head[1..] == head;
      assert [[head[0]] + shorter[0]] + shorter[1..] == parts;
    }
  }

  lemma {:induction false} SplitNoSeparator(s: string, sep: char)
    requires sep !in s
    ensures Split(s, sep) == [s]
  {
    if s != [] {
      assert s[0] in s && forall c :: c in s[1..] ==> c in s;
      SplitNoSeparator(s[1..], sep);
      assert [s[0]] + s[1..] == s;
    }
  }

  /** `s.lstrip()`. */
  function StripLeft(s: string): (r: string)
    ensures |r| <= |s|
    ensures r == [] || !IsSpace(r[0])
  {
    if s != [] && IsSpace(s[0]) then StripLeft(s[1..]) else s
  }

  /** `s.rstrip()`. */
  function StripRight(s: string): (r: string)
    ensures |r| <= |s| && (r == [] || r[0] == s[0])
    ensures r == [] || !IsSpace(r[|r| - 1])
  {
    if s != [] && IsSpace(s[|s| - 1]) then StripRight(s[..|s| - 1]) else s
  }

  /** `s.strip()`: the text between the leading and the trailing whitespace. */
  function Strip(s: string): (r: string)
    ensures r == [] || (!IsSpace(r[0]) && !IsSpace(r[|r| - 1]))
    ensures |r| <= |s|
  {
    StripRight(StripLeft(s))
  }

  /** `lstrip()` drops exactly the leading whitespace. */
  lemma {:induction false} StripLeftSpec(s: string)
    ensures var r := StripLeft(s);
      r == s[|s| - |r|..] && forall k :: 0 <= k < |s| - |r| ==> IsSpace(s[k])
    decreases |s|
  {
    if s != [] && IsSpace(s[0]) {
      StripLeftSpec(s[1..]);
      var r := StripLeft(s);
      assert r == StripLeft(s[1..]);
      forall k | 0 <= k < |s| - |r| ensures IsSpace(s[k]) {
        if k > 0 { assert s[k] == s[1..][k - 1]; }
      }
    }
  }

  /** `rstrip()` drops exactly the trailing whitespace. */
  lemma {:induction false} StripRightSpec(s: string)
    ensures var r := StripRight(s);
      r == s[..|r|] && forall k :: |r| <= k < |s| ==> IsSpace(s[k])
    decreases |s|
  {
    if s != [] && IsSpace(s[|s| - 1]) {
      StripRightSpec(s[..|s| - 1]);
      var r := StripRight(s);
      assert r == StripRight(s[..|s| - 1]);
      forall k | |r| <= k < |s| ensures IsSpace(s[k]) {
        if k < |s| - 1 { assert s[k] == s[..|s| - 1][k]; }
      }
    }
  }

  /** `strip()` keeps a window of the text and drops only whitespace on either side of it. */
  lemma StripSpec(s: string)
    ensures var a := |s| - |StripLeft(s)|;
      var b := a + |Strip(s)|;
      a <= b <= |s| && Strip(s) == s[a..b]
      && (forall k :: 0 <= k < a ==> IsSpace(s[k])) && (forall k :: b <= k < |s| ==> IsSpace(s[k]))
  {
    var left := StripLeft(s);
    StripLeftSpec(s);
    StripRightSpec(left);
    var a := |s| - |left|;
    var right := StripRight(left);
    assert Strip(s) == right;
    assert right == left[..|right|];
    assert left[..|right|] == s[a..a + |right|];
    forall k | a + |right| <= k < |s| ensures IsSpace(s[k]) {
      assert s[k] == left[k - a];
    }
  }

  /** Where the run of non-whitespace characters that starts at `i` ends. */
  function NonSpaceEnd(s: string, i: nat): (j: nat)
    requires i <= |s|
    ensures i <= j <= |s|
    ensures forall t :: i <= t < j ==> !IsSpace(s[t])
    ensures j == |s| || IsSpace(s[j])
    decreases |s| - i
  {
    if i < |s| && !IsSpace(s[i]) then NonSpaceEnd(s, i + 1) else i
  }

  /** `s.split()`: the maximal runs of non-whitespace characters, in order. */
  function Words(s: string): seq<string>
    decreases |s|
  {
    if s == [] then []
    else if IsSpace(s[0]) then Words(s[1..])
    else
      var n := NonSpaceEnd(s, 0);
      [s[..n]] + Words(s[n..])
  }

  /** Every word is non-empty and free of whitespace. */
  lemma {:induction false} WordsAreRuns(s: string)
    ensures forall k :: 0 <= k < |Words(s)| ==> Words(s)[k] != [] && forall c :: c in Words(s)[k] ==> !IsSpace(c)
    decreases |s|
  {
    if s == [] {
    } else if IsSpace(s[0]) {
      WordsAreRuns(s[1..]);
    } else {
      var n := NonSpaceEnd(s, 0);
      WordsAreRuns(s[n..]);
      assert Words(s) == [s[..n]] + Words(s[n..]);
      assert forall c :: c in s[..n] ==> !IsSpace(c);
    }
  }

  /** Leading whitespace yields no token. */
  lemma {:induction false} WordsSkipSpaces(g: string, b: string)
    requires forall k :: 0 <= k < |g| ==> IsSpace(g[k])
    ensures Words(g + b) == Words(b)
    decreases |g|
  {
    if g != [] {
      assert (g + b)[0] == g[0] && (g + b)[1..] == g[1..] + b;
      WordsSkipSpaces(g[1..], b);
    } else {
      assert g + b == b;
    }
  }

  /** A run inside `a` ends where it ends in `a + t` when `t` starts with whitespace. */
  lemma {:induction false} NonSpaceEndPrefix(a: string, t: string, i: nat)
    requires i <= |a| && t != [] && IsSpace(t[0])
    ensures NonSpaceEnd(a + t, i) == NonSpaceEnd(a, i)
    decreases |a| - i
  {
    if i < |a| {
      assert (a + t)[i] == a[i];
      if !IsSpace(a[i]) {
        NonSpaceEndPrefix(a, t, i + 1);
      }
    } else {
      assert (a + t)[i] == t[0];
    }
  }

  /**
   * Whitespace separates tokens: `split()` of `a + g + b`, with `g` non-empty whitespace,
   * is the tokens of `a` followed by those of `b`. With `WordsSkipSpaces` (whitespace
   * alone has no token) and `OneWord` (a whitespace-free text is one token) this fixes
   * `split()` on every text: the tokens are the maximal runs of non-whitespace, in order.
   */
  lemma {:induction false} WordsSplitAtSpace(a: string, g: string, b: string)
    requires g != [] && forall k :: 0 <= k < |g| ==> IsSpace(g[k])
    ensures Words(a + g + b) == Words(a) + Words(b)
    decreases |a|
  {
    var t := g + b;
    assert a + g + b == a + t;
    if a == [] {
      assert a + t == t;
      WordsSkipSpaces(g, b);
    } else if IsSpace(a[0]) {
      assert (a + t)[0] == a[0] && (a + t)[1..] == a[1..] + g + b;
      WordsSplitAtSpace(a[1..], g, b);
    } else {
      assert t[0] == g[0];
      NonSpaceEndPrefix(a, t, 0);
      var n := NonSpaceEnd(a, 0);
      assert (a + t)[0] == a[0];
      assert Words(a + t) == [(a + t)[..n]] + Words((a + t)[n..]);
      assert (a + t)[..n] == a[..n];
      assert (a + t)[n..] == a[n..] + g + b;
      WordsSplitAtSpace(a[n..], g, b);
      assert Words(a) == [a[..n]] + Words(a[n..]);
    }
  }

  /** `s.isdigit()` for the ASCII digits: non-empty and made of digits only. */
  predicate IsDigitString(s: string)
  {
    |s| > 0 && forall k :: 0 <= k < |s| ==> '0' <= s[k] <= '9'
  }

  /** A text that `split()` cuts into two or more words has a whitespace character in it. */
  lemma {:induction false} SeveralWordsHaveSpace(s: string)
    requires |Words(s)| >= 2
    ensures exists k :: 0 <= k < |s| && IsSpace(s[k])
  {
    if !IsSpace(s[0]) {
      var n := NonSpaceEnd(s, 0);
      assert Words(s) == [s[..n]] + Words(s[n..]);
      assert Words(s[n..]) != [];
      assert IsSpace(s[n]);
    } else {
      assert IsSpace(s[0]);
    }
  }

  /** So `isdigit()` is false on it, for any digit class that excludes whitespace. */
  lemma SeveralWordsNotDigits(s: string)
    requires |Words(s)| >= 2
    ensures !IsDigitString(s)
  {
    SeveralWordsHaveSpace(s);
    var k :| 0 <= k < |s| && IsSpace(s[k]);
    assert !('0' <= s[k] <= '9');
  }

  /** A non-empty text without whitespace is one word. */
  lemma OneWord(s: string)
    requires s != [] && forall k :: 0 <= k < |s| ==> !IsSpace(s[k])
    ensures Words(s) == [s]
  {
    var n := NonSpaceEnd(s, 0);
    assert n == |s|;
    assert s[..n] == s && s[n..] == [];
  }
}
