/**
 * `extract_name` and `extract_skills`: the candidate's name and the recognised skills,
 * read off the résumé text.
 */
module ResumeFields {
  import opened Strings
  import opened Sequences

  /** The name used when no line of the résumé looks like a name. */
  const PLACEHOLDER_NAME: string := "Candidate"

  /** The hard-coded skill vocabulary, in the order the report lists skills. */
  const VOCABULARY: seq<string> := ["Python", "Java", "SQL", "Machine Learning", "Communication", "Teamwork"]

  // ----- name -----

  /** A line is taken as the name when, stripped, it has two or three words and is not all digits. */
  predicate IsNameLine(line: string)
  {
    var stripped := Strip(line);
    (|Words(stripped)| == 2 || |Words(stripped)| == 3) && !IsDigitString(stripped)
  }

  /** The stripped first name line, or the placeholder. */
  function NameFromLines(lines: seq<string>): string
  {
    if lines == [] then PLACEHOLDER_NAME
    else if IsNameLine(lines[0]) then Strip(lines[0])
    else NameFromLines(lines[1..])
  }

  /** The name `extract_name` returns for a résumé text whose lines are separated by `\n`. */
  function CandidateName(text: string): string
  {
    NameFromLines(Split(text, '\n'))
  }

  /** `extract_name`: a loop over the lines that returns at the first one with two or three words. */
  method ExtractName(text: string) returns (name: string)
    ensures name == CandidateName(text)
  {
    var lines := Split(text, '\n');
    for i := 0 to |lines|
      invariant NameFromLines(lines[i..]) == NameFromLines(lines)
    {
      NameFromLinesStep(lines, i);
      if IsNameLine(lines[i]) {
        return Strip(lines[i]);
      }
    }
    return PLACEHOLDER_NAME;
  }

  /** One iteration of the loop: line `i` is the name, or the search goes on after it. */
  lemma NameFromLinesStep(lines: seq<string>, i: nat)
    requires i < |lines|
    ensures NameFromLines(lines[i..]) == if IsNameLine(lines[i]) then Strip(lines[i]) else NameFromLines(lines[i + 1..])
  {
    assert lines[i..][0] == lines[i];
    assert lines[i..][1..] == lines[i + 1..];
  }

  /** The digit test never rejects a line: a line with two or three words is all digits for no digit class without whitespace. */
  lemma DigitTestIsRedundant(line: string)
    ensures IsNameLine(line) <==> |Words(Strip(line))| in {2, 3}
  {
    if |Words(Strip(line))| in {2, 3} {
      SeveralWordsNotDigits(Strip(line));
    }
  }

  /** Line `k` is the first name line. */
  ghost predicate IsFirstNameLine(lines: seq<string>, k: int)
  {
    0 <= k < |lines| && IsNameLine(lines[k]) && forall j :: 0 <= j < k ==> !IsNameLine(lines[j])
  }

  /** No line is a name line. */
  ghost predicate NoNameLine(lines: seq<string>)
  {
    forall k :: 0 <= k < |lines| ==> !IsNameLine(lines[k])
  }

  lemma NoNameLineCons(lines: seq<string>)
    requires lines != []
    ensures NoNameLine(lines) <==> !IsNameLine(lines[0]) && NoNameLine(lines[1..])
  {
    assert forall k :: 1 <= k < |lines| ==> lines[k] == lines[1..][k - 1];
  }

  /** The placeholder is chosen exactly when no line is a name line. */
  lemma {:induction false} PlaceholderIffNoNameLine(lines: seq<string>)
    ensures NameFromLines(lines) == PLACEHOLDER_NAME <==> NoNameLine(lines)
  {
    if lines != [] {
      NoNameLineCons(lines);
      if IsNameLine(lines[0]) {
        StrippedNameLineIsNotPlaceholder(lines[0]);
        assert NameFromLines(lines) != PLACEHOLDER_NAME;
      } else {
        PlaceholderIffNoNameLine(lines[1..]);
        assert NameFromLines(lines) == NameFromLines(lines[1..]);
      }
    }
  }

  /** Otherwise the chosen name is the first name line, stripped. */
  lemma {:induction false} NameIsFirstNameLine(lines: seq<string>)
    ensures NameFromLines(lines) != PLACEHOLDER_NAME ==>
      exists k :: IsFirstNameLine(lines, k) && NameFromLines(lines) == Strip(lines[k])
  {
    if lines != [] && !IsNameLine(lines[0]) {
      NameIsFirstNameLine(lines[1..]);
      if NameFromLines(lines) != PLACEHOLDER_NAME {
        var k :| IsFirstNameLine(lines[1..], k) && NameFromLines(lines[1..]) == Strip(lines[1..][k]);
        forall j | 0 <= j < k + 1 ensures !IsNameLine(lines[j]) {
          if j > 0 { assert lines[j] == lines[1..][j - 1]; }
        }
        assert IsFirstNameLine(lines, k + 1);
      }
    } else if lines != [] {
      assert IsFirstNameLine(lines, 0);
    }
  }

  /** The placeholder is one word, so it cannot be a stripped name line. */
  lemma StrippedNameLineIsNotPlaceholder(line: string)
    requires IsNameLine(line)
    ensures Strip(line) != PLACEHOLDER_NAME
  {
    assert forall k :: 0 <= k < |PLACEHOLDER_NAME| ==> !IsSpace(PLACEHOLDER_NAME[k]);
    OneWord(PLACEHOLDER_NAME);
  }

  /** The name is never empty and has no whitespace at either end. */
  lemma {:induction false} NameIsTrimmed(lines: seq<string>)
    ensures var name := NameFromLines(lines);
      name != [] && !IsSpace(name[0]) && !IsSpace(name[|name| - 1])
  {
    if lines == [] {
    } else if IsNameLine(lines[0]) {
      assert Strip(lines[0]) != [];
    } else {
      NameIsTrimmed(lines[1..]);
    }
  }

  // ----- skills -----

  /** The terms whose lower-case form occurs in `loweredText`, in the order of `terms`. */
  function PresentTerms(terms: seq<string>, loweredText: string): seq<string>
  {
    if terms == [] then []
    else (if Contains(loweredText, Lower(terms[0])) then [terms[0]] else []) + PresentTerms(terms[1..], loweredText)
  }

  /** `extract_skills`: the vocabulary terms that occur in the text, ignoring case. */
  function ExtractSkills(text: string): seq<string>
  {
    PresentTerms(VOCABULARY, Lower(text))
  }

  lemma {:induction false} PresentTermsSpec(terms: seq<string>, loweredText: string)
    ensures IsSubsequence(PresentTerms(terms, loweredText), terms)
    ensures forall t :: t in PresentTerms(terms, loweredText) <==> t in terms && Contains(loweredText, Lower(t))
  {
    if terms != [] {
      PresentTermsSpec(terms[1..], loweredText);
      var rest := PresentTerms(terms[1..], loweredText);
      assert forall t :: t in terms <==> t == terms[0] || t in terms[1..];
      if Contains(loweredText, Lower(terms[0])) {
        assert PresentTerms(terms, loweredText) == [terms[0]] + rest;
        assert ([terms[0]] + rest)[1..] == rest;
      } else {
        assert PresentTerms(terms, loweredText) == rest;
      }
    }
  }

  /**
   * The recognised skills are vocabulary terms in vocabulary order, each included
   * exactly when its lower-case form is a substring of the lowered text; none is
   * repeated and there are at most six.
   */
  lemma ExtractSkillsSpec(text: string)
    ensures var skills := ExtractSkills(text);
      IsSubsequence(skills, VOCABULARY)
      && (forall t :: t in skills <==> t in VOCABULARY && Contains(Lower(text), Lower(t)))
      && Distinct(skills)
      && |skills| <= 6
  {
    PresentTermsSpec(VOCABULARY, Lower(text));
    SubsequenceMembers(ExtractSkills(text), VOCABULARY);
    assert Distinct(VOCABULARY);
    SubsequenceDistinct(ExtractSkills(text), VOCABULARY);
  }
}
