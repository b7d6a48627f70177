/**
 * The text content of the PDF report: `clean_text`, the entries `generate_pdf` writes
 * and the report's file name. The document is a `ReportDocument` whose entry list grows
 * one text cell at a time, as the FPDF object does.
 */
module Report {
  import opened Strings
  import opened JobMatching
  import opened Sequences

  const EN_DASH: char := '\U{2013}'
  const EM_DASH: char := '\U{2014}'

  /** `s.encode('latin-1', 'replace').decode('latin-1')`: each code point above U+00FF becomes `?`. */
  function Latin1Replace(s: string): (r: string)
    ensures |r| == |s|
    ensures forall k {:trigger r[k]} :: 0 <= k < |s| ==> r[k] == if s[k] as int <= 0xFF then s[k] else '?'
  {
    if s == [] then []
    else [if s[0] as int <= 0xFF then s[0] else '?'] + Latin1Replace(s[1..])
  }

  /** What sanitising does to one character. */
  function CleanChar(c: char): char
  {
    if c == EN_DASH || c == EM_DASH then '-'
    else if c as int > 0xFF then '?'
    else c
  }

  /**
   * `clean_text`: both dashes become `-`, then the Latin-1 round trip; the three passes
   * together act on each character alone, as `CleanChar` says.
   */
  function CleanText(s: string): (r: string)
    ensures |r| == |s|
    ensures forall k {:trigger r[k]} :: 0 <= k < |s| ==> r[k] == CleanChar(s[k])
  {
    Latin1Replace(ReplaceChar(ReplaceChar(s, EN_DASH, '-'), EM_DASH, '-'))
  }

  /** Sanitised text is Latin-1 only, Latin-1 text is left as it is, and sanitising twice changes nothing more. */
  lemma CleanTextSpec(s: string)
    ensures forall k :: 0 <= k < |s| ==> CleanText(s)[k] as int <= 0xFF
    ensures (forall k :: 0 <= k < |s| ==> s[k] as int <= 0xFF) ==> CleanText(s) == s
    ensures CleanText(CleanText(s)) == CleanText(s)
  {
  }

  /** The title line: the candidate's name as it is, not sanitised. */
  function Title(name: string): string
  {
    "Job Recommendations for " + name
  }

  /** The four entries of one posting: the company, then the labelled role, location and skills. */
  function PostingEntries(p: Posting): seq<string>
  {
    [CleanText(p.company),
     "Job Title: " + CleanText(p.jobRole),
     "Location: " + CleanText(p.location),
     "Required Skills: " + CleanText(p.keySkills)]
  }

  function RowEntries(rows: seq<Posting>): seq<string>
  {
    if rows == [] then [] else PostingEntries(rows[0]) + RowEntries(rows[1..])
  }

  /** The report's text, in the order `generate_pdf` writes it. */
  function ReportContent(rows: seq<Posting>, name: string): seq<string>
  {
    [Title(name)] + RowEntries(rows)
  }

  lemma {:induction false} RowEntriesAppend(a: seq<Posting>, b: seq<Posting>)
    ensures RowEntries(a + b) == RowEntries(a) + RowEntries(b)
  {
    if a == [] {
      assert a + b == b;
    } else {
      calc {
        RowEntries(a + b);
        { assert (a + b)[0] == a[0] && (a + b)[1..] == a[1..] + b; }
        PostingEntries(a[0]) + RowEntries(a[1..] + b);
        { RowEntriesAppend(a[1..], b); }
        PostingEntries(a[0]) + (RowEntries(a[1..]) + RowEntries(b));
        { ConcatAssociative(PostingEntries(a[0]), RowEntries(a[1..]), RowEntries(b)); }
        RowEntries(a) + RowEntries(b);
      }
    }
  }

  /** Writing one more posting extends the report by that posting's four entries. */
  lemma ReportContentExtend(rows: seq<Posting>, p: Posting, name: string)
    ensures ReportContent(rows + [p], name) == ReportContent(rows, name) + PostingEntries(p)
  {
    RowEntriesAppend(rows, [p]);
    assert RowEntries([p]) == PostingEntries(p) by {
      assert [p][1..] == [];
    }
    ConcatAssociative([Title(name)], RowEntries(rows), PostingEntries(p));
  }

  /** The content after posting `i` is the content before it followed by its four entries. */
  lemma ReportContentStep(data: seq<Posting>, i: nat, name: string)
    requires i < |data|
    ensures ReportContent(data[..i + 1], name) == ReportContent(data[..i], name) + PostingEntries(data[i])
  {
    assert data[..i + 1] == data[..i] + [data[i]];
    ReportContentExtend(data[..i], data[i], name);
  }

  /** Posting `k` fills entries `4k+1` to `4k+4`, after the title: every matched posting appears, sanitised, in order. */
  lemma {:induction false} ReportLayout(rows: seq<Posting>, name: string)
    ensures |ReportContent(rows, name)| == 1 + 4 * |rows|
    ensures ReportContent(rows, name)[0] == Title(name)
    ensures forall k :: 0 <= k < |rows| ==> ReportContent(rows, name)[1 + 4 * k..5 + 4 * k] == PostingEntries(rows[k])
  {
    RowEntriesLayout(rows);
    var content := ReportContent(rows, name);
    forall k | 0 <= k < |rows| ensures content[1 + 4 * k..5 + 4 * k] == PostingEntries(rows[k]) {
      assert content[1 + 4 * k..5 + 4 * k] == RowEntries(rows)[4 * k..4 * k + 4];
    }
  }

  lemma {:induction false} RowEntriesLayout(rows: seq<Posting>)
    ensures |RowEntries(rows)| == 4 * |rows|
    ensures forall k :: 0 <= k < |rows| ==> RowEntries(rows)[4 * k..4 * k + 4] == PostingEntries(rows[k])
  {
    RowEntriesLength(rows);
    forall k | 0 <= k < |rows| ensures RowEntries(rows)[4 * k..4 * k + 4] == PostingEntries(rows[k]) {
      RowEntriesAt(rows, k);
    }
  }

  lemma {:induction false} RowEntriesLength(rows: seq<Posting>)
    ensures |RowEntries(rows)| == 4 * |rows|
  {
    if rows != [] {
      RowEntriesLength(rows[1..]);
    }
  }

  /** Posting `k` fills entries `4k` to `4k+3` of the posting entries. */
  lemma {:induction false} RowEntriesAt(rows: seq<Posting>, k: nat)
    requires k < |rows|
    ensures 4 * k + 4 <= |RowEntries(rows)| && RowEntries(rows)[4 * k..4 * k + 4] == PostingEntries(rows[k])
  {
    var head := PostingEntries(rows[0]);
    var tail := RowEntries(rows[1..]);
    assert RowEntries(rows) == head + tail;
    if k == 0 {
      SliceOfConcat(head, tail, 0);
    } else {
      RowEntriesAt(rows[1..], k - 1);
      SliceOfConcat(head, tail, k);
      assert rows[1..][k - 1] == rows[k];
    }
  }

  /** `f"Job_Report_{name.replace(' ', '_')}.pdf"`. */
  function ReportPath(name: string): string
  {
    "Job_Report_" + ReplaceChar(name, ' ', '_') + ".pdf"
  }

  /** The path has no space, keeps the name with spaces turned into `_`, and is fixed by the name. */
  lemma ReportPathShape(name: string)
    ensures var path := ReportPath(name);
      |path| == |name| + 15 && ' ' !in path
      && path[..11] == "Job_Report_" && path[|path| - 4..] == ".pdf"
      && path[11..|path| - 4] == ReplaceChar(name, ' ', '_')
  {
    var path := ReportPath(name);
    var middle := ReplaceChar(name, ' ', '_');
    assert path == "Job_Report_" + middle + ".pdf";
    assert path[11..|path| - 4] == middle;
    assert ' ' !in middle by {
      forall k | 0 <= k < |middle| ensures middle[k] != ' ' {}
    }
  }

  /** Two names share a report file exactly when they agree once spaces are turned into `_`. */
  lemma ReportPathCollision(a: string, b: string)
    ensures ReportPath(a) == ReportPath(b) <==> ReplaceChar(a, ' ', '_') == ReplaceChar(b, ' ', '_')
  {
    ReportPathShape(a);
    ReportPathShape(b);
  }

  /** The text content of the FPDF document, one entry per `cell` or `multi_cell`. */
  class ReportDocument {
    var entries: seq<string>

    /** `PDFReport()` followed by `add_page()`: none of `generate_pdf`'s own entries yet (the page header is not modelled). */
    constructor ()
      ensures entries == []
    {
      entries := [];
    }

    /** `cell` or `multi_cell`: the text is written after everything written so far. */
    method AddText(text: string)
      modifies this
      ensures entries == old(entries) + [text]
    {
      entries := entries + [text];
    }
  }

  /** `generate_pdf` without the layout: the title, then the four entries of each posting in order. */
  method GeneratePdf(data: seq<Posting>, name: string) returns (doc: ReportDocument)
    ensures fresh(doc)
    ensures doc.entries == ReportContent(data, name)
  {
    doc := new ReportDocument();
    doc.AddText(Title(name));
    for i := 0 to |data|
      invariant doc.entries == ReportContent(data[..i], name)
    {
      var row := data[i];
      var company := CleanText(row.company);
      var role := "Job Title: " + CleanText(row.jobRole);
      var location := "Location: " + CleanText(row.location);
      var skills := "Required Skills: " + CleanText(row.keySkills);
      ghost var before := doc.entries;
      doc.AddText(company);
      doc.AddText(role);
      doc.AddText(location);
      doc.AddText(skills);
      AppendFour(before, company, role, location, skills);
      ReportContentStep(data, i, name);
    }
    assert data[..|data|] == data;
  }
}
