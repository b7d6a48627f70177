/**
 * `match_jobs`: the catalog rows whose `key_skills` text mentions one of the
 * candidate's skills, in catalog order, cut down to the four report columns.
 */
module JobMatching {
  import opened Strings
  import opened Sequences

  /**
   * One row of the job catalog with every cell already turned into text, as `str()`
   * does (a missing cell reads "nan"); `otherColumns` stands for any further columns.
   */
  datatype Row = Row(company: string, jobRole: string, location: string, keySkills: string, otherColumns: seq<string>)

  /** A row restricted to the columns `company`, `job_role`, `location` and `key_skills`. */
  datatype Posting = Posting(company: string, jobRole: string, location: string, keySkills: string)

  function Project(row: Row): Posting
  {
    Posting(row.company, row.jobRole, row.location, row.keySkills)
  }

  /** The column selection `[['company', 'job_role', 'location', 'key_skills']]` applied to every row. */
  function ProjectAll(rows: seq<Row>): (r: seq<Posting>)
    ensures |r| == |rows| && forall k {:trigger r[k]} :: 0 <= k < |rows| ==> r[k] == Project(rows[k])
  {
    if rows == [] then [] else [Project(rows[0])] + ProjectAll(rows[1..])
  }

  /** Projection distributes over concatenation of the catalog. */
  lemma ProjectAllAppend(a: seq<Row>, b: seq<Row>)
    ensures ProjectAll(a + b) == ProjectAll(a) + ProjectAll(b)
  {
    assert forall k :: 0 <= k < |a| + |b| ==> ProjectAll(a + b)[k] == (ProjectAll(a) + ProjectAll(b))[k];
  }

  /** Some skill, lowered, is a substring of the row's lowered `key_skills`. */
  predicate RowMatches(skills: seq<string>, row: Row)
  {
    exists k | 0 <= k < |skills| :: Contains(Lower(row.keySkills), Lower(skills[k]))
  }

  /** `match_jobs`: an order-preserving filter followed by the column projection. */
  function MatchJobs(skills: seq<string>, rows: seq<Row>): seq<Posting>
  {
    if rows == [] then []
    else (if RowMatches(skills, rows[0]) then [Project(rows[0])] else []) + MatchJobs(skills, rows[1..])
  }

  /** On one row the filter keeps exactly the matching row. */
  lemma MatchJobsSingleton(skills: seq<string>, row: Row)
    ensures MatchJobs(skills, [row]) == if RowMatches(skills, row) then [Project(row)] else []
  {
    assert [row][1..] == [];
  }

  /** Filtering distributes over concatenation, so kept rows stay in catalog order. */
  lemma {:induction false} MatchJobsAppend(skills: seq<string>, a: seq<Row>, b: seq<Row>)
    ensures MatchJobs(skills, a + b) == MatchJobs(skills, a) + MatchJobs(skills, b)
  {
    if a != [] {
      MatchJobsAppend(skills, a[1..], b);
      assert (a + b)[1..] == a[1..] + b;
    } else {
      assert a + b == b;
    }
  }

  /** The result is a subsequence of the projected catalog, and a row appears in it exactly when it matches. */
  lemma {:induction false} MatchJobsSpec(skills: seq<string>, rows: seq<Row>)
    ensures IsSubsequence(MatchJobs(skills, rows), ProjectAll(rows))
    ensures forall p :: p in MatchJobs(skills, rows) <==> exists k :: 0 <= k < |rows| && RowMatches(skills, rows[k]) && p == Project(rows[k])
  {
    if rows != [] {
      MatchJobsSpec(skills, rows[1..]);
      var rest := MatchJobs(skills, rows[1..]);
      assert ProjectAll(rows)[1..] == ProjectAll(rows[1..]);
      assert forall k :: 1 <= k < |rows| ==> rows[k] == rows[1..][k - 1];
      if RowMatches(skills, rows[0]) {
        assert MatchJobs(skills, rows) == [Project(rows[0])] + rest;
        assert ([Project(rows[0])] + rest)[1..] == rest;
      } else {
        assert MatchJobs(skills, rows) == rest;
      }
      forall p ensures p in MatchJobs(skills, rows) <==> exists k :: 0 <= k < |rows| && RowMatches(skills, rows[k]) && p == Project(rows[k]) {
        if p in rest {
          var k :| 0 <= k < |rows[1..]| && RowMatches(skills, rows[1..][k]) && p == Project(rows[1..][k]);
          assert rows[k + 1] == rows[1..][k];
        }
        if exists k :: 0 <= k < |rows| && RowMatches(skills, rows[k]) && p == Project(rows[k]) {
          var k :| 0 <= k < |rows| && RowMatches(skills, rows[k]) && p == Project(rows[k]);
          if k > 0 {
            assert rows[1..][k - 1] == rows[k];
          }
        }
      }
    }
  }

  /** The match set is empty exactly when no row's skill text mentions any skill. */
  lemma MatchJobsEmpty(skills: seq<string>, rows: seq<Row>)
    ensures MatchJobs(skills, rows) == [] <==> forall k :: 0 <= k < |rows| ==> !RowMatches(skills, rows[k])
  {
    MatchJobsSpec(skills, rows);
    if MatchJobs(skills, rows) != [] {
      var p := MatchJobs(skills, rows)[0];
      assert p in MatchJobs(skills, rows);
    }
    forall k | 0 <= k < |rows| && RowMatches(skills, rows[k]) ensures Project(rows[k]) in MatchJobs(skills, rows) {
    }
  }

  /** With no skills nothing matches: an empty skill list gives an empty match set. */
  lemma {:induction false} NoSkillsNoMatches(rows: seq<Row>)
    ensures MatchJobs([], rows) == []
  {
    if rows != [] {
      NoSkillsNoMatches(rows[1..]);
    }
  }
}
