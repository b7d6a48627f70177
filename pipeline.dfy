/**
 * `run_resume_process`: the coordinator that runs the stages in order and ends in
 * exactly one outcome. The stages that reach outside the program (reading the PDF,
 * loading the catalog, writing the report file, sending the mail) are given as their
 * results; the `except Exception` handler becomes the `Error` outcome carrying the
 * failing stage's message.
 */
module Pipeline {
  import opened Wrappers
  import EmailPattern
  import ResumeFields
  import JobMatching
  import Report

  /** What the outside stages did on this run. */
  datatype StageResults = StageResults(
    document: Result<string>,                 // parse_resume: the résumé text
    catalog: Result<seq<JobMatching.Row>>,    // load_jobs, with the column lookups of match_jobs
    selectionError: string,                   // the KeyError of the column selection on a catalog with no rows
    renderError: Option<string>,              // generate_pdf and pdf.output
    sendError: Option<string>)                // send_email

  /** What is read off the résumé text. */
  datatype Profile = Profile(email: Option<string>, name: string, skills: seq<string>)

  /** The message the user is shown. */
  datatype Outcome = NoEmail | NoMatches | Sent(address: string) | Error(message: string)

  /** The job catalog the coordinator loads. */
  const CATALOG_PATH: string := "data/jobs_data.xlsx"

  /** The outside actions a run starts, in order. */
  datatype Effect =
    | LoadCatalog(path: string)
    | WriteReport(path: string, entries: seq<string>)
    | SendReport(address: string, path: string)

  datatype Run = Run(outcome: Outcome, effects: seq<Effect>)

  function ExtractProfile(text: string): Profile
  {
    Profile(EmailPattern.ExtractEmail(text), ResumeFields.CandidateName(text), ResumeFields.ExtractSkills(text))
  }

  /** Python's truth value of `extract_email`'s result: `None` and the empty string are false. */
  predicate IsTruthy(email: Option<string>)
  {
    email.Some? && email.value != []
  }

  function RunResumeProcess(stages: StageResults): Run
  {
    match stages.document
    case Failure(message) => Run(Error(message), [])
    case Ok(text) => RunWithProfile(ExtractProfile(text), stages)
  }

  /** The rest of the run once the text has been read. */
  function RunWithProfile(profile: Profile, stages: StageResults): Run
  {
    if !IsTruthy(profile.email) then Run(NoEmail, [])
    else
      match stages.catalog
      case Failure(message) => Run(Error(message), [LoadCatalog(CATALOG_PATH)])
      case Ok(rows) =>
        // On a catalog with no rows the filter of `match_jobs` yields an empty mask of object
        // type, which selects columns rather than rows; the column selection then fails.
        if rows == [] then Run(Error(stages.selectionError), [LoadCatalog(CATALOG_PATH)])
        else
          var matched := JobMatching.MatchJobs(profile.skills, rows);
          if matched == [] then Run(NoMatches, [LoadCatalog(CATALOG_PATH)])
          else
            var path := Report.ReportPath(profile.name);
            var write := WriteReport(path, Report.ReportContent(matched, profile.name));
            match stages.renderError
            case Some(message) => Run(Error(message), [LoadCatalog(CATALOG_PATH), write])
            case None =>
              var send := SendReport(profile.email.value, path);
              match stages.sendError
              case Some(message) => Run(Error(message), [LoadCatalog(CATALOG_PATH), write, send])
              case None => Run(Sent(profile.email.value), [LoadCatalog(CATALOG_PATH), write, send])
  }

  /** The effects of a run that gets all the way to delivery. */
  function DeliveryEffects(profile: Profile, rows: seq<JobMatching.Row>, address: string): seq<Effect>
  {
    var path := Report.ReportPath(profile.name);
    var matched := JobMatching.MatchJobs(profile.skills, rows);
    [LoadCatalog(CATALOG_PATH), WriteReport(path, Report.ReportContent(matched, profile.name)), SendReport(address, path)]
  }

  /** A returned address is never empty, so `if not email` tests for `None` and nothing else. */
  lemma TruthyIffFound(text: string)
    ensures IsTruthy(ExtractProfile(text).email) <==> EmailPattern.ExtractEmail(text).Some?
  {
    if EmailPattern.ExtractEmail(text).Some? {
      EmailPattern.ExtractedEmailShape(text);
    }
  }

  /** No email: the run stops before the catalog is loaded, so nothing is rendered or sent. */
  lemma NoEmailOutcome(stages: StageResults)
    ensures RunResumeProcess(stages).outcome == NoEmail <==>
      stages.document.Ok? && EmailPattern.ExtractEmail(stages.document.value) == None
    ensures RunResumeProcess(stages).outcome == NoEmail ==> RunResumeProcess(stages).effects == []
  {
    if stages.document.Ok? {
      TruthyIffFound(stages.document.value);
    }
  }

  /** No matching job: the catalog was loaded, but nothing is rendered or sent. */
  lemma NoMatchesOutcome(profile: Profile, stages: StageResults)
    ensures RunWithProfile(profile, stages).outcome == NoMatches <==>
      IsTruthy(profile.email) && stages.catalog.Ok? && stages.catalog.value != []
      && JobMatching.MatchJobs(profile.skills, stages.catalog.value) == []
    ensures RunWithProfile(profile, stages).outcome == NoMatches ==> RunWithProfile(profile, stages).effects == [LoadCatalog(CATALOG_PATH)]
  {
  }

  /**
   * Delivery: every stage succeeded, the report was written to the file named after
   * the candidate and sent to the extracted address.
   */
  lemma SentOutcome(profile: Profile, stages: StageResults, address: string)
    ensures RunWithProfile(profile, stages).outcome == Sent(address) <==>
      profile.email == Some(address) && address != []
      && stages.catalog.Ok? && JobMatching.MatchJobs(profile.skills, stages.catalog.value) != []
      && stages.renderError.None? && stages.sendError.None?
    ensures RunWithProfile(profile, stages).outcome == Sent(address) ==>
      RunWithProfile(profile, stages).effects == DeliveryEffects(profile, stages.catalog.value, address)
  {
  }

  /**
   * A whole run that is sent loaded the catalog, wrote the report of the postings that match
   * the skills found in the résumé text, named after the name found there, and sent that
   * file to the address `extract_email` found there.
   */
  lemma SentToExtractedAddress(stages: StageResults, address: string)
    requires RunResumeProcess(stages).outcome == Sent(address)
    ensures stages.document.Ok? && EmailPattern.ExtractEmail(stages.document.value) == Some(address)
    ensures stages.catalog.Ok?
    ensures var text := stages.document.value;
      var name := ResumeFields.CandidateName(text);
      var matched := JobMatching.MatchJobs(ResumeFields.ExtractSkills(text), stages.catalog.value);
      matched != []
      && RunResumeProcess(stages).effects ==
        [LoadCatalog(CATALOG_PATH),
         WriteReport(Report.ReportPath(name), Report.ReportContent(matched, name)),
         SendReport(address, Report.ReportPath(name))]
  {
    SentOutcome(ExtractProfile(stages.document.value), stages, address);
  }

  /**
   * Once the text was read, the run ends in an error exactly when a later stage that is
   * reached fails, and the message is that of the first stage that fails: the catalog
   * load, the column selection on an empty catalog, the rendering, or the sending.
   */
  lemma ErrorOutcome(profile: Profile, stages: StageResults, message: string)
    ensures RunWithProfile(profile, stages).outcome == Error(message) <==>
      IsTruthy(profile.email)
      && (stages.catalog == Failure(message)
          || (stages.catalog == Ok([]) && message == stages.selectionError)
          || (stages.catalog.Ok? && JobMatching.MatchJobs(profile.skills, stages.catalog.value) != []
              && (stages.renderError == Some(message)
                  || (stages.renderError.None? && stages.sendError == Some(message)))))
  {
  }

  /** An unreadable résumé ends in its error at once, with no outside action. */
  lemma DocumentFailureHalts(stages: StageResults)
    requires stages.document.Failure?
    ensures RunResumeProcess(stages) == Run(Error(stages.document.message), [])
  {
  }

  /** A catalog with no rows ends in the column selection's error after the load alone. */
  lemma EmptyCatalogFails(profile: Profile, stages: StageResults)
    requires IsTruthy(profile.email) && stages.catalog == Ok([])
    ensures RunWithProfile(profile, stages) == Run(Error(stages.selectionError), [LoadCatalog(CATALOG_PATH)])
  {
  }

  /** A failed rendering ends in its error after the report was attempted but before any send. */
  lemma RenderFailureHalts(profile: Profile, stages: StageResults)
    requires IsTruthy(profile.email) && stages.catalog.Ok?
    requires JobMatching.MatchJobs(profile.skills, stages.catalog.value) != []
    requires stages.renderError.Some?
    ensures RunWithProfile(profile, stages) ==
      Run(Error(stages.renderError.value), DeliveryEffects(profile, stages.catalog.value, profile.email.value)[..2])
  {
  }

  /** A failed send ends in its error after all three actions were started. */
  lemma SendFailureReported(profile: Profile, stages: StageResults)
    requires IsTruthy(profile.email) && stages.catalog.Ok?
    requires JobMatching.MatchJobs(profile.skills, stages.catalog.value) != []
    requires stages.renderError.None? && stages.sendError.Some?
    ensures RunWithProfile(profile, stages) ==
      Run(Error(stages.sendError.value), DeliveryEffects(profile, stages.catalog.value, profile.email.value))
  {
  }

  /**
   * The stages run in a fixed order and stop at the first terminal outcome: the effects
   * of any run are a prefix of those of a full delivery, so a report is sent only after
   * it was written, and only to the extracted address.
   */
  lemma RunIsLinear(profile: Profile, stages: StageResults)
    ensures var run := RunWithProfile(profile, stages);
      (run.effects != [] ==> IsTruthy(profile.email) && run.effects[0] == LoadCatalog(CATALOG_PATH))
      && (|run.effects| > 1 ==>
            stages.catalog.Ok? && run.effects <= DeliveryEffects(profile, stages.catalog.value, profile.email.value))
    ensures var run := RunWithProfile(profile, stages);
      run.outcome.Sent? || run.outcome.Error? || |run.effects| <= 1
    ensures var run := RunWithProfile(profile, stages);
      |run.effects| == 3 ==>
        run.outcome == Sent(profile.email.value)
        || (stages.sendError.Some? && run.outcome == Error(stages.sendError.value))
  {
  }

  /** A report is written only for a non-empty match set, and its file name has no space in it. */
  lemma WrittenReport(profile: Profile, stages: StageResults)
    requires |RunWithProfile(profile, stages).effects| > 1
    ensures stages.catalog.Ok? && JobMatching.MatchJobs(profile.skills, stages.catalog.value) != []
    ensures var path := RunWithProfile(profile, stages).effects[1].path;
      path == Report.ReportPath(profile.name) && ' ' !in path
  {
    Report.ReportPathShape(profile.name);
  }

  /** A résumé without `@` ends in `NoEmail`; the catalog is not even loaded. */
  lemma NoAtSignHalts(stages: StageResults)
    requires stages.document.Ok? && '@' !in stages.document.value
    ensures RunResumeProcess(stages) == Run(NoEmail, [])
  {
    EmailPattern.NoAtSignNoEmail(stages.document.value);
  }

  /** An unreadable catalog ends in an error before anything is rendered or sent. */
  lemma CatalogFailureHalts(stages: StageResults)
    requires stages.document.Ok? && EmailPattern.ExtractEmail(stages.document.value).Some?
    requires stages.catalog.Failure?
    ensures RunResumeProcess(stages) == Run(Error(stages.catalog.message), [LoadCatalog(CATALOG_PATH)])
  {
    TruthyIffFound(stages.document.value);
  }
}
