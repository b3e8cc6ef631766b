/** The driver at the bottom of the script: log, extract, log, transform,
    log, load to the CSV file and to the database, run the three queries, log.
    Every step the model does not look inside (the two writes and the
    queries) is represented only by whether it succeeded; any failure aborts
    the rest of the run, as an uncaught Python exception does. */
module Pipeline {
  import opened Wrappers
  import opened ProgressLog
  import opened Extraction
  import opened Transformation

  /** Everything the run takes from outside: the clock reading at each
      `log_progress` call of the run (the first call is call 0), the table
      body of the fetched page, the numeric primitives, and whether each of
      the two writes and the queries went through. */
  datatype Environment<!F> = Environment(
    clock: nat -> string,
    tableBody: Option<seq<Row>>,
    num: Numerics<F>,
    csvWritten: bool,
    dbWritten: bool,
    queriesAnswered: bool)

  datatype PipelineError =
    | ExtractFailed(extractError: ExtractError)
    | TransformFailed(transformError: TransformError)
    | CsvWriteFailed
    | DbWriteFailed
    | QueryFailed

  /** The log file after the run, and the final table or the error that
      stopped the run. */
  datatype RunResult<!F> = RunResult(log: string, outcome: Result<seq<DerivedRecord<F>>, PipelineError>)

  /** The progress messages of a successful run, in the order they are
      logged. */
  const Messages: seq<string> := [
    "ETL Process started",
    "Extract phase started",
    "Extract phase completed",
    "Transform phase started",
    "Transform phase completed",
    "Load phase started",
    "Data loaded to .csv file",
    "Data loaded to database",
    "ETL Process completed successfully"
  ]

  /** How many progress messages a run with this outcome has logged: the log
      stops at the last phase boundary the run got past. */
  function Reached<F>(outcome: Result<seq<DerivedRecord<F>>, PipelineError>): (n: nat)
    ensures n <= |Messages|
    ensures n == |Messages| <==> outcome.Success?
  {
    match outcome
    case Success(_) => 9
    case Failure(ExtractFailed(_)) => 2
    case Failure(TransformFailed(_)) => 4
    case Failure(CsvWriteFailed) => 6
    case Failure(DbWriteFailed) => 7
    case Failure(QueryFailed) => 8
  }

  /** The whole script, run against a log file that already holds `prior`. */
  function Run<F>(env: Environment<F>, prior: string): (r: RunResult<F>)
    ensures r.outcome.Success? <==>
      && Extract(env.tableBody).Success?
      && Transform(Extract(env.tableBody).value, env.num).Success?
      && env.csvWritten && env.dbWritten && env.queriesAnswered
    ensures r.outcome.Success? ==>
      r.outcome.value == Transform(Extract(env.tableBody).value, env.num).value
    ensures Extract(env.tableBody).Failure? ==>
      r.outcome == Failure(ExtractFailed(Extract(env.tableBody).error))
    ensures Extract(env.tableBody).Success? && Transform(Extract(env.tableBody).value, env.num).Failure? ==>
      r.outcome == Failure(TransformFailed(Transform(Extract(env.tableBody).value, env.num).error))
  {
    var c := env.clock;
    var l1 := LogProgress(prior, c(0), "ETL Process started");
    var l2 := LogProgress(l1, c(1), "Extract phase started");
    match Extract(env.tableBody)
    case Failure(e) => RunResult(l2, Failure(ExtractFailed(e)))
    case Success(raws) =>
      var l3 := LogProgress(l2, c(2), "Extract phase completed");
      var l4 := LogProgress(l3, c(3), "Transform phase started");
      match Transform(raws, env.num)
      case Failure(e) => RunResult(l4, Failure(TransformFailed(e)))
      case Success(table) =>
        var l5 := LogProgress(l4, c(4), "Transform phase completed");
        var l6 := LogProgress(l5, c(5), "Load phase started");
        if !env.csvWritten then RunResult(l6, Failure(CsvWriteFailed))
        else
          var l7 := LogProgress(l6, c(6), "Data loaded to .csv file");
          if !env.dbWritten then RunResult(l7, Failure(DbWriteFailed))
          else
            var l8 := LogProgress(l7, c(7), "Data loaded to database");
            if !env.queriesAnswered then RunResult(l8, Failure(QueryFailed))
            else RunResult(LogProgress(l8, c(8), "ETL Process completed successfully"), Success(table))
  }

  /** Once extract and transform have succeeded, the two writes and the
      queries are tried in order and the first one that fails stops the run
      with its own error, after 6, 7 or 8 progress messages. */
  lemma RunLaterFailures<F>(env: Environment<F>, prior: string)
    requires Extract(env.tableBody).Success?
    requires Transform(Extract(env.tableBody).value, env.num).Success?
    ensures !env.csvWritten ==>
      Run(env, prior).outcome == Failure(CsvWriteFailed) && Reached(Run(env, prior).outcome) == 6
    ensures env.csvWritten && !env.dbWritten ==>
      Run(env, prior).outcome == Failure(DbWriteFailed) && Reached(Run(env, prior).outcome) == 7
    ensures env.csvWritten && env.dbWritten && !env.queriesAnswered ==>
      Run(env, prior).outcome == Failure(QueryFailed) && Reached(Run(env, prior).outcome) == 8
  {
  }

  /** No progress message contains a line break. */
  lemma MessagesSingleLine()
    ensures forall i :: 0 <= i < |Messages| ==> '\n' !in Messages[i]
  {
  }

  /** The driver's log calls are, in order, the fixed message list up to the
      last phase boundary the run reached. */
  lemma RunEmits<F>(env: Environment<F>, prior: string)
    ensures Run(env, prior).log == LogAll(prior, env.clock, Messages, Reached(Run(env, prior).outcome))
  {
    var c := env.clock;
    assert LogAll(prior, c, Messages, 1) == LogProgress(prior, c(0), "ETL Process started");
    assert LogAll(prior, c, Messages, 2) == LogProgress(LogAll(prior, c, Messages, 1), c(1), "Extract phase started");
    assert LogAll(prior, c, Messages, 3) == LogProgress(LogAll(prior, c, Messages, 2), c(2), "Extract phase completed");
    assert LogAll(prior, c, Messages, 4) == LogProgress(LogAll(prior, c, Messages, 3), c(3), "Transform phase started");
    assert LogAll(prior, c, Messages, 5) == LogProgress(LogAll(prior, c, Messages, 4), c(4), "Transform phase completed");
    assert LogAll(prior, c, Messages, 6) == LogProgress(LogAll(prior, c, Messages, 5), c(5), "Load phase started");
    assert LogAll(prior, c, Messages, 7) == LogProgress(LogAll(prior, c, Messages, 6), c(6), "Data loaded to .csv file");
    assert LogAll(prior, c, Messages, 8) == LogProgress(LogAll(prior, c, Messages, 7), c(7), "Data loaded to database");
    assert LogAll(prior, c, Messages, 9) == LogProgress(LogAll(prior, c, Messages, 8), c(8), "ETL Process completed successfully");
  }

  /** The log of a run: what was there before is untouched, and exactly the
      phase messages up to the last boundary reached are appended, one line
      each, in the fixed order, stamped with successive clock readings. */
  lemma RunLog<F>(env: Environment<F>, lines: seq<string>)
    ensures |Render(lines)| <= |Run(env, Render(lines)).log|
    ensures Run(env, Render(lines)).log[..|Render(lines)|] == Render(lines)
    ensures Run(env, Render(lines)).log ==
      Render(lines + Stamped(env.clock, Messages, Reached(Run(env, Render(lines)).outcome)))
  {
    var n := Reached(Run(env, Render(lines)).outcome);
    RunEmits(env, Render(lines));
    LogAllSpec(lines, env.clock, Messages, n);
  }

  /** Whatever the log file held before, a run leaves it as a prefix and
      appends the stamped phase messages up to the last boundary reached. */
  lemma RunAppends<F>(env: Environment<F>, prior: string)
    ensures |prior| <= |Run(env, prior).log|
    ensures Run(env, prior).log[..|prior|] == prior
    ensures Run(env, prior).log == prior + Render(Stamped(env.clock, Messages, Reached(Run(env, prior).outcome)))
  {
    RunEmits(env, prior);
    LogAllAppends(prior, env.clock, Messages, Reached(Run(env, prior).outcome));
  }

  /** Read back line by line, the log after a run is the earlier lines
      followed by the stamped phase messages, as long as neither the earlier
      lines nor the clock readings contain line breaks. */
  lemma RunLogLines<F>(env: Environment<F>, lines: seq<string>)
    requires forall i :: 0 <= i < |lines| ==> '\n' !in lines[i]
    requires forall i :: '\n' !in env.clock(i)
    ensures Lines(Run(env, Render(lines)).log) ==
      lines + Stamped(env.clock, Messages, Reached(Run(env, Render(lines)).outcome))
  {
    var n := Reached(Run(env, Render(lines)).outcome);
    RunEmits(env, Render(lines));
    MessagesSingleLine();
    LogAllLines(lines, env.clock, Messages, n);
  }
}
