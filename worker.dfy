// The background worker's one step: parse the CSV text and, only when no row
// failed, compute the monthly wages with the default parameters.

module Worker {
  import opened Wrappers
  import opened Text
  import opened Params
  import opened Parser
  import opened Wages

  /** `WorkerResult`; `None` stands for `null`. */
  datatype WorkerResult = WorkerResult(
    errors: Option<seq<ParseErrorOnRow>>,
    monthlyWages: Option<seq<MonthWageInfo>>)

  /**
   * The worker's handler: the parse errors and no wages when any row failed,
   * otherwise no errors and the wages of the parsed entries.
   */
  function Run(csv: string): (r: WorkerResult)
    ensures r.errors.Some? != r.monthlyWages.Some?
    ensures r.errors.Some? <==> AnyFailed(RowResults(Rows(csv)))
    ensures r.errors.Some? ==> r.errors == ParseHourEntryCsv(csv).errors
    ensures r.monthlyWages.Some? ==>
              var es := ParseHourEntryCsv(csv).entries.value;
              r.monthlyWages.value == CalculateWage(es, DefaultParams)
  {
    var parsed := ParseHourEntryCsv(csv);
    if parsed.HasErrors() then WorkerResult(parsed.errors, None)
    else WorkerResult(None, Some(CalculateWage(parsed.entries.value, DefaultParams)))
  }

  /** Whitespace around the text does not change what the worker answers. */
  lemma RunIgnoresPadding(before: string, csv: string, after: string)
    requires AllWhitespace(before) && AllWhitespace(after)
    ensures Run(before + csv + after) == Run(csv)
  {
    ParseIgnoresPadding(before, csv, after);
  }

  /**
   * When the worker answers with wages, every row of the text is paid for:
   * its entry lies in some day cell of the report.
   */
  lemma EveryRowPaid(csv: string, n: nat)
    requires Run(csv).monthlyWages.Some?
    requires n < |Rows(csv)|
    ensures var es := ParseHourEntryCsv(csv).entries.value;
      var r := Run(csv).monthlyWages.value;
      && n < |es|
      && RowResults(Rows(csv))[n] == Parsed(es[n])
      && exists i, j, k :: IsCell(r, i, j, k) && es[n] in CellEntries(es, r, i, j, k)
  {
    var es := ParseHourEntryCsv(csv).entries.value;
    EntryCounted(es, DefaultParams, n);
  }
}
