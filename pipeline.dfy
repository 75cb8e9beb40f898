/**
 * The orchestrator: given the downloaded text (None when the download failed),
 * parse it, stop when there is no content or no record, and otherwise run the
 * three analyzers on all records.
 */
module Pipeline {
  import opened Opt
  import opened LogRecords
  import opened Images
  import opened Browsers
  import opened HourlyHits

  datatype Outcome =
    | NoContent
    | NoRecords
    | Analysed(records: seq<LogRecord>, images: ImageShare, browsers: BrowserReport, hours: HourlyReport)

  method Run(content: Option<string>) returns (outcome: Outcome)
    ensures outcome.NoContent? <==> content.None?
    ensures outcome.NoRecords? <==> content.Some? && ParseContent(content.value).records == []
    ensures content == Some("") ==> outcome.NoRecords?
    ensures outcome.Analysed? ==>
              content.Some? && outcome.records == ParseContent(content.value).records &&
              outcome.records != [] &&
              outcome.images == ImageReport(outcome.records) && outcome.images.Share? &&
              outcome.browsers == BrowserReportOf(outcome.records) && !outcome.browsers.NoBrowserRecords? &&
              outcome.hours == HourlyReportOf(outcome.records) && outcome.hours.Ranking?
  {
    if content.None? {
      return NoContent;
    }
    var data, failed := ProcessData(content.value);
    if data == [] {
      return NoRecords;
    }
    var hours := ReportHourlyHits(data);
    outcome := Analysed(data, ImageReport(data), BrowserReportOf(data), hours);
  }
}
