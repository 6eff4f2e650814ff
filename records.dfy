/** The report record: one municipality page of one report PDF, as the
    extractor writes it to the dataset and the query service loads it. */
module Records {
  import opened Wrappers

  /** One record of the dataset. `pdf` is the source file's path and `page`
      its 1-based page number. `slug` is absent in what the extractor writes
      and is filled in by the query service when it loads the dataset. */
  datatype Report = Report(
    municipality: string,
    county: Option<string>,
    accredited: Option<bool>,
    updated: Option<string>,
    planYear: Option<int>,
    reportYear: Option<int>,
    pdf: string,
    page: int,
    slug: Option<string>)
}
