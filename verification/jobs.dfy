/** The values the scraping script handles: the event the scraping engine
    pushes for each posting, and the flat record the script keeps for it. */
module Jobs {

  /** A field value as the engine hands it over. The engine is free to give a
      string, `None`, or some other object; the script only ever asks whether
      a value is a string, so every non-string other than `None` is one case. */
  datatype Value = Str(s: string) | NoneValue | NonString

  /** The part of the engine's data event the script reads. */
  datatype EventData = EventData(
    title: Value,
    company: Value,
    companyLink: Value,
    dateText: Value,
    link: Value,
    description: Value)

  /** One collected posting: the capture time plus six fields copied from the
      event, in the order the script lays them out (which is also the order
      of the columns written to the log). */
  datatype JobRecord = JobRecord(
    timestamp: string,
    title: Value,
    company: Value,
    companyLink: Value,
    dateText: Value,
    link: Value,
    description: Value)

  /** The column names of a record, in order. */
  const Columns: seq<string> :=
    ["timestamp", "title", "company", "company_link", "date_text", "link", "description"]
}
