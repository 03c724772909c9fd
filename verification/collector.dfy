/** The in-memory buffer the data callback fills while the scraping engine
    runs. The engine itself is not modelled: each data event it pushes is a
    call of `OnData`, and the capture time is handed in with it. */
module Collecting {
  import opened Jobs
  import opened KeywordFilter

  class Collector {
    /** The collected postings, oldest first. */
    var listings: seq<JobRecord>

    /** An empty buffer, as at the start of a run. */
    constructor ()
      ensures listings == []
    {
      listings := [];
    }

    /** The data callback: append one flat record made of the capture time
        and six fields of the event. Nothing is validated or deduplicated
        here; a record whose description is not a string is appended too. */
    method OnData(data: EventData, timestamp: string)
      modifies this
      ensures |listings| == |old(listings)| + 1
      ensures listings[..|old(listings)|] == old(listings)
      ensures var r := listings[|listings| - 1];
        && r.timestamp == timestamp
        && r.title == data.title
        && r.company == data.company
        && r.companyLink == data.companyLink
        && r.dateText == data.dateText
        && r.link == data.link
        && r.description == data.description
      ensures FilterJobs(listings) ==
        FilterJobs(old(listings)) + FilterJobs([listings[|listings| - 1]])
    {
      var record := JobRecord(
        timestamp,
        data.title,
        data.company,
        data.companyLink,
        data.dateText,
        data.link,
        data.description);
      FilterConcat(listings, [record]);
      listings := listings + [record];
    }
  }
}
