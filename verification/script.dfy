/** The tail of the scheduled script, run once the engine has finished:
    filter what the data callback collected and write it to the log. */
module Script {
  import opened Jobs
  import opened KeywordFilter
  import opened Collecting
  import opened JobsLogFile

  /** Filter the collected postings and save them; the result is the number
      of postings saved, the figure the script reports at the end. */
  method FilterAndSave(collector: Collector, log: JobsLog) returns (saved: nat)
    requires log.Valid()
    modifies log
    ensures log.Valid() && log.present
    ensures saved == |FilterJobs(collector.listings)|
    ensures Postings(log.lines) == Postings(old(log.lines)) + FilterJobs(collector.listings)
    ensures old(log.present) ==> log.lines == old(log.lines) + Rows(FilterJobs(collector.listings))
    ensures !old(log.present) ==> log.lines == [Header(Columns)] + Rows(FilterJobs(collector.listings))
  {
    var filtered := FilterListings(collector.listings);
    log.Save(filtered);
    saved := |filtered|;
  }
}
