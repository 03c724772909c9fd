/** The output log `outputs/jobs_log.csv`, seen as a sequence of lines: a
    header line naming the columns, or a data line holding one posting.
    Quoting and the textual layout of a line are not modelled. */
module JobsLogFile {
  import opened Jobs

  datatype Line = Header(columns: seq<string>) | Row(job: JobRecord)

  /** The data lines written for a batch of postings, one per posting, in
      batch order. */
  function Rows(batch: seq<JobRecord>): (lines: seq<Line>)
    ensures |lines| == |batch|
    ensures forall k :: 0 <= k < |batch| ==> lines[k] == Row(batch[k])
  {
    seq(|batch|, k requires 0 <= k < |batch| => Row(batch[k]))
  }

  /** The number of header lines in a file. */
  function HeaderCount(lines: seq<Line>): nat
  {
    if lines == [] then 0
    else HeaderCount(lines[..|lines| - 1]) + (if lines[|lines| - 1].Header? then 1 else 0)
  }

  /** The postings a file holds, in file order (header lines skipped). */
  function Postings(lines: seq<Line>): seq<JobRecord>
  {
    if lines == [] then []
    else
      var last := lines[|lines| - 1];
      Postings(lines[..|lines| - 1]) + (if last.Row? then [last.job] else [])
  }

  /** Appending the data lines of a batch adds no header line. */
  lemma {:induction false} RowsAddNoHeader(lines: seq<Line>, batch: seq<JobRecord>)
    ensures HeaderCount(lines + Rows(batch)) == HeaderCount(lines)
  {
    if batch == [] {
      assert lines + Rows(batch) == lines;
    } else {
      var n := |batch| - 1;
      RowsAddNoHeader(lines, batch[..n]);
      assert (lines + Rows(batch))[..|lines| + n] == lines + Rows(batch[..n]);
    }
  }

  /** Appending the data lines of a batch appends exactly its postings, in
      order, after the ones already in the file. */
  lemma {:induction false} RowsAppendPostings(lines: seq<Line>, batch: seq<JobRecord>)
    ensures Postings(lines + Rows(batch)) == Postings(lines) + batch
  {
    if batch == [] {
      assert lines + Rows(batch) == lines;
    } else {
      var n := |batch| - 1;
      RowsAppendPostings(lines, batch[..n]);
      assert (lines + Rows(batch))[..|lines| + n] == lines + Rows(batch[..n]);
      assert batch == batch[..n] + [batch[n]];
    }
  }

  /** A fresh file holds one header line followed by the data lines. */
  lemma FreshFileShape(batch: seq<JobRecord>)
    ensures HeaderCount([Header(Columns)] + Rows(batch)) == 1
    ensures Postings([Header(Columns)] + Rows(batch)) == batch
  {
    assert HeaderCount([Header(Columns)]) == 1;
    assert Postings([Header(Columns)]) == [];
    RowsAddNoHeader([Header(Columns)], batch);
    RowsAppendPostings([Header(Columns)], batch);
  }

  class JobsLog {
    /** Whether the file exists. */
    var present: bool
    /** The file's lines, oldest first. */
    var lines: seq<Line>

    /** A missing file has no lines. */
    ghost predicate Valid()
      reads this
    {
      !present ==> lines == []
    }

    /** The log as found on disk at the start of a run. */
    constructor (present: bool, lines: seq<Line>)
      requires !present ==> lines == []
      ensures Valid() && this.present == present && this.lines == lines
    {
      this.present := present;
      this.lines := lines;
    }

    /** Write a batch: if the file exists, append its data lines with no
        header; otherwise create the file with a header line followed by the
        data lines. Lines already in the file are never removed, reordered
        or deduplicated. */
    method Save(batch: seq<JobRecord>)
      requires Valid()
      modifies this
      ensures Valid() && present
      ensures old(present) ==> lines == old(lines) + Rows(batch)
      ensures !old(present) ==> lines == [Header(Columns)] + Rows(batch)
      ensures lines[..|old(lines)|] == old(lines)
      ensures Postings(lines) == Postings(old(lines)) + batch
      ensures HeaderCount(lines) == if old(present) then HeaderCount(old(lines)) else 1
    {
      if present {
        RowsAddNoHeader(lines, batch);
        RowsAppendPostings(lines, batch);
        lines := lines + Rows(batch);
      } else {
        FreshFileShape(batch);
        lines := [Header(Columns)] + Rows(batch);
        present := true;
      }
    }
  }
}
