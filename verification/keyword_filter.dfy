/** The keyword filter run over the collected postings once scraping is over:
    a posting is kept when its description is a string whose lower-case form
    contains "relocat" or "visa"; postings are kept in the order collected. */
module KeywordFilter {
  import opened Jobs
  import opened CaseFold

  const Relocat: string := "relocat"
  const Visa: string := "visa"

  /** A keyword appears in the description, each letter in either case. */
  ghost predicate MentionsKeywordIgnoringCase(description: string)
  {
    (exists i :: MatchesAt(description, Relocat, i)) || (exists i :: MatchesAt(description, Visa, i))
  }

  /** The text test applied to a string description: lower-case it, then
      look for either keyword. */
  predicate MentionsKeyword(description: string)
    ensures MentionsKeyword(description) <==> MentionsKeywordIgnoringCase(description)
  {
    ContainsLowerIff(description, Relocat);
    ContainsLowerIff(description, Visa);
    var lowered := Lower(description);
    Contains(lowered, Relocat) || Contains(lowered, Visa)
  }

  /** The keep decision for one posting: a string description that mentions a
      keyword. `None` and non-string descriptions are dropped. */
  predicate Keep(job: JobRecord)
    ensures Keep(job) <==> job.description.Str? && MentionsKeywordIgnoringCase(job.description.s)
  {
    job.description.Str? && MentionsKeyword(job.description.s)
  }

  /** The postings the filter keeps, specified one posting at a time in the
      order the loop visits them: the result for a list is the result for all
      but its last posting, followed by the last posting if it is kept. */
  function FilterJobs(jobs: seq<JobRecord>): (kept: seq<JobRecord>)
    ensures |kept| <= |jobs|
    ensures forall k :: 0 <= k < |kept| ==> kept[k].description.Str? && Keep(kept[k])
  {
    if jobs == [] then []
    else
      var last := jobs[|jobs| - 1];
      FilterJobs(jobs[..|jobs| - 1]) + (if Keep(last) then [last] else [])
  }

  /** The positions of the kept postings, in increasing order. */
  function KeptIndices(jobs: seq<JobRecord>): (idx: seq<int>)
    ensures forall k :: 0 <= k < |idx| ==> 0 <= idx[k] < |jobs|
  {
    if jobs == [] then []
    else
      var n := |jobs| - 1;
      KeptIndices(jobs[..n]) + (if Keep(jobs[n]) then [n] else [])
  }

  /** `kept` is the subsequence of `jobs` at the strictly increasing positions
      `idx`, and those positions are exactly the ones whose posting passes the
      keep test. */
  ghost predicate SelectsKept(jobs: seq<JobRecord>, kept: seq<JobRecord>, idx: seq<int>)
  {
    && |idx| == |kept|
    && (forall k :: 0 <= k < |idx| ==> 0 <= idx[k] < |jobs| && kept[k] == jobs[idx[k]])
    && (forall k, l :: 0 <= k < l < |idx| ==> idx[k] < idx[l])
    && (forall i :: 0 <= i < |jobs| ==> (i in idx <==> Keep(jobs[i])))
  }

  /** The filter's result is the order-preserving subsequence of the input
      made of exactly the postings that pass the keep test: sound (nothing
      else), complete (every such posting), unmodified and in input order. */
  lemma {:induction false} FilterSelectsKept(jobs: seq<JobRecord>)
    ensures SelectsKept(jobs, FilterJobs(jobs), KeptIndices(jobs))
  {
    if jobs != [] {
      var n := |jobs| - 1;
      var prefix := jobs[..n];
      FilterSelectsKept(prefix);
      var kp, ip := FilterJobs(prefix), KeptIndices(prefix);
      assert forall i :: 0 <= i < n ==> prefix[i] == jobs[i];
      if Keep(jobs[n]) {
        SelectsKeptExtend(jobs, kp, ip, [jobs[n]], [n]);
      } else {
        SelectsKeptExtend(jobs, kp, ip, [], []);
      }
    }
  }

  /** The inductive step of `FilterSelectsKept`: the positions picked from the
      first n postings, plus position n exactly when posting n is kept. */
  lemma SelectsKeptExtend(jobs: seq<JobRecord>, kp: seq<JobRecord>, ip: seq<int>,
                          tail: seq<JobRecord>, tailIdx: seq<int>)
    requires jobs != []
    requires SelectsKept(jobs[..|jobs| - 1], kp, ip)
    requires Keep(jobs[|jobs| - 1]) ==> tail == [jobs[|jobs| - 1]] && tailIdx == [|jobs| - 1]
    requires !Keep(jobs[|jobs| - 1]) ==> tail == [] && tailIdx == []
    ensures SelectsKept(jobs, kp + tail, ip + tailIdx)
  {
    var n := |jobs| - 1;
    var kept, idx := kp + tail, ip + tailIdx;
    forall k | 0 <= k < |idx|
      ensures 0 <= idx[k] < |jobs| && kept[k] == jobs[idx[k]]
    {
      if k < |ip| {
        assert kept[k] == kp[k] == jobs[..n][ip[k]];
      }
    }
    forall i | 0 <= i < |jobs|
      ensures i in idx <==> Keep(jobs[i])
    {
      if i < n {
        assert jobs[..n][i] == jobs[i];
        assert i in idx <==> i in ip;
      } else {
        assert n !in ip;
      }
    }
  }

  /** Two strictly increasing sequences with the same elements are equal. */
  lemma {:induction false} IncreasingSameElements(a: seq<int>, b: seq<int>)
    requires forall k, l :: 0 <= k < l < |a| ==> a[k] < a[l]
    requires forall k, l :: 0 <= k < l < |b| ==> b[k] < b[l]
    requires forall x :: x in a <==> x in b
    ensures a == b
    decreases |a| + |b|
  {
    assert a != [] ==> a[0] in a;
    assert b != [] ==> b[0] in b;
    if a != [] && b != [] {
      var la, lb := a[|a| - 1], b[|b| - 1];
      assert la in b;
      assert lb in a;
      assert la == lb;
      var a', b' := a[..|a| - 1], b[..|b| - 1];
      forall x
        ensures x in a' <==> x in b'
      {
        if x in a' {
          assert x in b;
          assert x != lb;
        }
        if x in b' {
          assert x in a;
          assert x != la;
        }
      }
      IncreasingSameElements(a', b');
      assert a == a' + [la] && b == b' + [lb];
    }
  }

  /** The keep-test subsequence is unique: any list that picks out exactly the
      kept postings, in input order, is the filter's result. */
  lemma {:induction false} FilterUnique(jobs: seq<JobRecord>, kept: seq<JobRecord>, idx: seq<int>)
    requires SelectsKept(jobs, kept, idx)
    ensures kept == FilterJobs(jobs)
  {
    FilterSelectsKept(jobs);
    var ki := KeptIndices(jobs);
    forall x
      ensures x in idx <==> x in ki
    {
      if x in idx {
        var k :| 0 <= k < |idx| && idx[k] == x;
        assert 0 <= x < |jobs|;
      }
      if x in ki {
        var k :| 0 <= k < |ki| && ki[k] == x;
        assert 0 <= x < |jobs|;
      }
    }
    IncreasingSameElements(idx, ki);
  }

  /** Every posting passing the keep test appears in the result. */
  lemma FilterComplete(jobs: seq<JobRecord>, i: int)
    requires 0 <= i < |jobs| && Keep(jobs[i])
    ensures jobs[i] in FilterJobs(jobs)
  {
    FilterSelectsKept(jobs);
    var idx := KeptIndices(jobs);
    assert i in idx;
    var k :| 0 <= k < |idx| && idx[k] == i;
    assert FilterJobs(jobs)[k] == jobs[i];
  }

  /** Counted with repetitions: a kept posting occurs in the result as often
      as in the input, any other posting not at all. */
  lemma {:induction false} FilterCounts(jobs: seq<JobRecord>, r: JobRecord)
    ensures multiset(FilterJobs(jobs))[r] == if Keep(r) then multiset(jobs)[r] else 0
  {
    if jobs != [] {
      var n := |jobs| - 1;
      FilterCounts(jobs[..n], r);
      assert jobs == jobs[..n] + [jobs[n]];
    }
  }

  /** Filtering commutes with concatenation: postings collected later never
      change the decision about earlier ones. */
  lemma {:induction false} FilterConcat(a: seq<JobRecord>, b: seq<JobRecord>)
    ensures FilterJobs(a + b) == FilterJobs(a) + FilterJobs(b)
  {
    if b == [] {
      assert a + b == a;
    } else {
      var n := |b| - 1;
      FilterConcat(a, b[..n]);
      assert (a + b)[..|a + b| - 1] == a + b[..n];
    }
  }

  /** A list whose every posting passes the keep test is left as it is. */
  lemma {:induction false} FilterKeepsAllKept(jobs: seq<JobRecord>)
    requires forall k :: 0 <= k < |jobs| ==> Keep(jobs[k])
    ensures FilterJobs(jobs) == jobs
  {
    if jobs != [] {
      var n := |jobs| - 1;
      FilterKeepsAllKept(jobs[..n]);
      assert jobs == jobs[..n] + [jobs[n]];
    }
  }

  /** Filtering twice is filtering once. */
  lemma FilterIdempotent(jobs: seq<JobRecord>)
    ensures FilterJobs(FilterJobs(jobs)) == FilterJobs(jobs)
  {
    FilterKeepsAllKept(FilterJobs(jobs));
  }

  /** Nothing is dropped exactly when every posting passes the keep test. */
  lemma {:induction false} FilterKeepsLengthIffAllKept(jobs: seq<JobRecord>)
    ensures |FilterJobs(jobs)| == |jobs| <==> forall k :: 0 <= k < |jobs| ==> Keep(jobs[k])
  {
    if jobs != [] {
      var n := |jobs| - 1;
      FilterKeepsLengthIffAllKept(jobs[..n]);
      assert forall k :: 0 <= k < n ==> jobs[..n][k] == jobs[k];
    }
  }

  /** The keyword test ignores letter case. */
  lemma MentionsKeywordIgnoresCase(a: string, b: string)
    requires CaseVariant(a, b)
    ensures MentionsKeyword(a) == MentionsKeyword(b)
  {
    LowerIgnoresCase(a, b);
  }

  /** In particular, an upper-cased description is kept exactly when the
      original is. */
  lemma MentionsKeywordUpper(description: string)
    ensures MentionsKeyword(Upper(description)) == MentionsKeyword(description)
  {
    MentionsKeywordIgnoresCase(description, Upper(description));
  }

  /** Two postings whose descriptions are both non-strings, or both strings
      equal up to letter case. */
  predicate SameDescriptionIgnoringCase(a: JobRecord, b: JobRecord)
  {
    match (a.description, b.description)
    case (Str(x), Str(y)) => CaseVariant(x, y)
    case (Str(_), _) => false
    case (_, Str(_)) => false
    case _ => true
  }

  /** Changing the letter case of descriptions (or anything else but the
      description) does not change which positions are kept. */
  lemma {:induction false} KeptIndicesIgnoreCase(a: seq<JobRecord>, b: seq<JobRecord>)
    requires |a| == |b|
    requires forall k :: 0 <= k < |a| ==> SameDescriptionIgnoringCase(a[k], b[k])
    ensures KeptIndices(a) == KeptIndices(b)
  {
    if a != [] {
      var n := |a| - 1;
      KeptIndicesIgnoreCase(a[..n], b[..n]);
      if a[n].description.Str? {
        MentionsKeywordIgnoresCase(a[n].description.s, b[n].description.s);
      }
    }
  }

  /** One more step of the loop: the result for a longer prefix extends the
      result for the shorter one by at most the posting just visited. */
  lemma FilterStep(jobs: seq<JobRecord>, i: int)
    requires 0 <= i < |jobs|
    ensures FilterJobs(jobs[..i + 1]) == FilterJobs(jobs[..i]) + (if Keep(jobs[i]) then [jobs[i]] else [])
  {
    assert jobs[..i + 1][..i] == jobs[..i];
  }

  /** The filter loop: visit the collected postings in order and append each
      one that passes the keep test. Its result is the specification above,
      so every lemma about `FilterJobs` holds of it. */
  method FilterListings(jobListings: seq<JobRecord>) returns (filtered: seq<JobRecord>)
    ensures filtered == FilterJobs(jobListings)
  {
    filtered := [];
    for i := 0 to |jobListings|
      invariant filtered == FilterJobs(jobListings[..i])
    {
      var job := jobListings[i];
      FilterStep(jobListings, i);
      if Keep(job) {
        filtered := filtered + [job];
      }
    }
    assert jobListings[..|jobListings|] == jobListings;
  }
}

module KeywordFilterExamples {
  import opened CaseFold
  import opened KeywordFilter

  /** A description that opens with "Relocation" is kept. */
  lemma RelocationExample()
    ensures MentionsKeyword("Relocation assistance provided")
  {
    assert Lower("Relocation assistance provided")[0..7] == "relocat";
    assert OccursAt(Lower("Relocation assistance provided"), Relocat, 0);
  }

  /** An upper-case "VISA" is found. */
  lemma VisaExample()
    ensures MentionsKeyword("VISA sponsorship")
  {
    assert Lower("VISA sponsorship")[0..4] == "visa";
    assert OccursAt(Lower("VISA sponsorship"), Visa, 0);
  }

  /** A description with neither keyword is dropped. */
  lemma RemoteExample()
    ensures !MentionsKeyword("Remote position")
  {
    var l := Lower("Remote position");
    assert l == "remote position";
    forall i | 0 <= i && i + |Relocat| <= |l|
      ensures !OccursAt(l, Relocat, i)
    {
      assert l[i + 2] != 'l';
      assert l[i..i + |Relocat|][2] == l[i + 2];
    }
    forall i | 0 <= i && i + |Visa| <= |l|
      ensures !OccursAt(l, Visa, i)
    {
      assert l[i] != 'v';
      assert l[i..i + |Visa|][0] == l[i];
    }
  }
}
