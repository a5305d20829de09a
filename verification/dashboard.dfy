/** The instructor dashboard's reduction over the exam list: total exams, total
    submissions, the rounded average per exam and the first five activity entries. */
module Dashboard {
  import opened Basics
  import opened Records
  import Text

  /** What fetching one exam's results gave: the decoded list (possibly `null`), or an
      exception. */
  datatype Fetch = Fetched(results: Option<seq<Submission>>) | FetchFailed

  /** `results ? results.length : 0`, and 0 when the fetch raised. */
  function FetchedCount(f: Fetch): nat {
    match f
    case Fetched(Some(results)) => |results|
    case Fetched(None) => 0
    case FetchFailed => 0
  }

  datatype ActivityEntry = ActivityEntry(name: string, submissions: nat)

  datatype DashboardStats = DashboardStats(
    totalExams: nat,
    totalSubmissions: nat,
    avgSubmissions: nat,
    recentActivity: seq<ActivityEntry>)

  const InitialStats: DashboardStats := DashboardStats(0, 0, 0, [])

  /** Number of entries shown in the activity chart. */
  const RecentCount: nat := 5

  /** Sum of the per-exam submission counts. */
  function TotalOf(entries: seq<ActivityEntry>): nat {
    if entries == [] then 0
    else TotalOf(entries[..|entries| - 1]) + entries[|entries| - 1].submissions
  }

  lemma TotalOfAppend(counts: seq<ActivityEntry>, entry: ActivityEntry)
    ensures TotalOf(counts + [entry]) == TotalOf(counts) + entry.submissions
  {
    assert (counts + [entry])[..|counts|] == counts;
  }

  /** `Math.round(total / n)` with halves rounded up, and 0 for an empty exam list. */
  function RoundedAverage(total: nat, n: nat): (r: nat)
    ensures n == 0 ==> r == 0
    ensures n > 0 ==> 2 * n * r <= 2 * total + n < 2 * n * r + 2 * n
  {
    if n == 0 then 0 else (2 * total + n) / (2 * n)
  }

  /** `loadExams`: `listing` is the exam list fetch (`None` when it raised, which leaves
      the previous statistics in place) and `fetch` answers the per-exam results fetch.
      Also returns the full `submissionCounts` list the activity chart is cut from. */
  method LoadExams(prev: DashboardStats, listing: Option<seq<Exam>>, fetch: int -> Fetch)
    returns (stats: DashboardStats, counts: seq<ActivityEntry>)
    ensures listing.None? ==> stats == prev && counts == []
    ensures listing.Some? ==> |counts| == |listing.value|
    ensures listing.Some? ==> forall i :: 0 <= i < |counts| ==>
      counts[i] == ActivityEntry(Text.ToUpper(listing.value[i].title),
                                 FetchedCount(fetch(listing.value[i].id)))
    ensures listing.Some? ==> stats.totalExams == |listing.value|
    ensures listing.Some? ==> stats.totalSubmissions == TotalOf(counts)
    ensures listing.Some? ==> stats.avgSubmissions == RoundedAverage(TotalOf(counts), |counts|)
    ensures listing.Some? ==> stats.recentActivity == counts[..Min(RecentCount, |counts|)]
  {
    if listing.None? {
      return prev, [];
    }
    var exams := listing.value;
    var total: nat := 0;
    counts := [];
    for i := 0 to |exams|
      invariant |counts| == i
      invariant forall k :: 0 <= k < i ==>
        counts[k] == ActivityEntry(Text.ToUpper(exams[k].title), FetchedCount(fetch(exams[k].id)))
      invariant total == TotalOf(counts)
    {
      var count := FetchedCount(fetch(exams[i].id));
      var entry := ActivityEntry(Text.ToUpper(exams[i].title), count);
      TotalOfAppend(counts, entry);
      total := total + count;
      counts := counts + [entry];
    }
    var avg := if |exams| > 0 then (2 * total + |exams|) / (2 * |exams|) else 0;
    stats := DashboardStats(|exams|, total, avg, counts[..Min(RecentCount, |counts|)]);
  }

  /** When every exam has the same count `k`, the average is exactly `k`. */
  lemma {:induction false} UniformAverage(counts: seq<ActivityEntry>, k: nat)
    requires |counts| > 0
    requires forall i :: 0 <= i < |counts| ==> counts[i].submissions == k
    ensures RoundedAverage(TotalOf(counts), |counts|) == k
  {
    UniformTotal(counts, k);
    var n := |counts|;
    var r := RoundedAverage(TotalOf(counts), n);
    assert 2 * n * r <= 2 * n * k + n < 2 * n * r + 2 * n;
    assert r <= k by {
      if r > k { MulMonotone(2 * n, k + 1, r); }
    }
    assert r >= k by {
      if r < k { MulMonotone(2 * n, r + 1, k); }
    }
  }

  lemma MulMonotone(a: nat, b: nat, c: nat)
    requires b <= c
    ensures a * b <= a * c
  {
  }

  lemma {:induction false} UniformTotal(counts: seq<ActivityEntry>, k: nat)
    requires forall i :: 0 <= i < |counts| ==> counts[i].submissions == k
    ensures TotalOf(counts) == |counts| * k
  {
    if counts != [] {
      UniformTotal(counts[..|counts| - 1], k);
    }
  }
}
