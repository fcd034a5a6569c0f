/** The jobs page: the signed-in user's job applications, narrowed by a status
    filter and a search box, each shown with a coloured, capitalised status badge. */
module JobsPage {
  import opened JsValues
  import opened Strings
  import opened Records
  import Seqs

  /** `getStatusColor`: the badge colour of a status. */
  function StatusColor(status: string): string {
    match status
    case "applied" => "bg-green-600"
    case "interviewing" => "bg-amber-500"
    case "rejected" => "bg-red-600"
    case _ => "bg-gray-400"
  }

  /** The three declared statuses get three different colours, none of them the
      fallback grey, and any other status text (the server stores whatever it
      is sent) gets the grey. */
  lemma StatusColors(status: string)
    ensures StatusColor(Applied.Name()) != StatusColor(Interviewing.Name())
    ensures StatusColor(Applied.Name()) != StatusColor(Rejected.Name())
    ensures StatusColor(Interviewing.Name()) != StatusColor(Rejected.Name())
    ensures StatusColor(status) == "bg-gray-400" <==>
      status != Applied.Name() && status != Interviewing.Name() && status != Rejected.Name()
  {
  }

  /** `status.charAt(0).toUpperCase() + status.slice(1)`; the empty status gives "". */
  function Capitalize(s: string): (r: string)
    ensures |r| == |s|
    ensures |s| > 0 ==> r[0] == UpperChar(s[0]) && r[1..] == s[1..]
  {
    if s == "" then "" else [UpperChar(s[0])] + s[1..]
  }

  /** The badge of a declared status reads like the status filter's option for it. */
  lemma StatusLabels()
    ensures Capitalize(Applied.Name()) == "Applied"
    ensures Capitalize(Interviewing.Name()) == "Interviewing"
    ensures Capitalize(Rejected.Name()) == "Rejected"
  {
    assert Capitalize("applied") == ['A'] + "pplied";
    assert Capitalize("interviewing") == ['I'] + "nterviewing";
    assert Capitalize("rejected") == ['R'] + "ejected";
  }

  // ---------------------------------------------------------------------------
  // Filtering

  /** The status filter: "all" keeps every job, any other value keeps the jobs with exactly that status. */
  predicate KeepStatus(statusFilter: string, job: Job) {
    statusFilter == "all" || job.status == statusFilter
  }

  /** The search box counts only when it holds something besides whitespace. */
  predicate SearchActive(searchTerm: string) {
    Trim(searchTerm) != ""
  }

  /** Case-insensitive substring match against company or position. The term is
      matched as typed: it is lowered but not trimmed. */
  predicate MatchesSearch(searchTerm: string, job: Job) {
    Contains(Lower(job.company), Lower(searchTerm)) || Contains(Lower(job.position), Lower(searchTerm))
  }

  predicate Shows(statusFilter: string, searchTerm: string, job: Job) {
    KeepStatus(statusFilter, job) && (SearchActive(searchTerm) ==> MatchesSearch(searchTerm, job))
  }

  /** The jobs the list shows, in the order they were fetched. */
  function Visible(jobs: seq<Job>, statusFilter: string, searchTerm: string): seq<Job> {
    Seqs.Filter(jobs, job => Shows(statusFilter, searchTerm, job))
  }

  /** A job is listed exactly when it was fetched, passes the status filter and,
      when the search is active, matches the term. */
  lemma VisibleIff(jobs: seq<Job>, statusFilter: string, searchTerm: string, job: Job)
    ensures job in Visible(jobs, statusFilter, searchTerm) <==>
      job in jobs && KeepStatus(statusFilter, job) && (SearchActive(searchTerm) ==> MatchesSearch(searchTerm, job))
  {
    Seqs.FilterMembership(jobs, j => Shows(statusFilter, searchTerm, j), job);
  }

  /** The list keeps the fetched order: it is a subsequence of the fetched jobs. */
  lemma VisibleKeepsOrder(jobs: seq<Job>, statusFilter: string, searchTerm: string)
    ensures Seqs.IsSubsequence(Visible(jobs, statusFilter, searchTerm), jobs)
  {
    Seqs.FilterIsSubsequence(jobs, j => Shows(statusFilter, searchTerm, j));
  }

  /** With the status filter on "all" and a blank search box, every fetched job is listed. */
  lemma NoFilterShowsAll(jobs: seq<Job>, searchTerm: string)
    requires AllSpace(searchTerm)
    ensures Visible(jobs, "all", searchTerm) == jobs
  {
    TrimEmptyIff(searchTerm);
    Seqs.FilterAll(jobs, j => Shows("all", searchTerm, j));
  }

  /** A declared status as filter lists only jobs with that status. */
  lemma StatusFilterHolds(jobs: seq<Job>, status: JobStatus, searchTerm: string)
    ensures forall job :: job in Visible(jobs, status.Name(), searchTerm) ==> job.status == status.Name()
  {
    forall job | job in Visible(jobs, status.Name(), searchTerm) ensures job.status == status.Name() {
      VisibleIff(jobs, status.Name(), searchTerm, job);
    }
  }

  /** What `/api/jobs` answers, once `res.json()` has run (or thrown). */
  datatype JobsReply = JsonArray(rows: seq<Job>) | JsonOther | Thrown

  /** The page's state. */
  class Page {
    var jobs: seq<Job>
    var filteredJobs: seq<Job>
    var statusFilter: string
    var searchTerm: string

    /** The filtering effect has run on the current state. */
    ghost predicate Valid()
      reads this
    {
      filteredJobs == Visible(jobs, statusFilter, searchTerm)
    }

    constructor ()
      ensures Valid()
      ensures jobs == [] && filteredJobs == [] && statusFilter == "all" && searchTerm == ""
    {
      jobs, filteredJobs, statusFilter, searchTerm := [], [], "all", "";
    }

    /** The effect on `[jobs, statusFilter, searchTerm]`: the status filter, then the search. */
    method ApplyFilters()
      modifies this
      ensures Valid()
      ensures jobs == old(jobs) && statusFilter == old(statusFilter) && searchTerm == old(searchTerm)
    {
      var status, term := statusFilter, searchTerm;
      var filtered := jobs;
      if status != "all" {
        filtered := Seqs.Filter(filtered, (job: Job) => job.status == status);
      }
      if Trim(term) != "" {
        filtered := Seqs.Filter(filtered, (job: Job) => MatchesSearch(term, job));
      }
      ghost var shows := (job: Job) => Shows(status, term, job);
      if status != "all" && Trim(term) != "" {
        Seqs.FilterFilter(jobs, (job: Job) => job.status == status, (job: Job) => MatchesSearch(term, job), shows);
      } else if status != "all" {
        Seqs.FilterCongruent(jobs, (job: Job) => job.status == status, shows);
      } else if Trim(term) != "" {
        Seqs.FilterCongruent(jobs, (job: Job) => MatchesSearch(term, job), shows);
      } else {
        Seqs.FilterAll(jobs, shows);
      }
      filteredJobs := filtered;
    }

    /** `fetchJobs`: an array answer replaces the jobs, any other JSON empties
        them, and a failed request or body leaves them as they were. */
    method FetchJobs(reply: JobsReply)
      modifies this
      ensures Valid()
      ensures reply.JsonArray? ==> jobs == reply.rows
      ensures reply.JsonOther? ==> jobs == []
      ensures reply.Thrown? ==> jobs == old(jobs)
      ensures statusFilter == old(statusFilter) && searchTerm == old(searchTerm)
    {
      match reply {
        case JsonArray(rows) => jobs := rows;
        case JsonOther => jobs := [];
        case Thrown =>
      }
      ApplyFilters();
    }

    /** The status select's `onValueChange`. */
    method SetStatusFilter(value: string)
      modifies this
      ensures Valid()
      ensures statusFilter == value && jobs == old(jobs) && searchTerm == old(searchTerm)
    {
      statusFilter := value;
      ApplyFilters();
    }

    /** The search box's `onChange`. */
    method SetSearchTerm(value: string)
      modifies this
      ensures Valid()
      ensures searchTerm == value && jobs == old(jobs) && statusFilter == old(statusFilter)
    {
      searchTerm := value;
      ApplyFilters();
    }
  }
}
