/**
 Release admission: the latest matching push run, the complete inventory of its jobs, and the
 double read that keeps both valid against a service that changes meanwhile.
 */
module ReleaseCi {
  import opened Prelude

  // ----- What the service returns -----

  /** A workflow run; absent text fields are empty, and an absent attempt is `None`. */
  datatype Run = Run(
    id: int, attempt: Option<int>, headSha: string, headBranch: string, event: string,
    repository: string, status: string, conclusion: string, url: string)

  datatype Job = Job(
    id: Option<int>, runId: Option<int>, runAttempt: Option<int>, headSha: string,
    name: string, status: string, conclusion: string)

  datatype JobPage = JobPage(totalCount: Option<int>, jobs: seq<Job>)

  datatype Workflow = Ci | Application

  const REQUIRED_WORKFLOWS: seq<Workflow> := [Ci, Application]
  const OPTIONAL_SKIPPED_JOB := "conversation-profile"

  const REQUIRED_CI: set<string> := {
    "Check & Lint", "Test", "PostgreSQL Runtime Store",
    "Native Sandbox (macOS)", "Native Sandbox (Linux)", "Native Sandbox (Windows)",
    "Release Build", "Dashboard", "Technical Website",
    "Isolated native compiler and source contracts",
    "Stable IO, PostgreSQL and old-writer isolation",
    "Actual Runtime browser prerequisites and remaining interactions",
    "Public pinned OCR acquisition and real Desktop reader",
    "Isolated Linux native and timing regression diagnosis",
    "Isolated macOS iframe, manager and native control diagnosis",
    "Intel macOS fresh signatures and native Notes stability",
    "Intel macOS mounted resource and view stability",
    "Intel macOS mounted resource and view pass 1", "Intel macOS mounted resource and view pass 2",
    "Intel macOS mounted resource and view pass 3", "Intel macOS mounted resource and view pass 4",
    "Intel macOS mounted resource and view pass 5",
    "Installed service and actual Runtime exec / PTY",
    "Typed compiler and actual AppArmor literal paths"}

  const REQUIRED_APPLICATION: set<string> := {
    "Shared application full Node inventory",
    "Complete Linux Node inventory (1/2)", "Complete Linux Node inventory (2/2)",
    "Complete Web browser inventory (1/2)", "Complete Web browser inventory (2/2)",
    "Shared application and Web", "Application storage (PostgreSQL)",
    "Embedded Desktop (macOS)", "Cognitive application and actual Runtime contracts",
    "Application and Runtime contract",
    "Complete macOS Node inventory (1/4)", "Complete macOS Node inventory (2/4)",
    "Complete macOS Node inventory (3/4)", "Complete macOS Node inventory (4/4)",
    "Embedded Desktop native (macOS)"}

  /** The job names each workflow must show. */
  datatype Policy = Policy(ci: set<string>, application: set<string>) {
    function For(workflow: Workflow): set<string> {
      match workflow
      case Ci => ci
      case Application => application
    }
  }

  const REQUIRED_JOBS := Policy(REQUIRED_CI, REQUIRED_APPLICATION)

  function Flatten<T>(pages: seq<seq<T>>): seq<T> {
    if pages == [] then [] else Flatten(pages[..|pages| - 1]) + pages[|pages| - 1]
  }

  /** Every page counts. */
  lemma {:induction false} FlattenExact<T(!new)>(pages: seq<seq<T>>, x: T)
    ensures x in Flatten(pages) <==> exists page | page in pages :: x in page
  {
    if pages != [] {
      FlattenExact(pages[..|pages| - 1], x);
      assert forall page :: page in pages <==> page in pages[..|pages| - 1] || page == pages[|pages| - 1];
    }
  }

  function AllJobs(pages: seq<JobPage>): seq<Job> {
    if pages == [] then [] else AllJobs(pages[..|pages| - 1]) + pages[|pages| - 1].jobs
  }

  /** A job by its page and its place there. */
  datatype Spot = Spot(page: nat, place: nat)

  ghost predicate IsSpot(pages: seq<JobPage>, s: Spot) {
    s.page < |pages| && s.place < |pages[s.page].jobs|
  }

  ghost function Spots(pages: seq<JobPage>): set<Spot> {
    set i: nat, j: nat | i < |pages| && j < |pages[i].jobs| :: Spot(i, j)
  }

  ghost function JobAt(pages: seq<JobPage>, s: Spot): Job
    requires IsSpot(pages, s)
  {
    pages[s.page].jobs[s.place]
  }

  /** Where the job of a spot stands among all jobs. */
  ghost function IndexOf(pages: seq<JobPage>, s: Spot): nat
    requires s.page <= |pages|
  {
    |AllJobs(pages[..s.page])| + s.place
  }

  lemma {:induction false} SpotHasIndex(pages: seq<JobPage>, s: Spot)
    requires IsSpot(pages, s)
    ensures IndexOf(pages, s) < |AllJobs(pages)| && AllJobs(pages)[IndexOf(pages, s)] == JobAt(pages, s)
    ensures |AllJobs(pages[..s.page])| + |pages[s.page].jobs| <= |AllJobs(pages)|
  {
    var n := |pages| - 1;
    if s.page < n {
      SpotHasIndex(pages[..n], s);
      assert pages[..n][..s.page] == pages[..s.page];
    }
  }

  lemma {:induction false} IndexHasSpot(pages: seq<JobPage>, k: nat) returns (s: Spot)
    requires k < |AllJobs(pages)|
    ensures IsSpot(pages, s) && IndexOf(pages, s) == k && AllJobs(pages)[k] == JobAt(pages, s)
  {
    var n := |pages| - 1;
    var front := AllJobs(pages[..n]);
    if k < |front| {
      s := IndexHasSpot(pages[..n], k);
      assert pages[..n][..s.page] == pages[..s.page];
    } else {
      s := Spot(n, k - |front|);
    }
  }

  lemma IndexIsInjective(pages: seq<JobPage>, s: Spot, t: Spot)
    requires IsSpot(pages, s) && IsSpot(pages, t) && IndexOf(pages, s) == IndexOf(pages, t)
    ensures s == t
  {
    if s.page < t.page {
      EarlierPage(pages, s, t);
    } else if t.page < s.page {
      EarlierPage(pages, t, s);
    }
  }

  lemma EarlierPage(pages: seq<JobPage>, s: Spot, t: Spot)
    requires IsSpot(pages, s) && IsSpot(pages, t) && s.page < t.page
    ensures IndexOf(pages, s) < IndexOf(pages, t)
  {
    SpotHasIndex(pages[..t.page], s);
    assert pages[..t.page][..s.page] == pages[..s.page];
  }

  /** There are as many jobs as spots. */
  lemma {:induction false} SpotsCount(pages: seq<JobPage>)
    ensures |Spots(pages)| == |AllJobs(pages)|
  {
    if pages == [] {
      assert Spots(pages) == {};
    } else {
      var n := |pages| - 1;
      SpotsCount(pages[..n]);
      PageCount(n, |pages[n].jobs|);
      assert Spots(pages) == Spots(pages[..n]) + PageSpots(n, |pages[n].jobs|);
    }
  }

  ghost function PageSpots(page: nat, n: nat): set<Spot> {
    set j: nat | j < n :: Spot(page, j)
  }

  lemma {:induction false} PageCount(page: nat, n: nat)
    ensures |PageSpots(page, n)| == n
  {
    if n == 0 {
      assert PageSpots(page, 0) == {};
    } else {
      PageCount(page, n - 1);
      assert PageSpots(page, n) == PageSpots(page, n - 1) + {Spot(page, n - 1)};
    }
  }

  // ----- The latest matching run -----

  /** The identity the releases are for. */
  datatype Target = Target(repository: string, commit: string, branch: string)

  predicate Matches(run: Run, target: Target) {
    && run.headSha == target.commit && run.headBranch == target.branch
    && run.event == "push" && run.repository == target.repository
  }

  function Matching(runs: seq<Run>, target: Target): seq<Run> {
    if runs == [] then []
    else
      var rest, last := Matching(runs[..|runs| - 1], target), runs[|runs| - 1];
      if Matches(last, target) then rest + [last] else rest
  }

  /** (run id, attempt), ordered lexicographically; a missing attempt counts as zero. */
  datatype Key = Key(id: int, attempt: int) {
    predicate AtMost(other: Key) {
      id < other.id || (id == other.id && attempt <= other.attempt)
    }
  }

  function KeyOf(run: Run): Key {
    Key(run.id, if run.attempt.Some? then run.attempt.value else 0)
  }

  /** `max` by key: the first run with the greatest key. */
  function Latest(runs: seq<Run>): (r: Run)
    requires runs != []
    ensures r in runs && forall x | x in runs :: KeyOf(x).AtMost(KeyOf(r))
  {
    if |runs| == 1 then runs[0]
    else
      var earlier, last := Latest(runs[..|runs| - 1]), runs[|runs| - 1];
      assert runs == runs[..|runs| - 1] + [last];
      if KeyOf(last).AtMost(KeyOf(earlier)) then earlier else last
  }

  predicate Succeeded(run: Run) {
    run.status == "completed" && run.conclusion == "success" && run.attempt.Some? && run.attempt.value >= 1
  }

  function SelectRun(pages: seq<seq<Run>>, target: Target): (r: Option<Run>) {
    var matching := Matching(Flatten(pages), target);
    if matching == [] || !Succeeded(Latest(matching)) then None else Some(Latest(matching))
  }

  lemma {:induction false} MatchingExact(runs: seq<Run>, target: Target, run: Run)
    ensures run in Matching(runs, target) <==> run in runs && Matches(run, target)
  {
    if runs != [] {
      MatchingExact(runs[..|runs| - 1], target, run);
      assert run in runs <==> run in runs[..|runs| - 1] || run == runs[|runs| - 1];
    }
  }

  /** The run at `i` is a push run of the target, no such run is later, and none before it is as late. */
  ghost predicate IsFirstLatest(runs: seq<Run>, target: Target, i: nat) {
    && i < |runs| && Matches(runs[i], target)
    && (forall j | 0 <= j < |runs| && Matches(runs[j], target) :: KeyOf(runs[j]).AtMost(KeyOf(runs[i])))
    && (forall j | 0 <= j < i && Matches(runs[j], target) :: !KeyOf(runs[i]).AtMost(KeyOf(runs[j])))
  }

  lemma {:induction false} LatestIsFirst(runs: seq<Run>, target: Target) returns (i: nat)
    requires Matching(runs, target) != []
    ensures IsFirstLatest(runs, target, i) && Latest(Matching(runs, target)) == runs[i]
  {
    var n := |runs| - 1;
    var front, last := Matching(runs[..n], target), runs[n];
    if front == [] {
      i := n;
      forall j | 0 <= j < n ensures !Matches(runs[j], target) {
        MatchingExact(runs[..n], target, runs[j]);
        assert runs[..n][j] in runs[..n];
      }
    } else {
      i := LatestIsFirst(runs[..n], target);
      assert forall j | 0 <= j < n :: runs[..n][j] == runs[j];
      if Matches(last, target) {
        assert (front + [last])[..|front|] == front;
        if !KeyOf(last).AtMost(KeyOf(runs[i])) {
          i := n;
        }
      }
    }
  }

  /** What is selected: the first of the latest push runs of the target, if it succeeded; and nothing when
      it did not or when there is none. */
  lemma SelectRunExact(pages: seq<seq<Run>>, target: Target)
    ensures SelectRun(pages, target).None? <==>
      forall i: nat | IsFirstLatest(Flatten(pages), target, i) :: !Succeeded(Flatten(pages)[i])
    ensures forall i: nat | IsFirstLatest(Flatten(pages), target, i) && Succeeded(Flatten(pages)[i]) ::
      SelectRun(pages, target) == Some(Flatten(pages)[i])
  {
    var runs := Flatten(pages);
    if Matching(runs, target) != [] {
      var i := LatestIsFirst(runs, target);
      forall j: nat | IsFirstLatest(runs, target, j) ensures j == i {
        FirstLatestIsUnique(runs, target, i, j);
      }
      assert SelectRun(pages, target) == if Succeeded(runs[i]) then Some(runs[i]) else None;
      if SelectRun(pages, target).Some? {
        assert IsFirstLatest(Flatten(pages), target, i) && Succeeded(Flatten(pages)[i]);
      }
    } else {
      forall i: nat ensures !IsFirstLatest(runs, target, i) {
        if i < |runs| {
          MatchingExact(runs, target, runs[i]);
        }
      }
    }
  }

  lemma FirstLatestIsUnique(runs: seq<Run>, target: Target, i: nat, j: nat)
    requires IsFirstLatest(runs, target, i) && IsFirstLatest(runs, target, j)
    ensures i == j
  {
  }

  /** A selected run is a matching push run that succeeded, and no returned matching run is later. */
  lemma SelectedIsLatest(pages: seq<seq<Run>>, target: Target, run: Run)
    requires SelectRun(pages, target) == Some(run)
    ensures run in Flatten(pages) && Matches(run, target) && Succeeded(run)
    ensures forall other | other in Flatten(pages) && Matches(other, target) :: KeyOf(other).AtMost(KeyOf(run))
  {
    var runs := Flatten(pages);
    MatchingExact(runs, target, run);
    forall other | other in runs && Matches(other, target) ensures KeyOf(other).AtMost(KeyOf(run)) {
      MatchingExact(runs, target, other);
    }
  }

  // ----- The job inventory -----

  predicate EndsWith(s: string, tail: string) {
    |tail| <= |s| && s[|s| - |tail|..] == tail
  }

  /** The job's name is the required one, alone or behind a calling job's name. */
  predicate Meets(actual: string, name: string) {
    actual == name || EndsWith(actual, " / " + name)
  }

  predicate JobPassed(job: Job) {
    && job.status == "completed"
    && (job.conclusion == "success" || (job.name == OPTIONAL_SKIPPED_JOB && job.conclusion == "skipped"))
  }

  predicate JobBelongs(job: Job, run: Run) {
    job.runId == Some(run.id) && job.runAttempt == run.attempt && job.headSha == run.headSha
  }

  predicate ValidId(job: Job) {
    job.id.Some? && job.id.value >= 1
  }

  /** Every job is identified once, belongs to this run, attempt and commit, and passed. */
  ghost predicate EachJobPassed(jobs: seq<Job>, run: Run) {
    && (forall i | 0 <= i < |jobs| :: ValidId(jobs[i]) && JobBelongs(jobs[i], run) && JobPassed(jobs[i]))
    && (forall i, j | 0 <= i < j < |jobs| :: jobs[i].id != jobs[j].id)
  }

  predicate SomeJobMeets(jobs: seq<Job>, name: string) {
    exists i | 0 <= i < |jobs| :: Meets(jobs[i].name, name)
  }

  ghost predicate AllMet(jobs: seq<Job>, required: set<string>) {
    forall name | name in required :: SomeJobMeets(jobs, name)
  }

  /** What an admitted inventory is: complete, of this run and commit only, every job passed, every
      required name met. */
  ghost predicate InventoryComplete(pages: seq<JobPage>, run: Run, required: set<string>) {
    var jobs := AllJobs(pages);
    && jobs != [] && pages != [] && pages[0].totalCount == Some(|jobs|)
    && EachJobPassed(jobs, run) && AllMet(jobs, required)
  }

  /** The job passed and is of this very run, attempt and commit. */
  ghost predicate IsGood(job: Job, run: Run) {
    && job.id.Some? && job.id.value >= 1
    && job.runId == Some(run.id) && job.runAttempt == run.attempt && job.headSha == run.headSha
    && job.status == "completed"
    && (job.conclusion == "success" || (job.name == "conversation-profile" && job.conclusion == "skipped"))
  }

  /** The job is called so, alone or behind another job's name and a slash. */
  ghost predicate IsCalled(job: Job, name: string) {
    job.name == name || exists caller :: job.name == caller + " / " + name
  }

  /** The same on the pages: the first page announces as many jobs as there are on all of them, each of them
      is good, no two have one id, and every required name is called somewhere. */
  ghost predicate PagesComplete(pages: seq<JobPage>, run: Run, required: set<string>) {
    && pages != [] && Spots(pages) != {} && pages[0].totalCount == Some(|Spots(pages)|)
    && (forall s | IsSpot(pages, s) :: IsGood(JobAt(pages, s), run))
    && (forall s, t | IsSpot(pages, s) && IsSpot(pages, t) && s != t :: JobAt(pages, s).id != JobAt(pages, t).id)
    && (forall name | name in required :: exists s :: IsSpot(pages, s) && IsCalled(JobAt(pages, s), name))
  }

  lemma MeetsExact(job: Job, name: string)
    ensures Meets(job.name, name) <==> IsCalled(job, name)
  {
    var tail := " / " + name;
    if EndsWith(job.name, tail) {
      assert job.name == job.name[..|job.name| - |tail|] + tail;
      assert job.name == job.name[..|job.name| - |tail|] + " / " + name;
    }
    if caller :| job.name == caller + " / " + name {
      assert job.name == caller + tail;
    }
  }

  lemma EachOnPages(pages: seq<JobPage>, run: Run)
    ensures EachJobPassed(AllJobs(pages), run) <==>
      && (forall s | IsSpot(pages, s) :: IsGood(JobAt(pages, s), run))
      && (forall s, t | IsSpot(pages, s) && IsSpot(pages, t) && s != t :: JobAt(pages, s).id != JobAt(pages, t).id)
  {
    var jobs := AllJobs(pages);
    if EachJobPassed(jobs, run) {
      forall s | IsSpot(pages, s) ensures IsGood(JobAt(pages, s), run) {
        SpotHasIndex(pages, s);
      }
      forall s, t | IsSpot(pages, s) && IsSpot(pages, t) && s != t ensures JobAt(pages, s).id != JobAt(pages, t).id {
        DifferentIndexes(pages, s, t);
      }
    }
    if && (forall s | IsSpot(pages, s) :: IsGood(JobAt(pages, s), run))
       && (forall s, t | IsSpot(pages, s) && IsSpot(pages, t) && s != t :: JobAt(pages, s).id != JobAt(pages, t).id) {
      forall i | 0 <= i < |jobs| ensures ValidId(jobs[i]) && JobBelongs(jobs[i], run) && JobPassed(jobs[i]) {
        var s := IndexHasSpot(pages, i);
      }
      forall i, j | 0 <= i < j < |jobs| ensures jobs[i].id != jobs[j].id {
        var s := IndexHasSpot(pages, i);
        var t := IndexHasSpot(pages, j);
      }
    }
  }

  lemma DifferentIndexes(pages: seq<JobPage>, s: Spot, t: Spot)
    requires IsSpot(pages, s) && IsSpot(pages, t) && s != t
    ensures
      var i, j := IndexOf(pages, s), IndexOf(pages, t);
      && i != j && i < |AllJobs(pages)| && j < |AllJobs(pages)|
      && AllJobs(pages)[i] == JobAt(pages, s) && AllJobs(pages)[j] == JobAt(pages, t)
  {
    SpotHasIndex(pages, s);
    SpotHasIndex(pages, t);
    if IndexOf(pages, s) == IndexOf(pages, t) {
      IndexIsInjective(pages, s, t);
    }
  }

  lemma MetOnPages(pages: seq<JobPage>, name: string)
    ensures SomeJobMeets(AllJobs(pages), name) <==> exists s :: IsSpot(pages, s) && IsCalled(JobAt(pages, s), name)
  {
    var jobs := AllJobs(pages);
    if SomeJobMeets(jobs, name) {
      var i :| 0 <= i < |jobs| && Meets(jobs[i].name, name);
      var s := IndexHasSpot(pages, i);
      MeetsExact(jobs[i], name);
    }
    if s :| IsSpot(pages, s) && IsCalled(JobAt(pages, s), name) {
      SpotHasIndex(pages, s);
      MeetsExact(JobAt(pages, s), name);
    }
  }

  lemma InventoryOnPages(pages: seq<JobPage>, run: Run, required: set<string>)
    ensures InventoryComplete(pages, run, required) <==> PagesComplete(pages, run, required)
  {
    SpotsCount(pages);
    EachOnPages(pages, run);
    forall name | name in required
      ensures SomeJobMeets(AllJobs(pages), name) <==> exists s :: IsSpot(pages, s) && IsCalled(JobAt(pages, s), name)
    {
      MetOnPages(pages, name);
    }
    assert Spots(pages) == {} <==> |Spots(pages)| == 0;
  }

  method CheckEachJob(jobs: seq<Job>, run: Run) returns (ok: bool)
    ensures ok <==> EachJobPassed(jobs, run)
  {
    var seen: set<int> := {};
    for i := 0 to |jobs|
      invariant forall j | 0 <= j < i :: ValidId(jobs[j]) && JobBelongs(jobs[j], run) && JobPassed(jobs[j])
      invariant forall id :: id in seen <==> exists j | 0 <= j < i :: jobs[j].id == Some(id)
      invariant forall j, k | 0 <= j < k < i :: jobs[j].id != jobs[k].id
    {
      if !ValidId(jobs[i]) {
        return false;
      }
      if jobs[i].id.value in seen {
        return false;
      }
      seen := seen + {jobs[i].id.value};
      if !JobBelongs(jobs[i], run) || !JobPassed(jobs[i]) {
        return false;
      }
    }
    return true;
  }

  method CheckRequired(jobs: seq<Job>, required: set<string>) returns (ok: bool)
    ensures ok <==> AllMet(jobs, required)
  {
    var todo := required;
    while todo != {}
      invariant todo <= required && AllMet(jobs, required - todo)
      decreases |todo|
    {
      var name :| name in todo;
      if !SomeJobMeets(jobs, name) {
        return false;
      }
      todo := todo - {name};
    }
    return true;
  }

  method VerifyJobs(pages: seq<JobPage>, run: Run, required: set<string>) returns (ok: bool)
    ensures ok <==> InventoryComplete(pages, run, required)
    ensures ok <==> PagesComplete(pages, run, required)
  {
    InventoryOnPages(pages, run, required);
    var jobs := AllJobs(pages);
    if jobs == [] || pages == [] || pages[0].totalCount != Some(|jobs|) {
      return false;
    }
    ok := CheckEachJob(jobs, run);
    if ok {
      ok := CheckRequired(jobs, required);
    }
  }

  /** In an admitted inventory a required name is met by a job of this very run, attempt and commit;
      it succeeded, unless the name itself is one the skippable job meets. */
  lemma RequiredJobSucceeded(pages: seq<JobPage>, run: Run, required: set<string>, name: string) returns (job: Job)
    requires InventoryComplete(pages, run, required) && name in required && !Meets(OPTIONAL_SKIPPED_JOB, name)
    ensures job in AllJobs(pages) && Meets(job.name, name)
    ensures job.status == "completed" && job.conclusion == "success" && JobBelongs(job, run) && ValidId(job)
  {
    var jobs := AllJobs(pages);
    assert SomeJobMeets(jobs, name);
    var i :| 0 <= i < |jobs| && Meets(jobs[i].name, name);
    job := jobs[i];
  }

  /** Told apart from the skippable job by the last character or the first. */
  predicate Unlike(name: string) {
    name != "" && (name[|name| - 1] != 'e' || name[0] != 'c')
  }

  lemma UnlikeIsNotOptional(name: string)
    requires Unlike(name)
    ensures !Meets(OPTIONAL_SKIPPED_JOB, name)
  {
    var optional, tail := OPTIONAL_SKIPPED_JOB, " / " + name;
    assert optional[0] == 'c' && optional[|optional| - 1] == 'e' && ' ' !in optional;
    assert tail[0] == ' ';
    assert forall i | 0 <= i < |optional| :: optional[i..][0] == optional[i];
  }

  /** No name this gate requires is met by the job that may be skipped. */
  lemma OptionalMeetsNothing(workflow: Workflow, name: string)
    requires name in REQUIRED_JOBS.For(workflow)
    ensures !Meets(OPTIONAL_SKIPPED_JOB, name)
  {
    assert Unlike(name) by {
      if workflow == Ci {
        RequiredCiIsUnlike(name);
      } else {
        RequiredApplicationIsUnlike(name);
      }
    }
    UnlikeIsNotOptional(name);
  }

  lemma RequiredCiIsUnlike(name: string)
    requires name in REQUIRED_CI
    ensures Unlike(name)
  {
    assert Unlike("PostgreSQL Runtime Store") && Unlike("Technical Website");
  }

  lemma RequiredApplicationIsUnlike(name: string)
    requires name in REQUIRED_APPLICATION
    ensures Unlike(name)
  {
  }

  // ----- The double read -----

  /** The service over time: what each endpoint answers at each instant. */
  datatype History = History(runs: (nat, Workflow) -> seq<seq<Run>>, jobs: (nat, int, int) -> seq<JobPage>)

  function MatchingAt(h: History, t: nat, workflow: Workflow, target: Target): seq<Run> {
    Matching(Flatten(h.runs(t, workflow)), target)
  }

  /** The three fetches for one workflow, at three instants. */
  ghost predicate Admitted(h: History, policy: Policy, workflow: Workflow, target: Target, first: nat, jobs: nat,
                           second: nat, run: Run) {
    && SelectRun(h.runs(first, workflow), target) == Some(run)
    && run.attempt.Some? && InventoryComplete(h.jobs(jobs, run.id, run.attempt.value), run, policy.For(workflow))
    && SelectRun(h.runs(second, workflow), target).Some?
    && KeyOf(SelectRun(h.runs(second, workflow), target).value) == KeyOf(run)
  }

  /** Matching runs do not vanish, and the latest of them never goes back. */
  ghost predicate LatestNeverDecreases(h: History, workflow: Workflow, target: Target) {
    forall t: nat, u: nat | t <= u && MatchingAt(h, t, workflow, target) != [] ::
      && MatchingAt(h, u, workflow, target) != []
      && KeyOf(Latest(MatchingAt(h, t, workflow, target))).AtMost(KeyOf(Latest(MatchingAt(h, u, workflow, target))))
  }

  /** At every instant from the first selection to the second, the run whose jobs were checked was the
      latest matching run. */
  lemma DoubleReadSound(h: History, policy: Policy, workflow: Workflow, target: Target, first: nat, jobs: nat,
                        second: nat, run: Run, t: nat)
    requires Admitted(h, policy, workflow, target, first, jobs, second, run) && LatestNeverDecreases(h, workflow, target)
    requires first <= t <= second
    ensures MatchingAt(h, t, workflow, target) != []
    ensures KeyOf(Latest(MatchingAt(h, t, workflow, target))) == KeyOf(run)
    ensures forall other | other in Flatten(h.runs(t, workflow)) && Matches(other, target) :: KeyOf(other).AtMost(KeyOf(run))
  {
    assert MatchingAt(h, first, workflow, target) != [];
    assert KeyOf(Latest(MatchingAt(h, first, workflow, target))).AtMost(KeyOf(Latest(MatchingAt(h, t, workflow, target))));
    assert KeyOf(Latest(MatchingAt(h, t, workflow, target))).AtMost(KeyOf(Latest(MatchingAt(h, second, workflow, target))));
    forall other | other in Flatten(h.runs(t, workflow)) && Matches(other, target) ensures KeyOf(other).AtMost(KeyOf(run)) {
      MatchingExact(Flatten(h.runs(t, workflow)), target, other);
    }
  }

  // ----- The gate -----

  predicate NameChar(c: char) {
    'A' <= c <= 'Z' || 'a' <= c <= 'z' || Digit(c) || c == '_' || c == '.' || c == '-'
  }

  predicate Digit(c: char) {
    '0' <= c <= '9'
  }

  predicate Digits(s: string) {
    s != "" && forall i | 0 <= i < |s| :: Digit(s[i])
  }

  predicate ValidRepository(s: string) {
    exists i | 0 < i < |s| - 1 :: s[i] == '/' && forall j | 0 <= j < |s| && j != i :: NameChar(s[j])
  }

  predicate ValidCommit(s: string) {
    |s| == 40 && forall i | 0 <= i < |s| :: Digit(s[i]) || 'a' <= s[i] <= 'f'
  }

  predicate ValidBranch(s: string) {
    || s == "main"
    || (|s| > 8 && s[..8] == "release/" && exists i, j | 8 <= i < j < |s| ::
          s[i] == '.' && s[j] == '.' && Digits(s[8..i]) && Digits(s[i + 1..j]) && Digits(s[j + 1..]))
  }

  datatype Receipt = Receipt(workflow: Workflow, runId: int, attempt: int, url: string)

  /** The receipt is for an admitted run of the `k`th workflow, read at its three instants. */
  ghost predicate ReceiptFor(h: History, policy: Policy, clock: seq<nat>, target: Target, k: nat, receipt: Receipt)
    requires |clock| == 3 * |REQUIRED_WORKFLOWS| && k < |REQUIRED_WORKFLOWS|
  {
    exists run :: Admitted(h, policy, REQUIRED_WORKFLOWS[k], target, clock[3 * k], clock[3 * k + 1], clock[3 * k + 2], run)
                  && receipt == Receipt(REQUIRED_WORKFLOWS[k], run.id, run.attempt.value, run.url)
  }

  ghost predicate Admits(h: History, policy: Policy, clock: seq<nat>, target: Target, receipts: seq<Receipt>, n: nat)
    requires |clock| == 3 * |REQUIRED_WORKFLOWS| && n <= |REQUIRED_WORKFLOWS|
  {
    |receipts| == n && forall k | 0 <= k < n :: ReceiptFor(h, policy, clock, target, k, receipts[k])
  }

  /** Some run of this workflow is admitted by reads at these instants. */
  ghost predicate WorkflowAdmitted(h: History, policy: Policy, workflow: Workflow, target: Target, first: nat,
                                   jobs: nat, second: nat) {
    exists run :: Admitted(h, policy, workflow, target, first, jobs, second, run)
  }

  /** Select, check the jobs, and select again. */
  method CheckWorkflow(h: History, policy: Policy, workflow: Workflow, target: Target, first: nat, jobs: nat,
                       second: nat) returns (r: Option<Run>)
    ensures r.Some? ==> Admitted(h, policy, workflow, target, first, jobs, second, r.value)
    ensures r.None? ==> !WorkflowAdmitted(h, policy, workflow, target, first, jobs, second)
  {
    var selected := SelectRun(h.runs(first, workflow), target);
    if selected.None? {
      return None;
    }
    var run := selected.value;
    var complete := VerifyJobs(h.jobs(jobs, run.id, run.attempt.value), run, policy.For(workflow));
    if !complete {
      return None;
    }
    var current := SelectRun(h.runs(second, workflow), target);
    if current.None? || KeyOf(current.value) != KeyOf(run) {
      return None;
    }
    return Some(run);
  }

  ghost predicate EveryWorkflowAdmitted(h: History, policy: Policy, clock: seq<nat>, target: Target)
    requires |clock| == 3 * |REQUIRED_WORKFLOWS|
  {
    forall k | 0 <= k < |REQUIRED_WORKFLOWS| ::
      WorkflowAdmitted(h, policy, REQUIRED_WORKFLOWS[k], target, clock[3 * k], clock[3 * k + 1], clock[3 * k + 2])
  }

  method CheckWorkflows(h: History, policy: Policy, clock: seq<nat>, target: Target) returns (r: Option<seq<Receipt>>)
    requires |clock| == 3 * |REQUIRED_WORKFLOWS|
    ensures r.Some? <==> EveryWorkflowAdmitted(h, policy, clock, target)
    ensures r.Some? ==> Admits(h, policy, clock, target, r.value, |REQUIRED_WORKFLOWS|)
  {
    var receipts: seq<Receipt> := [];
    for k := 0 to |REQUIRED_WORKFLOWS|
      invariant Admits(h, policy, clock, target, receipts, k)
    {
      var run := CheckWorkflow(h, policy, REQUIRED_WORKFLOWS[k], target, clock[3 * k], clock[3 * k + 1], clock[3 * k + 2]);
      if run.None? {
        return None;
      }
      var receipt := Receipt(REQUIRED_WORKFLOWS[k], run.value.id, run.value.attempt.value, run.value.url);
      assert ReceiptFor(h, policy, clock, target, k, receipt);
      receipts := receipts + [receipt];
    }
    forall k | 0 <= k < |REQUIRED_WORKFLOWS|
      ensures WorkflowAdmitted(h, policy, REQUIRED_WORKFLOWS[k], target, clock[3 * k], clock[3 * k + 1], clock[3 * k + 2])
    {
      assert ReceiptFor(h, policy, clock, target, k, receipts[k]);
    }
    return Some(receipts);
  }

  /** The gate over both required workflows; `clock` gives the instant of each fetch. It admits exactly
      when the target is well formed and every workflow's three reads agree. */
  method Verify(h: History, policy: Policy, clock: seq<nat>, target: Target) returns (r: Option<seq<Receipt>>)
    requires |clock| == 3 * |REQUIRED_WORKFLOWS|
    ensures r.Some? <==>
      && ValidRepository(target.repository) && ValidCommit(target.commit) && ValidBranch(target.branch)
      && EveryWorkflowAdmitted(h, policy, clock, target)
    ensures r.Some? ==> Admits(h, policy, clock, target, r.value, |REQUIRED_WORKFLOWS|)
    ensures r.Some? ==> |r.value| == 2 && r.value[0].workflow == Ci && r.value[1].workflow == Application
  {
    if !ValidRepository(target.repository) || !ValidCommit(target.commit) || !ValidBranch(target.branch) {
      return None;
    }
    r := CheckWorkflows(h, policy, clock, target);
    if r.Some? {
      assert ReceiptFor(h, policy, clock, target, 0, r.value[0]) && ReceiptFor(h, policy, clock, target, 1, r.value[1]);
    }
  }

  /** At this instant some page lists this push run of the target, and no page lists a later one. */
  ghost predicate LatestAt(h: History, workflow: Workflow, target: Target, t: nat, id: int, attempt: int) {
    && (exists page, run | page in h.runs(t, workflow) && run in page ::
          IsPushOf(run, target) && run.id == id && (if run.attempt.Some? then run.attempt.value else 0) == attempt)
    && (forall page, other | page in h.runs(t, workflow) && other in page && IsPushOf(other, target) ::
          other.id < id || (other.id == id && (if other.attempt.Some? then other.attempt.value else 0) <= attempt))
  }

  ghost predicate IsPushOf(run: Run, target: Target) {
    && run.headSha == target.commit && run.headBranch == target.branch && run.event == "push"
    && run.repository == target.repository
  }

  lemma LatestIsLatestAt(h: History, workflow: Workflow, target: Target, t: nat, run: Run)
    requires MatchingAt(h, t, workflow, target) != [] && KeyOf(Latest(MatchingAt(h, t, workflow, target))) == KeyOf(run)
    ensures LatestAt(h, workflow, target, t, run.id, KeyOf(run).attempt)
  {
    var pages, latest := h.runs(t, workflow), Latest(MatchingAt(h, t, workflow, target));
    MatchingExact(Flatten(pages), target, latest);
    FlattenExact(pages, latest);
    var page :| page in pages && latest in page;
    assert IsPushOf(latest, target);
    forall page, other | page in pages && other in page && IsPushOf(other, target) ensures KeyOf(other).AtMost(KeyOf(run)) {
      FlattenExact(pages, other);
      MatchingExact(Flatten(pages), target, other);
    }
  }

  /** An accepted release: for each workflow, over the whole interval between its two selections, the
      receipt names the latest push run of this repository, branch and commit, which succeeded; and each
      required job of exactly that run succeeded. */
  lemma AcceptedReleaseIsSound(h: History, clock: seq<nat>, target: Target, receipts: seq<Receipt>, k: nat, t: nat,
                               name: string) returns (run: Run, job: Job)
    requires |clock| == 3 * |REQUIRED_WORKFLOWS|
    requires Admits(h, REQUIRED_JOBS, clock, target, receipts, |REQUIRED_WORKFLOWS|) && k < |REQUIRED_WORKFLOWS|
    requires LatestNeverDecreases(h, REQUIRED_WORKFLOWS[k], target)
    requires clock[3 * k] <= t <= clock[3 * k + 2]
    requires name in if REQUIRED_WORKFLOWS[k] == Ci then REQUIRED_CI else REQUIRED_APPLICATION
    ensures run.attempt.Some? && receipts[k] == Receipt(REQUIRED_WORKFLOWS[k], run.id, run.attempt.value, run.url)
    ensures IsPushOf(run, target) && run.status == "completed" && run.conclusion == "success" && run.attempt.value >= 1
    ensures LatestAt(h, REQUIRED_WORKFLOWS[k], target, t, run.id, run.attempt.value)
    ensures exists page | page in h.jobs(clock[3 * k + 1], run.id, run.attempt.value) :: job in page.jobs
    ensures IsCalled(job, name) && job.conclusion == "success" && IsGood(job, run) && job.headSha == target.commit
  {
    OptionalMeetsNothing(REQUIRED_WORKFLOWS[k], name);
    run, job := AcceptedUnderPolicy(h, REQUIRED_JOBS, clock, target, receipts, k, t, name);
    LatestIsLatestAt(h, REQUIRED_WORKFLOWS[k], target, t, run);
    MeetsExact(job, name);
    JobOnPage(h.jobs(clock[3 * k + 1], run.id, run.attempt.value), job);
  }

  lemma JobOnPage(pages: seq<JobPage>, job: Job)
    requires job in AllJobs(pages)
    ensures exists page | page in pages :: job in page.jobs
  {
    var i :| 0 <= i < |AllJobs(pages)| && AllJobs(pages)[i] == job;
    var s := IndexHasSpot(pages, i);
    assert pages[s.page] in pages && job in pages[s.page].jobs;
  }

  lemma AcceptedUnderPolicy(h: History, policy: Policy, clock: seq<nat>, target: Target, receipts: seq<Receipt>,
                            k: nat, t: nat, name: string)
    returns (run: Run, job: Job)
    requires |clock| == 3 * |REQUIRED_WORKFLOWS|
    requires Admits(h, policy, clock, target, receipts, |REQUIRED_WORKFLOWS|) && k < |REQUIRED_WORKFLOWS|
    requires LatestNeverDecreases(h, REQUIRED_WORKFLOWS[k], target) && clock[3 * k] <= t <= clock[3 * k + 2]
    requires name in policy.For(REQUIRED_WORKFLOWS[k]) && !Meets(OPTIONAL_SKIPPED_JOB, name)
    ensures Matches(run, target) && Succeeded(run) && ValidId(job) && JobPassed(job)
    ensures receipts[k] == Receipt(REQUIRED_WORKFLOWS[k], run.id, KeyOf(run).attempt, run.url)
    ensures MatchingAt(h, t, REQUIRED_WORKFLOWS[k], target) != []
    ensures KeyOf(Latest(MatchingAt(h, t, REQUIRED_WORKFLOWS[k], target))) == KeyOf(run)
    ensures job in AllJobs(h.jobs(clock[3 * k + 1], run.id, KeyOf(run).attempt)) && Meets(job.name, name)
    ensures job.conclusion == "success" && job.headSha == target.commit && JobBelongs(job, run)
  {
    var workflow := REQUIRED_WORKFLOWS[k];
    assert ReceiptFor(h, policy, clock, target, k, receipts[k]);
    run :| Admitted(h, policy, workflow, target, clock[3 * k], clock[3 * k + 1], clock[3 * k + 2], run)
           && receipts[k] == Receipt(workflow, run.id, run.attempt.value, run.url);
    DoubleReadSound(h, policy, workflow, target, clock[3 * k], clock[3 * k + 1], clock[3 * k + 2], run, t);
    SelectedIsLatest(h.runs(clock[3 * k], workflow), target, run);
    job := RequiredJobSucceeded(h.jobs(clock[3 * k + 1], run.id, run.attempt.value), run, policy.For(workflow), name);
  }
}
