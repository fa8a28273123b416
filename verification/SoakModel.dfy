/**
 The accounting of a reliability soak: the verified gaps of a whole run, what a complete run needs, and
 the cleanup that tries every stage.
 */
module SoakModel {
  import opened Prelude

  // ----- Gaps between verified samples -----

  /** One verified gap; nothing when an assertion fails. */
  function ObserveVerifiedGap(now: int, last: int, maximum: int, budget: int): Option<int> {
    if now < last then None
    else
      var m := if maximum < now - last then now - last else maximum;
      if m <= budget then Some(m) else None
  }

  datatype Verified = Verified(last: int, maximum: int)

  function Sampled(v: Verified, now: int, budget: int): Option<Verified> {
    match ObserveVerifiedGap(now, v.last, v.maximum, budget)
    case Some(m) => Some(Verified(now, m))
    case None => None
  }

  /** A run of samples; a failed one ends the run. */
  function Observed(start: int, samples: seq<int>, budget: int): Option<Verified> {
    if samples == [] then Some(Verified(start, 0))
    else
      match Observed(start, samples[..|samples| - 1], budget)
      case Some(v) => Sampled(v, samples[|samples| - 1], budget)
      case None => None
  }

  class Sampler {
    const continuityBudgetMs: int
    var lastVerifiedAtMs: int
    var maximumVerifiedGapMs: int

    function State(): Verified
      reads this
    {
      Verified(lastVerifiedAtMs, maximumVerifiedGapMs)
    }

    /** The budget is three intervals, but at least three minutes. */
    constructor (start: int, intervalMs: int)
      ensures State() == Verified(start, 0)
      ensures continuityBudgetMs >= 180_000 && continuityBudgetMs >= intervalMs * 3
      ensures continuityBudgetMs == 180_000 || continuityBudgetMs == intervalMs * 3
    {
      continuityBudgetMs := if intervalMs * 3 < 180_000 then 180_000 else intervalMs * 3;
      lastVerifiedAtMs, maximumVerifiedGapMs := start, 0;
    }

    method ResourceSample(nowMs: int) returns (ok: bool)
      modifies this
      ensures ok <==> Sampled(old(State()), nowMs, continuityBudgetMs).Some?
      ensures State() == if ok then Sampled(old(State()), nowMs, continuityBudgetMs).value else old(State())
    {
      if nowMs < lastVerifiedAtMs {
        return false;
      }
      var maximum := maximumVerifiedGapMs;
      if maximum < nowMs - lastVerifiedAtMs {
        maximum := nowMs - lastVerifiedAtMs;
      }
      if maximum > continuityBudgetMs {
        return false;
      }
      maximumVerifiedGapMs, lastVerifiedAtMs := maximum, nowMs;
      return true;
    }
  }

  /** The time of the i-th sample, the start being the time before the first. */
  function TimeAt(start: int, samples: seq<int>, i: nat): int
    requires i <= |samples|
  {
    if i == 0 then start else samples[i - 1]
  }

  function Gap(start: int, samples: seq<int>, i: nat): int
    requires i < |samples|
  {
    TimeAt(start, samples, i + 1) - TimeAt(start, samples, i)
  }

  ghost predicate WithinBudget(start: int, samples: seq<int>, budget: int) {
    forall i: nat | i < |samples| :: 0 <= Gap(start, samples, i) <= budget
  }

  /** The largest gap, or zero when there is none. */
  ghost predicate IsLargestGap(start: int, samples: seq<int>, g: int) {
    && (forall i: nat | i < |samples| :: Gap(start, samples, i) <= g)
    && if samples == [] then g == 0 else exists i: nat | i < |samples| :: Gap(start, samples, i) == g
  }

  lemma GapInFront(start: int, samples: seq<int>)
    requires samples != []
    ensures forall i: nat | i < |samples| - 1 :: Gap(start, samples[..|samples| - 1], i) == Gap(start, samples, i)
  {
  }

  lemma WithinBudgetStep(start: int, samples: seq<int>, budget: int)
    requires samples != []
    ensures WithinBudget(start, samples, budget) <==>
      WithinBudget(start, samples[..|samples| - 1], budget) && 0 <= Gap(start, samples, |samples| - 1) <= budget
  {
    var n := |samples| - 1;
    var front := samples[..n];
    GapInFront(start, samples);
    if WithinBudget(start, samples, budget) {
      forall i: nat | i < n ensures 0 <= Gap(start, front, i) <= budget {
        assert 0 <= Gap(start, samples, i) <= budget;
      }
    }
    if WithinBudget(start, front, budget) && 0 <= Gap(start, samples, n) <= budget {
      forall i: nat | i <= n ensures 0 <= Gap(start, samples, i) <= budget {
        if i < n {
          assert 0 <= Gap(start, front, i) <= budget;
        }
      }
    }
  }

  lemma LargestGapStep(start: int, samples: seq<int>, g: int)
    requires samples != [] && IsLargestGap(start, samples[..|samples| - 1], g) && Gap(start, samples, |samples| - 1) >= 0
    ensures
      var last := Gap(start, samples, |samples| - 1);
      IsLargestGap(start, samples, if g < last then last else g)
  {
    var n := |samples| - 1;
    var front := samples[..n];
    GapInFront(start, samples);
    forall i: nat | i < n ensures Gap(start, samples, i) <= g {
      assert Gap(start, front, i) <= g;
    }
    if g > Gap(start, samples, n) {
      var i: nat :| i < n && Gap(start, front, i) == g;
      assert Gap(start, samples, i) == g;
    }
  }

  /** A run is accepted exactly when the clock never goes back and every gap is within budget; and then
      the stored maximum is its largest gap. */
  lemma {:induction false} GapsExact(start: int, samples: seq<int>, budget: int)
    ensures Observed(start, samples, budget).Some? <==> WithinBudget(start, samples, budget)
    ensures
      var r := Observed(start, samples, budget);
      r.Some? ==> r.value.last == TimeAt(start, samples, |samples|) && IsLargestGap(start, samples, r.value.maximum)
  {
    if samples != [] {
      var n := |samples| - 1;
      var front := samples[..n];
      GapsExact(start, front, budget);
      WithinBudgetStep(start, samples, budget);
      assert TimeAt(start, samples, n) == TimeAt(start, front, n);
      var r := Observed(start, front, budget);
      if r.Some? && Gap(start, samples, n) >= 0 {
        LargestGapStep(start, samples, r.value.maximum);
        if front != [] {
          var i: nat :| i < n && Gap(start, front, i) == r.value.maximum;
          assert r.value.maximum <= budget;
        }
      }
    }
  }

  /** An accepted run spans at most its samples times the budget. */
  lemma {:induction false} SpanIsBounded(start: int, samples: seq<int>, budget: int)
    requires Observed(start, samples, budget).Some?
    ensures 0 <= TimeAt(start, samples, |samples|) - start <= |samples| * budget
  {
    GapsExact(start, samples, budget);
    if samples != [] {
      var n := |samples| - 1;
      SpanIsBounded(start, samples[..n], budget);
      assert TimeAt(start, samples[..n], n) == TimeAt(start, samples, n);
      assert 0 <= Gap(start, samples, n) <= budget;
      OneMoreTimes(n, budget);
    }
  }

  lemma OneMoreTimes(n: int, budget: int)
    ensures (n + 1) * budget == n * budget + budget
  {
  }

  // ----- A complete run -----

  const REQUIRED_SCENARIOS: seq<string> := [
    "parallel-steering", "context-transaction", "durable-infer", "scheduled-task",
    "host-tool-write", "provider-disconnect", "host-reopen", "runtime-crash-recovery"]

  datatype Report = Report(
    elapsedMs: real, requestedDurationMs: int, cycles: int, coverage: map<string, int>, unsettledRoots: int,
    maximumVerifiedGapMs: Option<int>, allowedVerifiedGapMs: Option<int>)

  predicate GapAllowed(r: Report) {
    r.maximumVerifiedGapMs.Some? ==>
      r.allowedVerifiedGapMs.Some? && r.maximumVerifiedGapMs.value <= r.allowedVerifiedGapMs.value
  }

  method AssertRunComplete(r: Report) returns (ok: bool)
    ensures ok <==>
      && r.elapsedMs >= r.requestedDurationMs as real && r.cycles > 0 && r.unsettledRoots == 0 && GapAllowed(r)
      && forall s | s in REQUIRED_SCENARIOS :: s in r.coverage && r.coverage[s] > 0
  {
    if !(r.elapsedMs >= r.requestedDurationMs as real) || !(r.cycles > 0) || r.unsettledRoots != 0 {
      return false;
    }
    if r.maximumVerifiedGapMs.Some? {
      if !(r.allowedVerifiedGapMs.Some? && r.maximumVerifiedGapMs.value <= r.allowedVerifiedGapMs.value) {
        return false;
      }
    }
    for i := 0 to |REQUIRED_SCENARIOS|
      invariant forall j | 0 <= j < i :: REQUIRED_SCENARIOS[j] in r.coverage && r.coverage[REQUIRED_SCENARIOS[j]] > 0
    {
      var scenario := REQUIRED_SCENARIOS[i];
      var count := if scenario in r.coverage then r.coverage[scenario] else 0;
      if !(count > 0) {
        assert scenario in REQUIRED_SCENARIOS;
        return false;
      }
    }
    return true;
  }

  /** The final gap check cannot fail a run whose samples were all accepted under the same budget; and a
      run that ends the check with a stored maximum had no gap above it. */
  lemma SamplesDecideTheGap(start: int, samples: seq<int>, budget: int, r: Report)
    requires samples != [] && Observed(start, samples, budget).Some?
    requires r.maximumVerifiedGapMs == Some(Observed(start, samples, budget).value.maximum)
    requires r.allowedVerifiedGapMs.Some?
    ensures GapAllowed(r) <==> WithinBudget(start, samples, r.allowedVerifiedGapMs.value)
    ensures r.allowedVerifiedGapMs.value == budget ==> GapAllowed(r)
  {
    GapsExact(start, samples, budget);
    GapsExact(start, samples, r.allowedVerifiedGapMs.value);
    var m := r.maximumVerifiedGapMs.value;
    var i: nat :| i < |samples| && Gap(start, samples, i) == m;
  }

  // ----- Cleanup -----

  /** How an awaited promise settles: so long after the stage has handed back control, and before or
      after the timer when both come due in one turn of the event loop. */
  datatype Settling = Never | Resolves(after: nat, early: bool) | Rejects(after: nat, early: bool, error: string)

  /** What a stage does once its synchronous part is over: it has finished or thrown without a turn of
      the event loop, or it waits. */
  datatype Rest = Returns | Throws(error: string) | Waits(settling: Settling)

  /** A stage first blocks the event loop for as long as its synchronous part takes. */
  datatype Stage = Stage(name: string, blocks: nat, rest: Rest, timeoutMs: Option<nat>)

  datatype Failure = Failure(stage: string, error: string)

  const TIMEOUT := "cleanup timeout; completion unconfirmed"

  const MAX_TIMER := 0x7fff_ffff

  /** A timer of no time, or of more than a timer can hold, waits one millisecond. */
  function Limit(s: Stage): nat {
    if s.timeoutMs.None? then 20_000 else if 1 <= s.timeoutMs.value <= MAX_TIMER then s.timeoutMs.value else 1
  }

  /** No timer fires while the stage blocks. */
  function TimerAt(s: Stage): nat {
    if s.blocks < Limit(s) then Limit(s) else s.blocks
  }

  /** The awaited promise settles before the timer fires. */
  predicate InTime(s: Stage, after: nat, early: bool) {
    s.blocks + after < TimerAt(s) || (s.blocks + after == TimerAt(s) && early)
  }

  predicate Succeeds(s: Stage) {
    match s.rest
    case Returns => true
    case Throws(_) => false
    case Waits(w) => w.Resolves? && InTime(s, w.after, w.early)
  }

  predicate TimesOut(s: Stage) {
    s.rest.Waits? && (s.rest.settling.Never? || !InTime(s, s.rest.settling.after, s.rest.settling.early))
  }

  /** What a failing stage is reported with. */
  function ErrorOf(s: Stage): string {
    if s.rest.Throws? then s.rest.error
    else if s.rest.Waits? && s.rest.settling.Rejects? && !TimesOut(s) then s.rest.settling.error
    else TIMEOUT
  }

  function Lasting(s: Stage): nat {
    if !s.rest.Waits? then s.blocks
    else if TimesOut(s) then TimerAt(s)
    else s.blocks + s.rest.settling.after
  }

  /** The race of a stage and its timer: how long it lasts, and how it fails if it does. */
  method Race(s: Stage) returns (lasted: nat, error: Option<string>)
    ensures error.None? <==> Succeeds(s)
    ensures error.Some? ==> error.value == ErrorOf(s)
    ensures lasted == Lasting(s)
  {
    lasted := s.blocks;
    match s.rest {
      case Returns =>
        return lasted, None;
      case Throws(e) =>
        return lasted, Some(e);
      case Waits(w) =>
        var timer := Limit(s);
        if timer < lasted {
          timer := lasted;
        }
        match w {
          case Never =>
            return timer, Some(TIMEOUT);
          case Resolves(after, early) =>
            if lasted + after < timer || (lasted + after == timer && early) {
              return lasted + after, None;
            }
            return timer, Some(TIMEOUT);
          case Rejects(after, early, e) =>
            if lasted + after < timer || (lasted + after == timer && early) {
              return lasted + after, Some(e);
            }
            return timer, Some(TIMEOUT);
        }
    }
  }

  /** A stage outlasts its limit exactly when its synchronous part does, whatever comes of it. */
  lemma OverrunIffBlocked(s: Stage)
    ensures Lasting(s) > Limit(s) <==> s.blocks > Limit(s)
    ensures s.rest.Returns? ==> Succeeds(s)
  {
  }

  /** A stage fails exactly when it throws, when its promise is rejected in time, or when it times out; and
      a stage that succeeds has not timed out. */
  lemma VerdictsExclude(s: Stage)
    ensures Succeeds(s) ==> !TimesOut(s)
    ensures !Succeeds(s) <==> s.rest.Throws? || TimesOut(s) || (s.rest.Waits? && s.rest.settling.Rejects?)
    ensures s.rest.Waits? ==> (ErrorOf(s) == TIMEOUT <==>
      TimesOut(s) || !s.rest.settling.Rejects? || s.rest.settling.error == TIMEOUT)
  {
  }

  function Larger(a: nat, b: nat): nat {
    if a < b then b else a
  }

  function Smaller(a: nat, b: nat): nat {
    if a < b then a else b
  }

  /** The promise settles after the timer fires, or together with it and behind it. */
  predicate SettlesLate(s: Stage)
    requires s.rest.Waits? && !s.rest.settling.Never?
  {
    var settles, timer := s.blocks + s.rest.settling.after, Larger(s.blocks, Limit(s));
    settles > timer || (settles == timer && !s.rest.settling.early)
  }

  /** A waiting stage lasts until its promise settles or its timer fires, whichever comes first; the timer
      fires when the limit has passed, or else as soon as the stage stops blocking. */
  lemma LastsUntilTheFirst(s: Stage)
    ensures !s.rest.Waits? ==> Lasting(s) == s.blocks
    ensures s.rest.Waits? && s.rest.settling.Never? ==> Lasting(s) == Larger(s.blocks, Limit(s))
    ensures s.rest.Waits? && !s.rest.settling.Never? ==>
      Lasting(s) == Smaller(s.blocks + s.rest.settling.after, Larger(s.blocks, Limit(s)))
    ensures TimesOut(s) <==> (s.rest.Waits? && (s.rest.settling.Never? || SettlesLate(s)))
  {
  }

  function Names(stages: seq<Stage>): seq<string> {
    if stages == [] then [] else Names(stages[..|stages| - 1]) + [stages[|stages| - 1].name]
  }

  /** The positions of the stages that threw or timed out. */
  function Failing(stages: seq<Stage>): seq<nat> {
    if stages == [] then []
    else
      var n := |stages| - 1;
      Failing(stages[..n]) + if Succeeds(stages[n]) then [] else [n]
  }

  function Total(stages: seq<Stage>): nat {
    if stages == [] then 0 else Total(stages[..|stages| - 1]) + Lasting(stages[|stages| - 1])
  }

  function Limits(stages: seq<Stage>): nat {
    if stages == [] then 0 else Limits(stages[..|stages| - 1]) + Limit(stages[|stages| - 1])
  }

  /** The list names every failing stage and no other, in stage order, with its own error. */
  ghost predicate Reports(stages: seq<Stage>, failures: seq<Failure>) {
    var at := Failing(stages);
    && |failures| == |at|
    && forall j | 0 <= j < |at| ::
         at[j] < |stages| && failures[j] == Failure(stages[at[j]].name, ErrorOf(stages[at[j]]))
  }

  /** The positions reported are all the failing ones, in increasing order. */
  lemma {:induction false} FailingExact(stages: seq<Stage>)
    ensures forall i: nat :: i in Failing(stages) <==> i < |stages| && !Succeeds(stages[i])
    ensures forall i, j | 0 <= i < j < |Failing(stages)| :: Failing(stages)[i] < Failing(stages)[j]
  {
    if stages != [] {
      var front := stages[..|stages| - 1];
      FailingExact(front);
      assert forall i: nat | i < |front| :: front[i] == stages[i];
      assert forall j | 0 <= j < |Failing(front)| :: Failing(front)[j] in Failing(front);
    }
  }

  lemma {:induction false} NoneFailing(stages: seq<Stage>)
    ensures Failing(stages) == [] <==> forall i | 0 <= i < |stages| :: Succeeds(stages[i])
  {
    if stages != [] {
      NoneFailing(stages[..|stages| - 1]);
      assert forall i | 0 <= i < |stages| - 1 :: stages[..|stages| - 1][i] == stages[i];
    }
  }

  lemma ReportsStep(stages: seq<Stage>, s: Stage, failures: seq<Failure>)
    requires Reports(stages, failures)
    ensures Reports(stages + [s], failures + if Succeeds(s) then [] else [Failure(s.name, ErrorOf(s))])
  {
    assert (stages + [s])[..|stages|] == stages;
  }

  lemma {:induction false} NamesExact(stages: seq<Stage>)
    ensures |Names(stages)| == |stages| && forall i | 0 <= i < |stages| :: Names(stages)[i] == stages[i].name
  {
    if stages != [] {
      NamesExact(stages[..|stages| - 1]);
    }
  }

  /** Stages take their own times one after the other, and their limits add up likewise. */
  lemma {:induction false} TimesAddUp(a: seq<Stage>, b: seq<Stage>)
    ensures Total(a + b) == Total(a) + Total(b) && Limits(a + b) == Limits(a) + Limits(b)
    ensures |b| == 1 ==> Total(b) == Lasting(b[0]) && Limits(b) == Limit(b[0])
  {
    if b == [] {
      assert a + b == a;
    } else {
      var front := b[..|b| - 1];
      TimesAddUp(a, front);
      assert (a + b)[..|a + b| - 1] == a + front;
      assert |b| == 1 ==> front == [];
    }
  }

  lemma {:induction false} UnblockedKeepLimits(stages: seq<Stage>)
    requires forall i | 0 <= i < |stages| :: stages[i].blocks <= Limit(stages[i])
    ensures Total(stages) <= Limits(stages)
  {
    if stages != [] {
      UnblockedKeepLimits(stages[..|stages| - 1]);
      OverrunIffBlocked(stages[|stages| - 1]);
    }
  }

  ghost predicate WithinLimits(stages: seq<Stage>, i: nat, j: nat)
    requires i <= j <= |stages|
  {
    Total(stages[i..j]) <= Limits(stages[i..j])
  }

  /** Every stretch of stages keeps to its limits together exactly when no stage blocks past its own. */
  lemma LimitsHoldIff(stages: seq<Stage>)
    ensures (forall i: nat, j: nat | i <= j <= |stages| :: WithinLimits(stages, i, j)) <==>
      forall i | 0 <= i < |stages| :: stages[i].blocks <= Limit(stages[i])
  {
    if forall i: nat, j: nat | i <= j <= |stages| :: WithinLimits(stages, i, j) {
      forall i | 0 <= i < |stages| ensures stages[i].blocks <= Limit(stages[i]) {
        assert WithinLimits(stages, i, i + 1);
        assert stages[i..i + 1] == [stages[i]];
        assert [stages[i]][..0] == [];
        assert Total([stages[i]]) == Lasting(stages[i]) && Limits([stages[i]]) == Limit(stages[i]);
        OverrunIffBlocked(stages[i]);
      }
    }
    if forall i | 0 <= i < |stages| :: stages[i].blocks <= Limit(stages[i]) {
      forall i: nat, j: nat | i <= j <= |stages| ensures WithinLimits(stages, i, j) {
        UnblockedKeepLimits(stages[i..j]);
      }
    }
  }

  /** Every stage is started once, in order, whatever the others do; the failures are reported exactly;
      and the whole takes what the stages take one after the other. */
  method RunCleanupStages(stages: seq<Stage>) returns (started: seq<string>, failures: seq<Failure>, lasted: nat)
    ensures |started| == |stages| && forall i | 0 <= i < |stages| :: started[i] == stages[i].name
    ensures Reports(stages, failures)
    ensures failures == [] <==> forall i | 0 <= i < |stages| :: Succeeds(stages[i])
    ensures lasted == Total(stages)
  {
    started, failures, lasted := [], [], 0;
    for k := 0 to |stages|
      invariant started == Names(stages[..k]) && |started| == k
      invariant Reports(stages[..k], failures)
      invariant lasted == Total(stages[..k])
    {
      var stage := stages[k];
      assert stages[..k + 1][..k] == stages[..k] && stages[..k + 1] == stages[..k] + [stage];
      ReportsStep(stages[..k], stage, failures);
      started := started + [stage.name];
      var spent, error := Race(stage);
      lasted := lasted + spent;
      if error.Some? {
        failures := failures + [Failure(stage.name, error.value)];
      }
    }
    assert stages[..|stages|] == stages;
    NamesExact(stages);
    NoneFailing(stages);
  }
}
