/**
 The fault-injecting proxy: it reassembles one request frame per connection from chunks, numbers the
 read jobs, and stops at one chosen point of the run.
 */
module FaultProxy {
  import opened Frames
  import opened Numerals
  import opened Prelude

  // ----- One connection -----

  const MAX_FRAME := 4 * 1024 * 1024

  datatype Reader = Reader(buffer: Bytes, dispatched: bool, destroyed: bool)

  predicate IsFrame(b: Bytes) {
    IsWhole(b) && DeclaredLength(b) <= MAX_FRAME
  }

  /** More bytes than any frame with this header may have. */
  predicate IsExcess(b: Bytes) {
    |b| >= 4 && (DeclaredLength(b) > MAX_FRAME || |b| > DeclaredLength(b) + 4)
  }

  /** A data event, and the frame it dispatches; a destroyed socket has no more data events. */
  function Receive(r: Reader, chunk: Bytes): (Reader, Option<Bytes>) {
    if r.destroyed then (r, None)
    else if r.dispatched then (r.(destroyed := true), None)
    else
      var buffer := r.buffer + chunk;
      if IsExcess(buffer) then (Reader(buffer, false, true), None)
      else if IsFrame(buffer) then (Reader(buffer, true, false), Some(buffer))
      else (Reader(buffer, false, false), None)
  }

  class Connection {
    var buffer: Bytes
    var dispatched: bool
    var destroyed: bool

    function State(): Reader
      reads this
    {
      Reader(buffer, dispatched, destroyed)
    }

    constructor ()
      ensures State() == Reader([], false, false)
    {
      buffer, dispatched, destroyed := [], false, false;
    }

    method Data(chunk: Bytes) returns (frame: Option<Bytes>)
      modifies this
      ensures (State(), frame) == Receive(old(State()), chunk)
    {
      frame := None;
      if destroyed {
        return;
      }
      if dispatched {
        destroyed := true;
        return;
      }
      buffer := buffer + chunk;
      if |buffer| < 4 {
        return;
      }
      var length := DeclaredLength(buffer);
      if length > MAX_FRAME || |buffer| > length + 4 {
        destroyed := true;
        return;
      }
      if |buffer| != length + 4 {
        return;
      }
      dispatched := true;
      frame := Some(buffer);
    }
  }

  // ----- Whole connections -----

  function After(chunks: seq<Bytes>): Reader {
    if chunks == [] then Reader([], false, false)
    else Receive(After(chunks[..|chunks| - 1]), chunks[|chunks| - 1]).0
  }

  /** Every frame the connection dispatches, in order. */
  function Dispatched(chunks: seq<Bytes>): seq<Bytes> {
    if chunks == [] then []
    else
      var frame := Receive(After(chunks[..|chunks| - 1]), chunks[|chunks| - 1]).1;
      Dispatched(chunks[..|chunks| - 1]) + if frame.Some? then [frame.value] else []
  }

  /** The first k chunks are exactly one frame. */
  predicate FrameAt(chunks: seq<Bytes>, k: nat) {
    k <= |chunks| && IsFrame(Joined(chunks[..k]))
  }

  lemma ExcessGrows(a: Bytes, b: Bytes)
    requires IsExcess(a) && a <= b
    ensures IsExcess(b) && !IsFrame(b)
  {
    assert b[0] == a[0] && b[1] == a[1] && b[2] == a[2] && b[3] == a[3];
  }

  lemma FrameAtFront(chunks: seq<Bytes>, k: nat)
    requires |chunks| > 0 && k < |chunks|
    ensures FrameAt(chunks[..|chunks| - 1], k) <==> FrameAt(chunks, k)
  {
    assert chunks[..|chunks| - 1][..k] == chunks[..k];
  }

  ghost predicate FrameBefore(chunks: seq<Bytes>, n: nat) {
    exists k: nat | k < n :: FrameAt(chunks, k)
  }

  lemma FrameBeforeLast(chunks: seq<Bytes>)
    requires chunks != []
    ensures
      var front := chunks[..|chunks| - 1];
      FrameBefore(chunks, |chunks|) <==> FrameBefore(front, |front|) || FrameAt(front, |front|)
  {
    var front := chunks[..|chunks| - 1];
    if k: nat :| k < |chunks| && FrameAt(chunks, k) {
      FrameAtFront(chunks, k);
      assert FrameAt(front, k);
    }
    if k: nat :| FrameAt(front, k) {
      FrameAtFront(chunks, k);
      assert FrameAt(chunks, k);
    }
  }

  ghost predicate Explains(chunks: seq<Bytes>, r: Reader) {
    var n := |chunks|;
    && (r.dispatched <==> FrameBefore(chunks, n) || FrameAt(chunks, n))
    && if r.dispatched then
         && Dispatched(chunks) == [r.buffer] && IsFrame(r.buffer) && r.buffer <= Joined(chunks)
         && (r.destroyed <==> FrameBefore(chunks, n))
       else
         && Dispatched(chunks) == [] && (r.destroyed <==> IsExcess(Joined(chunks)))
         && (!r.destroyed ==> r.buffer == Joined(chunks))
  }

  /** What every chunk sequence leaves behind. */
  lemma {:induction false} ReaderExplained(chunks: seq<Bytes>)
    ensures Explains(chunks, After(chunks))
  {
    if chunks != [] {
      ReaderExplained(chunks[..|chunks| - 1]);
      FrameBeforeLast(chunks);
      assert chunks[..|chunks|] == chunks;
      StepExplained(chunks);
    }
  }

  lemma StepExplained(chunks: seq<Bytes>)
    requires chunks != [] && chunks[..|chunks|] == chunks
    requires Explains(chunks[..|chunks| - 1], After(chunks[..|chunks| - 1]))
    requires
      var front := chunks[..|chunks| - 1];
      FrameBefore(chunks, |chunks|) <==> FrameBefore(front, |front|) || FrameAt(front, |front|)
    ensures Explains(chunks, After(chunks))
  {
    var front := chunks[..|chunks| - 1];
    var was := After(front);
    if !was.dispatched && was.destroyed {
      ExcessGrows(Joined(front), Joined(chunks));
    }
  }

  /** A connection dispatches a frame exactly when its first chunks, to some chunk, are that frame. */
  lemma DispatchesExactly(chunks: seq<Bytes>, frame: Bytes)
    ensures Dispatched(chunks) == [frame] <==> exists k: nat :: FrameAt(chunks, k) && Joined(chunks[..k]) == frame
    ensures Dispatched(chunks) == [] <==> forall k: nat :: !FrameAt(chunks, k)
  {
    ReaderExplained(chunks);
    forall k: nat | FrameAt(chunks, k) ensures Dispatched(chunks) == [Joined(chunks[..k])] {
      var r := After(chunks);
      JoinedPrefix(chunks, k);
      WholePrefixIsUnique(r.buffer, Joined(chunks[..k]), Joined(chunks));
    }
  }

  /** However an exact frame is cut, it is dispatched exactly once; and the socket stays open when no
      chunk is empty. */
  lemma ChunkingDoesNotMatter(chunks: seq<Bytes>)
    requires IsFrame(Joined(chunks))
    ensures Dispatched(chunks) == [Joined(chunks)]
    ensures (forall i | 0 <= i < |chunks| :: chunks[i] != []) ==> !After(chunks).destroyed
  {
    assert chunks[..|chunks|] == chunks;
    assert FrameAt(chunks, |chunks|);
    DispatchesExactly(chunks, Joined(chunks));
    ReaderExplained(chunks);
    if (forall i | 0 <= i < |chunks| :: chunks[i] != []) && After(chunks).destroyed {
      var k: nat :| k < |chunks| && FrameAt(chunks, k);
      JoinedPrefix(chunks, k);
      WholePrefixIsUnique(Joined(chunks[..k]), Joined(chunks), Joined(chunks));
      JoinedGrows(chunks, k);
      assert false;
    }
  }

  /** A stream that begins with a frame dispatches it exactly when a chunk ends where the frame ends;
      nothing else is ever dispatched. */
  lemma BoundaryDecides(chunks: seq<Bytes>, frame: Bytes)
    requires IsFrame(frame) && frame <= Joined(chunks)
    ensures Dispatched(chunks) == if exists k: nat | k <= |chunks| :: |Joined(chunks[..k])| == |frame| then [frame] else []
  {
    DispatchesExactly(chunks, frame);
    forall k: nat | k <= |chunks| ensures FrameAt(chunks, k) <==> |Joined(chunks[..k])| == |frame| {
      JoinedPrefix(chunks, k);
      if FrameAt(chunks, k) {
        WholePrefixIsUnique(frame, Joined(chunks[..k]), Joined(chunks));
      }
    }
    if k: nat :| k <= |chunks| && |Joined(chunks[..k])| == |frame| {
      JoinedPrefix(chunks, k);
      assert FrameAt(chunks, k) && Joined(chunks[..k]) == frame;
    }
  }

  // ----- The gate and the read jobs -----

  datatype Call = Call(action: string, jobId: string, toolCallId: string) {
    function Key(): string {
      jobId + ":" + toolCallId
    }

    predicate IsRead() {
      action == "read-workflow"
    }

    predicate IsSubmit() {
      action == "submit-workflow"
    }
  }

  datatype Hit = Hit(point: string, call: Call)

  datatype Gate = Gate(point: string, hit: Option<Hit>, waiting: bool)

  datatype Run = Run(gate: Gate, readJobs: map<string, nat>, calls: seq<Call>)

  /** A request arrives; the upstream has answered a call in full; the gate is released. */
  datatype Event = Arrived(call: Call) | Answered(call: Call) | Released

  function Paused(g: Gate, at: string, call: Call): Gate {
    if g.hit.Some? || g.point != at then g else Gate(g.point, Some(Hit(at, call)), true)
  }

  function Numbered(jobs: map<string, nat>, call: Call): map<string, nat> {
    if call.IsRead() && call.Key() !in jobs then jobs[call.Key() := |jobs| + 1] else jobs
  }

  function ReadPoint(n: nat): string {
    "host-read-" + Decimal(n)
  }

  const SUBMIT_BEFORE := "host-submit-before"
  const SUBMIT_AFTER := "host-submit-after"

  /** The point at which an event asks the gate to pause, if any. */
  function PointOf(jobs: map<string, nat>, e: Event): Option<string> {
    match e
    case Arrived(call) =>
      if call.IsRead() then Some(ReadPoint(Numbered(jobs, call)[call.Key()]))
      else if call.IsSubmit() then Some(SUBMIT_BEFORE)
      else None
    case Answered(call) => if call.IsSubmit() then Some(SUBMIT_AFTER) else None
    case Released => None
  }

  function Handle(run: Run, e: Event): Run {
    var at := PointOf(run.readJobs, e);
    match e
    case Arrived(call) =>
      Run(if at.Some? then Paused(run.gate, at.value, call) else run.gate,
        Numbered(run.readJobs, call), run.calls + [call])
    case Answered(call) =>
      run.(gate := if at.Some? then Paused(run.gate, at.value, call) else run.gate)
    case Released => run.(gate := run.gate.(waiting := false))
  }

  class ScriptFaultGate {
    const point: string
    var hit: Option<Hit>
    var waiting: bool

    function State(): Gate
      reads this
    {
      Gate(point, hit, waiting)
    }

    constructor (point: string)
      ensures State() == Gate(point, None, false)
    {
      this.point := point;
      hit, waiting := None, false;
    }

    method Pause(at: string, call: Call)
      modifies this
      ensures State() == Paused(old(State()), at, call)
    {
      if hit.Some? || point != at {
        return;
      }
      hit, waiting := Some(Hit(at, call)), true;
    }

    method Release()
      modifies this
      ensures State() == old(State()).(waiting := false)
    {
      waiting := false;
    }
  }

  class Proxy {
    const gate: ScriptFaultGate
    var readJobs: map<string, nat>
    var calls: seq<Call>

    function State(): Run
      reads this, gate
    {
      Run(gate.State(), readJobs, calls)
    }

    constructor (gate: ScriptFaultGate)
      ensures this.gate == gate && State() == Run(gate.State(), map[], [])
    {
      this.gate := gate;
      readJobs, calls := map[], [];
    }

    /** A decoded request; false when its operation is not one the proxy knows. */
    method Arrive(call: Call) returns (known: bool)
      modifies this, gate
      ensures State() == Handle(old(State()), Arrived(call))
      ensures known <==> call.IsRead() || call.IsSubmit()
    {
      calls := calls + [call];
      var key := call.jobId + ":" + call.toolCallId;
      known := true;
      if call.action == "read-workflow" {
        if key !in readJobs {
          readJobs := readJobs[key := |readJobs| + 1];
        }
        gate.Pause("host-read-" + Decimal(readJobs[key]), call);
      } else if call.action == "submit-workflow" {
        gate.Pause("host-submit-before", call);
      } else {
        known := false;
      }
    }

    method Answer(call: Call)
      modifies this, gate
      ensures State() == Handle(old(State()), Answered(call))
    {
      if call.action == "submit-workflow" {
        gate.Pause("host-submit-after", call);
      }
    }

    method Release()
      modifies gate
      ensures State() == Handle(old(State()), Released)
    {
      gate.Release();
    }
  }

  // ----- Whole runs -----

  function Outcome(point: string, events: seq<Event>): Run {
    if events == [] then Run(Gate(point, None, false), map[], [])
    else Handle(Outcome(point, events[..|events| - 1]), events[|events| - 1])
  }

  predicate IsReadArrival(e: Event) {
    e.Arrived? && e.call.IsRead()
  }

  function ReadKeys(events: seq<Event>): seq<string> {
    if events == [] then []
    else
      var last := events[|events| - 1];
      ReadKeys(events[..|events| - 1]) + if IsReadArrival(last) then [last.call.Key()] else []
  }

  /** The distinct read jobs, in the order in which they were first seen. */
  function JobsSeen(events: seq<Event>): seq<string> {
    FirstOccurrences(ReadKeys(events))
  }

  /** Every map of ordinals is the order of first sight, counted from one. */
  lemma {:induction false} OrdinalsExact(point: string, events: seq<Event>)
    ensures
      var jobs, seen := Outcome(point, events).readJobs, JobsSeen(events);
      && |jobs| == |seen| && Distinct(seen) && (forall key :: key in jobs <==> key in seen)
      && forall i | 0 <= i < |seen| :: jobs[seen[i]] == i + 1
  {
    FirstOccurrencesFacts(ReadKeys(events));
    if events != [] {
      var front, last := events[..|events| - 1], events[|events| - 1];
      OrdinalsExact(point, front);
      var before, seen := Outcome(point, front).readJobs, JobsSeen(front);
      if IsReadArrival(last) {
        var keys := ReadKeys(events);
        assert keys[..|keys| - 1] == ReadKeys(front);
        if last.call.Key() in before {
          assert JobsSeen(events) == seen;
        } else {
          assert JobsSeen(events) == seen + [last.call.Key()];
        }
      } else {
        assert ReadKeys(events) == ReadKeys(front);
      }
    }
  }

  lemma {:induction false} SeenGrows(events: seq<Event>, n: nat)
    requires n <= |events|
    ensures JobsSeen(events[..n]) <= JobsSeen(events)
  {
    if n == |events| {
      assert events[..n] == events;
    } else {
      SeenGrows(events[..|events| - 1], n);
      assert events[..|events| - 1][..n] == events[..n];
      var keys := ReadKeys(events);
      if IsReadArrival(events[|events| - 1]) {
        assert keys[..|keys| - 1] == ReadKeys(events[..|events| - 1]);
      } else {
        assert keys == ReadKeys(events[..|events| - 1]);
      }
    }
  }

  /** The point the i-th event asks for. */
  function PointAt(point: string, events: seq<Event>, i: nat): Option<string>
    requires i < |events|
  {
    PointOf(Outcome(point, events[..i]).readJobs, events[i])
  }

  /** The place of a job among the distinct jobs seen so far, counted from one, is its ordinal. */
  lemma OrdinalNow(point: string, events: seq<Event>, last: Event) returns (p: nat)
    requires IsReadArrival(last)
    ensures
      var key, before, seen := last.call.Key(), JobsSeen(events), JobsSeen(events + [last]);
      && p < |seen| && seen[p] == key && PointOf(Outcome(point, events).readJobs, last) == Some(ReadPoint(p + 1))
      && (p < |before| <==> key in before) && (key !in before ==> p == |before|)
  {
    var upto := events + [last];
    assert upto[..|upto| - 1] == events;
    var key, seen := last.call.Key(), JobsSeen(events);
    OrdinalsExact(point, events);
    assert ReadKeys(upto)[..|ReadKeys(upto)| - 1] == ReadKeys(events);
    if key in seen {
      p :| 0 <= p < |seen| && seen[p] == key;
    } else {
      p := |seen|;
      assert JobsSeen(upto) == seen + [key];
    }
  }

  /** And it keeps that ordinal at each of its arrivals, to the end of the run. */
  lemma OrdinalAtArrival(point: string, events: seq<Event>, i: nat) returns (p: nat)
    requires i < |events| && IsReadArrival(events[i])
    ensures p < |JobsSeen(events)| && JobsSeen(events)[p] == events[i].call.Key()
    ensures PointAt(point, events, i) == Some(ReadPoint(p + 1))
    ensures events[i].call.Key() !in JobsSeen(events[..i]) ==> p == |JobsSeen(events[..i])|
  {
    p := OrdinalNow(point, events[..i], events[i]);
    assert events[..i] + [events[i]] == events[..i + 1];
    SeenGrows(events, i + 1);
  }

  /** Arrivals of read jobs ask for the same point exactly when they have the same key. */
  lemma RetriesKeepTheirOrdinal(point: string, events: seq<Event>, i: nat, j: nat)
    requires i < |events| && j < |events| && IsReadArrival(events[i]) && IsReadArrival(events[j])
    ensures PointAt(point, events, i) == PointAt(point, events, j) <==> events[i].call.Key() == events[j].call.Key()
  {
    var p := OrdinalAtArrival(point, events, i);
    var q := OrdinalAtArrival(point, events, j);
    OrdinalsExact(point, events);
    if ReadPoint(p + 1) == ReadPoint(q + 1) {
      ReadPointIsInjective(p + 1, q + 1);
    }
  }

  lemma ReadPointIsInjective(m: nat, n: nat)
    requires ReadPoint(m) == ReadPoint(n)
    ensures m == n
  {
    assert ReadPoint(m)[10..] == Decimal(m) && ReadPoint(n)[10..] == Decimal(n);
    DecimalIsInjective(m, n);
  }

  // ----- The pause -----

  /** The i-th event is stopped at the gate. */
  predicate PausesAt(point: string, events: seq<Event>, i: nat)
    requires i < |events|
  {
    !Outcome(point, events[..i]).gate.hit.Some? && Outcome(point, events[..i + 1]).gate.hit.Some?
  }

  ghost predicate AsksFor(point: string, events: seq<Event>, i: nat) {
    i < |events| && PointAt(point, events, i) == Some(point)
  }

  ghost predicate SomeAsk(point: string, events: seq<Event>) {
    exists i: nat :: AsksFor(point, events, i)
  }

  lemma SomeAskStep(point: string, events: seq<Event>)
    requires events != []
    ensures SomeAsk(point, events) <==>
      SomeAsk(point, events[..|events| - 1]) || AsksFor(point, events, |events| - 1)
  {
    var n := |events| - 1;
    AsksInPrefix(point, events, n);
    if i: nat :| AsksFor(point, events[..n], i) {
      assert AsksFor(point, events, i);
    }
    if i: nat :| i < n && AsksFor(point, events, i) {
      assert AsksFor(point, events[..n], i);
    }
  }

  lemma {:induction false} HitExact(point: string, events: seq<Event>)
    ensures Outcome(point, events).gate.point == point
    ensures Outcome(point, events).gate.hit.Some? <==> SomeAsk(point, events)
  {
    if events != [] {
      HitExact(point, events[..|events| - 1]);
      SomeAskStep(point, events);
    }
  }

  /** The run stops at the first event that asks for the gate's point, and so at most once. */
  lemma PausesOnce(point: string, events: seq<Event>, i: nat)
    requires i < |events|
    ensures PausesAt(point, events, i) <==> AsksFor(point, events, i) && forall j: nat | j < i :: !AsksFor(point, events, j)
  {
    HitExact(point, events[..i]);
    HitExact(point, events[..i + 1]);
    AsksInPrefix(point, events, i);
    AsksInPrefix(point, events, i + 1);
    assert AsksFor(point, events[..i + 1], i) <==> AsksFor(point, events, i);
  }

  /** What the gate records is the call of the event that it stops. */
  lemma HitIsTheCall(point: string, events: seq<Event>, i: nat)
    requires i < |events| && PausesAt(point, events, i)
    ensures !events[i].Released? && Outcome(point, events[..i + 1]).gate.hit == Some(Hit(point, events[i].call))
  {
    HitExact(point, events[..i]);
    assert events[..i + 1][..i] == events[..i];
  }

  /** And it keeps that record to the end of the run. */
  lemma {:induction false} HitStays(point: string, events: seq<Event>, n: nat)
    requires n <= |events| && Outcome(point, events[..n]).gate.hit.Some?
    ensures Outcome(point, events).gate.hit == Outcome(point, events[..n]).gate.hit
  {
    if n == |events| {
      assert events[..n] == events;
    } else {
      assert events[..|events| - 1][..n] == events[..n];
      HitStays(point, events[..|events| - 1], n);
    }
  }

  const ARRIVES: Event -> bool := (e: Event) => e.Arrived?

  ghost predicate CallsAt(events: seq<Event>, at: seq<nat>, calls: seq<Call>) {
    |calls| == |at| && forall j | 0 <= j < |at| :: at[j] < |events| && events[at[j]] == Arrived(calls[j])
  }

  /** The log holds every arriving call, once and in order. */
  lemma {:induction false} CallsAreLogged(point: string, events: seq<Event>) returns (at: seq<nat>)
    ensures Picks(events, ARRIVES, at) && CallsAt(events, at, Outcome(point, events).calls)
  {
    at := [];
    if events != [] {
      var n := |events| - 1;
      at := CallsAreLogged(point, events[..n]);
      PicksSnoc(events[..n], ARRIVES, at, events[n]);
      assert events == events[..n] + [events[n]];
      at := at + if ARRIVES(events[n]) then [n] else [];
    }
  }

  lemma AsksInPrefix(point: string, events: seq<Event>, n: nat)
    requires n <= |events|
    ensures forall j: nat | j < n :: AsksFor(point, events[..n], j) <==> AsksFor(point, events, j)
  {
    forall j: nat | j < n ensures AsksFor(point, events[..n], j) <==> AsksFor(point, events, j) {
      assert events[..n][..j] == events[..j];
    }
  }

  lemma AtMostOnePause(point: string, events: seq<Event>, i: nat, j: nat)
    requires i < |events| && j < |events| && PausesAt(point, events, i) && PausesAt(point, events, j)
    ensures i == j
  {
    PausesOnce(point, events, i);
    PausesOnce(point, events, j);
  }

  /** A gate at the n-th read stops the run exactly where the n-th distinct job is first seen: no retry
      of an earlier job, and no retry of that job, can take its place. */
  lemma ReadGateStopsAtNewJob(n: nat, events: seq<Event>, i: nat)
    requires n >= 1 && i < |events|
    ensures PausesAt(ReadPoint(n), events, i) <==>
      && IsReadArrival(events[i]) && events[i].call.Key() !in JobsSeen(events[..i]) && |JobsSeen(events[..i])| == n - 1
  {
    var point := ReadPoint(n);
    PausesOnce(point, events, i);
    if PausesAt(point, events, i) {
      AskedByRead(n, events, i);
      if events[i].call.Key() in JobsSeen(events[..i]) {
        var j := EarlierArrival(events, i);
        RetriesKeepTheirOrdinal(point, events, i, j);
        assert AsksFor(point, events, j);
        assert false;
      }
    }
    if IsReadArrival(events[i]) && events[i].call.Key() !in JobsSeen(events[..i]) && |JobsSeen(events[..i])| == n - 1 {
      var p := OrdinalAtArrival(point, events, i);
      forall j: nat | j < i ensures !AsksFor(point, events, j) {
        if AsksFor(point, events, j) {
          AskedByRead(n, events, j);
          SeenGrows(events[..i], j + 1);
          assert events[..i][..j + 1] == events[..j + 1] && events[..j + 1][..j] == events[..j];
          SeenIsEnough(n, events, j);
          assert false;
        }
      }
    }
  }

  lemma SeenIsEnough(n: nat, events: seq<Event>, j: nat)
    requires n >= 1 && AsksFor(ReadPoint(n), events, j) && IsReadArrival(events[j])
    ensures |JobsSeen(events[..j + 1])| >= n
  {
    var upto := events[..j + 1];
    assert upto[..j] == events[..j];
    var p := OrdinalAtArrival(ReadPoint(n), upto, j);
    ReadPointIsInjective(p + 1, n);
  }

  lemma AskedByRead(n: nat, events: seq<Event>, i: nat)
    requires AsksFor(ReadPoint(n), events, i)
    ensures IsReadArrival(events[i])
    ensures events[i].call.Key() !in JobsSeen(events[..i]) ==> |JobsSeen(events[..i])| + 1 == n
  {
    assert ReadPoint(n)[5] == 'r' && SUBMIT_BEFORE[5] == 's' && SUBMIT_AFTER[5] == 's';
    var p := OrdinalAtArrival(ReadPoint(n), events, i);
    ReadPointIsInjective(p + 1, n);
  }

  lemma {:induction false} EarlierArrivalIn(events: seq<Event>, key: string) returns (j: nat)
    requires key in ReadKeys(events)
    ensures j < |events| && IsReadArrival(events[j]) && events[j].call.Key() == key
  {
    var front, last := events[..|events| - 1], events[|events| - 1];
    if IsReadArrival(last) && last.call.Key() == key {
      j := |front|;
    } else {
      j := EarlierArrivalIn(front, key);
    }
  }

  lemma EarlierArrival(events: seq<Event>, i: nat) returns (j: nat)
    requires i < |events| && IsReadArrival(events[i]) && events[i].call.Key() in JobsSeen(events[..i])
    ensures j < i && IsReadArrival(events[j]) && events[j].call.Key() == events[i].call.Key()
  {
    FirstOccurrencesFacts(ReadKeys(events[..i]));
    j := EarlierArrivalIn(events[..i], events[i].call.Key());
  }

  /** The two submit gates stop the run at the first submission, before it is forwarded or after it is
      answered. */
  lemma SubmitGatesStopAtFirst(events: seq<Event>, i: nat)
    requires i < |events|
    ensures PausesAt(SUBMIT_BEFORE, events, i) <==>
      IsSubmission(events[i]) && forall j | 0 <= j < i :: !IsSubmission(events[j])
    ensures PausesAt(SUBMIT_AFTER, events, i) <==>
      IsReceipt(events[i]) && forall j | 0 <= j < i :: !IsReceipt(events[j])
  {
    PausesOnce(SUBMIT_BEFORE, events, i);
    PausesOnce(SUBMIT_AFTER, events, i);
    forall j: nat | j <= i
      ensures AsksFor(SUBMIT_BEFORE, events, j) <==> IsSubmission(events[j])
      ensures AsksFor(SUBMIT_AFTER, events, j) <==> IsReceipt(events[j])
    {
      assert forall n :: ReadPoint(n)[5] == 'r';
      assert SUBMIT_BEFORE[5] == 's' && SUBMIT_AFTER[5] == 's';
      assert SUBMIT_BEFORE[12] == 'b' && SUBMIT_AFTER[12] == 'a';
    }
  }

  predicate IsSubmission(e: Event) {
    e.Arrived? && e.call.IsSubmit()
  }

  predicate IsReceipt(e: Event) {
    e.Answered? && e.call.IsSubmit()
  }

  /** Stopped at the i-th event, with no release since. */
  ghost predicate HeldSince(point: string, events: seq<Event>, i: nat) {
    i < |events| && PausesAt(point, events, i) && forall j | i < j < |events| :: !events[j].Released?
  }

  lemma HeldInFront(point: string, events: seq<Event>, i: nat)
    requires i < |events| - 1
    ensures HeldSince(point, events, i) <==>
      HeldSince(point, events[..|events| - 1], i) && !events[|events| - 1].Released?
  {
    var front := events[..|events| - 1];
    assert front[..i] == events[..i] && front[..i + 1] == events[..i + 1];
    assert forall j | i < j < |front| :: front[j] == events[j];
  }

  lemma WaitingStep(point: string, events: seq<Event>)
    requires events != []
    ensures
      var n := |events| - 1;
      Outcome(point, events).gate.waiting <==>
        PausesAt(point, events, n) || (Outcome(point, events[..n]).gate.waiting && !events[n].Released?)
  {
    assert events[..|events|] == events;
  }

  /** The run is held exactly from its pause to the next release; a released gate never holds again. */
  lemma {:induction false} HeldExactly(point: string, events: seq<Event>)
    ensures Outcome(point, events).gate.waiting <==> exists i: nat :: HeldSince(point, events, i)
  {
    if events != [] {
      var n := |events| - 1;
      HeldExactly(point, events[..n]);
      WaitingStep(point, events);
      assert HeldSince(point, events, n) <==> PausesAt(point, events, n);
      forall i: nat | i < n ensures HeldSince(point, events, i) <==> HeldSince(point, events[..n], i) && !events[n].Released? {
        HeldInFront(point, events, i);
      }
      if i: nat :| HeldSince(point, events[..n], i) && !events[n].Released? {
        assert HeldSince(point, events, i);
      }
      if i: nat :| HeldSince(point, events, i) && i < n {
        assert HeldSince(point, events[..n], i);
      }
    }
  }

  // ----- Keys -----

  predicate StraddlesBy(a: Call, b: Call, middle: string) {
    b.jobId == a.jobId + ":" + middle && a.toolCallId == middle + ":" + b.toolCallId
  }

  /** One call's job id continues where the other's ends, and takes the colon from the other's tool call. */
  ghost predicate Straddles(a: Call, b: Call) {
    exists middle :: StraddlesBy(a, b, middle)
  }

  lemma LongerJobStraddles(a: Call, b: Call)
    requires a.Key() == b.Key() && |a.jobId| < |b.jobId|
    ensures Straddles(a, b)
  {
    var s, m, n := a.Key(), |a.jobId|, |b.jobId|;
    var middle := s[m + 1..n];
    assert s[..m] == a.jobId && s[m] == ':' && s[m + 1..] == a.toolCallId;
    assert s[..n] == b.jobId && s[n] == ':' && s[n + 1..] == b.toolCallId;
    assert s[..n] == s[..m] + [s[m]] + s[m + 1..n];
    assert s[m + 1..] == s[m + 1..n] + [s[n]] + s[n + 1..];
    assert StraddlesBy(a, b, middle);
  }

  lemma StraddlingSharesKey(a: Call, b: Call)
    requires Straddles(a, b)
    ensures a.Key() == b.Key() && a.jobId != b.jobId
  {
    var middle :| StraddlesBy(a, b, middle);
    assert a.Key() == a.jobId + ":" + middle + ":" + b.toolCallId == b.Key();
    assert |b.jobId| > |a.jobId|;
  }

  /** Two calls share a key exactly when they are the same job and tool call, or one straddles the other. */
  lemma KeysCoincideIff(a: Call, b: Call)
    ensures a.Key() == b.Key() <==>
      (a.jobId == b.jobId && a.toolCallId == b.toolCallId) || Straddles(a, b) || Straddles(b, a)
  {
    if a.Key() == b.Key() {
      var s := a.Key();
      if |a.jobId| < |b.jobId| {
        LongerJobStraddles(a, b);
      } else if |b.jobId| < |a.jobId| {
        LongerJobStraddles(b, a);
      } else {
        assert s[..|a.jobId|] == a.jobId && s[..|b.jobId|] == b.jobId;
        assert s[|a.jobId| + 1..] == a.toolCallId && s[|b.jobId| + 1..] == b.toolCallId;
      }
    }
    if Straddles(a, b) {
      StraddlingSharesKey(a, b);
    }
    if Straddles(b, a) {
      StraddlingSharesKey(b, a);
    }
  }

  predicate OtherIds(a: Call, b: Call) {
    b.jobId != a.jobId || b.toolCallId != a.toolCallId
  }

  /** A call can be confused with another exactly when one of its ids has a colon. */
  lemma KeyIsSharedIff(a: Call)
    ensures (exists b: Call :: b.Key() == a.Key() && OtherIds(a, b)) <==> ':' in a.jobId || ':' in a.toolCallId
  {
    if ':' in a.jobId {
      var k :| 0 <= k < |a.jobId| && a.jobId[k] == ':';
      var b := Call(a.action, a.jobId[..k], a.jobId[k + 1..] + ":" + a.toolCallId);
      assert a.jobId == b.jobId + ":" + a.jobId[k + 1..];
      assert StraddlesBy(b, a, a.jobId[k + 1..]);
      StraddlingSharesKey(b, a);
    }
    if ':' in a.toolCallId {
      var k :| 0 <= k < |a.toolCallId| && a.toolCallId[k] == ':';
      var b := Call(a.action, a.jobId + ":" + a.toolCallId[..k], a.toolCallId[k + 1..]);
      assert a.toolCallId == a.toolCallId[..k] + ":" + b.toolCallId;
      assert StraddlesBy(a, b, a.toolCallId[..k]);
      StraddlingSharesKey(a, b);
    }
    if b: Call :| b.Key() == a.Key() && OtherIds(a, b) {
      KeysCoincideIff(a, b);
    }
  }
}
