/**
 Translation of saved read markers: the longest run of versions in the current phase of each
 live notification, the ids of that run, and the list of saved ids rewritten to run entries.
 */
module ReadIds {
  import opened Prelude

  datatype Json = Str(text: string) | Num(number: int) | Arr(items: seq<Json>)

  /** A saved id. SHA-256 over (artifact, revision, value) is taken to be injective, so a digest
      is represented by what it was computed from; any other saved text is `Other`. */
  datatype Id = Sha(artifactId: string, revision: int, value: seq<Json>) | Other(text: string)

  datatype Content =
    | Task(assigneeId: string, priority: string, assignment: string, execution: string,
           delivery: string, resultIds: seq<string>, runRequested: int)
    | NotTask

  datatype Version = Version(revision: int, content: Content)

  datatype Artifact = Artifact(
    id: string, projectId: string, content: Content, revision: int,
    creatorPrincipalId: string, versions: seq<Version>)

  datatype Project = Project(id: string, members: seq<string>)

  datatype Actant = Actant(id: string, isHuman: bool, principalId: string)

  datatype Workspace = Workspace(projects: seq<Project>, actants: seq<Actant>, artifacts: seq<Artifact>)

  type Phase = Option<seq<Json>>

  function Strings(texts: seq<string>): seq<Json> {
    seq(|texts|, i requires 0 <= i < |texts| => Str(texts[i]))
  }

  /** One artifact as one human actant of the principal sees it. */
  datatype View = View(artifact: Artifact, humanId: string, principalId: string) {

    function PhaseOf(content: Content): Phase {
      if content.NotTask? then None
      else if && content.assigneeId == humanId
              && content.execution != "completed" && content.execution != "cancelled"
              && content.assignment != "declined" then
        Some([Str("human"), Str(content.assignment),
              Str(if content.execution == "waiting" then "waiting" else "ready"),
              Str(content.assigneeId), Num(content.runRequested)])
      else if content.delivery == "ready" && artifact.creatorPrincipalId == principalId then
        Some([Str("delivery"), Num(content.runRequested), Arr(Strings(content.resultIds))])
      else None
    }

    function Current(): Phase {
      PhaseOf(artifact.content)
    }

    predicate Live() {
      Current().Some?
    }

    /** Where the longest suffix of the first `n` versions in the current phase starts. */
    function StartWithin(n: nat): (k: nat)
      requires n <= |artifact.versions|
    {
      if n == 0 || PhaseOf(artifact.versions[n - 1].content) != Current() then n else StartWithin(n - 1)
    }

    function Run(): seq<Version> {
      assert StartWithin(|artifact.versions|) <= |artifact.versions| by { StartIsLongest(|artifact.versions|); }
      artifact.versions[StartWithin(|artifact.versions|)..]
    }

    function EntryRevision(): int {
      if Run() != [] then Run()[0].revision else artifact.revision
    }

    function EntryId(): Id
      requires Live()
    {
      Sha(artifact.id, EntryRevision(), Current().value)
    }

    function LegacyId(v: Version): Id
      requires Live() && v.content.Task?
    {
      Sha(artifact.id, v.revision, Current().value + [Str(v.content.priority)])
    }

    /** The ids of this notification: its entry, and the legacy id of each version of its run. */
    ghost predicate Covers(id: Id) {
      && Live()
      && (id == EntryId() || exists v | v in Run() :: v.content.Task? && id == LegacyId(v))
    }

    /** The suffix has only versions in the current phase, and no longer suffix does. */
    lemma {:induction false} StartIsLongest(n: nat)
      requires n <= |artifact.versions|
      ensures StartWithin(n) <= n
      ensures forall i | StartWithin(n) <= i < n :: PhaseOf(artifact.versions[i].content) == Current()
      ensures StartWithin(n) > 0 ==> PhaseOf(artifact.versions[StartWithin(n) - 1].content) != Current()
    {
      if n > 0 && PhaseOf(artifact.versions[n - 1].content) == Current() {
        StartIsLongest(n - 1);
      }
    }

    /** Everything from `k` on is in the current phase, and what stands before it is not. */
    predicate IsLongestFrom(k: nat)
      requires k <= |artifact.versions|
    {
      && (forall i | k <= i < |artifact.versions| :: PhaseOf(artifact.versions[i].content) == Current())
      && (k > 0 ==> PhaseOf(artifact.versions[k - 1].content) != Current())
    }

    lemma LongestStartIsUnique(k: nat, l: nat)
      requires k <= l <= |artifact.versions| && IsLongestFrom(k) && IsLongestFrom(l)
      ensures k == l
    {
    }

    /** The run is the one suffix in the current phase that cannot be extended backwards, and the
        entry revision is its first, or the artifact's own when the run is empty. */
    lemma RunIsLongestSuffix(k: nat)
      requires k <= |artifact.versions|
      ensures Run() == artifact.versions[k..] <==> IsLongestFrom(k)
      ensures Run() == artifact.versions[k..] ==>
        EntryRevision() == if k < |artifact.versions| then artifact.versions[k].revision else artifact.revision
    {
      StartIsLongest(|artifact.versions|);
      var start := StartWithin(|artifact.versions|);
      assert IsLongestFrom(start);
      if Run() == artifact.versions[k..] {
        assert |Run()| == |artifact.versions| - start == |artifact.versions| - k;
      }
      if IsLongestFrom(k) {
        if k <= start {
          LongestStartIsUnique(k, start);
        } else {
          LongestStartIsUnique(start, k);
        }
      }
    }
  }

  /** A phase has three or five parts, so an entry value never has the length of a legacy value. */
  lemma EntryIsNeverLegacy(n: View, m: View, v: Version)
    requires n.Live() && m.Live() && v.content.Task?
    ensures n.EntryId() != m.LegacyId(v)
  {
    assert |n.Current().value| == 3 || |n.Current().value| == 5;
    assert |m.Current().value + [Str(v.content.priority)]| == |m.Current().value| + 1;
  }

  // ----- The table the nested loops fill -----

  predicate IsMember(ws: Workspace, principalId: string, projectId: string) {
    exists i | 0 <= i < |ws.projects| :: ws.projects[i].id == projectId && principalId in ws.projects[i].members
  }

  function Humans(actants: seq<Actant>, principalId: string): seq<Actant> {
    if actants == [] then []
    else
      var rest := Humans(actants[..|actants| - 1], principalId);
      var last := actants[|actants| - 1];
      if last.isHuman && last.principalId == principalId then rest + [last] else rest
  }

  /** The live views of one artifact, over the first `h` humans. */
  function LivesOf(artifact: Artifact, humans: seq<Actant>, principalId: string): seq<View> {
    if humans == [] then []
    else
      var rest := LivesOf(artifact, humans[..|humans| - 1], principalId);
      var view := View(artifact, humans[|humans| - 1].id, principalId);
      if view.Live() then rest + [view] else rest
  }

  /** Every live notification of the principal, in the order the loops meet them. */
  function Lives(ws: Workspace, artifacts: seq<Artifact>, principalId: string): seq<View> {
    if artifacts == [] then []
    else
      var rest := Lives(ws, artifacts[..|artifacts| - 1], principalId);
      var last := artifacts[|artifacts| - 1];
      if IsMember(ws, principalId, last.projectId) then
        rest + LivesOf(last, Humans(ws.actants, principalId), principalId)
      else rest
  }

  function LiveViews(ws: Workspace, principalId: string): seq<View> {
    Lives(ws, ws.artifacts, principalId)
  }

  type Table = map<Id, Id>

  function AddRun(t: Table, view: View, versions: seq<Version>): Table
    requires view.Live()
  {
    if versions == [] then t
    else
      var rest := AddRun(t, view, versions[..|versions| - 1]);
      var last := versions[|versions| - 1];
      if last.content.Task? then rest[view.LegacyId(last) := view.EntryId()] else rest
  }

  function AddView(t: Table, view: View): Table
    requires view.Live()
  {
    AddRun(t[view.EntryId() := view.EntryId()], view, view.Run())
  }

  predicate AllLive(views: seq<View>) {
    forall i | 0 <= i < |views| :: views[i].Live()
  }

  function TableOf(views: seq<View>): Table
    requires AllLive(views)
  {
    if views == [] then map[]
    else AddView(TableOf(views[..|views| - 1]), views[|views| - 1])
  }

  lemma {:induction false} HumansExact(actants: seq<Actant>, principalId: string, h: Actant)
    ensures h in Humans(actants, principalId) <==> h in actants && h.isHuman && h.principalId == principalId
  {
    if actants != [] {
      HumansExact(actants[..|actants| - 1], principalId, h);
      assert h in actants <==> h in actants[..|actants| - 1] || h == actants[|actants| - 1];
    }
  }

  ghost predicate SomeHuman(humans: seq<Actant>, humanId: string) {
    exists h | h in humans :: h.id == humanId
  }

  lemma {:induction false} LivesOfExact(artifact: Artifact, humans: seq<Actant>, principalId: string)
    ensures forall view :: view in LivesOf(artifact, humans, principalId) <==>
      view.artifact == artifact && view.principalId == principalId && view.Live() && SomeHuman(humans, view.humanId)
  {
    if humans != [] {
      var front, last := humans[..|humans| - 1], humans[|humans| - 1];
      LivesOfExact(artifact, front, principalId);
      forall humanId ensures SomeHuman(humans, humanId) <==> SomeHuman(front, humanId) || humanId == last.id {
        assert forall h :: h in humans <==> h in front || h == last;
      }
    }
  }

  // ----- The order in which the loops meet them -----

  datatype Place = Place(artifact: nat, actant: nat) {
    predicate Before(other: Place) {
      artifact < other.artifact || (artifact == other.artifact && actant < other.actant)
    }
  }

  /** Which artifact and which human of the principal a live view is of. */
  ghost predicate StandsAt(ws: Workspace, artifacts: seq<Artifact>, principalId: string, view: View, p: Place) {
    && p.artifact < |artifacts| && IsMember(ws, principalId, artifacts[p.artifact].projectId)
    && p.actant < |ws.actants| && ws.actants[p.actant].isHuman && ws.actants[p.actant].principalId == principalId
    && view == View(artifacts[p.artifact], ws.actants[p.actant].id, principalId) && view.Live()
  }

  /** The views stand at these places, artifact by artifact and within one human by human, and every such
      place is there. */
  ghost predicate InLoopOrder(ws: Workspace, artifacts: seq<Artifact>, principalId: string, views: seq<View>, at: seq<Place>) {
    && |at| == |views| && (forall i, j | 0 <= i < j < |at| :: at[i].Before(at[j]))
    && (forall i | 0 <= i < |at| :: StandsAt(ws, artifacts, principalId, views[i], at[i]))
    && (forall view, p | StandsAt(ws, artifacts, principalId, view, p) :: p in at)
  }

  /** The humans of the principal, in the order of the actants. */
  ghost predicate HumansAt(actants: seq<Actant>, principalId: string, at: seq<nat>, humans: seq<Actant>) {
    |humans| == |at| && forall j | 0 <= j < |at| :: at[j] < |actants| && actants[at[j]] == humans[j]
  }

  function IsHumanOf(principalId: string): Actant -> bool {
    (a: Actant) => a.isHuman && a.principalId == principalId
  }

  lemma {:induction false} HumansInOrder(actants: seq<Actant>, principalId: string) returns (at: seq<nat>)
    ensures Picks(actants, IsHumanOf(principalId), at) && HumansAt(actants, principalId, at, Humans(actants, principalId))
  {
    at := [];
    if actants != [] {
      var n := |actants| - 1;
      at := HumansInOrder(actants[..n], principalId);
      PicksSnoc(actants[..n], IsHumanOf(principalId), at, actants[n]);
      assert actants == actants[..n] + [actants[n]];
      at := at + if IsHumanOf(principalId)(actants[n]) then [n] else [];
    }
  }

  function SeesLive(artifact: Artifact, principalId: string): Actant -> bool {
    (h: Actant) => View(artifact, h.id, principalId).Live()
  }

  ghost predicate ViewsAt(artifact: Artifact, principalId: string, humans: seq<Actant>, at: seq<nat>, views: seq<View>) {
    |views| == |at| && forall j | 0 <= j < |at| :: at[j] < |humans| && views[j] == View(artifact, humans[at[j]].id, principalId)
  }

  lemma {:induction false} LivesOfInOrder(artifact: Artifact, humans: seq<Actant>, principalId: string) returns (at: seq<nat>)
    ensures Picks(humans, SeesLive(artifact, principalId), at)
    ensures ViewsAt(artifact, principalId, humans, at, LivesOf(artifact, humans, principalId))
  {
    at := [];
    if humans != [] {
      var n := |humans| - 1;
      at := LivesOfInOrder(artifact, humans[..n], principalId);
      PicksSnoc(humans[..n], SeesLive(artifact, principalId), at, humans[n]);
      assert humans == humans[..n] + [humans[n]];
      at := at + if SeesLive(artifact, principalId)(humans[n]) then [n] else [];
    }
  }

  /** The live views of the last artifact, by the positions of the actants. */
  lemma LastArtifactInOrder(ws: Workspace, artifacts: seq<Artifact>, principalId: string) returns (at: seq<nat>)
    requires artifacts != [] && IsMember(ws, principalId, artifacts[|artifacts| - 1].projectId)
    ensures LastPart(ws, artifacts, principalId, LivesOf(artifacts[|artifacts| - 1], Humans(ws.actants, principalId), principalId), at)
  {
    var a, humans := |artifacts| - 1, Humans(ws.actants, principalId);
    var views := LivesOf(artifacts[a], humans, principalId);
    var h := HumansInOrder(ws.actants, principalId);
    var v := LivesOfInOrder(artifacts[a], humans, principalId);
    at := Through(h, v);
    forall j | 0 <= j < |at| ensures StandsAt(ws, artifacts, principalId, views[j], Place(a, at[j])) {
      assert IsHumanOf(principalId)(ws.actants[h[v[j]]]) && SeesLive(artifacts[a], principalId)(humans[v[j]]);
    }
    forall view, p | StandsAt(ws, artifacts, principalId, view, p) && p.artifact == a ensures p.actant in at {
      MetThrough(ws.actants, artifacts[a], principalId, humans, h, v, p.actant);
    }
  }

  /** The positions behind positions. */
  function Through(h: seq<nat>, v: seq<nat>): (r: seq<nat>)
    requires forall j | 0 <= j < |v| :: v[j] < |h|
    ensures |r| == |v| && forall j | 0 <= j < |v| :: r[j] == h[v[j]]
  {
    seq(|v|, j requires 0 <= j < |v| => h[v[j]])
  }

  lemma MetThrough(actants: seq<Actant>, artifact: Artifact, principalId: string, humans: seq<Actant>, h: seq<nat>, v: seq<nat>, k: nat)
    requires Picks(actants, IsHumanOf(principalId), h) && HumansAt(actants, principalId, h, humans)
    requires Picks(humans, SeesLive(artifact, principalId), v)
    requires k < |actants| && IsHumanOf(principalId)(actants[k]) && View(artifact, actants[k].id, principalId).Live()
    ensures k in Through(h, v)
  {
    var i :| 0 <= i < |h| && h[i] == k;
    assert humans[i] == actants[k] && SeesLive(artifact, principalId)(humans[i]);
    var j :| 0 <= j < |v| && v[j] == i;
    assert Through(h, v)[j] == k;
  }

  function PlacesOf(artifact: nat, actants: seq<nat>): seq<Place> {
    seq(|actants|, j requires 0 <= j < |actants| => Place(artifact, actants[j]))
  }

  /** Which views of the first artifacts, and which of the last one, are met. */
  ghost predicate FrontPart(ws: Workspace, artifacts: seq<Artifact>, principalId: string, views: seq<View>, at: seq<Place>) {
    && |at| == |views| && (forall i, j | 0 <= i < j < |at| :: at[i].Before(at[j]))
    && (forall i | 0 <= i < |at| :: at[i].artifact < |artifacts| - 1 && StandsAt(ws, artifacts, principalId, views[i], at[i]))
    && (forall view, p | StandsAt(ws, artifacts, principalId, view, p) && p.artifact < |artifacts| - 1 :: p in at)
  }

  ghost predicate LastPart(ws: Workspace, artifacts: seq<Artifact>, principalId: string, views: seq<View>, at: seq<nat>)
    requires artifacts != []
  {
    var a := |artifacts| - 1;
    && Increasing(at) && |at| == |views|
    && (forall j | 0 <= j < |at| :: StandsAt(ws, artifacts, principalId, views[j], Place(a, at[j])))
    && (forall view, p | StandsAt(ws, artifacts, principalId, view, p) && p.artifact == a :: p.actant in at)
  }

  lemma {:induction false} LivesInOrder(ws: Workspace, artifacts: seq<Artifact>, principalId: string) returns (at: seq<Place>)
    ensures InLoopOrder(ws, artifacts, principalId, Lives(ws, artifacts, principalId), at)
  {
    at := [];
    if artifacts != [] {
      var n := |artifacts| - 1;
      var front := Lives(ws, artifacts[..n], principalId);
      at := LivesInOrder(ws, artifacts[..n], principalId);
      FrontInOrder(ws, artifacts, principalId, front, at);
      if IsMember(ws, principalId, artifacts[n].projectId) {
        var last := LastArtifactInOrder(ws, artifacts, principalId);
        PartsInOrder(ws, artifacts, principalId, front, at,
                     LivesOf(artifacts[n], Humans(ws.actants, principalId), principalId), last);
        at := at + PlacesOf(n, last);
      }
    }
  }

  lemma PartsInOrder(ws: Workspace, artifacts: seq<Artifact>, principalId: string, front: seq<View>, at: seq<Place>,
                     mine: seq<View>, last: seq<nat>)
    requires artifacts != [] && FrontPart(ws, artifacts, principalId, front, at) && LastPart(ws, artifacts, principalId, mine, last)
    ensures InLoopOrder(ws, artifacts, principalId, front + mine, at + PlacesOf(|artifacts| - 1, last))
  {
    var n := |artifacts| - 1;
    var views, all := front + mine, at + PlacesOf(n, last);
    forall i, j | 0 <= i < j < |all| ensures all[i].Before(all[j]) {
      assert i >= |at| ==> last[i - |at|] < last[j - |at|];
    }
    forall i | 0 <= i < |all| ensures StandsAt(ws, artifacts, principalId, views[i], all[i]) {
      assert i >= |at| ==> StandsAt(ws, artifacts, principalId, mine[i - |at|], Place(n, last[i - |at|]));
    }
    forall view, p | StandsAt(ws, artifacts, principalId, view, p) ensures p in all {
      PlaceIsThere(ws, artifacts, principalId, front, at, mine, last, view, p);
    }
  }

  lemma PlaceIsThere(ws: Workspace, artifacts: seq<Artifact>, principalId: string, front: seq<View>, at: seq<Place>,
                     mine: seq<View>, last: seq<nat>, view: View, p: Place)
    requires artifacts != [] && FrontPart(ws, artifacts, principalId, front, at) && LastPart(ws, artifacts, principalId, mine, last)
    requires StandsAt(ws, artifacts, principalId, view, p)
    ensures p in at + PlacesOf(|artifacts| - 1, last)
  {
    var places := PlacesOf(|artifacts| - 1, last);
    if p.artifact == |artifacts| - 1 {
      var j :| 0 <= j < |last| && last[j] == p.actant;
      assert places[j] == p;
    } else {
      assert p in at;
    }
  }

  lemma FrontInOrder(ws: Workspace, artifacts: seq<Artifact>, principalId: string, views: seq<View>, at: seq<Place>)
    requires artifacts != [] && InLoopOrder(ws, artifacts[..|artifacts| - 1], principalId, views, at)
    ensures FrontPart(ws, artifacts, principalId, views, at)
  {
    var front := artifacts[..|artifacts| - 1];
    forall i | 0 <= i < |at| ensures StandsAt(ws, artifacts, principalId, views[i], at[i]) {
      assert StandsAt(ws, front, principalId, views[i], at[i]);
    }
    forall view, p | StandsAt(ws, artifacts, principalId, view, p) && p.artifact < |artifacts| - 1 ensures p in at {
      assert StandsAt(ws, front, principalId, view, p);
    }
  }

  /** Two contents of a task are in one phase for this view exactly when both ask the same of the human, or
      both are the same delivery to the creator, or neither notifies. */
  lemma SamePhaseIff(view: View, a: Content, b: Content)
    requires a.Task? && b.Task?
    ensures view.PhaseOf(a).Some? <==> AsksHuman(view, a) || Delivers(view, a)
    ensures view.PhaseOf(a) == view.PhaseOf(b) <==>
      if AsksHuman(view, a) || AsksHuman(view, b) then
        && AsksHuman(view, a) && AsksHuman(view, b) && a.assignment == b.assignment && a.runRequested == b.runRequested
        && (a.execution == "waiting" <==> b.execution == "waiting")
      else if Delivers(view, a) || Delivers(view, b) then
        Delivers(view, a) && Delivers(view, b) && a.runRequested == b.runRequested && a.resultIds == b.resultIds
      else true
  {
    StringsAreInjective(a.resultIds, b.resultIds);
    if view.PhaseOf(a).Some? && view.PhaseOf(b).Some? && view.PhaseOf(a) == view.PhaseOf(b) {
      var x, y := view.PhaseOf(a).value, view.PhaseOf(b).value;
      assert x[0] == y[0] && x[1] == y[1] && x[2] == y[2];
      assert |x| == 5 ==> x[4] == y[4];
    }
  }

  predicate AsksHuman(view: View, c: Content)
    requires c.Task?
  {
    c.assigneeId == view.humanId && c.execution !in {"completed", "cancelled"} && c.assignment != "declined"
  }

  predicate Delivers(view: View, c: Content)
    requires c.Task?
  {
    c.delivery == "ready" && view.artifact.creatorPrincipalId == view.principalId
  }

  /** The value that is hashed for a task: what it asks of the human, or what it delivers to its creator. */
  ghost predicate IsPhaseValue(view: View, c: Content, value: seq<Json>)
    requires c.Task?
  {
    if AsksHuman(view, c) then
      && |value| == 5 && value[0] == Str("human") && value[1] == Str(c.assignment)
      && value[2] == Str(if c.execution == "waiting" then "waiting" else "ready")
      && value[3] == Str(view.humanId) && value[4] == Num(c.runRequested)
    else
      && Delivers(view, c) && |value| == 3 && value[0] == Str("delivery") && value[1] == Num(c.runRequested)
      && value[2].Arr? && |value[2].items| == |c.resultIds|
      && forall i | 0 <= i < |c.resultIds| :: value[2].items[i] == Str(c.resultIds[i])
  }

  lemma PhaseValueExact(view: View, c: Content, value: seq<Json>)
    requires c.Task?
    ensures view.PhaseOf(c) == Some(value) <==> IsPhaseValue(view, c, value)
  {
    if IsPhaseValue(view, c, value) {
      if AsksHuman(view, c) {
        assert value == [value[0], value[1], value[2], value[3], value[4]];
      } else {
        assert value[2].items == Strings(c.resultIds);
        assert value == [value[0], value[1], value[2]];
      }
    }
  }

  /** The ids of a live notification by what they were hashed from: the artifact, the revision in which the
      run was entered and the current value; or the revision of a version of the run, and the value with that
      version's priority. */
  lemma IdsOfView(view: View, id: Id)
    ensures view.Covers(id) <==>
      && view.artifact.content.Task? && id.Sha? && id.artifactId == view.artifact.id
      && ((id.revision == view.EntryRevision() && IsPhaseValue(view, view.artifact.content, id.value))
          || exists v | v in view.Run() :: IsLegacyOf(view, v, id))
  {
    if view.artifact.content.Task? {
      if view.Live() {
        PhaseValueExact(view, view.artifact.content, view.Current().value);
        forall v | v in view.Run() && v.content.Task? ensures IsLegacyOf(view, v, id) <==> id == view.LegacyId(v) {
          LegacyExact(view, v, id);
        }
      }
      if id.Sha? {
        PhaseValueExact(view, view.artifact.content, id.value);
        forall v | v in view.Run() && IsLegacyOf(view, v, id) ensures view.Live() {
          PhaseValueExact(view, view.artifact.content, id.value[..|id.value| - 1]);
        }
      }
    }
  }

  ghost predicate IsLegacyOf(view: View, v: Version, id: Id) {
    && view.artifact.content.Task? && v.content.Task? && id.Sha? && id.artifactId == view.artifact.id && id.revision == v.revision
    && id.value != [] && id.value[|id.value| - 1] == Str(v.content.priority)
    && IsPhaseValue(view, view.artifact.content, id.value[..|id.value| - 1])
  }

  lemma LegacyExact(view: View, v: Version, id: Id)
    requires view.Live() && v.content.Task?
    ensures IsLegacyOf(view, v, id) <==> id == view.LegacyId(v)
  {
    var value := view.Current().value;
    if id == view.LegacyId(v) {
      assert id.value[..|id.value| - 1] == value;
      PhaseValueExact(view, view.artifact.content, value);
    }
    if IsLegacyOf(view, v, id) {
      PhaseValueExact(view, view.artifact.content, id.value[..|id.value| - 1]);
      assert id.value == id.value[..|id.value| - 1] + [id.value[|id.value| - 1]];
    }
  }

  lemma StringsAreInjective(a: seq<string>, b: seq<string>)
    ensures Strings(a) == Strings(b) <==> a == b
  {
    if Strings(a) == Strings(b) {
      assert |Strings(a)| == |a| && |Strings(b)| == |b|;
      forall i | 0 <= i < |a| ensures a[i] == b[i] {
        assert Strings(a)[i] == Strings(b)[i];
      }
    }
  }

  /** The loops meet exactly the live views: an artifact of a project the principal belongs to, seen
      by a human actant of the principal, in some phase. */
  lemma {:induction false} LivesExact(ws: Workspace, artifacts: seq<Artifact>, principalId: string)
    ensures AllLive(Lives(ws, artifacts, principalId))
    ensures forall view :: view in Lives(ws, artifacts, principalId) <==>
      && view.artifact in artifacts && IsMember(ws, principalId, view.artifact.projectId)
      && view.principalId == principalId && view.Live() && SomeHuman(Humans(ws.actants, principalId), view.humanId)
  {
    if artifacts != [] {
      var front, last := artifacts[..|artifacts| - 1], artifacts[|artifacts| - 1];
      LivesExact(ws, front, principalId);
      LivesOfExact(last, Humans(ws.actants, principalId), principalId);
      assert forall a :: a in artifacts <==> a in front || a == last;
      forall i | 0 <= i < |Lives(ws, artifacts, principalId)| ensures Lives(ws, artifacts, principalId)[i].Live() {
        assert Lives(ws, artifacts, principalId)[i] in Lives(ws, artifacts, principalId);
      }
    }
  }

  lemma LiveViewsExact(ws: Workspace, principalId: string, view: View)
    ensures view in LiveViews(ws, principalId) <==>
      && view.artifact in ws.artifacts && IsMember(ws, principalId, view.artifact.projectId)
      && (exists h | h in ws.actants :: h.isHuman && h.principalId == principalId && h.id == view.humanId)
      && view.principalId == principalId && view.Live()
  {
    LivesExact(ws, ws.artifacts, principalId);
    forall h ensures h in Humans(ws.actants, principalId) <==> h in ws.actants && h.isHuman && h.principalId == principalId {
      HumansExact(ws.actants, principalId, h);
    }
  }

  lemma {:induction false} AddRunLookup(t: Table, view: View, versions: seq<Version>, id: Id)
    requires view.Live()
    ensures
      var added := exists v | v in versions :: v.content.Task? && id == view.LegacyId(v);
      && (id in AddRun(t, view, versions) <==> added || id in t)
      && (id in AddRun(t, view, versions) ==>
            AddRun(t, view, versions)[id] == if added then view.EntryId() else t[id])
  {
    if versions != [] {
      var front, last := versions[..|versions| - 1], versions[|versions| - 1];
      AddRunLookup(t, view, front, id);
      assert forall v :: v in versions <==> v in front || v == last;
    }
  }

  lemma AddViewLookup(t: Table, view: View, id: Id)
    requires view.Live()
    ensures id in AddView(t, view) <==> view.Covers(id) || id in t
    ensures id in AddView(t, view) ==> AddView(t, view)[id] == if view.Covers(id) then view.EntryId() else t[id]
  {
    AddRunLookup(t[view.EntryId() := view.EntryId()], view, view.Run(), id);
  }

  /** What the last view leaves in the table under an id. */
  lemma TableLookup(views: seq<View>, id: Id)
    requires views != [] && AllLive(views)
    ensures
      var front, last := views[..|views| - 1], views[|views| - 1];
      && AllLive(front) && (id in TableOf(views) <==> last.Covers(id) || id in TableOf(front))
      && (id in TableOf(views) ==> TableOf(views)[id] == if last.Covers(id) then last.EntryId() else TableOf(front)[id])
  {
    AddViewLookup(TableOf(views[..|views| - 1]), views[|views| - 1], id);
  }

  /** The last notification, in loop order, that has this id. */
  ghost predicate LastOwner(views: seq<View>, id: Id, i: int) {
    0 <= i < |views| && views[i].Covers(id) && forall j | i < j < |views| :: !views[j].Covers(id)
  }

  lemma LastOwnerOfFront(views: seq<View>, id: Id, i: int)
    requires LastOwner(views, id, i) && i < |views| - 1
    ensures LastOwner(views[..|views| - 1], id, i) && !views[|views| - 1].Covers(id)
  {
  }

  /** The table sends an id to the entry of its last owner. */
  lemma {:induction false} LastOwnerDecides(views: seq<View>, id: Id, i: int)
    requires AllLive(views) && LastOwner(views, id, i)
    ensures id in TableOf(views) && TableOf(views)[id] == views[i].EntryId()
  {
    var last := |views| - 1;
    var front := views[..last];
    TableLookup(views, id);
    if i < last {
      LastOwnerOfFront(views, id, i);
      LastOwnerDecides(front, id, i);
    }
  }

  lemma {:induction false} CoveredHasLastOwner(views: seq<View>, id: Id, k: nat) returns (i: int)
    requires k < |views| && views[k].Covers(id)
    ensures LastOwner(views, id, i)
    decreases |views| - k
  {
    if j :| k < j < |views| && views[j].Covers(id) {
      i := CoveredHasLastOwner(views, id, j);
    } else {
      i := k;
    }
  }

  lemma {:induction false} KeyIsCovered(views: seq<View>, id: Id) returns (k: nat)
    requires AllLive(views) && id in TableOf(views)
    ensures k < |views| && views[k].Covers(id)
  {
    k := |views| - 1;
    TableLookup(views, id);
    if !views[k].Covers(id) {
      k := KeyIsCovered(views[..k], id);
    }
  }

  /** Every key of the table has an owner. */
  lemma LookupIsLastOwner(views: seq<View>, id: Id) returns (i: int)
    requires AllLive(views) && id in TableOf(views)
    ensures LastOwner(views, id, i) && TableOf(views)[id] == views[i].EntryId()
  {
    var k := KeyIsCovered(views, id);
    i := CoveredHasLastOwner(views, id, k);
    LastOwnerDecides(views, id, i);
  }

  // ----- The translated list -----

  function Mapped(t: Table, saved: seq<Id>): seq<Id> {
    if saved == [] then []
    else
      var rest := Mapped(t, saved[..|saved| - 1]);
      var last := saved[|saved| - 1];
      if last in t then rest + [t[last]] else rest
  }

  function Translate(ws: Workspace, principalId: string, saved: seq<Id>): seq<Id> {
    LivesExact(ws, ws.artifacts, principalId);
    FirstOccurrences(Mapped(TableOf(LiveViews(ws, principalId)), saved))
  }

  lemma {:induction false} MappedElements(t: Table, saved: seq<Id>, x: Id)
    ensures x in Mapped(t, saved) <==> exists id | id in saved :: id in t && t[id] == x
  {
    if saved != [] {
      MappedElements(t, saved[..|saved| - 1], x);
      assert forall id :: id in saved <==> id in saved[..|saved| - 1] || id == saved[|saved| - 1];
    }
  }

  lemma {:induction false} MappedFixpoint(t: Table, s: seq<Id>)
    requires forall x | x in s :: x in t && t[x] == x
    ensures Mapped(t, s) == s
  {
    if s != [] {
      MappedFixpoint(t, s[..|s| - 1]);
      assert s[|s| - 1] in s;
      assert s == s[..|s| - 1] + [s[|s| - 1]];
    }
  }

  /** Exactly the ids of live notifications survive, and each becomes the entry id of the last
      live notification that has it. */
  lemma TranslationIsExact(ws: Workspace, principalId: string, saved: seq<Id>, x: Id)
    ensures x in Translate(ws, principalId, saved) <==>
      exists id, i | id in saved && LastOwner(LiveViews(ws, principalId), id, i) ::
        x == LiveViews(ws, principalId)[i].EntryId()
  {
    var views := LiveViews(ws, principalId);
    LivesExact(ws, ws.artifacts, principalId);
    var t := TableOf(views);
    FirstOccurrencesFacts(Mapped(t, saved));
    MappedElements(t, saved, x);
    if x in Mapped(t, saved) {
      var id :| id in saved && id in t && t[id] == x;
      var i := LookupIsLastOwner(views, id);
      assert LastOwner(views, id, i) && x == views[i].EntryId();
    }
    forall id, i | id in saved && LastOwner(views, id, i) && x == views[i].EntryId()
      ensures id in t && t[id] == x
    {
      LastOwnerDecides(views, id, i);
    }
  }

  // ----- The order of the translated list -----

  /** The k-th saved id is one of a live notification, and the last such one enters with `x`. */
  ghost predicate BecomesAt(views: seq<View>, saved: seq<Id>, k: nat, x: Id) {
    k < |saved| && exists o :: LastOwner(views, saved[k], o) && views[o].EntryId() == x
  }

  ghost predicate FirstAt(views: seq<View>, saved: seq<Id>, k: nat, x: Id) {
    BecomesAt(views, saved, k, x) && forall l: nat | l < k :: !BecomesAt(views, saved, l, x)
  }

  /** Each element of `r` first comes up at its own position of the saved list. */
  ghost predicate FirstsAt(views: seq<View>, saved: seq<Id>, at: seq<nat>, r: seq<Id>) {
    |at| == |r| && forall i | 0 <= i < |r| :: FirstAt(views, saved, at[i], r[i])
  }

  /** `r` has every id that some saved id becomes, in the order in which they first come up. */
  ghost predicate IsTranslation(views: seq<View>, saved: seq<Id>, r: seq<Id>) {
    && (exists at :: Increasing(at) && FirstsAt(views, saved, at, r))
    && (forall k: nat, x | BecomesAt(views, saved, k, x) :: x in r)
  }

  lemma BecomesIsLookup(views: seq<View>, saved: seq<Id>, k: nat, x: Id)
    requires AllLive(views)
    ensures BecomesAt(views, saved, k, x) <==> k < |saved| && saved[k] in TableOf(views) && TableOf(views)[saved[k]] == x
  {
    if BecomesAt(views, saved, k, x) {
      var o :| LastOwner(views, saved[k], o) && views[o].EntryId() == x;
      LastOwnerDecides(views, saved[k], o);
    }
    if k < |saved| && saved[k] in TableOf(views) {
      var o := LookupIsLastOwner(views, saved[k]);
    }
  }

  lemma BecomesInFront(views: seq<View>, saved: seq<Id>, n: nat, k: nat, x: Id)
    requires n <= |saved|
    ensures BecomesAt(views, saved[..n], k, x) <==> k < n && BecomesAt(views, saved, k, x)
  {
  }

  /** `r` is the translation so far, each element at the position where it first came up. */
  ghost predicate PlacedAt(views: seq<View>, saved: seq<Id>, at: seq<nat>, r: seq<Id>) {
    && Increasing(at) && (forall i | 0 <= i < |at| :: at[i] < |saved|) && FirstsAt(views, saved, at, r)
    && (forall k: nat, x | BecomesAt(views, saved, k, x) :: x in r)
  }

  lemma {:induction false} RewriteInOrder(views: seq<View>, saved: seq<Id>) returns (at: seq<nat>)
    requires AllLive(views)
    ensures PlacedAt(views, saved, at, FirstOccurrences(Mapped(TableOf(views), saved)))
  {
    at := [];
    if saved != [] {
      var front := saved[..|saved| - 1];
      var before := RewriteInOrder(views, front);
      var x := Lookup(TableOf(views), saved[|saved| - 1]);
      NextOccurrence(TableOf(views), saved);
      LookupBecomes(views, saved, |saved| - 1);
      at := RewriteStep(views, saved, x, before, FirstOccurrences(Mapped(TableOf(views), front)));
    }
  }

  function Lookup(t: Table, id: Id): Option<Id> {
    if id in t then Some(t[id]) else None
  }

  /** A list with one more id, unless it is there already. */
  function Plus(r: seq<Id>, x: Option<Id>): seq<Id> {
    if x.Some? && x.value !in r then r + [x.value] else r
  }

  lemma LookupBecomes(views: seq<View>, saved: seq<Id>, n: nat)
    requires AllLive(views) && n < |saved|
    ensures
      var x := Lookup(TableOf(views), saved[n]);
      if x.Some? then BecomesAt(views, saved, n, x.value) else NothingAt(views, saved, n)
  {
    forall y ensures BecomesAt(views, saved, n, y) <==> Lookup(TableOf(views), saved[n]) == Some(y) {
      BecomesIsLookup(views, saved, n, y);
    }
  }

  lemma RewriteStep(views: seq<View>, saved: seq<Id>, x: Option<Id>, before: seq<nat>, r: seq<Id>) returns (at: seq<nat>)
    requires saved != [] && PlacedAt(views, saved[..|saved| - 1], before, r)
    requires if x.Some? then BecomesAt(views, saved, |saved| - 1, x.value) else NothingAt(views, saved, |saved| - 1)
    ensures PlacedAt(views, saved, at, Plus(r, x))
  {
    if x.None? {
      PlacedNothing(views, saved, before, r);
      at := before;
    } else {
      PlacedNext(views, saved, before, r, x.value);
      at := if x.value in r then before else before + [|saved| - 1];
    }
  }

  ghost predicate NothingAt(views: seq<View>, saved: seq<Id>, k: nat) {
    forall x :: !BecomesAt(views, saved, k, x)
  }

  lemma FirstsStay(views: seq<View>, saved: seq<Id>, at: seq<nat>, r: seq<Id>)
    requires saved != [] && PlacedAt(views, saved[..|saved| - 1], at, r)
    ensures FirstsAt(views, saved, at, r)
    ensures forall k: nat, x | k < |saved| - 1 && BecomesAt(views, saved, k, x) :: x in r
  {
    var n := |saved| - 1;
    forall k: nat, x ensures BecomesAt(views, saved[..n], k, x) <==> k < n && BecomesAt(views, saved, k, x) {
      BecomesInFront(views, saved, n, k, x);
    }
    forall i | 0 <= i < |r| ensures FirstAt(views, saved, at[i], r[i]) {
      assert FirstAt(views, saved[..n], at[i], r[i]);
    }
  }

  lemma PlacedNothing(views: seq<View>, saved: seq<Id>, at: seq<nat>, r: seq<Id>)
    requires saved != [] && PlacedAt(views, saved[..|saved| - 1], at, r)
    requires NothingAt(views, saved, |saved| - 1)
    ensures PlacedAt(views, saved, at, r)
  {
    FirstsStay(views, saved, at, r);
  }

  /** The last saved id adds its entry, unless that has come up before. */
  lemma PlacedNext(views: seq<View>, saved: seq<Id>, at: seq<nat>, r: seq<Id>, x: Id)
    requires saved != [] && PlacedAt(views, saved[..|saved| - 1], at, r) && BecomesAt(views, saved, |saved| - 1, x)
    ensures x in r ==> PlacedAt(views, saved, at, r)
    ensures x !in r ==> PlacedAt(views, saved, at + [|saved| - 1], r + [x])
  {
    var n := |saved| - 1;
    FirstsStay(views, saved, at, r);
    forall y | BecomesAt(views, saved, n, y) ensures y == x {
      OnlyOneBecomes(views, saved, n, x, y);
    }
    if x !in r {
      assert FirstAt(views, saved, n, x);
      FirstsNext(views, saved, at, r, n, x);
      assert Increasing(at + [n]);
    }
  }

  lemma FirstsNext(views: seq<View>, saved: seq<Id>, at: seq<nat>, r: seq<Id>, n: nat, x: Id)
    requires FirstsAt(views, saved, at, r) && FirstAt(views, saved, n, x)
    ensures FirstsAt(views, saved, at + [n], r + [x])
  {
  }

  lemma NextOccurrence(t: Table, saved: seq<Id>)
    requires saved != []
    ensures FirstOccurrences(Mapped(t, saved)) == Plus(FirstOccurrences(Mapped(t, saved[..|saved| - 1])), Lookup(t, saved[|saved| - 1]))
  {
    var front, last := Mapped(t, saved[..|saved| - 1]), saved[|saved| - 1];
    if last in t {
      assert (front + [t[last]])[..|front|] == front;
    }
  }

  /** The translation holds its ids in the order in which they first come up in the saved list. */
  lemma TranslationIsInOrder(ws: Workspace, principalId: string, saved: seq<Id>)
    ensures IsTranslation(LiveViews(ws, principalId), saved, Translate(ws, principalId, saved))
  {
    LivesExact(ws, ws.artifacts, principalId);
    var at := RewriteInOrder(LiveViews(ws, principalId), saved);
  }

  lemma PlaceIsFirst(views: seq<View>, saved: seq<Id>, at: seq<nat>, r: seq<Id>, k: nat)
    requires FirstsAt(views, saved, at, r) && forall l: nat, x | BecomesAt(views, saved, l, x) :: x in r
    ensures k in at <==> exists x :: FirstAt(views, saved, k, x)
  {
    if k in at {
      var i :| 0 <= i < |at| && at[i] == k;
      assert FirstAt(views, saved, k, r[i]);
    }
    if x :| FirstAt(views, saved, k, x) {
      var i :| 0 <= i < |r| && r[i] == x;
      assert FirstAt(views, saved, at[i], x);
    }
  }

  /** No other list is a translation: contents and order are determined. */
  lemma TranslationIsDetermined(views: seq<View>, saved: seq<Id>, a: seq<Id>, b: seq<Id>)
    requires IsTranslation(views, saved, a) && IsTranslation(views, saved, b)
    ensures a == b
  {
    var x :| Increasing(x) && FirstsAt(views, saved, x, a);
    var y :| Increasing(y) && FirstsAt(views, saved, y, b);
    forall k: nat ensures k in x <==> k in y {
      PlaceIsFirst(views, saved, x, a, k);
      PlaceIsFirst(views, saved, y, b, k);
    }
    IncreasingIsDetermined(x, y);
    forall i | 0 <= i < |a| ensures a[i] == b[i] {
      OnlyOneBecomes(views, saved, x[i], a[i], b[i]);
    }
  }

  lemma OnlyOneBecomes(views: seq<View>, saved: seq<Id>, k: nat, x: Id, y: Id)
    requires BecomesAt(views, saved, k, x) && BecomesAt(views, saved, k, y)
    ensures x == y
  {
    var o :| LastOwner(views, saved[k], o) && views[o].EntryId() == x;
    var q :| LastOwner(views, saved[k], q) && views[q].EntryId() == y;
    assert o == q;
  }

  /** An entry id of a live notification is its own translation. */
  lemma EntryMapsToItself(views: seq<View>, i: nat)
    requires AllLive(views) && i < |views|
    ensures views[i].EntryId() in TableOf(views)
    ensures TableOf(views)[views[i].EntryId()] == views[i].EntryId()
  {
    var id := views[i].EntryId();
    assert views[i].Covers(id);
    var j := CoveredHasLastOwner(views, id, i);
    LastOwnerDecides(views, id, j);
    forall v | v in views[j].Run() && v.content.Task? ensures id != views[j].LegacyId(v) {
      EntryIsNeverLegacy(views[i], views[j], v);
    }
  }

  /** The translation has no duplicates, and translating it again returns it unchanged. */
  lemma TranslationIsIdempotent(ws: Workspace, principalId: string, saved: seq<Id>)
    ensures Distinct(Translate(ws, principalId, saved))
    ensures Translate(ws, principalId, Translate(ws, principalId, saved)) == Translate(ws, principalId, saved)
  {
    var views := LiveViews(ws, principalId);
    LivesExact(ws, ws.artifacts, principalId);
    var t := TableOf(views);
    var r := Translate(ws, principalId, saved);
    FirstOccurrencesFacts(Mapped(t, saved));
    forall x | x in r ensures x in t && t[x] == x {
      TranslationIsExact(ws, principalId, saved, x);
      var id, i :| id in saved && LastOwner(views, id, i) && x == views[i].EntryId();
      EntryMapsToItself(views, i);
    }
    MappedFixpoint(t, r);
    FirstOccurrencesOfDistinct(r);
  }

  // ----- One human actant: runs do not overlap -----

  ghost predicate OneOwnerEach(ws: Workspace, principalId: string) {
    && |Humans(ws.actants, principalId)| == 1
    && (forall a, b | a in ws.artifacts && b in ws.artifacts && a.id == b.id :: a == b)
  }

  /** With one human actant and distinct artifact ids, an id has at most one live notification. */
  lemma CoveredByOneView(ws: Workspace, principalId: string, n: View, m: View, id: Id)
    requires OneOwnerEach(ws, principalId)
    requires n in LiveViews(ws, principalId) && m in LiveViews(ws, principalId)
    requires n.Covers(id) && m.Covers(id)
    ensures n == m
  {
    LivesExact(ws, ws.artifacts, principalId);
  }

  lemma AllEqual(r: seq<Id>, x: Id)
    requires Distinct(r) && r != [] && forall y | y in r :: y == x
    ensures r == [x]
  {
    assert r[0] in r && r[|r| - 1] in r;
  }

  /** All ids of one live run, entry and legacy alike, collapse to that run's entry id. */
  lemma RunCollapses(ws: Workspace, principalId: string, n: View, saved: seq<Id>)
    requires OneOwnerEach(ws, principalId)
    requires n in LiveViews(ws, principalId)
    requires saved != [] && forall id | id in saved :: n.Covers(id)
    ensures n.Live() && Translate(ws, principalId, saved) == [n.EntryId()]
  {
    var views := LiveViews(ws, principalId);
    LivesExact(ws, ws.artifacts, principalId);
    var r := Translate(ws, principalId, saved);
    TranslationIsIdempotent(ws, principalId, saved);
    forall x | x in r ensures x == n.EntryId() {
      TranslationIsExact(ws, principalId, saved, x);
      var id, i :| id in saved && LastOwner(views, id, i) && x == views[i].EntryId();
      CoveredByOneView(ws, principalId, n, views[i], id);
    }
    var k :| 0 <= k < |views| && views[k] == n;
    assert n.Covers(saved[0]);
    var i := CoveredHasLastOwner(views, saved[0], k);
    assert saved[0] in saved;
    TranslationIsExact(ws, principalId, saved, views[i].EntryId());
    AllEqual(r, n.EntryId());
  }

  /** The phase was left again after version `i`, and the version shares no revision with the entry of
      an empty run. */
  ghost predicate LeftAfter(n: View, i: nat) {
    && i < |n.artifact.versions|
    && (exists j | i < j < |n.artifact.versions| :: n.PhaseOf(n.artifact.versions[j].content) != n.Current())
    && (n.Run() == [] ==> n.artifact.versions[i].revision != n.artifact.revision)
  }

  predicate OfVersion(id: Id, a: Artifact, i: nat)
    requires i < |a.versions|
  {
    id.Sha? && id.artifactId == a.id && id.revision == a.versions[i].revision
  }

  /** The saved ids without those that carry the revision of this version. */
  function WithoutVersion(saved: seq<Id>, a: Artifact, i: nat): seq<Id>
    requires i < |a.versions|
  {
    if saved == [] then []
    else
      var last := saved[|saved| - 1];
      WithoutVersion(saved[..|saved| - 1], a, i) + if OfVersion(last, a, i) then [] else [last]
  }

  lemma MappedSnoc(t: Table, saved: seq<Id>, id: Id)
    ensures Mapped(t, saved + [id]) == if id in t then Mapped(t, saved) + [t[id]] else Mapped(t, saved)
  {
    assert (saved + [id])[..|saved|] == saved;
  }

  lemma {:induction false} MappedWithoutVersion(t: Table, saved: seq<Id>, a: Artifact, i: nat)
    requires i < |a.versions| && forall id | OfVersion(id, a, i) :: id !in t
    ensures Mapped(t, WithoutVersion(saved, a, i)) == Mapped(t, saved)
  {
    if saved != [] {
      var front, last := saved[..|saved| - 1], saved[|saved| - 1];
      MappedWithoutVersion(t, front, a, i);
      var rest := WithoutVersion(front, a, i);
      if OfVersion(last, a, i) {
        assert WithoutVersion(saved, a, i) == rest;
      } else {
        assert WithoutVersion(saved, a, i) == rest + [last];
        MappedSnoc(t, rest, last);
      }
    }
  }

  /** A version from an earlier, separated visit, in every live view of its artifact, however many humans
      the principal has: any saved list translates as it does without the ids that carry its revision,
      legacy and entry alike. */
  lemma EarlierVisitIsDropped(ws: Workspace, principalId: string, a: Artifact, i: nat, saved: seq<Id>)
    requires i < |a.versions| && forall b | b in ws.artifacts && b.id == a.id :: b == a
    requires forall k, l | 0 <= k < l < |a.versions| :: a.versions[k].revision != a.versions[l].revision
    requires forall n | n in LiveViews(ws, principalId) && n.artifact == a :: LeftAfter(n, i)
    ensures Translate(ws, principalId, saved) == Translate(ws, principalId, WithoutVersion(saved, a, i))
  {
    LivesExact(ws, ws.artifacts, principalId);
    var t := TableOf(LiveViews(ws, principalId));
    forall id | OfVersion(id, a, i) ensures id !in t {
      EarlierVisitHasNoKey(ws, principalId, a, i, id);
    }
    MappedWithoutVersion(t, saved, a, i);
  }

  lemma EarlierVisitHasNoKey(ws: Workspace, principalId: string, a: Artifact, i: nat, id: Id)
    requires i < |a.versions| && forall b | b in ws.artifacts && b.id == a.id :: b == a
    requires forall k, l | 0 <= k < l < |a.versions| :: a.versions[k].revision != a.versions[l].revision
    requires forall n | n in LiveViews(ws, principalId) && n.artifact == a :: LeftAfter(n, i)
    requires OfVersion(id, a, i) && AllLive(LiveViews(ws, principalId))
    ensures id !in TableOf(LiveViews(ws, principalId))
  {
    var views := LiveViews(ws, principalId);
    if id in TableOf(views) {
      var k := KeyIsCovered(views, id);
      var n := views[k];
      LiveViewsExact(ws, principalId, n);
      assert n.artifact == a && LeftAfter(n, i);
      var j :| i < j < |a.versions| && n.PhaseOf(a.versions[j].content) != n.Current();
      RevisionOutsideRun(n, i, j, id);
      assert false;
    }
  }

  /** An id carrying the revision of a version before a break in the phase is not one of the run's. */
  lemma RevisionOutsideRun(n: View, i: nat, j: nat, id: Id)
    requires n.Live() && i < j < |n.artifact.versions| && n.PhaseOf(n.artifact.versions[j].content) != n.Current()
    requires n.Run() == [] ==> n.artifact.versions[i].revision != n.artifact.revision
    requires forall k, l | 0 <= k < l < |n.artifact.versions| ::
      n.artifact.versions[k].revision != n.artifact.versions[l].revision
    requires id.Sha? && id.revision == n.artifact.versions[i].revision
    ensures !n.Covers(id)
  {
    n.StartIsLongest(|n.artifact.versions|);
    var start := n.StartWithin(|n.artifact.versions|);
    assert i < j < start;
    assert forall v | v in n.Run() :: v.revision != n.artifact.versions[i].revision;
    assert n.Run() != [] ==> n.Run()[0] in n.Run();
  }

  // ----- The script's loops -----

  function Reversed(s: seq<Version>): seq<Version> {
    if s == [] then [] else [s[|s| - 1]] + Reversed(s[..|s| - 1])
  }

  /** The reverse scan with its break, and the reversal back into version order. */
  method CollectRun(view: View) returns (versions: seq<Version>)
    requires view.Live()
    ensures versions == view.Run()
  {
    var collected: seq<Version> := [];
    var i := |view.artifact.versions|;
    while i > 0
      invariant 0 <= i <= |view.artifact.versions|
      invariant Reversed(collected) == view.artifact.versions[i..]
      invariant view.StartWithin(|view.artifact.versions|) == view.StartWithin(i)
    {
      var version := view.artifact.versions[i - 1];
      if view.PhaseOf(version.content) != view.Current() {
        break;
      }
      collected := collected + [version];
      i := i - 1;
    }
    versions := Reversed(collected);
  }

  /** The table holds exactly what these live views record. */
  predicate Recorded(t: Table, views: seq<View>) {
    AllLive(views) && t == TableOf(views)
  }

  lemma RecordedNext(t: Table, views: seq<View>, view: View)
    requires Recorded(t, views) && view.Live()
    ensures Recorded(AddView(t, view), views + [view])
  {
    assert (views + [view])[..|views|] == views;
  }

  lemma LivesOfNext(artifact: Artifact, humans: seq<Actant>, h: nat, principalId: string)
    requires h < |humans|
    ensures
      var view := View(artifact, humans[h].id, principalId);
      LivesOf(artifact, humans[..h + 1], principalId)
        == LivesOf(artifact, humans[..h], principalId) + if view.Live() then [view] else []
  {
    assert humans[..h + 1][..h] == humans[..h];
  }

  lemma LivesNext(ws: Workspace, artifacts: seq<Artifact>, a: nat, principalId: string)
    requires a < |artifacts|
    ensures Lives(ws, artifacts[..a + 1], principalId) == Lives(ws, artifacts[..a], principalId) +
      if IsMember(ws, principalId, artifacts[a].projectId)
      then LivesOf(artifacts[a], Humans(ws.actants, principalId), principalId) else []
  {
    assert artifacts[..a + 1][..a] == artifacts[..a];
  }

  /** The loop over the principal's humans, for one artifact. */
  method RecordArtifact(before: Table, ghost earlier: seq<View>, artifact: Artifact, humans: seq<Actant>, principalId: string)
    returns (after: Table)
    requires Recorded(before, earlier)
    ensures Recorded(after, earlier + LivesOf(artifact, humans, principalId))
  {
    after := before;
    ghost var views := earlier;
    for h := 0 to |humans|
      invariant views == earlier + LivesOf(artifact, humans[..h], principalId)
      invariant Recorded(after, views)
    {
      var view := View(artifact, humans[h].id, principalId);
      LivesOfNext(artifact, humans, h, principalId);
      if view.Live() {
        RecordedNext(after, views, view);
        after := RecordView(after, view);
        views := views + [view];
      }
    }
    assert humans[..|humans|] == humans;
  }

  /** Map, filter and deduplicate the saved ids. */
  method Rewrite(t: Table, saved: seq<Id>) returns (r: seq<Id>)
    ensures r == FirstOccurrences(Mapped(t, saved))
  {
    r := [];
    for i := 0 to |saved|
      invariant r == FirstOccurrences(Mapped(t, saved[..i]))
    {
      assert saved[..i + 1][..i] == saved[..i];
      if saved[i] in t && t[saved[i]] !in r {
        r := r + [t[saved[i]]];
      }
    }
    assert saved[..|saved|] == saved;
  }

  method CurrentReadIds(ws: Workspace, principalId: string, saved: seq<Id>) returns (r: seq<Id>)
    ensures r == Translate(ws, principalId, saved) && IsTranslation(LiveViews(ws, principalId), saved, r)
  {
    TranslationIsInOrder(ws, principalId, saved);
    var humans := Humans(ws.actants, principalId);
    var oldToCurrent: Table := map[];
    ghost var views: seq<View> := [];
    for a := 0 to |ws.artifacts|
      invariant views == Lives(ws, ws.artifacts[..a], principalId)
      invariant Recorded(oldToCurrent, views)
    {
      LivesNext(ws, ws.artifacts, a, principalId);
      if IsMember(ws, principalId, ws.artifacts[a].projectId) {
        oldToCurrent := RecordArtifact(oldToCurrent, views, ws.artifacts[a], humans, principalId);
        views := views + LivesOf(ws.artifacts[a], humans, principalId);
      }
    }
    assert ws.artifacts[..|ws.artifacts|] == ws.artifacts;
    r := Rewrite(oldToCurrent, saved);
  }

  method RecordView(before: Table, view: View) returns (after: Table)
    requires view.Live()
    ensures after == AddView(before, view)
  {
    var versions := CollectRun(view);
    after := before[view.EntryId() := view.EntryId()];
    for i := 0 to |versions|
      invariant after == AddRun(before[view.EntryId() := view.EntryId()], view, versions[..i])
    {
      assert versions[..i + 1][..i] == versions[..i];
      if versions[i].content.Task? {
        after := after[view.LegacyId(versions[i]) := view.EntryId()];
      }
    }
    assert versions[..|versions|] == versions;
  }
}
