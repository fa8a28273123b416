/**
 The whole collection: every unlink justified and accounted for whatever others do, and, on a filesystem
 nobody else changes, exactly the disposable objects counted and removed.
 */
module Collection {
  import opened CargoNames
  import opened Collector
  import opened CollectorTexts
  import opened Inspection
  import opened Prelude
  import opened TargetDisk
  import Orders

  // ----- A filesystem nobody else changes -----

  ghost function LogPaths(log: seq<Removal>): set<Path> {
    set i | 0 <= i < |log| :: log[i].item.path
  }

  ghost function TotalBytes(fs: FS, paths: set<Path>): nat
    requires forall p | p in paths :: IsFile(fs, p)
  {
    if paths == {} then 0
    else
      var p :| p in paths;
      assert IsFile(fs, p);
      fs[p].stat.blocks * 512 + TotalBytes(fs, paths - {p})
  }

  lemma {:induction false} TotalBytesAdd(fs: FS, paths: set<Path>, p: Path)
    requires (forall q | q in paths :: IsFile(fs, q)) && IsFile(fs, p) && p !in paths
    ensures TotalBytes(fs, paths + {p}) == TotalBytes(fs, paths) + fs[p].stat.Allocated()
  {
    var all := paths + {p};
    var q :| q in all && TotalBytes(fs, all) == fs[q].stat.Allocated() + TotalBytes(fs, all - {q});
    if q == p {
      assert all - {p} == paths;
    } else {
      TotalBytesAdd(fs, paths - {q}, p);
      assert all - {q} == paths - {q} + {p};
      assert paths == paths - {q} + {q};
      TotalBytesAdd(fs, paths - {q}, q);
    }
  }

  /** What such a collection starts from: the filesystem, all its disposable objects, and what the
      protection pass found. */
  datatype Scene = Scene(fs0: FS, all: set<Path>, cfg: Config, protected: set<string>, proofs: seq<Proof>)

  ghost predicate Weighed(s: Scene, p: Path) {
    p in s.all <==> Disposable(s.fs0, s.cfg, p)
  }

  ghost predicate SceneOk(s: Scene) {
    && (forall p :: Weighed(s, p))
    && ExactProtection(s.fs0, s.protected, s.proofs)
  }

  /** How far it has come. */
  datatype Tally = Tally(fs: FS, report: Report, log: seq<Removal>, counted: set<Path>)

  /** So much is counted, and the filesystem is what it was without what was removed. */
  ghost predicate Undisturbed(s: Scene, t: Tally) {
    && t.fs == s.fs0 - LogPaths(t.log) && LogPaths(t.log) <= t.counted <= s.all
    && (forall p | p in s.all :: IsFile(s.fs0, p))
    && t.report.candidates == |t.counted| && t.report.candidateBytes == TotalBytes(s.fs0, t.counted)
    && (s.cfg.apply && s.cfg.cap.None? ==>
          && LogPaths(t.log) == t.counted
          && t.report.removed == t.report.candidates && t.report.removedBytes == t.report.candidateBytes)
    && (!s.cfg.apply ==> t.log == [])
    && (s.cfg.apply ==> LeftIsTooBig(s.fs0, s.cfg, t.report, t.counted - LogPaths(t.log)))
  }

  /** What was counted and not removed would have exceeded the budget. */
  ghost predicate LeftIsTooBig(fs0: FS, cfg: Config, report: Report, left: set<Path>) {
    forall p | p in left && IsFile(fs0, p) :: cfg.cap.Some? && report.removedBytes + fs0[p].stat.blocks * 512 > cfg.cap.value
  }

  ghost predicate ListedIff(s: Scene, stem: string, objects: seq<Object>, o: Object) {
    o in objects <==> StandsOld(s.fs0, o, stem, s.cfg.cutoff)
  }

  ghost predicate ExactObjects(s: Scene, stem: string, objects: seq<Object>) {
    forall o :: ListedIff(s, stem, objects, o)
  }

  ghost predicate ExactCompleted(fs0: FS, stem: string, completed: seq<Path>) {
    && (completed != [] <==> HasFingerprint(fs0, AfterLastDash(stem)))
    && forall i | 0 <= i < |completed| :: IsCompleted(fs0, completed[i])
  }

  ghost predicate OnlyObjects(paths: set<Path>) {
    forall p | p in paths :: IsObjectPath(p)
  }

  /** Removing objects leaves every other path as it was. */
  lemma OutsideObjects(fs0: FS, removed: set<Path>, p: Path)
    requires OnlyObjects(removed) && !IsObjectPath(p)
    ensures p in fs0 - removed <==> p in fs0
    ensures p in fs0 ==> (fs0 - removed)[p] == fs0[p]
  {
  }

  lemma ExecutableOutside(fs0: FS, removed: set<Path>, pr: Proof)
    requires OnlyObjects(removed) && Proves(fs0, pr) && IsExecutable(fs0, pr.path)
    ensures Proves(fs0 - removed, pr)
  {
    if ObjectStem(pr.path.name).Some? {
      ObjectNamesEnd(pr.path.name);
    } else {
      OutsideObjects(fs0, removed, pr.path);
    }
  }

  /** Unlinking objects leaves the evidence of every group as it was. */
  lemma GroupUnaffected(fs0: FS, removed: set<Path>, stem: string, completed: seq<Path>)
    requires OnlyObjects(removed) && IsStem(stem) && ExactCompleted(fs0, stem, completed)
    ensures ArtifactOf(fs0 - removed, stem) == ArtifactOf(fs0, stem)
    ensures ArtifactOf(fs0, stem).Some? ==>
      (fs0 - removed)[ArtifactOf(fs0, stem).value] == fs0[ArtifactOf(fs0, stem).value]
    ensures ReadyOn(fs0 - removed, stem, completed) <==> GroupIsReadable(fs0, stem)
    ensures AllFiles(fs0 - removed, completed)
  {
    ArtifactsAreNotObjects(stem);
    OutsideObjects(fs0, removed, ArtifactPaths(stem)[0]);
    OutsideObjects(fs0, removed, ArtifactPaths(stem)[1]);
    OutsideObjects(fs0, removed, DepPath(stem));
    forall i | 0 <= i < |completed| ensures IsFile(fs0 - removed, completed[i]) {
      OutsideObjects(fs0, removed, completed[i]);
    }
  }

  /** What a readable group shows on the first filesystem. */
  ghost predicate GroupIn(fs0: FS, g: Group) {
    && GroupIsReadable(fs0, g.stem) && ArtifactOf(fs0, g.stem) == Some(g.artifact)
    && NamesIn(fs0[g.artifact].content) == Some(g.names) && g.artifactTime == fs0[g.artifact].stat.sig.mtime
  }

  /** For an object of a readable group, passing the filters is being disposable. */
  lemma PassedIffNotDisposable(s: Scene, g: Group, o: Object)
    requires SceneOk(s) && GroupIn(s.fs0, g) && StandsOld(s.fs0, o, g.stem, s.cfg.cutoff)
    ensures Passed(s.cfg, g, s.protected, o) <==> o.path !in s.all
  {
    assert Weighed(s, o.path);
  }

  lemma OneMore(fs0: FS, counted: set<Path>, p: Path)
    requires (forall q | q in counted :: IsFile(fs0, q)) && IsFile(fs0, p) && p !in counted
    ensures |counted + {p}| == |counted| + 1
    ensures TotalBytes(fs0, counted + {p}) == TotalBytes(fs0, counted) + fs0[p].stat.Allocated()
  {
    TotalBytesAdd(fs0, counted, p);
  }

  lemma MinusTwice(fs0: FS, gone: set<Path>, p: Path)
    ensures fs0 - (gone + {p}) == fs0 - gone - {p}
  {
  }

  lemma LogPathsGrow(log: seq<Removal>, log': seq<Removal>)
    requires log <= log' && |log'| == |log| + 1
    ensures LogPaths(log') == LogPaths(log) + {log'[|log|].item.path}
  {
    forall p ensures p in LogPaths(log') <==> p in LogPaths(log) || p == log'[|log|].item.path {
      if p in LogPaths(log) {
        var i :| 0 <= i < |log| && log[i].item.path == p;
        assert log'[i] == log[i];
      }
      if p in LogPaths(log') {
        var i :| 0 <= i < |log'| && log'[i].item.path == p;
        assert i < |log| ==> log[i] == log'[i];
      }
    }
  }

  function Marked(counted: set<Path>, all: set<Path>, p: Path): set<Path> {
    if p in all then counted + {p} else counted
  }

  lemma UndisturbedStep(s: Scene, o: Object, t: Tally, t': Tally)
    requires Undisturbed(s, t) && o.path !in t.counted && IsFile(s.fs0, o.path) && s.fs0[o.path].stat == o.stat
    requires Considered(s.cfg, o, o.path in s.all, t.fs, t.report, t.log, t'.fs, t'.report, t'.log)
    requires t'.counted == Marked(t.counted, s.all, o.path)
    ensures Undisturbed(s, t')
  {
    if o.path in s.all {
      OneMore(s.fs0, t.counted, o.path);
      if s.cfg.apply && Fits(s.cfg, t.report, o) {
        LogPathsGrow(t.log, t'.log);
        MinusTwice(s.fs0, LogPaths(t.log), o.path);
      }
      LeftStep(s, o, t, t');
    }
  }

  lemma LeftStep(s: Scene, o: Object, t: Tally, t': Tally)
    requires Undisturbed(s, t) && o.path in s.all && IsFile(s.fs0, o.path) && s.fs0[o.path].stat == o.stat
    requires Considered(s.cfg, o, true, t.fs, t.report, t.log, t'.fs, t'.report, t'.log)
    requires t'.counted == t.counted + {o.path}
    ensures s.cfg.apply ==> LeftIsTooBig(s.fs0, s.cfg, t'.report, t'.counted - LogPaths(t'.log))
  {
    if s.cfg.apply {
      if Fits(s.cfg, t.report, o) {
        LogPathsGrow(t.log, t'.log);
      }
      forall p | p in t'.counted - LogPaths(t'.log) && IsFile(s.fs0, p)
        ensures s.cfg.cap.Some? && t'.report.removedBytes + s.fs0[p].stat.blocks * 512 > s.cfg.cap.value
      {
        assert p != o.path ==> p in t.counted - LogPaths(t.log);
      }
    }
  }

  /** The snapshot of a group has no object in it. */
  lemma SnapshotUnaffected(fs0: FS, earlier: set<Path>, removed: set<Path>, g: Group)
    requires GroupShape(g) && OnlyObjects(earlier) && OnlyObjects(removed)
    requires AllProve(fs0 - earlier, g.snapshot)
    ensures AllProve(fs0 - removed, g.snapshot)
  {
    ArtifactsAreNotObjects(g.stem);
    forall i | 0 <= i < |g.snapshot| ensures Proves(fs0 - removed, g.snapshot[i]) {
      assert Proves(fs0 - earlier, g.snapshot[i]);
      OutsideObjects(fs0, earlier, g.snapshot[i].path);
      OutsideObjects(fs0, removed, g.snapshot[i].path);
    }
  }

  lemma DisposablesAreObjects(s: Scene, t: Tally)
    requires SceneOk(s) && Undisturbed(s, t)
    ensures OnlyObjects(s.all) && OnlyObjects(LogPaths(t.log))
  {
    forall p | p in s.all ensures IsObjectPath(p) {
      assert Weighed(s, p);
    }
  }

  /** Such a group, met with nothing of it counted yet. */
  ghost predicate GroupMet(s: Scene, g: Group, objects: seq<Object>, t: Tally) {
    && SceneOk(s) && GroupIn(s.fs0, g) && ExactObjects(s, g.stem, objects) && Undisturbed(s, t)
    && (forall p | p in t.counted :: ObjectStem(p.name) != Some(g.stem))
    && AllProve(t.fs, g.snapshot)
  }

  ghost predicate CountedSoFar(all: set<Path>, objects: seq<Object>, k: nat, counted0: set<Path>, counted: set<Path>)
    requires k <= |objects|
  {
    forall p :: CountedIff(all, objects, k, counted0, counted, p)
  }

  ghost predicate CountedIff(all: set<Path>, objects: seq<Object>, k: nat, counted0: set<Path>, counted: set<Path>, p: Path)
    requires k <= |objects|
  {
    p in counted <==> p in counted0 || (p in all && exists i | 0 <= i < k :: objects[i].path == p)
  }

  lemma CountedStep(all: set<Path>, objects: seq<Object>, k: nat, counted0: set<Path>, counted: set<Path>)
    requires k < |objects| && CountedSoFar(all, objects, k, counted0, counted)
    ensures CountedSoFar(all, objects, k + 1, counted0, Marked(counted, all, objects[k].path))
  {
    var n, marked := k + 1, Marked(counted, all, objects[k].path);
    forall p ensures CountedIff(all, objects, n, counted0, marked, p) {
      assert CountedIff(all, objects, k, counted0, counted, p);
    }
  }

  lemma NotYetCounted(s: Scene, g: Group, objects: seq<Object>, k: nat, t0: Tally, t: Tally)
    requires k < |objects| && ObjectsOk(objects, g.stem, s.cfg.cutoff)
    requires GroupMet(s, g, objects, t0) && CountedSoFar(s.all, objects, k, t0.counted, t.counted)
    ensures objects[k].path !in t.counted && StandsOld(s.fs0, objects[k], g.stem, s.cfg.cutoff)
  {
    assert objects[k] in objects && ListedIff(s, g.stem, objects, objects[k]);
    assert CountedIff(s.all, objects, k, t0.counted, t.counted, objects[k].path);
  }

  lemma SnapshotStill(s: Scene, g: Group, t0: Tally, t: Tally)
    requires GroupShape(g) && SceneOk(s) && Undisturbed(s, t0) && Undisturbed(s, t)
    requires AllProve(t0.fs, g.snapshot)
    ensures AllProve(t.fs, g.snapshot)
  {
    DisposablesAreObjects(s, t0);
    DisposablesAreObjects(s, t);
    SnapshotUnaffected(s.fs0, LogPaths(t0.log), LogPaths(t.log), g);
  }

  lemma ObjectStill(s: Scene, t: Tally, o: Object)
    requires Undisturbed(s, t) && o.path !in t.counted && IsFile(s.fs0, o.path) && s.fs0[o.path].stat == o.stat
    ensures Proves(t.fs, Proof(o.path, o.stat.sig))
  {
  }

  lemma ReadyToConsider(s: Scene, g: Group, objects: seq<Object>, k: nat, t0: Tally, t: Tally)
    requires GroupShape(g) && k < |objects| && ObjectsOk(objects, g.stem, s.cfg.cutoff)
    requires GroupMet(s, g, objects, t0) && Undisturbed(s, t) && CountedSoFar(s.all, objects, k, t0.counted, t.counted)
    ensures StillProved(t.fs, g, objects[k]) && (Passed(s.cfg, g, s.protected, objects[k]) <==> objects[k].path !in s.all)
  {
    NotYetCounted(s, g, objects, k, t0, t);
    SnapshotStill(s, g, t0, t);
    ObjectStill(s, t, objects[k]);
    PassedIffNotDisposable(s, g, objects[k]);
  }

  lemma CountStep(s: Scene, g: Group, objects: seq<Object>, k: nat, t0: Tally, t: Tally, t': Tally)
    requires k < |objects| && ObjectsOk(objects, g.stem, s.cfg.cutoff)
    requires GroupMet(s, g, objects, t0) && Undisturbed(s, t) && CountedSoFar(s.all, objects, k, t0.counted, t.counted)
    requires Considered(s.cfg, objects[k], objects[k].path in s.all, t.fs, t.report, t.log, t'.fs, t'.report, t'.log)
    requires t'.counted == Marked(t.counted, s.all, objects[k].path)
    ensures Undisturbed(s, t') && CountedSoFar(s.all, objects, k + 1, t0.counted, t'.counted)
  {
    NotYetCounted(s, g, objects, k, t0, t);
    UndisturbedStep(s, objects[k], t, t');
    CountedStep(s.all, objects, k, t0.counted, t.counted);
  }

  /** Exactly the disposable objects of this stem were added. */
  ghost predicate StemCounted(all: set<Path>, stem: string, counted0: set<Path>, counted: set<Path>) {
    forall p :: AddedIff(all, stem, counted0, counted, p)
  }

  ghost predicate AddedIff(all: set<Path>, stem: string, counted0: set<Path>, counted: set<Path>, p: Path) {
    p in counted <==> p in counted0 || (p in all && ObjectStem(p.name) == Some(stem))
  }

  lemma AllCounted(s: Scene, stem: string, objects: seq<Object>, counted0: set<Path>, counted: set<Path>)
    requires SceneOk(s) && ExactObjects(s, stem, objects) && ObjectsOk(objects, stem, s.cfg.cutoff)
    requires CountedSoFar(s.all, objects, |objects|, counted0, counted)
    ensures StemCounted(s.all, stem, counted0, counted)
  {
    forall p ensures AddedIff(s.all, stem, counted0, counted, p) {
      assert CountedIff(s.all, objects, |objects|, counted0, counted, p);
      if p in s.all && ObjectStem(p.name) == Some(stem) {
        assert Weighed(s, p);
        var o := Object(p, s.fs0[p].stat);
        assert ListedIff(s, stem, objects, o);
        var i :| 0 <= i < |objects| && objects[i] == o;
      }
    }
  }

  // ----- One group -----

  /** The k-th object of a group, on the way through all of them. */
  method ConsiderNext(disk: Disk, cfg: Config, g: Group, objects: seq<Object>, k: nat, protected: set<string>, report0: Report,
                      ghost ctx: Context, ghost from: Opened, ghost log0: seq<Removal>,
                      ghost s: Scene, ghost t0: Tally, ghost counted0: set<Path>)
    returns (ok: bool, report: Report, ghost log: seq<Removal>, ghost counted: set<Path>)
    requires disk.Valid() && ctx.known <= disk.history && ContextOk(ctx, from, cfg, g, protected)
    requires k < |objects| && ObjectsOk(objects, g.stem, cfg.cutoff) && s.cfg == cfg && s.protected == protected
    requires AllScanned(ctx.known, from.base.passed, objects)
    requires Books(disk.history, disk.unlinked, from, cfg, report0, log0)
    modifies disk
    ensures disk.Valid() && old(disk.history) <= disk.history
    ensures Books(disk.history, disk.unlinked, from, cfg, report, log) && report.groups == report0.groups
    ensures disk.quiet && GroupMet(s, g, objects, t0) && Undisturbed(s, Tally(old(disk.Fs()), report0, log0, counted0))
            && CountedSoFar(s.all, objects, k, t0.counted, counted0) ==>
      && ok && Undisturbed(s, Tally(disk.Fs(), report, log, counted))
      && CountedSoFar(s.all, objects, k + 1, t0.counted, counted)
  {
    ghost var t := Tally(disk.Fs(), report0, log0, counted0);
    ghost var exact := disk.quiet && GroupMet(s, g, objects, t0) && Undisturbed(s, t)
                       && CountedSoFar(s.all, objects, k, t0.counted, counted0);
    counted := Marked(counted0, s.all, objects[k].path);
    if exact {
      ReadyToConsider(s, g, objects, k, t0, t);
    }
    ok, report, log := ConsiderObject(disk, cfg, g, objects[k], protected, report0, ctx, from, log0);
    if exact {
      CountStep(s, g, objects, k, t0, t, Tally(disk.Fs(), report, log, counted));
    }
  }

  /** The objects of one group: skip what is named, protected or newer, count the rest, and under
      `apply` remove what the budget allows. */
  method CollectObjects(disk: Disk, cfg: Config, g: Group, objects: seq<Object>, protected: set<string>, report0: Report,
                        ghost ctx: Context, ghost from: Opened, ghost log0: seq<Removal>,
                        ghost s: Scene, ghost counted0: set<Path>)
    returns (ok: bool, report: Report, ghost log: seq<Removal>, ghost counted: set<Path>)
    requires disk.Valid() && ctx.known <= disk.history && ContextOk(ctx, from, cfg, g, protected)
    requires ObjectsOk(objects, g.stem, cfg.cutoff) && s.cfg == cfg && s.protected == protected
    requires AllScanned(ctx.known, from.base.passed, objects)
    requires Books(disk.history, disk.unlinked, from, cfg, report0, log0)
    modifies disk
    ensures disk.Valid() && old(disk.history) <= disk.history
    ensures Books(disk.history, disk.unlinked, from, cfg, report, log) && report.groups == report0.groups
    ensures disk.quiet && GroupMet(s, g, objects, Tally(old(disk.Fs()), report0, log0, counted0)) ==>
      ok && Undisturbed(s, Tally(disk.Fs(), report, log, counted)) && StemCounted(s.all, g.stem, counted0, counted)
  {
    ok, report, log, counted := true, report0, log0, counted0;
    ghost var t0 := Tally(disk.Fs(), report0, log0, counted0);
    ghost var exact := disk.quiet && GroupMet(s, g, objects, t0);
    for k := 0 to |objects|
      invariant ok && disk.Valid() && old(disk.history) <= disk.history
      invariant Books(disk.history, disk.unlinked, from, cfg, report, log) && report.groups == report0.groups
      invariant exact ==>
        Undisturbed(s, Tally(disk.Fs(), report, log, counted)) && CountedSoFar(s.all, objects, k, counted0, counted)
    {
      ok, report, log, counted := ConsiderNext(disk, cfg, g, objects, k, protected, report, ctx, from, log, s, t0, counted);
      if !ok {
        return;
      }
    }
    if exact {
      AllCounted(s, g.stem, objects, counted0, counted);
    }
  }

  /** What the three passes found. */
  datatype Findings = Findings(protected: set<string>, proofs: seq<Proof>, groups: Groups, completed: Completed)

  /** The history when the executables had been inspected, and when all passes were over. */
  datatype Known = Known(inspected: seq<FS>, passed: seq<FS>)

  ghost predicate FindingsOk(f: Findings, known: Known, from: Opened, cfg: Config) {
    && known.inspected != [] && known.inspected <= known.passed && from.b < |known.inspected|
    && Guards(known.inspected, from.b, from.base.listed, f.protected, f.proofs)
    && from.base.at == |known.inspected| - 1 && from.base.proofs == f.proofs && from.base.passed == |known.passed| - 1
    && GroupsScanned(known.passed, f.groups)
    && GroupsOld(f.groups, cfg.cutoff) && CompletedOk(known.passed, from.b, f.completed)
  }

  /** With the evidence in hand at `start`, and the executables rechecked after it, all is known that an
      unlink needs. */
  lemma ContextReady(f: Findings, known: Known, from: Opened, cfg: Config, g: Group, read: nat, completed: seq<Path>,
                     begun: seq<FS>, h: seq<FS>)
    requires Gathered(begun, f, known, from, cfg, g, read, completed) && begun <= h && Lawful(h)
    requires cfg.apply ==> ProvedSince(h, |begun| - 1, f.proofs)
    ensures ContextOk(Context(h, read, |begun| - 1), from, cfg, g, f.protected)
  {
    assert h[..|begun|] == begun;
    forall i | 2 <= i < |g.snapshot| ensures SeenCompleted(h, from.b, g.snapshot[i].path) {
      SeenCompletedLater(known.passed, h, from.b, completed[i - 2]);
    }
    if cfg.apply {
      RecheckShields(known.inspected, h, from.b, from.base.listed, |begun| - 1, f.protected, f.proofs);
    }
  }

  lemma ProofsHold(s: Scene, t: Tally)
    requires SceneOk(s) && Undisturbed(s, t)
    ensures forall i | 0 <= i < |s.proofs| :: Proves(t.fs, s.proofs[i])
  {
    DisposablesAreObjects(s, t);
    forall i | 0 <= i < |s.proofs| ensures Proves(t.fs, s.proofs[i]) {
      ExecutableOutside(s.fs0, LogPaths(t.log), s.proofs[i]);
    }
  }

  /** What is known when a group's evidence has been gathered, its names having been read in state `read`. */
  ghost predicate Gathered(h: seq<FS>, f: Findings, known: Known, from: Opened, cfg: Config, g: Group, read: nat, completed: seq<Path>) {
    && FindingsOk(f, known, from, cfg) && known.passed <= h && from.base.passed <= read < |h|
    && GroupShape(g) && HasEvidence(h, g, read) && SnapshotOf(g.snapshot, g.artifact, g.stem, completed)
    && AllSeenCompleted(known.passed, from.b, completed, AfterLastDash(g.stem))
  }

  /** Under `apply`, recheck the executables before anything of the group is touched. */
  method RecheckGroup(disk: Disk, cfg: Config, f: Findings, g: Group,
                      ghost read: nat, ghost completed: seq<Path>, ghost known: Known, ghost from: Opened)
    returns (ok: bool, ghost ctx: Context)
    requires disk.Valid() && Gathered(disk.history, f, known, from, cfg, g, read, completed)
    modifies disk`history
    ensures disk.Valid() && old(disk.history) <= disk.history
    ensures ok ==> ctx.known == disk.history && ContextOk(ctx, from, cfg, g, f.protected)
    ensures disk.quiet ==> disk.Fs() == old(disk.Fs())
    ensures disk.quiet && (forall i | 0 <= i < |f.proofs| :: Proves(old(disk.Fs()), f.proofs[i])) ==> ok
  {
    ghost var h := disk.history;
    ok, ctx := true, Context(h, read, |h| - 1);
    if cfg.apply {
      ok := CheckExecutables(disk, f.proofs);
    }
    if ok {
      ContextReady(f, known, from, cfg, g, read, completed, h, disk.history);
      ctx := Context(disk.history, read, |h| - 1);
    }
  }

  function OneGroupMore(report: Report): Report {
    report.(groups := report.groups + 1)
  }

  /** Count the group and recheck the executables: all its objects need is then known. */
  method OpenGroup(disk: Disk, cfg: Config, f: Findings, g: Group, report0: Report,
                   ghost objects: seq<Object>, ghost read: nat, ghost completed: seq<Path>, ghost known: Known, ghost from: Opened,
                   ghost log0: seq<Removal>, ghost s: Scene, ghost counted0: set<Path>)
    returns (ok: bool, report: Report, ghost ctx: Context)
    requires disk.Valid() && Gathered(disk.history, f, known, from, cfg, g, read, completed) && s.proofs == f.proofs
    requires Books(disk.history, disk.unlinked, from, cfg, report0, log0)
    modifies disk`history
    ensures disk.Valid() && old(disk.history) <= disk.history && report == OneGroupMore(report0)
    ensures Books(disk.history, disk.unlinked, from, cfg, report, log0)
    ensures ok ==> ctx.known == disk.history && ContextOk(ctx, from, cfg, g, f.protected)
    ensures disk.quiet && GroupMet(s, g, objects, Tally(old(disk.Fs()), report0, log0, counted0)) ==>
      ok && GroupMet(s, g, objects, Tally(disk.Fs(), report, log0, counted0))
  {
    report := OneGroupMore(report0);
    ghost var h, t := disk.history, Tally(disk.Fs(), report0, log0, counted0);
    if disk.quiet && GroupMet(s, g, objects, t) {
      ProofsHold(s, t);
      MetOneMore(s, g, objects, t);
    }
    ok, ctx := RecheckGroup(disk, cfg, f, g, read, completed, known, from);
    BooksOneMore(h, disk.history, disk.unlinked, from, cfg, report0, log0);
  }

  /** With the group's evidence in hand: recheck the executables under `apply`, then its objects. */
  method CollectFrom(disk: Disk, cfg: Config, f: Findings, g: Group, objects: seq<Object>, report0: Report,
                     ghost read: nat, ghost completed: seq<Path>, ghost known: Known, ghost from: Opened, ghost log0: seq<Removal>,
                     ghost s: Scene, ghost counted0: set<Path>)
    returns (ok: bool, report: Report, ghost log: seq<Removal>, ghost counted: set<Path>)
    requires disk.Valid() && Gathered(disk.history, f, known, from, cfg, g, read, completed)
    requires ObjectsOk(objects, g.stem, cfg.cutoff) && AllScanned(known.passed, from.base.passed, objects)
    requires s.cfg == cfg && s.protected == f.protected && s.proofs == f.proofs
    requires Books(disk.history, disk.unlinked, from, cfg, report0, log0)
    modifies disk
    ensures disk.Valid() && old(disk.history) <= disk.history
    ensures Books(disk.history, disk.unlinked, from, cfg, report, log) && report.groups == report0.groups + 1
    ensures disk.quiet && GroupMet(s, g, objects, Tally(old(disk.Fs()), report0, log0, counted0)) ==>
      ok && Undisturbed(s, Tally(disk.Fs(), report, log, counted)) && StemCounted(s.all, g.stem, counted0, counted)
  {
    log, counted := log0, counted0;
    ghost var ctx;
    ok, report, ctx := OpenGroup(disk, cfg, f, g, report0, objects, read, completed, known, from, log0, s, counted0);
    if ok {
      AllScannedLater(known.passed, ctx.known, from.base.passed, from.base.passed, objects);
      ok, report, log, counted := CollectObjects(disk, cfg, g, objects, f.protected, report, ctx, from, log0, s, counted0);
    }
  }

  lemma BooksOneMore(h: seq<FS>, h': seq<FS>, unlinked: seq<Unlink>, from: Opened, cfg: Config, report: Report, log: seq<Removal>)
    requires h <= h' && Books(h, unlinked, from, cfg, report, log)
    ensures Books(h', unlinked, from, cfg, OneGroupMore(report), log)
  {
    BooksLater(h, h', unlinked, from, cfg, report, log);
  }

  lemma MetOneMore(s: Scene, g: Group, objects: seq<Object>, t: Tally)
    requires GroupMet(s, g, objects, t)
    ensures GroupMet(s, g, objects, t.(report := OneGroupMore(t.report)))
  {
  }

  // ----- All groups -----

  function CompletedFor(completed: Completed, stem: string): seq<Path> {
    if AfterLastDash(stem) in completed then completed[AfterLastDash(stem)] else []
  }

  ghost predicate GroupedIff(s: Scene, f: Findings, stem: string, o: Object) {
    Grouped(f.groups, stem, o) <==> StandsOld(s.fs0, o, stem, s.cfg.cutoff)
  }

  ghost predicate CompletedIff(s: Scene, f: Findings, hash: string) {
    hash in f.completed <==> HasFingerprint(s.fs0, hash)
  }

  /** What the three passes found on a filesystem nobody changes. */
  ghost predicate PassesExact(s: Scene, f: Findings) {
    && SceneOk(s) && s.protected == f.protected && s.proofs == f.proofs
    && (forall stem, o :: GroupedIff(s, f, stem, o))
    && (forall h :: CompletedIff(s, f, h))
    && (forall h, p | h in f.completed && p in f.completed[h] :: IsCompleted(s.fs0, p))
  }

  /** The disposable objects of the stems done so far are counted, and the readable stems. */
  ghost predicate Progress(s: Scene, done: set<string>, t: Tally) {
    && Undisturbed(s, t) && t.report.groups == |Readable(s.fs0, done)|
    && forall p :: DoneIff(s, done, t, p)
  }

  ghost predicate DoneIff(s: Scene, done: set<string>, t: Tally, p: Path) {
    p in t.counted <==> p in s.all && ObjectStem(p.name).Some? && ObjectStem(p.name).value in done
  }

  /** The stems whose finished build could be read. */
  ghost function Readable(fs0: FS, stems: set<string>): set<string> {
    set s | s in stems && GroupIsReadable(fs0, s)
  }

  lemma ReadableStep(fs0: FS, done: set<string>, stem: string)
    requires stem !in done
    ensures |Readable(fs0, done + {stem})| == |Readable(fs0, done)| + (if GroupIsReadable(fs0, stem) then 1 else 0)
  {
    assert Readable(fs0, done + {stem}) == Readable(fs0, done) + if GroupIsReadable(fs0, stem) then {stem} else {};
  }

  lemma ProgressStep(s: Scene, done: set<string>, stem: string, t: Tally, t': Tally)
    requires Progress(s, done, t) && stem !in done && Undisturbed(s, t') && StemCounted(s.all, stem, t.counted, t'.counted)
    requires t'.report.groups == t.report.groups + (if GroupIsReadable(s.fs0, stem) then 1 else 0)
    ensures Progress(s, done + {stem}, t')
  {
    ReadableStep(s.fs0, done, stem);
    forall p ensures DoneIff(s, done + {stem}, t', p) {
      assert DoneIff(s, done, t, p) && AddedIff(s.all, stem, t.counted, t'.counted, p);
    }
  }

  lemma CompletedForIsSeen(f: Findings, known: Known, from: Opened, cfg: Config, stem: string)
    requires FindingsOk(f, known, from, cfg)
    ensures AllSeenCompleted(known.passed, from.b, CompletedFor(f.completed, stem), AfterLastDash(stem))
    ensures CompletedShape(CompletedFor(f.completed, stem), stem)
  {
    var list, hash := CompletedFor(f.completed, stem), AfterLastDash(stem);
    if hash in f.completed {
      assert AllSeenCompleted(known.passed, from.b, f.completed[hash], hash);
    }
    forall i | 0 <= i < |list| ensures IsTargetName(list[i].name) {
      assert SeenCompleted(known.passed, from.b, list[i]);
    }
  }

  lemma CompletedForIsExact(s: Scene, f: Findings, known: Known, from: Opened, stem: string)
    requires PassesExact(s, f) && FindingsOk(f, known, from, s.cfg)
    ensures ExactCompleted(s.fs0, stem, CompletedFor(f.completed, stem))
  {
    var list := CompletedFor(f.completed, stem);
    assert CompletedIff(s, f, AfterLastDash(stem));
    forall i | 0 <= i < |list| ensures IsCompleted(s.fs0, list[i]) {
      assert list[i] in list;
    }
  }

  lemma StemObjectsExact(s: Scene, f: Findings, stem: string)
    requires PassesExact(s, f) && stem in f.groups
    ensures ExactObjects(s, stem, f.groups[stem])
  {
    forall o ensures ListedIff(s, stem, f.groups[stem], o) {
      assert GroupedIff(s, f, stem, o);
    }
  }

  lemma StemIsAStem(f: Findings, known: Known, from: Opened, cfg: Config, stem: string)
    requires FindingsOk(f, known, from, cfg) && stem in f.groups
    ensures IsStem(stem) && ObjectsOk(f.groups[stem], stem, cfg.cutoff)
  {
    assert IsOldObject(f.groups[stem][0], stem, cfg.cutoff);
    ObjectNamesEnd(f.groups[stem][0].path.name);
  }

  /** On a quiet filesystem a group is ready exactly when it was readable at first, and looks the same. */
  lemma StemUnaffected(s: Scene, f: Findings, known: Known, from: Opened, done: set<string>, stem: string, t: Tally)
    requires PassesExact(s, f) && FindingsOk(f, known, from, s.cfg) && IsStem(stem) && Progress(s, done, t)
    ensures
      var completed := CompletedFor(f.completed, stem);
      && AllFiles(t.fs, completed) && (ReadyOn(t.fs, stem, completed) <==> GroupIsReadable(s.fs0, stem))
      && ArtifactOf(t.fs, stem) == ArtifactOf(s.fs0, stem)
      && (ArtifactOf(s.fs0, stem).Some? ==> t.fs[ArtifactOf(s.fs0, stem).value] == s.fs0[ArtifactOf(s.fs0, stem).value])
  {
    CompletedForIsExact(s, f, known, from, stem);
    DisposablesAreObjects(s, t);
    GroupUnaffected(s.fs0, LogPaths(t.log), stem, CompletedFor(f.completed, stem));
  }

  lemma GroupIsMet(s: Scene, f: Findings, known: Known, from: Opened, done: set<string>, stem: string, t: Tally, g: Group)
    requires PassesExact(s, f) && FindingsOk(f, known, from, s.cfg) && IsStem(stem) && stem in f.groups
    requires Progress(s, done, t) && stem !in done && g.stem == stem
    requires ReadyOn(t.fs, stem, CompletedFor(f.completed, stem)) && GroupOf(t.fs, g)
    ensures GroupMet(s, g, f.groups[stem], t) && GroupIsReadable(s.fs0, stem)
  {
    StemUnaffected(s, f, known, from, done, stem, t);
    StemObjectsExact(s, f, stem);
    forall p | p in t.counted ensures ObjectStem(p.name) != Some(stem) {
      assert DoneIff(s, done, t, p);
    }
  }

  /** Nothing of a group without a readable finished build is disposable. */
  lemma UnreadableHasNothing(s: Scene, stem: string, counted: set<Path>)
    requires SceneOk(s) && !GroupIsReadable(s.fs0, stem)
    ensures StemCounted(s.all, stem, counted, counted)
  {
    forall p ensures AddedIff(s.all, stem, counted, counted, p) {
      assert Weighed(s, p);
    }
  }

  /** Gather the evidence of one stem's group. */
  method PrepareStem(disk: Disk, cfg: Config, f: Findings, stem: string, ghost report0: Report,
                     ghost known: Known, ghost from: Opened, ghost log0: seq<Removal>, ghost s: Scene,
                     ghost done: set<string>, ghost counted0: set<Path>)
    returns (r: Preparation, ghost read: nat)
    requires disk.Valid() && FindingsOk(f, known, from, cfg) && known.passed <= disk.history && stem in f.groups
    requires s.cfg == cfg
    modifies disk`history
    ensures disk.Valid() && old(disk.history) <= disk.history
    ensures r.Ready? ==>
      && r.group.stem == stem && ObjectsOk(f.groups[stem], stem, cfg.cutoff)
      && Gathered(disk.history, f, known, from, cfg, r.group, read, CompletedFor(f.completed, stem))
    ensures disk.quiet && PassesExact(s, f) && stem !in done && Progress(s, done, Tally(old(disk.Fs()), report0, log0, counted0)) ==>
      && disk.Fs() == old(disk.Fs()) && !r.Abort? && (r.Ready? <==> GroupIsReadable(s.fs0, stem))
      && (r.Ready? ==> GroupMet(s, r.group, f.groups[stem], Tally(disk.Fs(), report0, log0, counted0)))
  {
    ghost var t := Tally(disk.Fs(), report0, log0, counted0);
    ghost var exact := disk.quiet && PassesExact(s, f) && stem !in done && Progress(s, done, t);
    StemIsAStem(f, known, from, cfg, stem);
    CompletedForIsSeen(f, known, from, cfg, stem);
    if exact {
      StemUnaffected(s, f, known, from, done, stem, t);
    }
    r, read := PrepareGroup(disk, stem, CompletedFor(f.completed, stem));
    if exact && r.Ready? {
      GroupIsMet(s, f, known, from, done, stem, t, r.group);
    }
  }

  lemma SkippedProgress(s: Scene, done: set<string>, stem: string, t: Tally)
    requires SceneOk(s) && Progress(s, done, t) && stem !in done && !GroupIsReadable(s.fs0, stem)
    ensures Progress(s, done + {stem}, t)
  {
    UnreadableHasNothing(s, stem, t.counted);
    ProgressStep(s, done, stem, t, t);
  }

  /** The group of one stem, with what the passes found for it. */
  method CollectStem(disk: Disk, cfg: Config, f: Findings, stem: string, report0: Report,
                     ghost known: Known, ghost from: Opened, ghost log0: seq<Removal>,
                     ghost s: Scene, ghost done: set<string>, ghost counted0: set<Path>)
    returns (ok: bool, report: Report, ghost log: seq<Removal>, ghost counted: set<Path>)
    requires disk.Valid() && FindingsOk(f, known, from, cfg) && known.passed <= disk.history && stem in f.groups
    requires s.cfg == cfg && s.protected == f.protected && s.proofs == f.proofs
    requires Books(disk.history, disk.unlinked, from, cfg, report0, log0)
    modifies disk
    ensures disk.Valid() && old(disk.history) <= disk.history
    ensures Books(disk.history, disk.unlinked, from, cfg, report, log)
    ensures disk.quiet && PassesExact(s, f) && stem !in done && Progress(s, done, Tally(old(disk.Fs()), report0, log0, counted0)) ==>
      ok && Progress(s, done + {stem}, Tally(disk.Fs(), report, log, counted))
  {
    ok, report, log, counted := true, report0, log0, counted0;
    ghost var h, t := disk.history, Tally(disk.Fs(), report0, log0, counted0);
    ghost var exact := disk.quiet && PassesExact(s, f) && stem !in done && Progress(s, done, t);
    var prepared;
    ghost var read;
    prepared, read := PrepareStem(disk, cfg, f, stem, report0, known, from, log0, s, done, counted0);
    BooksLater(h, disk.history, disk.unlinked, from, cfg, report0, log0);
    match prepared {
      case Skip =>
        if exact {
          SkippedProgress(s, done, stem, t);
        }
      case Abort =>
        ok := false;
      case Ready(g) =>
        ok, report, log, counted := CollectFrom(disk, cfg, f, g, f.groups[stem], report0, read, CompletedFor(f.completed, stem),
                                                known, from, log0, s, counted0);
        if exact {
          ProgressStep(s, done, stem, t, Tally(disk.Fs(), report, log, counted));
        }
    }
  }

  /** The stems in sorted order. */
  method SortedStems(groups: Groups) returns (stems: seq<string>)
    ensures Distinct(stems) && Orders.SortedBy(Orders.TEXT_LE, stems)
    ensures forall s :: s in stems <==> s in groups
  {
    var todo := groups.Keys;
    stems := [];
    while todo != {}
      invariant forall s :: s in groups <==> s in todo || s in stems
      decreases |todo|
    {
      var stem :| stem in todo;
      stems := stems + [stem];
      todo := todo - {stem};
    }
    Orders.TextIsTotalOrder();
    Orders.SortedSetFacts(Orders.TEXT_LE, stems);
    stems := Orders.SortedSet(Orders.TEXT_LE, stems);
  }

  const NOTHING := Report(0, 0, 0, 0, 0)

  ghost function Done(stems: seq<string>, i: nat): set<string>
    requires i <= |stems|
  {
    Elements(stems[..i])
  }

  lemma DoneNext(stems: seq<string>, i: nat)
    requires i < |stems| && Distinct(stems)
    ensures stems[i] !in Done(stems, i) && Done(stems, i + 1) == Done(stems, i) + {stems[i]}
  {
    assert stems[..i + 1] == stems[..i] + [stems[i]];
  }

  /** On a quiet filesystem, with the first stems done. */
  ghost predicate OnCourse(quiet: bool, s: Scene, f: Findings, stems: seq<string>, i: nat, t: Tally)
    requires i <= |stems|
  {
    quiet && PassesExact(s, f) && Progress(s, Done(stems, i), t)
  }

  /** The i-th stem, on the way through all of them; `exact` says that the way so far was undisturbed. */
  method CollectNext(disk: Disk, cfg: Config, f: Findings, stems: seq<string>, i: nat, report0: Report,
                     ghost known: Known, ghost from: Opened, ghost log0: seq<Removal>, ghost s: Scene, ghost counted0: set<Path>,
                     ghost exact: bool)
    returns (ok: bool, report: Report, ghost log: seq<Removal>, ghost counted: set<Path>)
    requires disk.Valid() && FindingsOk(f, known, from, cfg) && known.passed <= disk.history
    requires i < |stems| && Distinct(stems) && stems[i] in f.groups
    requires s.cfg == cfg && s.protected == f.protected && s.proofs == f.proofs
    requires Books(disk.history, disk.unlinked, from, cfg, report0, log0)
    requires exact ==> OnCourse(disk.quiet, s, f, stems, i, Tally(disk.Fs(), report0, log0, counted0))
    modifies disk
    ensures disk.Valid() && old(disk.history) <= disk.history && known.passed <= disk.history
    ensures Books(disk.history, disk.unlinked, from, cfg, report, log)
    ensures exact ==> ok && OnCourse(disk.quiet, s, f, stems, i + 1, Tally(disk.Fs(), report, log, counted))
  {
    DoneNext(stems, i);
    ok, report, log, counted := CollectStem(disk, cfg, f, stems[i], report0, known, from, log0, s, Done(stems, i), counted0);
  }

  lemma BooksOpen(h: seq<FS>, from: Opened, cfg: Config)
    ensures Books(h, from.unlinks, from, cfg, NOTHING, [])
  {
  }

  method CollectInOrder(disk: Disk, cfg: Config, f: Findings, stems: seq<string>,
                        ghost known: Known, ghost from: Opened, ghost s: Scene, ghost exact: bool)
    returns (ok: bool, report: Report, ghost log: seq<Removal>, ghost counted: set<Path>)
    requires disk.Valid() && FindingsOk(f, known, from, cfg) && known.passed <= disk.history && disk.unlinked == from.unlinks
    requires Distinct(stems) && forall i | 0 <= i < |stems| :: stems[i] in f.groups
    requires s.cfg == cfg && s.protected == f.protected && s.proofs == f.proofs
    requires exact ==> OnCourse(disk.quiet, s, f, stems, 0, Tally(disk.Fs(), NOTHING, [], {}))
    modifies disk
    ensures disk.Valid() && old(disk.history) <= disk.history
    ensures Books(disk.history, disk.unlinked, from, cfg, report, log)
    ensures exact ==> ok && OnCourse(disk.quiet, s, f, stems, |stems|, Tally(disk.Fs(), report, log, counted))
  {
    ok, report, log, counted := true, NOTHING, [], {};
    BooksOpen(disk.history, from, cfg);
    for i := 0 to |stems|
      invariant ok && disk.Valid() && old(disk.history) <= disk.history && known.passed <= disk.history
      invariant Books(disk.history, disk.unlinked, from, cfg, report, log)
      invariant exact ==> OnCourse(disk.quiet, s, f, stems, i, Tally(disk.Fs(), report, log, counted))
    {
      ok, report, log, counted := CollectNext(disk, cfg, f, stems, i, report, known, from, log, s, counted, exact);
      if !ok {
        return;
      }
    }
  }

  method CollectGroups(disk: Disk, cfg: Config, f: Findings, ghost known: Known, ghost from: Opened, ghost s: Scene)
    returns (ok: bool, report: Report, ghost log: seq<Removal>, ghost counted: set<Path>)
    requires disk.Valid() && FindingsOk(f, known, from, cfg) && known.passed <= disk.history && disk.unlinked == from.unlinks
    requires s.cfg == cfg && s.protected == f.protected && s.proofs == f.proofs
    modifies disk
    ensures disk.Valid() && old(disk.history) <= disk.history
    ensures Books(disk.history, disk.unlinked, from, cfg, report, log)
    ensures disk.quiet && PassesExact(s, f) && old(disk.Fs()) == s.fs0 ==>
      ok && Progress(s, f.groups.Keys, Tally(disk.Fs(), report, log, counted))
  {
    var stems := SortedStems(f.groups);
    ghost var exact := disk.quiet && PassesExact(s, f) && disk.Fs() == s.fs0;
    if exact {
      NothingYet(s);
    }
    AllDone(stems, f.groups);
    ok, report, log, counted := CollectInOrder(disk, cfg, f, stems, known, from, s, exact);
  }

  lemma AllDone(stems: seq<string>, groups: Groups)
    requires forall s :: s in stems <==> s in groups
    ensures Done(stems, 0) == {} && Done(stems, |stems|) == groups.Keys
    ensures forall i | 0 <= i < |stems| :: stems[i] in groups
  {
    assert stems[..|stems|] == stems;
  }

  lemma NothingYet(s: Scene)
    requires SceneOk(s)
    ensures Progress(s, {}, Tally(s.fs0, NOTHING, [], {}))
  {
    assert LogPaths([]) == {} && s.fs0 - {} == s.fs0 && Readable(s.fs0, {}) == {};
    forall p | p in s.all ensures IsFile(s.fs0, p) {
      assert Weighed(s, p);
    }
    forall p ensures DoneIff(s, {}, Tally(s.fs0, NOTHING, [], {}), p) {
    }
  }

  // ----- The whole collection -----

  ghost function DisposableSet(fs: FS, cfg: Config): set<Path> {
    set p | p in fs && Disposable(fs, cfg, p)
  }

  /** The stems of all old objects. */
  ghost function OldStems(fs0: FS, cfg: Config): set<string> {
    set p | p in fs0 && IsFile(fs0, p) && ObjectStem(p.name).Some?
            && IsOldObject(Object(p, fs0[p].stat), ObjectStem(p.name).value, cfg.cutoff) :: ObjectStem(p.name).value
  }

  lemma OldStemsAreGrouped(s: Scene, f: Findings)
    requires PassesExact(s, f) && GroupsOld(f.groups, s.cfg.cutoff)
    ensures f.groups.Keys == OldStems(s.fs0, s.cfg)
  {
    forall stem | stem in f.groups ensures stem in OldStems(s.fs0, s.cfg) {
      assert GroupedIff(s, f, stem, f.groups[stem][0]);
    }
    forall stem | stem in OldStems(s.fs0, s.cfg) ensures stem in f.groups {
      var p :| p in s.fs0 && IsFile(s.fs0, p) && ObjectStem(p.name).Some?
               && IsOldObject(Object(p, s.fs0[p].stat), ObjectStem(p.name).value, s.cfg.cutoff) && ObjectStem(p.name).value == stem;
      assert GroupedIff(s, f, stem, Object(p, s.fs0[p].stat));
    }
  }

  /** What a finished collection did on a filesystem nobody else changes: it counted exactly the disposable
      objects and the readable groups, and removed only such objects, without a cap exactly those; what a cap leaves would have exceeded it. */
  ghost predicate CollectedExactly(fs0: FS, cfg: Config, fs: FS, report: Report, log: seq<Removal>) {
    var all := DisposableSet(fs0, cfg);
    && fs == fs0 - LogPaths(log) && LogPaths(log) <= all
    && (forall p | p in all :: IsFile(fs0, p))
    && report.candidates == |all| && report.candidateBytes == TotalBytes(fs0, all)
    && (cfg.apply && cfg.cap.None? ==>
          LogPaths(log) == all && report.removed == report.candidates && report.removedBytes == report.candidateBytes)
    && (cfg.apply ==> LeftIsTooBig(fs0, cfg, report, all - LogPaths(log)))
    && (!cfg.apply ==> log == [])
    && report.groups == |Readable(fs0, OldStems(fs0, cfg))|
  }

  lemma AllAreCounted(s: Scene, f: Findings, t: Tally)
    requires PassesExact(s, f) && Progress(s, f.groups.Keys, t)
    ensures t.counted == s.all
  {
    forall p ensures p in t.counted <==> p in s.all {
      assert DoneIff(s, f.groups.Keys, t, p) && Weighed(s, p);
      if p in s.all {
        assert GroupedIff(s, f, ObjectStem(p.name).value, Object(p, s.fs0[p].stat));
      }
    }
  }

  lemma EverythingCounted(s: Scene, f: Findings, t: Tally)
    requires PassesExact(s, f) && GroupsOld(f.groups, s.cfg.cutoff) && Progress(s, f.groups.Keys, t)
    requires s.all == DisposableSet(s.fs0, s.cfg)
    ensures CollectedExactly(s.fs0, s.cfg, t.fs, t.report, t.log)
  {
    OldStemsAreGrouped(s, f);
    AllAreCounted(s, f, t);
  }

  /** What every removal of a collection rests on: the executables were inspected, it was justified, its
      states are states the disk went through since the collection began, and it is on the disk's record in
      its place. */
  ghost predicate Sound(h: seq<FS>, unlinked: seq<Unlink>, from: Opened, protected: set<string>, cfg: Config, log: seq<Removal>) {
    && Recorded(h, unlinked, from, cfg, log)
    && (log != [] ==> from.base.at < |h| && Guards(h[..from.base.at + 1], from.b, from.base.listed, protected, from.base.proofs))
  }

  ghost function SceneOf(fs0: FS, cfg: Config, f: Findings): Scene {
    Scene(fs0, DisposableSet(fs0, cfg), cfg, f.protected, f.proofs)
  }

  lemma SceneIsExact(fs0: FS, cfg: Config, f: Findings)
    requires ExactProtection(fs0, f.protected, f.proofs)
    requires forall stem, o :: Grouped(f.groups, stem, o) <==> StandsOld(fs0, o, stem, cfg.cutoff)
    requires forall h :: h in f.completed <==> HasFingerprint(fs0, h)
    requires forall h, p | h in f.completed && p in f.completed[h] :: IsCompleted(fs0, p)
    ensures PassesExact(SceneOf(fs0, cfg, f), f)
  {
    var s := SceneOf(fs0, cfg, f);
    forall p ensures Weighed(s, p) {
    }
    forall stem, o ensures GroupedIff(s, f, stem, o) {
    }
    forall h ensures CompletedIff(s, f, h) {
    }
  }

  /** The three passes: executables, old objects, completed fingerprints; the last one fails when there is
      no fingerprint directory. */
  method RunPasses(disk: Disk, cfg: Config, hasFingerprints: bool)
    returns (ok: bool, f: Findings, ghost known: Known, ghost listed: Listings)
    requires disk.Valid()
    modifies disk`history
    ensures disk.Valid() && old(disk.history) <= disk.history
    ensures ok ==>
      && known.passed == disk.history && old(disk.history) <= known.inspected <= disk.history
      && FindingsOk(f, known, OpenedAt(old(disk.history), disk.unlinked, known, listed, f), cfg)
    ensures ok ==> hasFingerprints
    ensures disk.quiet ==> disk.Fs() == old(disk.Fs()) && (ok <==> hasFingerprints && Inspectable(disk.Fs()))
    ensures disk.quiet && ok ==> PassesExact(SceneOf(disk.Fs(), cfg, f), f)
  {
    ghost var h0, b := disk.history, |disk.history| - 1;
    known := Known(h0, h0);
    f := Findings({}, [], map[], map[]);
    var protected, proofs, groups, completed;
    ok, protected, proofs, listed := InspectExecutables(disk);
    if !ok {
      return;
    }
    ghost var h1 := disk.history;
    ok, groups := ScanObjects(disk, cfg.cutoff);
    if !ok || !hasFingerprints {
      ok := false;
      return;
    }
    ghost var h2 := disk.history;
    completed := CompletedFingerprints(disk, b);
    GroupsScannedLater(h2, disk.history, groups);
    f := Findings(protected, proofs, groups, completed);
    known := Known(h1, disk.history);
    if disk.quiet {
      SceneIsExact(disk.Fs(), cfg, f);
    }
  }

  /** The books at the beginning, once the executables have been inspected. */
  ghost function OpenedAt(h0: seq<FS>, unlinks: seq<Unlink>, known: Known, listed: Listings, f: Findings): Opened
    requires h0 != [] && h0 <= known.inspected <= known.passed
  {
    Opened(|h0| - 1, unlinks, Base(|known.inspected| - 1, listed, f.proofs, |known.passed| - 1))
  }

  lemma SumsWithinCap(log: seq<Removal>, cap: nat)
    requires SumLog(log) <= cap
    ensures forall k | 0 <= k <= |log| :: SumLog(log[..k]) <= cap
  {
    forall k | 0 <= k <= |log| ensures SumLog(log[..k]) <= cap {
      SumLogPrefix(log, k);
    }
  }

  /** The groups, and what their books say of the disk. */
  method CollectAll(disk: Disk, cfg: Config, f: Findings, ghost known: Known, ghost from: Opened, ghost fs0: FS)
    returns (ok: bool, report: Report, ghost log: seq<Removal>)
    requires disk.Valid() && FindingsOk(f, known, from, cfg) && known.passed <= disk.history && disk.unlinked == from.unlinks
    modifies disk
    ensures disk.Valid() && old(disk.history) <= disk.history
    ensures Sound(disk.history, disk.unlinked, from, f.protected, cfg, log)
    ensures Accounts(report, log, cfg)
    ensures disk.quiet && PassesExact(SceneOf(fs0, cfg, f), f) && old(disk.Fs()) == fs0 ==>
      ok && CollectedExactly(fs0, cfg, disk.Fs(), report, log)
  {
    ghost var s, counted := SceneOf(fs0, cfg, f), {};
    ghost var exact := disk.quiet && PassesExact(s, f) && disk.Fs() == fs0;
    ok, report, log, counted := CollectGroups(disk, cfg, f, known, from, s);
    assert disk.history[..from.base.at + 1] == known.inspected;
    if exact {
      EverythingCounted(s, f, Tally(disk.Fs(), report, log, counted));
    }
  }

  /** What a collection that started on `fs0` leaves, if nobody else changes the filesystem. */
  ghost predicate QuietOutcome(fs0: FS, cfg: Config, hasFingerprints: bool, fs: FS, report: Option<Report>, log: seq<Removal>) {
    && (report.Some? <==> hasFingerprints && Inspectable(fs0))
    && (report.None? ==> fs == fs0 && log == [])
    && (report.Some? ==> CollectedExactly(fs0, cfg, fs, report.value, log))
  }

  /** The passes and the groups, once Cargo's lock is held and no build is running. */
  method CollectLocked(disk: Disk, cfg: Config, hasFingerprints: bool)
    returns (report: Option<Report>, ghost log: seq<Removal>, ghost from: Opened, ghost protected: set<string>)
    requires disk.Valid()
    modifies disk
    ensures disk.Valid() && old(disk.history) <= disk.history
    ensures from.b == |old(disk.history)| - 1 && from.unlinks == old(disk.unlinked)
    ensures Sound(disk.history, disk.unlinked, from, protected, cfg, log)
    ensures cfg.cap.Some? ==> SumLog(log) <= cfg.cap.value
    ensures !cfg.apply || !hasFingerprints ==> log == []
    ensures !hasFingerprints ==> report == None
    ensures report.Some? ==> Accounts(report.value, log, cfg)
    ensures disk.quiet ==> QuietOutcome(old(disk.Fs()), cfg, hasFingerprints, disk.Fs(), report, log)
  {
    report, log, protected := None, [], {};
    from := Opened(|disk.history| - 1, disk.unlinked, Base(0, Listings(0, 0, 0), [], 0));
    ghost var h0, fs0 := disk.history, disk.Fs();
    var ok, f;
    ghost var known, listed;
    ok, f, known, listed := RunPasses(disk, cfg, hasFingerprints);
    if !ok {
      return;
    }
    from, protected := OpenedAt(h0, disk.unlinked, known, listed, f), f.protected;
    var total;
    ok, total, log := CollectAll(disk, cfg, f, known, from, fs0);
    if ok {
      report := Some(total);
    }
  }

  /** Every removal spares what the artifact and the debug maps name, and rests on evidence of its stem. */
  ghost predicate AllSpared(log: seq<Removal>, cfg: Config, base: Base) {
    forall i | 0 <= i < |log| :: SparedTexts(log[i], cfg, base) && EvidenceTexts(log[i])
  }

  lemma LogTexts(h: seq<FS>, unlinked: seq<Unlink>, from: Opened, cfg: Config, log: seq<Removal>)
    requires Recorded(h, unlinked, from, cfg, log)
    ensures AllSpared(log, cfg, from.base)
  {
    forall i | 0 <= i < |log| ensures SparedTexts(log[i], cfg, from.base) && EvidenceTexts(log[i]) {
      assert RemovalOk(h, from, cfg, log[i], unlinked[|from.unlinks| + i]);
      RemovalTexts(log[i], cfg, from.base);
    }
  }

  /**
   One collection. Whatever others do in between, and even when it gives up half-way: every unlink was
   justified at its instant and is on the disk's record, and the bytes removed never exceed the budget.
   A finished run's report counts the log exactly. On a filesystem nobody else changes it counts exactly
   the disposable objects and the readable groups, and an uncapped `apply` removes exactly those objects.
   */
  method Collect(disk: Disk, cfg: Config, hasDeps: bool, hasFingerprints: bool, buildBusy: bool)
    returns (report: Option<Report>, ghost log: seq<Removal>, ghost from: Opened, ghost protected: set<string>)
    requires disk.Valid()
    modifies disk
    ensures disk.Valid() && old(disk.history) <= disk.history
    ensures from.b == |old(disk.history)| - 1 && from.unlinks == old(disk.unlinked)
    ensures Sound(disk.history, disk.unlinked, from, protected, cfg, log)
    ensures AllSpared(log, cfg, from.base)
    ensures cfg.cap.Some? ==> forall k | 0 <= k <= |log| :: SumLog(log[..k]) <= cfg.cap.value
    ensures !cfg.apply || buildBusy || !hasDeps || !hasFingerprints ==> log == []
    ensures !hasDeps ==> report == Some(NOTHING)
    ensures hasDeps && (buildBusy || !hasFingerprints) ==> report == None
    ensures report.Some? ==> Accounts(report.value, log, cfg)
    ensures hasDeps && !buildBusy && disk.quiet ==> QuietOutcome(old(disk.Fs()), cfg, hasFingerprints, disk.Fs(), report, log)
  {
    report, log, protected := None, [], {};
    from := Opened(|disk.history| - 1, disk.unlinked, Base(0, Listings(0, 0, 0), [], 0));
    if !hasDeps {
      report := Some(NOTHING);
    } else if !buildBusy {
      report, log, from, protected := CollectLocked(disk, cfg, hasFingerprints);
    }
    LogTexts(disk.history, disk.unlinked, from, cfg, log);
    if cfg.cap.Some? {
      SumsWithinCap(log, cfg.cap.value);
    }
  }

  /** On the same filesystem, an uncapped `apply` removes exactly the set a dry run counts, byte for byte. */
  lemma ApplyRemovesWhatDryRunCounts(fs0: FS, cfg: Config, dryFs: FS, dry: Report, dryLog: seq<Removal>,
                                     fs: FS, applied: Report, log: seq<Removal>)
    requires CollectedExactly(fs0, cfg.(apply := false), dryFs, dry, dryLog)
    requires CollectedExactly(fs0, cfg.(apply := true, cap := None), fs, applied, log)
    ensures dryFs == fs0 && dry.candidates == applied.candidates == applied.removed
    ensures dry.candidateBytes == applied.candidateBytes == applied.removedBytes && dry.groups == applied.groups
    ensures fs == fs0 - DisposableSet(fs0, cfg) && dry.candidates == |DisposableSet(fs0, cfg)|
  {
    DisposableIgnoresMode(fs0, cfg.(apply := false), cfg);
    DisposableIgnoresMode(fs0, cfg.(apply := true, cap := None), cfg);
    assert LogPaths(dryLog) == {} && fs0 - {} == fs0;
    assert OldStems(fs0, cfg.(apply := false)) == OldStems(fs0, cfg.(apply := true, cap := None));
  }

  /** What is disposable depends on the age limit, not on whether anything is removed. */
  lemma DisposableIgnoresMode(fs0: FS, cfg: Config, other: Config)
    requires cfg.root == other.root && cfg.cutoff == other.cutoff
    ensures DisposableSet(fs0, cfg) == DisposableSet(fs0, other)
  {
    forall p ensures Disposable(fs0, cfg, p) == Disposable(fs0, other, p) {
    }
  }
}
