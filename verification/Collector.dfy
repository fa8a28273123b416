/**
 The collector of superseded object files: what it counts and what it unlinks, on a filesystem that
 others may change between any two of its observations.
 */
module Collector {
  import opened CargoNames
  import opened Inspection
  import opened Prelude
  import opened TargetDisk

  // ----- What is disposable -----

  datatype Object = Object(path: Path, stat: Stat)

  datatype Config = Config(root: string, apply: bool, cutoff: int, cap: Option<nat>)

  function ArtifactPaths(stem: string): seq<Path> {
    [Path(Deps, stem), Path(Deps, "lib" + stem + ".rlib")]
  }

  function DepPath(stem: string): Path {
    Path(Deps, stem + ".d")
  }

  predicate IsObjectPath(p: Path) {
    p.dir == Deps && ObjectStem(p.name).Some?
  }

  lemma ArtifactsAreNotObjects(stem: string)
    requires IsStem(stem)
    ensures !IsObjectPath(ArtifactPaths(stem)[0]) && !IsObjectPath(ArtifactPaths(stem)[1]) && !IsObjectPath(DepPath(stem))
  {
    var lib, dep := "lib" + stem + ".rlib", stem + ".d";
    assert IsHex(stem[|stem| - 1]);
    assert lib[|lib| - 1] == 'b' && dep[|dep| - 1] == 'd';
    if ObjectStem(stem).Some? {
      ObjectNamesEnd(stem);
    }
    if ObjectStem(lib).Some? {
      ObjectNamesEnd(lib);
    }
    if ObjectStem(dep).Some? {
      ObjectNamesEnd(dep);
    }
  }

  predicate IsCompleted(fs: FS, p: Path) {
    IsFile(fs, p) && p.dir.Fingerprint? && IsTargetName(p.name) && fs[p].stat.sig.size == 16
  }

  ghost predicate HasFingerprint(fs: FS, hash: string) {
    exists p | p in fs :: IsCompleted(fs, p) && AfterLastDash(p.dir.unit) == hash
  }

  function ArtifactOf(fs: FS, stem: string): Option<Path> {
    if IsFile(fs, ArtifactPaths(stem)[0]) then Some(ArtifactPaths(stem)[0])
    else if IsFile(fs, ArtifactPaths(stem)[1]) then Some(ArtifactPaths(stem)[1])
    else None
  }

  /** `current_objects`: the archive's members, or the names of its symbol table. */
  function NamesIn(c: Content): Option<set<string>> {
    if c.magic == ArchiveMagic then c.members else c.debugMap
  }

  predicate IsOldObject(o: Object, stem: string, cutoff: int) {
    o.path.dir == Deps && ObjectStem(o.path.name) == Some(stem) && o.stat.sig.nlink == 1 && o.stat.sig.mtime < cutoff
  }

  /** The object is named by the artifact, by base name or by full path. */
  predicate IsNamed(root: string, names: set<string>, p: Path) {
    (exists n | n in names :: FinalName(n) == p.name) || Text(root, p) in names
  }

  /** The group of this stem has a finished build whose object names can be read. */
  ghost predicate GroupIsReadable(fs: FS, stem: string) {
    && ArtifactOf(fs, stem).Some? && IsFile(fs, DepPath(stem)) && HasFingerprint(fs, AfterLastDash(stem))
    && NamesIn(fs[ArtifactOf(fs, stem).value].content).Some?
  }

  /** What an undisturbed collection counts: old, singly linked, not newer than its artifact, not named
      by it, and in no debug map. */
  ghost predicate Disposable(fs: FS, cfg: Config, p: Path) {
    && IsFile(fs, p) && ObjectStem(p.name).Some?
    && var stem := ObjectStem(p.name).value;
       && IsOldObject(Object(p, fs[p].stat), stem, cfg.cutoff) && GroupIsReadable(fs, stem)
       && var artifact := ArtifactOf(fs, stem).value;
          && !IsNamed(cfg.root, NamesIn(fs[artifact].content).value, p)
          && !InDebugMap(fs, Text(cfg.root, p))
          && fs[p].stat.sig.mtime <= fs[artifact].stat.sig.mtime
  }

  // ----- The objects old enough to consider, by stem -----

  type Groups = map<string, seq<Object>>

  /** Objects of a group: old, of its stem, each path once. */
  ghost predicate ObjectsOk(objects: seq<Object>, stem: string, cutoff: int) {
    && (forall i | 0 <= i < |objects| :: IsOldObject(objects[i], stem, cutoff))
    && (forall i, j | 0 <= i < j < |objects| :: objects[i].path != objects[j].path)
  }

  ghost predicate GroupsOld(groups: Groups, cutoff: int) {
    forall stem | stem in groups :: groups[stem] != [] && ObjectsOk(groups[stem], stem, cutoff)
  }

  predicate Grouped(groups: Groups, stem: string, o: Object) {
    stem in groups && o in groups[stem]
  }

  predicate StandsOld(fs: FS, o: Object, stem: string, cutoff: int) {
    IsFile(fs, o.path) && fs[o.path].stat == o.stat && IsOldObject(o, stem, cutoff)
  }

  /** On a filesystem nobody changes, the groups hold exactly the old objects among these paths. */
  ghost predicate GroupsExact(fs: FS, groups: Groups, cutoff: int, paths: seq<Path>) {
    forall stem, o :: Grouped(groups, stem, o) <==> o.path in paths && StandsOld(fs, o, stem, cutoff)
  }

  function AddObject(groups: Groups, stem: string, o: Object): Groups {
    groups[stem := (if stem in groups then groups[stem] else []) + [o]]
  }

  lemma AddObjectFacts(groups: Groups, stem: string, o: Object)
    ensures forall s, x :: Grouped(AddObject(groups, stem, o), s, x) <==> Grouped(groups, s, x) || (s == stem && x == o)
  {
  }

  lemma GrownGroupsOld(groups: Groups, stem: string, o: Object, cutoff: int, earlier: seq<Path>)
    requires GroupsOld(groups, cutoff) && IsOldObject(o, stem, cutoff) && o.path !in earlier
    requires forall s, x | Grouped(groups, s, x) :: x.path in earlier
    ensures GroupsOld(AddObject(groups, stem, o), cutoff)
  {
    if stem in groups {
      forall i | 0 <= i < |groups[stem]| ensures groups[stem][i].path != o.path {
        assert Grouped(groups, stem, groups[stem][i]);
      }
    }
  }

  /** The object was a regular file with this very status, no later than in state `e`. */
  ghost predicate ScannedBy(h: seq<FS>, e: nat, o: Object) {
    exists k: nat | k <= e && k < |h| :: StandsAs(h[k], o)
  }

  predicate StandsAs(fs: FS, o: Object) {
    IsFile(fs, o.path) && fs[o.path].stat == o.stat
  }

  ghost predicate AllScanned(h: seq<FS>, e: nat, objects: seq<Object>) {
    forall i | 0 <= i < |objects| :: ScannedBy(h, e, objects[i])
  }

  ghost predicate GroupsScanned(h: seq<FS>, groups: Groups)
    requires h != []
  {
    forall stem | stem in groups :: AllScanned(h, |h| - 1, groups[stem])
  }

  lemma ScannedLater(h: seq<FS>, h': seq<FS>, e: nat, e': nat, o: Object)
    requires h <= h' && e <= e' && ScannedBy(h, e, o)
    ensures ScannedBy(h', e', o)
  {
    var k: nat :| k <= e && k < |h| && StandsAs(h[k], o);
    assert StandsAs(h'[k], o);
  }

  lemma AllScannedLater(h: seq<FS>, h': seq<FS>, e: nat, e': nat, objects: seq<Object>)
    requires h <= h' && e <= e' && AllScanned(h, e, objects)
    ensures AllScanned(h', e', objects)
  {
    forall i | 0 <= i < |objects| ensures ScannedBy(h', e', objects[i]) {
      ScannedLater(h, h', e, e', objects[i]);
    }
  }

  lemma GroupsScannedLater(h: seq<FS>, h': seq<FS>, groups: Groups)
    requires h != [] && h <= h' && GroupsScanned(h, groups)
    ensures GroupsScanned(h', groups)
  {
    forall stem | stem in groups ensures AllScanned(h', |h'| - 1, groups[stem]) {
      AllScannedLater(h, h', |h| - 1, |h'| - 1, groups[stem]);
    }
  }

  lemma GrownGroupsScanned(h: seq<FS>, groups: Groups, stem: string, o: Object)
    requires h != [] && GroupsScanned(h, groups) && StandsAs(Last(h), o)
    ensures GroupsScanned(h, AddObject(groups, stem, o))
  {
    assert StandsAs(h[|h| - 1], o);
  }

  /** An object that still shows its signature stands, with the status it was scanned with, as it did when
      the passes were over. */
  lemma ScannedIsKept(h: seq<FS>, e: nat, at: nat, o: Object)
    requires Lawful(h) && e <= at < |h| && ScannedBy(h, e, o) && Proves(h[at], Proof(o.path, o.stat.sig))
    ensures Kept(h[e], h[at], o.path) && StandsAs(h[at], o)
  {
    var k: nat :| k <= e && k < |h| && StandsAs(h[k], o);
    Unmoved(h, k, e, at, o.path);
  }

  method ScanObjects(disk: Disk, cutoff: int) returns (ok: bool, groups: Groups)
    requires disk.Valid()
    modifies disk`history
    ensures disk.Valid() && old(disk.history) <= disk.history
    ensures ok ==> GroupsOld(groups, cutoff) && GroupsScanned(disk.history, groups)
    ensures disk.quiet ==> ok && disk.Fs() == old(disk.Fs())
    ensures disk.quiet ==> forall stem, o :: Grouped(groups, stem, o) <==> StandsOld(disk.Fs(), o, stem, cutoff)
  {
    ok, groups := true, map[];
    disk.Interfere();
    var paths := ListDir(disk, Deps);
    for i := 0 to |paths|
      invariant ok && disk.Valid() && old(disk.history) <= disk.history
      invariant GroupsOld(groups, cutoff) && GroupsScanned(disk.history, groups)
      invariant forall stem, o | Grouped(groups, stem, o) :: o.path in paths[..i]
      invariant disk.quiet ==> disk.Fs() == old(disk.Fs()) && GroupsExact(disk.Fs(), groups, cutoff, paths[..i])
    {
      ghost var before, h := groups, disk.history;
      var p := paths[i];
      assert paths[..i + 1] == paths[..i] + [p];
      var stem := ObjectStem(p.name);
      if stem.None? {
        continue;
      }
      disk.Interfere();
      GroupsScannedLater(h, disk.history, groups);
      if p !in disk.Fs() {
        return false, groups;
      }
      if !disk.Fs()[p].File? {
        continue;
      }
      var o := Object(p, disk.Fs()[p].stat);
      if o.stat.sig.nlink == 1 && o.stat.sig.mtime < cutoff {
        AddObjectFacts(groups, stem.value, o);
        groups := AddObject(groups, stem.value, o);
        GrownGroupsOld(before, stem.value, o, cutoff, paths[..i]);
        GrownGroupsScanned(disk.history, before, stem.value, o);
      }
    }
    assert paths[..|paths|] == paths;
  }

  // ----- Completed fingerprints, by target hash -----

  type Completed = map<string, seq<Path>>

  /** In some state since `b` this was a completed target. */
  ghost predicate SeenCompleted(h: seq<FS>, b: nat, p: Path) {
    exists k: nat | b <= k < |h| :: IsCompleted(h[k], p)
  }

  lemma SeenCompletedLater(h: seq<FS>, h': seq<FS>, b: nat, p: Path)
    requires h <= h' && SeenCompleted(h, b, p)
    ensures SeenCompleted(h', b, p)
  {
    var k: nat :| b <= k < |h| && IsCompleted(h[k], p);
    assert IsCompleted(h'[k], p);
  }

  ghost predicate AllSeenCompleted(h: seq<FS>, b: nat, paths: seq<Path>, hash: string) {
    forall i | 0 <= i < |paths| ::
      paths[i].dir.Fingerprint? && AfterLastDash(paths[i].dir.unit) == hash && SeenCompleted(h, b, paths[i])
  }

  ghost predicate CompletedOk(h: seq<FS>, b: nat, completed: Completed) {
    forall hash | hash in completed :: completed[hash] != [] && AllSeenCompleted(h, b, completed[hash], hash)
  }

  lemma AllSeenLater(h: seq<FS>, h': seq<FS>, b: nat, paths: seq<Path>, hash: string)
    requires h <= h' && AllSeenCompleted(h, b, paths, hash)
    ensures AllSeenCompleted(h', b, paths, hash)
  {
    forall i | 0 <= i < |paths| ensures SeenCompleted(h', b, paths[i]) {
      SeenCompletedLater(h, h', b, paths[i]);
    }
  }

  lemma CompletedLater(h: seq<FS>, h': seq<FS>, b: nat, completed: Completed)
    requires h <= h' && CompletedOk(h, b, completed)
    ensures CompletedOk(h', b, completed)
  {
    forall hash | hash in completed ensures AllSeenCompleted(h', b, completed[hash], hash) {
      AllSeenLater(h, h', b, completed[hash], hash);
    }
  }

  method CompletedIn(disk: Disk, unit: string, ghost b: nat) returns (found: seq<Path>)
    requires disk.Valid() && b < |disk.history|
    modifies disk`history
    ensures disk.Valid() && old(disk.history) <= disk.history
    ensures AllSeenCompleted(disk.history, b, found, AfterLastDash(unit))
    ensures disk.quiet ==> disk.Fs() == old(disk.Fs())
    ensures disk.quiet ==> forall p :: p in found <==> IsCompleted(disk.Fs(), p) && p.dir == Fingerprint(unit)
  {
    disk.Interfere();
    var paths := ListDir(disk, Fingerprint(unit));
    found := [];
    for i := 0 to |paths|
      invariant disk.Valid() && old(disk.history) <= disk.history
      invariant AllSeenCompleted(disk.history, b, found, AfterLastDash(unit))
      invariant disk.quiet ==> disk.Fs() == old(disk.Fs())
      invariant disk.quiet ==> forall p :: p in found <==> IsCompleted(disk.Fs(), p) && p in paths[..i]
    {
      ghost var h := disk.history;
      assert paths[..i + 1] == paths[..i] + [paths[i]] && paths[i] in paths;
      disk.Interfere();
      AllSeenLater(h, disk.history, b, found, AfterLastDash(unit));
      if IsCompleted(disk.Fs(), paths[i]) {
        assert IsCompleted(disk.history[|disk.history| - 1], paths[i]);
        found := found + [paths[i]];
      }
    }
    assert paths[..|paths|] == paths;
  }

  /** On a filesystem nobody changes, after these units: the hashes that have completed targets. */
  ghost predicate FingerprintIn(fs: FS, units: set<string>, hash: string) {
    exists p | p in fs :: IsCompleted(fs, p) && p.dir.unit in units && AfterLastDash(p.dir.unit) == hash
  }

  ghost predicate CompletedExact(fs: FS, units: set<string>, completed: Completed) {
    && (forall h :: h in completed <==> FingerprintIn(fs, units, h))
    && (forall h, p | h in completed && p in completed[h] :: IsCompleted(fs, p))
  }

  lemma CompletedStep(fs: FS, units: set<string>, completed: Completed, unit: string, found: seq<Path>)
    requires CompletedExact(fs, units, completed)
    requires forall p :: p in found <==> IsCompleted(fs, p) && p.dir == Fingerprint(unit)
    ensures CompletedExact(fs, units + {unit}, if found != [] then completed[AfterLastDash(unit) := found] else completed)
  {
    var hash := AfterLastDash(unit);
    forall h ensures FingerprintIn(fs, units + {unit}, h) <==> FingerprintIn(fs, units, h) || (h == hash && found != []) {
      if FingerprintIn(fs, units + {unit}, h) && !FingerprintIn(fs, units, h) {
        var p :| p in fs && IsCompleted(fs, p) && p.dir.unit in units + {unit} && AfterLastDash(p.dir.unit) == h;
        assert p.dir == Fingerprint(unit) && p in found;
      }
      if found != [] {
        assert found[0] in found;
      }
    }
  }

  lemma AllUnitsDone(fs: FS, units: set<string>, completed: Completed)
    requires CompletedExact(fs, units, completed)
    requires forall p | p in fs && p.dir.Fingerprint? :: p.dir.unit in units
    ensures forall h :: h in completed <==> HasFingerprint(fs, h)
  {
    forall h ensures FingerprintIn(fs, units, h) <==> HasFingerprint(fs, h) {
    }
  }

  method ListUnits(disk: Disk) returns (units: seq<string>)
    requires disk.Valid()
    ensures forall p | p in disk.Fs() && p.dir.Fingerprint? :: p.dir.unit in units
  {
    var todo := set p | p in disk.Fs() && p.dir.Fingerprint? :: p.dir.unit;
    ghost var all := todo;
    units := [];
    while todo != {}
      invariant forall u :: u in all <==> u in todo || u in units
      decreases |todo|
    {
      var unit :| unit in todo;
      todo := todo - {unit};
      units := units + [unit];
    }
  }

  lemma CompletedAdds(h: seq<FS>, h': seq<FS>, b: nat, completed: Completed, hash: string, found: seq<Path>)
    requires h <= h' && CompletedOk(h, b, completed) && found != [] && AllSeenCompleted(h', b, found, hash)
    ensures CompletedOk(h', b, completed[hash := found])
  {
    CompletedLater(h, h', b, completed);
  }

  method CompletedFingerprints(disk: Disk, ghost b: nat) returns (completed: Completed)
    requires disk.Valid() && b < |disk.history|
    modifies disk`history
    ensures disk.Valid() && old(disk.history) <= disk.history
    ensures CompletedOk(disk.history, b, completed)
    ensures disk.quiet ==> disk.Fs() == old(disk.Fs())
    ensures disk.quiet ==> forall h :: h in completed <==> HasFingerprint(disk.Fs(), h)
    ensures disk.quiet ==> forall h, p | h in completed && p in completed[h] :: IsCompleted(disk.Fs(), p)
  {
    completed := map[];
    disk.Interfere();
    var units := ListUnits(disk);
    ghost var done: set<string> := {};
    for i := 0 to |units|
      invariant disk.Valid() && old(disk.history) <= disk.history
      invariant disk.quiet ==> disk.Fs() == old(disk.Fs())
      invariant CompletedOk(disk.history, b, completed) && forall j | 0 <= j < i :: units[j] in done
      invariant disk.quiet ==> CompletedExact(disk.Fs(), done, completed)
    {
      ghost var h := disk.history;
      var found := CompletedIn(disk, units[i], b);
      if disk.quiet {
        CompletedStep(disk.Fs(), done, completed, units[i], found);
      }
      CompletedLater(h, disk.history, b, completed);
      if found != [] {
        CompletedAdds(h, disk.history, b, completed, AfterLastDash(units[i]), found);
        completed := completed[AfterLastDash(units[i]) := found];
      }
      done := done + {units[i]};
    }
    if disk.quiet {
      AllUnitsDone(disk.Fs(), done, completed);
    }
  }

  // ----- One group: the finished build that may give up objects -----

  /** The evidence of a group: what was finished, as first seen, and what its artifact names. */
  datatype Group = Group(stem: string, artifact: Path, snapshot: seq<Proof>, names: set<string>, artifactTime: int)

  ghost predicate CompletedShape(completed: seq<Path>, stem: string) {
    forall i | 0 <= i < |completed| ::
      && completed[i].dir.Fingerprint? && IsTargetName(completed[i].name)
      && AfterLastDash(completed[i].dir.unit) == AfterLastDash(stem)
  }

  /** The snapshot is of the artifact, of its dep file, and of at least one completed target of its hash. */
  ghost predicate GroupShape(g: Group) {
    && IsStem(g.stem) && |g.snapshot| >= 3 && g.artifact in ArtifactPaths(g.stem)
    && g.snapshot[0].path == g.artifact && g.snapshot[1].path == DepPath(g.stem)
    && forall i | 2 <= i < |g.snapshot| ::
         && g.snapshot[i].path.dir.Fingerprint? && IsTargetName(g.snapshot[i].path.name)
         && AfterLastDash(g.snapshot[i].path.dir.unit) == AfterLastDash(g.stem)
  }

  /** This signature was seen no later than in state `read`. */
  ghost predicate SeenBy(h: seq<FS>, read: nat, pr: Proof) {
    exists k: nat | k <= read && k < |h| :: Shows(h[k], pr)
  }

  ghost predicate AllSeenBy(h: seq<FS>, read: nat, snapshot: seq<Proof>) {
    forall i | 0 <= i < |snapshot| :: SeenBy(h, read, snapshot[i])
  }

  /** All signatures of the snapshot were taken before the artifact's magic was read in state `read`, its
      names in state `n` and its time in state `t`. */
  ghost predicate EvidenceAt(h: seq<FS>, g: Group, read: nat, n: nat, t: nat) {
    && read < n < t < |h| && |g.snapshot| >= 1 && g.snapshot[0].path == g.artifact && AllSeenBy(h, read, g.snapshot)
    && IsOpenable(h[read], g.artifact) && IsOpenable(h[n], g.artifact) && IsOpenable(h[t], g.artifact)
    && Some(g.names) == NamesVia(h[read], h[n], g.artifact) && g.artifactTime == h[t][g.artifact].stat.sig.mtime
  }

  function NamesVia(m: FS, n: FS, artifact: Path): Option<set<string>>
    requires IsOpenable(m, artifact) && IsOpenable(n, artifact)
  {
    if m[artifact].content.magic == ArchiveMagic then n[artifact].content.members else n[artifact].content.debugMap
  }

  ghost predicate HasEvidence(h: seq<FS>, g: Group, read: nat) {
    exists n: nat, t: nat :: EvidenceAt(h, g, read, n, t)
  }

  lemma SeenByKept(h: seq<FS>, read: nat, at: nat, pr: Proof)
    requires Lawful(h) && read <= at < |h| && SeenBy(h, read, pr) && Proves(h[at], pr)
    ensures Kept(h[read], h[at], pr.path)
  {
    var k: nat :| k <= read && k < |h| && Shows(h[k], pr);
    Unmoved(h, k, read, at, pr.path);
  }

  lemma SeenByLater(h: seq<FS>, h': seq<FS>, read: nat, read': nat, pr: Proof)
    requires h <= h' && read <= read' && SeenBy(h, read, pr)
    ensures SeenBy(h', read', pr)
  {
    var k: nat :| k <= read && k < |h| && Shows(h[k], pr);
    assert Shows(h'[k], pr);
  }

  lemma AllSeenByLater(h: seq<FS>, h': seq<FS>, read: nat, read': nat, snapshot: seq<Proof>)
    requires h <= h' && read <= read' && AllSeenBy(h, read, snapshot)
    ensures AllSeenBy(h', read', snapshot)
  {
    forall i | 0 <= i < |snapshot| ensures SeenBy(h', read', snapshot[i]) {
      SeenByLater(h, h', read, read', snapshot[i]);
    }
  }

  /** While the whole snapshot still holds: everything in it stands as it did when the names were read, and
      the names and the time are the artifact's own. */
  lemma EvidenceIsOwn(known: seq<FS>, h: seq<FS>, g: Group, read: nat, at: nat)
    requires known <= h && Lawful(h) && |known| - 1 <= at < |h| && HasEvidence(known, g, read) && AllProve(h[at], g.snapshot)
    ensures read < |known| && AllKept(h[read], h[at], g.snapshot)
    ensures |g.snapshot| >= 1 && g.snapshot[0].path == g.artifact && NamesIn(h[at][g.artifact].content) == Some(g.names)
    ensures g.artifactTime == h[at][g.artifact].stat.sig.mtime
  {
    var n: nat, t: nat :| EvidenceAt(known, g, read, n, t);
    AllSeenByLater(known, h, read, read, g.snapshot);
    forall i | 0 <= i < |g.snapshot| ensures Kept(h[read], h[at], g.snapshot[i].path) {
      SeenByKept(h, read, at, g.snapshot[i]);
    }
    assert Kept(h[read], h[at], g.snapshot[0].path);
    Unmoved(h, read, n, at, g.artifact);
    Unmoved(h, read, t, at, g.artifact);
  }

  predicate AllProve(fs: FS, snapshot: seq<Proof>) {
    forall i | 0 <= i < |snapshot| :: Proves(fs, snapshot[i])
  }

  /** What the snapshot is of stands in the second state as it did in the first. */
  predicate AllKept(a: FS, b: FS, snapshot: seq<Proof>) {
    forall i | 0 <= i < |snapshot| :: Kept(a, b, snapshot[i].path)
  }

  method FindArtifact(disk: Disk, stem: string) returns (artifact: Option<Path>)
    requires disk.Valid()
    modifies disk`history
    ensures disk.Valid() && old(disk.history) <= disk.history
    ensures artifact.Some? ==> artifact.value in ArtifactPaths(stem)
    ensures disk.quiet ==> disk.Fs() == old(disk.Fs()) && artifact == ArtifactOf(disk.Fs(), stem)
  {
    disk.Interfere();
    if IsFile(disk.Fs(), ArtifactPaths(stem)[0]) {
      return Some(ArtifactPaths(stem)[0]);
    }
    disk.Interfere();
    if IsFile(disk.Fs(), ArtifactPaths(stem)[1]) {
      return Some(ArtifactPaths(stem)[1]);
    }
    return None;
  }

  method TakeSnapshot(disk: Disk, paths: seq<Path>) returns (ok: bool, snapshot: seq<Proof>)
    requires disk.Valid()
    modifies disk`history
    ensures disk.Valid() && old(disk.history) <= disk.history
    ensures ok ==> |snapshot| == |paths| && (forall i | 0 <= i < |paths| :: snapshot[i].path == paths[i])
    ensures ok ==> AllSeenBy(disk.history, |disk.history| - 1, snapshot)
    ensures disk.quiet ==> disk.Fs() == old(disk.Fs())
    ensures disk.quiet && AllFiles(disk.Fs(), paths) ==> ok && AllProve(disk.Fs(), snapshot)
  {
    ok, snapshot := true, [];
    for i := 0 to |paths|
      invariant ok && disk.Valid() && old(disk.history) <= disk.history
      invariant |snapshot| == i && (forall j | 0 <= j < i :: snapshot[j].path == paths[j])
      invariant AllSeenBy(disk.history, |disk.history| - 1, snapshot)
      invariant disk.quiet ==> disk.Fs() == old(disk.Fs())
      invariant disk.quiet && AllFiles(disk.Fs(), paths) ==> AllProve(disk.Fs(), snapshot)
    {
      ghost var h := disk.history;
      disk.Interfere();
      if !IsOpenable(disk.Fs(), paths[i]) {
        return false, [];
      }
      var sig := disk.Fs()[paths[i]].stat.sig;
      SnapshotNext(h, disk.history, snapshot, Proof(paths[i], sig));
      snapshot := snapshot + [Proof(paths[i], sig)];
    }
  }

  lemma SnapshotNext(h: seq<FS>, h': seq<FS>, snapshot: seq<Proof>, pr: Proof)
    requires h != [] && h <= h' && AllSeenBy(h, |h| - 1, snapshot) && Shows(Last(h'), pr)
    ensures AllSeenBy(h', |h'| - 1, snapshot + [pr])
  {
    AllSeenByLater(h, h', |h| - 1, |h'| - 1, snapshot);
    assert Shows(h'[|h'| - 1], pr);
  }

  /** Read the artifact's magic, then its names; `None` is an unknown or partial format. */
  method ReadNames(disk: Disk, artifact: Path) returns (names: Option<set<string>>, ghost m: nat, ghost n: nat)
    requires disk.Valid()
    modifies disk`history
    ensures disk.Valid() && old(disk.history) <= disk.history && |old(disk.history)| <= m <= n < |disk.history|
    ensures names.Some? ==>
      && m < n && IsOpenable(disk.history[m], artifact) && IsOpenable(disk.history[n], artifact)
      && names == NamesVia(disk.history[m], disk.history[n], artifact)
    ensures disk.quiet ==> disk.Fs() == old(disk.Fs())
    ensures disk.quiet && IsOpenable(disk.Fs(), artifact) ==> names == NamesIn(disk.Fs()[artifact].content)
  {
    disk.Interfere();
    ghost var h := disk.history;
    m, n := |h| - 1, |h| - 1;
    if !IsOpenable(disk.Fs(), artifact) {
      return None, m, n;
    }
    var magic := disk.Fs()[artifact].content.magic;
    disk.Interfere();
    n := m + 1;
    assert disk.history[m] == h[m];
    if !IsOpenable(disk.Fs(), artifact) {
      return None, m, n;
    }
    return if magic == ArchiveMagic then disk.Fs()[artifact].content.members else disk.Fs()[artifact].content.debugMap, m, n;
  }

  datatype Preparation = Skip | Abort | Ready(group: Group)

  ghost predicate ReadyOn(fs: FS, stem: string, completed: seq<Path>) {
    && ArtifactOf(fs, stem).Some? && IsFile(fs, DepPath(stem)) && completed != []
    && NamesIn(fs[ArtifactOf(fs, stem).value].content).Some?
  }

  /** The group as the quiet filesystem shows it. */
  ghost predicate GroupOf(fs: FS, g: Group) {
    && ArtifactOf(fs, g.stem) == Some(g.artifact) && NamesIn(fs[g.artifact].content) == Some(g.names)
    && g.artifactTime == fs[g.artifact].stat.sig.mtime
    && AllProve(fs, g.snapshot)
  }

  ghost predicate AllFiles(fs: FS, paths: seq<Path>) {
    forall i | 0 <= i < |paths| :: IsFile(fs, paths[i])
  }

  ghost predicate SnapshotOf(snapshot: seq<Proof>, artifact: Path, stem: string, completed: seq<Path>) {
    && |snapshot| == |completed| + 2 && snapshot[0].path == artifact && snapshot[1].path == DepPath(stem)
    && forall i | 2 <= i < |snapshot| :: snapshot[i].path == completed[i - 2]
  }

  lemma SnapshotFromPaths(snapshot: seq<Proof>, artifact: Path, stem: string, completed: seq<Path>)
    requires
      var paths := [artifact, DepPath(stem)] + completed;
      |snapshot| == |paths| && forall i | 0 <= i < |paths| :: snapshot[i].path == paths[i]
    ensures SnapshotOf(snapshot, artifact, stem, completed)
  {
    var paths := [artifact, DepPath(stem)] + completed;
    assert forall i | 2 <= i < |paths| :: paths[i] == completed[i - 2];
  }

  lemma AllFilesOf(fs: FS, artifact: Path, stem: string, completed: seq<Path>)
    requires IsFile(fs, artifact) && IsFile(fs, DepPath(stem)) && AllFiles(fs, completed)
    ensures AllFiles(fs, [artifact, DepPath(stem)] + completed)
  {
  }

  lemma SnapshotGivesShape(g: Group, completed: seq<Path>)
    requires IsStem(g.stem) && completed != [] && CompletedShape(completed, g.stem) && g.artifact in ArtifactPaths(g.stem)
    requires SnapshotOf(g.snapshot, g.artifact, g.stem, completed)
    ensures GroupShape(g)
  {
  }

  /** Read what the artifact names, and then when it was written. */
  method FinishGroup(disk: Disk, stem: string, artifact: Path, snapshot: seq<Proof>) returns (r: Preparation, ghost read: nat)
    requires disk.Valid() && snapshot != [] && snapshot[0].path == artifact
    requires AllSeenBy(disk.history, |disk.history| - 1, snapshot)
    modifies disk`history
    ensures disk.Valid() && old(disk.history) <= disk.history
    ensures r.Ready? ==>
      && r.group.stem == stem && r.group.artifact == artifact && r.group.snapshot == snapshot
      && |old(disk.history)| <= read && HasEvidence(disk.history, r.group, read)
    ensures disk.quiet ==> disk.Fs() == old(disk.Fs())
    ensures disk.quiet && IsOpenable(disk.Fs(), artifact) ==>
      && !r.Abort? && (r.Ready? <==> NamesIn(disk.Fs()[artifact].content).Some?)
      && (r.Ready? ==> NamesIn(disk.Fs()[artifact].content) == Some(r.group.names)
                       && r.group.artifactTime == disk.Fs()[artifact].stat.sig.mtime)
  {
    ghost var h1 := disk.history;
    var names;
    ghost var n;
    names, read, n := ReadNames(disk, artifact);
    if names.None? {
      return Skip, read;
    }
    ghost var h2 := disk.history;
    disk.Interfere();
    if !IsOpenable(disk.Fs(), artifact) {
      return Abort, read;
    }
    r := Ready(Group(stem, artifact, snapshot, names.value, disk.Fs()[artifact].stat.sig.mtime));
    EvidenceGathered(h1, h2, disk.history, r.group, read, n);
  }

  /** Snapshot the finished build, then read what its artifact names and when it was written. */
  method PrepareGroup(disk: Disk, stem: string, completed: seq<Path>) returns (r: Preparation, ghost read: nat)
    requires disk.Valid() && IsStem(stem) && CompletedShape(completed, stem)
    modifies disk`history
    ensures disk.Valid() && old(disk.history) <= disk.history
    ensures r.Ready? ==> r.group.stem == stem && GroupShape(r.group)
    ensures r.Ready? ==> |old(disk.history)| <= read && HasEvidence(disk.history, r.group, read)
    ensures r.Ready? ==> SnapshotOf(r.group.snapshot, r.group.artifact, stem, completed)
    ensures disk.quiet ==> disk.Fs() == old(disk.Fs())
    ensures disk.quiet && AllFiles(disk.Fs(), completed) ==>
      !r.Abort? && (r.Ready? <==> ReadyOn(disk.Fs(), stem, completed)) && (r.Ready? ==> GroupOf(disk.Fs(), r.group))
  {
    read := 0;
    var artifact := FindArtifact(disk, stem);
    disk.Interfere();
    if artifact.None? || !IsFile(disk.Fs(), DepPath(stem)) || completed == [] {
      return Skip, read;
    }
    var paths := [artifact.value, DepPath(stem)] + completed;
    if IsFile(disk.Fs(), artifact.value) && AllFiles(disk.Fs(), completed) {
      AllFilesOf(disk.Fs(), artifact.value, stem, completed);
    }
    var ok, snapshot := TakeSnapshot(disk, paths);
    if !ok {
      return Abort, read;
    }
    SnapshotFromPaths(snapshot, artifact.value, stem, completed);
    r, read := FinishGroup(disk, stem, artifact.value, snapshot);
    if r.Ready? {
      SnapshotGivesShape(r.group, completed);
    }
  }

  lemma EvidenceGathered(h1: seq<FS>, h2: seq<FS>, h: seq<FS>, g: Group, read: nat, n: nat)
    requires h1 != [] && h1 <= h2 <= h && |h1| <= read < n < |h2| <= |h| - 1
    requires |g.snapshot| >= 1 && g.snapshot[0].path == g.artifact && AllSeenBy(h1, |h1| - 1, g.snapshot)
    requires IsOpenable(h2[read], g.artifact) && IsOpenable(h2[n], g.artifact)
    requires Some(g.names) == NamesVia(h2[read], h2[n], g.artifact)
    requires IsOpenable(h[|h| - 1], g.artifact) && g.artifactTime == h[|h| - 1][g.artifact].stat.sig.mtime
    ensures HasEvidence(h, g, read)
  {
    AllSeenByLater(h1, h, |h1| - 1, read, g.snapshot);
    assert EvidenceAt(h, g, read, n, |h| - 1);
  }

  // ----- Removing objects -----

  datatype Report = Report(candidates: nat, candidateBytes: nat, removed: nat, removedBytes: nat, groups: nat)

  /** The state in which all executables had been inspected, those in which their directories were listed,
      the inspected executables with their signatures, and the state in which all passes were over. */
  datatype Base = Base(at: nat, listed: Listings, proofs: seq<Proof>, passed: nat)

  /** One unlink: the object as scanned, the evidence of its group, and the filesystem when the names were
      read, when the executables of the group were rechecked and at the instant of the unlink, with their
      places in the history. */
  datatype Removal = Removal(item: Object, group: Group, atRead: FS, read: nat, groupStart: FS, start: nat, before: FS, at: nat)

  /** Every inspected executable still carries its signature here, and its debug map does not name the text. */
  ghost predicate Spares(start: FS, proofs: seq<Proof>, text: string) {
    forall i | 0 <= i < |proofs| ::
      && Proves(start, proofs[i]) && IsMachO(start, proofs[i].path) && start[proofs[i].path].content.debugMap.Some?
      && text !in start[proofs[i].path].content.debugMap.value
  }

  /** Everything that must hold for an object to be unlinked: after the passes the names were read, after that
      the executables rechecked, and after that the object unlinked; the object has the status it was scanned
      with; the artifact, the dep file and the completed targets stand as they did when the names were read;
      and no inspected executable, all of them unchanged when the recheck of the group began, names the
      object. */
  ghost predicate Justified(r: Removal, cfg: Config, base: Base) {
    var p, g := r.item.path, r.group;
    && cfg.apply && IsOldObject(r.item, g.stem, cfg.cutoff) && GroupShape(g)
    && base.at <= base.passed <= r.read <= r.start <= r.at && StandsAs(r.before, r.item)
    && AllProve(r.before, g.snapshot) && AllKept(r.atRead, r.before, g.snapshot)
    && NamesIn(r.before[g.artifact].content) == Some(g.names) && !IsNamed(cfg.root, g.names, p)
    && r.item.stat.sig.mtime <= r.before[g.artifact].stat.sig.mtime
    && Spares(r.groupStart, base.proofs, Text(cfg.root, p))
  }

  /** Every executable that lasted through the inspection stood unchanged at the start of the group, and its
      debug map does not name the object. */
  ghost predicate SparesLasting(h: seq<FS>, b: nat, base: Base, start: nat, text: string)
    requires start < |h|
  {
    forall q, s: nat | Lasting(h, b, base.listed, base.at, s, q) ::
      Kept(h[s], h[start], q) && h[s][q].content.debugMap.Some? && text !in h[s][q].content.debugMap.value
  }

  /** The states of a removal are states the disk went through since `b`, its object stands as it did when the
      passes were over, its evidence was gathered in order before the recheck of the group, its completed
      targets were seen completed, and the executables that lasted do not name its object. */
  ghost predicate Tied(h: seq<FS>, b: nat, cfg: Config, base: Base, r: Removal) {
    && b <= base.at <= base.passed <= r.read <= r.start <= r.at < |h| && Kept(h[base.passed], h[r.at], r.item.path)
    && h[r.read] == r.atRead && h[r.start] == r.groupStart && h[r.at] == r.before
    && HasEvidence(h[..r.start + 1], r.group, r.read)
    && (forall i | 2 <= i < |r.group.snapshot| :: SeenCompleted(h, b, r.group.snapshot[i].path))
    && SparesLasting(h, b, base, r.start, Text(cfg.root, r.item.path))
  }

  function SumLog(log: seq<Removal>): nat {
    if log == [] then 0 else SumLog(log[..|log| - 1]) + log[|log| - 1].item.stat.blocks * 512
  }

  lemma {:induction false} SumLogPrefix(log: seq<Removal>, k: nat)
    requires k <= |log|
    ensures SumLog(log[..k]) <= SumLog(log)
  {
    if k < |log| {
      SumLogPrefix(log[..|log| - 1], k);
      assert log[..|log| - 1][..k] == log[..k];
    } else {
      assert log[..k] == log;
    }
  }

  lemma TiedLater(h: seq<FS>, h': seq<FS>, b: nat, cfg: Config, base: Base, r: Removal)
    requires h <= h' && Tied(h, b, cfg, base, r)
    ensures Tied(h', b, cfg, base, r)
  {
    assert h'[..r.start + 1] == h[..r.start + 1];
    forall i | 2 <= i < |r.group.snapshot| ensures SeenCompleted(h', b, r.group.snapshot[i].path) {
      SeenCompletedLater(h, h', b, r.group.snapshot[i].path);
    }
    SparesLater(h, h', b, base, r.start, Text(cfg.root, r.item.path));
  }

  lemma SparesLater(h: seq<FS>, h': seq<FS>, b: nat, base: Base, start: nat, text: string)
    requires h <= h' && base.at <= start < |h| && SparesLasting(h, b, base, start, text)
    ensures SparesLasting(h', b, base, start, text)
  {
    forall q, s: nat | Lasting(h', b, base.listed, base.at, s, q) ensures Lasting(h, b, base.listed, base.at, s, q) {
      assert h'[..s] == h[..s];
    }
  }

  ghost predicate Accounts(report: Report, log: seq<Removal>, cfg: Config) {
    && report.removed == |log| && report.removedBytes == SumLog(log)
    && report.removed <= report.candidates && report.removedBytes <= report.candidateBytes
    && (cfg.cap.Some? ==> SumLog(log) <= cfg.cap.value) && (!cfg.apply ==> log == [])
  }

  /** Where the books stood before this collection, and since which state. */
  datatype Opened = Opened(b: nat, unlinks: seq<Unlink>, base: Base)

  /** A removal that is justified, tied to the history, and on the disk's record. */
  ghost predicate RemovalOk(h: seq<FS>, from: Opened, cfg: Config, r: Removal, u: Unlink) {
    u == Unlink(r.item.path, r.at) && Justified(r, cfg, from.base) && Tied(h, from.b, cfg, from.base, r)
  }

  /** The disk's record is what it was, followed by the removals of the log in order. */
  ghost predicate Recorded(h: seq<FS>, unlinked: seq<Unlink>, from: Opened, cfg: Config, log: seq<Removal>) {
    && from.unlinks <= unlinked && |unlinked| == |from.unlinks| + |log|
    && forall i | 0 <= i < |log| :: RemovalOk(h, from, cfg, log[i], unlinked[|from.unlinks| + i])
  }

  lemma RecordedLater(h: seq<FS>, h': seq<FS>, unlinked: seq<Unlink>, from: Opened, cfg: Config, log: seq<Removal>)
    requires h <= h' && Recorded(h, unlinked, from, cfg, log)
    ensures Recorded(h', unlinked, from, cfg, log)
  {
    forall i | 0 <= i < |log| ensures RemovalOk(h', from, cfg, log[i], unlinked[|from.unlinks| + i]) {
      assert RemovalOk(h, from, cfg, log[i], unlinked[|from.unlinks| + i]);
      TiedLater(h, h', from.b, cfg, from.base, log[i]);
    }
  }

  lemma RecordedSnoc(h: seq<FS>, unlinked: seq<Unlink>, from: Opened, cfg: Config, log: seq<Removal>, r: Removal, u: Unlink)
    requires Recorded(h, unlinked, from, cfg, log) && RemovalOk(h, from, cfg, r, u)
    ensures Recorded(h, unlinked + [u], from, cfg, log + [r])
  {
    var all, record := log + [r], unlinked + [u];
    forall i | 0 <= i < |all| ensures RemovalOk(h, from, cfg, all[i], record[|from.unlinks| + i]) {
      assert i < |log| ==> RemovalOk(h, from, cfg, log[i], unlinked[|from.unlinks| + i]);
    }
  }

  /** The report, the log and the disk agree. */
  ghost predicate Books(h: seq<FS>, unlinked: seq<Unlink>, from: Opened, cfg: Config, report: Report, log: seq<Removal>) {
    Accounts(report, log, cfg) && Recorded(h, unlinked, from, cfg, log)
  }

  lemma BooksLater(h: seq<FS>, h': seq<FS>, unlinked: seq<Unlink>, from: Opened, cfg: Config, report: Report, log: seq<Removal>)
    requires h <= h' && Books(h, unlinked, from, cfg, report, log)
    ensures Books(h', unlinked, from, cfg, report, log)
  {
    RecordedLater(h, h', unlinked, from, cfg, log);
  }

  predicate Passed(cfg: Config, g: Group, protected: set<string>, o: Object) {
    IsNamed(cfg.root, g.names, o.path) || Text(cfg.root, o.path) in protected || o.stat.sig.mtime > g.artifactTime
  }

  predicate Fits(cfg: Config, report: Report, o: Object) {
    cfg.cap.None? || report.removedBytes + o.stat.Allocated() <= cfg.cap.value
  }

  function Counted(report: Report, o: Object): Report {
    report.(candidates := report.candidates + 1, candidateBytes := report.candidateBytes + o.stat.Allocated())
  }

  function Emptied(report: Report, o: Object): Report {
    report.(removed := report.removed + 1, removedBytes := report.removedBytes + o.stat.Allocated())
  }

  lemma AccountsSnoc(report: Report, cfg: Config, log: seq<Removal>, r: Removal)
    requires Accounts(report, log, cfg) && cfg.apply && Fits(cfg, report, r.item)
    ensures Accounts(Emptied(Counted(report, r.item), r.item), log + [r], cfg)
  {
    assert (log + [r])[..|log|] == log;
  }

  /** A justified unlink that fits the budget keeps the books. */
  lemma BooksRemove(h: seq<FS>, unlinked: seq<Unlink>, from: Opened, cfg: Config, report: Report, log: seq<Removal>, r: Removal, u: Unlink)
    requires Books(h, unlinked, from, cfg, report, log) && cfg.apply && Fits(cfg, report, r.item)
    requires RemovalOk(h, from, cfg, r, u)
    ensures Books(h, unlinked + [u], from, cfg, Emptied(Counted(report, r.item), r.item), log + [r])
  {
    AccountsSnoc(report, cfg, log, r);
    RecordedSnoc(h, unlinked, from, cfg, log, r, u);
  }

  method Recheck(disk: Disk, snapshot: seq<Proof>) returns (intact: bool)
    requires disk.Valid()
    ensures intact <==> AllProve(disk.Fs(), snapshot)
  {
    for i := 0 to |snapshot|
      invariant forall j | 0 <= j < i :: Proves(disk.Fs(), snapshot[j])
    {
      if !Proves(disk.Fs(), snapshot[i]) {
        return false;
      }
    }
    return true;
  }

  /** What is known of a group once its names were read in state `read` and the executables rechecked from
      state `start` on: `known` is the history up to then. */
  datatype Context = Context(known: seq<FS>, read: nat, start: nat)

  ghost predicate ContextOk(ctx: Context, from: Opened, cfg: Config, g: Group, protected: set<string>) {
    && from.b <= from.base.at <= from.base.passed <= ctx.read <= ctx.start < |ctx.known| && GroupShape(g)
    && HasEvidence(ctx.known[..ctx.start + 1], g, ctx.read)
    && (forall i | 2 <= i < |g.snapshot| :: SeenCompleted(ctx.known, from.b, g.snapshot[i].path))
    && (cfg.apply ==> Rechecked(ctx.known, from, ctx.start, protected))
  }

  ghost predicate Rechecked(h: seq<FS>, from: Opened, start: nat, protected: set<string>)
    requires start < |h|
  {
    Holds(h[start], protected, from.base.proofs) && Shields(h, from.b, from.base.listed, from.base.at, start, protected)
  }

  /** What is not protected is named by no rechecked executable. */
  lemma UnprotectedIsSpared(known: seq<FS>, h: seq<FS>, from: Opened, start: nat, protected: set<string>, text: string)
    requires known <= h && from.base.at <= start < |known| && Rechecked(known, from, start, protected) && text !in protected
    ensures Spares(h[start], from.base.proofs, text) && SparesLasting(h, from.b, from.base, start, text)
  {
    forall i | 0 <= i < |from.base.proofs| ensures text !in h[start][from.base.proofs[i].path].content.debugMap.value {
      assert HoldsOne(known[start], protected, from.base.proofs[i]);
    }
    forall q, s: nat | Lasting(known, from.b, from.base.listed, from.base.at, s, q)
      ensures Shielded(known, start, protected, s, q)
    {
    }
    SparesLater(known, h, from.b, from.base, start, text);
  }

  ghost function RemovalOf(h: seq<FS>, ctx: Context, g: Group, o: Object): Removal
    requires ctx.known <= h && ctx.read <= ctx.start < |ctx.known|
  {
    Removal(o, g, h[ctx.read], ctx.read, h[ctx.start], ctx.start, Last(h), |h| - 1)
  }

  /** An object that passed the filters and whose group and self were just rechecked may go. */
  lemma RemovalJustified(h: seq<FS>, ctx: Context, from: Opened, cfg: Config, g: Group, protected: set<string>, o: Object)
    requires Lawful(h) && ctx.known <= h && ContextOk(ctx, from, cfg, g, protected) && cfg.apply
    requires IsOldObject(o, g.stem, cfg.cutoff) && !Passed(cfg, g, protected, o) && StillProved(Last(h), g, o)
    requires ScannedBy(ctx.known, from.base.passed, o)
    ensures RemovalOk(h, from, cfg, RemovalOf(h, ctx, g, o), Unlink(o.path, |h| - 1))
  {
    ScannedLater(ctx.known, h, from.base.passed, from.base.passed, o);
    ScannedIsKept(h, from.base.passed, |h| - 1, o);
    UnprotectedIsSpared(ctx.known, h, from, ctx.start, protected, Text(cfg.root, o.path));
    GroupStillGood(h, ctx, from, cfg, g, protected);
    RemovalTied(h, ctx, from, cfg, g, protected, o);
  }

  /** The evidence of the group is still its own. */
  lemma GroupStillGood(h: seq<FS>, ctx: Context, from: Opened, cfg: Config, g: Group, protected: set<string>)
    requires Lawful(h) && ctx.known <= h && ContextOk(ctx, from, cfg, g, protected) && AllProve(Last(h), g.snapshot)
    ensures AllKept(h[ctx.read], Last(h), g.snapshot) && NamesIn(Last(h)[g.artifact].content) == Some(g.names)
    ensures g.artifactTime == Last(h)[g.artifact].stat.sig.mtime
  {
    assert ctx.known[..ctx.start + 1] == h[..ctx.start + 1];
    EvidenceIsOwn(h[..ctx.start + 1], h, g, ctx.read, |h| - 1);
  }

  lemma RemovalTied(h: seq<FS>, ctx: Context, from: Opened, cfg: Config, g: Group, protected: set<string>, o: Object)
    requires ctx.known <= h && ContextOk(ctx, from, cfg, g, protected) && Kept(h[from.base.passed], Last(h), o.path)
    requires SparesLasting(h, from.b, from.base, ctx.start, Text(cfg.root, o.path))
    ensures Tied(h, from.b, cfg, from.base, RemovalOf(h, ctx, g, o))
  {
    assert ctx.known[..ctx.start + 1] == h[..ctx.start + 1];
    forall i | 2 <= i < |g.snapshot| ensures SeenCompleted(h, from.b, g.snapshot[i].path) {
      SeenCompletedLater(ctx.known, h, from.b, g.snapshot[i].path);
    }
  }

  ghost predicate StillProved(fs: FS, g: Group, o: Object) {
    AllProve(fs, g.snapshot) && Proves(fs, Proof(o.path, o.stat.sig))
  }

  /** What considering one object does on a filesystem nobody else changes. */
  ghost predicate Considered(cfg: Config, o: Object, counts: bool, fs: FS, report: Report, log: seq<Removal>,
                             fs': FS, report': Report, log': seq<Removal>) {
    if !counts then fs' == fs && report' == report && log' == log
    else if !cfg.apply || !Fits(cfg, report, o) then fs' == fs && report' == Counted(report, o) && log' == log
    else fs' == fs - {o.path} && report' == Emptied(Counted(report, o), o) && log <= log' && |log'| == |log| + 1 && log'[|log|].item == o
  }

  lemma BooksCount(h: seq<FS>, unlinked: seq<Unlink>, from: Opened, cfg: Config, report: Report, log: seq<Removal>, o: Object)
    requires Books(h, unlinked, from, cfg, report, log)
    ensures Books(h, unlinked, from, cfg, Counted(report, o), log)
  {
  }

  /** What became of an object: kept by the filters, counted only, found changed, or unlinked. */
  datatype Fate = Filtered | CountedOnly | Changed | Gone

  /** The fate of an object, with the history before and after it; an unlink directly follows a state in which
      the object and the evidence of its group were intact. */
  ghost predicate FateOf(fate: Fate, h: seq<FS>, h': seq<FS>, cfg: Config, g: Group, protected: set<string>, o: Object, report: Report) {
    match fate
    case Filtered => h' == h && Passed(cfg, g, protected, o)
    case CountedOnly => h' == h && !Passed(cfg, g, protected, o) && !(cfg.apply && Fits(cfg, report, o))
    case Changed => h < h' && !Passed(cfg, g, protected, o) && cfg.apply && Fits(cfg, report, o) && !StillProved(Last(h'), g, o)
    case Gone =>
      && !Passed(cfg, g, protected, o) && cfg.apply && Fits(cfg, report, o)
      && |h'| >= 2 && h < h'[..|h'| - 1] && StillProved(h'[|h'| - 2], g, o) && Last(h') == h'[|h'| - 2] - {o.path}
  }

  function ReportAfter(fate: Fate, report: Report, o: Object): Report {
    match fate
    case Filtered => report
    case CountedOnly => Counted(report, o)
    case Changed => Counted(report, o)
    case Gone => Emptied(Counted(report, o), o)
  }

  ghost function LogAfter(fate: Fate, log: seq<Removal>, h': seq<FS>, ctx: Context, g: Group, o: Object): seq<Removal>
    requires fate.Gone? ==> |h'| >= 2 && ctx.known <= h'[..|h'| - 1] && ctx.read <= ctx.start < |ctx.known|
  {
    if fate.Gone? then log + [RemovalOf(h'[..|h'| - 1], ctx, g, o)] else log
  }

  function UnlinkedAfter(fate: Fate, unlinked: seq<Unlink>, h': seq<FS>, o: Object): seq<Unlink>
    requires fate.Gone? ==> |h'| >= 2
  {
    if fate.Gone? then unlinked + [Unlink(o.path, |h'| - 2)] else unlinked
  }

  /** What the fate of an object leaves on a filesystem nobody else changes. */
  ghost predicate QuietFate(fate: Fate, fs: FS, fs': FS, o: Object) {
    !fate.Changed? && fs' == if fate.Gone? then fs - {o.path} else fs
  }

  /** Filter, budget, recheck and unlink of one object. */
  method Dispose(disk: Disk, cfg: Config, g: Group, o: Object, protected: set<string>, report0: Report) returns (fate: Fate)
    requires disk.Valid() && o.stat.sig.nlink == 1
    modifies disk
    ensures disk.Valid() && old(disk.history) <= disk.history && FateOf(fate, old(disk.history), disk.history, cfg, g, protected, o, report0)
    ensures disk.unlinked == UnlinkedAfter(fate, old(disk.unlinked), disk.history, o)
    ensures disk.quiet && StillProved(old(disk.Fs()), g, o) ==> QuietFate(fate, old(disk.Fs()), disk.Fs(), o)
  {
    if Passed(cfg, g, protected, o) {
      return Filtered;
    }
    if !cfg.apply || !Fits(cfg, report0, o) {
      return CountedOnly;
    }
    disk.Interfere();
    // From here to the unlink the recheck and the removal are one atomic step.
    var intact := Recheck(disk, g.snapshot);
    if !intact || !Proves(disk.Fs(), Proof(o.path, o.stat.sig)) {
      return Changed;
    }
    ghost var h := disk.history;
    disk.Remove(o.path);
    assert disk.history[..|disk.history| - 1] == h;
    return Gone;
  }

  /** An unlink that directly follows such a state is justified. */
  lemma UnlinkJustified(h: seq<FS>, ctx: Context, from: Opened, cfg: Config, g: Group, protected: set<string>, o: Object)
    requires Lawful(h) && |h| >= 2 && ctx.known <= h[..|h| - 1] && ContextOk(ctx, from, cfg, g, protected) && cfg.apply
    requires IsOldObject(o, g.stem, cfg.cutoff) && !Passed(cfg, g, protected, o) && StillProved(h[|h| - 2], g, o)
    requires ScannedBy(ctx.known, from.base.passed, o)
    ensures RemovalOk(h, from, cfg, RemovalOf(h[..|h| - 1], ctx, g, o), Unlink(o.path, |h| - 2))
  {
    var before := h[..|h| - 1];
    LawfulPrefix(h, |h| - 1);
    RemovalJustified(before, ctx, from, cfg, g, protected, o);
    TiedLater(before, h, from.b, cfg, from.base, RemovalOf(before, ctx, g, o));
  }

  /** Whatever became of the object, the books are kept. */
  lemma FateKeepsBooks(fate: Fate, h: seq<FS>, h': seq<FS>, unlinked: seq<Unlink>, ctx: Context, from: Opened, cfg: Config,
                       g: Group, protected: set<string>, o: Object, report: Report, log: seq<Removal>)
    requires Lawful(h') && ctx.known <= h && ContextOk(ctx, from, cfg, g, protected)
    requires ScannedBy(ctx.known, from.base.passed, o) && IsOldObject(o, g.stem, cfg.cutoff)
    requires Books(h, unlinked, from, cfg, report, log) && FateOf(fate, h, h', cfg, g, protected, o, report)
    ensures Books(h', UnlinkedAfter(fate, unlinked, h', o), from, cfg, ReportAfter(fate, report, o), LogAfter(fate, log, h', ctx, g, o))
  {
    match fate {
      case Filtered =>
      case CountedOnly =>
        BooksCount(h, unlinked, from, cfg, report, log, o);
      case Changed =>
        BooksLater(h, h', unlinked, from, cfg, report, log);
        BooksCount(h', unlinked, from, cfg, report, log, o);
      case Gone =>
        BooksLater(h, h', unlinked, from, cfg, report, log);
        UnlinkJustified(h', ctx, from, cfg, g, protected, o);
        BooksRemove(h', unlinked, from, cfg, report, log, RemovalOf(h'[..|h'| - 1], ctx, g, o), Unlink(o.path, |h'| - 2));
    }
  }

  /** The fate decides what the report and the log gain. */
  lemma FateConsidered(fate: Fate, h: seq<FS>, h': seq<FS>, ctx: Context, cfg: Config, g: Group, protected: set<string>,
                       o: Object, report: Report, log: seq<Removal>)
    requires h != [] && h' != [] && ctx.known <= h && ctx.read <= ctx.start < |ctx.known|
    requires FateOf(fate, h, h', cfg, g, protected, o, report)
    ensures QuietFate(fate, Last(h), Last(h'), o) ==>
      Considered(cfg, o, !Passed(cfg, g, protected, o), Last(h), report, log,
                 Last(h'), ReportAfter(fate, report, o), LogAfter(fate, log, h', ctx, g, o))
  {
  }

  method ConsiderObject(disk: Disk, cfg: Config, g: Group, o: Object, protected: set<string>, report0: Report,
                        ghost ctx: Context, ghost from: Opened, ghost log0: seq<Removal>)
    returns (ok: bool, report: Report, ghost log: seq<Removal>)
    requires disk.Valid() && ctx.known <= disk.history && ContextOk(ctx, from, cfg, g, protected)
    requires IsOldObject(o, g.stem, cfg.cutoff) && ScannedBy(ctx.known, from.base.passed, o)
    requires Books(disk.history, disk.unlinked, from, cfg, report0, log0)
    modifies disk
    ensures disk.Valid() && old(disk.history) <= disk.history
    ensures Books(disk.history, disk.unlinked, from, cfg, report, log) && report.groups == report0.groups
    ensures disk.quiet && StillProved(old(disk.Fs()), g, o) ==>
      ok && Considered(cfg, o, !Passed(cfg, g, protected, o), old(disk.Fs()), report0, log0, disk.Fs(), report, log)
  {
    ghost var h, unlinked := disk.history, disk.unlinked;
    var fate := Dispose(disk, cfg, g, o, protected, report0);
    ok, report := !fate.Changed?, ReportAfter(fate, report0, o);
    log := LogAfter(fate, log0, disk.history, ctx, g, o);
    FateKeepsBooks(fate, h, disk.history, unlinked, ctx, from, cfg, g, protected, o, report0, log0);
    FateConsidered(fate, h, disk.history, ctx, cfg, g, protected, o, report0, log0);
  }
}
