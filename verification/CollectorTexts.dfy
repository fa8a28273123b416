/**
 What the collector's decisions say about the texts of names and paths themselves: which objects an artifact
 names, which fingerprints belong to a stem, and what is left of a disposable object's definition when all
 helper functions are spelled out.
 */
module CollectorTexts {
  import opened CargoNames
  import opened Collector
  import opened Inspection
  import opened Prelude
  import opened TargetDisk

  /** The full path of an object. */
  function ObjectPath(root: string, name: string): string {
    root + "/deps/" + name
  }

  lemma TextOfObject(root: string, p: Path)
    requires p.dir == Deps
    ensures Text(root, p) == ObjectPath(root, p.name)
  {
  }

  /** A listed text names the object: its last component is the object's name, or it is its full path. */
  ghost predicate NamesObject(root: string, text: string, name: string) {
    LastComponentIs(text, name) || text == ObjectPath(root, name)
  }

  lemma IsNamedExact(root: string, names: set<string>, p: Path)
    requires p.dir == Deps && p.name != ""
    ensures IsNamed(root, names, p) <==> exists n | n in names :: NamesObject(root, n, p.name)
  {
    TextOfObject(root, p);
    forall n | n in names ensures FinalName(n) == p.name <==> LastComponentIs(n, p.name) {
      FinalNameExact(n, p.name);
    }
    if IsNamed(root, names, p) {
      if n :| n in names && FinalName(n) == p.name {
        assert NamesObject(root, n, p.name);
      } else {
        assert NamesObject(root, Text(root, p), p.name);
      }
    }
  }

  /** The unit directory is named by the hash alone, or ends in a dash and the hash. */
  predicate IsUnitOf(unit: string, hash: string) {
    unit == hash || EndsIn(unit, "-" + hash)
  }

  function HashOf(stem: string): string
    requires IsStem(stem)
  {
    stem[|stem| - 16..]
  }

  lemma UnitExact(unit: string, stem: string)
    requires IsStem(stem)
    ensures AfterLastDash(unit) == AfterLastDash(stem) <==> IsUnitOf(unit, HashOf(stem))
  {
    StemHash(stem);
    AfterLastDashExact(unit, HashOf(stem));
  }

  // ----- Removals -----

  /** The texts an artifact lists: an archive's members, or else its symbol table's object names. */
  ghost predicate ListsTexts(c: Content, names: set<string>) {
    if c.magic == ArchiveMagic then c.members == Some(names) else c.debugMap == Some(names)
  }

  /** No text the artifact lists names the object, alone or behind a slash, and its full path stands in no
      debug map of an inspected executable. */
  ghost predicate SparedTexts(r: Removal, cfg: Config, base: Base) {
    var p, artifact := r.item.path, r.group.artifact;
    && p.dir == Deps && IsObjectOf(p.name, r.group.stem) && IsFile(r.before, artifact)
    && (artifact == Path(Deps, r.group.stem) || artifact == Path(Deps, "lib" + r.group.stem + ".rlib"))
    && ListsTexts(r.before[artifact].content, r.group.names)
    && (forall n | n in r.group.names ::
          && n != cfg.root + "/deps/" + p.name && !LastComponentIs(n, p.name)
          && ('/' !in p.name ==> n != p.name && !EndsIn(n, "/" + p.name)))
    && (forall i | 0 <= i < |base.proofs| ::
          && IsMachO(r.groupStart, base.proofs[i].path) && r.groupStart[base.proofs[i].path].content.debugMap.Some?
          && cfg.root + "/deps/" + p.name !in r.groupStart[base.proofs[i].path].content.debugMap.value)
  }

  /** Its evidence, on texts: the dep file of the stem, and completed targets under its sixteen digits. */
  ghost predicate EvidenceTexts(r: Removal) {
    var g := r.group;
    && IsStem(g.stem) && |g.snapshot| >= 3 && g.snapshot[0].path == g.artifact
    && g.snapshot[1].path == Path(Deps, g.stem + ".d")
    && forall i | 2 <= i < |g.snapshot| ::
         && g.snapshot[i].path.dir.Fingerprint? && IsUnitOf(g.snapshot[i].path.dir.unit, HashOf(g.stem))
         && IsTargetName(g.snapshot[i].path.name)
  }

  lemma ObjectNameIsPlain(name: string, stem: string)
    requires IsObjectOf(name, stem)
    ensures name != "" && name != "."
  {
  }

  lemma RemovalTexts(r: Removal, cfg: Config, base: Base)
    requires Justified(r, cfg, base)
    ensures SparedTexts(r, cfg, base) && EvidenceTexts(r)
  {
    var p, g := r.item.path, r.group;
    ObjectStemExact(p.name, g.stem);
    ObjectNameIsPlain(p.name, g.stem);
    TextOfObject(cfg.root, p);
    IsNamedExact(cfg.root, g.names, p);
    forall n | n in g.names
      ensures n != cfg.root + "/deps/" + p.name && !LastComponentIs(n, p.name)
      ensures '/' !in p.name ==> n != p.name && !EndsIn(n, "/" + p.name)
    {
      assert !NamesObject(cfg.root, n, p.name);
      if '/' !in p.name && (n == p.name || EndsIn(n, "/" + p.name)) {
        NameAndPathEnd(n, p.name);
      }
    }
    forall i | 2 <= i < |g.snapshot| ensures IsUnitOf(g.snapshot[i].path.dir.unit, HashOf(g.stem)) {
      UnitExact(g.snapshot[i].path.dir.unit, g.stem);
    }
  }

  // ----- Disposable objects -----

  /** The artifact of a stem: the executable, or the library when there is no executable. */
  ghost predicate IsArtifactOf(fs: FS, stem: string, a: Path) {
    && IsFile(fs, a)
    && (a == Path(Deps, stem) || (a == Path(Deps, "lib" + stem + ".rlib") && !IsFile(fs, Path(Deps, stem))))
  }

  lemma ArtifactExact(fs: FS, stem: string, a: Path)
    ensures ArtifactOf(fs, stem) == Some(a) <==> IsArtifactOf(fs, stem, a)
  {
    assert "lib" + stem + ".rlib" != stem;
  }

  /** A completed target under the digits of this stem. */
  ghost predicate HasTarget(fs: FS, stem: string)
    requires IsStem(stem)
  {
    exists q | q in fs ::
      IsFile(fs, q) && q.dir.Fingerprint? && IsUnitOf(q.dir.unit, HashOf(stem)) && IsTargetName(q.name) && fs[q].stat.sig.size == 16
  }

  lemma TargetExact(fs: FS, stem: string)
    requires IsStem(stem)
    ensures HasFingerprint(fs, AfterLastDash(stem)) <==> HasTarget(fs, stem)
  {
    forall q | q in fs && q.dir.Fingerprint?
      ensures AfterLastDash(q.dir.unit) == AfterLastDash(stem) <==> IsUnitOf(q.dir.unit, HashOf(stem))
    {
      UnitExact(q.dir.unit, stem);
    }
  }

  /** A regular file of the profile, deps or examples directory whose name has no suffix, or ends in `.dylib`
      or `.so` behind at least one character. */
  ghost predicate IsPublished(fs: FS, q: Path) {
    && IsFile(fs, q) && q.dir in {Profile, Deps, Examples}
    && (|| (|q.name| > 6 && EndsIn(q.name, ".dylib")) || (|q.name| > 3 && EndsIn(q.name, ".so"))
        || forall tail | '.' !in tail && tail != "" :: !(|q.name| > |tail| + 1 && EndsIn(q.name, "." + tail)))
  }

  lemma PublishedExact(fs: FS, q: Path)
    ensures IsExecutable(fs, q) <==> IsPublished(fs, q)
  {
    assert "." + "dylib" == ".dylib" && "." + "so" == ".so";
    SuffixExact(q.name, "dylib");
    SuffixExact(q.name, "so");
    NoSuffixExact(q.name);
  }

  /** An old, singly linked object of this stem, with a finished readable build that is not older, whose
      artifact does not name it and no executable's debug map has its full path. */
  ghost predicate IsDisposable(fs: FS, cfg: Config, p: Path, stem: string, a: Path, names: set<string>) {
    && IsFile(fs, p) && p.dir == Deps && IsObjectOf(p.name, stem)
    && fs[p].stat.sig.nlink == 1 && fs[p].stat.sig.mtime < cfg.cutoff
    && IsArtifactOf(fs, stem, a) && IsFile(fs, Path(Deps, stem + ".d")) && HasTarget(fs, stem)
    && ListsTexts(fs[a].content, names) && fs[p].stat.sig.mtime <= fs[a].stat.sig.mtime
    && (forall n | n in names :: !LastComponentIs(n, p.name) && n != cfg.root + "/deps/" + p.name)
    && (forall q | IsPublished(fs, q) && fs[q].content.magic == MachOMagic && fs[q].content.debugMap.Some? ::
          cfg.root + "/deps/" + p.name !in fs[q].content.debugMap.value)
  }

  lemma DisposableIsSpelled(fs: FS, cfg: Config, p: Path) returns (stem: string, a: Path, names: set<string>)
    requires Disposable(fs, cfg, p)
    ensures IsDisposable(fs, cfg, p, stem, a, names)
  {
    stem := ObjectStem(p.name).value;
    a := ArtifactOf(fs, stem).value;
    names := NamesIn(fs[a].content).value;
    ObjectStemExact(p.name, stem);
    ArtifactExact(fs, stem, a);
    TargetExact(fs, stem);
    TextOfObject(cfg.root, p);
    IsNamedExact(cfg.root, names, p);
    forall n | n in names ensures !LastComponentIs(n, p.name) && n != cfg.root + "/deps/" + p.name {
      assert !NamesObject(cfg.root, n, p.name);
    }
    forall q | IsPublished(fs, q) && fs[q].content.magic == MachOMagic && fs[q].content.debugMap.Some?
      ensures cfg.root + "/deps/" + p.name !in fs[q].content.debugMap.value
    {
      PublishedExact(fs, q);
    }
  }

  lemma SpelledIsDisposable(fs: FS, cfg: Config, p: Path, stem: string, a: Path, names: set<string>)
    requires IsDisposable(fs, cfg, p, stem, a, names)
    ensures Disposable(fs, cfg, p)
  {
    ObjectStemExact(p.name, stem);
    ArtifactExact(fs, stem, a);
    TargetExact(fs, stem);
    TextOfObject(cfg.root, p);
    IsNamedExact(cfg.root, names, p);
    assert forall n | n in names :: !NamesObject(cfg.root, n, p.name);
    forall q | q in fs && IsMachO(fs, q) && fs[q].content.debugMap.Some?
      ensures Text(cfg.root, p) !in fs[q].content.debugMap.value
    {
      PublishedExact(fs, q);
    }
  }

  /** What counts as disposable, on texts alone. */
  lemma DisposableOnTexts(fs: FS, cfg: Config, p: Path)
    ensures Disposable(fs, cfg, p) <==> exists stem, a, names :: IsDisposable(fs, cfg, p, stem, a, names)
  {
    if Disposable(fs, cfg, p) {
      var stem, a, names := DisposableIsSpelled(fs, cfg, p);
    }
    if stem, a, names :| IsDisposable(fs, cfg, p, stem, a, names) {
      SpelledIsDisposable(fs, cfg, p, stem, a, names);
    }
  }
}
