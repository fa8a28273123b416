/**
 The protection pass of the collector: it opens every published executable once, keeps the objects their
 debug maps name, and later rechecks that none of them has changed.
 */
module Inspection {
  import opened CargoNames
  import opened Prelude
  import opened TargetDisk

  predicate InExecutableDir(p: Path) {
    p.dir == Profile || p.dir == Deps || p.dir == Examples
  }

  /** A published executable or library that the protection pass opens. */
  predicate IsExecutable(fs: FS, p: Path) {
    && IsFile(fs, p) && InExecutableDir(p)
    && (Suffix(p.name) == "" || Suffix(p.name) == ".dylib" || Suffix(p.name) == ".so")
  }

  predicate IsMachO(fs: FS, p: Path) {
    IsExecutable(fs, p) && fs[p].content.magic == MachOMagic
  }

  /** Some executable's debug map names this text. */
  ghost predicate InDebugMap(fs: FS, text: string) {
    exists p | p in fs :: IsMachO(fs, p) && fs[p].content.debugMap.Some? && text in fs[p].content.debugMap.value
  }

  ghost predicate Inspectable(fs: FS) {
    forall p | IsMachO(fs, p) :: fs[p].content.debugMap.Some?
  }

  /** Every path of a directory once, as one listing sees it. */
  method ListDir(disk: Disk, dir: Dir) returns (paths: seq<Path>)
    requires disk.Valid()
    ensures Distinct(paths)
    ensures forall p :: p in paths <==> p in disk.Fs() && p.dir == dir
  {
    var todo := set p | p in disk.Fs() && p.dir == dir;
    ghost var all := todo;
    paths := [];
    while todo != {}
      invariant Distinct(paths) && (forall p | p in paths :: p !in todo)
      invariant forall p :: p in all <==> p in todo || p in paths
      decreases |todo|
    {
      var p :| p in todo;
      todo := todo - {p};
      paths := paths + [p];
    }
  }

  // ----- One file -----

  /** What opening a path twice gives, for its magic and then for its debug map: nothing but a failure, no
      Mach-O image, or the map. */
  datatype Opening = Failed | NotMachO | Mapped(names: set<string>)

  ghost function OpenedAt(m: FS, n: FS, p: Path): Opening {
    if !IsOpenable(m, p) then Failed
    else if m[p].content.magic != MachOMagic then NotMachO
    else if !IsOpenable(n, p) || n[p].content.debugMap.None? then Failed
    else Mapped(n[p].content.debugMap.value)
  }

  method OpenExecutable(disk: Disk, p: Path) returns (r: Opening, ghost m: nat, ghost n: nat)
    requires disk.Valid()
    modifies disk`history
    ensures disk.Valid() && old(disk.history) <= disk.history
    ensures |old(disk.history)| <= m <= n < |disk.history| && r == OpenedAt(disk.history[m], disk.history[n], p)
    ensures disk.quiet ==> Still(disk.history, |old(disk.history)| - 1)
  {
    disk.Interfere();
    ghost var h := disk.history;
    m, n := |h| - 1, |h| - 1;
    if !IsOpenable(disk.Fs(), p) {
      return Failed, m, n;
    }
    if disk.Fs()[p].content.magic != MachOMagic {
      return NotMachO, m, n;
    }
    disk.Interfere();
    n := m + 1;
    assert disk.history[m] == h[m];
    if !IsOpenable(disk.Fs(), p) || disk.Fs()[p].content.debugMap.None? {
      return Failed, m, n;
    }
    return Mapped(disk.Fs()[p].content.debugMap.value), m, n;
  }

  /** What inspecting one path does, given the states in which its kind and status, its magic and its
      debug map were read. */
  ghost predicate VisitedAt(h: seq<FS>, k: nat, m: nat, n: nat, p: Path, seen0: set<Inode>,
                            ok: bool, seen: set<Inode>, found: Option<(Sig, set<string>)>)
    requires k <= m <= n < |h|
  {
    if !IsExecutable(h[k], p) then ok && seen == seen0 && found.None?
    else
      var inode := InodeOf(h[k][p].stat);
      && seen == seen0 + {inode}
      && if inode in seen0 then ok && found.None?
         else
           match OpenedAt(h[m], h[n], p)
           case Failed => !ok && found.None?
           case NotMachO => ok && found.None?
           case Mapped(names) => ok && found == Some((h[k][p].stat.sig, names))
  }

  method InspectOne(disk: Disk, p: Path, seen0: set<Inode>)
    returns (ok: bool, seen: set<Inode>, found: Option<(Sig, set<string>)>, ghost k: nat, ghost m: nat, ghost n: nat)
    requires disk.Valid()
    modifies disk`history
    ensures disk.Valid() && old(disk.history) <= disk.history
    ensures |old(disk.history)| <= k <= m <= n < |disk.history|
    ensures VisitedAt(disk.history, k, m, n, p, seen0, ok, seen, found)
    ensures disk.quiet ==> Still(disk.history, |old(disk.history)| - 1)
  {
    ok, seen, found := true, seen0, None;
    disk.Interfere();
    ghost var h := disk.history;
    k, m, n := |h| - 1, |h| - 1, |h| - 1;
    if !IsExecutable(disk.Fs(), p) {
      return;
    }
    var info := disk.Fs()[p].stat;
    var inode := InodeOf(info);
    seen := seen0 + {inode};
    if inode in seen0 {
      return;
    }
    var opening;
    opening, m, n := OpenExecutable(disk, p);
    if disk.quiet {
      StillJoins(h, disk.history, k - 1);
    }
    assert disk.history[k] == h[k];
    match opening {
      case Failed => ok := false;
      case NotMachO =>
      case Mapped(names) => found := Some((info.sig, names));
    }
  }

  // ----- What the pass knows, whatever others do -----

  /** In state `k` the executable of this proof was the very file that stood at `p` in state `s`. */
  ghost predicate StandsFor(h: seq<FS>, s: nat, p: Path, pr: Proof, k: nat) {
    && s <= k < |h| && IsFile(h[s], p) && Kept(h[s], h[k], p)
    && pr.path in h[k] && h[k][pr.path] == h[s][p] && pr.sig == h[s][p].stat.sig
  }

  ghost predicate HasProof(h: seq<FS>, s: nat, p: Path, proofs: seq<Proof>) {
    exists i, k: nat :: 0 <= i < |proofs| && StandsFor(h, s, p, proofs[i], k)
  }

  /** The executable was seen with this signature, its magic was read there later, and after that a debug
      map that is protected. */
  ghost predicate ReadAt(h: seq<FS>, pr: Proof, protected: set<string>, k: nat, m: nat, n: nat) {
    && k <= m <= n < |h| && IsExecutable(h[k], pr.path) && h[k][pr.path].stat.sig == pr.sig
    && IsOpenable(h[m], pr.path) && h[m][pr.path].content.magic == MachOMagic
    && IsOpenable(h[n], pr.path) && h[n][pr.path].content.debugMap.Some?
    && h[n][pr.path].content.debugMap.value <= protected
  }

  ghost predicate WasRead(h: seq<FS>, pr: Proof, protected: set<string>) {
    exists k: nat, m: nat, n: nat :: ReadAt(h, pr, protected, k, m, n)
  }

  function Last(h: seq<FS>): FS
    requires h != []
  {
    h[|h| - 1]
  }

  /** A Mach-O executable of state `s`, unchanged so far. */
  ghost predicate Standing(h: seq<FS>, s: nat, p: Path) {
    s < |h| && IsMachO(h[s], p) && Kept(h[s], Last(h), p)
  }

  /** In some state since `b` an executable had this inode. */
  ghost predicate Met(h: seq<FS>, b: nat, inode: Inode) {
    exists j: nat, q :: b <= j < |h| && IsExecutable(h[j], q) && InodeOf(h[j][q].stat) == inode
  }

  /** No executable had this inode from state `b` up to the one before `s`. */
  ghost predicate Unmet(h: seq<FS>, b: nat, s: nat, inode: Inode)
    requires s <= |h|
  {
    !Met(h[..s], b, inode)
  }

  /** A Mach-O executable unchanged since state `s`, with an inode that no executable had before. */
  ghost predicate Owed(h: seq<FS>, b: nat, s: nat, p: Path) {
    b <= s && Standing(h, s, p) && Unmet(h, b, s, InodeOf(h[s][p].stat))
  }

  /** So far, `done` being the states of all visits: every proof was read; every inode seen was that of an
      executable; one that is owed a proof and whose inode was seen has it; and one that stood before its
      visit had its inode seen. */
  ghost predicate Surveyed(h: seq<FS>, b: nat, done: map<Path, nat>, seen: set<Inode>, protected: set<string>, proofs: seq<Proof>) {
    && (forall i | 0 <= i < |proofs| :: WasRead(h, proofs[i], protected))
    && (forall p | p in done :: done[p] < |h|) && (forall inode | inode in seen :: Met(h, b, inode))
    && (forall p, s: nat | Owed(h, b, s, p) && InodeOf(h[s][p].stat) in seen :: HasProof(h, s, p, proofs))
    && (forall p, s: nat | Standing(h, s, p) && p in done && s <= done[p] :: InodeOf(h[s][p].stat) in seen)
  }

  lemma StandingBefore(h: seq<FS>, h': seq<FS>, s: nat, p: Path)
    requires h != [] && h <= h' && Lawful(h') && s < |h| && Standing(h', s, p)
    ensures Standing(h, s, p)
  {
    Unmoved(h', s, |h| - 1, |h'| - 1, p);
  }

  lemma MetLater(h: seq<FS>, h': seq<FS>, b: nat, inode: Inode)
    requires h <= h' && Met(h, b, inode)
    ensures Met(h', b, inode)
  {
    var j: nat, q :| b <= j < |h| && IsExecutable(h[j], q) && InodeOf(h[j][q].stat) == inode;
    assert h'[j] == h[j];
  }

  lemma MetAt(h: seq<FS>, b: nat, j: nat, q: Path)
    requires b <= j < |h| && IsExecutable(h[j], q)
    ensures Met(h, b, InodeOf(h[j][q].stat))
  {
  }

  lemma WasReadLater(h: seq<FS>, h': seq<FS>, pr: Proof, protected: set<string>, protected': set<string>)
    requires h <= h' && protected <= protected' && WasRead(h, pr, protected)
    ensures WasRead(h', pr, protected')
  {
    var k: nat, m: nat, n: nat :| ReadAt(h, pr, protected, k, m, n);
    assert ReadAt(h', pr, protected', k, m, n);
  }

  lemma HasProofLater(h: seq<FS>, h': seq<FS>, s: nat, p: Path, proofs: seq<Proof>, proofs': seq<Proof>)
    requires h <= h' && proofs <= proofs' && HasProof(h, s, p, proofs)
    ensures HasProof(h', s, p, proofs')
  {
    var i, k: nat :| 0 <= i < |proofs| && StandsFor(h, s, p, proofs[i], k);
    assert StandsFor(h', s, p, proofs'[i], k);
  }

  /** A file still standing whose inode is visited for the first time, under whichever of its names, gets
      its proof there: all its names move together, so what was read is its own. */
  lemma VisitGivesProof(h: seq<FS>, s: nat, k: nat, m: nat, n: nat, q: Path, seen0: set<Inode>, seen: set<Inode>,
                        found: Option<(Sig, set<string>)>, p: Path)
    requires Lawful(h) && s <= k <= m <= n < |h| && VisitedAt(h, k, m, n, q, seen0, true, seen, found)
    requires Standing(h, s, p) && IsExecutable(h[k], q)
    requires InodeOf(h[k][q].stat) == InodeOf(h[s][p].stat) && InodeOf(h[k][q].stat) !in seen0
    ensures found.Some? && StandsFor(h, s, p, Proof(q, found.value.0), k)
  {
    var e := |h| - 1;
    Unmoved(h, s, k, e, p);
    TwinsMoveTogether(h, k, e, p, q);
    Unmoved(h, k, m, e, q);
    Unmoved(h, k, n, e, q);
  }

  function Added(proofs: seq<Proof>, q: Path, found: Option<(Sig, set<string>)>): seq<Proof> {
    proofs + if found.Some? then [Proof(q, found.value.0)] else []
  }

  function Widened(protected: set<string>, found: Option<(Sig, set<string>)>): set<string> {
    protected + if found.Some? then found.value.1 else {}
  }

  lemma ReadStep(h: seq<FS>, h': seq<FS>, protected: set<string>, proofs: seq<Proof>, k: nat, m: nat, n: nat, q: Path,
                 seen0: set<Inode>, seen: set<Inode>, found: Option<(Sig, set<string>)>)
    requires h <= h' && k <= m <= n < |h'| && VisitedAt(h', k, m, n, q, seen0, true, seen, found)
    requires forall i | 0 <= i < |proofs| :: WasRead(h, proofs[i], protected)
    ensures
      var all := Added(proofs, q, found);
      forall i | 0 <= i < |all| :: WasRead(h', all[i], Widened(protected, found))
  {
    var all := Added(proofs, q, found);
    forall i | 0 <= i < |all| ensures WasRead(h', all[i], Widened(protected, found)) {
      if i < |proofs| {
        WasReadLater(h, h', proofs[i], protected, Widened(protected, found));
      } else {
        assert ReadAt(h', all[i], Widened(protected, found), k, m, n);
      }
    }
  }

  /** An executable owed a proof whose inode was seen before this visit began was owed it before. */
  lemma OwedBefore(h: seq<FS>, h': seq<FS>, b: nat, s: nat, p: Path)
    requires h != [] && h <= h' && Lawful(h') && Owed(h', b, s, p) && Met(h, b, InodeOf(h'[s][p].stat))
    ensures Owed(h, b, s, p)
  {
    if s >= |h| {
      assert h <= h'[..s];
      MetLater(h, h'[..s], b, InodeOf(h'[s][p].stat));
    }
    StandingBefore(h, h', s, p);
    assert h[..s] == h'[..s];
  }

  /** One visit: whatever is owed a proof and has its inode seen by then has the proof. */
  lemma OwedStep(h: seq<FS>, h': seq<FS>, b: nat, done: map<Path, nat>, protected: set<string>, proofs: seq<Proof>,
                 k: nat, m: nat, n: nat, q: Path, seen0: set<Inode>, seen: set<Inode>, found: Option<(Sig, set<string>)>,
                 p: Path, s: nat)
    requires h != [] && h <= h' && Lawful(h') && b < |h| <= k <= m <= n < |h'|
    requires Surveyed(h, b, done, seen0, protected, proofs) && VisitedAt(h', k, m, n, q, seen0, true, seen, found)
    requires Owed(h', b, s, p) && InodeOf(h'[s][p].stat) in seen
    ensures HasProof(h', s, p, Added(proofs, q, found))
  {
    if InodeOf(h'[s][p].stat) in seen0 {
      OwedBefore(h, h', b, s, p);
      HasProofLater(h, h', s, p, proofs, Added(proofs, q, found));
    } else {
      if k < s {
        MetAt(h'[..s], b, k, q);
      }
      VisitGivesProof(h', s, k, m, n, q, seen0, seen, found, p);
      assert StandsFor(h', s, p, Added(proofs, q, found)[|proofs|], k);
    }
  }

  lemma SeenStep(h: seq<FS>, h': seq<FS>, b: nat, k: nat, m: nat, n: nat, q: Path,
                 seen0: set<Inode>, seen: set<Inode>, found: Option<(Sig, set<string>)>)
    requires h <= h' && b < |h| <= k <= m <= n < |h'| && VisitedAt(h', k, m, n, q, seen0, true, seen, found)
    requires forall inode | inode in seen0 :: Met(h, b, inode)
    ensures forall inode | inode in seen :: Met(h', b, inode)
  {
    forall inode | inode in seen ensures Met(h', b, inode) {
      if inode in seen0 {
        MetLater(h, h', b, inode);
      } else {
        MetAt(h', b, k, q);
      }
    }
  }

  lemma SurveyStep(h: seq<FS>, h': seq<FS>, b: nat, done: map<Path, nat>, protected: set<string>, proofs: seq<Proof>,
                   k: nat, m: nat, n: nat, q: Path, seen0: set<Inode>, seen: set<Inode>, found: Option<(Sig, set<string>)>)
    requires h != [] && h <= h' && Lawful(h') && b < |h| <= k <= m <= n < |h'|
    requires Surveyed(h, b, done, seen0, protected, proofs) && VisitedAt(h', k, m, n, q, seen0, true, seen, found)
    ensures Surveyed(h', b, done[q := k], seen, Widened(protected, found), Added(proofs, q, found))
  {
    ReadStep(h, h', protected, proofs, k, m, n, q, seen0, seen, found);
    SeenStep(h, h', b, k, m, n, q, seen0, seen, found);
    forall p, s: nat | Owed(h', b, s, p) && InodeOf(h'[s][p].stat) in seen ensures HasProof(h', s, p, Added(proofs, q, found)) {
      OwedStep(h, h', b, done, protected, proofs, k, m, n, q, seen0, seen, found, p, s);
    }
    var all := done[q := k];
    forall p, s: nat | Standing(h', s, p) && p in all && s <= all[p] ensures InodeOf(h'[s][p].stat) in seen {
      if p == q {
        Unmoved(h', s, k, |h'| - 1, p);
      } else {
        StandingBefore(h, h', s, p);
      }
    }
  }

  lemma SurveyLater(h: seq<FS>, h': seq<FS>, b: nat, done: map<Path, nat>, seen: set<Inode>, protected: set<string>, proofs: seq<Proof>)
    requires h != [] && h <= h' && Lawful(h') && b < |h| && Surveyed(h, b, done, seen, protected, proofs)
    ensures Surveyed(h', b, done, seen, protected, proofs)
  {
    forall i | 0 <= i < |proofs| ensures WasRead(h', proofs[i], protected) {
      WasReadLater(h, h', proofs[i], protected, protected);
    }
    forall inode | inode in seen ensures Met(h', b, inode) {
      MetLater(h, h', b, inode);
    }
    forall p, s: nat | Owed(h', b, s, p) && InodeOf(h'[s][p].stat) in seen ensures HasProof(h', s, p, proofs) {
      OwedBefore(h, h', b, s, p);
      HasProofLater(h, h', s, p, proofs, proofs);
    }
    forall p, s: nat | Standing(h', s, p) && p in done && s <= done[p] ensures InodeOf(h'[s][p].stat) in seen {
      StandingBefore(h, h', s, p);
    }
  }

  // ----- A filesystem nobody else changes -----

  /** How far the pass has come on such a filesystem. */
  ghost predicate Inspected(fs: FS, done: set<Path>, seen: set<Inode>, protected: set<string>, proofs: seq<Proof>) {
    && (forall p | p in done && IsMachO(fs, p) :: fs[p].content.debugMap.Some? && fs[p].content.debugMap.value <= protected)
    && (forall t | t in protected :: InDebugMap(fs, t))
    && (forall i | i in seen :: exists p | p in done :: IsExecutable(fs, p) && InodeOf(fs[p].stat) == i)
    && (forall i | 0 <= i < |proofs| :: Proves(fs, proofs[i]) && IsExecutable(fs, proofs[i].path))
  }

  /** A visit there sees one state throughout. */
  ghost predicate QuietVisit(fs: FS, p: Path, seen0: set<Inode>, ok: bool, seen: set<Inode>, found: Option<(Sig, set<string>)>) {
    VisitedAt([fs], 0, 0, 0, p, seen0, ok, seen, found)
  }

  lemma StillVisit(h: seq<FS>, from: nat, k: nat, m: nat, n: nat, p: Path, seen0: set<Inode>,
                   ok: bool, seen: set<Inode>, found: Option<(Sig, set<string>)>)
    requires from <= k <= m <= n < |h| && Still(h, from) && VisitedAt(h, k, m, n, p, seen0, ok, seen, found)
    ensures QuietVisit(h[from], p, seen0, ok, seen, found)
  {
    assert h[k] == h[m] == h[n] == h[from] == [h[from]][0];
  }

  lemma SeenGrows(fs: FS, done: set<Path>, seen0: set<Inode>, seen: set<Inode>, p: Path)
    requires forall i | i in seen0 :: exists q | q in done :: IsExecutable(fs, q) && InodeOf(fs[q].stat) == i
    requires if IsExecutable(fs, p) then seen == seen0 + {InodeOf(fs[p].stat)} else seen == seen0
    ensures forall i | i in seen :: exists q | q in done + {p} :: IsExecutable(fs, q) && InodeOf(fs[q].stat) == i
  {
    forall i | i in seen ensures exists q | q in done + {p} :: IsExecutable(fs, q) && InodeOf(fs[q].stat) == i {
      if i in seen0 {
        var q :| q in done && IsExecutable(fs, q) && InodeOf(fs[q].stat) == i;
        assert q in done + {p};
      } else {
        assert p in done + {p};
      }
    }
  }

  lemma InspectedStep(fs: FS, done: set<Path>, protected: set<string>, proofs: seq<Proof>, p: Path,
                      seen0: set<Inode>, seen: set<Inode>, found: Option<(Sig, set<string>)>)
    requires Linked(fs) && Inspected(fs, done, seen0, protected, proofs) && QuietVisit(fs, p, seen0, true, seen, found)
    ensures Inspected(fs, done + {p}, seen, Widened(protected, found), Added(proofs, p, found))
  {
    SeenGrows(fs, done, seen0, seen, p);
    if IsMachO(fs, p) && InodeOf(fs[p].stat) in seen0 {
      var q :| q in done && IsExecutable(fs, q) && InodeOf(fs[q].stat) == InodeOf(fs[p].stat);
      assert p == q || IsTwin(fs, p, q);
      assert fs[p] == fs[q];
    }
    forall t | t in Widened(protected, found) ensures InDebugMap(fs, t) {
      if t !in protected {
        assert p in fs && IsMachO(fs, p);
      }
    }
    var all := Added(proofs, p, found);
    forall i | 0 <= i < |all| ensures Proves(fs, all[i]) && IsExecutable(fs, all[i].path) {
      assert i < |proofs| ==> all[i] == proofs[i];
    }
  }

  // ----- The pass -----

  /** One visit carries the survey on, and on a quiet filesystem the inspection too. */
  method InspectPath(disk: Disk, p: Path, seen0: set<Inode>, protected0: set<string>, proofs0: seq<Proof>,
                     ghost b: nat, ghost done0: map<Path, nat>)
    returns (ok: bool, seen: set<Inode>, protected: set<string>, proofs: seq<Proof>, ghost done: map<Path, nat>)
    requires disk.Valid() && b < |disk.history|
    requires Surveyed(disk.history, b, done0, seen0, protected0, proofs0)
    modifies disk`history
    ensures disk.Valid() && old(disk.history) <= disk.history
    ensures ok ==> Surveyed(disk.history, b, done, seen, protected, proofs)
    ensures p in done && |old(disk.history)| <= done[p] && done == done0[p := done[p]]
    ensures disk.quiet ==> Still(disk.history, |old(disk.history)| - 1)
    ensures disk.quiet && Inspected(old(disk.Fs()), done0.Keys, seen0, protected0, proofs0) ==>
      if ok then Inspected(old(disk.Fs()), done.Keys, seen, protected, proofs) else !Inspectable(old(disk.Fs()))
  {
    ghost var h := disk.history;
    ghost var k, m, n;
    var found;
    ok, seen, found, k, m, n := InspectOne(disk, p, seen0);
    protected := protected0 + if found.Some? then found.value.1 else {};
    proofs := proofs0 + if found.Some? then [Proof(p, found.value.0)] else [];
    done := done0[p := k];
    if ok {
      SurveyStep(h, disk.history, b, done0, protected0, proofs0, k, m, n, p, seen0, seen, found);
    }
    if disk.quiet {
      StillVisit(disk.history, |h| - 1, k, m, n, p, seen0, ok, seen, found);
      if ok && Inspected(h[|h| - 1], done0.Keys, seen0, protected0, proofs0) {
        assert LinkedAt(h, |h| - 1);
        assert done.Keys == done0.Keys + {p};
        InspectedStep(h[|h| - 1], done0.Keys, protected0, proofs0, p, seen0, seen, found);
      }
    }
  }

  /** Every path of a directory, listed after others ran; the survey is as it was. */
  method ListSurveyed(disk: Disk, dir: Dir, ghost b: nat, ghost done: map<Path, nat>, ghost seen: set<Inode>,
                      ghost protected: set<string>, ghost proofs: seq<Proof>)
    returns (paths: seq<Path>)
    requires disk.Valid() && b < |disk.history| && Surveyed(disk.history, b, done, seen, protected, proofs)
    modifies disk`history
    ensures disk.Valid() && old(disk.history) < disk.history && Surveyed(disk.history, b, done, seen, protected, proofs)
    ensures forall p :: p in paths <==> p in disk.Fs() && p.dir == dir
    ensures disk.quiet ==> disk.Fs() == old(disk.Fs())
  {
    ghost var h := disk.history;
    disk.Interfere();
    SurveyLater(h, disk.history, b, done, seen, protected, proofs);
    paths := ListDir(disk, dir);
  }

  /** Every executable of this directory that has stood since before its listing was visited since. */
  ghost predicate Visited(h: seq<FS>, listed: nat, dir: Dir, done: map<Path, nat>) {
    forall p, s: nat | Standing(h, s, p) && p.dir == dir && s <= listed :: p in done && s <= done[p]
  }

  /** What earlier directories were visited is still on record. */
  ghost predicate KeepsVisits(done0: map<Path, nat>, done: map<Path, nat>, dir: Dir) {
    forall p | p in done0 && p.dir != dir :: p in done && done[p] == done0[p]
  }

  ghost predicate VisitedSince(paths: seq<Path>, listed: nat, done: map<Path, nat>) {
    forall j | 0 <= j < |paths| :: paths[j] in done && listed <= done[paths[j]]
  }

  lemma VisitNext(paths: seq<Path>, i: nat, listed: nat, dir: Dir, done0: map<Path, nat>, done: map<Path, nat>, k: nat)
    requires i < |paths| && paths[i].dir == dir && listed <= k
    requires KeepsVisits(done0, done, dir) && VisitedSince(paths[..i], listed, done)
    ensures KeepsVisits(done0, done[paths[i] := k], dir) && VisitedSince(paths[..i + 1], listed, done[paths[i] := k])
  {
    var next, all := paths[..i + 1], done[paths[i] := k];
    forall j | 0 <= j < |next| ensures next[j] in all && listed <= all[next[j]] {
      assert j < i ==> paths[..i][j] == next[j];
    }
  }

  /** Visit every listed path in turn. */
  method InspectListed(disk: Disk, dir: Dir, paths: seq<Path>, seen0: set<Inode>, protected0: set<string>, proofs0: seq<Proof>,
                       ghost b: nat, ghost done0: map<Path, nat>)
    returns (ok: bool, seen: set<Inode>, protected: set<string>, proofs: seq<Proof>, ghost done: map<Path, nat>)
    requires disk.Valid() && b < |disk.history| && forall j | 0 <= j < |paths| :: paths[j].dir == dir
    requires Surveyed(disk.history, b, done0, seen0, protected0, proofs0)
    modifies disk`history
    ensures disk.Valid() && old(disk.history) <= disk.history && KeepsVisits(done0, done, dir)
    ensures ok ==> Surveyed(disk.history, b, done, seen, protected, proofs)
    ensures ok ==> VisitedSince(paths, |old(disk.history)| - 1, done)
    ensures disk.quiet ==> disk.Fs() == old(disk.Fs())
    ensures disk.quiet && Inspected(disk.Fs(), done0.Keys, seen0, protected0, proofs0) ==>
      if ok then Inspected(disk.Fs(), done.Keys, seen, protected, proofs) else !Inspectable(disk.Fs())
  {
    ok, seen, protected, proofs, done := true, seen0, protected0, proofs0, done0;
    ghost var fs0, listed := disk.Fs(), |disk.history| - 1;
    ghost var exact := disk.quiet && Inspected(fs0, done0.Keys, seen0, protected0, proofs0);
    for i := 0 to |paths|
      invariant ok && disk.Valid() && old(disk.history) <= disk.history && KeepsVisits(done0, done, dir)
      invariant Surveyed(disk.history, b, done, seen, protected, proofs) && VisitedSince(paths[..i], listed, done)
      invariant disk.quiet ==> disk.Fs() == fs0
      invariant exact ==> Inspected(fs0, done.Keys, seen, protected, proofs)
    {
      ghost var before := done;
      ok, seen, protected, proofs, done := InspectPath(disk, paths[i], seen, protected, proofs, b, done);
      VisitNext(paths, i, listed, dir, done0, before, done[paths[i]]);
      if !ok {
        return;
      }
    }
    assert paths[..|paths|] == paths;
  }

  method InspectDirectory(disk: Disk, dir: Dir, seen0: set<Inode>, protected0: set<string>, proofs0: seq<Proof>,
                          ghost b: nat, ghost done0: map<Path, nat>)
    returns (ok: bool, seen: set<Inode>, protected: set<string>, proofs: seq<Proof>, ghost done: map<Path, nat>, ghost listed: nat)
    requires disk.Valid() && b < |disk.history|
    requires Surveyed(disk.history, b, done0, seen0, protected0, proofs0)
    modifies disk`history
    ensures disk.Valid() && old(disk.history) <= disk.history && |old(disk.history)| <= listed < |disk.history|
    ensures KeepsVisits(done0, done, dir)
    ensures ok ==> Surveyed(disk.history, b, done, seen, protected, proofs) && Visited(disk.history, listed, dir, done)
    ensures disk.quiet ==> disk.Fs() == old(disk.Fs())
    ensures disk.quiet && Inspected(disk.Fs(), done0.Keys, seen0, protected0, proofs0) ==>
      if ok then Inspected(disk.Fs(), done.Keys, seen, protected, proofs) && forall p | p in disk.Fs() && p.dir == dir :: p in done
      else !Inspectable(disk.Fs())
  {
    var paths := ListSurveyed(disk, dir, b, done0, seen0, protected0, proofs0);
    ghost var listing := disk.history;
    listed := |listing| - 1;
    forall j | 0 <= j < |paths| ensures paths[j].dir == dir {
      assert paths[j] in paths;
    }
    ok, seen, protected, proofs, done := InspectListed(disk, dir, paths, seen0, protected0, proofs0, b, done0);
    if ok {
      ListedAreDone(listing, disk.history, dir, paths, done);
    }
  }

  lemma ListedAreDone(listing: seq<FS>, h: seq<FS>, dir: Dir, paths: seq<Path>, done: map<Path, nat>)
    requires listing != [] && listing <= h && Lawful(h)
    requires forall p :: p in paths <==> p in Last(listing) && p.dir == dir
    requires VisitedSince(paths, |listing| - 1, done)
    ensures Visited(h, |listing| - 1, dir, done)
    ensures forall p | p in Last(listing) && p.dir == dir :: p in done
  {
    forall p | p in paths ensures p in done && |listing| - 1 <= done[p] {
      var j :| 0 <= j < |paths| && paths[j] == p;
    }
    forall p, s: nat | Standing(h, s, p) && p.dir == dir && s <= |listing| - 1 ensures p in done && s <= done[p] {
      StandingBefore(listing, h, s, p);
      assert p in paths;
    }
  }

  lemma StillJoins(h: seq<FS>, h': seq<FS>, from: nat)
    requires from < |h| && h <= h' && Still(h, from) && Still(h', |h| - 1)
    ensures Still(h', from)
  {
    forall i | from <= i < |h'| ensures h'[i] == h'[from] {
      if i < |h| {
        assert h'[i] == h[i] == h[from];
      } else {
        assert h'[i] == h'[|h| - 1] == h[from];
      }
    }
  }

  /** The states in which the three directories were listed. */
  datatype Listings = Listings(profile: nat, deps: nat, examples: nat)

  ghost function ListedAt(listed: Listings, dir: Dir): nat {
    match dir
    case Profile => listed.profile
    case Deps => listed.deps
    case Examples => listed.examples
    case Fingerprint(_) => 0
  }

  /** What the finished pass knows: every proof was read, and every Mach-O executable has a proof that
      appeared no later than the listing of its directory, with an inode no executable had before, and
      stood unchanged to the end of the pass. */
  ghost predicate Guards(h: seq<FS>, b: nat, listed: Listings, protected: set<string>, proofs: seq<Proof>) {
    && b < listed.profile < listed.deps < listed.examples < |h|
    && (forall i | 0 <= i < |proofs| :: WasRead(h, proofs[i], protected))
    && (forall p, s: nat | Owed(h, b, s, p) && s <= ListedAt(listed, p.dir) :: HasProof(h, s, p, proofs))
  }

  /** The protected set is exactly the union of all debug maps, and every proof holds. */
  ghost predicate ExactProtection(fs: FS, protected: set<string>, proofs: seq<Proof>) {
    && (forall t :: t in protected <==> InDebugMap(fs, t))
    && (forall i | 0 <= i < |proofs| :: Proves(fs, proofs[i]) && IsExecutable(fs, proofs[i].path))
  }

  lemma VisitedLater(h: seq<FS>, h': seq<FS>, listed: nat, dir: Dir, done: map<Path, nat>, done': map<Path, nat>)
    requires h != [] && h <= h' && Lawful(h') && listed < |h| && Visited(h, listed, dir, done)
    requires forall p | p in done && p.dir == dir :: p in done' && done'[p] == done[p]
    ensures Visited(h', listed, dir, done')
  {
    forall p, s: nat | Standing(h', s, p) && p.dir == dir && s <= listed ensures p in done' && s <= done'[p] {
      StandingBefore(h, h', s, p);
    }
  }

  lemma AllSurveyed(h: seq<FS>, b: nat, done: map<Path, nat>, listed: Listings, seen: set<Inode>,
                    protected: set<string>, proofs: seq<Proof>)
    requires b < listed.profile < listed.deps < listed.examples < |h| && Surveyed(h, b, done, seen, protected, proofs)
    requires Visited(h, listed.profile, Profile, done) && Visited(h, listed.deps, Deps, done)
    requires Visited(h, listed.examples, Examples, done)
    ensures Guards(h, b, listed, protected, proofs)
  {
    forall p, s: nat | Owed(h, b, s, p) && s <= ListedAt(listed, p.dir) ensures HasProof(h, s, p, proofs) {
      assert Standing(h, s, p) && p in done && s <= done[p];
    }
  }

  lemma AllInspected(fs: FS, done: set<Path>, seen: set<Inode>, protected: set<string>, proofs: seq<Proof>)
    requires Inspected(fs, done, seen, protected, proofs) && forall p | p in fs && InExecutableDir(p) :: p in done
    ensures ExactProtection(fs, protected, proofs) && Inspectable(fs)
  {
    forall t | InDebugMap(fs, t) ensures t in protected {
      var p :| p in fs && IsMachO(fs, p) && fs[p].content.debugMap.Some? && t in fs[p].content.debugMap.value;
      assert p in done;
    }
  }

  /** Inspect the profile directory, its deps and its examples. */
  method InspectExecutables(disk: Disk) returns (ok: bool, protected: set<string>, proofs: seq<Proof>, ghost listed: Listings)
    requires disk.Valid()
    modifies disk`history
    ensures disk.Valid() && old(disk.history) <= disk.history
    ensures ok ==> Guards(disk.history, |old(disk.history)| - 1, listed, protected, proofs)
    ensures disk.quiet ==> disk.Fs() == old(disk.Fs())
    ensures disk.quiet ==> (ok <==> Inspectable(disk.Fs())) && (ok ==> ExactProtection(disk.Fs(), protected, proofs))
  {
    ghost var b := |disk.history| - 1;
    var seen: set<Inode>;
    ghost var done1, done2, done3, l1, l2, l3;
    listed := Listings(0, 0, 0);
    ok, seen, protected, proofs, done1, l1 := InspectDirectory(disk, Profile, {}, {}, [], b, map[]);
    if !ok {
      return;
    }
    ghost var h1 := disk.history;
    ok, seen, protected, proofs, done2, l2 := InspectDirectory(disk, Deps, seen, protected, proofs, b, done1);
    if !ok {
      return;
    }
    ghost var h2 := disk.history;
    ok, seen, protected, proofs, done3, l3 := InspectDirectory(disk, Examples, seen, protected, proofs, b, done2);
    if !ok {
      return;
    }
    VisitedLater(h1, disk.history, l1, Profile, done1, done3);
    VisitedLater(h2, disk.history, l2, Deps, done2, done3);
    listed := Listings(l1, l2, l3);
    AllSurveyed(disk.history, b, done3, listed, seen, protected, proofs);
    if disk.quiet {
      AllInspected(disk.Fs(), done3.Keys, seen, protected, proofs);
    }
  }

  // ----- The recheck -----

  /** The proof held in some state from `start` on. */
  ghost predicate HeldSince(h: seq<FS>, start: nat, pr: Proof) {
    exists c: nat | start <= c < |h| :: Proves(h[c], pr)
  }

  ghost predicate ProvedSince(h: seq<FS>, start: nat, proofs: seq<Proof>) {
    forall i | 0 <= i < |proofs| :: HeldSince(h, start, proofs[i])
  }

  lemma HeldLater(h: seq<FS>, h': seq<FS>, start: nat, pr: Proof)
    requires h <= h' && HeldSince(h, start, pr)
    ensures HeldSince(h', start, pr)
  {
    var c: nat :| start <= c < |h| && Proves(h[c], pr);
    assert Proves(h'[c], pr);
  }

  /** Every inspected executable still carries its signature. */
  method CheckExecutables(disk: Disk, proofs: seq<Proof>) returns (ok: bool)
    requires disk.Valid()
    modifies disk`history
    ensures disk.Valid() && old(disk.history) <= disk.history
    ensures ok ==> ProvedSince(disk.history, |old(disk.history)| - 1, proofs)
    ensures disk.quiet ==> disk.Fs() == old(disk.Fs())
    ensures disk.quiet && (forall i | 0 <= i < |proofs| :: Proves(disk.Fs(), proofs[i])) ==> ok
  {
    ghost var start := |disk.history| - 1;
    for i := 0 to |proofs|
      invariant disk.Valid() && old(disk.history) <= disk.history
      invariant ProvedSince(disk.history, start, proofs[..i])
      invariant disk.quiet ==> disk.Fs() == old(disk.Fs())
    {
      ghost var h := disk.history;
      disk.Interfere();
      if !Proves(disk.Fs(), proofs[i]) {
        return false;
      }
      ProvedNext(h, disk.history, start, proofs, i);
    }
    assert proofs[..|proofs|] == proofs;
    return true;
  }

  lemma ProvedNext(h: seq<FS>, h': seq<FS>, start: nat, proofs: seq<Proof>, i: nat)
    requires h <= h' && start < |h'| && i < |proofs| && ProvedSince(h, start, proofs[..i]) && Proves(Last(h'), proofs[i])
    ensures ProvedSince(h', start, proofs[..i + 1])
  {
    var next := proofs[..i + 1];
    assert Proves(h'[|h'| - 1], proofs[i]);
    forall j | 0 <= j < |next| ensures HeldSince(h', start, next[j]) {
      if j < i {
        assert next[j] == proofs[..i][j];
        HeldLater(h, h', start, next[j]);
      }
    }
  }

  /** Every executable of these proofs still carries its signature here, and its debug map is protected. */
  ghost predicate Holds(start: FS, protected: set<string>, proofs: seq<Proof>) {
    forall i | 0 <= i < |proofs| :: HoldsOne(start, protected, proofs[i])
  }

  ghost predicate HoldsOne(start: FS, protected: set<string>, pr: Proof) {
    && Proves(start, pr) && IsMachO(start, pr.path) && start[pr.path].content.debugMap.Some?
    && start[pr.path].content.debugMap.value <= protected
  }

  /** An executable that appeared no later than the listing of its directory, with an inode no executable
      had before, and stood unchanged to the end of the inspection. */
  ghost predicate Lasting(h: seq<FS>, b: nat, listed: Listings, at: nat, s: nat, p: Path) {
    && b <= s <= ListedAt(listed, p.dir) && s <= at < |h| && IsMachO(h[s], p) && Kept(h[s], h[at], p)
    && Unmet(h, b, s, InodeOf(h[s][p].stat))
  }

  ghost predicate Shielded(h: seq<FS>, start: nat, protected: set<string>, s: nat, p: Path)
    requires s < |h| && start < |h| && p in h[s] && !h[s][p].Other?
  {
    && Kept(h[s], h[start], p) && h[s][p].content.debugMap.Some? && h[s][p].content.debugMap.value <= protected
  }

  /** Every lasting executable still stands unchanged at `start`, and its whole debug map is protected. */
  ghost predicate Shields(h: seq<FS>, b: nat, listed: Listings, at: nat, start: nat, protected: set<string>)
    requires start < |h|
  {
    forall p, s: nat | Lasting(h, b, listed, at, s, p) :: Shielded(h, start, protected, s, p)
  }

  /** A passed recheck means, for the state in which it began: every proof held there, and every lasting
      executable stood there. */
  lemma RecheckShields(h1: seq<FS>, h: seq<FS>, b: nat, listed: Listings, start: nat, protected: set<string>, proofs: seq<Proof>)
    requires h1 != [] && h1 <= h && Lawful(h) && b < |h1| && |h1| - 1 <= start < |h|
    requires Guards(h1, b, listed, protected, proofs) && ProvedSince(h, start, proofs)
    ensures Holds(h[start], protected, proofs) && Shields(h, b, listed, |h1| - 1, start, protected)
  {
    forall i | 0 <= i < |proofs| ensures HoldsOne(h[start], protected, proofs[i]) {
      assert WasRead(h1, proofs[i], protected);
      ProofHolds(h1, h, start, proofs[i], protected);
    }
    forall p, s: nat | Lasting(h, b, listed, |h1| - 1, s, p) ensures Shielded(h, start, protected, s, p) {
      assert h1[..s] == h[..s] && Owed(h1, b, s, p) && HasProof(h1, s, p, proofs);
      var i, k: nat :| 0 <= i < |proofs| && StandsFor(h1, s, p, proofs[i], k);
      assert HoldsOne(h[start], protected, proofs[i]) && StandsFor(h, s, p, proofs[i], k);
      OneShield(h, s, k, start, p, proofs[i], protected);
    }
  }

  /** A proof that was read once and held in some state since `start` held at `start` as well. */
  lemma ProofHolds(h1: seq<FS>, h: seq<FS>, start: nat, pr: Proof, protected: set<string>)
    requires h1 != [] && h1 <= h && Lawful(h) && |h1| - 1 <= start < |h| && WasRead(h1, pr, protected)
    requires HeldSince(h, start, pr)
    ensures HoldsOne(h[start], protected, pr)
  {
    var k: nat, m: nat, n: nat :| ReadAt(h1, pr, protected, k, m, n);
    var c: nat :| start <= c < |h| && Proves(h[c], pr);
    assert ReadAt(h, pr, protected, k, m, n);
    Unmoved(h, k, m, c, pr.path);
    Unmoved(h, k, n, c, pr.path);
    Unmoved(h, k, start, c, pr.path);
  }

  lemma OneShield(h: seq<FS>, s: nat, k: nat, start: nat, p: Path, pr: Proof, protected: set<string>)
    requires Lawful(h) && k <= start < |h| && StandsFor(h, s, p, pr, k) && HoldsOne(h[start], protected, pr)
    ensures Shielded(h, start, protected, s, p)
  {
    Unmoved(h, k, start, start, pr.path);
    TwinsMoveTogether(h, k, start, pr.path, p);
  }
}
