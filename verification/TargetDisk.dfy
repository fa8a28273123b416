/**
 A Cargo target directory on a filesystem that others change: every state it went through, and the
 laws these states keep.
 */
module TargetDisk {
  import opened Prelude

  datatype Sig = Sig(dev: int, ino: int, size: int, mtime: int, ctime: int, nlink: int)

  datatype Stat = Stat(sig: Sig, blocks: nat) {
    function Allocated(): nat {
      blocks * 512
    }
  }

  datatype Inode = Inode(dev: int, ino: int)

  function InodeOf(stat: Stat): Inode {
    Inode(stat.sig.dev, stat.sig.ino)
  }

  datatype Magic = MachOMagic | ArchiveMagic | OtherMagic

  /** A file's bytes as its readers see them: the magic number, the N_OSO names of the symbol table
      reader, and the member list of `ar t`; `None` where the reader fails. */
  datatype Content = Content(magic: Magic, debugMap: Option<set<string>>, members: Option<set<string>>)

  /** A regular file, a symbolic link with what it leads to, or anything else. */
  datatype Node = File(stat: Stat, content: Content) | Link(stat: Stat, content: Content) | Other

  datatype Dir = Profile | Deps | Examples | Fingerprint(unit: string)

  datatype Path = Path(dir: Dir, name: string)

  type FS = map<Path, Node>

  function Text(root: string, p: Path): string {
    root + (match p.dir
            case Profile => "/"
            case Deps => "/deps/"
            case Examples => "/examples/"
            case Fingerprint(unit) => "/.fingerprint/" + unit + "/") + p.name
  }

  predicate IsFile(fs: FS, p: Path) {
    p in fs && fs[p].File?
  }

  /** Something that can be opened stands here. */
  predicate IsOpenable(fs: FS, p: Path) {
    p in fs && !fs[p].Other?
  }

  /** A path and a signature seen there. */
  datatype Proof = Proof(path: Path, sig: Sig)

  /** `p.stat()` shows this signature; it follows links. */
  predicate Shows(fs: FS, pr: Proof) {
    IsOpenable(fs, pr.path) && fs[pr.path].stat.sig == pr.sig
  }

  /** The recheck: not a link, and the signature is still this one. */
  predicate Proves(fs: FS, pr: Proof) {
    IsFile(fs, pr.path) && fs[pr.path].stat.sig == pr.sig
  }

  /** What stood at the path still stands there. */
  predicate Kept(a: FS, b: FS, p: Path) {
    p in a && p in b && b[p] == a[p]
  }

  // ----- The laws -----

  /** Two names of one inode are the same file, and its link count says so. */
  predicate Linked(fs: FS) {
    forall p, q {:trigger IsTwin(fs, p, q)} | p in fs && q in fs && IsTwin(fs, p, q) :: fs[p] == fs[q] && fs[p].stat.sig.nlink >= 2
  }

  predicate IsTwin(fs: FS, p: Path, q: Path) {
    p != q && IsFile(fs, p) && IsFile(fs, q) && InodeOf(fs[p].stat) == InodeOf(fs[q].stat)
  }

  /** A file keeps its signature only with all its names: losing one changes its link count and its
      change time. */
  predicate Together(a: FS, b: FS) {
    forall p, q {:trigger IsTwin(a, p, q)} | p in a && q in a && IsTwin(a, p, q) && Kept(a, b, p) :: Kept(a, b, q)
  }

  /** A signature that has left its path does not come back to it: what shows the same signature at two
      instants stood there, unchanged, at every instant between. */
  predicate Stays(h: seq<FS>, i: nat, j: nat, k: nat, p: Path)
    requires i <= j <= k < |h|
  {
    IsOpenable(h[i], p) && Shows(h[k], Proof(p, h[i][p].stat.sig)) ==> Kept(h[i], h[j], p)
  }

  predicate AllStay(h: seq<FS>, i: nat, j: nat, k: nat)
    requires i <= j <= k < |h|
  {
    forall p {:trigger Stays(h, i, j, k, p)} | p in h[i] :: Stays(h, i, j, k, p)
  }

  predicate LinkedAt(h: seq<FS>, i: nat)
    requires i < |h|
  {
    Linked(h[i])
  }

  predicate TogetherAt(h: seq<FS>, i: nat, j: nat)
    requires i <= j < |h|
  {
    Together(h[i], h[j])
  }

  predicate Lawful(h: seq<FS>) {
    && (forall i: nat | i < |h| :: LinkedAt(h, i))
    && (forall i: nat, j: nat | i <= j < |h| :: TogetherAt(h, i, j))
    && (forall i: nat, j: nat, k: nat | i <= j <= k < |h| :: AllStay(h, i, j, k))
  }

  lemma Unmoved(h: seq<FS>, i: nat, j: nat, k: nat, p: Path)
    requires Lawful(h) && i <= j <= k < |h| && IsOpenable(h[i], p) && Shows(h[k], Proof(p, h[i][p].stat.sig))
    ensures Kept(h[i], h[j], p) && Kept(h[i], h[k], p)
  {
    assert AllStay(h, i, j, k) && AllStay(h, i, k, k);
    assert Stays(h, i, j, k, p) && Stays(h, i, k, k, p);
  }

  lemma TwinsMoveTogether(h: seq<FS>, i: nat, j: nat, p: Path, q: Path)
    requires Lawful(h) && i <= j < |h| && IsFile(h[i], p) && IsFile(h[i], q)
    requires InodeOf(h[i][p].stat) == InodeOf(h[i][q].stat) && Kept(h[i], h[j], p)
    ensures h[i][p] == h[i][q] && Kept(h[i], h[j], q)
  {
    if p != q {
      assert LinkedAt(h, i) && TogetherAt(h, i, j);
      assert IsTwin(h[i], p, q);
    }
  }

  /** What one more state must respect for the whole history to stay lawful. */
  predicate Follows(h: seq<FS>, next: FS) {
    && Linked(next)
    && (forall i | 0 <= i < |h| :: Together(h[i], next))
    && (forall i: nat, j: nat | i <= j < |h| :: forall p | p in h[i] :: Returns(h[i], h[j], next, p))
  }

  predicate Returns(a: FS, b: FS, next: FS, p: Path) {
    IsOpenable(a, p) && Shows(next, Proof(p, a[p].stat.sig)) ==> Kept(a, b, p) && Kept(a, next, p)
  }

  lemma LawfulNext(h: seq<FS>, next: FS)
    requires h != [] && Lawful(h) && Follows(h, next)
    ensures Lawful(h + [next])
  {
    var h' := h + [next];
    forall i: nat | i < |h'| ensures LinkedAt(h', i) {
      assert i < |h| ==> LinkedAt(h, i);
    }
    forall i: nat, j: nat | i <= j < |h'| ensures TogetherAt(h', i, j) {
      if j < |h| {
        assert TogetherAt(h, i, j);
      }
    }
    forall i: nat, j: nat, k: nat | i <= j <= k < |h'| ensures AllStay(h', i, j, k) {
      forall p | p in h'[i] ensures Stays(h', i, j, k, p) {
        if k < |h| {
          assert AllStay(h, i, j, k) && Stays(h, i, j, k, p);
        } else if j < |h| {
          assert Returns(h[i], h[j], next, p);
        } else if i < |h| {
          assert Returns(h[i], h[i], next, p);
        }
      }
    }
  }

  lemma LawfulPrefix(h: seq<FS>, n: nat)
    requires Lawful(h) && n <= |h|
    ensures Lawful(h[..n])
  {
    var h' := h[..n];
    forall i: nat | i < |h'| ensures LinkedAt(h', i) {
      assert LinkedAt(h, i);
    }
    forall i: nat, j: nat | i <= j < |h'| ensures TogetherAt(h', i, j) {
      assert TogetherAt(h, i, j);
    }
    forall i: nat, j: nat, k: nat | i <= j <= k < |h'| ensures AllStay(h', i, j, k) {
      assert AllStay(h, i, j, k);
      forall p | p in h'[i] ensures Stays(h', i, j, k, p) {
        assert Stays(h, i, j, k, p);
      }
    }
  }

  lemma SameFollows(h: seq<FS>)
    requires h != [] && Lawful(h)
    ensures Follows(h, h[|h| - 1])
  {
    var last := |h| - 1;
    assert LinkedAt(h, last);
    forall i: nat | i < |h| ensures Together(h[i], h[last]) {
      assert TogetherAt(h, i, last);
    }
    forall i: nat, j: nat, p | i <= j < |h| && p in h[i] ensures Returns(h[i], h[j], h[last], p) {
      assert AllStay(h, i, j, last) && AllStay(h, i, last, last);
      assert Stays(h, i, j, last, p) && Stays(h, i, last, last, p);
    }
  }

  lemma RemovalFollows(h: seq<FS>, o: Path)
    requires h != [] && Lawful(h)
    requires IsFile(h[|h| - 1], o) && h[|h| - 1][o].stat.sig.nlink == 1
    ensures Follows(h, h[|h| - 1] - {o})
  {
    var last := |h| - 1;
    var next := h[last] - {o};
    assert LinkedAt(h, last);
    forall p, q | p in next && q in next && IsTwin(next, p, q) ensures next[p] == next[q] && next[p].stat.sig.nlink >= 2 {
      assert IsTwin(h[last], p, q);
    }
    forall i: nat | i < |h| ensures Together(h[i], next) {
      forall p, q | p in h[i] && q in h[i] && IsTwin(h[i], p, q) && Kept(h[i], next, p) ensures Kept(h[i], next, q) {
        assert TogetherAt(h, i, last) && Kept(h[i], h[last], p);
        assert IsTwin(h[last], p, q);
      }
    }
    forall i: nat, j: nat, p | i <= j < |h| && p in h[i] ensures Returns(h[i], h[j], next, p) {
      assert AllStay(h, i, j, last) && AllStay(h, i, last, last);
      assert Stays(h, i, j, last, p) && Stays(h, i, last, last, p);
    }
  }

  // ----- The disk -----

  /** A path, and the state of the disk it was unlinked from. */
  datatype Unlink = Unlink(path: Path, at: nat)

  /** All states from this one on are the same. */
  ghost predicate Still(h: seq<FS>, from: nat) {
    forall i | from <= i < |h| && from < |h| :: h[i] == h[from]
  }

  class Disk {
    /** Every state so far, the last one being the present. */
    var history: seq<FS>
    ghost var unlinked: seq<Unlink>
    /** Nobody else changes this filesystem. */
    const quiet: bool

    constructor (fs: FS, quiet: bool)
      requires Linked(fs)
      ensures Valid() && history == [fs] && this.quiet == quiet && unlinked == []
    {
      history := [fs];
      this.quiet := quiet;
      unlinked := [];
    }

    ghost predicate Valid()
      reads this
    {
      history != [] && Lawful(history)
    }

    function Fs(): FS
      requires history != []
      reads this
    {
      history[|history| - 1]
    }

    /** Others run: any next state that keeps the laws. */
    method Interfere()
      requires Valid()
      modifies this`history
      ensures Valid() && old(history) < history && |history| == |old(history)| + 1
      ensures quiet ==> Fs() == old(Fs())
    {
      var next := Fs();
      SameFollows(history);
      if !quiet {
        var any: FS := *;
        if Follows(history, any) {
          next := any;
        }
      }
      LawfulNext(history, next);
      history := history + [next];
    }

    method Remove(p: Path)
      requires Valid() && IsFile(Fs(), p) && Fs()[p].stat.sig.nlink == 1
      modifies this
      ensures Valid() && history == old(history) + [old(Fs()) - {p}]
      ensures unlinked == old(unlinked) + [Unlink(p, |old(history)| - 1)]
    {
      RemovalFollows(history, p);
      LawfulNext(history, Fs() - {p});
      unlinked := unlinked + [Unlink(p, |history| - 1)];
      history := history + [Fs() - {p}];
    }
  }
}
