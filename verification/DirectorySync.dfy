/** `SyncDirectory`: a breadth-first walk over the remote tree that deletes and updates, then
    directory creation, then uploads of what the walk did not meet. */
module DirectorySync {
  import opened Timestamps
  import opened RemoteFiles

  datatype LocalFile = LocalFile(seconds: int, data: seq<char>)

  /** The local files to mirror, keyed by the remote path they belong at. */
  type Wanted = map<Path, LocalFile>

  /** The remote file compares equal to the local one. */
  predicate Matches(node: Node, file: LocalFile)
  {
    && node.File?
    && Usable(node.change) == SafeTimestamp(file.seconds)
    && |node.data| == |file.data|
  }

  /** A file changed since it was sent still compares equal, and the change is missed, exactly when its size is
      the same and the times are a multiple of 2^27 seconds apart. */
  lemma ChangeMissedIff(node: Node, was: LocalFile, now: LocalFile)
    requires Matches(node, was)
    ensures Matches(node, now) <==>
            |now.data| == |was.data| && (Raised(now.seconds) - Raised(was.seconds)) % PERIOD == 0
  {
    SameTimeIff(now.seconds, was.seconds);
  }

  /** A change made four years and three months later that is missed. */
  lemma ChangeIsMissed()
    ensures var was, now := LocalFile(1_700_000_000, "a"), LocalFile(1_700_000_000 + PERIOD, "b");
            Matches(File(SafeTimestamp(was.seconds), was.data), now)
  {
    var was := LocalFile(1_700_000_000, "a");
    SkewIsHidden(was.seconds, 0);
    ChangeMissedIff(File(SafeTimestamp(was.seconds), was.data), was, LocalFile(1_700_000_000 + PERIOD, "b"));
  }

  /** `p` holds `file`: either its data was sent, or it was there before and matched. */
  ghost predicate Synced(fs0: Tree, fs: Tree, p: Path, file: LocalFile)
  {
    && p in fs && Matches(fs[p], file)
    && (fs[p].data == file.data || (p in fs0 && fs0[p] == fs[p]))
  }

  /** Local files lie strictly below the root, and none of them is a directory of another. */
  ghost predicate LocalTree(root: Path, want: Wanted)
  {
    && root != []
    && (forall p | p in want :: root <= p && root != p)
    && (forall p, q | p in want && q in want && p <= q :: p == q)
  }

  /** Directories that directly hold a local file. */
  function Populated(want: Wanted): set<Path>
  {
    set p | p in want && p != [] :: Parent(p)
  }

  lemma PopulatedAreNotFiles(root: Path, want: Wanted, d: Path)
    requires LocalTree(root, want) && d in Populated(want)
    ensures root <= d && d !in want
  {
    var p :| p in want && p != [] && Parent(p) == d;
    assert d <= p && d != p;
  }

  // ---------------------------------------------------------------- prefixes

  lemma PrefixOfChild(f: Path, c: Path)
    requires c != []
    ensures f <= c && f != c ==> f <= Parent(c)
  {
  }

  /** All directories above an entry are directories. */
  lemma {:induction false} AncestorIsDir(fs: Tree, a: Path, p: Path)
    requires WellFormed(fs) && p in fs && a <= p && a != p && a != []
    ensures IsDir(fs, a)
    decreases |p|
  {
    PrefixOfChild(a, p);
    if a != Parent(p) { AncestorIsDir(fs, a, Parent(p)); }
  }

  /** A directory without children has nothing below it. */
  lemma {:induction false} ChildOnTheWay(fs: Tree, dir: Path, p: Path) returns (c: Path)
    requires WellFormed(fs) && p in fs && dir <= p && dir != p && dir != []
    ensures IsChild(fs, dir, c) && c <= p
    decreases |p|
  {
    if Parent(p) == dir {
      c := p;
    } else {
      PrefixOfChild(dir, p);
      c := ChildOnTheWay(fs, dir, Parent(p));
    }
  }

  // ---------------------------------------------------------------- uploads

  ghost predicate DirsKept(fs0: Tree, fs: Tree)
  {
    forall p | IsDir(fs0, p) :: IsDir(fs, p)
  }

  method Upload(remote: Remote, p: Path, file: LocalFile) returns (ok: bool)
    requires WellFormed(remote.fs) && |p| > 1
    modifies remote
    ensures WellFormed(remote.fs)
    ensures ok ==> p in remote.fs && Matches(remote.fs[p], file) && remote.fs[p].data == file.data
    ensures ok ==> !IsDir(old(remote.fs), p) && remote.writes > old(remote.writes)
    ensures remote.writes >= old(remote.writes) && DirsKept(old(remote.fs), remote.fs)
    ensures remote.fs == old(remote.fs) || (p in remote.fs && remote.fs[p].File? &&
            remote.fs == old(remote.fs)[p := remote.fs[p]])
    ensures remote.reliable && !IsDir(old(remote.fs), p) && IsDir(old(remote.fs), Parent(p)) ==> ok
  {
    ok := remote.SendFile(p, file.data);
    if !ok {
      return;
    }
    var change := SafeXFATTimestamp(file.seconds);
    ok := remote.SetChangeTime(p, change);
    if ok {
      SkewIsHidden(file.seconds, remote.fs[p].change - change);
    }
  }

  // ---------------------------------------------------------------- recursive deletion

  ghost function Below(fs: Tree, dir: Path): set<Path>
  {
    set p | p in fs && dir <= p
  }

  /** Entries may have gone, but only at or below `dir`, and nothing else has changed. */
  ghost predicate OnlyBelow(fs0: Tree, fs: Tree, dir: Path)
  {
    && (forall p | p in fs :: p in fs0 && fs[p] == fs0[p])
    && (forall p | p in fs0 && !(dir <= p) :: p in fs)
  }

  /** The children of a directory, split by kind. */
  method FetchDirectoryEntries(remote: Remote, dir: Path) returns (ok: bool, dirs: set<Path>, files: set<Path>)
    ensures remote.reliable && IsDir(remote.fs, dir) ==> ok
    ensures ok ==> IsDir(remote.fs, dir)
    ensures ok ==> forall p :: p in dirs <==> IsChild(remote.fs, dir, p) && remote.fs[p].Dir?
    ensures ok ==> forall p :: p in files <==> IsChild(remote.fs, dir, p) && remote.fs[p].File?
  {
    dirs, files := {}, {};
    var entries;
    ok, entries := remote.DirList(dir);
    if !ok {
      return;
    }
    ghost var all := entries;
    while entries != {}
      invariant entries <= all
      invariant forall p :: p in dirs <==> p in all && p !in entries && remote.fs[p].Dir?
      invariant forall p :: p in files <==> p in all && p !in entries && remote.fs[p].File?
      decreases entries
    {
      var p :| p in entries;
      entries := entries - {p};
      if remote.fs[p].Dir? {
        dirs := dirs + {p};
      } else {
        files := files + {p};
      }
    }
  }

  method DeleteFiles(remote: Remote, files: set<Path>) returns (ok: bool)
    requires WellFormed(remote.fs)
    requires forall p | p in files :: IsFile(remote.fs, p)
    modifies remote
    ensures WellFormed(remote.fs)
    ensures forall p | p in remote.fs :: p in old(remote.fs) && remote.fs[p] == old(remote.fs)[p]
    ensures forall p | p in old(remote.fs) && p !in files :: p in remote.fs
    ensures ok ==> remote.fs == old(remote.fs) - files
    ensures remote.reliable ==> ok
  {
    ok := true;
    var left := files;
    while left != {}
      invariant left <= files && ok
      invariant WellFormed(remote.fs) && remote.fs == old(remote.fs) - (files - left)
      decreases left
    {
      var p :| p in left;
      ok := remote.DeleteFile(p);
      if !ok {
        return;
      }
      left := left - {p};
    }
  }

  /** Files first, then the subdirectories, then the directory itself. */
  method DeleteRecursively(remote: Remote, dir: Path) returns (ok: bool)
    requires WellFormed(remote.fs) && dir != []
    modifies remote
    ensures WellFormed(remote.fs) && OnlyBelow(old(remote.fs), remote.fs, dir)
    ensures ok ==> IsDir(old(remote.fs), dir) && remote.fs == Without(old(remote.fs), dir)
    ensures remote.reliable && IsDir(old(remote.fs), dir) ==> ok
    decreases Below(remote.fs, dir), 1
  {
    ghost var start := remote.fs;
    var dirs, files;
    ok, dirs, files := FetchDirectoryEntries(remote, dir);
    if !ok {
      return;
    }
    ok := DeleteFiles(remote, files);
    if !ok {
      return;
    }
    assert Below(remote.fs, dir) <= Below(start, dir);
    ok := DeleteAll(remote, dir, dirs);
    if !ok {
      return;
    }
    NothingBelow(start, remote.fs, dir, dirs + files);
    LastOne(start, remote.fs, dir);
    ok := remote.DeleteDir(dir);
  }

  lemma LastOne(fs0: Tree, fs: Tree, dir: Path)
    requires OnlyBelow(fs0, fs, dir) && dir != [] && IsDir(fs, dir)
    requires forall p | p in fs && dir <= p :: p == dir
    ensures fs - {dir} == Without(fs0, dir)
    ensures forall q :: !IsChild(fs, dir, q)
  {
  }

  method DeleteAll(remote: Remote, dir: Path, dirs: set<Path>) returns (ok: bool)
    requires WellFormed(remote.fs) && dir != [] && IsDir(remote.fs, dir)
    requires forall p | p in dirs :: IsChild(remote.fs, dir, p) && remote.fs[p].Dir?
    modifies remote
    ensures WellFormed(remote.fs) && OnlyBelow(old(remote.fs), remote.fs, dir) && IsDir(remote.fs, dir)
    ensures ok ==> forall p | p in dirs :: p !in remote.fs
    ensures remote.reliable ==> ok
    decreases Below(remote.fs, dir), 0
  {
    ghost var start := remote.fs;
    ok := true;
    var left := dirs;
    while left != {}
      invariant left <= dirs && ok
      invariant WellFormed(remote.fs) && OnlyBelow(start, remote.fs, dir) && IsDir(remote.fs, dir)
      invariant forall p | p in dirs :: p in left <==> p in remote.fs
      decreases left
    {
      var p :| p in left;
      assert IsChild(start, dir, p) && dir in Below(start, dir) && dir !in Below(remote.fs, p);
      assert Below(remote.fs, p) <= Below(start, dir);
      assert forall q | q in dirs && p <= q :: q == p;
      ok := DeleteRecursively(remote, p);
      if !ok {
        return;
      }
      left := left - {p};
    }
  }

  lemma NothingBelow(fs0: Tree, fs: Tree, dir: Path, entries: set<Path>)
    requires WellFormed(fs0) && WellFormed(fs) && dir != []
    requires forall p | p in fs :: p in fs0
    requires forall p | IsChild(fs0, dir, p) :: p in entries
    requires forall p | p in entries :: p !in fs
    ensures forall p | p in fs && dir <= p :: p == dir
  {
    forall p | p in fs && dir <= p
      ensures p == dir
    {
      if p != dir {
        var c := ChildOnTheWay(fs, dir, p);
        assert IsChild(fs0, dir, c);
      }
    }
  }

  // ---------------------------------------------------------------- the walk

  /** What the mirror keeps below the root. */
  ghost predicate Kept(fs: Tree, want: Wanted, p: Path)
  {
    p in fs && if fs[p].Dir? then p in Populated(want) else p in want
  }

  /** How far the walk has come: directories entered, directories waiting in the queue, and files
      of the directory being processed that are still to be looked at. */
  datatype Progress = Progress(entered: set<Path>, queued: set<Path>, files: set<Path>)

  ghost predicate Strictly(root: Path, p: Path) { root <= p && root != p }

  /** With every directory below the root its parent is there too. */
  ghost predicate ClosedUpwards(root: Path, dirs: set<Path>)
  {
    forall d {:trigger Parent(d)} | d in dirs && Strictly(root, d) && Parent(d) != root :: Parent(d) in dirs
  }

  /** Invariant of the walk; `fs0` is the tree it started from. */
  ghost predicate WalkInv(fs0: Tree, fs: Tree, root: Path, want: Wanted, delete: bool, pending: set<Path>, w: Progress)
  {
    && WellFormed(fs) && pending <= want.Keys
    && Shape(fs, root, want, w)
    && Complete(fs, root, want, delete, pending, w)
    && InPlace(fs0, fs, want, pending, w)
    && Frame(fs0, fs, root, want, delete, pending)
  }

  /** Entered directories form a tree from the root, each belongs there, and waiting directories
      and files to look at hang off entered directories. */
  ghost predicate Shape(fs: Tree, root: Path, want: Wanted, w: Progress)
  {
    && (root in w.entered || root in w.queued)
    && (forall d | d in w.entered :: IsDir(fs, d) && (d == root || (Strictly(root, d) && d in Populated(want))))
    && (forall d | d in w.queued :: IsDir(fs, d) && d !in w.entered && (d == root || Strictly(root, d)))
    && (forall p | p in w.files :: IsFile(fs, p) && Strictly(root, p))
    && (forall p {:trigger Parent(p)} | p in w.entered + w.queued + w.files && Strictly(root, p) ::
        Parent(p) in w.entered)
  }

  /** Nothing in an entered directory has been overlooked; without deletion, nothing that is wanted. */
  ghost predicate Complete(fs: Tree, root: Path, want: Wanted, delete: bool, pending: set<Path>, w: Progress)
  {
    forall p {:trigger Parent(p)} | p in fs && Strictly(root, p) && Parent(p) in w.entered ::
      Seen(fs, want, delete, pending, w, p)
  }

  ghost predicate Seen(fs: Tree, want: Wanted, delete: bool, pending: set<Path>, w: Progress, p: Path)
  {
    && p in fs
    && if fs[p].Dir? then p in w.entered || p in w.queued || (!delete && p !in Populated(want))
       else p in w.files || (p in want && p !in pending) || (!delete && p !in want)
  }

  /** Files dealt with hold their local data and will not be met again. */
  ghost predicate InPlace(fs0: Tree, fs: Tree, want: Wanted, pending: set<Path>, w: Progress)
  {
    && (forall p | p in want && p !in pending :: Synced(fs0, fs, p, want[p]) && p !in w.files)
    && (forall p {:trigger Parent(p)} | p in want && p !in pending && p != [] :: Parent(p) in w.entered)
  }

  /** Entries only disappear below the root and only when told to; only local files change. */
  ghost predicate Frame(fs0: Tree, fs: Tree, root: Path, want: Wanted, delete: bool, pending: set<Path>)
  {
    && (forall p | p in fs :: p in fs0)
    && (forall p | p in fs && fs[p] != fs0[p] :: p in want && p !in pending && fs0[p].File?)
    && (forall p | p in fs0 && (!delete || !Strictly(root, p)) :: p in fs)
  }

  lemma {:induction false} EnteredAbove(fs: Tree, root: Path, want: Wanted, w: Progress, q: Path, d: Path)
    requires Shape(fs, root, want, w) && root != []
    requires d in w.entered && root <= q
    ensures q <= d ==> q in w.entered
    decreases |d|
  {
    if q <= d && q != d {
      PrefixOfChild(q, d);
      EnteredAbove(fs, root, want, w, q, Parent(d));
    }
  }

  lemma InvStart(fs: Tree, root: Path, want: Wanted, delete: bool)
    requires WellFormed(fs) && IsDir(fs, root)
    ensures WalkInv(fs, fs, root, want, delete, want.Keys, Progress({}, {root}, {}))
  {
  }

  lemma ShapeAfter(fs: Tree, fs': Tree, root: Path, want: Wanted, w: Progress, w': Progress)
    requires Shape(fs, root, want, w)
    requires w'.entered == w.entered && w'.queued <= w.queued && w'.files <= w.files
    requires root in w.entered || root in w'.queued
    requires forall p | p in w'.entered + w'.queued + w'.files :: p in fs' && p in fs && fs'[p] == fs[p]
    ensures Shape(fs', root, want, w')
  {
  }

  lemma CompleteAfter(fs: Tree, fs': Tree, root: Path, want: Wanted, delete: bool, pending: set<Path>,
                      pending': set<Path>,
                      w: Progress, w': Progress)
    requires Complete(fs, root, want, delete, pending, w) && w'.entered == w.entered
    requires forall p | p in fs' :: p in fs
    requires forall p | p in fs' && Seen(fs, want, delete, pending, w, p) :: Seen(fs', want, delete, pending', w', p)
    ensures Complete(fs', root, want, delete, pending', w')
  {
  }

  lemma InPlaceAfter(fs0: Tree, fs: Tree, fs': Tree, want: Wanted, pending: set<Path>, w: Progress, w': Progress)
    requires InPlace(fs0, fs, want, pending, w) && w'.entered == w.entered && w'.files <= w.files
    requires forall p | p in want && p !in pending && p in fs :: p in fs' && fs'[p] == fs[p]
    ensures InPlace(fs0, fs', want, pending, w')
  {
  }

  /** Deleting the subtree of a waiting directory. */
  lemma InvDelete(fs0: Tree, fs: Tree, fs': Tree, root: Path, want: Wanted, pending: set<Path>, w: Progress, q: Path)
    requires WalkInv(fs0, fs, root, want, true, pending, w) && root != []
    requires q in w.queued && q != root && fs' == Without(fs, q) && WellFormed(fs')
    ensures WalkInv(fs0, fs', root, want, true, pending, w.(queued := w.queued - {q}))
  {
    var w' := w.(queued := w.queued - {q});
    DeleteSpares(fs, fs', root, want, w, q);
    ShapeAfter(fs, fs', root, want, w, w');
    CompleteAfter(fs, fs', root, want, true, pending, pending, w, w');
    forall p | p in want && p !in pending && p in fs
      ensures p in fs'
    {
      assert Synced(fs0, fs, p, want[p]) && Parent(p) in w.entered;
    }
    InPlaceAfter(fs0, fs, fs', want, pending, w, w');
  }

  lemma DeleteSpares(fs: Tree, fs': Tree, root: Path, want: Wanted, w: Progress, q: Path)
    requires Shape(fs, root, want, w) && root != [] && WellFormed(fs)
    requires q in w.queued && q != root && fs' == Without(fs, q)
    ensures forall p | p in w.entered :: p in fs'
    ensures forall p {:trigger Parent(p)} | p in fs && p != [] && Parent(p) in w.entered && p != q :: p in fs'
    ensures forall p | p in w.queued + w.files && p != q :: p in fs'
  {
    forall p | p in w.entered
      ensures p in fs'
    {
      EnteredAbove(fs, root, want, w, q, p);
    }
    forall p {:trigger Parent(p)} | p in fs && p != [] && Parent(p) in w.entered && p != q
      ensures p in fs'
    {
      EnteredAbove(fs, root, want, w, q, Parent(p));
      PrefixOfChild(q, p);
    }
    forall p | p in w.queued + w.files && p != q
      ensures p in fs'
    {
      if p == root {
        assert !(q <= root);
      } else {
        assert Parent(p) in w.entered;
      }
    }
  }

  /** Leaving the subtree of a waiting directory alone. */
  lemma InvSkip(fs0: Tree, fs: Tree, root: Path, want: Wanted, pending: set<Path>, w: Progress, q: Path)
    requires WalkInv(fs0, fs, root, want, false, pending, w) && q in w.queued && q != root && q !in Populated(want)
    ensures WalkInv(fs0, fs, root, want, false, pending, w.(queued := w.queued - {q}))
  {
  }

  /** Entering a waiting directory. */
  lemma InvEnter(fs0: Tree, fs: Tree, root: Path, want: Wanted, delete: bool, pending: set<Path>, w: Progress,
                 q: Path, dirs: set<Path>, files: set<Path>)
    requires WalkInv(fs0, fs, root, want, delete, pending, w) && root != [] && w.files == {}
    requires q in w.queued && (q == root || q in Populated(want))
    requires forall p :: p in dirs <==> IsChild(fs, q, p) && fs[p].Dir?
    requires forall p :: p in files <==> IsChild(fs, q, p) && fs[p].File?
    ensures dirs !! w.queued
    ensures WalkInv(fs0, fs, root, want, delete, pending, Progress(w.entered + {q}, w.queued - {q} + dirs, files))
  {
    var w' := Progress(w.entered + {q}, w.queued - {q} + dirs, files);
    EnterShape(fs, root, want, w, q, dirs, files);
    forall p {:trigger Parent(p)} | p in fs && Strictly(root, p) && Parent(p) in w'.entered
      ensures Seen(fs, want, delete, pending, w', p)
    {
      if Parent(p) == q { assert IsChild(fs, q, p); } else { assert Seen(fs, want, delete, pending, w, p); }
    }
    forall p | p in want && p !in pending
      ensures p !in files
    {
      assert Synced(fs0, fs, p, want[p]) && Parent(p) in w.entered;
    }
  }

  lemma EnterShape(fs: Tree, root: Path, want: Wanted, w: Progress, q: Path, dirs: set<Path>, files: set<Path>)
    requires Shape(fs, root, want, w) && root != [] && w.files == {}
    requires q in w.queued && (q == root || q in Populated(want))
    requires forall p :: p in dirs <==> IsChild(fs, q, p) && fs[p].Dir?
    requires forall p :: p in files <==> IsChild(fs, q, p) && fs[p].File?
    ensures dirs !! w.queued
    ensures Shape(fs, root, want, Progress(w.entered + {q}, w.queued - {q} + dirs, files))
  {
    forall p | p in dirs + files
      ensures Strictly(root, p) && p !in w.entered && p !in w.queued && p != q && Parent(p) == q
    {
      assert IsChild(fs, q, p) && p != root;
    }
  }

  /** A wanted file of the current directory is in place. */
  lemma InvFile(fs0: Tree, fs: Tree, fs': Tree, root: Path, want: Wanted, delete: bool, pending: set<Path>,
                w: Progress, q: Path)
    requires WalkInv(fs0, fs, root, want, delete, pending, w) && q in w.files && WellFormed(fs')
    requires q in pending && Synced(fs0, fs', q, want[q]) && fs' == fs[q := fs'[q]]
    ensures WalkInv(fs0, fs', root, want, delete, pending - {q}, w.(files := w.files - {q}))
  {
    var w' := w.(files := w.files - {q});
    ShapeAfter(fs, fs', root, want, w, w');
    CompleteAfter(fs, fs', root, want, delete, pending, pending - {q}, w, w');
    assert Parent(q) in w.entered;
    forall p | p in want && p !in pending
      ensures Synced(fs0, fs', p, want[p])
    {
      assert Synced(fs0, fs, p, want[p]);
    }
  }

  /** An unwanted file of the current directory is gone, or left alone. */
  lemma InvUnwanted(fs0: Tree, fs: Tree, fs': Tree, root: Path, want: Wanted, delete: bool, pending: set<Path>,
                    w: Progress, q: Path)
    requires WalkInv(fs0, fs, root, want, delete, pending, w) && q in w.files && WellFormed(fs')
    requires q !in pending && fs' == if delete then fs - {q} else fs
    ensures WalkInv(fs0, fs', root, want, delete, pending, w.(files := w.files - {q}))
  {
    var w' := w.(files := w.files - {q});
    ShapeAfter(fs, fs', root, want, w, w');
    CompleteAfter(fs, fs', root, want, delete, pending, pending, w, w');
    InPlaceAfter(fs0, fs, fs', want, pending, w, w');
  }

  /** When the queue has run dry, everything below the root belongs there. */
  lemma {:induction false} AllEntered(fs0: Tree, fs: Tree, root: Path, want: Wanted, pending: set<Path>, w: Progress,
                                      p: Path)
    requires WalkInv(fs0, fs, root, want, true, pending, w) && LocalTree(root, want)
    requires w.queued == {} && w.files == {}
    requires p in fs && Strictly(root, p)
    ensures Parent(p) in w.entered
    ensures Kept(fs, want, p) && p !in pending
    decreases |p|
  {
    if Parent(p) != root {
      PrefixOfChild(root, p);
      AllEntered(fs0, fs, root, want, pending, w, Parent(p));
    }
    assert Seen(fs, want, true, pending, w, p);
    if fs[p].Dir? { PopulatedAreNotFiles(root, want, p); }
  }

  /** If every directory on the way is populated, the walk comes to every populated directory. */
  lemma {:induction false} PopulatedEntered(fs0: Tree, fs: Tree, root: Path, want: Wanted, delete: bool,
                                            pending: set<Path>, w: Progress, d: Path)
    requires WalkInv(fs0, fs, root, want, delete, pending, w) && LocalTree(root, want)
    requires w.queued == {} && ClosedUpwards(root, Populated(want))
    requires IsDir(fs, d) && root <= d && (d == root || d in Populated(want))
    ensures d in w.entered
    decreases |d|
  {
    if d != root {
      PrefixOfChild(root, d);
      PopulatedEntered(fs0, fs, root, want, delete, pending, w, Parent(d));
      assert Seen(fs, want, delete, pending, w, d);
    }
  }

  /** A directory on the way that is not populated hides what is below it. */
  lemma HiddenStaysPending(fs0: Tree, fs: Tree, root: Path, want: Wanted, delete: bool, pending: set<Path>, w: Progress)
      returns (p: Path)
    requires WalkInv(fs0, fs, root, want, delete, pending, w) && LocalTree(root, want)
    requires !ClosedUpwards(root, Populated(want))
    ensures p in pending
  {
    var d :| d in Populated(want) && Strictly(root, d) && Parent(d) != root && Parent(d) !in Populated(want);
    p :| p in want && p != [] && Parent(p) == d;
  }
}
