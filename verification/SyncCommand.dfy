/** The sync command end to end: the walk, the directory hierarchy and the uploads. */
module SyncCommand {
  import opened Timestamps
  import opened RemoteFiles
  import opened DirectorySync

  /** The remote root holds the local files, the directories that hold them, and nothing else. */
  ghost predicate Mirror(fs: Tree, root: Path, want: Wanted)
  {
    && IsDir(fs, root)
    && (forall p | p in fs && Strictly(root, p) :: Kept(fs, want, p))
    && (forall p | p in want :: p in fs && Matches(fs[p], want[p]))
    && (forall d | d in Populated(want) :: IsDir(fs, d))
  }

  /** Every local file is there and compares equal. */
  ghost predicate InSync(fs: Tree, root: Path, want: Wanted)
  {
    IsDir(fs, root) && forall p | p in want :: p in fs && Matches(fs[p], want[p])
  }

  /** The walk has nothing to do. */
  ghost predicate Settled(fs: Tree, root: Path, want: Wanted, delete: bool)
  {
    InSync(fs, root, want) && (delete ==> Mirror(fs, root, want))
  }

  /** Outside the root nothing changes, except that directories leading to it may be created. */
  ghost predicate OutsideKept(fs0: Tree, fs: Tree, root: Path)
  {
    && (forall p | p in fs0 && !(root <= p) :: p in fs && fs[p] == fs0[p])
    && (forall p | p in fs && p !in fs0 && !(root <= p) :: p <= root && |p| > 1 && fs[p].Dir?)
  }

  /** Every directory between the root and a local file holds a local file itself. */
  ghost predicate AncestorsPopulated(root: Path, want: Wanted)
  {
    ClosedUpwards(root, Populated(want))
  }

  /** The root can exist: its drive does and no file is in the way. */
  ghost predicate RootReachable(fs: Tree, root: Path)
  {
    && root != [] && IsDir(fs, root[..1])
    && forall k | 1 <= k <= |root| && root[..k] in fs :: fs[root[..k]].Dir?
  }

  // ---------------------------------------------------------------- one file of the walk

  method ProcessFile(remote: Remote, p: Path, want: Wanted, delete: bool, pending: set<Path>)
      returns (ok: bool, pending': set<Path>)
    requires WellFormed(remote.fs) && IsFile(remote.fs, p) && |p| > 1 && pending <= want.Keys
    modifies remote
    ensures WellFormed(remote.fs)
    ensures forall q | q != p :: (q in remote.fs <==> q in old(remote.fs)) && (q in remote.fs ==>
            remote.fs[q] == old(remote.fs)[q])
    ensures ok && p in pending ==>
              && pending' == pending - {p}
              && p in remote.fs && remote.fs == old(remote.fs)[p := remote.fs[p]]
              && Synced(old(remote.fs), remote.fs, p, want[p])
    ensures ok && p !in pending ==>
              pending' == pending && remote.fs == if delete then old(remote.fs) - {p} else old(remote.fs)
    ensures (if p in pending then Matches(old(remote.fs)[p], want[p]) else !delete) ==>
              remote.fs == old(remote.fs) && remote.writes == old(remote.writes)
    ensures remote.reliable ==> ok
  {
    ok, pending' := true, pending;
    assert IsDir(remote.fs, Parent(p));
    if p in pending {
      pending' := pending - {p};
      if !Matches(remote.fs[p], want[p]) {
        ok := Upload(remote, p, want[p]);
      }
    } else if delete {
      ok := remote.DeleteFile(p);
    }
  }

  method ProcessFiles(remote: Remote, root: Path, want: Wanted, delete: bool, pending: set<Path>,
                      ghost fs0: Tree, ghost w: Progress, files: set<Path>)
      returns (ok: bool, pending': set<Path>)
    requires LocalTree(root, want) && w.files == files
    requires WalkInv(fs0, remote.fs, root, want, delete, pending, w)
    modifies remote
    ensures WellFormed(remote.fs) && OutsideKept(fs0, remote.fs, root)
    ensures ok ==> WalkInv(fs0, remote.fs, root, want, delete, pending', w.(files := {}))
    ensures ok && Settled(fs0, root, want, delete) && old(remote.fs) == fs0 ==>
              remote.fs == fs0 && remote.writes == old(remote.writes)
    ensures remote.reliable ==> ok
  {
    ok, pending' := true, pending;
    var left := files;
    ghost var w' := w;
    while left != {}
      invariant left <= files && w' == w.(files := left) && ok
      invariant WalkInv(fs0, remote.fs, root, want, delete, pending', w')
      invariant Settled(fs0, root, want, delete) && old(remote.fs) == fs0 ==>
                  remote.fs == fs0 && remote.writes == old(remote.writes)
      decreases left
    {
      var p :| p in left;
      ghost var before, held := remote.fs, pending';
      assert before[p] == fs0[p];
      ok, pending' := ProcessFile(remote, p, want, delete, pending');
      if !ok {
        return;
      }
      if p in held {
        InvFile(fs0, before, remote.fs, root, want, delete, held, w', p);
      } else {
        InvUnwanted(fs0, before, remote.fs, root, want, delete, held, w', p);
      }
      left := left - {p};
      w' := w'.(files := left);
    }
  }

  // ---------------------------------------------------------------- the queue

  ghost predicate QueueIs(queue: seq<Path>, s: set<Path>)
  {
    && (forall i | 0 <= i < |queue| :: queue[i] in s)
    && (forall p | p in s :: p in queue)
    && (forall i, j | 0 <= i < j < |queue| :: queue[i] != queue[j])
  }

  lemma Pop(queue: seq<Path>, s: set<Path>)
    requires queue != [] && QueueIs(queue, s)
    ensures QueueIs(queue[1..], s - {queue[0]})
  {
    forall p | p in s - {queue[0]}
      ensures p in queue[1..]
    {
      var i :| 0 <= i < |queue| && queue[i] == p;
      assert queue[1..][i - 1] == p;
    }
  }

  lemma Push(queue: seq<Path>, s: set<Path>, p: Path)
    requires QueueIs(queue, s) && p !in s
    ensures QueueIs(queue + [p], s + {p})
  {
    forall q | q in s + {p}
      ensures q in queue + [p]
    {
      if q == p { assert (queue + [p])[|queue|] == p; }
    }
  }

  method Enqueue(queue: seq<Path>, dirs: set<Path>, ghost s: set<Path>) returns (queue': seq<Path>)
    requires QueueIs(queue, s) && dirs !! s
    ensures QueueIs(queue', s + dirs)
  {
    queue' := queue;
    var left := dirs;
    ghost var all := s;
    while left != {}
      invariant left <= dirs && left !! all && all + left == s + dirs
      invariant QueueIs(queue', all)
      decreases left
    {
      var p :| p in left;
      Push(queue', all, p);
      queue', left, all := queue' + [p], left - {p}, all + {p};
    }
  }

  // ---------------------------------------------------------------- the walk

  /** What the walk leaves behind when it succeeds. */
  ghost predicate Walked(fs0: Tree, fs: Tree, root: Path, want: Wanted, delete: bool, pending: set<Path>)
  {
    && pending <= want.Keys
    && (forall p | p in want && p !in pending :: Synced(fs0, fs, p, want[p]))
    && Frame(fs0, fs, root, want, delete, pending)
    && (root in fs <==> root in fs0)
    && (delete ==> forall p | p in fs && Strictly(root, p) :: Kept(fs, want, p) && p !in pending)
  }

  method WalkRemoteDir(remote: Remote, root: Path, want: Wanted, delete: bool) returns (ok: bool, pending: set<Path>)
    requires WellFormed(remote.fs) && LocalTree(root, want)
    modifies remote
    ensures WellFormed(remote.fs) && OutsideKept(old(remote.fs), remote.fs, root)
    ensures ok ==> root in remote.fs ==> IsDir(remote.fs, root)
    ensures ok ==> Walked(old(remote.fs), remote.fs, root, want, delete, pending)
    ensures ok && Settled(old(remote.fs), root, want, delete) ==>
              && remote.fs == old(remote.fs) && remote.writes == old(remote.writes)
              && (pending == {} <==> AncestorsPopulated(root, want))
    ensures remote.reliable && (root in old(remote.fs) ==> IsDir(old(remote.fs), root)) ==> ok
  {
    ghost var fs0, writes0 := remote.fs, remote.writes;
    pending := want.Keys;
    var exists_, isDir;
    ok, exists_, isDir := remote.Attributes(root);
    if !ok || (exists_ && !isDir) {
      return false, pending;
    }
    if !exists_ {
      NothingBelowMissing(fs0, root);
      return true, pending;
    }
    var queue := [root];
    ghost var w := Progress({}, {root}, {});
    InvStart(fs0, root, want, delete);
    while queue != []
      invariant ok && QueueIs(queue, w.queued) && w.files == {}
      invariant WalkInv(fs0, remote.fs, root, want, delete, pending, w)
      invariant Settled(fs0, root, want, delete) ==> remote.fs == fs0 && remote.writes == writes0
      decreases fs0.Keys - w.entered, |queue|
    {
      ghost var before := w;
      ok, pending, queue, w := VisitDir(remote, root, want, delete, pending, queue, fs0, w);
      if !ok {
        return;
      }
    }
    WalkEnds(fs0, remote.fs, root, want, delete, pending, w);
  }

  lemma {:induction false} NothingBelowMissing(fs: Tree, root: Path)
    requires WellFormed(fs) && root != [] && root !in fs
    ensures forall p | p in fs :: !(root <= p)
  {
    forall p | p in fs
      ensures !(root <= p)
    {
      if root <= p && root != p { AncestorIsDir(fs, root, p); }
    }
  }

  lemma WalkEnds(fs0: Tree, fs: Tree, root: Path, want: Wanted, delete: bool, pending: set<Path>, w: Progress)
    requires WalkInv(fs0, fs, root, want, delete, pending, w) && LocalTree(root, want)
    requires QueueIs([], w.queued) && w.files == {}
    ensures IsDir(fs, root) && Walked(fs0, fs, root, want, delete, pending)
    ensures InSync(fs, root, want) ==> (pending == {} <==> AncestorsPopulated(root, want))
  {
    assert w.queued == {};
    forall p | delete && p in fs && Strictly(root, p)
      ensures Kept(fs, want, p) && p !in pending
    {
      AllEntered(fs0, fs, root, want, pending, w, p);
    }
    if InSync(fs, root, want) { PendingIff(fs0, fs, root, want, delete, pending, w); }
  }

  /** Nothing is left to send exactly when every directory on the way was entered. */
  lemma PendingIff(fs0: Tree, fs: Tree, root: Path, want: Wanted, delete: bool, pending: set<Path>, w: Progress)
    requires WalkInv(fs0, fs, root, want, delete, pending, w) && LocalTree(root, want) && InSync(fs, root, want)
    requires w.queued == {} && w.files == {}
    ensures pending == {} <==> AncestorsPopulated(root, want)
  {
    if AncestorsPopulated(root, want) {
      forall p | p in want
        ensures p !in pending
      {
        assert Parent(p) in Populated(want) && Strictly(root, p);
        PrefixOfChild(root, p);
        PopulatedEntered(fs0, fs, root, want, delete, pending, w, Parent(p));
        assert Seen(fs, want, delete, pending, w, p);
      }
    } else {
      var p := HiddenStaysPending(fs0, fs, root, want, delete, pending, w);
    }
  }

  /** One turn of the walk: the directory at the front of the queue. */
  method VisitDir(remote: Remote, root: Path, want: Wanted, delete: bool, pending: set<Path>, queue: seq<Path>,
                  ghost fs0: Tree, ghost w: Progress)
      returns (ok: bool, pending': set<Path>, queue': seq<Path>, ghost w': Progress)
    requires queue != [] && QueueIs(queue, w.queued) && w.files == {}
    requires WalkInv(fs0, remote.fs, root, want, delete, pending, w) && LocalTree(root, want)
    modifies remote
    ensures WellFormed(remote.fs) && OutsideKept(fs0, remote.fs, root)
    ensures ok ==> QueueIs(queue', w'.queued) && w'.files == {}
    ensures ok ==> WalkInv(fs0, remote.fs, root, want, delete, pending', w')
    ensures ok ==> (w'.entered == w.entered && |queue'| < |queue|) || w'.entered == w.entered + {queue[0]}
    ensures ok && Settled(fs0, root, want, delete) && old(remote.fs) == fs0 ==>
              remote.fs == fs0 && remote.writes == old(remote.writes)
    ensures remote.reliable ==> ok
  {
    ghost var fs := remote.fs;
    pending', queue', w' := pending, queue[1..], w;
    var dir := queue[0];
    Pop(queue, w.queued);
    var dirs, files;
    ok, dirs, files := FetchDirectoryEntries(remote, dir);
    if !ok {
      return;
    }
    var skip := dir != root && dir !in Populated(want);
    if skip {
      if delete {
        assert !(dir <= root);
        ok := DeleteRecursively(remote, dir);
        if !ok {
          return;
        }
        InvDelete(fs0, fs, remote.fs, root, want, pending, w, dir);
      } else {
        InvSkip(fs0, fs, root, want, pending, w, dir);
      }
      w' := w.(queued := w.queued - {dir});
      return;
    }
    InvEnter(fs0, fs, root, want, delete, pending, w, dir, dirs, files);
    queue' := Enqueue(queue', dirs, w.queued - {dir});
    w' := Progress(w.entered + {dir}, w.queued - {dir} + dirs, files);
    ok, pending' := ProcessFiles(remote, root, want, delete, pending, fs0, w', files);
    w' := w'.(files := {});
  }

  // ---------------------------------------------------------------- directories

  /** Only directories have been added, and only where allowed. */
  ghost predicate OnlyDirsAdded(fs0: Tree, fs: Tree, allowed: set<Path>)
  {
    && (forall p | p in fs0 :: p in fs && fs[p] == fs0[p])
    && (forall p | p in fs && p !in fs0 :: p in allowed && fs[p].Dir?)
  }

  /** The root's own path, drive excluded. */
  ghost function Leading(root: Path): set<Path>
  {
    set k | 2 <= k <= |root| :: root[..k]
  }

  method MakeDirs(remote: Remote, root: Path) returns (ok: bool)
    requires WellFormed(remote.fs) && root != []
    modifies remote
    ensures WellFormed(remote.fs) && OnlyDirsAdded(old(remote.fs), remote.fs, Leading(root))
    ensures ok ==> |root| == 1 || IsDir(remote.fs, root)
    ensures IsDir(old(remote.fs), root) ==> remote.fs == old(remote.fs) && remote.writes == old(remote.writes)
    ensures remote.reliable && RootReachable(old(remote.fs), root) ==> ok
  {
    ghost var fs0 := remote.fs;
    var exists_, isDir;
    ok, exists_, isDir := remote.Attributes(root);
    assert root[..|root|] == root;
    if !ok || exists_ {
      return ok && isDir;
    }
    for k := 2 to |root| + 1
      invariant WellFormed(remote.fs) && OnlyDirsAdded(fs0, remote.fs, Leading(root)) && ok
      invariant forall j | 2 <= j < k :: root[..j] in remote.fs
      invariant root in remote.fs ==> remote.fs[root].Dir? && k == |root| + 1
      invariant remote.reliable && RootReachable(fs0, root) ==> IsDir(remote.fs, root[..k - 1])
      invariant root !in fs0
    {
      ghost var before := remote.fs;
      assert Parent(root[..k]) == root[..k - 1];
      assert root[..k] in Leading(root);
      var status := remote.Mkdir(root[..k]);
      if status == Failed {
        return false;
      }
    }
  }

  lemma ShortestExists(s: set<Path>) returns (d: Path)
    requires s != {}
    ensures d in s && forall e | e in s :: |d| <= |e|
  {
    d :| d in s;
    if s != {d} {
      var e := ShortestExists(s - {d});
      if |e| < |d| { d := e; }
    }
  }

  /** Sorted order visits a directory before anything below it; nothing else about it matters. */
  method NextInOrder(left: set<Path>) returns (d: Path)
    requires left != {}
    ensures d in left && forall e | e in left && e <= d :: e == d
  {
    ghost var shortest := ShortestExists(left);
    assert forall e | e in left && e <= shortest :: e == shortest;
    d :| d in left && forall e | e in left && e <= d :: e == d;
  }

  /** Nothing stands in the way of these directories: a missing one has its parent there, or made first. */
  ghost predicate Creatable(fs: Tree, root: Path, dirs: set<Path>)
  {
    && (forall d | d in dirs && d in fs :: IsDir(fs, d))
    && (forall d {:trigger Parent(d)} | d in dirs && d !in fs && Strictly(root, d) && Parent(d) != root ::
        Parent(d) in dirs || IsDir(fs, Parent(d)))
  }

  method MakeSubdirs(remote: Remote, root: Path, dirs: set<Path>) returns (ok: bool)
    requires WellFormed(remote.fs) && root != [] && forall d | d in dirs :: root <= d
    modifies remote
    ensures WellFormed(remote.fs) && OnlyDirsAdded(old(remote.fs), remote.fs, dirs)
    ensures (forall d | d in dirs && d != root :: d in old(remote.fs)) ==>
              remote.fs == old(remote.fs) && remote.writes == old(remote.writes)
    ensures remote.reliable && IsDir(old(remote.fs), root) && Creatable(old(remote.fs), root, dirs) ==>
              ok && forall d | d in dirs :: IsDir(remote.fs, d)
  {
    ghost var fs0 := remote.fs;
    ghost var good := remote.reliable && IsDir(fs0, root) && Creatable(fs0, root, dirs);
    ok := true;
    var left := dirs;
    while left != {}
      invariant WellFormed(remote.fs) && OnlyDirsAdded(fs0, remote.fs, dirs)
      invariant ok && left <= dirs
      invariant (forall d | d in dirs && d != root :: d in fs0) ==>
              remote.fs == fs0 && remote.writes == old(remote.writes)
      invariant good ==> forall d | d in dirs && d !in left :: IsDir(remote.fs, d)
      decreases left
    {
      var d := NextInOrder(left);
      left := left - {d};
      if d != root {
        if good && d !in fs0 { ParentMade(fs0, remote.fs, root, dirs, left, d); }
        var status := remote.Mkdir(d);
        if status == Failed {
          return false;
        }
      }
    }
  }

  lemma ParentMade(fs0: Tree, fs: Tree, root: Path, dirs: set<Path>, left: set<Path>, d: Path)
    requires Creatable(fs0, root, dirs) && OnlyDirsAdded(fs0, fs, dirs) && IsDir(fs0, root)
    requires forall e | e in dirs && e !in left && e != d :: IsDir(fs, e)
    requires d in dirs && d !in fs0 && Strictly(root, d) && forall e | e in left :: !(e <= d)
    ensures IsDir(fs, Parent(d))
  {
    assert Parent(d) <= d && Parent(d) != d;
  }

  method CreateRemoteDirectoryHierarchy(remote: Remote, root: Path, want: Wanted) returns (ok: bool)
    requires WellFormed(remote.fs) && LocalTree(root, want)
    modifies remote
    ensures WellFormed(remote.fs) && OnlyDirsAdded(old(remote.fs), remote.fs, Leading(root) + Populated(want))
    ensures ok ==> |root| == 1 || IsDir(remote.fs, root)
    ensures IsDir(old(remote.fs), root) && (forall d | d in Populated(want) :: IsDir(old(remote.fs), d)) ==>
              remote.fs == old(remote.fs) && remote.writes == old(remote.writes)
    ensures remote.reliable && RootReachable(old(remote.fs), root) &&
            Creatable(old(remote.fs), root, Populated(want)) ==>
              ok && forall d | d in Populated(want) :: IsDir(remote.fs, d)
  {
    ok := MakeDirs(remote, root);
    if !ok {
      return;
    }
    assert |root| == 1 ==> root[..1] == root;
    forall d | d in Populated(want)
      ensures root <= d
    {
      PopulatedAreNotFiles(root, want, d);
    }
    ok := MakeSubdirs(remote, root, Populated(want));
  }

  /** No directory stands where a file belongs, and every directory needed is there or can be made. */
  ghost predicate Fillable(fs: Tree, root: Path, want: Wanted)
  {
    && Creatable(fs, root, Populated(want))
    && (forall p | p in want :: !IsDir(fs, p))
  }

  /** A reliable console can be synced: its root can exist, and nothing else is in the way. What is in the way
      of a run with deletion is deleted. */
  ghost predicate Syncable(fs: Tree, root: Path, want: Wanted, delete: bool)
  {
    RootReachable(fs, root) && if delete then AncestorsPopulated(root, want) else Fillable(fs, root, want)
  }

  // ---------------------------------------------------------------- uploads

  ghost predicate OnlyChangedAt(fs0: Tree, fs: Tree, files: set<Path>)
  {
    forall p | p !in files :: (p in fs <==> p in fs0) && (p in fs ==> fs[p] == fs0[p])
  }

  /** The file is there with the local data. */
  ghost predicate Delivered(fs: Tree, p: Path, file: LocalFile)
  {
    p in fs && Matches(fs[p], file) && fs[p].data == file.data
  }

  /** A file can be sent here. */
  ghost predicate Placeable(fs: Tree, files: set<Path>, p: Path)
  {
    p != [] && IsDir(fs, Parent(p)) && !IsDir(fs, p) && Parent(p) !in files
  }

  method UploadAll(remote: Remote, want: Wanted, files: set<Path>) returns (ok: bool)
    requires WellFormed(remote.fs) && files <= want.Keys
    requires forall p | p in files :: |p| > 1
    modifies remote
    ensures WellFormed(remote.fs)
    ensures OnlyChangedAt(old(remote.fs), remote.fs, files) && DirsKept(old(remote.fs), remote.fs)
    ensures ok ==> forall p | p in files :: Delivered(remote.fs, p, want[p])
    ensures files == {} ==> remote.fs == old(remote.fs) && remote.writes == old(remote.writes)
    ensures ok && files != {} ==> remote.writes > old(remote.writes)
    ensures remote.reliable && (forall p | p in files :: Placeable(old(remote.fs), files, p)) ==> ok
  {
    ghost var fs0 := remote.fs;
    ok := true;
    var left := files;
    while left != {}
      invariant left <= files && ok && WellFormed(remote.fs)
      invariant OnlyChangedAt(fs0, remote.fs, files - left) && DirsKept(fs0, remote.fs)
      invariant forall p | p in files - left :: Delivered(remote.fs, p, want[p])
      invariant files == {} ==> remote.fs == fs0
      invariant if left == files then remote.writes == old(remote.writes) else remote.writes > old(remote.writes)
      decreases left
    {
      var p :| p in left;
      StillPlaceable(fs0, remote.fs, files, left, p);
      ghost var before := remote.fs;
      ok := Upload(remote, p, want[p]);
      OneMore(fs0, before, remote.fs, want, files, left, p);
      if !ok {
        return;
      }
      left := left - {p};
    }
  }

  lemma StillPlaceable(fs0: Tree, fs: Tree, files: set<Path>, left: set<Path>, p: Path)
    requires OnlyChangedAt(fs0, fs, files - left) && p in left
    ensures Placeable(fs0, files, p) ==> IsDir(fs, Parent(p)) && !IsDir(fs, p)
  {
  }

  lemma OneMore(fs0: Tree, fs: Tree, fs': Tree, want: Wanted, files: set<Path>, left: set<Path>, p: Path)
    requires OnlyChangedAt(fs0, fs, files - left) && p in left && left <= files <= want.Keys
    requires fs' == fs || (p in fs' && fs' == fs[p := fs'[p]])
    requires forall q | q in files - left :: Delivered(fs, q, want[q])
    ensures OnlyChangedAt(fs0, fs', files - (left - {p}))
    ensures forall q | q in files - left :: Delivered(fs', q, want[q])
  {
    assert files - (left - {p}) == (files - left) + {p};
  }

  // ---------------------------------------------------------------- the command

  lemma OutsideAfter(fs0: Tree, fs1: Tree, fs2: Tree, root: Path, want: Wanted)
    requires OutsideKept(fs0, fs1, root) && LocalTree(root, want)
    requires OnlyDirsAdded(fs1, fs2, Leading(root) + Populated(want))
    ensures OutsideKept(fs0, fs2, root)
  {
    forall d | d in Populated(want)
      ensures root <= d
    {
      PopulatedAreNotFiles(root, want, d);
    }
  }

  lemma OutsideAfterUpload(fs0: Tree, fs2: Tree, fs3: Tree, root: Path, want: Wanted, files: set<Path>)
    requires OutsideKept(fs0, fs2, root) && LocalTree(root, want) && files <= want.Keys
    requires OnlyChangedAt(fs2, fs3, files)
    ensures OutsideKept(fs0, fs3, root)
  {
  }

  /** The three phases put every local file in place. */
  lemma PhasesPlaceFiles(fs0: Tree, fs1: Tree, fs2: Tree, fs3: Tree, root: Path, want: Wanted, delete: bool,
                         pending: set<Path>)
    requires Walked(fs0, fs1, root, want, delete, pending)
    requires OnlyDirsAdded(fs1, fs2, Leading(root) + Populated(want))
    requires OnlyChangedAt(fs2, fs3, pending)
    requires forall p | p in pending :: Delivered(fs3, p, want[p])
    ensures forall p | p in want :: Synced(fs0, fs3, p, want[p])
    ensures !delete ==> forall p | p in fs0 && p !in want :: p in fs3 && fs3[p] == fs0[p]
  {
    forall p | p in want
      ensures Synced(fs0, fs3, p, want[p])
    {
      if p !in pending {
        assert Synced(fs0, fs1, p, want[p]);
        assert fs3[p] == fs2[p] == fs1[p];
      }
    }
  }

  /** After a walk with deletion the other two phases complete the mirror. */
  lemma PhasesMirror(fs0: Tree, fs1: Tree, fs2: Tree, fs3: Tree, root: Path, want: Wanted, pending: set<Path>)
    requires Walked(fs0, fs1, root, want, true, pending) && LocalTree(root, want)
    requires OnlyDirsAdded(fs1, fs2, Leading(root) + Populated(want)) && IsDir(fs2, root)
    requires OnlyChangedAt(fs2, fs3, pending)
    requires forall p | p in want :: p in fs3 && Matches(fs3[p], want[p])
    requires WellFormed(fs3)
    ensures Mirror(fs3, root, want)
  {
    forall d | d in Populated(want)
      ensures IsDir(fs3, d)
    {
      var p :| p in want && p != [] && Parent(p) == d;
      assert p in fs3 && |p| > 1;
    }
    forall p | p in fs3 && Strictly(root, p)
      ensures Kept(fs3, want, p)
    {
      if p !in want {
        assert p !in pending && fs3[p] == fs2[p];
        if p in fs1 { assert Kept(fs1, want, p); } else { assert p !in Leading(root); }
      }
    }
  }

  /** Every missing file can be sent once its directory exists. */
  lemma PendingPlaceable(fs0: Tree, fs1: Tree, fs2: Tree, root: Path, want: Wanted, delete: bool, pending: set<Path>)
    requires Walked(fs0, fs1, root, want, delete, pending) && LocalTree(root, want)
    requires delete || Fillable(fs0, root, want)
    requires OnlyDirsAdded(fs1, fs2, Leading(root) + Populated(want))
    requires forall d | d in Populated(want) :: IsDir(fs2, d)
    ensures forall p | p in pending :: Placeable(fs2, pending, p)
  {
    forall p | p in pending
      ensures Placeable(fs2, pending, p)
    {
      assert Parent(p) in Populated(want);
      PopulatedAreNotFiles(root, want, Parent(p));
      assert Strictly(root, p) && !IsDir(fs1, p);
      if p in Populated(want) { PopulatedAreNotFiles(root, want, p); }
      assert p in fs2 ==> p in fs1;
    }
  }

  /** After the walk no file stands where a directory is needed. */
  lemma NoFileInTheWay(fs0: Tree, fs1: Tree, root: Path, want: Wanted, delete: bool, pending: set<Path>)
    requires Walked(fs0, fs1, root, want, delete, pending) && LocalTree(root, want)
    requires delete || Fillable(fs0, root, want)
    requires root in fs1 ==> IsDir(fs1, root)
    ensures forall d | d in Populated(want) && d in fs1 :: IsDir(fs1, d)
  {
    forall d | d in Populated(want) && d in fs1
      ensures IsDir(fs1, d)
    {
      PopulatedAreNotFiles(root, want, d);
      if delete && d != root { assert Kept(fs1, want, d); }
    }
  }

  /** What can be synced can still be filled after the walk. */
  lemma StillCreatable(fs0: Tree, fs1: Tree, root: Path, want: Wanted, delete: bool, pending: set<Path>)
    requires Walked(fs0, fs1, root, want, delete, pending) && LocalTree(root, want)
    requires Syncable(fs0, root, want, delete) && OutsideKept(fs0, fs1, root)
    requires root in fs1 ==> IsDir(fs1, root)
    ensures RootReachable(fs1, root) && Creatable(fs1, root, Populated(want))
  {
    StillReachable(fs0, fs1, root);
    NoFileInTheWay(fs0, fs1, root, want, delete, pending);
  }

  /** A run without deletion that succeeds had nothing in its way. */
  lemma FilledWasFillable(fs0: Tree, fs: Tree, root: Path, want: Wanted)
    requires WellFormed(fs) && LocalTree(root, want) && DirsKept(fs0, fs)
    requires forall p | p in want :: Synced(fs0, fs, p, want[p])
    requires forall p | p in fs0 && p !in want :: p in fs && fs[p] == fs0[p]
    requires forall p | p in fs && p !in fs0 :: p in Leading(root) + Populated(want) + want.Keys
    ensures Fillable(fs0, root, want)
  {
    forall d | d in Populated(want)
      ensures IsDir(fs, d) && root <= d && d !in want
    {
      PopulatedAreNotFiles(root, want, d);
      var p :| p in want && p != [] && Parent(p) == d;
      assert p in fs && |p| > 1;
    }
    forall d {:trigger Parent(d)} | d in Populated(want) && d !in fs0 && Strictly(root, d) && Parent(d) != root
      ensures Parent(d) in Populated(want) || IsDir(fs0, Parent(d))
    {
      PrefixOfChild(root, d);
      assert IsDir(fs, d) && IsDir(fs, Parent(d));
      assert Parent(d) !in want && Parent(d) !in Leading(root);
    }
  }

  lemma StillReachable(fs0: Tree, fs1: Tree, root: Path)
    requires RootReachable(fs0, root) && OutsideKept(fs0, fs1, root)
    requires root in fs1 ==> IsDir(fs1, root)
    requires root in fs1 <==> root in fs0
    ensures RootReachable(fs1, root)
  {
    forall k | 1 <= k <= |root| && root[..k] in fs1
      ensures fs1[root[..k]].Dir?
    {
      if k == |root| { assert root[..k] == root; }
    }
    if |root| == 1 { assert root[..1] == root; }
  }

  /** In sync, the directories of the local files exist. */
  lemma InSyncDirectories(fs: Tree, root: Path, want: Wanted)
    requires WellFormed(fs) && LocalTree(root, want) && InSync(fs, root, want)
    ensures forall d | d in Populated(want) :: IsDir(fs, d)
  {
    forall d | d in Populated(want)
      ensures IsDir(fs, d)
    {
      var p :| p in want && p != [] && Parent(p) == d;
      assert p in fs && |p| > 1;
    }
  }

  /** The phases after the walk: directories, then everything the walk did not meet. `made` is the tree in
      between. */
  method Fill(remote: Remote, root: Path, want: Wanted, pending: set<Path>) returns (ok: bool, ghost made: Tree)
    requires WellFormed(remote.fs) && LocalTree(root, want) && pending <= want.Keys
    modifies remote
    ensures WellFormed(remote.fs)
    ensures OnlyDirsAdded(old(remote.fs), made, Leading(root) + Populated(want)) &&
            OnlyChangedAt(made, remote.fs, pending) && DirsKept(made, remote.fs)
    ensures ok ==> forall p | p in pending :: Delivered(remote.fs, p, want[p])
    ensures ok ==> |root| == 1 || IsDir(made, root)
    ensures InSync(old(remote.fs), root, want) && pending == {} ==>
              remote.fs == old(remote.fs) && remote.writes == old(remote.writes)
    ensures InSync(old(remote.fs), root, want) && pending != {} && ok ==> remote.writes > old(remote.writes)
    ensures remote.reliable && RootReachable(old(remote.fs), root) &&
            Creatable(old(remote.fs), root, Populated(want)) ==>
              && (forall d | d in Populated(want) :: IsDir(made, d))
              && ((forall p | p in pending :: Placeable(made, pending, p)) ==> ok)
  {
    if InSync(remote.fs, root, want) { InSyncDirectories(remote.fs, root, want); }
    ok := CreateRemoteDirectoryHierarchy(remote, root, want);
    made := remote.fs;
    if ok { ok := UploadAll(remote, want, pending); }
  }

  /** What the phases together have done, once they succeed. */
  lemma Succeeded(fs0: Tree, fs1: Tree, fs2: Tree, fs3: Tree, root: Path, want: Wanted, delete: bool,
                  pending: set<Path>)
    requires Walked(fs0, fs1, root, want, delete, pending) && LocalTree(root, want) && WellFormed(fs3)
    requires OnlyDirsAdded(fs1, fs2, Leading(root) + Populated(want)) && (|root| == 1 || IsDir(fs2, root))
    requires root in fs1 ==> IsDir(fs1, root)
    requires OnlyChangedAt(fs2, fs3, pending) && DirsKept(fs2, fs3)
    requires forall p | p in pending :: Delivered(fs3, p, want[p])
    ensures forall p | p in want :: Synced(fs0, fs3, p, want[p])
    ensures delete && (|root| > 1 || root in fs0) ==> Mirror(fs3, root, want)
    ensures !delete ==> Fillable(fs0, root, want) && forall p | p in fs0 && p !in want :: p in fs3 && fs3[p] == fs0[p]
    ensures |root| > 1 || root in fs0 ==> IsDir(fs3, root)
  {
    PhasesPlaceFiles(fs0, fs1, fs2, fs3, root, want, delete, pending);
    if delete {
      if |root| > 1 || root in fs0 { PhasesMirror(fs0, fs1, fs2, fs3, root, want, pending); }
    } else {
      assert DirsKept(fs0, fs1) && DirsKept(fs1, fs2);
      FilledWasFillable(fs0, fs3, root, want);
    }
  }

  /** The rest of the command once the walk is done. */
  method Complete(remote: Remote, root: Path, want: Wanted, delete: bool, pending: set<Path>, ghost fs0: Tree)
      returns (ok: bool)
    requires WellFormed(remote.fs) && LocalTree(root, want) && OutsideKept(fs0, remote.fs, root)
    requires Walked(fs0, remote.fs, root, want, delete, pending) && (root in remote.fs ==> IsDir(remote.fs, root))
    modifies remote
    ensures WellFormed(remote.fs) && OutsideKept(fs0, remote.fs, root)
    ensures ok ==> forall p | p in want :: Synced(fs0, remote.fs, p, want[p])
    ensures ok && delete && (|root| > 1 || root in fs0) ==> Mirror(remote.fs, root, want)
    ensures ok && !delete ==>
              && Fillable(fs0, root, want)
              && forall p | p in fs0 && p !in want :: p in remote.fs && remote.fs[p] == fs0[p]
    ensures ok && (|root| > 1 || root in fs0) ==> IsDir(remote.fs, root)
    ensures InSync(old(remote.fs), root, want) && pending == {} ==>
              remote.fs == old(remote.fs) && remote.writes == old(remote.writes)
    ensures InSync(old(remote.fs), root, want) && pending != {} && ok ==> remote.writes > old(remote.writes)
    ensures remote.reliable && Syncable(fs0, root, want, delete) ==> ok
  {
    ghost var fs1 := remote.fs;
    ghost var good := remote.reliable && Syncable(fs0, root, want, delete);
    if good { StillCreatable(fs0, fs1, root, want, delete, pending); }
    ghost var made;
    ok, made := Fill(remote, root, want, pending);
    OutsideAfter(fs0, fs1, made, root, want);
    OutsideAfterUpload(fs0, made, remote.fs, root, want, pending);
    if good { PendingPlaceable(fs0, fs1, made, root, want, delete, pending); }
    if ok { Succeeded(fs0, fs1, made, remote.fs, root, want, delete, pending); }
  }

  method SyncDirectory(remote: Remote, root: Path, want: Wanted, delete: bool) returns (ok: bool)
    requires WellFormed(remote.fs) && LocalTree(root, want)
    modifies remote
    ensures WellFormed(remote.fs) && OutsideKept(old(remote.fs), remote.fs, root)
    // Success puts every local file in place, by upload or because it was there.
    ensures ok ==> forall p | p in want :: Synced(old(remote.fs), remote.fs, p, want[p])
    // With deletion the remote root becomes a mirror.
    ensures ok && delete && (|root| > 1 || root in old(remote.fs)) ==> Mirror(remote.fs, root, want)
    // Without deletion nothing else is touched.
    ensures ok && !delete ==> forall p | p in old(remote.fs) && p !in want ::
            p in remote.fs && remote.fs[p] == old(remote.fs)[p]
    // A second run over a mirror writes nothing.
    ensures ok && delete && Mirror(old(remote.fs), root, want) ==>
              remote.fs == old(remote.fs) && remote.writes == old(remote.writes)
    // Without deletion a second run writes nothing exactly when the walk can reach every local file.
    ensures ok && !delete && InSync(old(remote.fs), root, want) ==>
              && (remote.writes == old(remote.writes) <==> AncestorsPopulated(root, want))
              && (AncestorsPopulated(root, want) ==> remote.fs == old(remote.fs))
    // A reliable console succeeds exactly when its root can exist and, with deletion, the ancestors are
    // populated, or, without it, nothing is in the way of a local file or its directory.
    ensures remote.reliable && (|root| > 1 || root in old(remote.fs)) ==>
              (ok <==> Syncable(old(remote.fs), root, want, delete))
    ensures remote.reliable && Syncable(old(remote.fs), root, want, delete) ==> ok
  {
    ghost var fs0 := remote.fs;
    var exists_, isDir;
    ok, exists_, isDir := remote.Attributes(root);
    assert root[..|root|] == root;
    if !ok || (exists_ && !isDir) {
      return false;
    }
    var pending;
    ok, pending := WalkRemoteDir(remote, root, want, delete);
    if !ok {
      return;
    }
    if delete && Mirror(fs0, root, want) { MirrorNeedsAncestors(fs0, root, want); }
    ok := Complete(remote, root, want, delete, pending, fs0);
    if ok && (|root| > 1 || root in fs0) {
      RootWasReachable(fs0, remote.fs, root);
      if delete { MirrorNeedsAncestors(remote.fs, root, want); }
    }
  }

  /** A console in sync on which every run without deletion sends the file again: the walk does not enter a
      directory that holds no local file itself, and so never meets what is below it. */
  lemma DeepFileIsSentAgain()
    ensures var root, p := ["R"], ["R", "a", "b", "f"];
            var want: Wanted := map[p := LocalFile(0, "x")];
            var fs: Tree := map[root := Dir, ["R", "a"] := Dir, ["R", "a", "b"] := Dir, p := File(SafeTimestamp(0),
                "x")];
            && WellFormed(fs) && LocalTree(root, want) && InSync(fs, root, want) && !AncestorsPopulated(root, want)
  {
    var root, a, b, p := ["R"], ["R", "a"], ["R", "a", "b"], ["R", "a", "b", "f"];
    var want: Wanted := map[p := LocalFile(0, "x")];
    SkewIsHidden(0, 0);
    assert Parent(p) == b && Parent(b) == a && Parent(a) == root;
    assert root <= p && root != p && root <= b && root != b;
    assert Populated(want) == {b};
    assert |a| == 2 && |b| == 3;
  }

  /** A mirror can only exist if every directory on the way to a local file is populated: with the
      last clause of `SyncDirectory` this is exactly when a reliable console can be synced. */
  lemma MirrorNeedsAncestors(fs: Tree, root: Path, want: Wanted)
    requires WellFormed(fs) && LocalTree(root, want) && Mirror(fs, root, want)
    ensures AncestorsPopulated(root, want)
  {
    forall d {:trigger Parent(d)} | d in Populated(want) && Strictly(root, d) && Parent(d) != root
      ensures Parent(d) in Populated(want)
    {
      PrefixOfChild(root, d);
      assert IsDir(fs, Parent(d)) && Kept(fs, want, Parent(d));
    }
  }

  /** A root that exists after a run could be reached before it. */
  lemma RootWasReachable(fs0: Tree, fs: Tree, root: Path)
    requires WellFormed(fs) && root != [] && IsDir(fs, root) && OutsideKept(fs0, fs, root)
    requires root in fs0 ==> IsDir(fs0, root)
    ensures |root| > 1 || root in fs0 ==> RootReachable(fs0, root)
  {
    forall k | 1 <= k <= |root|
      ensures IsDir(fs, root[..k])
    {
      if k == |root| { assert root[..k] == root; } else { AncestorIsDir(fs, root[..k], root); }
    }
    assert root[..|root|] == root;
  }
}
