/** The console's file system as the file commands see it. Any command may be refused; a
    reliable console refuses only what its tree does not allow. */
module RemoteFiles {
  import opened Timestamps

  type Name = string
  /** Path components; the first one is the drive. */
  type Path = seq<Name>

  datatype Node = Dir | File(change: u64, data: seq<char>)
  type Tree = map<Path, Node>

  function Parent(p: Path): Path
    requires p != []
  {
    p[..|p| - 1]
  }

  predicate IsDir(fs: Tree, p: Path) { p in fs && fs[p].Dir? }
  predicate IsFile(fs: Tree, p: Path) { p in fs && fs[p].File? }

  /** Every entry below a drive sits in a directory. */
  ghost predicate WellFormed(fs: Tree)
  {
    [] !in fs && forall p {:trigger Parent(p)} | p in fs && |p| > 1 :: IsDir(fs, Parent(p))
  }

  predicate IsChild(fs: Tree, dir: Path, p: Path)
  {
    p in fs && p != [] && Parent(p) == dir
  }

  /** The tree without `p` and everything below it. */
  ghost function Without(fs: Tree, p: Path): Tree
  {
    map q | q in fs && !(p <= q) :: fs[q]
  }

  datatype Status = Done | Exists | Failed

  class Remote {
    var fs: Tree
    var writes: nat
    const reliable: bool

    constructor (fs: Tree, reliable: bool)
      ensures this.fs == fs && this.reliable == reliable && writes == 0
    {
      this.fs, this.reliable, writes := fs, reliable, 0;
    }

    method Refused() returns (refused: bool)
      ensures reliable ==> !refused
    {
      refused := *;
      if reliable {
        refused := false;
      }
    }

    method Attributes(p: Path) returns (ok: bool, exists_: bool, isDir: bool)
      ensures reliable ==> ok
      ensures ok ==> exists_ == (p in fs) && isDir == IsDir(fs, p)
    {
      var refused := Refused();
      ok, exists_, isDir := !refused, p in fs, IsDir(fs, p);
    }

    /** The children of a directory; the order in which the console lists them is unknown. */
    method DirList(p: Path) returns (ok: bool, entries: set<Path>)
      ensures reliable && IsDir(fs, p) ==> ok
      ensures ok ==> IsDir(fs, p) && forall q :: q in entries <==> IsChild(fs, p, q)
    {
      var refused := Refused();
      ok, entries := !refused && IsDir(fs, p), set q | q in fs && IsChild(fs, p, q);
    }

    method Mkdir(p: Path) returns (status: Status)
      requires WellFormed(fs) && |p| > 1
      modifies this
      ensures WellFormed(fs)
      ensures status == Exists ==> p in fs && fs == old(fs) && writes == old(writes)
      ensures status == Failed ==> fs == old(fs) && writes == old(writes)
      ensures status == Done ==> p !in old(fs) && IsDir(old(fs), Parent(p)) && fs == old(fs)[p := Dir]
      ensures status == Done ==> writes == old(writes) + 1
      ensures reliable && status == Failed ==> p !in fs && !IsDir(fs, Parent(p))
    {
      var refused := Refused();
      if refused {
        return Failed;
      }
      if p in fs {
        return Exists;
      }
      if !IsDir(fs, Parent(p)) {
        return Failed;
      }
      fs, writes := fs[p := Dir], writes + 1;
      return Done;
    }

    method DeleteFile(p: Path) returns (ok: bool)
      requires WellFormed(fs)
      modifies this
      ensures WellFormed(fs)
      ensures ok ==> IsFile(old(fs), p) && fs == old(fs) - {p}
      ensures !ok ==> fs == old(fs)
      ensures writes == old(writes) + if ok then 1 else 0
      ensures reliable && IsFile(old(fs), p) ==> ok
    {
      var refused := Refused();
      ok := !refused && IsFile(fs, p);
      if ok {
        fs, writes := fs - {p}, writes + 1;
      }
    }

    /** Only an empty directory can go. */
    method DeleteDir(p: Path) returns (ok: bool)
      requires WellFormed(fs)
      modifies this
      ensures WellFormed(fs)
      ensures ok ==> IsDir(old(fs), p) && fs == old(fs) - {p}
      ensures !ok ==> fs == old(fs)
      ensures writes == old(writes) + if ok then 1 else 0
      ensures reliable && IsDir(old(fs), p) && (forall q :: !IsChild(old(fs), p, q)) ==> ok
    {
      var refused := Refused();
      ok := !refused && IsDir(fs, p) && !exists q | q in fs :: IsChild(fs, p, q);
      if ok {
        fs, writes := fs - {p}, writes + 1;
      }
    }

    /** Creates or replaces a file; the console stamps it with its own clock. */
    method SendFile(p: Path, data: seq<char>) returns (ok: bool)
      requires WellFormed(fs) && |p| > 1
      modifies this
      ensures WellFormed(fs)
      ensures ok ==> !IsDir(old(fs), p) && IsFile(fs, p) && fs[p].data == data && fs == old(fs)[p := fs[p]]
      ensures !ok ==> fs == old(fs)
      ensures writes == old(writes) + if ok then 1 else 0
      ensures reliable && !IsDir(old(fs), p) && IsDir(old(fs), Parent(p)) ==> ok
    {
      var refused := Refused();
      ok := !refused && !IsDir(fs, p) && IsDir(fs, Parent(p));
      if ok {
        var now: u64 := *;
        fs, writes := fs[p := File(now, data)], writes + 1;
      }
    }

    /** The stored time is the requested one plus a skew of less than 2^28. */
    method SetChangeTime(p: Path, change: u64) returns (ok: bool)
      requires WellFormed(fs) && MIN_TIMESTAMP <= change <= MAX_TIMESTAMP
      modifies this
      ensures WellFormed(fs)
      ensures ok ==> IsFile(old(fs), p) && IsFile(fs, p) && fs[p].data == old(fs)[p].data
      ensures ok ==> fs == old(fs)[p := fs[p]] && change <= fs[p].change < change + TWO_28
      ensures !ok ==> fs == old(fs)
      ensures writes == old(writes) + if ok then 1 else 0
      ensures reliable && IsFile(old(fs), p) ==> ok
    {
      var refused := Refused();
      ok := !refused && IsFile(fs, p);
      if ok {
        var skew: nat := *;
        fs := fs[p := File(change + skew % TWO_28, fs[p].data)];
        writes := writes + 1;
      }
    }
  }
}
