/** The host filesystem the device forwards to (File::Exists, IsDirectory,
    Delete, DeleteDir, Rename, CreateFullPath, CreateEmptyFile, CreateDir,
    DeleteDirRecursively).  Its implementation is not part of this model: the
    host is a flat map from host path to entry, and the set `readOnly` names the
    paths on which the host refuses every change (permissions, I/O errors), which
    is how each "may fail" primitive gets its failure case. */
module HostFs {
  import opened GuestMemory

  /** A host path, as the bytes of a C string. */
  type Path = Bytes

  /** DIR_SEP, '/'. */
  const Sep: u8 := 0x2F

  datatype Entry = File(size: u64) | Dir

  type Entries = map<Path, Entry>

  /** `k` names something strictly inside directory `p`. */
  predicate Beneath(k: Path, p: Path) {
    |p| < |k| && k[..|p|] == p && k[|p|] == Sep
  }

  /** The directories CreateFullPath makes for `p`: every non-empty prefix
      that ends just before a separator. */
  function DirPrefixes(p: Path): (r: set<Path>)
    ensures forall q :: q in r ==> 0 < |q| < |p| && q == p[..|q|] && p[|q|] == Sep
  {
    set i | 0 < i < |p| && p[i] == Sep :: p[..i]
  }

  predicate IsDir(e: Entries, p: Path) {
    p in e && e[p].Dir?
  }

  /** Every directory above `p` exists. */
  predicate ParentsPresent(e: Entries, p: Path) {
    forall q :: q in DirPrefixes(p) ==> IsDir(e, q)
  }

  /** Nothing on the way to `p` blocks CreateFullPath: no prefix is read-only
      or an existing file. */
  predicate PrefixesFree(e: Entries, readOnly: set<Path>, p: Path) {
    forall q :: q in DirPrefixes(p) ==> q !in readOnly && (q in e ==> e[q].Dir?)
  }

  /** File::CreateFullPath: each missing prefix directory is created unless
      the host refuses it; existing entries are left alone. */
  function WithParents(e: Entries, readOnly: set<Path>, p: Path): (r: Entries)
    ensures forall k :: k in e ==> k in r && r[k] == e[k]
    ensures forall k :: k in r && k !in e ==> k in DirPrefixes(p) && r[k] == Dir
    ensures PrefixesFree(e, readOnly, p) ==> ParentsPresent(r, p)
  {
    e + map q | q in DirPrefixes(p) && q !in e && q !in readOnly :: Dir
  }

  /** File::Delete succeeds only on a file. */
  predicate DeleteOk(e: Entries, readOnly: set<Path>, p: Path) {
    p in e && e[p].File? && p !in readOnly
  }

  /** File::DeleteDir succeeds only on an empty directory. */
  predicate DeleteDirOk(e: Entries, readOnly: set<Path>, p: Path) {
    IsDir(e, p) && p !in readOnly && forall k :: k in e ==> !Beneath(k, p)
  }

  /** File::Rename succeeds when the source exists and the destination is free. */
  predicate RenameOk(e: Entries, readOnly: set<Path>, src: Path, dst: Path) {
    src in e && src !in readOnly && dst !in e && dst !in readOnly
  }

  function Renamed(e: Entries, src: Path, dst: Path): (r: Entries)
    requires src in e && dst !in e
    ensures src !in r && dst in r && r[dst] == e[src]
    ensures forall k :: k != src && k != dst ==> (k in r <==> k in e) && (k in r ==> r[k] == e[k])
  {
    (e - {src})[dst := e[src]]
  }

  /** File::CreateEmptyFile: the parent directories must exist, and a
      directory cannot be replaced by a file. */
  predicate CreateFileOk(e: Entries, readOnly: set<Path>, p: Path) {
    p !in readOnly && !IsDir(e, p) && ParentsPresent(e, p)
  }

  /** File::CreateDir. */
  predicate CreateDirOk(e: Entries, readOnly: set<Path>, p: Path) {
    p !in e && p !in readOnly && ParentsPresent(e, p)
  }

  /** File::DeleteDirRecursively: on a directory, removes everything beneath
      it that the host lets go of, and then the directory itself unless it is
      read-only or something beneath it stayed; on anything else, nothing. */
  function WithoutTree(e: Entries, readOnly: set<Path>, p: Path): (r: Entries)
    ensures forall k :: k in r ==> k in e && r[k] == e[k]
    ensures forall k :: k in e && k != p && !Beneath(k, p) ==> k in r
    ensures IsDir(e, p) ==> forall k :: k in r && Beneath(k, p) ==> k in readOnly
    ensures IsDir(e, p) ==> (p in r <==> p in readOnly || exists k :: k in r && Beneath(k, p))
    ensures !IsDir(e, p) ==> r == e
  {
    if IsDir(e, p) then
      var stays := p in readOnly || exists k :: k in e && k in readOnly && Beneath(k, p);
      map k | k in e && (k in readOnly || (k != p && !Beneath(k, p)) || (k == p && stays)) :: e[k]
    else e
  }

  class Host {
    var entries: Entries
    const readOnly: set<Path>

    constructor (entries: Entries, readOnly: set<Path>)
      ensures this.entries == entries && this.readOnly == readOnly
    {
      this.entries := entries;
      this.readOnly := readOnly;
    }

    /** File::Exists. */
    predicate Exists(p: Path)
      reads this
    {
      p in entries
    }

    /** File::IsDirectory. */
    predicate IsDirectory(p: Path)
      reads this
    {
      IsDir(entries, p)
    }

    method Delete(p: Path) returns (ok: bool)
      modifies this
      ensures ok == DeleteOk(old(entries), readOnly, p)
      ensures entries == if ok then old(entries) - {p} else old(entries)
    {
      ok := DeleteOk(entries, readOnly, p);
      if ok { entries := entries - {p}; }
    }

    method DeleteDir(p: Path) returns (ok: bool)
      modifies this
      ensures ok == DeleteDirOk(old(entries), readOnly, p)
      ensures entries == if ok then old(entries) - {p} else old(entries)
    {
      ok := DeleteDirOk(entries, readOnly, p);
      if ok { entries := entries - {p}; }
    }

    method Rename(src: Path, dst: Path) returns (ok: bool)
      modifies this
      ensures ok == RenameOk(old(entries), readOnly, src, dst)
      ensures entries == if ok then Renamed(old(entries), src, dst) else old(entries)
    {
      ok := RenameOk(entries, readOnly, src, dst);
      if ok { entries := Renamed(entries, src, dst); }
    }

    method CreateFullPath(p: Path)
      modifies this
      ensures entries == WithParents(old(entries), readOnly, p)
    {
      entries := WithParents(entries, readOnly, p);
    }

    method CreateEmptyFile(p: Path) returns (ok: bool)
      modifies this
      ensures ok == CreateFileOk(old(entries), readOnly, p)
      ensures entries == if ok then old(entries)[p := File(0)] else old(entries)
    {
      ok := CreateFileOk(entries, readOnly, p);
      if ok { entries := entries[p := File(0)]; }
    }

    method CreateDir(p: Path) returns (ok: bool)
      modifies this
      ensures ok == CreateDirOk(old(entries), readOnly, p)
      ensures entries == if ok then old(entries)[p := Dir] else old(entries)
    {
      ok := CreateDirOk(entries, readOnly, p);
      if ok { entries := entries[p := Dir]; }
    }

    method DeleteDirRecursively(p: Path) returns (ok: bool)
      modifies this
      ensures entries == WithoutTree(old(entries), readOnly, p)
      ensures ok == (IsDir(old(entries), p) && p !in entries)
    {
      var wasDir := IsDir(entries, p);
      entries := WithoutTree(entries, readOnly, p);
      ok := wasDir && p !in entries;
    }
  }
}
