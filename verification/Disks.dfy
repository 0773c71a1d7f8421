/**
The filesystem below a workspace root, as the edit engine uses it: names point
to inodes, hard links share one, and the four primitives are create-new, hard
link, rename and remove.
*/
module Disks {
  import opened Results
  import opened Paths

  datatype Node = Directory | Symlink | Regular(inode: nat)

  datatype Inode = Inode(bytes: string, mode: nat)

  datatype Disk = Disk(names: map<Path, Node>, inodes: map<nat, Inode>, next: nat)

  predicate ParentIsDirectory(d: Disk, p: Path) {
    p != [] && (|p| == 1 || (p[..|p| - 1] in d.names && d.names[p[..|p| - 1]].Directory?))
  }

  /** Every regular name has an inode. */
  ghost predicate InodesKnown(names: map<Path, Node>, inodes: map<nat, Inode>) {
    forall p <- names :: names[p].Regular? ==> names[p].inode in inodes
  }

  /** Every name sits in a directory and every regular name has an allocated inode. */
  ghost predicate Valid(d: Disk) {
    && (forall p <- d.names :: ParentIsDirectory(d, p))
    && InodesKnown(d.names, d.inodes)
    && (forall n <- d.inodes :: n < d.next)
  }

  /** No inode of `d` was freed or rewritten on the way to `e`. */
  ghost predicate Kept(d: Disk, e: Disk) {
    && d.next <= e.next
    && (forall n <- d.inodes :: n in e.inodes && e.inodes[n] == d.inodes[n])
    && (forall n <- e.inodes :: n in d.inodes || d.next <= n)
  }

  // ---- What a reader sees ----

  datatype Item = Dir | Link | File(bytes: string, mode: nat)

  function ItemOf(node: Node, inodes: map<nat, Inode>): Item
    requires node.Regular? ==> node.inode in inodes
  {
    match node
    case Directory => Dir
    case Symlink => Link
    case Regular(n) => File(inodes[n].bytes, inodes[n].mode)
  }

  /** The directory tree with file contents and permissions, inode numbers forgotten. */
  ghost function Tree(d: Disk): map<Path, Item>
    requires Valid(d)
  {
    map p <- d.names :: ItemOf(d.names[p], d.inodes)
  }

  // ---- Primitives ----

  function WithFile(d: Disk, p: Path, bytes: string, mode: nat): Disk {
    Disk(d.names[p := Regular(d.next)], d.inodes[d.next := Inode(bytes, mode)], d.next + 1)
  }

  predicate CanRename(d: Disk, src: Path, dst: Path) {
    && src in d.names && d.names[src].Regular?
    && ParentIsDirectory(d, dst)
    && (dst in d.names ==> !d.names[dst].Directory?)
  }

  /** Renaming onto another link of the same inode changes nothing, as POSIX demands. */
  function Renamed(d: Disk, src: Path, dst: Path): Disk
    requires CanRename(d, src, dst)
  {
    if dst in d.names && d.names[dst] == d.names[src] then d
    else d.(names := (d.names - {src})[dst := d.names[src]])
  }

  function Removed(d: Disk, p: Path): Disk {
    if p in d.names && !d.names[p].Directory? then d.(names := d.names - {p}) else d
  }

  /** Where, if anywhere, writing a temp file goes wrong; a write may leave any bytes. */
  datatype WriteFault = NoFault | OpenFault | ModeFault | ContentFault(written: string)

  class FileSystem {
    var disk: Disk

    constructor (d: Disk)
      ensures disk == d
    {
      disk := d;
    }

    /** `write_temp_file`: create-new, then permissions, then contents. */
    method WriteTemp(p: Path, bytes: string, mode: Option<nat>, createMode: nat, fault: WriteFault)
      returns (ok: bool)
      requires Valid(disk)
      modifies this
      ensures Valid(disk) && Kept(old(disk), disk)
      ensures ok <==> fault.NoFault? && p !in old(disk.names) && ParentIsDirectory(old(disk), p)
      ensures ok ==> disk == WithFile(old(disk), p, bytes, if mode.Some? then mode.value else createMode)
      ensures disk.names - {p} == old(disk.names) - {p}
      ensures p in disk.names ==> p in old(disk.names) || disk.names[p].Regular?
    {
      if fault.OpenFault? || p in disk.names || !ParentIsDirectory(disk, p) {
        return false;
      }
      var start, granted := disk, if mode.Some? then mode.value else createMode;
      WithFileIsValid(start, p, "", createMode);
      disk := WithFile(start, p, "", createMode);
      if fault.ModeFault? {
        return false;
      }
      // The permissions, then the contents, of the one file just created.
      if fault.ContentFault? {
        WithFileIsValid(start, p, fault.written, granted);
        disk := WithFile(start, p, fault.written, granted);
        return false;
      }
      WithFileIsValid(start, p, bytes, granted);
      disk := WithFile(start, p, bytes, granted);
      return true;
    }

    method HardLink(src: Path, dst: Path, fault: bool) returns (ok: bool)
      requires Valid(disk)
      modifies this
      ensures Valid(disk)
      ensures ok <==> !fault && src in old(disk.names) && old(disk.names)[src].Regular?
                      && dst !in old(disk.names) && ParentIsDirectory(old(disk), dst)
      ensures disk == if ok then old(disk).(names := old(disk.names)[dst := old(disk.names)[src]]) else old(disk)
    {
      if fault || src !in disk.names || !disk.names[src].Regular? || dst in disk.names
         || !ParentIsDirectory(disk, dst)
      {
        return false;
      }
      disk := disk.(names := disk.names[dst := disk.names[src]]);
      return true;
    }

    method Rename(src: Path, dst: Path, fault: bool) returns (ok: bool)
      requires Valid(disk)
      modifies this
      ensures Valid(disk)
      ensures ok <==> !fault && CanRename(old(disk), src, dst)
      ensures disk == if ok then Renamed(old(disk), src, dst) else old(disk)
    {
      if fault || !CanRename(disk, src, dst) {
        return false;
      }
      RenamedValid(disk, src, dst);
      disk := Renamed(disk, src, dst);
      return true;
    }

    /** `remove_file` with its error dropped. */
    method Remove(p: Path)
      requires Valid(disk)
      modifies this
      ensures Valid(disk) && disk == Removed(old(disk), p)
    {
      disk := Removed(disk, p);
    }
  }

  lemma WithFileIsValid(d: Disk, p: Path, bytes: string, mode: nat)
    requires Valid(d) && p !in d.names && ParentIsDirectory(d, p)
    ensures
      var e := WithFile(d, p, bytes, mode);
      Valid(e) && Kept(d, e) && e.names - {p} == d.names == d.names - {p} && e.names[p].Regular?
  {
    var e := WithFile(d, p, bytes, mode);
    forall q <- e.names ensures ParentIsDirectory(e, q) {
      assert q == p || q in d.names;
      assert |q| > 1 ==> q[..|q| - 1] in d.names;
    }
  }

  lemma RenamedValid(d: Disk, src: Path, dst: Path)
    requires Valid(d) && CanRename(d, src, dst)
    ensures Valid(Renamed(d, src, dst))
  {
    var e := Renamed(d, src, dst);
    forall p <- e.names ensures ParentIsDirectory(e, p) {
      if |p| > 1 {
        var parent := p[..|p| - 1];
        assert p in d.names || p == dst;
        assert parent != src && parent != dst;
      }
    }
  }
}
