/**
The staged half of an edit transaction, over the staged operations alone:
publishing, rolling back and cleaning up (edit.rs).  `plan` is the list of
operations as they are staged; each has a temp file and, when it replaces a
file, a backup link.
*/
module EditProtocol {
  import opened Results
  import opened Paths
  import opened Disks
  import opened EditTypes

  ghost function Scratch(s: Staged): set<Path> {
    {s.temp} + (if s.kind.Create? then {} else {s.kind.backup})
  }

  /** Temp and backup names of the first `k` operations. */
  ghost function ScratchOf(plan: seq<Staged>, k: nat): set<Path>
    requires k <= |plan|
  {
    if k == 0 then {} else ScratchOf(plan, k - 1) + Scratch(plan[k - 1])
  }

  /** Targets differ and no two scratch names coincide. */
  ghost predicate Separate(plan: seq<Staged>) {
    && (forall i, j :: 0 <= i < j < |plan| ==> plan[i].resolved != plan[j].resolved)
    && (forall i, j :: 0 <= i < j < |plan| ==> Scratch(plan[i]) !! Scratch(plan[j]))
    && (forall i :: 0 <= i < |plan| && plan[i].kind.Modify? ==> plan[i].temp != plan[i].kind.backup)
  }

  lemma {:induction false} ScratchIncludes(plan: seq<Staged>, k: nat, i: nat)
    requires i < k <= |plan|
    ensures Scratch(plan[i]) <= ScratchOf(plan, k)
  {
    if i < k - 1 {
      ScratchIncludes(plan, k - 1, i);
    }
  }

  lemma {:induction false} ScratchApart(plan: seq<Staged>, k: nat, i: nat)
    requires Separate(plan) && k <= i < |plan|
    ensures ScratchOf(plan, k) !! Scratch(plan[i])
  {
    if k > 0 {
      ScratchApart(plan, k - 1, i);
    }
  }

  // ---- Names while publishing ----

  /** Names after the first `k` operations were published, the i-th as inode `inos[i]`. */
  ghost function PublishedNames(names: map<Path, Node>, plan: seq<Staged>, inos: seq<nat>, k: nat): map<Path, Node>
    requires k <= |plan| && k <= |inos|
  {
    if k == 0 then names
    else PublishedNames(names, plan, inos, k - 1)[plan[k - 1].resolved := Regular(inos[k - 1])]
  }

  lemma {:induction false} PublishedElsewhere(names: map<Path, Node>, plan: seq<Staged>, inos: seq<nat>, k: nat,
                                              p: Path)
    requires k <= |plan| && k <= |inos| && forall i :: 0 <= i < k ==> plan[i].resolved != p
    ensures p in PublishedNames(names, plan, inos, k) <==> p in names
    ensures p in names ==> PublishedNames(names, plan, inos, k)[p] == names[p]
  {
    if k > 0 {
      PublishedElsewhere(names, plan, inos, k - 1, p);
    }
  }

  ghost predicate TargetFits(d: Disk, s: Staged) {
    if s.kind.Create? then s.resolved !in d.names
    else s.resolved in d.names && d.names[s.resolved].Regular? && d.names[s.resolved].inode in d.inodes
  }

  /** Every target is free of scratch names and every staged inode is new. */
  ghost predicate Publishable(d0: Disk, plan: seq<Staged>, inos: seq<nat>) {
    && Separate(plan) && |inos| == |plan|
    && ScratchOf(plan, |plan|) !! d0.names.Keys
    && (forall i :: 0 <= i < |plan| ==> TargetFits(d0, plan[i]))
    && (forall i :: 0 <= i < |plan| ==> plan[i].resolved !in ScratchOf(plan, |plan|))
    && (forall i :: 0 <= i < |plan| ==> inos[i] !in d0.inodes)
  }

  /** The first `k` operations are published; names other than scratch names show it. */
  ghost predicate PublishedUpTo(d0: Disk, names: map<Path, Node>, plan: seq<Staged>, inos: seq<nat>, k: nat)
    requires k <= |plan| == |inos|
  {
    names - ScratchOf(plan, |plan|) == PublishedNames(d0.names, plan, inos, k)
  }

  ghost predicate BackupsReady(d0: Disk, names: map<Path, Node>, plan: seq<Staged>, k: nat)
    requires k <= |plan|
  {
    forall i :: 0 <= i < k && plan[i].kind.Modify? ==>
      TargetFits(d0, plan[i]) && plan[i].kind.backup in names
      && names[plan[i].kind.backup] == d0.names[plan[i].resolved]
  }

  ghost predicate TempsReady(names: map<Path, Node>, plan: seq<Staged>, inos: seq<nat>, k: nat)
    requires k <= |plan| == |inos|
  {
    forall i :: k <= i < |plan| ==> plan[i].temp in names && names[plan[i].temp] == Regular(inos[i])
  }

  ghost predicate ScratchRegular(names: map<Path, Node>, plan: seq<Staged>) {
    forall p <- names :: p in ScratchOf(plan, |plan|) ==> names[p].Regular?
  }

  /** Publishing operation `k` is one update outside the scratch names. */
  lemma PublishStep(d0: Disk, names: map<Path, Node>, plan: seq<Staged>, inos: seq<nat>, k: nat)
    requires Publishable(d0, plan, inos) && k < |plan| && PublishedUpTo(d0, names, plan, inos, k)
    requires ScratchRegular(names, plan)
    ensures
      var after := names[plan[k].resolved := Regular(inos[k])];
      && PublishedUpTo(d0, after, plan, inos, k + 1) && PublishedUpTo(d0, after - {plan[k].temp}, plan, inos, k + 1)
      && ScratchRegular(after, plan) && ScratchRegular(after - {plan[k].temp}, plan)
    ensures plan[k].kind.Create? ==> plan[k].resolved !in names
    ensures plan[k].kind.Modify? ==> plan[k].resolved in names && names[plan[k].resolved] == d0.names[plan[k].resolved]
  {
    var all := ScratchOf(plan, |plan|);
    ScratchIncludes(plan, |plan|, k);
    PublishedElsewhere(d0.names, plan, inos, k, plan[k].resolved);
    var after := names[plan[k].resolved := Regular(inos[k])];
    assert plan[k].temp in all;
    assert after - all == (names - all)[plan[k].resolved := Regular(inos[k])];
    assert (after - {plan[k].temp}) - all == after - all;
    assert plan[k].resolved in names <==> plan[k].resolved in names - all;
  }

  lemma PublishKeepsReady(d0: Disk, names: map<Path, Node>, plan: seq<Staged>, inos: seq<nat>, k: nat)
    requires Publishable(d0, plan, inos) && k < |plan|
    requires TempsReady(names, plan, inos, k) && BackupsReady(d0, names, plan, |plan|)
    ensures
      var after := names[plan[k].resolved := Regular(inos[k])];
      && TempsReady(after, plan, inos, k + 1) && TempsReady(after - {plan[k].temp}, plan, inos, k + 1)
      && BackupsReady(d0, after, plan, |plan|) && BackupsReady(d0, after - {plan[k].temp}, plan, |plan|)
  {
    forall i | 0 <= i < |plan| ensures plan[i].temp != plan[k].resolved && Scratch(plan[i]) <= ScratchOf(plan, |plan|) {
      ScratchIncludes(plan, |plan|, i);
      assert plan[i].temp in Scratch(plan[i]);
    }
    assert plan[k].temp in Scratch(plan[k]);
    forall i | 0 <= i < |plan| && plan[i].kind.Modify?
      ensures plan[i].kind.backup != plan[k].resolved && plan[i].kind.backup != plan[k].temp
    {
      assert plan[i].kind.backup in Scratch(plan[i]);
      assert i != k ==> Scratch(plan[i]) !! Scratch(plan[k]);
    }
    forall i | k < i < |plan| ensures plan[i].temp != plan[k].temp {
      assert plan[i].temp in Scratch(plan[i]);
    }
  }

  /** Undoing operation `k`, by either form of undo, restores the names before it. */
  lemma UndoStep(d0: Disk, names: map<Path, Node>, plan: seq<Staged>, inos: seq<nat>, k: nat)
    requires Publishable(d0, plan, inos) && k < |plan| && PublishedUpTo(d0, names, plan, inos, k + 1)
    requires BackupsReady(d0, names, plan, k + 1)
    ensures plan[k].resolved in names && names[plan[k].resolved] == Regular(inos[k])
    ensures plan[k].kind.Create? ==>
      var after := names - {plan[k].resolved};
      PublishedUpTo(d0, after, plan, inos, k) && BackupsReady(d0, after, plan, k)
    ensures plan[k].kind.Modify? ==>
      var after := (names - {plan[k].kind.backup})[plan[k].resolved := d0.names[plan[k].resolved]];
      PublishedUpTo(d0, after, plan, inos, k) && BackupsReady(d0, after, plan, k)
  {
    var all, t := ScratchOf(plan, |plan|), plan[k].resolved;
    PublishedElsewhere(d0.names, plan, inos, k, t);
    ScratchIncludes(plan, |plan|, k);
    assert t in names - all;
    forall i | 0 <= i < k && plan[i].kind.Modify? ensures plan[i].kind.backup != t {
      ScratchIncludes(plan, |plan|, i);
      assert plan[i].kind.backup in Scratch(plan[i]);
    }
    if plan[k].kind.Create? {
      assert (names - {t}) - all == (names - all) - {t} == PublishedNames(d0.names, plan, inos, k);
    } else {
      var b := plan[k].kind.backup;
      assert b in Scratch(plan[k]);
      var after := (names - {b})[t := d0.names[t]];
      assert after - all == (names - all)[t := d0.names[t]] == PublishedNames(d0.names, plan, inos, k);
      forall i | 0 <= i < k && plan[i].kind.Modify? ensures plan[i].kind.backup != b {
        assert plan[i].kind.backup in Scratch(plan[i]);
      }
    }
  }

  // ---- The protocol's loops ----

  ghost predicate SameInodes(d: Disk, e: Disk) {
    d.inodes == e.inodes && d.next == e.next
  }

  /** The first `n` operations are published and can all be undone. */
  ghost predicate Undoable(d0: Disk, d: Disk, plan: seq<Staged>, inos: seq<nat>, n: nat)
    requires n <= |plan| == |inos|
  {
    && Valid(d) && BackupsReady(d0, d.names, plan, n) && ScratchRegular(d.names, plan)
    && PublishedUpTo(d0, d.names, plan, inos, n)
  }

  method UndoOne(fs: FileSystem, staged: seq<Staged>, i: nat, ghost d0: Disk, ghost inos: seq<nat>)
    requires Valid(d0) && Publishable(d0, staged, inos) && i < |staged| && Undoable(d0, fs.disk, staged, inos, i + 1)
    modifies fs
    ensures SameInodes(old(fs.disk), fs.disk) && Undoable(d0, fs.disk, staged, inos, i)
  {
    hide PublishedUpTo, ScratchOf;
    var s := staged[i];
    UndoStep(d0, fs.disk.names, staged, inos, i);
    assert TargetFits(d0, s);
    if s.kind.Create? {
      fs.Remove(s.resolved);
    } else {
      var _ := fs.Rename(s.kind.backup, s.resolved, false);
    }
  }

  /** `rollback_staged_operations` on the first `n` operations, newest first. */
  method Rollback(fs: FileSystem, staged: seq<Staged>, n: nat, ghost d0: Disk, ghost inos: seq<nat>)
    requires Valid(d0) && Publishable(d0, staged, inos) && n <= |staged| && Undoable(d0, fs.disk, staged, inos, n)
    modifies fs
    ensures Valid(fs.disk) && SameInodes(old(fs.disk), fs.disk) && ScratchRegular(fs.disk.names, staged)
    ensures PublishedUpTo(d0, fs.disk.names, staged, inos, 0)
  {
    for i := n downto 0
      invariant SameInodes(old(fs.disk), fs.disk) && Undoable(d0, fs.disk, staged, inos, i)
    {
      UndoOne(fs, staged, i, d0, inos);
    }
  }

  ghost predicate RemovableAll(names: map<Path, Node>, paths: set<Path>) {
    forall p <- paths :: p in names ==> !names[p].Directory?
  }

  method CleanupOne(fs: FileSystem, s: Staged)
    requires Valid(fs.disk) && RemovableAll(fs.disk.names, Scratch(s))
    modifies fs
    ensures Valid(fs.disk) && SameInodes(old(fs.disk), fs.disk)
    ensures fs.disk.names == old(fs.disk.names) - Scratch(s)
  {
    assert s.temp in Scratch(s);
    fs.Remove(s.temp);
    if s.kind.Modify? {
      assert s.kind.backup in Scratch(s);
      fs.Remove(s.kind.backup);
    }
  }

  /** `cleanup_staged_operations` on the first `n` operations. */
  method Cleanup(fs: FileSystem, staged: seq<Staged>, n: nat)
    requires Valid(fs.disk) && n <= |staged| && ScratchRegular(fs.disk.names, staged)
    modifies fs
    ensures Valid(fs.disk) && SameInodes(old(fs.disk), fs.disk)
    ensures fs.disk.names == old(fs.disk.names) - ScratchOf(staged, n)
  {
    for i := 0 to n
      invariant Valid(fs.disk) && SameInodes(old(fs.disk), fs.disk)
      invariant fs.disk.names == old(fs.disk.names) - ScratchOf(staged, i)
    {
      ScratchIncludes(staged, |staged|, i);
      assert RemovableAll(fs.disk.names, Scratch(staged[i]));
      CleanupOne(fs, staged[i]);
    }
  }

  /** Where the publish loop stands after `k` operations. */
  ghost predicate Publishing(d0: Disk, d: Disk, plan: seq<Staged>, inos: seq<nat>, k: nat)
    requires k <= |plan|
  {
    && Publishable(d0, plan, inos) && Valid(d) && ScratchRegular(d.names, plan)
    && PublishedUpTo(d0, d.names, plan, inos, k)
    && BackupsReady(d0, d.names, plan, |plan|) && TempsReady(d.names, plan, inos, k)
  }

  method PublishOne(fs: FileSystem, staged: seq<Staged>, k: nat, fault: bool, ghost d0: Disk, ghost inos: seq<nat>)
    returns (ok: bool)
    requires Valid(d0) && k < |staged| && Publishing(d0, fs.disk, staged, inos, k)
    requires ParentIsDirectory(d0, staged[k].resolved)
    modifies fs
    ensures SameInodes(old(fs.disk), fs.disk)
    ensures ok <==> !fault
    ensures ok ==> Publishing(d0, fs.disk, staged, inos, k + 1)
    ensures !ok ==> fs.disk == old(fs.disk)
  {
    var s := staged[k];
    PublishStep(d0, fs.disk.names, staged, inos, k);
    PublishKeepsReady(d0, fs.disk.names, staged, inos, k);
    TempBesideTarget(d0, fs.disk, staged, inos, k);
    assert TargetFits(d0, s);
    ghost var names := fs.disk.names;
    assert s.temp in names && names[s.temp] == Regular(inos[k]);
    if s.kind.Create? {
      ok := fs.HardLink(s.temp, s.resolved, fault);
      assert ok ==> fs.disk.names == names[s.resolved := Regular(inos[k])];
    } else {
      assert names[s.resolved].inode in d0.inodes;
      ok := fs.Rename(s.temp, s.resolved, fault);
      assert s.temp != s.resolved;
      assert ok ==> fs.disk.names == names[s.resolved := Regular(inos[k])] - {s.temp};
    }
  }

  /**
  The publish loop with its failure path: either all operations are published or
  the names are those of `d0`, and no scratch name is left.
  */
  method Publish(fs: FileSystem, staged: seq<Staged>, fault: nat -> bool, ghost d0: Disk, ghost inos: seq<nat>)
    returns (failed: Option<string>)
    requires Valid(d0) && Publishing(d0, fs.disk, staged, inos, 0)
    requires forall i :: 0 <= i < |staged| ==> ParentIsDirectory(d0, staged[i].resolved)
    modifies fs
    ensures Valid(fs.disk) && SameInodes(old(fs.disk), fs.disk) && |inos| == |staged|
    ensures failed.Some? ==> fs.disk.names == d0.names
    ensures failed.Some? ==> exists k :: 0 <= k < |staged| && failed.value == staged[k].relative && fault(k)
    ensures failed.None? ==> fs.disk.names == PublishedNames(d0.names, staged, inos, |staged|)
    ensures (forall k :: !fault(k)) ==> failed.None?
  {
    for k := 0 to |staged|
      invariant SameInodes(old(fs.disk), fs.disk) && Publishing(d0, fs.disk, staged, inos, k)
    {
      var ok := PublishOne(fs, staged, k, fault(k), d0, inos);
      if !ok {
        Rollback(fs, staged, k, d0, inos);
        Cleanup(fs, staged, |staged|);
        return Some(staged[k].relative);
      }
    }
    Cleanup(fs, staged, |staged|);
    return None;
  }

  /** Publishing moves no directory, so a target's directory is still there. */
  lemma TempBesideTarget(d0: Disk, d: Disk, plan: seq<Staged>, inos: seq<nat>, k: nat)
    requires Publishable(d0, plan, inos) && k < |plan| && PublishedUpTo(d0, d.names, plan, inos, k)
    requires ParentIsDirectory(d0, plan[k].resolved)
    ensures ParentIsDirectory(d, plan[k].resolved)
  {
    var t := plan[k].resolved;
    if |t| > 1 {
      var parent := t[..|t| - 1];
      assert parent in d0.names;
      forall i | 0 <= i < k ensures plan[i].resolved != parent {
        assert TargetFits(d0, plan[i]);
      }
      PublishedElsewhere(d0.names, plan, inos, k, parent);
      assert parent in d.names - ScratchOf(plan, |plan|);
    }
  }
}
