/**
Checking and staging prepared operations (`stage_operation` and
`revalidate_staged_operation` in edit.rs).
*/
module EditStage {
  import opened Results
  import opened Paths
  import opened Disks
  import opened EditTypes
  import opened EditResolve
  import opened EditProtocol

  /** Which I/O steps fail; the argument is the operation's index. */
  datatype Faults = Faults(
    check: nat -> bool,
    stat: nat -> bool,
    write: nat -> WriteFault,
    link: nat -> bool,
    recheck: nat -> bool,
    publish: nat -> bool
  )

  ghost predicate NoFaults(f: Faults) {
    && (forall k :: !f.check(k)) && (forall k :: !f.stat(k)) && (forall k :: f.write(k).NoFault?)
    && (forall k :: !f.link(k)) && (forall k :: !f.recheck(k)) && (forall k :: !f.publish(k))
  }

  function PayloadCheck(env: Env, op: PreparedOperation, payload: Payload): Option<EditError> {
    var found := env.sha256(payload.content);
    if found != op.afterSha256 || |payload.content| != op.afterBytes
    then Some(HashMismatch(op.relative, op.afterSha256, found))
    else None
  }

  /** The validation half of `stage_operation`; `None` means it passed. */
  function StageCheck(env: Env, d: Disk, policy: EditPolicy, op: PreparedOperation, payload: Payload, fault: bool)
    : (r: Option<EditError>)
    requires InodesKnown(d.names, d.inodes)
  {
    if op.PreparedCreate? && payload.CreatePayload? then
      if !policy.allowCreate then Some(CreateDisabled)
      else
        match ResolveCreateTarget(env, d, op.relative, fault)
        case Err(e) => Some(e)
        case Ok(at) =>
          if at != Located(op.relative, op.resolved) then Some(PathOutsideRoot(op.relative))
          else PayloadCheck(env, op, payload)
    else if op.PreparedModify? && payload.ModifyPayload? then
      if !policy.allowModify then Some(ModifyDisabled)
      else
        match ReadExisting(env, d, op.relative, policy, fault)
        case Err(e) => Some(e)
        case Ok(file) =>
          if file.relative != op.relative || file.resolved != op.resolved then Some(PathOutsideRoot(op.relative))
          else if env.sha256(file.text) != op.beforeSha256 || |file.text| != op.beforeBytes then
            Some(HashMismatch(op.relative, op.beforeSha256, env.sha256(file.text)))
          else PayloadCheck(env, op, payload)
    else Some(Io("<edit-transaction>"))
  }

  /** `revalidate_staged_operation` */
  function RevalidateCheck(env: Env, d: Disk, policy: EditPolicy, s: Staged, fault: bool): Option<EditError>
    requires InodesKnown(d.names, d.inodes)
  {
    match s.expectedBefore
    case None =>
      (match ResolveCreateTarget(env, d, s.relative, fault)
       case Err(e) => Some(e)
       case Ok(at) => if at != Located(s.relative, s.resolved) then Some(PathOutsideRoot(s.relative)) else None)
    case Some(expected) =>
      match ReadExisting(env, d, s.relative, policy, fault)
      case Err(e) => Some(e)
      case Ok(file) =>
        if file.relative != s.relative || file.resolved != s.resolved then Some(PathOutsideRoot(s.relative))
        else if env.sha256(file.text) != expected
        then Some(HashMismatch(s.relative, expected, env.sha256(file.text)))
        else None
  }

  // ---- Staging one operation ----

  function StagedFor(op: PreparedOperation, payload: Payload, tag: string): Staged
    requires op.resolved != []
  {
    Staged(op.relative, op.resolved, TempPath(op.resolved, tag),
           if op.PreparedCreate? then None else Some(op.beforeSha256),
           if op.PreparedCreate? then Create else Modify(BackupPath(op.resolved, tag)),
           Applied(op, |payload.content|))
  }

  /** The file an operation publishes: its payload, with the old permissions when it replaces a file. */
  ghost function NewInode(env: Env, d: Disk, s: Staged, payload: Payload): Inode
    requires TargetFits(d, s)
  {
    Inode(payload.content, if s.kind.Create? then env.createMode else d.inodes[d.names[s.resolved].inode].mode)
  }

  ghost function StagedDisk(env: Env, d: Disk, s: Staged, payload: Payload): Disk
    requires TargetFits(d, s)
  {
    var inode := NewInode(env, d, s, payload);
    var e := WithFile(d, s.temp, inode.bytes, inode.mode);
    if s.kind.Create? then e else e.(names := e.names[s.kind.backup := d.names[s.resolved]])
  }

  lemma StageCheckFits(env: Env, d: Disk, policy: EditPolicy, op: PreparedOperation, payload: Payload, fault: bool,
                       tag: string)
    requires Valid(d) && op.resolved != []
    requires StageCheck(env, d, policy, op, payload, fault).None?
    ensures StageCheck(env, d, policy, op, payload, false).None?
    ensures TargetFits(d, StagedFor(op, payload, tag)) && ParentIsDirectory(d, op.resolved)
  {
  }

  lemma SiblingInDirectory(d: Disk, target: Path, tag: string)
    requires target != [] && ParentIsDirectory(d, target)
    ensures ParentIsDirectory(d, TempPath(target, tag)) && ParentIsDirectory(d, BackupPath(target, tag))
  {
    var n := |target| - 1;
    assert TempPath(target, tag)[..n] == target[..n] == BackupPath(target, tag)[..n];
  }

  /** The writing half of `stage_operation`, given the names it uses. */
  method WriteScratch(fs: FileSystem, env: Env, s: Staged, payload: Payload, stat: bool, write: WriteFault, link: bool)
    returns (ok: bool)
    requires Valid(fs.disk) && TargetFits(fs.disk, s) && Scratch(s) !! fs.disk.names.Keys
    requires ParentIsDirectory(fs.disk, s.temp)
    requires s.kind.Modify? ==> s.temp != s.kind.backup && ParentIsDirectory(fs.disk, s.kind.backup)
    modifies fs
    ensures Valid(fs.disk) && Kept(old(fs.disk), fs.disk)
    ensures !ok ==> fs.disk.names == old(fs.disk.names)
    ensures ok ==> fs.disk == StagedDisk(env, old(fs.disk), s, payload)
    ensures !stat && write.NoFault? && !link ==> ok
  {
    assert s.temp in Scratch(s);
    if s.kind.Modify? && stat {
      return false;
    }
    var mode := if s.kind.Create? then None else Some(fs.disk.inodes[fs.disk.names[s.resolved].inode].mode);
    ok := fs.WriteTemp(s.temp, payload.content, mode, env.createMode, write);
    if !ok {
      fs.Remove(s.temp);
      assert fs.disk.names == fs.disk.names - {s.temp} == old(fs.disk.names) - {s.temp} == old(fs.disk.names);
      return false;
    }
    if s.kind.Modify? {
      assert s.kind.backup in Scratch(s);
      ok := fs.HardLink(s.resolved, s.kind.backup, link);
      if !ok {
        fs.Remove(s.temp);
        fs.Remove(s.kind.backup);
        assert fs.disk.names == old(fs.disk.names);
      }
    }
  }

  method StageOperation(fs: FileSystem, env: Env, tag: string, op: PreparedOperation, payload: Payload,
                        policy: EditPolicy, faults: Faults, k: nat)
    returns (r: Result<Staged, EditError>)
    requires Valid(fs.disk) && op.resolved != [] && Scratch(StagedFor(op, payload, tag)) !! fs.disk.names.Keys
    modifies fs
    ensures Valid(fs.disk) && Kept(old(fs.disk), fs.disk)
    ensures r.Err? ==> fs.disk.names == old(fs.disk.names)
    ensures r.Err? ==>
      || StageCheck(env, old(fs.disk), policy, op, payload, faults.check(k)) == Some(r.error)
      || (r.error == Io(op.relative) && !NoFaults(faults))
    ensures r.Ok? ==>
      && r.value == StagedFor(op, payload, tag)
      && StageCheck(env, old(fs.disk), policy, op, payload, false).None? && TargetFits(old(fs.disk), r.value)
      && fs.disk == StagedDisk(env, old(fs.disk), r.value, payload)
    ensures NoFaults(faults) && StageCheck(env, old(fs.disk), policy, op, payload, false).None? ==> r.Ok?
  {
    var error := StageCheck(env, fs.disk, policy, op, payload, faults.check(k));
    if error.Some? {
      return Err(error.value);
    }
    StageCheckFits(env, fs.disk, policy, op, payload, faults.check(k), tag);
    SiblingInDirectory(fs.disk, op.resolved, tag);
    ScratchPathsDistinct(op.resolved, op.resolved, tag);
    var s := StagedFor(op, payload, tag);
    var ok := WriteScratch(fs, env, s, payload, faults.stat(k), faults.write(k), faults.link(k));
    r := if ok then Ok(s) else Err(Io(op.relative));
  }

  // ---- Staging all operations ----

  /** Prepared operations name distinct files. */
  ghost predicate WellPrepared(ops: seq<PreparedOperation>) {
    && (forall i :: 0 <= i < |ops| ==> ops[i].resolved != [])
    && (forall i, j :: 0 <= i < j < |ops| ==> ops[i].resolved != ops[j].resolved)
  }

  /** Every operation as it will be staged. */
  ghost function PlanOf(ops: seq<PreparedOperation>, payloads: seq<Payload>, tag: string): (plan: seq<Staged>)
    requires WellPrepared(ops) && |payloads| == |ops|
    ensures |plan| == |ops|
    ensures forall i :: 0 <= i < |ops| ==> plan[i] == StagedFor(ops[i], payloads[i], tag)
  {
    seq(|ops|, i requires 0 <= i < |ops| => StagedFor(ops[i], payloads[i], tag))
  }

  lemma PlanIsSeparate(ops: seq<PreparedOperation>, payloads: seq<Payload>, tag: string)
    requires WellPrepared(ops) && |payloads| == |ops|
    ensures Separate(PlanOf(ops, payloads, tag))
  {
    var plan := PlanOf(ops, payloads, tag);
    forall i, j | 0 <= i < |plan| && 0 <= j < |plan|
      ensures i < j ==> Scratch(plan[i]) !! Scratch(plan[j])
      ensures plan[i].kind.Modify? ==> plan[i].temp != plan[i].kind.backup
    {
      ScratchPathsDistinct(ops[i].resolved, ops[j].resolved, tag);
      ScratchPathsDistinct(ops[j].resolved, ops[i].resolved, tag);
      ScratchPathsDistinct(ops[i].resolved, ops[i].resolved, tag);
    }
  }

  /** The scratch names are free: nothing bears them and no file to be modified does. */
  ghost predicate ScratchUnused(d: Disk, plan: seq<Staged>) {
    && ScratchOf(plan, |plan|) !! d.names.Keys
    && (forall i :: 0 <= i < |plan| && plan[i].kind.Modify? ==> plan[i].resolved !in ScratchOf(plan, |plan|))
  }

  ghost predicate InodesStaged(env: Env, d0: Disk, d: Disk, plan: seq<Staged>, payloads: seq<Payload>, inos: seq<nat>,
                               k: nat)
    requires k <= |plan| == |payloads| && k <= |inos|
  {
    forall i :: 0 <= i < k ==>
      && TargetFits(d0, plan[i]) && inos[i] !in d0.inodes && inos[i] in d.inodes
      && d.inodes[inos[i]] == NewInode(env, d0, plan[i], payloads[i])
  }

  ghost predicate TempsStaged(d: Disk, plan: seq<Staged>, inos: seq<nat>, k: nat)
    requires k <= |plan| && k <= |inos|
  {
    forall i :: 0 <= i < k ==> plan[i].temp in d.names && d.names[plan[i].temp] == Regular(inos[i])
  }

  /** `d` is `d0` with the first `k` operations staged. */
  ghost predicate StagedUpTo(env: Env, d0: Disk, d: Disk, plan: seq<Staged>, payloads: seq<Payload>, inos: seq<nat>,
                             k: nat)
    requires k <= |plan| == |payloads|
  {
    && Valid(d) && Kept(d0, d) && AddsFiles(d0, d) && |inos| == k
    && d.names.Keys == d0.names.Keys + ScratchOf(plan, k)
    && TempsStaged(d, plan, inos, k)
    && InodesStaged(env, d0, d, plan, payloads, inos, k)
    && BackupsReady(d0, d.names, plan, k)
  }

  /** Staging adds names and one inode, and touches nothing else. */
  ghost predicate StagingAdds(d: Disk, e: Disk, s: Staged) {
    && e.names.Keys == d.names.Keys + Scratch(s)
    && (forall p <- d.names :: p in e.names && e.names[p] == d.names[p])
    && (forall p <- e.names :: p in d.names || e.names[p].Regular?)
    && s.temp in e.names && e.names[s.temp] == Regular(d.next)
    && (s.kind.Modify? ==>
          s.resolved in d.names && s.kind.backup in e.names && e.names[s.kind.backup] == d.names[s.resolved])
  }

  lemma StagedDiskAdds(env: Env, d: Disk, s: Staged, payload: Payload)
    requires TargetFits(d, s) && Scratch(s) !! d.names.Keys && (s.kind.Modify? ==> s.temp != s.kind.backup)
    ensures StagingAdds(d, StagedDisk(env, d, s, payload), s)
  {
    assert s.temp in Scratch(s);
    assert s.kind.Modify? ==> s.kind.backup in Scratch(s);
  }

  lemma NamesStep(d0: Disk, d: Disk, e: Disk, plan: seq<Staged>, inos: seq<nat>, k: nat)
    requires k < |plan| && |inos| == k && StagingAdds(d, e, plan[k]) && Kept(d0, e)
    requires AddsFiles(d0, d) && d.names.Keys == d0.names.Keys + ScratchOf(plan, k)
    requires TempsStaged(d, plan, inos, k) && BackupsReady(d0, d.names, plan, k)
    requires TargetFits(d0, plan[k])
    ensures AddsFiles(d0, e) && e.names.Keys == d0.names.Keys + ScratchOf(plan, k + 1)
    ensures TempsStaged(e, plan, inos + [d.next], k + 1) && BackupsReady(d0, e.names, plan, k + 1)
  {
    forall i | 0 <= i < k + 1 && plan[i].kind.Modify?
      ensures TargetFits(d0, plan[i]) && plan[i].kind.backup in e.names
      ensures e.names[plan[i].kind.backup] == d0.names[plan[i].resolved]
    {
    }
  }

  lemma StageStep(env: Env, d0: Disk, d: Disk, plan: seq<Staged>, payloads: seq<Payload>, inos: seq<nat>, k: nat)
    requires Separate(plan) && ScratchUnused(d0, plan)
    requires k < |plan| == |payloads| && StagedUpTo(env, d0, d, plan, payloads, inos, k)
    requires TargetFits(d, plan[k]) && TargetFits(d0, plan[k])
    ensures
      var e := StagedDisk(env, d, plan[k], payloads[k]);
      Valid(e) ==> StagedUpTo(env, d0, e, plan, payloads, inos + [d.next], k + 1)
  {
    ScratchApart(plan, k, k);
    ScratchIncludes(plan, |plan|, k);
    StagedDiskAdds(env, d, plan[k], payloads[k]);
    InodesStep(env, d0, d, plan, payloads, inos, k);
    NamesStep(d0, d, StagedDisk(env, d, plan[k], payloads[k]), plan, inos, k);
  }

  lemma InodesStep(env: Env, d0: Disk, d: Disk, plan: seq<Staged>, payloads: seq<Payload>, inos: seq<nat>, k: nat)
    requires Valid(d) && Kept(d0, d) && AddsFiles(d0, d) && |inos| == k
    requires k < |plan| == |payloads| && InodesStaged(env, d0, d, plan, payloads, inos, k)
    requires TargetFits(d, plan[k]) && TargetFits(d0, plan[k])
    ensures
      var e := StagedDisk(env, d, plan[k], payloads[k]);
      Kept(d0, e) && InodesStaged(env, d0, e, plan, payloads, inos + [d.next], k + 1)
  {
    var e, more := StagedDisk(env, d, plan[k], payloads[k]), inos + [d.next];
    assert e.inodes == d.inodes[d.next := NewInode(env, d, plan[k], payloads[k])];
    assert NewInode(env, d, plan[k], payloads[k]) == NewInode(env, d0, plan[k], payloads[k]);
    forall i | 0 <= i < k ensures more[i] == inos[i] && inos[i] != d.next {}
  }
}
