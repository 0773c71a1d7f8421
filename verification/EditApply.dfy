/**
Applying a prepared edit transaction (`EditEngine::apply` in edit.rs): the
direct path for one operation and the staged protocol for several.  Any I/O
step may fail, as `Faults` says; removals and the renames of a rollback do not.
*/
module EditApply {
  import opened Results
  import opened Paths
  import opened Disks
  import opened EditTypes
  import opened EditResolve
  import opened EditProtocol
  import opened EditStage
  import opened EditErrors

  function Tag(tx: Transaction, pid: string): string {
    tx.id + "." + pid
  }

  ghost predicate AllPass(env: Env, d: Disk, policy: EditPolicy, ops: seq<PreparedOperation>, payloads: seq<Payload>)
    requires InodesKnown(d.names, d.inodes) && |payloads| == |ops|
  {
    forall i :: 0 <= i < |ops| ==> StageCheck(env, d, policy, ops[i], payloads[i], false).None?
  }

  ghost predicate TargetsClear(plan: seq<Staged>) {
    forall i :: 0 <= i < |plan| ==> plan[i].resolved !in ScratchOf(plan, |plan|)
  }

  /** What a transaction needs of the disk and policy to be applied when no I/O step fails. */
  ghost predicate Applicable(env: Env, d: Disk, policy: EditPolicy, tx: Transaction, pid: string)
    requires Valid(d) && WellPrepared(tx.operations)
  {
    && 0 < |tx.operations| <= policy.maxOperations
    && |tx.payloads| == |tx.operations|
    && AllPass(env, d, policy, tx.operations, tx.payloads)
    && TargetsClear(PlanOf(tx.operations, tx.payloads, Tag(tx, pid)))
    && (|tx.operations| == 1 ==> |tx.payloads[0].content| <= policy.maxFileBytes)
  }

  // ---- The tree a transaction describes ----

  /** The tree with the first `k` operations' targets set to their payloads, old permissions kept. */
  ghost function UpdatedTree(env: Env, d: Disk, ops: seq<PreparedOperation>, payloads: seq<Payload>, k: nat)
    : map<Path, Item>
    requires Valid(d) && k <= |ops| == |payloads|
  {
    if k == 0 then Tree(d)
    else
      var op := ops[k - 1];
      var tree := Tree(d);
      var mode := if op.PreparedModify? && op.resolved in tree && tree[op.resolved].File?
                  then tree[op.resolved].mode else env.createMode;
      UpdatedTree(env, d, ops, payloads, k - 1)[op.resolved := File(payloads[k - 1].content, mode)]
  }

  /** An updated tree differs from the old one at the targets alone, each holding its own payload. */
  lemma {:induction false} UpdatedTreeExactly(env: Env, d: Disk, ops: seq<PreparedOperation>, payloads: seq<Payload>,
                                              k: nat, p: Path)
    requires Valid(d) && WellPrepared(ops) && k <= |ops| == |payloads|
    ensures
      var tree, after := Tree(d), UpdatedTree(env, d, ops, payloads, k);
      && (forall i :: 0 <= i < k && ops[i].resolved == p ==>
            && p in after && after[p].File? && after[p].bytes == payloads[i].content
            && after[p].mode == if ops[i].PreparedModify? && p in tree && tree[p].File? then tree[p].mode
                                else env.createMode)
      && ((forall i :: 0 <= i < k ==> ops[i].resolved != p) ==>
            (p in after <==> p in tree) && (p in tree ==> after[p] == tree[p]))
  {
    hide Tree, Valid;
    if k > 0 {
      UpdatedTreeExactly(env, d, ops, payloads, k - 1, p);
    }
  }

  ghost function TreeOf(names: map<Path, Node>, inodes: map<nat, Inode>): map<Path, Item>
    requires InodesKnown(names, inodes)
  {
    map p <- names :: ItemOf(names[p], inodes)
  }

  lemma TreeOfUpdate(names: map<Path, Node>, inodes: map<nat, Inode>, p: Path, n: nat)
    requires InodesKnown(names, inodes) && n in inodes
    ensures InodesKnown(names[p := Regular(n)], inodes)
    ensures TreeOf(names[p := Regular(n)], inodes) == TreeOf(names, inodes)[p := File(inodes[n].bytes, inodes[n].mode)]
  {
  }

  lemma TreeOfKept(d: Disk, inodes: map<nat, Inode>)
    requires Valid(d) && forall n <- d.inodes :: n in inodes && inodes[n] == d.inodes[n]
    ensures InodesKnown(d.names, inodes) && TreeOf(d.names, inodes) == Tree(d)
  {
  }

  lemma ModeInTree(env: Env, d: Disk, op: PreparedOperation, payload: Payload, tag: string)
    requires Valid(d) && op.resolved != [] && TargetFits(d, StagedFor(op, payload, tag))
    ensures NewInode(env, d, StagedFor(op, payload, tag), payload) ==
      Inode(payload.content,
            if op.PreparedModify? && op.resolved in Tree(d) && Tree(d)[op.resolved].File? then Tree(d)[op.resolved].mode
            else env.createMode)
  {
  }

  lemma {:induction false} TreeAfterPublish(env: Env, d0: Disk, inodes: map<nat, Inode>, ops: seq<PreparedOperation>,
                                            payloads: seq<Payload>, tag: string, inos: seq<nat>, k: nat)
    requires Valid(d0) && WellPrepared(ops) && k <= |ops| == |payloads| == |inos|
    requires forall n <- d0.inodes :: n in inodes && inodes[n] == d0.inodes[n]
    requires
      var plan := PlanOf(ops, payloads, tag);
      forall i :: 0 <= i < k ==>
        && TargetFits(d0, plan[i]) && inos[i] in inodes
        && inodes[inos[i]] == NewInode(env, d0, plan[i], payloads[i])
    ensures
      var names := PublishedNames(d0.names, PlanOf(ops, payloads, tag), inos, k);
      InodesKnown(names, inodes) && TreeOf(names, inodes) == UpdatedTree(env, d0, ops, payloads, k)
  {
    hide InodesKnown, TreeOf, Tree, PlanOf, Valid;
    if k == 0 {
      TreeOfKept(d0, inodes);
    } else {
      TreeAfterPublish(env, d0, inodes, ops, payloads, tag, inos, k - 1);
      var plan := PlanOf(ops, payloads, tag);
      assert TargetFits(d0, plan[k - 1]);
      ModeInTree(env, d0, ops[k - 1], payloads[k - 1], tag);
      TreeOfUpdate(PublishedNames(d0.names, plan, inos, k - 1), inodes, ops[k - 1].resolved, inos[k - 1]);
    }
  }

  lemma SameNamesSameTree(d: Disk, e: Disk)
    requires Valid(d) && Valid(e) && Kept(d, e) && d.names == e.names
    ensures Tree(d) == Tree(e)
  {
  }

  // ---- Checks on a disk with scratch files ----

  lemma CheckWithScratch(env: Env, d0: Disk, d: Disk, policy: EditPolicy, op: PreparedOperation, payload: Payload)
    requires Valid(d0) && Valid(d) && AddsFiles(d0, d)
    requires op.PreparedModify? ==> op.resolved in d0.names || op.resolved !in d.names
    ensures StageCheck(env, d, policy, op, payload, false).None? <==>
      StageCheck(env, d0, policy, op, payload, false).None? && (op.PreparedCreate? ==> op.resolved !in d.names)
  {
    ResolutionWithAddedFiles(env, d0, d, op.relative, policy);
  }

  lemma RecheckWithScratch(env: Env, d0: Disk, d: Disk, policy: EditPolicy, op: PreparedOperation, payload: Payload,
                           tag: string)
    requires Valid(d0) && Valid(d) && AddsFiles(d0, d) && op.resolved != []
    requires StageCheck(env, d0, policy, op, payload, false).None?
    ensures RevalidateCheck(env, d, policy, StagedFor(op, payload, tag), false).None? <==>
      (op.PreparedCreate? ==> op.resolved !in d.names)
    ensures RevalidateCheck(env, d, policy, StagedFor(op, payload, tag), true).Some?
  {
    ResolutionWithAddedFiles(env, d0, d, op.relative, policy);
  }

  lemma {:induction false} ScratchOfPrefix(plan: seq<Staged>, n: nat, k: nat)
    requires k <= n <= |plan|
    ensures ScratchOf(plan[..n], k) == ScratchOf(plan, k)
  {
    if k > 0 {
      ScratchOfPrefix(plan, n, k - 1);
    }
  }

  lemma {:induction false} ScratchGrows(plan: seq<Staged>, k: nat, n: nat)
    requires k <= n <= |plan|
    ensures ScratchOf(plan, k) <= ScratchOf(plan, n)
  {
    if k < n {
      ScratchGrows(plan, k, n - 1);
    }
  }

  // ---- Several operations ----

  ghost predicate Planned(d0: Disk, ops: seq<PreparedOperation>, payloads: seq<Payload>, tag: string,
                          plan: seq<Staged>)
  {
    && Valid(d0) && WellPrepared(ops) && |payloads| == |ops|
    && plan == PlanOf(ops, payloads, tag) && Separate(plan) && ScratchUnused(d0, plan)
  }

  method StageNext(fs: FileSystem, env: Env, ops: seq<PreparedOperation>, payloads: seq<Payload>, tag: string,
                   policy: EditPolicy, faults: Faults, k: nat, ghost d0: Disk, ghost plan: seq<Staged>,
                   ghost inos: seq<nat>)
    returns (r: Result<Staged, EditError>)
    requires Planned(d0, ops, payloads, tag, plan) && k < |ops|
    requires StagedUpTo(env, d0, fs.disk, plan, payloads, inos, k)
    modifies fs
    ensures Valid(fs.disk) && Kept(old(fs.disk), fs.disk)
    ensures r.Err? ==> fs.disk.names == old(fs.disk.names)
    ensures r.Err? ==> OperationFails(env, d0, policy, ops, payloads, plan, !NoFaults(faults), r.error, k)
    ensures r.Ok? ==>
      && r.value == plan[k] && StageCheck(env, d0, policy, ops[k], payloads[k], false).None?
      && StagedUpTo(env, d0, fs.disk, plan, payloads, inos + [old(fs.disk.next)], k + 1)
    ensures NoFaults(faults) && StageCheck(env, d0, policy, ops[k], payloads[k], false).None? ==>
      plan[k].resolved in ScratchOf(plan, |plan|) || r.Ok?
  {
    ghost var d := fs.disk;
    ScratchApart(plan, k, k);
    ScratchIncludes(plan, |plan|, k);
    ScratchGrows(plan, k, |plan|);
    assert plan[k].resolved == ops[k].resolved;
    CheckWithScratch(env, d0, d, policy, ops[k], payloads[k]);
    if StageCheck(env, d0, policy, ops[k], payloads[k], false).None? {
      StageCheckFits(env, d0, policy, ops[k], payloads[k], false, tag);
    }
    r := StageOperation(fs, env, tag, ops[k], payloads[k], policy, faults, k);
    if r.Ok? {
      StageStep(env, d0, d, plan, payloads, inos, k);
    } else if StageCheck(env, d, policy, ops[k], payloads[k], faults.check(k)).Some? {
      StagingFails(env, d0, d, policy, ops, payloads, plan, faults.check(k), !NoFaults(faults), k);
    }
  }

  /** `names` are those of `d0` and the scratch names of `staged`. */
  ghost predicate JustScratch(d0: Disk, names: map<Path, Node>, staged: seq<Staged>) {
    && ScratchOf(staged, |staged|) !! d0.names.Keys
    && names.Keys == d0.names.Keys + ScratchOf(staged, |staged|)
    && (forall p <- d0.names :: p in names && names[p] == d0.names[p])
    && (forall p <- names :: p in d0.names || names[p].Regular?)
  }

  /** Cleanup before anything was published leaves the original names. */
  method CleanupStaged(fs: FileSystem, staged: seq<Staged>, ghost d0: Disk)
    requires Valid(fs.disk) && Kept(d0, fs.disk) && JustScratch(d0, fs.disk.names, staged)
    modifies fs
    ensures Valid(fs.disk) && Kept(d0, fs.disk) && fs.disk.names == d0.names
  {
    Cleanup(fs, staged, |staged|);
  }

  lemma StagedNothing(env: Env, d0: Disk, plan: seq<Staged>, payloads: seq<Payload>)
    requires Valid(d0) && |plan| == |payloads|
    ensures StagedUpTo(env, d0, d0, plan, payloads, [], 0)
  {
  }

  lemma StagedIsJustScratch(env: Env, d0: Disk, d: Disk, plan: seq<Staged>, payloads: seq<Payload>, inos: seq<nat>,
                            k: nat)
    requires k <= |plan| == |payloads| && StagedUpTo(env, d0, d, plan, payloads, inos, k) && ScratchUnused(d0, plan)
    ensures Valid(d) && Kept(d0, d) && AddsFiles(d0, d) && JustScratch(d0, d.names, plan[..k])
    ensures WithSomeScratch(d0, d, plan)
  {
    ScratchOfPrefix(plan, k, k);
    ScratchGrows(plan, k, |plan|);
  }

  lemma KeptTransitive(a: Disk, b: Disk, c: Disk)
    requires Kept(a, b) && Kept(b, c)
    ensures Kept(a, c)
  {
  }

  method StageAll(fs: FileSystem, env: Env, ops: seq<PreparedOperation>, payloads: seq<Payload>, tag: string,
                  policy: EditPolicy, faults: Faults, ghost plan: seq<Staged>)
    returns (r: Result<seq<Staged>, EditError>, ghost inos: seq<nat>)
    requires Planned(fs.disk, ops, payloads, tag, plan)
    modifies fs
    ensures Valid(fs.disk) && Kept(old(fs.disk), fs.disk)
    ensures r.Err? ==> fs.disk.names == old(fs.disk.names)
    ensures r.Err? ==>
      SomeOperationFails(env, old(fs.disk), policy, ops, payloads, plan, !NoFaults(faults), r.error)
    ensures r.Ok? ==>
      && r.value == plan && AllPass(env, old(fs.disk), policy, ops, payloads)
      && StagedUpTo(env, old(fs.disk), fs.disk, plan, payloads, inos, |ops|)
    ensures NoFaults(faults) && AllPass(env, old(fs.disk), policy, ops, payloads) && TargetsClear(plan) ==> r.Ok?
  {
    hide StageCheck, StagedUpTo, Kept, JustScratch, PlanOf, OperationFails;
    ghost var d0 := fs.disk;
    StagedNothing(env, d0, plan, payloads);
    var staged: seq<Staged> := [];
    inos := [];
    for k := 0 to |ops|
      invariant staged == plan[..k]
      invariant StagedUpTo(env, d0, fs.disk, plan, payloads, inos, k)
      invariant forall i :: 0 <= i < k ==> StageCheck(env, d0, policy, ops[i], payloads[i], false).None?
    {
      ghost var d := fs.disk;
      StagedIsJustScratch(env, d0, d, plan, payloads, inos, k);
      var one := StageNext(fs, env, ops, payloads, tag, policy, faults, k, d0, plan, inos);
      if one.Err? {
        KeptTransitive(d0, d, fs.disk);
        CleanupStaged(fs, staged, d0);
        return Err(one.error), inos;
      }
      staged := staged + [one.value];
      inos := inos + [d.next];
    }
    StagedIsJustScratch(env, d0, fs.disk, plan, payloads, inos, |ops|);
    return Ok(staged), inos;
  }

  /** The revalidation loop: with no fault it passes exactly when no scratch file took a create target. */
  method RevalidateAll(fs: FileSystem, env: Env, ops: seq<PreparedOperation>, payloads: seq<Payload>, tag: string,
                       policy: EditPolicy, faults: Faults, staged: seq<Staged>, ghost d0: Disk)
    returns (error: Option<EditError>)
    requires Valid(d0) && Valid(fs.disk) && AddsFiles(d0, fs.disk) && WellPrepared(ops) && |payloads| == |ops|
    requires staged == PlanOf(ops, payloads, tag) && AllPass(env, d0, policy, ops, payloads)
    requires WithSomeScratch(d0, fs.disk, staged)
    ensures error.Some? ==>
      SomeOperationFails(env, d0, policy, ops, payloads, staged, !NoFaults(faults), error.value)
    ensures error.None? ==> forall i :: 0 <= i < |ops| && ops[i].PreparedCreate? ==> ops[i].resolved !in fs.disk.names
    ensures error.Some? && NoFaults(faults) ==>
      exists i :: 0 <= i < |ops| && ops[i].PreparedCreate? && ops[i].resolved in fs.disk.names
  {
    hide StageCheck, RevalidateCheck, OperationFails, WithSomeScratch;
    for i := 0 to |staged|
      invariant forall j :: 0 <= j < i && ops[j].PreparedCreate? ==> ops[j].resolved !in fs.disk.names
    {
      RecheckWithScratch(env, d0, fs.disk, policy, ops[i], payloads[i], tag);
      error := RevalidateCheck(env, fs.disk, policy, staged[i], faults.recheck(i));
      if error.Some? {
        var fault := faults.recheck(i);
        RevalidationFails(env, d0, fs.disk, policy, ops, payloads, tag, staged, fault, !NoFaults(faults), i);
        return;
      }
    }
    return None;
  }

  ghost function AppliedAll(ops: seq<PreparedOperation>, payloads: seq<Payload>): seq<AppliedOperation>
    requires |payloads| == |ops|
  {
    seq(|ops|, i requires 0 <= i < |ops| => Applied(ops[i], |payloads[i].content|))
  }

  /** `apply_multiple_operations_atomically`, after its two size checks. */
  method ApplyStaged(fs: FileSystem, env: Env, ops: seq<PreparedOperation>, payloads: seq<Payload>, tag: string,
                     policy: EditPolicy, faults: Faults, ghost plan: seq<Staged>)
    returns (r: Result<seq<AppliedOperation>, EditError>)
    requires Planned(fs.disk, ops, payloads, tag, plan)
    modifies fs
    ensures Valid(fs.disk) && Kept(old(fs.disk), fs.disk)
    ensures r.Err? ==> fs.disk.names == old(fs.disk.names)
    ensures r.Err? ==>
      SomeOperationFails(env, old(fs.disk), policy, ops, payloads, plan, !NoFaults(faults), r.error)
    ensures r.Ok? ==>
      && AllPass(env, old(fs.disk), policy, ops, payloads) && TargetsClear(plan)
      && Tree(fs.disk) == UpdatedTree(env, old(fs.disk), ops, payloads, |ops|)
      && r.value == AppliedAll(ops, payloads)
    ensures NoFaults(faults) && AllPass(env, old(fs.disk), policy, ops, payloads) && TargetsClear(plan) ==> r.Ok?
  {
    hide StageCheck, StagedUpTo, Valid, Kept, JustScratch, PlanOf, Publishing, SomeOperationFails, WithSomeScratch;
    ghost var d0 := fs.disk;
    var all, inos := StageAll(fs, env, ops, payloads, tag, policy, faults, plan);
    if all.Err? {
      return Err(all.error);
    }
    var staged := all.value;
    ghost var d := fs.disk;
    StagedIsJustScratch(env, d0, d, plan, payloads, inos, |ops|);
    assert plan[..|ops|] == plan;
    var error := RevalidateAll(fs, env, ops, payloads, tag, policy, faults, staged, d0);
    if error.Some? {
      TakenTargetIsScratch(env, d0, d, policy, ops, payloads, tag, inos);
      CleanupStaged(fs, staged, d0);
      return Err(error.value);
    }
    StagedIsPublishable(env, d0, d, policy, ops, payloads, tag, inos);
    var failed := Publish(fs, staged, faults.publish, d0, inos);
    AfterPublish(env, d0, d, fs.disk, ops, payloads, tag, inos);
    if failed.Some? {
      PublishingFails(env, d0, policy, ops, payloads, plan, faults, failed.value);
      return Err(Io(failed.value));
    }
    r := Ok(seq(|staged|, i requires 0 <= i < |staged| => staged[i].applied));
    assert r.value == AppliedAll(ops, payloads);
  }

  lemma PublishingFails(env: Env, d0: Disk, policy: EditPolicy, ops: seq<PreparedOperation>, payloads: seq<Payload>,
                        plan: seq<Staged>, faults: Faults, relative: string)
    requires |plan| == |ops| == |payloads| && forall i :: 0 <= i < |ops| ==> plan[i].relative == ops[i].relative
    requires exists k :: 0 <= k < |plan| && relative == plan[k].relative && faults.publish(k)
    ensures SomeOperationFails(env, d0, policy, ops, payloads, plan, !NoFaults(faults), Io(relative))
  {
    var k :| 0 <= k < |plan| && relative == plan[k].relative && faults.publish(k);
    assert OperationFails(env, d0, policy, ops, payloads, plan, !NoFaults(faults), Io(relative), k);
  }

  lemma AfterPublish(env: Env, d0: Disk, d: Disk, e: Disk, ops: seq<PreparedOperation>, payloads: seq<Payload>,
                     tag: string, inos: seq<nat>)
    requires Valid(d0) && WellPrepared(ops) && |payloads| == |ops|
    requires StagedUpTo(env, d0, d, PlanOf(ops, payloads, tag), payloads, inos, |ops|)
    requires Valid(e) && SameInodes(d, e)
    ensures Kept(d0, e)
    ensures e.names == PublishedNames(d0.names, PlanOf(ops, payloads, tag), inos, |ops|) ==>
      Tree(e) == UpdatedTree(env, d0, ops, payloads, |ops|)
  {
    TreeAfterPublish(env, d0, d.inodes, ops, payloads, tag, inos, |ops|);
  }

  lemma TakenTargetIsScratch(env: Env, d0: Disk, d: Disk, policy: EditPolicy, ops: seq<PreparedOperation>,
                             payloads: seq<Payload>, tag: string, inos: seq<nat>)
    requires Valid(d0) && WellPrepared(ops) && |payloads| == |ops| && AllPass(env, d0, policy, ops, payloads)
    requires StagedUpTo(env, d0, d, PlanOf(ops, payloads, tag), payloads, inos, |ops|)
    ensures TargetsClear(PlanOf(ops, payloads, tag)) ==>
      forall i :: 0 <= i < |ops| && ops[i].PreparedCreate? ==> ops[i].resolved !in d.names
  {
    var plan := PlanOf(ops, payloads, tag);
    if TargetsClear(plan) {
      forall i | 0 <= i < |ops| && ops[i].PreparedCreate? ensures ops[i].resolved !in d.names {
        StageCheckFits(env, d0, policy, ops[i], payloads[i], false, tag);
        assert plan[i].resolved == ops[i].resolved;
      }
    }
  }

  lemma StagedIsPublishable(env: Env, d0: Disk, d: Disk, policy: EditPolicy, ops: seq<PreparedOperation>,
                            payloads: seq<Payload>, tag: string, inos: seq<nat>)
    requires Valid(d0) && WellPrepared(ops) && |payloads| == |ops| && AllPass(env, d0, policy, ops, payloads)
    requires ScratchUnused(d0, PlanOf(ops, payloads, tag))
    requires StagedUpTo(env, d0, d, PlanOf(ops, payloads, tag), payloads, inos, |ops|)
    requires forall i :: 0 <= i < |ops| && ops[i].PreparedCreate? ==> ops[i].resolved !in d.names
    ensures Publishing(d0, d, PlanOf(ops, payloads, tag), inos, 0) && TargetsClear(PlanOf(ops, payloads, tag))
    ensures forall i :: 0 <= i < |ops| ==> ParentIsDirectory(d0, ops[i].resolved)
  {
    hide StageCheck, PlanOf, Kept, Valid, AddsFiles;
    var plan := PlanOf(ops, payloads, tag);
    PlanIsSeparate(ops, payloads, tag);
    forall i | 0 <= i < |ops| ensures ParentIsDirectory(d0, plan[i].resolved) && TargetFits(d0, plan[i]) {
      StageCheckFits(env, d0, policy, ops[i], payloads[i], false, tag);
      assert plan[i] == StagedFor(ops[i], payloads[i], tag);
    }
    TargetsAreClear(d0, d, plan);
    ScratchAddsNothing(d0, d, plan);
  }

  lemma TargetsAreClear(d0: Disk, d: Disk, plan: seq<Staged>)
    requires ScratchUnused(d0, plan) && ScratchOf(plan, |plan|) <= d.names.Keys
    requires forall i :: 0 <= i < |plan| && plan[i].kind.Create? ==> plan[i].resolved !in d.names
    ensures TargetsClear(plan)
  {
    hide ScratchOf;
  }

  lemma ScratchAddsNothing(d0: Disk, d: Disk, plan: seq<Staged>)
    requires AddsFiles(d0, d) && ScratchOf(plan, |plan|) !! d0.names.Keys
    requires d.names.Keys == d0.names.Keys + ScratchOf(plan, |plan|)
    ensures d.names - ScratchOf(plan, |plan|) == d0.names && ScratchRegular(d.names, plan)
  {
    hide ScratchOf;
  }

  // ---- One operation ----

  /** The checks of the direct path: those of staging, and the size of the new content. */
  ghost predicate SinglePasses(env: Env, d: Disk, policy: EditPolicy, op: PreparedOperation, payload: Payload)
    requires InodesKnown(d.names, d.inodes)
  {
    StageCheck(env, d, policy, op, payload, false).None? && |payload.content| <= policy.maxFileBytes
  }

  /** Every step up to and including the temp write succeeds, and the check after it does not. */
  ghost predicate FailsAfterWrite(env: Env, d: Disk, policy: EditPolicy, op: PreparedOperation, payload: Payload,
                                  faults: Faults)
    requires InodesKnown(d.names, d.inodes)
  {
    && SinglePasses(env, d, policy, op, payload)
    && !faults.check(0) && !faults.check(1) && (op.PreparedModify? ==> !faults.stat(0))
    && faults.write(0).NoFault? && faults.recheck(0)
  }

  ghost predicate SingleReady(d: Disk, op: PreparedOperation, tag: string) {
    Valid(d) && op.resolved != [] && TempPath(op.resolved, tag) !in d.names
  }

  /** How the direct path ends: done, nothing changed, or nothing changed but a temp file left behind. */
  ghost predicate SingleOutcome(env: Env, d: Disk, e: Disk, policy: EditPolicy, op: PreparedOperation, payload: Payload,
                                faults: Faults, tag: string, ok: bool)
    requires SingleReady(d, op, tag)
  {
    && Valid(e) && Kept(d, e)
    && (ok ==> SinglePasses(env, d, policy, op, payload) && Tree(e) == UpdatedTree(env, d, [op], [payload], 1))
    && (!ok ==> e.names == d.names || FailsAfterWrite(env, d, policy, op, payload, faults))
    && (FailsAfterWrite(env, d, policy, op, payload, faults) ==>
          !ok && e.names == d.names[TempPath(op.resolved, tag) := Regular(d.next)])
    && (NoFaults(faults) && SinglePasses(env, d, policy, op, payload) ==> ok)
  }

  /** Why the direct path failed. */
  ghost predicate SingleFails(env: Env, d: Disk, policy: EditPolicy, op: PreparedOperation, payload: Payload,
                              faults: Faults, tag: string, e: EditError)
    requires SingleReady(d, op, tag)
  {
    OperationFails(env, d, policy, [op], [payload], PlanOf([op], [payload], tag), !NoFaults(faults), e, 0)
  }

  /** The disk after the direct path published inode `n`. */
  lemma SinglePublished(env: Env, d: Disk, e: Disk, op: PreparedOperation, payload: Payload, tag: string)
    requires SingleReady(d, op, tag) && Valid(e) && TargetFits(d, StagedFor(op, payload, tag))
    requires e.names == d.names[op.resolved := Regular(d.next)]
    requires e.inodes == d.inodes[d.next := NewInode(env, d, StagedFor(op, payload, tag), payload)] && d.next < e.next
    ensures Kept(d, e) && Tree(e) == UpdatedTree(env, d, [op], [payload], 1)
  {
    TreeAfterPublish(env, d, e.inodes, [op], [payload], tag, [d.next], 1);
    assert PublishedNames(d.names, PlanOf([op], [payload], tag), [d.next], 1) == e.names;
  }

  /** Repeating the resolution of a checked operation fails only by a fault, even beside a temp file. */
  lemma RechecksPass(env: Env, d: Disk, e: Disk, policy: EditPolicy, op: PreparedOperation, payload: Payload,
                     fault: bool)
    requires Valid(d) && Valid(e) && AddsFiles(d, e) && StageCheck(env, d, policy, op, payload, false).None?
    requires op.PreparedCreate? ==> op.resolved !in e.names
    ensures op.PreparedCreate? ==>
      var r := ResolveCreateTarget(env, e, op.relative, fault);
      (r.Ok? <==> !fault) && (r.Ok? ==> r.value.resolved == op.resolved)
    ensures op.PreparedModify? ==>
      var r := ReadExisting(env, e, op.relative, policy, fault);
      (r.Ok? <==> !fault) && (r.Ok? ==> r.value.resolved == op.resolved && env.sha256(r.value.text) == op.beforeSha256)
  {
    ResolutionWithAddedFiles(env, d, e, op.relative, policy);
  }

  method WriteDirect(fs: FileSystem, env: Env, temp: Path, content: string, mode: Option<nat>, fault: WriteFault)
    returns (ok: bool)
    requires Valid(fs.disk) && temp !in fs.disk.names && ParentIsDirectory(fs.disk, temp)
    modifies fs
    ensures Valid(fs.disk) && Kept(old(fs.disk), fs.disk)
    ensures ok <==> fault.NoFault?
    ensures !ok ==> fs.disk.names == old(fs.disk.names)
    ensures ok ==> AddsFiles(old(fs.disk), fs.disk)
    ensures ok ==> fs.disk == WithFile(old(fs.disk), temp, content, if mode.Some? then mode.value else env.createMode)
  {
    ok := fs.WriteTemp(temp, content, mode, env.createMode, fault);
    if !ok {
      fs.Remove(temp);
      assert fs.disk.names == fs.disk.names - {temp} == old(fs.disk.names) - {temp} == old(fs.disk.names);
    }
  }

  method LinkAndCleanUp(fs: FileSystem, temp: Path, target: Path, fault: bool, ghost d: Disk)
    returns (ok: bool)
    requires Valid(fs.disk) && temp !in d.names && target !in d.names && temp != target && ParentIsDirectory(d, target)
    requires fs.disk.names == d.names[temp := Regular(d.next)]
    requires forall p <- d.names :: ParentIsDirectory(d, p)
    modifies fs
    ensures Valid(fs.disk) && SameInodes(old(fs.disk), fs.disk)
    ensures ok <==> !fault
    ensures fs.disk.names == if ok then d.names[target := Regular(d.next)] else d.names
  {
    assert ParentIsDirectory(fs.disk, target) by {
      assert |target| > 1 ==> target[..|target| - 1] in d.names;
    }
    ok := fs.HardLink(temp, target, fault);
    fs.Remove(temp);
  }

  lemma NoScratchYet(d: Disk, plan: seq<Staged>)
    requires Valid(d)
    ensures WithSomeScratch(d, d, plan)
  {
  }

  lemma DirectlyDisabled(env: Env, d: Disk, policy: EditPolicy, op: PreparedOperation, payload: Payload,
                         faults: Faults, tag: string)
    requires SingleReady(d, op, tag) && op.PreparedCreate? && !policy.allowCreate
    ensures SingleFails(env, d, policy, op, payload, faults, tag, CreateDisabled)
  {
    NoScratchYet(d, PlanOf([op], [payload], tag));
    assert CheckRefused(env, d, policy, op, payload, !NoFaults(faults), CreateDisabled);
  }

  lemma CheckFailsDirectly(env: Env, d: Disk, policy: EditPolicy, op: PreparedOperation, payload: Payload,
                           faults: Faults, tag: string)
    requires SingleReady(d, op, tag) && StageCheck(env, d, policy, op, payload, faults.check(0)).Some?
    ensures SingleFails(env, d, policy, op, payload, faults, tag,
                        StageCheck(env, d, policy, op, payload, faults.check(0)).value)
  {
    hide StageCheck, OperationFails;
    var plan, faulty := PlanOf([op], [payload], tag), !NoFaults(faults);
    StagingFails(env, d, d, policy, [op], [payload], plan, faults.check(0), faulty, 0);
  }

  lemma TempIsScratch(d: Disk, e: Disk, op: PreparedOperation, payload: Payload, tag: string)
    requires SingleReady(d, op, tag) && Valid(e) && AddsFiles(d, e)
    requires e.names.Keys == d.names.Keys + {TempPath(op.resolved, tag)}
    ensures WithSomeScratch(d, e, PlanOf([op], [payload], tag))
  {
    var plan := PlanOf([op], [payload], tag);
    assert ScratchOf(plan, 0) == {};
    assert ScratchOf(plan, 1) == Scratch(plan[0]);
  }

  /** `apply_create_operation` */
  method ApplyCreate(fs: FileSystem, env: Env, tag: string, op: PreparedOperation, payload: Payload,
                     policy: EditPolicy, faults: Faults)
    returns (r: Result<AppliedOperation, EditError>)
    requires SingleReady(fs.disk, op, tag) && op.PreparedCreate? && payload.CreatePayload?
    modifies fs
    ensures SingleOutcome(env, old(fs.disk), fs.disk, policy, op, payload, faults, tag, r.Ok?)
    ensures r.Err? ==> SingleFails(env, old(fs.disk), policy, op, payload, faults, tag, r.error)
    ensures r.Ok? ==> r.value == Applied(op, |payload.content|)
  {
    hide ResolveCreateTarget, ReadExisting, TempPath, BackupPath, UpdatedTree, Tree;
    var content := payload.content;
    if !policy.allowCreate {
      DirectlyDisabled(env, fs.disk, policy, op, payload, faults, tag);
      return Err(CreateDisabled);
    }
    if |content| > policy.maxFileBytes {
      return Err(FileTooLarge(op.relative, policy.maxFileBytes, |content|));
    }
    hide StageCheck;
    var error := StageCheck(env, fs.disk, policy, op, payload, faults.check(0));
    StageCheckFault(env, fs.disk, policy, op, payload);
    if error.Some? {
      CheckFailsDirectly(env, fs.disk, policy, op, payload, faults, tag);
      return Err(error.value);
    }
    ghost var d, plan := fs.disk, PlanOf([op], [payload], tag);
    StageCheckFits(env, d, policy, op, payload, faults.check(0), tag);
    SiblingInDirectory(d, op.resolved, tag);
    ScratchPathsDistinct(op.resolved, op.resolved, tag);
    RechecksPass(env, d, d, policy, op, payload, faults.check(1));
    var again := ResolveCreateTarget(env, fs.disk, op.relative, faults.check(1));
    if again.Err? {
      NoScratchYet(d, plan);
      ResolvingFails(env, d, d, policy, op, payload, plan, faults.check(1), !NoFaults(faults));
      return Err(again.error);
    }
    assert again.value.resolved == op.resolved;
    var temp := TempPath(op.resolved, tag);
    var ok := WriteDirect(fs, env, temp, content, None, faults.write(0));
    if !ok {
      return Err(Io(op.relative));
    }
    RechecksPass(env, d, fs.disk, policy, op, payload, faults.recheck(0));
    var last := ResolveCreateTarget(env, fs.disk, op.relative, faults.recheck(0));
    if last.Err? {
      TempIsScratch(d, fs.disk, op, payload, tag);
      ResolvingFails(env, d, fs.disk, policy, op, payload, plan, faults.recheck(0), !NoFaults(faults));
      return Err(last.error);
    }
    assert last.value.resolved == op.resolved;
    ok := LinkAndCleanUp(fs, temp, op.resolved, faults.publish(0), d);
    if !ok {
      return Err(if op.resolved in fs.disk.names then TargetExists(op.relative) else Io(op.relative));
    }
    SinglePublished(env, d, fs.disk, op, payload, tag);
    return Ok(Applied(op, |content|));
  }

  method RenameOver(fs: FileSystem, temp: Path, target: Path, fault: bool, ghost d: Disk)
    returns (ok: bool)
    requires Valid(d) && Valid(fs.disk) && temp !in d.names && temp != target
    requires target in d.names && d.names[target].Regular? && d.next !in d.inodes
    requires fs.disk.names == d.names[temp := Regular(d.next)]
    modifies fs
    ensures Valid(fs.disk) && SameInodes(old(fs.disk), fs.disk)
    ensures ok <==> !fault
    ensures fs.disk.names == if ok then d.names[target := Regular(d.next)] else d.names
  {
    assert d.names[target].inode in d.inodes;
    ok := fs.Rename(temp, target, fault);
    if !ok {
      fs.Remove(temp);
    }
  }

  /** `apply_modify_operation` */
  method ApplyModify(fs: FileSystem, env: Env, tag: string, op: PreparedOperation, payload: Payload,
                     policy: EditPolicy, faults: Faults)
    returns (r: Result<AppliedOperation, EditError>)
    requires SingleReady(fs.disk, op, tag) && op.PreparedModify? && payload.ModifyPayload?
    modifies fs
    ensures SingleOutcome(env, old(fs.disk), fs.disk, policy, op, payload, faults, tag, r.Ok?)
    ensures r.Err? ==> SingleFails(env, old(fs.disk), policy, op, payload, faults, tag, r.error)
    ensures r.Ok? ==> r.value == Applied(op, |payload.content|)
  {
    hide ResolveCreateTarget, ReadExisting, TempPath, BackupPath, UpdatedTree, Tree;
    hide StageCheck, ParentIsDirectory, AddsFiles;
    var content := payload.content;
    var error := StageCheck(env, fs.disk, policy, op, payload, faults.check(0));
    StageCheckFault(env, fs.disk, policy, op, payload);
    if error.Some? {
      CheckFailsDirectly(env, fs.disk, policy, op, payload, faults, tag);
      return Err(error.value);
    }
    ghost var d, plan := fs.disk, PlanOf([op], [payload], tag);
    StageCheckFits(env, d, policy, op, payload, faults.check(0), tag);
    SiblingInDirectory(d, op.resolved, tag);
    ScratchPathsDistinct(op.resolved, op.resolved, tag);
    if |content| > policy.maxFileBytes {
      return Err(FileTooLarge(op.relative, policy.maxFileBytes, |content|));
    }
    RechecksPass(env, d, d, policy, op, payload, faults.check(1));
    var again := ReadExisting(env, fs.disk, op.relative, policy, faults.check(1));
    if again.Err? {
      NoScratchYet(d, plan);
      ResolvingFails(env, d, d, policy, op, payload, plan, faults.check(1), !NoFaults(faults));
      return Err(again.error);
    }
    assert again.value.resolved == op.resolved && env.sha256(again.value.text) == op.beforeSha256;
    if faults.stat(0) {
      return Err(Io(op.relative));
    }
    var mode := fs.disk.inodes[fs.disk.names[op.resolved].inode].mode;
    var temp := TempPath(op.resolved, tag);
    var ok := WriteDirect(fs, env, temp, content, Some(mode), faults.write(0));
    if !ok {
      return Err(Io(op.relative));
    }
    RechecksPass(env, d, fs.disk, policy, op, payload, faults.recheck(0));
    var last := ReadExisting(env, fs.disk, op.relative, policy, faults.recheck(0));
    if last.Err? {
      TempIsScratch(d, fs.disk, op, payload, tag);
      ResolvingFails(env, d, fs.disk, policy, op, payload, plan, faults.recheck(0), !NoFaults(faults));
      return Err(last.error);
    }
    assert last.value.resolved == op.resolved && env.sha256(last.value.text) == op.beforeSha256;
    ok := RenameOver(fs, temp, op.resolved, faults.publish(0), d);
    if !ok {
      return Err(Io(op.relative));
    }
    SinglePublished(env, d, fs.disk, op, payload, tag);
    return Ok(Applied(op, |content|));
  }

  // ---- Both paths ----

  /** Nothing bears the names the transaction will use for its scratch files. */
  ghost predicate ReadyToApply(d: Disk, tx: Transaction, pid: string) {
    && Valid(d) && WellPrepared(tx.operations)
    && (|tx.payloads| == |tx.operations| ==> ScratchUnused(d, PlanOf(tx.operations, tx.payloads, Tag(tx, pid))))
  }

  /** The one-operation path got as far as its temp file and then failed its last check. */
  ghost predicate LeavesTemp(env: Env, d: Disk, policy: EditPolicy, tx: Transaction, faults: Faults)
    requires InodesKnown(d.names, d.inodes)
  {
    && |tx.operations| == |tx.payloads| == 1 <= policy.maxOperations
    && FailsAfterWrite(env, d, policy, tx.operations[0], tx.payloads[0], faults)
  }

  /** What the error of a failed apply says. */
  ghost predicate ApplyFails(env: Env, d: Disk, policy: EditPolicy, tx: Transaction, pid: string, faults: Faults,
                             e: EditError)
    requires ReadyToApply(d, tx, pid)
  {
    if |tx.operations| == 0 then e == EmptyTransaction
    else if |tx.operations| > policy.maxOperations
    then e == TooManyOperations(policy.maxOperations, |tx.operations|)
    else if |tx.payloads| != |tx.operations| then e == Io("<edit-transaction>")
    else SomeOperationFails(env, d, policy, tx.operations, tx.payloads,
                            PlanOf(tx.operations, tx.payloads, Tag(tx, pid)), !NoFaults(faults), e)
  }

  lemma SingleFailsApply(env: Env, d: Disk, policy: EditPolicy, tx: Transaction, pid: string, faults: Faults,
                         e: EditError)
    requires ReadyToApply(d, tx, pid) && |tx.operations| == |tx.payloads| == 1 <= policy.maxOperations
    requires SingleReady(d, tx.operations[0], Tag(tx, pid))
    requires SingleFails(env, d, policy, tx.operations[0], tx.payloads[0], faults, Tag(tx, pid), e)
    ensures ApplyFails(env, d, policy, tx, pid, faults, e)
  {
    hide OperationFails;
    assert tx.operations == [tx.operations[0]] && tx.payloads == [tx.payloads[0]];
  }

  lemma KindsDiffer(env: Env, d: Disk, policy: EditPolicy, tx: Transaction, pid: string, faults: Faults)
    requires ReadyToApply(d, tx, pid) && |tx.operations| == |tx.payloads| == 1 <= policy.maxOperations
    requires tx.operations[0].PreparedCreate? <==> tx.payloads[0].ModifyPayload?
    ensures ApplyFails(env, d, policy, tx, pid, faults, Io("<edit-transaction>"))
  {
    var plan := PlanOf(tx.operations, tx.payloads, Tag(tx, pid));
    NoScratchYet(d, plan);
    var e := Io("<edit-transaction>");
    assert CheckRefused(env, d, policy, tx.operations[0], tx.payloads[0], !NoFaults(faults), e);
    assert OperationFails(env, d, policy, tx.operations, tx.payloads, plan, !NoFaults(faults), e, 0);
  }

  /** Transactions applied by one process use different scratch names for a common target. */
  lemma TransactionsApart(target: Path, a: Transaction, b: Transaction, pid: string)
    requires target != [] && a.id != b.id
    ensures TempPath(target, Tag(a, pid)) != TempPath(target, Tag(b, pid))
    ensures BackupPath(target, Tag(a, pid)) != BackupPath(target, Tag(b, pid))
  {
    var x, y := Tag(a, pid), Tag(b, pid);
    assert |x| == |a.id| + 1 + |pid| && |y| == |b.id| + 1 + |pid|;
    assert x[..|a.id|] == a.id && y[..|b.id|] == b.id;
    ScratchPathsByTag(target, x, y);
  }

  /**
  `EditEngine::apply`: all or nothing.  On success the tree is the old one with
  every target set to its payload; on failure no name has changed, except that
  the one-operation path leaves its temp file exactly when `LeavesTemp` holds.
  With no fault it succeeds exactly when the transaction is applicable.
  */
  method Apply(fs: FileSystem, env: Env, tx: Transaction, policy: EditPolicy, pid: string, faults: Faults)
    returns (r: Result<seq<AppliedOperation>, EditError>)
    requires ReadyToApply(fs.disk, tx, pid)
    modifies fs
    ensures Valid(fs.disk) && Kept(old(fs.disk), fs.disk)
    ensures r.Ok? ==>
      && Applicable(env, old(fs.disk), policy, tx, pid)
      && Tree(fs.disk) == UpdatedTree(env, old(fs.disk), tx.operations, tx.payloads, |tx.operations|)
      && r.value == AppliedAll(tx.operations, tx.payloads)
    ensures r.Err? && !LeavesTemp(env, old(fs.disk), policy, tx, faults) ==>
      fs.disk.names == old(fs.disk.names) && Tree(fs.disk) == Tree(old(fs.disk))
    ensures LeavesTemp(env, old(fs.disk), policy, tx, faults) ==>
      && r.Err?
      && var temp := TempPath(tx.operations[0].resolved, Tag(tx, pid));
      fs.disk.names == old(fs.disk.names)[temp := Regular(old(fs.disk.next))]
    ensures NoFaults(faults) && Applicable(env, old(fs.disk), policy, tx, pid) ==> r.Ok?
    ensures r.Err? ==> ApplyFails(env, old(fs.disk), policy, tx, pid, faults, r.error)
  {
    hide Tree, UpdatedTree, StageCheck, TempPath, BackupPath, SomeOperationFails, SingleFails;
    ghost var d := fs.disk;
    var ops, payloads, tag := tx.operations, tx.payloads, Tag(tx, pid);
    if |ops| == 0 {
      return Err(EmptyTransaction);
    }
    if |ops| > policy.maxOperations {
      return Err(TooManyOperations(policy.maxOperations, |ops|));
    }
    if |payloads| != |ops| {
      return Err(Io("<edit-transaction>"));
    }
    if |ops| > 1 {
      PlanIsSeparate(ops, payloads, tag);
      r := ApplyStaged(fs, env, ops, payloads, tag, policy, faults, PlanOf(ops, payloads, tag));
      if r.Err? { SameNamesSameTree(d, fs.disk); }
      return;
    }
    SingleTransaction(env, d, policy, tx, pid);
    var one;
    if ops[0].PreparedCreate? && payloads[0].CreatePayload? {
      one := ApplyCreate(fs, env, tag, ops[0], payloads[0], policy, faults);
    } else if ops[0].PreparedModify? && payloads[0].ModifyPayload? {
      one := ApplyModify(fs, env, tag, ops[0], payloads[0], policy, faults);
    } else {
      KindsDiffer(env, d, policy, tx, pid, faults);
      return Err(Io("<edit-transaction>"));
    }
    if one.Err? {
      SingleFailsApply(env, d, policy, tx, pid, faults, one.error);
      if fs.disk.names == d.names { SameNamesSameTree(d, fs.disk); }
      return Err(one.error);
    }
    assert AppliedAll(ops, payloads) == [one.value];
    return Ok([one.value]);
  }

  lemma SingleTransaction(env: Env, d: Disk, policy: EditPolicy, tx: Transaction, pid: string)
    requires ReadyToApply(d, tx, pid) && |tx.operations| == |tx.payloads| == 1 <= policy.maxOperations
    ensures SingleReady(d, tx.operations[0], Tag(tx, pid))
    ensures tx.operations == [tx.operations[0]] && tx.payloads == [tx.payloads[0]]
    ensures Applicable(env, d, policy, tx, pid) <==> SinglePasses(env, d, policy, tx.operations[0], tx.payloads[0])
    ensures !(tx.operations[0].PreparedCreate? && tx.payloads[0].CreatePayload?)
            && !(tx.operations[0].PreparedModify? && tx.payloads[0].ModifyPayload?) ==>
      !SinglePasses(env, d, policy, tx.operations[0], tx.payloads[0])
  {
    var plan := PlanOf(tx.operations, tx.payloads, Tag(tx, pid));
    ScratchPathsDistinct(plan[0].resolved, plan[0].resolved, Tag(tx, pid));
    assert ScratchOf(plan, 0) == {};
    assert ScratchOf(plan, 1) == Scratch(plan[0]);
    assert plan[0].temp in Scratch(plan[0]);
  }

  /** A failed read or resolution is always an error. */
  lemma StageCheckFault(env: Env, d: Disk, policy: EditPolicy, op: PreparedOperation, payload: Payload)
    requires InodesKnown(d.names, d.inodes)
    ensures StageCheck(env, d, policy, op, payload, true).Some?
    ensures op.PreparedCreate? && !policy.allowCreate ==> StageCheck(env, d, policy, op, payload, false).Some?
    ensures op.PreparedModify? && !policy.allowModify ==> StageCheck(env, d, policy, op, payload, false).Some?
  {
  }
}
