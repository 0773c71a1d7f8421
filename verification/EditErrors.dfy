/** What the errors of the edit engine say: each names a condition that holds of the request and the disk (edit.rs). */
module EditErrors {
  import opened Results
  import opened Paths
  import opened Disks
  import opened EditTypes
  import opened EditResolve
  import opened EditProtocol
  import opened EditStage

  // ---- Resolution ----

  ghost predicate AncestorMissing(d: Disk, p: Path) {
    exists k :: 0 < k < |p| && p[..k] !in d.names
  }

  ghost predicate AncestorLinked(d: Disk, p: Path) {
    exists k :: 0 < k < |p| && p[..k] in d.names && d.names[p[..k]].Symlink?
  }

  /** `path` names `p`. */
  ghost predicate Leads(path: string, p: Path) {
    Validate(path) == Ok(p)
  }

  ghost predicate HoldsFile(d: Disk, p: Path, bytes: string) {
    && p in d.names && d.names[p].Regular? && d.names[p].inode in d.inodes
    && d.inodes[d.names[p].inode].bytes == bytes
  }

  /** Why a path is refused before its target is looked at. */
  ghost predicate PathRefused(env: Env, d: Disk, path: string, e: EditError) {
    match e
    case BadPath(reason, q) => q == path && Validate(path) == Err(reason)
    case SensitivePathDenied(q) => q == path && exists p :: Leads(path, p) && env.sensitive(p)
    case ParentMissing(q) => q == path && exists p :: Leads(path, p) && AncestorMissing(d, p)
    case SymlinkRejected(q) => q == path && exists p :: Leads(path, p) && AncestorLinked(d, p)
    case _ => false
  }

  /** Why a create target is refused. */
  ghost predicate CreateRefused(env: Env, d: Disk, path: string, fault: bool, e: EditError) {
    || PathRefused(env, d, path, e)
    || match e
       case ParentMissing(q) => q == path && fault
       case UnsupportedFileType(q) => q == path && exists p :: Leads(path, p) && !ParentIsDirectory(d, p)
       case TargetExists(q) => q == path && exists p :: Leads(path, p) && p in d.names
       case _ => false
  }

  /** Why an existing file is refused. */
  ghost predicate ReadRefused(env: Env, d: Disk, path: string, policy: EditPolicy, fault: bool, e: EditError) {
    || PathRefused(env, d, path, e)
    || match e
       case TargetMissing(q) => q == path && exists p :: Leads(path, p) && p !in d.names
       case SymlinkRejected(q) => q == path && exists p :: Leads(path, p) && p in d.names && d.names[p].Symlink?
       case PathOutsideRoot(q) =>
         q == path && exists p :: Leads(path, p) && env.grantedTarget.Some? && env.grantedTarget.value != p
       case ExpectedFile(q) => q == path && exists p :: Leads(path, p) && p in d.names && d.names[p].Directory?
       case Io(q) => q == path && fault
       case FileTooLarge(q, max, actual) =>
         && q == path && max == policy.maxFileBytes < actual
         && exists p, bytes :: Leads(path, p) && HoldsFile(d, p, bytes) && |bytes| == actual
       case NotUtf8(q) => q == path && exists p, bytes :: Leads(path, p) && HoldsFile(d, p, bytes) && !env.utf8(bytes)
       case _ => false
  }

  lemma {:induction false} ParentErrorIsTrue(d: Disk, p: Path, k: nat, path: string)
    requires p != [] && k <= |p| - 1
    ensures
      match ParentError(d, p[..|p| - 1], k, path)
      case None => true
      case Some(ParentMissing(q)) => q == path && AncestorMissing(d, p)
      case Some(SymlinkRejected(q)) => q == path && AncestorLinked(d, p)
      case Some(_) => false
    decreases |p| - k
  {
    var parent := p[..|p| - 1];
    if k < |parent| {
      assert parent[..k + 1] == p[..k + 1];
      ParentErrorIsTrue(d, p, k + 1, path);
    }
  }

  lemma NormalisedErrorIsTrue(env: Env, d: Disk, path: string)
    ensures Normalised(env, d, path).Err? ==> PathRefused(env, d, path, Normalised(env, d, path).error)
    ensures Normalised(env, d, path).Ok? ==> Leads(path, Normalised(env, d, path).value)
  {
    if Validate(path).Ok? {
      var p := Validate(path).value;
      assert Leads(path, p);
      ValidateIsIdempotent(path);
      ParentErrorIsTrue(d, p, 0, path);
    }
    hide Validate;
  }

  lemma CreateErrorIsTrue(env: Env, d: Disk, path: string, fault: bool)
    ensures ResolveCreateTarget(env, d, path, fault).Err? ==>
      CreateRefused(env, d, path, fault, ResolveCreateTarget(env, d, path, fault).error)
  {
    NormalisedErrorIsTrue(env, d, path);
    hide Normalised, PathRefused, Leads;
  }

  lemma ReadErrorIsTrue(env: Env, d: Disk, path: string, policy: EditPolicy, fault: bool)
    requires InodesKnown(d.names, d.inodes)
    ensures ReadExisting(env, d, path, policy, fault).Err? ==>
      ReadRefused(env, d, path, policy, fault, ReadExisting(env, d, path, policy, fault).error)
    ensures ReadExisting(env, d, path, policy, fault).Ok? ==>
      var file := ReadExisting(env, d, path, policy, fault).value;
      && Leads(path, file.resolved) && file.relative == SlashString(file.resolved)
      && HoldsFile(d, file.resolved, file.text)
  {
    NormalisedErrorIsTrue(env, d, path);
    hide Normalised, PathRefused, Leads, SlashString;
    if Normalised(env, d, path).Ok? {
      var p := Normalised(env, d, path).value;
      if p in d.names && d.names[p].Regular? {
        assert HoldsFile(d, p, d.inodes[d.names[p].inode].bytes);
      }
    }
  }

  // ---- The checks of staging and revalidation ----

  ghost predicate PayloadRefused(env: Env, op: PreparedOperation, payload: Payload, e: EditError) {
    && e == HashMismatch(op.relative, op.afterSha256, env.sha256(payload.content))
    && (env.sha256(payload.content) != op.afterSha256 || |payload.content| != op.afterBytes)
  }

  /** The file an operation is to change is not the one it was prepared for. */
  ghost predicate BeforeRefused(env: Env, d: Disk, op: PreparedOperation, e: EditError) {
    && op.PreparedModify?
    && exists p, bytes ::
         && Leads(op.relative, p) && HoldsFile(d, p, bytes)
         && e == HashMismatch(op.relative, op.beforeSha256, env.sha256(bytes))
         && (env.sha256(bytes) != op.beforeSha256 || |bytes| != op.beforeBytes)
  }

  ghost predicate PlaceRefused(op: PreparedOperation, e: EditError) {
    && e == PathOutsideRoot(op.relative)
    && exists p :: Leads(op.relative, p) && (SlashString(p) != op.relative || p != op.resolved)
  }

  /** Why a prepared operation is refused. */
  ghost predicate CheckRefused(env: Env, d: Disk, policy: EditPolicy, op: PreparedOperation, payload: Payload,
                               fault: bool, e: EditError)
  {
    || (op.PreparedCreate? && !policy.allowCreate && e == CreateDisabled)
    || (op.PreparedModify? && !policy.allowModify && e == ModifyDisabled)
    || (op.PreparedCreate? && CreateRefused(env, d, op.relative, fault, e))
    || (op.PreparedModify? && ReadRefused(env, d, op.relative, policy, fault, e))
    || PlaceRefused(op, e) || BeforeRefused(env, d, op, e) || PayloadRefused(env, op, payload, e)
    || (e == Io("<edit-transaction>") && (op.PreparedCreate? <==> payload.ModifyPayload?))
  }

  lemma ResolvedElsewhere(env: Env, d: Disk, op: PreparedOperation, fault: bool)
    ensures
      var at := ResolveCreateTarget(env, d, op.relative, fault);
      at.Ok? && at.value != Located(op.relative, op.resolved) ==> PlaceRefused(op, PathOutsideRoot(op.relative))
  {
    NormalisedErrorIsTrue(env, d, op.relative);
    hide Normalised, Leads, SlashString;
  }

  lemma PayloadErrorIsTrue(env: Env, op: PreparedOperation, payload: Payload)
    ensures
      var error := PayloadCheck(env, op, payload);
      error.Some? ==> PayloadRefused(env, op, payload, error.value)
  {
  }

  lemma StageCreateErrorIsTrue(env: Env, d: Disk, policy: EditPolicy, op: PreparedOperation, payload: Payload,
                               fault: bool)
    requires InodesKnown(d.names, d.inodes) && op.PreparedCreate?
    ensures
      var error := StageCheck(env, d, policy, op, payload, fault);
      error.Some? ==> CheckRefused(env, d, policy, op, payload, fault, error.value)
  {
    CreateErrorIsTrue(env, d, op.relative, fault);
    ResolvedElsewhere(env, d, op, fault);
    PayloadErrorIsTrue(env, op, payload);
    hide CreateRefused, ResolveCreateTarget, PlaceRefused, PayloadRefused, PayloadCheck;
  }

  lemma StageModifyErrorIsTrue(env: Env, d: Disk, policy: EditPolicy, op: PreparedOperation, payload: Payload,
                               fault: bool)
    requires InodesKnown(d.names, d.inodes) && op.PreparedModify?
    ensures
      var error := StageCheck(env, d, policy, op, payload, fault);
      error.Some? ==> CheckRefused(env, d, policy, op, payload, fault, error.value)
  {
    ReadErrorIsTrue(env, d, op.relative, policy, fault);
    PayloadErrorIsTrue(env, op, payload);
    hide ReadRefused, Leads, HoldsFile, ReadExisting, SlashString, PayloadRefused, PayloadCheck;
  }

  lemma StageErrorIsTrue(env: Env, d: Disk, policy: EditPolicy, op: PreparedOperation, payload: Payload, fault: bool)
    requires InodesKnown(d.names, d.inodes)
    ensures
      var error := StageCheck(env, d, policy, op, payload, fault);
      error.Some? ==> CheckRefused(env, d, policy, op, payload, fault, error.value)
  {
    hide StageCheck, CheckRefused;
    if op.PreparedCreate? {
      StageCreateErrorIsTrue(env, d, policy, op, payload, fault);
    } else {
      StageModifyErrorIsTrue(env, d, policy, op, payload, fault);
    }
  }

  lemma RevalidateErrorIsTrue(env: Env, d: Disk, policy: EditPolicy, op: PreparedOperation, payload: Payload,
                              tag: string, fault: bool)
    requires InodesKnown(d.names, d.inodes) && op.resolved != []
    ensures
      var error := RevalidateCheck(env, d, policy, StagedFor(op, payload, tag), fault);
      error.Some? ==> CheckRefused(env, d, policy, op, payload, fault, error.value)
  {
    CreateErrorIsTrue(env, d, op.relative, fault);
    ReadErrorIsTrue(env, d, op.relative, policy, fault);
    ResolvedElsewhere(env, d, op, fault);
    hide CreateRefused, ReadRefused, Leads, HoldsFile, ResolveCreateTarget, ReadExisting, SlashString;
  }

  /** What passes the staging checks, told by the disk: nothing is skipped and nothing else is asked. */
  lemma StageCheckExactly(env: Env, d: Disk, policy: EditPolicy, op: PreparedOperation, payload: Payload)
    requires Valid(d)
    ensures StageCheck(env, d, policy, op, payload, false).None? <==>
      && Leads(op.relative, op.resolved) && op.relative == SlashString(op.resolved) && !env.sensitive(op.resolved)
      && env.sha256(payload.content) == op.afterSha256 && |payload.content| == op.afterBytes
      && (if op.PreparedCreate?
          then payload.CreatePayload? && policy.allowCreate && ParentIsDirectory(d, op.resolved)
               && op.resolved !in d.names
          else
            && payload.ModifyPayload? && policy.allowModify
            && (env.grantedTarget.Some? ==> env.grantedTarget.value == op.resolved)
            && exists bytes ::
                 && HoldsFile(d, op.resolved, bytes) && |bytes| <= policy.maxFileBytes && env.utf8(bytes)
                 && env.sha256(bytes) == op.beforeSha256 && |bytes| == op.beforeBytes)
  {
    if Validate(op.relative).Ok? {
      ValidateIsIdempotent(op.relative);
    }
    CreateTargetExactly(env, d, op.relative);
    ReadExactly(env, d, op.relative, policy);
    hide Validate, SlashString, ResolveCreateTarget, ReadExisting, ParentIsDirectory;
    if op.PreparedModify? && op.resolved in d.names && d.names[op.resolved].Regular? {
      assert HoldsFile(d, op.resolved, d.inodes[d.names[op.resolved].inode].bytes);
    }
  }

  /** What passes revalidation: the target still free, or still the file it was prepared for. */
  lemma RevalidateExactly(env: Env, d: Disk, policy: EditPolicy, op: PreparedOperation, payload: Payload, tag: string)
    requires Valid(d) && op.resolved != []
    ensures RevalidateCheck(env, d, policy, StagedFor(op, payload, tag), false).None? <==>
      && Leads(op.relative, op.resolved) && op.relative == SlashString(op.resolved) && !env.sensitive(op.resolved)
      && (if op.PreparedCreate? then ParentIsDirectory(d, op.resolved) && op.resolved !in d.names
          else
            && (env.grantedTarget.Some? ==> env.grantedTarget.value == op.resolved)
            && exists bytes ::
                 && HoldsFile(d, op.resolved, bytes) && |bytes| <= policy.maxFileBytes && env.utf8(bytes)
                 && env.sha256(bytes) == op.beforeSha256)
  {
    CreateTargetExactly(env, d, op.relative);
    ReadExactly(env, d, op.relative, policy);
    hide Validate, SlashString, ResolveCreateTarget, ReadExisting, ParentIsDirectory;
    if op.PreparedModify? && op.resolved in d.names && d.names[op.resolved].Regular? {
      assert HoldsFile(d, op.resolved, d.inodes[d.names[op.resolved].inode].bytes);
    }
  }

  // ---- What a failed apply says ----

  /** `d` is the disk a transaction started from, perhaps with some of its scratch files. */
  ghost predicate WithSomeScratch(d0: Disk, d: Disk, plan: seq<Staged>) {
    Valid(d) && AddsFiles(d0, d) && d.names.Keys <= d0.names.Keys + ScratchOf(plan, |plan|)
  }

  /** Operation `i` was refused, or an I/O step of it failed, or its new content is too large. */
  ghost predicate OperationFails(env: Env, d0: Disk, policy: EditPolicy, ops: seq<PreparedOperation>,
                                 payloads: seq<Payload>, plan: seq<Staged>, faulty: bool, e: EditError, i: nat)
  {
    && i < |ops| == |payloads|
    && (|| (faulty && e == Io(ops[i].relative))
        || (&& |ops| == 1 && e == FileTooLarge(ops[i].relative, policy.maxFileBytes, |payloads[i].content|)
            && policy.maxFileBytes < |payloads[i].content|)
        || exists d :: WithSomeScratch(d0, d, plan) && CheckRefused(env, d, policy, ops[i], payloads[i], faulty, e))
  }

  ghost predicate SomeOperationFails(env: Env, d0: Disk, policy: EditPolicy, ops: seq<PreparedOperation>,
                                     payloads: seq<Payload>, plan: seq<Staged>, faulty: bool, e: EditError)
  {
    exists i :: OperationFails(env, d0, policy, ops, payloads, plan, faulty, e, i)
  }

  /** A fault that is reported is a fault that was planned. */
  lemma FaultsOnlyAdd(env: Env, d: Disk, policy: EditPolicy, op: PreparedOperation, payload: Payload,
                      fault: bool, faulty: bool, e: EditError)
    requires CheckRefused(env, d, policy, op, payload, fault, e) && (fault ==> faulty)
    ensures CheckRefused(env, d, policy, op, payload, faulty, e)
  {
    hide PathRefused, PlaceRefused, BeforeRefused, PayloadRefused, Leads, HoldsFile;
  }

  /** A refusal while staging, on the disk staged so far. */
  lemma StagingFails(env: Env, d0: Disk, d: Disk, policy: EditPolicy, ops: seq<PreparedOperation>,
                     payloads: seq<Payload>, plan: seq<Staged>, fault: bool, faulty: bool, k: nat)
    requires k < |ops| == |payloads| && WithSomeScratch(d0, d, plan) && (fault ==> faulty)
    requires StageCheck(env, d, policy, ops[k], payloads[k], fault).Some?
    ensures
      var e := StageCheck(env, d, policy, ops[k], payloads[k], fault).value;
      OperationFails(env, d0, policy, ops, payloads, plan, faulty, e, k)
  {
    hide StageCheck, CheckRefused;
    StageErrorIsTrue(env, d, policy, ops[k], payloads[k], fault);
    var e := StageCheck(env, d, policy, ops[k], payloads[k], fault).value;
    FaultsOnlyAdd(env, d, policy, ops[k], payloads[k], fault, faulty, e);
  }

  /** A refusal while revalidating. */
  lemma RevalidationFails(env: Env, d0: Disk, d: Disk, policy: EditPolicy, ops: seq<PreparedOperation>,
                          payloads: seq<Payload>, tag: string, plan: seq<Staged>, fault: bool, faulty: bool, k: nat)
    requires k < |ops| == |payloads| && ops[k].resolved != [] && WithSomeScratch(d0, d, plan) && (fault ==> faulty)
    requires RevalidateCheck(env, d, policy, StagedFor(ops[k], payloads[k], tag), fault).Some?
    ensures
      var e := RevalidateCheck(env, d, policy, StagedFor(ops[k], payloads[k], tag), fault).value;
      OperationFails(env, d0, policy, ops, payloads, plan, faulty, e, k)
  {
    hide RevalidateCheck, CheckRefused;
    RevalidateErrorIsTrue(env, d, policy, ops[k], payloads[k], tag, fault);
    var e := RevalidateCheck(env, d, policy, StagedFor(ops[k], payloads[k], tag), fault).value;
    FaultsOnlyAdd(env, d, policy, ops[k], payloads[k], fault, faulty, e);
  }

  /** A refusal of the direct path, while resolving once more. */
  lemma ResolvingFails(env: Env, d0: Disk, d: Disk, policy: EditPolicy, op: PreparedOperation, payload: Payload,
                       plan: seq<Staged>, fault: bool, faulty: bool)
    requires WithSomeScratch(d0, d, plan) && (fault ==> faulty)
    ensures op.PreparedCreate? && ResolveCreateTarget(env, d, op.relative, fault).Err? ==>
      OperationFails(env, d0, policy, [op], [payload], plan, faulty,
                     ResolveCreateTarget(env, d, op.relative, fault).error, 0)
    ensures op.PreparedModify? && ReadExisting(env, d, op.relative, policy, fault).Err? ==>
      OperationFails(env, d0, policy, [op], [payload], plan, faulty,
                     ReadExisting(env, d, op.relative, policy, fault).error, 0)
  {
    CreateErrorIsTrue(env, d, op.relative, fault);
    ReadErrorIsTrue(env, d, op.relative, policy, fault);
    hide ResolveCreateTarget, ReadExisting, CreateRefused, ReadRefused, PlaceRefused, BeforeRefused, PayloadRefused;
    var create := ResolveCreateTarget(env, d, op.relative, fault);
    var read := ReadExisting(env, d, op.relative, policy, fault);
    if op.PreparedCreate? && create.Err? {
      FaultsOnlyAdd(env, d, policy, op, payload, fault, faulty, create.error);
    }
    if op.PreparedModify? && read.Err? {
      FaultsOnlyAdd(env, d, policy, op, payload, fault, faulty, read.error);
    }
  }
}
