/** Preparing an edit transaction (`EditEngine::preview` in edit.rs), and applying what was previewed. */
module EditPreview {
  import opened Results
  import opened Paths
  import opened Disks
  import opened EditTypes
  import opened EditResolve
  import opened EditProtocol
  import opened EditStage
  import opened EditErrors
  import opened EditApply
  import Hunks

  datatype Prepared = Prepared(operation: PreparedOperation, payload: Payload)

  /** A change of an existing file to `after`, once its duplicate and hash checks passed. */
  function PreparedChange(env: Env, policy: EditPolicy, file: TextFile, after: string, hunkCount: nat): Prepared {
    Prepared(PreparedModify(file.relative, file.resolved, env.sha256(file.text), env.sha256(after),
                            |file.text|, |after|, hunkCount),
             ModifyPayload(after))
  }

  /** One turn of the loop; `seen` holds the relative paths taken so far. */
  function PrepareOne(env: Env, d: Disk, policy: EditPolicy, op: EditOperation, seen: set<string>)
    : Result<Prepared, EditError>
    requires InodesKnown(d.names, d.inodes)
  {
    match op
    case CreateTextFile(path, content) =>
      if !policy.allowCreate then Err(CreateDisabled)
      else if |content| > policy.maxFileBytes then Err(FileTooLarge(path, policy.maxFileBytes, |content|))
      else
        (match ResolveCreateTarget(env, d, path, false)
         case Err(e) => Err(e)
         case Ok(at) =>
           if at.relative in seen then Err(DuplicateTarget(at.relative))
           else
             Ok(Prepared(PreparedCreate(at.relative, at.resolved, env.sha256(content), |content|),
                         CreatePayload(content))))
    case ModifyTextFile(path, expected, hunks) =>
      if !policy.allowModify then Err(ModifyDisabled)
      else
        (match ReadExisting(env, d, path, policy, false)
         case Err(e) => Err(e)
         case Ok(file) =>
           if file.relative in seen then Err(DuplicateTarget(file.relative))
           else if env.sha256(file.text) != expected
           then Err(HashMismatch(file.relative, expected, env.sha256(file.text)))
           else
             match Hunks.ApplyHunksSpec(file.text, hunks)
             case Err(e) => Err(BadHunk(e, file.relative))
             case Ok(after) =>
               if |after| > policy.maxFileBytes then Err(FileTooLarge(file.relative, policy.maxFileBytes, |after|))
               else Ok(PreparedChange(env, policy, file, after, |hunks|)))
    case ReplaceTextFile(path, expected, content) =>
      if !policy.allowModify then Err(ModifyDisabled)
      else if |content| > policy.maxFileBytes then Err(FileTooLarge(path, policy.maxFileBytes, |content|))
      else
        match ReadExisting(env, d, path, policy, false)
        case Err(e) => Err(e)
        case Ok(file) =>
          if file.relative in seen then Err(DuplicateTarget(file.relative))
          else if env.sha256(file.text) != expected
          then Err(HashMismatch(file.relative, expected, env.sha256(file.text)))
          else Ok(PreparedChange(env, policy, file, content, 1))
  }

  function PrepareAll(env: Env, d: Disk, policy: EditPolicy, ops: seq<EditOperation>, seen: set<string>)
    : (r: Result<seq<Prepared>, EditError>)
    requires InodesKnown(d.names, d.inodes)
    ensures r.Ok? ==> |r.value| == |ops|
  {
    if ops == [] then Ok([])
    else
      match PrepareOne(env, d, policy, ops[0], seen)
      case Err(e) => Err(e)
      case Ok(first) =>
        match PrepareAll(env, d, policy, ops[1..], seen + {first.operation.relative})
        case Err(e) => Err(e)
        case Ok(rest) => Ok([first] + rest)
  }

  function Operations(all: seq<Prepared>): seq<PreparedOperation> {
    seq(|all|, i requires 0 <= i < |all| => all[i].operation)
  }

  function Payloads(all: seq<Prepared>): seq<Payload> {
    seq(|all|, i requires 0 <= i < |all| => all[i].payload)
  }

  function PreviewSpec(env: Env, d: Disk, policy: EditPolicy, ops: seq<EditOperation>, id: string)
    : Result<Transaction, EditError>
    requires InodesKnown(d.names, d.inodes)
  {
    if |ops| == 0 then Err(EmptyTransaction)
    else if |ops| > policy.maxOperations then Err(TooManyOperations(policy.maxOperations, |ops|))
    else if env.requestBytes(ops) > policy.maxTransactionBytes
    then Err(TransactionTooLarge(policy.maxTransactionBytes, env.requestBytes(ops)))
    else
      match PrepareAll(env, d, policy, ops, {})
      case Err(e) => Err(e)
      case Ok(all) => Ok(Transaction(id, Operations(all), Payloads(all)))
  }

  method Preview(fs: FileSystem, env: Env, policy: EditPolicy, ops: seq<EditOperation>, id: string)
    returns (r: Result<Transaction, EditError>)
    requires Valid(fs.disk)
    ensures r == PreviewSpec(env, fs.disk, policy, ops, id)
  {
    hide PrepareOne;
    if |ops| == 0 {
      return Err(EmptyTransaction);
    }
    if |ops| > policy.maxOperations {
      return Err(TooManyOperations(policy.maxOperations, |ops|));
    }
    if env.requestBytes(ops) > policy.maxTransactionBytes {
      return Err(TransactionTooLarge(policy.maxTransactionBytes, env.requestBytes(ops)));
    }
    var done: seq<Prepared> := [];
    var operations: seq<PreparedOperation>, payloads: seq<Payload> := [], [];
    var seen: set<string> := {};
    assert ops[0..] == ops;
    PrependNothing(PrepareAll(env, fs.disk, policy, ops, {}));
    for k := 0 to |ops|
      invariant operations == Operations(done) && payloads == Payloads(done)
      invariant PrepareAll(env, fs.disk, policy, ops, {}) ==
        Prepend(done, PrepareAll(env, fs.disk, policy, ops[k..], seen))
    {
      var one := PrepareOne(env, fs.disk, policy, ops[k], seen);
      assert ops[k..][0] == ops[k] && ops[k..][1..] == ops[k + 1..];
      if one.Err? {
        return Err(one.error);
      }
      seen := seen + {one.value.operation.relative};
      ghost var rest := PrepareAll(env, fs.disk, policy, ops[k + 1..], seen);
      assert rest.Ok? ==> done + ([one.value] + rest.value) == (done + [one.value]) + rest.value;
      done := done + [one.value];
      operations := operations + [one.value.operation];
      payloads := payloads + [one.value.payload];
    }
    assert done + [] == done;
    assert PrepareAll(env, fs.disk, policy, ops, {}) == Ok(done);
    return Ok(Transaction(id, operations, payloads));
  }

  function Prepend(done: seq<Prepared>, r: Result<seq<Prepared>, EditError>): Result<seq<Prepared>, EditError> {
    match r
    case Err(e) => Err(e)
    case Ok(rest) => Ok(done + rest)
  }

  lemma PrependNothing(r: Result<seq<Prepared>, EditError>)
    ensures Prepend([], r) == r
  {
    assert r.Ok? ==> [] + r.value == r.value;
  }

  // ---- What a preview promises ----

  /** `content` is what `op` asks the file at `p` to hold. */
  ghost predicate Describes(env: Env, d: Disk, op: EditOperation, p: Path, content: string) {
    && Validate(op.path) == Ok(p)
    && match op
       case CreateTextFile(_, wanted) => p !in d.names && content == wanted
       case ModifyTextFile(_, expected, hunks) =>
         && p in d.names && d.names[p].Regular? && d.names[p].inode in d.inodes
         && var before := d.inodes[d.names[p].inode].bytes;
         env.sha256(before) == expected && Hunks.ApplyHunksSpec(before, hunks) == Ok(content)
       case ReplaceTextFile(_, expected, wanted) =>
         && p in d.names && d.names[p].Regular? && d.names[p].inode in d.inodes
         && env.sha256(d.inodes[d.names[p].inode].bytes) == expected && content == wanted
  }

  /** What the disk and the policy must allow for `op` to be prepared as `content` at `p`. */
  ghost predicate Preparable(env: Env, d: Disk, policy: EditPolicy, op: EditOperation, seen: set<string>, p: Path,
                             content: string)
  {
    && Describes(env, d, op, p, content)
    && !env.sensitive(p) && SlashString(p) !in seen && |content| <= policy.maxFileBytes
    && if op.CreateTextFile? then policy.allowCreate && ParentIsDirectory(d, p)
       else
         var before := d.inodes[d.names[p].inode].bytes;
         && policy.allowModify && (env.grantedTarget.Some? ==> env.grantedTarget.value == p)
         && |before| <= policy.maxFileBytes && env.utf8(before)
  }

  /** `op` is prepared exactly when something is preparable for it, and then as that. */
  ghost predicate PreparedAsAllowed(env: Env, d: Disk, policy: EditPolicy, op: EditOperation, seen: set<string>)
    requires InodesKnown(d.names, d.inodes)
  {
    var one := PrepareOne(env, d, policy, op, seen);
    && (one.Ok? ==>
          Preparable(env, d, policy, op, seen, one.value.operation.resolved, one.value.payload.content))
    && ((exists p, content :: Preparable(env, d, policy, op, seen, p, content)) ==> one.Ok?)
  }

  lemma PreparesCreate(env: Env, d: Disk, policy: EditPolicy, op: EditOperation, seen: set<string>)
    requires Valid(d) && op.CreateTextFile?
    ensures PreparedAsAllowed(env, d, policy, op, seen)
  {
    if Validate(op.path).Ok? {
      ValidateIsIdempotent(op.path);
    }
    CreateTargetExactly(env, d, op.path);
    hide Validate, SlashString, Hunks.ApplyHunksSpec, ResolveCreateTarget, ReadExisting, ParentIsDirectory, Valid;
  }

  lemma PreparesModify(env: Env, d: Disk, policy: EditPolicy, op: EditOperation, seen: set<string>)
    requires Valid(d) && op.ModifyTextFile?
    ensures PreparedAsAllowed(env, d, policy, op, seen)
  {
    ReadExactly(env, d, op.path, policy);
    hide Validate, SlashString, Hunks.ApplyHunksSpec, ResolveCreateTarget, ReadExisting, ParentIsDirectory, Valid;
  }

  lemma PreparesReplace(env: Env, d: Disk, policy: EditPolicy, op: EditOperation, seen: set<string>)
    requires Valid(d) && op.ReplaceTextFile?
    ensures PreparedAsAllowed(env, d, policy, op, seen)
  {
    ReadExactly(env, d, op.path, policy);
    hide Validate, SlashString, Hunks.ApplyHunksSpec, ResolveCreateTarget, ReadExisting, ParentIsDirectory, Valid;
  }

  /** An operation is prepared exactly when some content at some path is preparable, and then as that. */
  lemma PreparesExactly(env: Env, d: Disk, policy: EditPolicy, op: EditOperation, seen: set<string>)
    requires Valid(d)
    ensures
      var one := PrepareOne(env, d, policy, op, seen);
      && (one.Ok? <==> exists p, content :: Preparable(env, d, policy, op, seen, p, content))
      && (one.Ok? ==>
            Preparable(env, d, policy, op, seen, one.value.operation.resolved, one.value.payload.content))
  {
    hide PrepareOne, Preparable;
    match op
    case CreateTextFile(_, _) => PreparesCreate(env, d, policy, op, seen);
    case ModifyTextFile(_, _, _) => PreparesModify(env, d, policy, op, seen);
    case ReplaceTextFile(_, _, _) => PreparesReplace(env, d, policy, op, seen);
  }

  /** What is prepared for `op` at `p`, field by field. */
  ghost function PreparedFrom(env: Env, d: Disk, op: EditOperation, p: Path, content: string): Prepared
    requires op.CreateTextFile? || exists bytes :: HoldsFile(d, p, bytes)
  {
    match op
    case CreateTextFile(_, _) =>
      Prepared(PreparedCreate(SlashString(p), p, env.sha256(content), |content|), CreatePayload(content))
    case ModifyTextFile(_, _, hunks) =>
      var bytes :| HoldsFile(d, p, bytes);
      Prepared(PreparedModify(SlashString(p), p, env.sha256(bytes), env.sha256(content), |bytes|, |content|, |hunks|),
               ModifyPayload(content))
    case ReplaceTextFile(_, _, _) =>
      var bytes :| HoldsFile(d, p, bytes);
      Prepared(PreparedModify(SlashString(p), p, env.sha256(bytes), env.sha256(content), |bytes|, |content|, 1),
               ModifyPayload(content))
  }

  lemma PreparableHasFile(env: Env, d: Disk, policy: EditPolicy, op: EditOperation, seen: set<string>, p: Path,
                          content: string)
    requires Preparable(env, d, policy, op, seen, p, content) && !op.CreateTextFile?
    ensures HoldsFile(d, p, d.inodes[d.names[p].inode].bytes)
  {
  }

  /** Nothing else is preparable for the same operation. */
  lemma PreparableUnique(env: Env, d: Disk, policy: EditPolicy, op: EditOperation, seen: set<string>, p: Path,
                         content: string, q: Path, other: string)
    requires Preparable(env, d, policy, op, seen, p, content) && Preparable(env, d, policy, op, seen, q, other)
    ensures p == q && content == other
  {
    hide Validate, SlashString, Hunks.ApplyHunksSpec;
  }

  /** A prepared operation records the target, the hashes and sizes before and after, and the number of hunks. */
  lemma PreparedFields(env: Env, d: Disk, policy: EditPolicy, op: EditOperation, seen: set<string>)
    requires Valid(d) && PrepareOne(env, d, policy, op, seen).Ok?
    ensures
      var one := PrepareOne(env, d, policy, op, seen).value;
      var p, content := one.operation.resolved, one.payload.content;
      && Preparable(env, d, policy, op, seen, p, content)
      && (op.CreateTextFile? || exists bytes :: HoldsFile(d, p, bytes))
      && one == PreparedFrom(env, d, op, p, content)
  {
    PreparesExactly(env, d, policy, op, seen);
    var one := PrepareOne(env, d, policy, op, seen).value;
    if !op.CreateTextFile? {
      PreparableHasFile(env, d, policy, op, seen, one.operation.resolved, one.payload.content);
    }
    ReadErrorIsTrue(env, d, op.path, policy, false);
    hide Validate, SlashString, Hunks.ApplyHunksSpec, ReadExisting, Preparable, Leads;
    CreateResolves(env, d, op.path);
    hide ResolveCreateTarget;
  }

  lemma CreateResolves(env: Env, d: Disk, path: string)
    ensures
      var at := ResolveCreateTarget(env, d, path, false);
      at.Ok? ==> at.value.relative == SlashString(at.value.resolved)
  {
    hide Normalised, SlashString;
  }

  // ---- Exactly when a preview succeeds ----

  /** Every operation can be prepared, at targets with different relative paths outside `seen`. */
  ghost predicate AllPreparable(env: Env, d: Disk, policy: EditPolicy, ops: seq<EditOperation>, seen: set<string>,
                                targets: seq<Path>, contents: seq<string>)
  {
    && |targets| == |contents| == |ops|
    && (forall i :: 0 <= i < |ops| ==> Preparable(env, d, policy, ops[i], seen, targets[i], contents[i]))
    && (forall i, j :: 0 <= i < j < |ops| ==> SlashString(targets[i]) != SlashString(targets[j]))
  }

  ghost function TargetsOf(all: seq<Prepared>): seq<Path> {
    seq(|all|, i requires 0 <= i < |all| => all[i].operation.resolved)
  }

  ghost function ContentsOf(all: seq<Prepared>): seq<string> {
    seq(|all|, i requires 0 <= i < |all| => all[i].payload.content)
  }

  lemma SeenLess(env: Env, d: Disk, policy: EditPolicy, op: EditOperation, few: set<string>, many: set<string>, p: Path,
                 content: string)
    requires few <= many
    ensures Preparable(env, d, policy, op, many, p, content) <==>
      Preparable(env, d, policy, op, few, p, content) && SlashString(p) !in many
  {
    hide Describes, SlashString;
  }

  lemma {:induction false} PreparedAllPreparable(env: Env, d: Disk, policy: EditPolicy, ops: seq<EditOperation>,
                                                 seen: set<string>)
    requires Valid(d) && PrepareAll(env, d, policy, ops, seen).Ok?
    ensures
      var all := PrepareAll(env, d, policy, ops, seen).value;
      AllPreparable(env, d, policy, ops, seen, TargetsOf(all), ContentsOf(all))
  {
    hide PrepareOne, Preparable, SlashString;
    if ops != [] {
      var first := PrepareOne(env, d, policy, ops[0], seen).value;
      PreparesExactly(env, d, policy, ops[0], seen);
      RelativeIsSlash(env, d, policy, ops[0], seen);
      var more := seen + {first.operation.relative};
      PreparedAllPreparable(env, d, policy, ops[1..], more);
      var rest := PrepareAll(env, d, policy, ops[1..], more).value;
      var all := PrepareAll(env, d, policy, ops, seen).value;
      var targets, contents := TargetsOf(all), ContentsOf(all);
      forall i | 0 < i < |ops|
        ensures Preparable(env, d, policy, ops[i], seen, targets[i], contents[i]) && SlashString(targets[i]) !in more
      {
        assert ops[i] == ops[1..][i - 1];
        assert targets[i] == TargetsOf(rest)[i - 1] && contents[i] == ContentsOf(rest)[i - 1];
        SeenLess(env, d, policy, ops[i], seen, more, targets[i], contents[i]);
      }
      forall i, j | 0 <= i < j < |ops| ensures SlashString(targets[i]) != SlashString(targets[j]) {
        assert targets[j] == TargetsOf(rest)[j - 1];
        if i > 0 { assert targets[i] == TargetsOf(rest)[i - 1]; }
      }
    }
  }

  lemma RelativeIsSlash(env: Env, d: Disk, policy: EditPolicy, op: EditOperation, seen: set<string>)
    requires Valid(d) && PrepareOne(env, d, policy, op, seen).Ok?
    ensures
      var one := PrepareOne(env, d, policy, op, seen).value;
      one.operation.relative == SlashString(one.operation.resolved)
  {
    PreparedFields(env, d, policy, op, seen);
    hide PrepareOne, Preparable, SlashString;
  }

  lemma {:induction false} PreparableAllPrepared(env: Env, d: Disk, policy: EditPolicy, ops: seq<EditOperation>,
                                                 seen: set<string>, targets: seq<Path>, contents: seq<string>)
    requires Valid(d) && AllPreparable(env, d, policy, ops, seen, targets, contents)
    ensures PrepareAll(env, d, policy, ops, seen).Ok?
    ensures
      var all := PrepareAll(env, d, policy, ops, seen).value;
      TargetsOf(all) == targets && ContentsOf(all) == contents
  {
    hide PrepareOne, Preparable, SlashString;
    if ops != [] {
      PreparesExactly(env, d, policy, ops[0], seen);
      assert Preparable(env, d, policy, ops[0], seen, targets[0], contents[0]);
      var first := PrepareOne(env, d, policy, ops[0], seen).value;
      var p, content := first.operation.resolved, first.payload.content;
      PreparableUnique(env, d, policy, ops[0], seen, targets[0], contents[0], p, content);
      RelativeIsSlash(env, d, policy, ops[0], seen);
      var more := seen + {first.operation.relative};
      forall i | 0 <= i < |ops| - 1
        ensures Preparable(env, d, policy, ops[1..][i], more, targets[1..][i], contents[1..][i])
      {
        SeenLess(env, d, policy, ops[i + 1], seen, seen, targets[i + 1], contents[i + 1]);
        SeenLess(env, d, policy, ops[i + 1], seen, more, targets[i + 1], contents[i + 1]);
      }
      PreparableAllPrepared(env, d, policy, ops[1..], more, targets[1..], contents[1..]);
      assert targets == [targets[0]] + targets[1..] && contents == [contents[0]] + contents[1..];
    }
  }

  /**
  A preview succeeds exactly when the request is within the limits and every
  operation can be prepared at a target of its own; it then carries the given id
  and describes just those targets and contents.
  */
  lemma PreviewExactly(env: Env, d: Disk, policy: EditPolicy, ops: seq<EditOperation>, id: string)
    requires Valid(d)
    ensures PreviewSpec(env, d, policy, ops, id).Ok? <==>
      && 0 < |ops| <= policy.maxOperations && env.requestBytes(ops) <= policy.maxTransactionBytes
      && exists targets, contents :: AllPreparable(env, d, policy, ops, {}, targets, contents)
    ensures forall targets, contents ::
      PreviewSpec(env, d, policy, ops, id).Ok? && AllPreparable(env, d, policy, ops, {}, targets, contents) ==>
        var tx := PreviewSpec(env, d, policy, ops, id).value;
        && tx.id == id && |tx.operations| == |tx.payloads| == |ops|
        && forall i :: 0 <= i < |ops| ==>
             tx.operations[i].resolved == targets[i] && tx.payloads[i].content == contents[i]
  {
    hide PrepareAll, AllPreparable;
    if PrepareAll(env, d, policy, ops, {}).Ok? {
      PreparedAllPreparable(env, d, policy, ops, {});
    }
    forall targets, contents | AllPreparable(env, d, policy, ops, {}, targets, contents)
      ensures PrepareAll(env, d, policy, ops, {}).Ok?
      ensures
        var all := PrepareAll(env, d, policy, ops, {}).value;
        |all| == |ops| && TargetsOf(all) == targets && ContentsOf(all) == contents
    {
      PreparableAllPrepared(env, d, policy, ops, {}, targets, contents);
    }
    if PrepareAll(env, d, policy, ops, {}).Ok? {
      var all := PrepareAll(env, d, policy, ops, {}).value;
      assert forall i :: 0 <= i < |all| ==>
        TargetsOf(all)[i] == Operations(all)[i].resolved && ContentsOf(all)[i] == Payloads(all)[i].content;
    }
  }

  // ---- Why a preview fails ----

  ghost predicate TooLarge(policy: EditPolicy, e: EditError, path: string, size: nat) {
    e == FileTooLarge(path, policy.maxFileBytes, size) && policy.maxFileBytes < size
  }

  /** Why one operation cannot be prepared. */
  ghost predicate OperationRefused(env: Env, d: Disk, policy: EditPolicy, op: EditOperation, seen: set<string>,
                                   e: EditError)
  {
    || (op.CreateTextFile? && !policy.allowCreate && e == CreateDisabled)
    || (!op.CreateTextFile? && !policy.allowModify && e == ModifyDisabled)
    || (op.CreateTextFile? && CreateRefused(env, d, op.path, false, e))
    || (!op.CreateTextFile? && ReadRefused(env, d, op.path, policy, false, e))
    || (!op.ModifyTextFile? && TooLarge(policy, e, op.path, |op.content|))
    || (exists p :: Leads(op.path, p) && SlashString(p) in seen && e == DuplicateTarget(SlashString(p)))
    || (!op.CreateTextFile? && exists p, bytes :: ContentRefused(env, d, policy, op, p, bytes, e))
  }

  /** The file does not have the expected hash, or the hunks do not apply to it, or their result is too large. */
  ghost predicate ContentRefused(env: Env, d: Disk, policy: EditPolicy, op: EditOperation, p: Path, bytes: string,
                                 e: EditError)
    requires !op.CreateTextFile?
  {
    && Leads(op.path, p) && HoldsFile(d, p, bytes)
    && (|| (env.sha256(bytes) != op.expectedSha256
            && e == HashMismatch(SlashString(p), op.expectedSha256, env.sha256(bytes)))
        || (op.ModifyTextFile? && env.sha256(bytes) == op.expectedSha256
            && match Hunks.ApplyHunksSpec(bytes, op.hunks)
               case Err(h) => e == BadHunk(h, SlashString(p))
               case Ok(after) => TooLarge(policy, e, SlashString(p), |after|)))
  }

  lemma PrepareErrorIsTrue(env: Env, d: Disk, policy: EditPolicy, op: EditOperation, seen: set<string>)
    requires InodesKnown(d.names, d.inodes)
    ensures
      var one := PrepareOne(env, d, policy, op, seen);
      one.Err? ==> OperationRefused(env, d, policy, op, seen, one.error)
  {
    CreateErrorIsTrue(env, d, op.path, false);
    ReadErrorIsTrue(env, d, op.path, policy, false);
    CreateLeads(env, d, op.path);
    hide CreateRefused, ReadRefused, Leads, HoldsFile, ResolveCreateTarget, ReadExisting, SlashString;
    hide Hunks.ApplyHunksSpec;
    if !op.CreateTextFile? {
      var file := ReadExisting(env, d, op.path, policy, false);
      var one := PrepareOne(env, d, policy, op, seen);
      if file.Ok? && one.Err? && file.value.relative !in seen && policy.allowModify {
        assert ContentRefused(env, d, policy, op, file.value.resolved, file.value.text, one.error)
          || (op.ReplaceTextFile? && TooLarge(policy, one.error, op.path, |op.content|));
      }
    }
  }

  lemma CreateLeads(env: Env, d: Disk, path: string)
    ensures
      var at := ResolveCreateTarget(env, d, path, false);
      at.Ok? ==> Leads(path, at.value.resolved) && at.value.relative == SlashString(at.value.resolved)
  {
    NormalisedErrorIsTrue(env, d, path);
    hide Normalised, SlashString, Leads;
  }

  /** An earlier operation has this relative path. */
  ghost predicate TakenBefore(ops: seq<EditOperation>, i: nat, relative: string) {
    exists j, p :: 0 <= j < i && j < |ops| && Leads(ops[j].path, p) && SlashString(p) == relative
  }

  /** Operation `i` is refused, its relative path perhaps taken by an earlier one. */
  ghost predicate RefusedAt(env: Env, d: Disk, policy: EditPolicy, ops: seq<EditOperation>, e: EditError, i: nat) {
    i < |ops| && exists seen ::
      OperationRefused(env, d, policy, ops[i], seen, e) && forall relative <- seen :: TakenBefore(ops, i, relative)
  }

  lemma {:induction false} PrepareAllErrorIsTrue(env: Env, d: Disk, policy: EditPolicy, ops: seq<EditOperation>,
                                                 k: nat, seen: set<string>)
    requires Valid(d) && k <= |ops| && forall relative <- seen :: TakenBefore(ops, k, relative)
    ensures
      var all := PrepareAll(env, d, policy, ops[k..], seen);
      all.Err? ==> exists i :: RefusedAt(env, d, policy, ops, all.error, i)
    decreases |ops| - k
  {
    hide PrepareOne, OperationRefused, SlashString, Leads;
    if k < |ops| {
      var one := PrepareOne(env, d, policy, ops[k], seen);
      assert ops[k..][0] == ops[k] && ops[k..][1..] == ops[k + 1..];
      PrepareErrorIsTrue(env, d, policy, ops[k], seen);
      if one.Err? {
        assert RefusedAt(env, d, policy, ops, one.error, k);
      } else {
        RelativeIsSlash(env, d, policy, ops[k], seen);
        PreparedLeads(env, d, policy, ops[k], seen);
        var more := seen + {one.value.operation.relative};
        forall relative <- more ensures TakenBefore(ops, k + 1, relative) {
          if relative in seen {
            var j, p :| 0 <= j < k && j < |ops| && Leads(ops[j].path, p) && SlashString(p) == relative;
          }
        }
        PrepareAllErrorIsTrue(env, d, policy, ops, k + 1, more);
      }
    }
  }

  lemma PreparedLeads(env: Env, d: Disk, policy: EditPolicy, op: EditOperation, seen: set<string>)
    requires Valid(d) && PrepareOne(env, d, policy, op, seen).Ok?
    ensures Leads(op.path, PrepareOne(env, d, policy, op, seen).value.operation.resolved)
  {
    PreparesExactly(env, d, policy, op, seen);
    hide PrepareOne;
  }

  /** What the error of a failed preview says. */
  lemma PreviewErrorIsTrue(env: Env, d: Disk, policy: EditPolicy, ops: seq<EditOperation>, id: string)
    requires Valid(d) && PreviewSpec(env, d, policy, ops, id).Err?
    ensures
      var e, size := PreviewSpec(env, d, policy, ops, id).error, env.requestBytes(ops);
      if |ops| == 0 then e == EmptyTransaction
      else if |ops| > policy.maxOperations then e == TooManyOperations(policy.maxOperations, |ops|)
      else if size > policy.maxTransactionBytes then e == TransactionTooLarge(policy.maxTransactionBytes, size)
      else exists i :: RefusedAt(env, d, policy, ops, e, i)
  {
    hide PrepareAll, RefusedAt;
    assert ops[0..] == ops;
    PrepareAllErrorIsTrue(env, d, policy, ops, 0, {});
  }

  /** A prepared operation passes every later check on the same disk. */
  lemma PreparedPasses(env: Env, d: Disk, policy: EditPolicy, op: EditOperation, seen: set<string>)
    requires Valid(d) && PrepareOne(env, d, policy, op, seen).Ok?
    ensures
      var p := PrepareOne(env, d, policy, op, seen).value;
      && StageCheck(env, d, policy, p.operation, p.payload, false).None?
      && |p.payload.content| <= policy.maxFileBytes
      && p.operation.resolved != [] && p.operation.relative == SlashString(p.operation.resolved)
      && p.operation.relative !in seen
      && Describes(env, d, op, p.operation.resolved, p.payload.content)
  {
    hide ParentError, Validate, SlashString, Hunks.ApplyHunksSpec;
    NormalisedIsIdempotent(env, d, op.path);
  }

  lemma {:induction false} AllPreparedPass(env: Env, d: Disk, policy: EditPolicy, ops: seq<EditOperation>,
                                           seen: set<string>)
    requires Valid(d) && PrepareAll(env, d, policy, ops, seen).Ok?
    ensures
      var all := PrepareAll(env, d, policy, ops, seen).value;
      && (forall i :: 0 <= i < |ops| ==>
        && StageCheck(env, d, policy, all[i].operation, all[i].payload, false).None?
        && |all[i].payload.content| <= policy.maxFileBytes
        && all[i].operation.resolved != [] && all[i].operation.relative == SlashString(all[i].operation.resolved)
        && all[i].operation.relative !in seen
        && Describes(env, d, ops[i], all[i].operation.resolved, all[i].payload.content))
      && (forall i, j :: 0 <= i < j < |ops| ==> all[i].operation.relative != all[j].operation.relative)
  {
    hide PrepareOne, StageCheck, Describes, SlashString;
    if ops != [] {
      PreparedPasses(env, d, policy, ops[0], seen);
      var first := PrepareOne(env, d, policy, ops[0], seen).value;
      AllPreparedPass(env, d, policy, ops[1..], seen + {first.operation.relative});
    }
  }

  /**
  A previewed transaction is applicable on the same disk under the same policy,
  unless a file to be created bears the scratch name of another operation.
  */
  lemma PreviewIsApplicable(env: Env, d: Disk, policy: EditPolicy, ops: seq<EditOperation>, id: string, pid: string)
    requires Valid(d) && PreviewSpec(env, d, policy, ops, id).Ok?
    ensures
      var tx := PreviewSpec(env, d, policy, ops, id).value;
      && |tx.operations| == |tx.payloads| == |ops| && WellPrepared(tx.operations)
      && (Applicable(env, d, policy, tx, pid) <==> TargetsClear(PlanOf(tx.operations, tx.payloads, Tag(tx, pid))))
      && (forall i :: 0 <= i < |ops| ==>
            Describes(env, d, ops[i], tx.operations[i].resolved, tx.payloads[i].content))
  {
    hide PrepareOne, PrepareAll, StageCheck, Describes, SlashString, PlanOf, TargetsClear;
    AllPreparedPass(env, d, policy, ops, {});
    var all := PrepareAll(env, d, policy, ops, {}).value;
    var tx := PreviewSpec(env, d, policy, ops, id).value;
    assert forall i :: 0 <= i < |ops| ==> tx.operations[i] == all[i].operation && tx.payloads[i] == all[i].payload;
  }

  /** One operation, or no creation: no target can bear a scratch name. */
  lemma NothingToCollide(d: Disk, tx: Transaction, pid: string)
    requires ReadyToApply(d, tx, pid) && |tx.payloads| == |tx.operations|
    requires |tx.operations| <= 1 || forall op <- tx.operations :: op.PreparedModify?
    ensures TargetsClear(PlanOf(tx.operations, tx.payloads, Tag(tx, pid)))
  {
    var plan := PlanOf(tx.operations, tx.payloads, Tag(tx, pid));
    forall i | 0 <= i < |plan| ensures plan[i].resolved !in ScratchOf(plan, |plan|) {
      ScratchPathsDistinct(plan[i].resolved, plan[i].resolved, Tag(tx, pid));
      if tx.operations[i].PreparedCreate? {
        assert tx.operations[i] in tx.operations;
        assert ScratchOf(plan, 0) == {};
        assert ScratchOf(plan, |plan|) == Scratch(plan[0]);
      }
    }
  }

  /**
  Under a policy that admits one operation at most, or no creation, every
  successful preview is applicable while the disk is ready; both policies of the
  source are of this kind.
  */
  lemma SmallPoliciesAlwaysApply(env: Env, d: Disk, policy: EditPolicy, ops: seq<EditOperation>, id: string,
                                 pid: string)
    requires policy.maxOperations <= 1 || !policy.allowCreate
    requires Valid(d) && PreviewSpec(env, d, policy, ops, id).Ok?
    requires ReadyToApply(d, PreviewSpec(env, d, policy, ops, id).value, pid)
    ensures Applicable(env, d, policy, PreviewSpec(env, d, policy, ops, id).value, pid)
    ensures CONSERVATIVE.maxOperations <= 1 && !EXTENSION_PROPOSAL.allowCreate
  {
    PreviewIsApplicable(env, d, policy, ops, id, pid);
    var tx := PreviewSpec(env, d, policy, ops, id).value;
    AllPreparedPass(env, d, policy, ops, {});
    var all := PrepareAll(env, d, policy, ops, {}).value;
    hide PrepareAll, StageCheck, Describes, PlanOf, TargetsClear, Applicable, ScratchUnused;
    forall i | 0 <= i < |ops| && !policy.allowCreate ensures tx.operations[i].PreparedModify? {
      assert tx.operations[i] == all[i].operation;
      StageCheckFault(env, d, policy, all[i].operation, all[i].payload);
    }
    NothingToCollide(d, tx, pid);
  }

  /**
  Preview, then apply with nothing changed and no I/O fault: the apply succeeds
  exactly when no created file bears a scratch name, and then the tree is the
  old one with each previewed target set to its previewed content.
  */
  method PreviewThenApply(fs: FileSystem, env: Env, policy: EditPolicy, ops: seq<EditOperation>, id: string,
                          pid: string, faults: Faults)
    returns (tx: Result<Transaction, EditError>, r: Result<seq<AppliedOperation>, EditError>)
    requires Valid(fs.disk) && NoFaults(faults)
    requires PreviewSpec(env, fs.disk, policy, ops, id).Ok? ==>
      ReadyToApply(fs.disk, PreviewSpec(env, fs.disk, policy, ops, id).value, pid)
    modifies fs
    ensures Valid(fs.disk) && tx == PreviewSpec(env, old(fs.disk), policy, ops, id)
    ensures tx.Err? ==> fs.disk == old(fs.disk)
    ensures tx.Ok? ==>
      && |tx.value.operations| == |tx.value.payloads| == |ops| && WellPrepared(tx.value.operations)
      && (r.Ok? <==> TargetsClear(PlanOf(tx.value.operations, tx.value.payloads, Tag(tx.value, pid))))
      && (r.Ok? ==> Tree(fs.disk) == UpdatedTree(env, old(fs.disk), tx.value.operations, tx.value.payloads, |ops|))
      && (r.Err? ==> Tree(fs.disk) == Tree(old(fs.disk)))
      && (forall i :: 0 <= i < |ops| ==>
            Describes(env, old(fs.disk), ops[i], tx.value.operations[i].resolved, tx.value.payloads[i].content))
  {
    hide PreviewSpec, Tree, UpdatedTree, Describes, PlanOf, TargetsClear;
    tx := Preview(fs, env, policy, ops, id);
    if tx.Err? {
      return tx, Err(tx.error);
    }
    PreviewIsApplicable(env, fs.disk, policy, ops, id, pid);
    r := Apply(fs, env, tx.value, policy, pid, faults);
  }

  // ---- Where the promise stops ----

  lemma ValidateComponent(c: string)
    requires IsComponent(c) && !IsMetadata([c])
    ensures Validate(c) == Ok([c]) && SlashString([c]) == c
  {
    SplitOfComponent(c, "");
    NormaliseKeepsComponents([c]);
  }

  ghost function CollidingRequest(env: Env, name: string, text: string, id: string, pid: string): seq<EditOperation> {
    [ReplaceTextFile(name, env.sha256(text), text), CreateTextFile(ScratchName(name, id + "." + pid, ".tmp"), text)]
  }

  /** Changing a file while creating one that bears its temp name: the preview succeeds, the apply cannot. */
  lemma CollidingPreview(env: Env, policy: EditPolicy, name: string, text: string, mode: nat, id: string, pid: string)
    requires IsComponent(name) && name != ".git" && name != "target" && '/' !in id && '/' !in pid
    requires forall p :: !env.sensitive(p)
    requires env.grantedTarget.None? && env.utf8(text)
    requires policy.allowCreate && policy.allowModify && policy.maxOperations >= 2 && |text| <= policy.maxFileBytes
    requires env.requestBytes(CollidingRequest(env, name, text, id, pid)) <= policy.maxTransactionBytes
    ensures
      var d := Disk(map[[name] := Regular(0)], map[0 := Inode(text, mode)], 1);
      var r := PreviewSpec(env, d, policy, CollidingRequest(env, name, text, id, pid), id);
      Valid(d) && r.Ok? && WellPrepared(r.value.operations) && |r.value.payloads| == |r.value.operations|
      && ReadyToApply(d, r.value, pid) && !Applicable(env, d, policy, r.value, pid)
  {
    var d := Disk(map[[name] := Regular(0)], map[0 := Inode(text, mode)], 1);
    var request, tag := CollidingRequest(env, name, text, id, pid), id + "." + pid;
    var temp := ScratchName(name, tag, ".tmp");
    ValidateComponent(name);
    ScratchIsComponent(name, tag);
    ValidateComponent(temp);
    ReadExactly(env, d, name, policy);
    CreateTargetExactly(env, d, temp);
    assert request[1..] == [request[1]] && request[1..][1..] == [];
    var first := PrepareOne(env, d, policy, request[0], {});
    var second := PrepareOne(env, d, policy, request[1], {name});
    assert first.Ok? && second.Ok?;
    assert first.value.operation.relative == name && {} + {name} == {name};
    PrepareLast(env, d, policy, request[1], {name});
    assert PrepareAll(env, d, policy, request, {}).Ok?;
    var tx := PreviewSpec(env, d, policy, request, id).value;
    CollidingPlan(tx, name, d, pid);
  }

  lemma PrepareLast(env: Env, d: Disk, policy: EditPolicy, op: EditOperation, seen: set<string>)
    requires InodesKnown(d.names, d.inodes) && PrepareOne(env, d, policy, op, seen).Ok?
    ensures PrepareAll(env, d, policy, [op], seen) == Ok([PrepareOne(env, d, policy, op, seen).value])
  {
    hide PrepareOne;
    var one := PrepareOne(env, d, policy, op, seen).value;
    assert PrepareAll(env, d, policy, [], seen + {one.operation.relative}) == Ok([]);
    assert [op][1..] == [] && [one] + [] == [one];
  }

  lemma ScratchIsComponent(name: string, tag: string)
    requires IsComponent(name) && '/' !in tag
    ensures IsComponent(ScratchName(name, tag, ".tmp")) && !IsMetadata([ScratchName(name, tag, ".tmp")])
    ensures ScratchName(name, tag, ".tmp") != name
  {
    var temp := ScratchName(name, tag, ".tmp");
    assert temp[|temp| - 1] == 'p';
    assert |temp| >= 7;
  }

  lemma ScratchOfName(name: string, tag: string)
    ensures TempPath([name], tag) == [ScratchName(name, tag, ".tmp")]
    ensures BackupPath([name], tag) == [ScratchName(name, tag, ".bak")]
    ensures |ScratchName(name, tag, ".tmp")| > |name| && |ScratchName(name, tag, ".bak")| > |name|
  {
  }

  lemma CollidingPlan(tx: Transaction, name: string, d: Disk, pid: string)
    requires IsComponent(name) && Valid(d) && d.names.Keys == {[name]}
    requires |tx.operations| == |tx.payloads| == 2
    requires tx.operations[0].PreparedModify? && tx.operations[0].resolved == [name]
    requires tx.operations[1].PreparedCreate?
    requires tx.operations[1].resolved == [ScratchName(name, Tag(tx, pid), ".tmp")]
    ensures WellPrepared(tx.operations) && ReadyToApply(d, tx, pid)
    ensures !TargetsClear(PlanOf(tx.operations, tx.payloads, Tag(tx, pid)))
  {
    var tag := Tag(tx, pid);
    var temp, bak := ScratchName(name, tag, ".tmp"), ScratchName(name, tag, ".bak");
    var next := ScratchName(temp, tag, ".tmp");
    ScratchOfName(name, tag);
    ScratchOfName(temp, tag);
    hide ScratchName, TempPath, BackupPath, Valid, Tag;
    assert [temp] != [name] by { assert [temp][0] != [name][0]; }
    assert WellPrepared(tx.operations);
    var plan := PlanOf(tx.operations, tx.payloads, tag);
    assert Scratch(plan[0]) == {[temp], [bak]} && Scratch(plan[1]) == {[next]};
    assert ScratchOf(plan, 0) == {};
    assert ScratchOf(plan, 1) == Scratch(plan[0]);
    assert ScratchOf(plan, 2) == {[temp], [bak], [next]};
    assert plan[1].resolved in ScratchOf(plan, 2);
    assert [name][0] == name && [temp][0] == temp && [bak][0] == bak && [next][0] == next;
    assert ScratchUnused(d, plan);
  }

  /** A failed check right after the temp write makes any one-operation transaction leave its temp file. */
  lemma LastCheckLeavesTemp(env: Env, d: Disk, policy: EditPolicy, tx: Transaction, pid: string)
    requires ReadyToApply(d, tx, pid) && |tx.operations| == 1 && Applicable(env, d, policy, tx, pid)
    ensures LeavesTemp(env, d, policy, tx,
      Faults(k => false, k => false, k => NoFault, k => false, k => true, k => false))
  {
    SingleTransaction(env, d, policy, tx, pid);
  }
}
