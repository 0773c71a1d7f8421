/** Target resolution of the edit engine (edit.rs), on an explicit disk. */
module EditResolve {
  import opened Results
  import opened Paths
  import opened Disks
  import opened EditTypes

  // ---- Target resolution ----

  datatype Located = Located(relative: string, resolved: Path)

  datatype TextFile = TextFile(relative: string, resolved: Path, text: string)

  /** `reject_symlinked_parent`, from component `k` of the parent on. */
  function ParentError(d: Disk, parent: Path, k: nat, path: string): Option<EditError>
    requires k <= |parent|
    decreases |parent| - k
  {
    if k == |parent| then None
    else
      var here := parent[..k + 1];
      if here !in d.names then Some(ParentMissing(path))
      else if d.names[here].Symlink? then Some(SymlinkRejected(path))
      else ParentError(d, parent, k + 1, path)
  }

  /** The shared prefix of both resolvers: normalise, then refuse sensitive paths and linked parents. */
  function Normalised(env: Env, d: Disk, path: string): Result<Path, EditError> {
    match Validate(path)
    case Err(e) => Err(BadPath(e, path))
    case Ok(p) =>
      if env.sensitive(p) then Err(SensitivePathDenied(path))
      else if p == [] then Err(BadPath(PathTraversal, path))
      else
        match ParentError(d, p[..|p| - 1], 0, path)
        case Some(e) => Err(e)
        case None => Ok(p)
  }

  /** `resolve_create_target`; `fault` is an I/O error while canonicalising the parent. */
  function ResolveCreateTarget(env: Env, d: Disk, path: string, fault: bool): Result<Located, EditError> {
    match Normalised(env, d, path)
    case Err(e) => Err(e)
    case Ok(p) =>
      if fault then Err(ParentMissing(path))
      else if !ParentIsDirectory(d, p) then Err(UnsupportedFileType(path))
      else if p in d.names then Err(TargetExists(path))
      else Ok(Located(SlashString(p), p))
  }

  /** `read_existing_text`; `fault` is an I/O error while reading. */
  function ReadExisting(env: Env, d: Disk, path: string, policy: EditPolicy, fault: bool)
    : Result<TextFile, EditError>
    requires InodesKnown(d.names, d.inodes)
  {
    match Normalised(env, d, path)
    case Err(e) => Err(e)
    case Ok(p) =>
      if p !in d.names then Err(TargetMissing(path))
      else if d.names[p].Symlink? then Err(SymlinkRejected(path))
      else if env.grantedTarget.Some? && env.grantedTarget.value != p then Err(PathOutsideRoot(path))
      else if !d.names[p].Regular? then Err(ExpectedFile(path))
      else if fault then Err(Io(path))
      else
        var bytes := d.inodes[d.names[p].inode].bytes;
        if |bytes| > policy.maxFileBytes then Err(FileTooLarge(path, policy.maxFileBytes, |bytes|))
        else if !env.utf8(bytes) then Err(NotUtf8(path))
        else Ok(TextFile(SlashString(p), p, bytes))
  }

  lemma {:induction false} NormalisedIsIdempotent(env: Env, d: Disk, path: string)
    requires Normalised(env, d, path).Ok?
    ensures var p := Normalised(env, d, path).value; p != [] && Normalised(env, d, SlashString(p)) == Ok(p)
  {
    ValidateIsIdempotent(path);
    var p := Validate(path).value;
    ParentErrorIgnoresPath(d, p[..|p| - 1], 0, path, SlashString(p));
  }

  lemma {:induction false} ParentErrorIgnoresPath(d: Disk, parent: Path, k: nat, a: string, b: string)
    requires k <= |parent|
    ensures ParentError(d, parent, k, a).None? <==> ParentError(d, parent, k, b).None?
    decreases |parent| - k
  {
    if k < |parent| {
      ParentErrorIgnoresPath(d, parent, k + 1, a, b);
    }
  }

  // ---- Resolution on a disk that gained scratch files ----

  /** `e` is `d` plus some regular files. */
  ghost predicate AddsFiles(d: Disk, e: Disk) {
    && (forall p <- d.names :: p in e.names && e.names[p] == d.names[p])
    && (forall p <- e.names :: p in d.names || e.names[p].Regular?)
    && (forall n <- d.inodes :: n in e.inodes && e.inodes[n] == d.inodes[n])
  }

  lemma {:induction false} AncestorsExist(d: Disk, p: Path, k: nat)
    requires Valid(d) && 0 < k <= |p| && p in d.names
    ensures p[..k] in d.names && (k < |p| ==> d.names[p[..k]].Directory?)
    decreases |p| - k
  {
    if k == |p| {
      assert p[..k] == p;
    } else {
      AncestorsExist(d, p, k + 1);
      assert p[..k + 1][..k] == p[..k];
    }
  }

  lemma {:induction false} ParentsFine(d: Disk, parent: Path, k: nat, path: string)
    requires Valid(d) && k <= |parent| && (parent == [] || (parent in d.names && !d.names[parent].Symlink?))
    ensures ParentError(d, parent, k, path).None?
    decreases |parent| - k
  {
    if k < |parent| {
      AncestorsExist(d, parent, k + 1);
      assert parent[..|parent|] == parent;
      ParentsFine(d, parent, k + 1, path);
    }
  }

  lemma {:induction false} ParentsExist(d: Disk, parent: Path, k: nat, path: string)
    requires k < |parent| && ParentError(d, parent, k, path).None?
    ensures parent in d.names && !d.names[parent].Symlink?
    decreases |parent| - k
  {
    if k + 1 == |parent| {
      assert parent[..k + 1] == parent;
    } else {
      ParentsExist(d, parent, k + 1, path);
    }
  }

  /** When a create target resolves: a legal path, a directory to hold it, and nothing there yet. */
  lemma CreateTargetExactly(env: Env, d: Disk, path: string)
    requires Valid(d)
    ensures ResolveCreateTarget(env, d, path, false).Ok? <==>
      && Validate(path).Ok? && var p := Validate(path).value;
      p != [] && !env.sensitive(p) && ParentIsDirectory(d, p) && p !in d.names
    ensures ResolveCreateTarget(env, d, path, false).Ok? ==>
      var p := Validate(path).value; ResolveCreateTarget(env, d, path, false).value == Located(SlashString(p), p)
  {
    if Validate(path).Ok? {
      var p := Validate(path).value;
      if p != [] && ParentIsDirectory(d, p) {
        ParentsFine(d, p[..|p| - 1], 0, path);
      }
    }
  }

  /** When an existing file reads: a legal path naming a regular file small and valid enough. */
  lemma ReadExactly(env: Env, d: Disk, path: string, policy: EditPolicy)
    requires Valid(d)
    ensures ReadExisting(env, d, path, policy, false).Ok? <==>
      && Validate(path).Ok? && var p := Validate(path).value;
      && p != [] && !env.sensitive(p) && p in d.names && d.names[p].Regular?
      && (env.grantedTarget.Some? ==> env.grantedTarget.value == p)
      && |d.inodes[d.names[p].inode].bytes| <= policy.maxFileBytes
      && env.utf8(d.inodes[d.names[p].inode].bytes)
    ensures ReadExisting(env, d, path, policy, false).Ok? ==>
      var p := Validate(path).value;
      ReadExisting(env, d, path, policy, false).value == TextFile(SlashString(p), p, d.inodes[d.names[p].inode].bytes)
  {
    if Validate(path).Ok? {
      var p := Validate(path).value;
      if p != [] && p in d.names && d.names[p].Regular? {
        ParentsFine(d, p[..|p| - 1], 0, path);
      }
    }
  }

  /** Added files can only take a create target's name; they change no other resolution. */
  lemma ResolutionWithAddedFiles(env: Env, d: Disk, e: Disk, path: string, policy: EditPolicy)
    requires Valid(d) && Valid(e) && AddsFiles(d, e)
    ensures
      var r, s := ResolveCreateTarget(env, d, path, false), ResolveCreateTarget(env, e, path, false);
      && (s.Ok? <==> r.Ok? && r.value.resolved !in e.names)
      && (s.Ok? ==> s == r)
    ensures
      var r, s := ReadExisting(env, d, path, policy, false), ReadExisting(env, e, path, policy, false);
      && (r.Ok? ==> s == r)
      && (s.Ok? ==> r == s || s.value.resolved !in d.names)
  {
    CreateTargetExactly(env, d, path);
    CreateTargetExactly(env, e, path);
    ReadExactly(env, d, path, policy);
    ReadExactly(env, e, path, policy);
  }
}
