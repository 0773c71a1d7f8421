/**
Requests, prepared and staged transactions of the edit engine (edit.rs).
Hashing, UTF-8 validity, the sensitive-path list and request serialisation are
parameters of the model, held in `Env`.
*/
module EditTypes {
  import opened Results
  import opened Paths
  import Hunks

  datatype Env = Env(
    sha256: string -> string,
    utf8: string -> bool,
    sensitive: Path -> bool,
    grantedTarget: Option<Path>,
    requestBytes: seq<EditOperation> -> nat,
    createMode: nat
  )

  datatype EditPolicy = EditPolicy(
    maxOperations: nat, maxFileBytes: nat, maxTransactionBytes: nat, allowCreate: bool, allowModify: bool)

  const CONSERVATIVE := EditPolicy(1, 256 * 1024, 128 * 1024, true, true)

  const EXTENSION_PROPOSAL := EditPolicy(16, 512 * 1024, 2 * 1024 * 1024, false, true)

  datatype EditOperation =
    | ModifyTextFile(path: string, expectedSha256: string, hunks: seq<Hunks.Hunk>)
    | ReplaceTextFile(path: string, expectedSha256: string, content: string)
    | CreateTextFile(path: string, content: string)

  datatype PreparedOperation =
    | PreparedModify(relative: string, resolved: Path, beforeSha256: string, afterSha256: string,
                     beforeBytes: nat, afterBytes: nat, hunkCount: nat)
    | PreparedCreate(relative: string, resolved: Path, afterSha256: string, afterBytes: nat)

  datatype Payload = ModifyPayload(content: string) | CreatePayload(content: string)

  datatype Transaction = Transaction(id: string, operations: seq<PreparedOperation>, payloads: seq<Payload>)

  datatype AppliedOperation = Applied(operation: PreparedOperation, bytesWritten: nat)

  datatype EditError =
    | EmptyTransaction
    | TooManyOperations(max: nat, actual: nat)
    | TransactionTooLarge(max: nat, actual: nat)
    | CreateDisabled
    | ModifyDisabled
    | BadPath(reason: PathError, path: string)
    | PathOutsideRoot(path: string)
    | ParentMissing(path: string)
    | TargetMissing(path: string)
    | TargetExists(path: string)
    | DuplicateTarget(path: string)
    | SymlinkRejected(path: string)
    | ExpectedFile(path: string)
    | SensitivePathDenied(path: string)
    | UnsupportedFileType(path: string)
    | NotUtf8(path: string)
    | FileTooLarge(path: string, max: nat, actual: nat)
    | BadHunk(hunkError: Hunks.HunkError, path: string)
    | HashMismatch(path: string, expected: string, found: string)
    | Io(path: string)

  datatype StagedKind = Create | Modify(backup: Path)

  datatype Staged = Staged(relative: string, resolved: Path, temp: Path, expectedBefore: Option<string>,
                           kind: StagedKind, applied: AppliedOperation)
}
