/**
Standing user restrictions and permission decisions (permission.rs).  Splitting
a command into words and comparing paths are parameters of the model, held in
`Matchers`.
*/
module Permission {
  import opened Results

  datatype Class = PersistentInstall | HostActivation | ExternalPublish | DestructiveDelete | SensitiveDisclosure

  datatype Matcher = CommandPrefix(commandPrefix: string) | PathPrefix(pathPrefix: string) | ActionClass(class_: Class)

  datatype Restriction = AskFirst(matcher: Matcher, note: string) | HumanPerforms(matcher: Matcher, note: string)

  datatype ReviewPolicy = ReviewPolicy(global: seq<Restriction>, project: seq<Restriction>)

  /** Whether a restriction matches the request at hand. */
  type Matching = Restriction -> bool

  datatype Reason =
    | RestrictionAskFirst | RestrictionHumanPerforms
    | SelfApprovalDenied | RiskDenied | ModeAllowed | ModeAsk | ModeDenied | RouteToReviewer
    | UserAllowlist | SessionGrant | ModeRequiresReview | ModeFullAccess

  datatype Decision = Allowed(why: Reason) | Denied(why: Reason) | NeedsUserReview(why: Reason)

  datatype Capability =
    EditTransaction | ShellCommand | NetworkAccess | VerificationAction | ExtensionTool | ProviderVisibleTool

  datatype Risk = ReadOnly | WorkspaceWrite | ExternalWrite | Network | ProcessExecution

  datatype PermissionMode = Allow | Ask | Deny | AutoReview

  datatype ApprovalMode = Review | AcceptEdits | FullAccess | ReviewAutomatically

  datatype Actor = UserLocalUi | Core | Provider | ExtensionActor(actorId: string)

  datatype Reviewer = NoReviewer | User | AutoReviewer | ExtensionReviewer(reviewerId: string)

  datatype Request = Request(
    actor: Actor,
    capability: Capability,
    operation: string,
    resource: string,
    risk: Risk,
    requestedReviewer: Option<Reviewer>,
    command: Option<string>
  )

  /** `extension_self_approval_requested` */
  predicate AsksSelfApproval(request: Request) {
    && request.actor.ExtensionActor?
    && request.requestedReviewer == Some(ExtensionReviewer(request.actor.actorId))
  }

  // ---- Matching ----

  datatype Matchers = Matchers(words: string -> seq<string>, underPath: (string, string) -> bool)

  /** `command_candidates` */
  function Commands(request: Request): seq<string> {
    (if request.command.Some? && request.command.value != "" then [request.command.value] else [])
    + (if request.capability.ShellCommand? && request.operation != "" then [request.operation] else [])
  }

  /** `inferred_action_class`, of a command's words. */
  function InferredClass(words: seq<string>): Option<Class> {
    if words == [] then None
    else
      var first, second := words[0], if |words| > 1 then words[1] else "";
      if first in {"nixos-rebuild", "darwin-rebuild"} then Some(HostActivation)
      else if first in {"cargo", "npm", "pnpm", "yarn"} && second == "publish" then Some(ExternalPublish)
      else if (first in {"cargo", "brew"} && second == "install") || first == "nix-env" then Some(PersistentInstall)
      else if first == "nix" && second == "profile" then Some(PersistentInstall)
      else if first in {"rm", "shred"} || (first == "git" && second == "clean") then Some(DestructiveDelete)
      else None
  }

  /** Some command of the request is inferred to be of the class. */
  predicate ShowsClass(env: Matchers, request: Request, c: Class) {
    exists command <- Commands(request) :: InferredClass(env.words(command)) == Some(c)
  }

  /** `restriction_matches` */
  predicate MatcherAccepts(env: Matchers, request: Request, matcher: Matcher) {
    match matcher
    case CommandPrefix(prefix) =>
      env.words(prefix) != [] && exists command <- Commands(request) :: env.words(prefix) <= env.words(command)
    case PathPrefix(prefix) => env.underPath(request.resource, prefix)
    case ActionClass(c) => ShowsClass(env, request, c)
  }

  function MatchesOf(env: Matchers, request: Request): Matching {
    (r: Restriction) => MatcherAccepts(env, request, r.matcher)
  }

  // ---- Selecting a restriction ----

  /** The first human-performs match so far or, when there is none, the first match. */
  ghost predicate Strongest(restrictions: seq<Restriction>, matches: Matching, n: nat, selected: Option<Restriction>)
    requires n <= |restrictions|
  {
    && (selected.None? <==> forall i :: 0 <= i < n ==> !matches(restrictions[i]))
    && (selected.Some? ==> matches(selected.value) && exists i ::
          && 0 <= i < n && restrictions[i] == selected.value
          && forall j :: 0 <= j < i && matches(restrictions[j]) ==>
               restrictions[j].AskFirst? && selected.value.HumanPerforms?)
    && (selected.Some? ==>
          (selected.value.HumanPerforms? <==>
           exists i :: 0 <= i < n && matches(restrictions[i]) && restrictions[i].HumanPerforms?))
  }

  method StrongestBy(restrictions: seq<Restriction>, matches: Matching) returns (selected: Option<Restriction>)
    ensures Strongest(restrictions, matches, |restrictions|, selected)
    ensures selected == StrongestOf(restrictions, matches)
  {
    selected := None;
    for i := 0 to |restrictions|
      invariant Strongest(restrictions, matches, i, selected)
      invariant selected == StrongestOf(restrictions[..i], matches)
    {
      var restriction := restrictions[i];
      assert restrictions[..i + 1][..i] == restrictions[..i];
      if matches(restriction) {
        var replace := selected.None? || (selected.value.AskFirst? && restriction.HumanPerforms?);
        if replace {
          selected := Some(restriction);
        }
      }
    }
    assert restrictions[..|restrictions|] == restrictions;
  }

  function StrongestOf(restrictions: seq<Restriction>, matches: Matching): Option<Restriction> {
    if restrictions == [] then None
    else
      var n := |restrictions| - 1;
      var before, last := StrongestOf(restrictions[..n], matches), restrictions[n];
      if matches(last) && (before.None? || (before.value.AskFirst? && last.HumanPerforms?)) then Some(last) else before
  }

  lemma {:induction false} StrongestOfIsStrongest(restrictions: seq<Restriction>, matches: Matching)
    ensures Strongest(restrictions, matches, |restrictions|, StrongestOf(restrictions, matches))
  {
    if restrictions != [] {
      var n := |restrictions| - 1;
      StrongestOfIsStrongest(restrictions[..n], matches);
      assert forall i :: 0 <= i < n ==> restrictions[..n][i] == restrictions[i];
    }
  }

  function MergePrecedence(global: Option<Restriction>, project: Option<Restriction>): Option<Restriction> {
    if global.Some? && global.value.HumanPerforms? then global
    else if project.Some? && project.value.HumanPerforms? then project
    else if global.Some? then global
    else project
  }

  function Selected(policy: ReviewPolicy, matches: Matching): Option<Restriction> {
    MergePrecedence(StrongestOf(policy.global, matches), StrongestOf(policy.project, matches))
  }

  /** Among the matches, human-performs beats ask-first and, within a kind, global beats project. */
  lemma PrecedenceIsExact(policy: ReviewPolicy, matches: Matching)
    ensures
      var selected := Selected(policy, matches);
      && (selected.None? <==> !Restricted(policy, matches))
      && (selected.Some? ==>
            && matches(selected.value) && (selected.value.HumanPerforms? <==> HumanRestricted(policy, matches))
            && (selected.value !in policy.global ==>
                  forall r <- policy.global :: matches(r) ==> r.AskFirst? && selected.value.HumanPerforms?))
  {
    StrongestOfIsStrongest(policy.global, matches);
    StrongestOfIsStrongest(policy.project, matches);
    hide StrongestOf;
    InSomePlace(policy.global);
    InSomePlace(policy.project);
  }

  lemma InSomePlace(restrictions: seq<Restriction>)
    ensures forall r <- restrictions :: exists i :: 0 <= i < |restrictions| && restrictions[i] == r
  {
  }

  function OfClass(c: Class): Matching {
    (r: Restriction) => r.matcher == ActionClass(c)
  }

  /** `restriction_for_class`: the same precedence over the restrictions of one action class. */
  function RestrictionForClass(policy: ReviewPolicy, c: Class): Option<Restriction> {
    Selected(policy, OfClass(c))
  }

  function CheckRestrictions(policy: ReviewPolicy, matches: Matching): Option<Decision> {
    match Selected(policy, matches)
    case None => None
    case Some(r) => Some(NeedsUserReview(if r.AskFirst? then RestrictionAskFirst else RestrictionHumanPerforms))
  }

  // ---- Decisions ----

  /** `decide` once no restriction matched. */
  function DecideUnrestricted(request: Request, editMode: PermissionMode): Decision {
    if AsksSelfApproval(request) then Denied(SelfApprovalDenied)
    else if request.capability.EditTransaction? && !request.risk.WorkspaceWrite? then Denied(RiskDenied)
    else
      var mode := if request.capability.EditTransaction? then editMode else Deny;
      match mode
      case Allow => Allowed(ModeAllowed)
      case Ask => NeedsUserReview(ModeAsk)
      case Deny => Denied(ModeDenied)
      case AutoReview => NeedsUserReview(RouteToReviewer)
  }

  function Decide(request: Request, editMode: PermissionMode, policy: ReviewPolicy, env: Matchers): Decision {
    match CheckRestrictions(policy, MatchesOf(env, request))
    case Some(decision) => decision
    case None => DecideUnrestricted(request, editMode)
  }

  /** `decide_shell` once no restriction matched. */
  function DecideShellUnrestricted(request: Request, mode: ApprovalMode, allowlisted: bool, granted: bool): Decision {
    if !request.capability.ShellCommand? || !request.risk.ProcessExecution? then Denied(RiskDenied)
    else if allowlisted then Allowed(UserAllowlist)
    else if granted then Allowed(SessionGrant)
    else
      match mode
      case Review => NeedsUserReview(ModeRequiresReview)
      case AcceptEdits => NeedsUserReview(ModeRequiresReview)
      case FullAccess => Allowed(ModeFullAccess)
      case ReviewAutomatically => NeedsUserReview(RouteToReviewer)
  }

  function DecideShell(request: Request, mode: ApprovalMode, allowlisted: bool, granted: bool,
                       policy: ReviewPolicy, env: Matchers): Decision
  {
    match CheckRestrictions(policy, MatchesOf(env, request))
    case Some(decision) => decision
    case None => DecideShellUnrestricted(request, mode, allowlisted, granted)
  }

  // ---- What the user's restrictions guarantee ----

  ghost predicate Restricted(policy: ReviewPolicy, matches: Matching) {
    exists r :: (r in policy.global || r in policy.project) && matches(r)
  }

  ghost predicate HumanRestricted(policy: ReviewPolicy, matches: Matching) {
    exists r :: (r in policy.global || r in policy.project) && matches(r) && r.HumanPerforms?
  }

  /** The restriction check answers exactly by whether some match exists and whether one is human-performs. */
  lemma CheckIsExact(policy: ReviewPolicy, matches: Matching)
    ensures CheckRestrictions(policy, matches) ==
      if HumanRestricted(policy, matches) then Some(NeedsUserReview(RestrictionHumanPerforms))
      else if Restricted(policy, matches) then Some(NeedsUserReview(RestrictionAskFirst))
      else None
  {
    PrecedenceIsExact(policy, matches);
  }

  /**
  A matching restriction decides alone: whatever the mode, allowlist or session
  grant, the outcome is review by the user, handed over exactly when some matching
  restriction is human-performs.
  */
  lemma RestrictionsDecide(request: Request, editMode: PermissionMode, mode: ApprovalMode, allowlisted: bool,
                           granted: bool, policy: ReviewPolicy, env: Matchers)
    requires Restricted(policy, MatchesOf(env, request))
    ensures
      var human := HumanRestricted(policy, MatchesOf(env, request));
      var decision := NeedsUserReview(if human then RestrictionHumanPerforms else RestrictionAskFirst);
      && Decide(request, editMode, policy, env) == decision
      && DecideShell(request, mode, allowlisted, granted, policy, env) == decision
  {
    CheckIsExact(policy, MatchesOf(env, request));
  }

  /** Every restriction of `fewer` is still somewhere in `more`. */
  ghost predicate Extends(fewer: ReviewPolicy, more: ReviewPolicy) {
    forall r :: r in fewer.global || r in fewer.project ==> r in more.global || r in more.project
  }

  /**
  Adding, moving or reordering restrictions never turns a handover into a
  question, never allows what was not allowed, and leaves anything else only for
  review by the user.
  */
  lemma RestrictionsNeverRelax(request: Request, editMode: PermissionMode, mode: ApprovalMode, allowlisted: bool,
                               granted: bool, fewer: ReviewPolicy, more: ReviewPolicy, env: Matchers)
    requires Extends(fewer, more)
    ensures
      var a, b := Decide(request, editMode, fewer, env), Decide(request, editMode, more, env);
      && (a == NeedsUserReview(RestrictionHumanPerforms) ==> b == a)
      && (b.Allowed? ==> a.Allowed?) && (b != a ==> b.NeedsUserReview?)
    ensures
      var a := DecideShell(request, mode, allowlisted, granted, fewer, env);
      var b := DecideShell(request, mode, allowlisted, granted, more, env);
      && (a == NeedsUserReview(RestrictionHumanPerforms) ==> b == a)
      && (b.Allowed? ==> a.Allowed?) && (b != a ==> b.NeedsUserReview?)
  {
    var matches := MatchesOf(env, request);
    CheckIsExact(fewer, matches);
    CheckIsExact(more, matches);
    hide CheckRestrictions, MatchesOf;
    assert Restricted(fewer, matches) ==> Restricted(more, matches);
    assert HumanRestricted(fewer, matches) ==> HumanRestricted(more, matches);
  }

  // ---- Action classes ----

  /**
  What is announced for an action class is enforced on requests of that class: a
  request with a command of the class is put to the user, and handed over when
  the class's restriction is human-performs.
  */
  lemma ClassRestrictionIsEnforced(request: Request, editMode: PermissionMode, mode: ApprovalMode, allowlisted: bool,
                                   granted: bool, policy: ReviewPolicy, env: Matchers, c: Class)
    requires RestrictionForClass(policy, c).Some? && ShowsClass(env, request, c)
    ensures
      var a, b := Decide(request, editMode, policy, env), DecideShell(request, mode, allowlisted, granted, policy, env);
      && a == b && a in {NeedsUserReview(RestrictionHumanPerforms), NeedsUserReview(RestrictionAskFirst)}
      && (RestrictionForClass(policy, c).value.HumanPerforms? ==> a == NeedsUserReview(RestrictionHumanPerforms))
  {
    PrecedenceIsExact(policy, OfClass(c));
    CheckIsExact(policy, MatchesOf(env, request));
    hide Selected, CheckRestrictions, Commands, InferredClass, ShowsClass;
    assert forall r: Restriction :: OfClass(c)(r) ==> MatchesOf(env, request)(r);
    assert Restricted(policy, MatchesOf(env, request));
  }

  /** Sensitive disclosure is never inferred from a command: such a restriction is announced, and matches no request. */
  lemma DisclosureMatchesNothing(request: Request, env: Matchers, note: string)
    ensures
      var policy := ReviewPolicy([HumanPerforms(ActionClass(SensitiveDisclosure), note)], []);
      && RestrictionForClass(policy, SensitiveDisclosure).Some?
      && CheckRestrictions(policy, MatchesOf(env, request)).None?
  {
    var r := HumanPerforms(ActionClass(SensitiveDisclosure), note);
    assert [r][..0] == [];
    assert forall matches: Matching :: StrongestOf([r], matches) == if matches(r) then Some(r) else None;
  }

  // ---- Which commands match ----

  /** The commands of a request: the explicit one and, for a shell request, its operation, unless empty. */
  lemma CommandsExactly(request: Request, command: string)
    ensures command in Commands(request) <==>
      && command != ""
      && (request.command == Some(command) || (request.capability == ShellCommand && request.operation == command))
  {
  }

  /** A command prefix matches word by word. */
  lemma PrefixMatchesExactly(env: Matchers, request: Request, prefix: string, note: string)
    ensures MatchesOf(env, request)(AskFirst(CommandPrefix(prefix), note)) <==>
      && env.words(prefix) != []
      && exists command <- Commands(request) ::
           && |env.words(prefix)| <= |env.words(command)|
           && forall i :: 0 <= i < |env.words(prefix)| ==> env.words(prefix)[i] == env.words(command)[i]
    ensures MatchesOf(env, request)(HumanPerforms(CommandPrefix(prefix), note)) <==>
      MatchesOf(env, request)(AskFirst(CommandPrefix(prefix), note))
    ensures MatchesOf(env, request)(AskFirst(PathPrefix(prefix), note)) <==> env.underPath(request.resource, prefix)
  {
    forall command: string
      ensures env.words(prefix) <= env.words(command) <==>
        && |env.words(prefix)| <= |env.words(command)|
        && forall i :: 0 <= i < |env.words(prefix)| ==> env.words(prefix)[i] == env.words(command)[i]
    {
    }
  }

  /** The words that put a command into a class. */
  lemma ClassByWords(words: seq<string>)
    ensures InferredClass(words) == Some(HostActivation) <==>
      |words| >= 1 && (words[0] == "nixos-rebuild" || words[0] == "darwin-rebuild")
    ensures InferredClass(words) == Some(ExternalPublish) <==>
      |words| >= 2 && words[1] == "publish"
      && (words[0] == "cargo" || words[0] == "npm" || words[0] == "pnpm" || words[0] == "yarn")
    ensures InferredClass(words) == Some(PersistentInstall) <==>
      || (|words| >= 2 && words[1] == "install" && (words[0] == "cargo" || words[0] == "brew"))
      || (|words| >= 1 && words[0] == "nix-env")
      || (|words| >= 2 && words[0] == "nix" && words[1] == "profile")
    ensures InferredClass(words) == Some(DestructiveDelete) <==>
      || (|words| >= 1 && (words[0] == "rm" || words[0] == "shred"))
      || (|words| >= 2 && words[0] == "git" && words[1] == "clean")
    ensures InferredClass(words) != Some(SensitiveDisclosure)
  {
  }

  /** Self-approval is an extension asking to be reviewed by itself. */
  lemma SelfApprovalExactly(request: Request)
    ensures AsksSelfApproval(request) <==>
      exists id :: request.actor == ExtensionActor(id) && request.requestedReviewer == Some(ExtensionReviewer(id))
  {
  }

  // ---- What is allowed, and why ----

  ghost predicate ShellRequest(request: Request) {
    request.capability == ShellCommand && request.risk == ProcessExecution
  }

  /** Every outcome of a shell decision that no restriction preempts, with its reason. */
  lemma ShellDecidedExactly(request: Request, mode: ApprovalMode, allowlisted: bool, granted: bool,
                            policy: ReviewPolicy, env: Matchers)
    ensures
      var decision := DecideShell(request, mode, allowlisted, granted, policy, env);
      var free := !Restricted(policy, MatchesOf(env, request)) && ShellRequest(request);
      && (decision.Allowed? <==> free && (allowlisted || granted || mode == FullAccess))
      && (decision == Allowed(UserAllowlist) <==> free && allowlisted)
      && (decision == Allowed(SessionGrant) <==> free && !allowlisted && granted)
      && (decision == Allowed(ModeFullAccess) <==> free && !allowlisted && !granted && mode == FullAccess)
      && (decision == NeedsUserReview(ModeRequiresReview) <==>
            free && !allowlisted && !granted && (mode == Review || mode == AcceptEdits))
      && (decision == NeedsUserReview(RouteToReviewer) <==>
            free && !allowlisted && !granted && mode == ReviewAutomatically)
      && (decision == Denied(RiskDenied) <==>
            !Restricted(policy, MatchesOf(env, request)) && !ShellRequest(request))
  {
    CheckIsExact(policy, MatchesOf(env, request));
  }

  /** Every outcome of an ordinary decision that no restriction preempts, with its reason. */
  lemma DecidedExactly(request: Request, editMode: PermissionMode, policy: ReviewPolicy, env: Matchers)
    ensures
      var decision := Decide(request, editMode, policy, env);
      var free := !Restricted(policy, MatchesOf(env, request)) && !AsksSelfApproval(request);
      var edit := free && request.capability == EditTransaction && request.risk == WorkspaceWrite;
      && (decision.Allowed? <==> edit && editMode == Allow)
      && (decision == Allowed(ModeAllowed) <==> edit && editMode == Allow)
      && (decision == NeedsUserReview(ModeAsk) <==> edit && editMode == Ask)
      && (decision == NeedsUserReview(RouteToReviewer) <==> edit && editMode == AutoReview)
      && (decision == Denied(ModeDenied) <==>
            (edit && editMode == Deny) || (free && request.capability != EditTransaction))
      && (decision == Denied(RiskDenied) <==>
            free && request.capability == EditTransaction && request.risk != WorkspaceWrite)
      && (decision == Denied(SelfApprovalDenied) <==>
            !Restricted(policy, MatchesOf(env, request)) && AsksSelfApproval(request))
  {
    CheckIsExact(policy, MatchesOf(env, request));
  }

  // ---- Denials ----

  /**
  A request is denied exactly when no restriction matches and its own kind is
  refused: restrictions take precedence over denials as well.
  */
  lemma DeniedExactly(request: Request, editMode: PermissionMode, mode: ApprovalMode, allowlisted: bool, granted: bool,
                      policy: ReviewPolicy, env: Matchers)
    ensures Decide(request, editMode, policy, env).Denied? <==>
      && !Restricted(policy, MatchesOf(env, request))
      && (AsksSelfApproval(request) || !request.capability.EditTransaction? || !request.risk.WorkspaceWrite?
          || editMode.Deny?)
    ensures DecideShell(request, mode, allowlisted, granted, policy, env).Denied? <==>
      && !Restricted(policy, MatchesOf(env, request))
      && (!request.capability.ShellCommand? || !request.risk.ProcessExecution?)
  {
    CheckIsExact(policy, MatchesOf(env, request));
  }

  /** A self-approving extension edit: denied without restrictions, put to the user under an ask-first one. */
  lemma RestrictionReplacesDenial(extensionId: string, editMode: PermissionMode, prefix: string, note: string,
                                  env: Matchers)
    requires env.underPath(prefix, prefix)
    ensures
      var request := Request(ExtensionActor(extensionId), EditTransaction, "edit", prefix, WorkspaceWrite,
                             Some(ExtensionReviewer(extensionId)), None);
      && Decide(request, editMode, ReviewPolicy([], []), env) == Denied(SelfApprovalDenied)
      && Decide(request, editMode, ReviewPolicy([AskFirst(PathPrefix(prefix), note)], []), env)
         == NeedsUserReview(RestrictionAskFirst)
  {
    var r := AskFirst(PathPrefix(prefix), note);
    assert [r][..0] == [];
    assert forall matches: Matching :: StrongestOf([r], matches) == if matches(r) then Some(r) else None;
  }
}
