/**
The extension registration handshake (`initialize_and_register` and
`bind_registration_to_manifest` in extension.rs) on top of the tool registry
(tools.rs), for contributions that `parse_extension_manifest` accepts.
*/
module Registration {
  import opened Results
  import opened Tools
  import opened Manifest

  // ---- Messages ----

  datatype HostMessage =
    | Ready(protocol: string, extensionId: string)
    | ToolRegister(name: string, description: string, risk: ExtensionRisk, providerVisible: bool, schema: string)
    | ReviewReady(reviewerId: string, contract: string)
    | OtherMessage

  datatype ProtocolError =
    | Transport
    | UnsupportedProtocol
    | ExtensionIdMismatch
    | MissingReady
    | Malformed
    | UndeclaredTool(undeclared: string)
    | ToolRiskMismatch(mismatched: string)
    | ToolRegistration(cause: RegistrationError)
    | ReviewerContractMismatch
    | MissingReviewReady

  const PROTOCOL := "yach.extension-host.v2"

  /** What the transport yields to each receive in turn; past the end it times out. */
  type Script = seq<Result<HostMessage, ProtocolError>>

  function Receive(script: Script, i: nat): Result<HostMessage, ProtocolError> {
    if i < |script| then script[i] else Err(Transport)
  }

  function Declared(tools: seq<DeclaredTool>, name: string, i: nat): (r: Option<DeclaredTool>)
    requires i <= |tools|
    ensures r.Some? ==> r.value in tools && r.value.name == name
    ensures r.None? ==> forall j :: i <= j < |tools| ==> tools[j].name != name
    decreases |tools| - i
  {
    if i == |tools| then None else if tools[i].name == name then Some(tools[i]) else Declared(tools, name, i + 1)
  }

  /** `bind_registration_to_manifest` */
  function Bind(tools: seq<DeclaredTool>, name: string, risk: ExtensionRisk): Result<string, ProtocolError> {
    match Declared(tools, name, 0)
    case None => Err(UndeclaredTool(name))
    case Some(declared) => if declared.risk != risk then Err(ToolRiskMismatch(name)) else Ok(name)
  }

  /** Declared with that risk, declared with another, or not declared. */
  lemma BindExactly(tools: seq<DeclaredTool>, name: string, risk: ExtensionRisk)
    requires forall i, j :: 0 <= i < j < |tools| ==> tools[i].name != tools[j].name
    ensures Bind(tools, name, risk) == Ok(name) <==> DeclaredTool(name, risk) in tools
    ensures Bind(tools, name, risk) == Err(ToolRiskMismatch(name)) <==> DeclaredOtherwise(tools, name, risk)
    ensures Bind(tools, name, risk) == Err(UndeclaredTool(name)) <==> forall tool <- tools :: tool.name != name
  {
    var declared := Declared(tools, name, 0);
    if declared.Some? {
      var d := declared.value;
      assert d == DeclaredTool(name, d.risk);
    }
  }

  ghost predicate DeclaredOtherwise(tools: seq<DeclaredTool>, name: string, risk: ExtensionRisk) {
    exists other :: other != risk && DeclaredTool(name, other) in tools
  }

  function Definition(extensionId: string, version: Option<string>, m: HostMessage): ToolDefinition
    requires m.ToolRegister?
  {
    var owner := Extension(extensionId, version);
    ToolDefinition(m.name, m.description, m.schema, AsToolRisk(m.risk), owner, m.providerVisible)
  }

  // ---- Registering ----

  ghost predicate DistinctNames(staged: seq<ToolDefinition>) {
    forall i, j :: 0 <= i < j < |staged| ==> staged[i].name != staged[j].name
  }

  /** Each staged definition is a declared tool, with the declared risk, owned by the extension. */
  ghost predicate BoundTo(staged: seq<ToolDefinition>, tools: seq<DeclaredTool>, extensionId: string,
                          version: Option<string>)
  {
    forall d <- staged ::
      && d.owner == Extension(extensionId, version)
      && exists tool <- tools :: tool.name == d.name && AsToolRisk(tool.risk) == d.risk
  }

  class Registry {
    var definitions: Definitions

    constructor (defs: Definitions)
      ensures definitions == defs
    {
      definitions := defs;
    }

    /** `register_extension_tool` */
    method Register(d: ToolDefinition) returns (error: Option<RegistrationError>)
      modifies this
      ensures error == Rejection(old(definitions), d)
      ensures definitions == if error.None? then old(definitions) + [d] else old(definitions)
      ensures UniqueNames(old(definitions)) ==> UniqueNames(definitions)
    {
      error := Rejection(definitions, d);
      if error.None? {
        definitions := definitions + [d];
      }
    }
  }

  lemma {:induction false} GetAfterAppend(defs: Definitions, d: ToolDefinition, name: string, i: nat)
    requires i <= |defs| && Get(defs, name, i).None? && d.name != name
    ensures Get(defs + [d], name, i).None?
    decreases |defs| + 1 - i
  {
    if i < |defs| {
      assert (defs + [d])[i] == defs[i];
      GetAfterAppend(defs, d, name, i + 1);
    }
  }

  ghost predicate TwiceIn(staged: seq<ToolDefinition>, name: string) {
    exists i, j :: 0 <= i < j < |staged| && staged[i].name == staged[j].name == name
  }

  /** Why a batch is refused. */
  ghost predicate Unacceptable(defs: Definitions, staged: seq<ToolDefinition>, cause: RegistrationError) {
    || (cause.DuplicateToolName? && TwiceIn(staged, cause.name))
    || exists d <- staged :: Rejection(defs, d) == Some(cause)
  }

  /** The pre-check of a whole batch: distinct names, each acceptable to the registry as it is. */
  method PreCheck(registry: Registry, staged: seq<ToolDefinition>) returns (error: Option<RegistrationError>)
    ensures error.None? <==> Acceptable(registry.definitions, staged)
    ensures error.Some? ==> Unacceptable(registry.definitions, staged, error.value)
  {
    hide Rejection;
    var names: set<string> := {};
    for i := 0 to |staged|
      invariant names == set j | 0 <= j < i :: staged[j].name
      invariant forall j, k :: 0 <= j < k < i ==> staged[j].name != staged[k].name
      invariant forall j :: 0 <= j < i ==> Rejection(registry.definitions, staged[j]).None?
    {
      if staged[i].name in names {
        assert TwiceIn(staged, staged[i].name);
        return Some(DuplicateToolName(staged[i].name));
      }
      names := names + {staged[i].name};
      error := Rejection(registry.definitions, staged[i]);
      if error.Some? {
        assert staged[i] in staged;
        return;
      }
    }
    return None;
  }

  /** After a batch passed the pre-check no single registration fails. */
  method RegisterAll(registry: Registry, staged: seq<ToolDefinition>) returns (error: Option<RegistrationError>)
    requires Acceptable(registry.definitions, staged)
    modifies registry
    ensures error.None? && registry.definitions == old(registry.definitions) + staged
    ensures UniqueNames(old(registry.definitions)) ==> UniqueNames(registry.definitions)
  {
    ghost var before := registry.definitions;
    for i := 0 to |staged|
      invariant registry.definitions == before + staged[..i]
      invariant UniqueNames(before) ==> UniqueNames(registry.definitions)
      invariant forall j :: i <= j < |staged| ==> Rejection(registry.definitions, staged[j]).None?
    {
      ghost var defs := registry.definitions;
      error := registry.Register(staged[i]);
      assert error.None?;
      forall j | i < j < |staged| ensures Rejection(registry.definitions, staged[j]).None? {
        GetAfterAppend(defs, staged[i], staged[j].name, 0);
      }
      assert before + staged[..i] + [staged[i]] == before + staged[..i + 1];
    }
    assert staged[..|staged|] == staged;
    return None;
  }

  ghost function NamesOf(tools: seq<DeclaredTool>): set<string> {
    set i | 0 <= i < |tools| :: tools[i].name
  }

  ghost function StagedNames(staged: seq<ToolDefinition>): set<string> {
    set i | 0 <= i < |staged| :: staged[i].name
  }

  lemma {:induction false} DistinctNamesCount(staged: seq<ToolDefinition>)
    requires DistinctNames(staged)
    ensures |StagedNames(staged)| == |staged|
  {
    if staged != [] {
      var n := |staged| - 1;
      DistinctNamesCount(staged[..n]);
      assert forall i :: 0 <= i < n ==> staged[..n][i] == staged[i];
      assert StagedNames(staged) == StagedNames(staged[..n]) + {staged[n].name};
    }
  }

  lemma {:induction false} DeclaredNamesCount(tools: seq<DeclaredTool>)
    ensures |NamesOf(tools)| <= |tools|
  {
    if tools != [] {
      var n := |tools| - 1;
      DeclaredNamesCount(tools[..n]);
      assert forall i :: 0 <= i < n ==> tools[..n][i] == tools[i];
      assert NamesOf(tools) == NamesOf(tools[..n]) + {tools[n].name};
    }
  }

  /** As many distinct staged names as declared tools, all of them declared: they are the declared names. */
  lemma StagedAreDeclared(staged: seq<ToolDefinition>, tools: seq<DeclaredTool>, extensionId: string,
                          version: Option<string>)
    requires DistinctNames(staged) && |staged| == |tools| && BoundTo(staged, tools, extensionId, version)
    ensures StagedNames(staged) == NamesOf(tools)
  {
    DistinctNamesCount(staged);
    DeclaredNamesCount(tools);
    forall i | 0 <= i < |staged| ensures staged[i].name in NamesOf(tools) {
      assert staged[i] in staged;
      var tool :| tool in tools && tool.name == staged[i].name;
      var j :| 0 <= j < |tools| && tools[j] == tool;
    }
    var a, b := StagedNames(staged), NamesOf(tools);
    assert a <= b;
    if a != b {
      assert |b| == |a| + |b - a|;
    }
  }

  /** What a successful handshake registers: the declared tools, each once, with its declared risk. */
  ghost predicate RegistersDeclared(before: Definitions, after: Definitions, tools: seq<DeclaredTool>,
                                    extensionId: string, version: Option<string>, names: seq<string>)
  {
    && |after| == |before| + |tools| && after[..|before|] == before
    && var added := after[|before|..];
    && DistinctNames(added) && BoundTo(added, tools, extensionId, version) && StagedNames(added) == NamesOf(tools)
    && |names| == |added| && forall i :: 0 <= i < |names| ==> names[i] == added[i].name
  }

  /** Receive `k + 1` yields a registration of a declared tool with its declared risk. */
  ghost predicate RegistersAt(script: Script, tools: seq<DeclaredTool>, k: nat) {
    var message := Receive(script, k + 1);
    message.Ok? && message.value.ToolRegister? && Bind(tools, message.value.name, message.value.risk).Ok?
  }

  ghost predicate RegistersEach(script: Script, tools: seq<DeclaredTool>) {
    forall k: nat :: k < |tools| ==> RegistersAt(script, tools, k)
  }

  /** The definitions a script describes, one per declared tool. */
  ghost function Described(script: Script, tools: seq<DeclaredTool>, extensionId: string, version: Option<string>)
    : (r: seq<ToolDefinition>)
    requires RegistersEach(script, tools)
  {
    seq(|tools|, k requires 0 <= k < |tools| =>
      assert RegistersAt(script, tools, k); Definition(extensionId, version, Receive(script, k + 1).value))
  }

  ghost predicate GreetsAs(script: Script, extensionId: string) {
    Receive(script, 0) == Ok(Ready(PROTOCOL, extensionId))
  }

  /** The first message must be the ready message of version 2 of the host protocol, under the extension's id. */
  lemma GreetingExactly(script: Script, extensionId: string)
    ensures GreetsAs(script, extensionId) <==>
      script != [] && script[0] == Ok(Ready("yach.extension-host.v2", extensionId))
  {
  }

  ghost predicate ReviewerAnswers(script: Script, at: nat, reviewer: Option<Reviewer>, contract: string) {
    reviewer.Some? ==> Receive(script, at) == Ok(ReviewReady(reviewer.value.reviewerId, contract))
  }

  ghost predicate Acceptable(defs: Definitions, staged: seq<ToolDefinition>) {
    DistinctNames(staged) && forall i :: 0 <= i < |staged| ==> Rejection(defs, staged[i]).None?
  }

  /** `d` is what the message describes, under the extension's name. */
  ghost predicate DescribedBy(d: ToolDefinition, m: HostMessage, extensionId: string, version: Option<string>) {
    && m.ToolRegister? && d.name == m.name && d.description == m.description && d.schema == m.schema
    && d.visible == m.providerVisible && d.owner == Extension(extensionId, version)
    && (m.risk == ReadsMetadata <==> d.risk == ReadsLocalMetadata)
    && (m.risk == ReadsContent <==> d.risk == ReadsLocalContent)
    && (m.risk == MutatesState <==> d.risk == MutatesLocalState)
    && (m.risk == Network <==> d.risk == UsesNetwork)
    && (m.risk == Process <==> d.risk == RunsProcess)
  }

  ghost predicate DescribedAt(script: Script, d: ToolDefinition, k: nat, extensionId: string, version: Option<string>) {
    Receive(script, k + 1).Ok? && DescribedBy(d, Receive(script, k + 1).value, extensionId, version)
  }

  lemma DescribedFaithfully(script: Script, tools: seq<DeclaredTool>, extensionId: string, version: Option<string>)
    requires RegistersEach(script, tools)
    ensures
      var all := Described(script, tools, extensionId, version);
      |all| == |tools| && forall k :: 0 <= k < |all| ==> DescribedAt(script, all[k], k, extensionId, version)
  {
    var all := Described(script, tools, extensionId, version);
    forall k | 0 <= k < |all| ensures DescribedAt(script, all[k], k, extensionId, version) {
      assert RegistersAt(script, tools, k);
    }
  }

  /** Why the receive loop stops. */
  ghost predicate StopsStaging(script: Script, tools: seq<DeclaredTool>, e: ProtocolError, k: nat) {
    && k < |tools|
    && match Receive(script, k + 1)
       case Err(error) => e == error
       case Ok(m) =>
         if !m.ToolRegister? then e == Malformed
         else (e == ToolRiskMismatch(m.name) && DeclaredOtherwise(tools, m.name, m.risk))
              || (e == UndeclaredTool(m.name) && forall tool <- tools :: tool.name != m.name)
  }

  /** The receive loop: exactly the described definitions, or an error. */
  method Stage(script: Script, tools: seq<DeclaredTool>, extensionId: string, version: Option<string>)
    returns (r: Result<seq<ToolDefinition>, ProtocolError>)
    requires forall i, j :: 0 <= i < j < |tools| ==> tools[i].name != tools[j].name
    ensures r.Ok? <==> RegistersEach(script, tools)
    ensures r.Err? ==> exists k :: StopsStaging(script, tools, r.error, k)
    ensures r.Ok? ==> r.value == Described(script, tools, extensionId, version)
  {
    var staged: seq<ToolDefinition> := [];
    for k := 0 to |tools|
      invariant |staged| == k
      invariant forall j: nat :: j < k ==>
        RegistersAt(script, tools, j) && staged[j] == Definition(extensionId, version, Receive(script, j + 1).value)
    {
      var message := Receive(script, k + 1);
      if message.Err? {
        assert !RegistersAt(script, tools, k) && StopsStaging(script, tools, message.error, k);
        return Err(message.error);
      }
      if !message.value.ToolRegister? {
        assert !RegistersAt(script, tools, k) && StopsStaging(script, tools, Malformed, k);
        return Err(Malformed);
      }
      var bound := Bind(tools, message.value.name, message.value.risk);
      if bound.Err? {
        BindExactly(tools, message.value.name, message.value.risk);
        assert !RegistersAt(script, tools, k) && StopsStaging(script, tools, bound.error, k);
        return Err(bound.error);
      }
      staged := staged + [Definition(extensionId, version, message.value)];
    }
    return Ok(staged);
  }

  lemma DescribedAreBound(script: Script, tools: seq<DeclaredTool>, extensionId: string, version: Option<string>)
    requires RegistersEach(script, tools)
    ensures BoundTo(Described(script, tools, extensionId, version), tools, extensionId, version)
  {
    var staged := Described(script, tools, extensionId, version);
    forall d <- staged
      ensures d.owner == Extension(extensionId, version)
      ensures exists tool <- tools :: tool.name == d.name && AsToolRisk(tool.risk) == d.risk
    {
      var k :| 0 <= k < |staged| && staged[k] == d;
      assert RegistersAt(script, tools, k);
      assert Declared(tools, d.name, 0).Some?;
    }
  }

  /** Why the handshake fails: the send, or what was received, at the first message, while staging or at the end. */
  ghost predicate FailsBecause(defs: Definitions, script: Script, extensionId: string, version: Option<string>,
                               tools: seq<DeclaredTool>, reviewer: Option<Reviewer>, contract: string,
                               send: Option<ProtocolError>, e: ProtocolError)
  {
    if send.Some? then e == send.value
    else if !GreetsAs(script, extensionId) then
      match Receive(script, 0)
      case Err(error) => e == error
      case Ok(Ready(protocol, _)) => e == if protocol != PROTOCOL then UnsupportedProtocol else ExtensionIdMismatch
      case Ok(_) => e == MissingReady
    else if !RegistersEach(script, tools) then exists k :: StopsStaging(script, tools, e, k)
    else
      var staged := Described(script, tools, extensionId, version);
      if !Acceptable(defs, staged) then e.ToolRegistration? && Unacceptable(defs, staged, e.cause)
      else
        && reviewer.Some?
        && match Receive(script, |tools| + 1)
           case Err(error) => e == error
           case Ok(ReviewReady(id, answered)) =>
             e == ReviewerContractMismatch && (id != reviewer.value.reviewerId || answered != contract)
           case Ok(_) => e == MissingReviewReady
  }

  /**
  `initialize_and_register`: for every message script and every manifest that
  parses, an error leaves the registry as it was, and success registers exactly
  the declared tools with their declared risks, as the messages describe them.
  It succeeds exactly when the initial message is sent, the host greets correctly
  and registers one declared tool per message, the batch is acceptable and the
  reviewer, if any, answers.
  */
  method InitializeAndRegister(registry: Registry, script: Script, extensionId: string, version: Option<string>,
                               tools: seq<DeclaredTool>, reviewer: Option<Reviewer>, reviewContract: string,
                               send: Option<ProtocolError>)
    returns (r: Result<seq<string>, ProtocolError>)
    requires ParsedTools(tools, reviewer)
    modifies registry
    ensures r.Err? ==> registry.definitions == old(registry.definitions)
    ensures r.Err? ==>
      FailsBecause(old(registry.definitions), script, extensionId, version, tools, reviewer, reviewContract, send,
                   r.error)
    ensures r.Ok? <==>
      && send.None? && GreetsAs(script, extensionId) && RegistersEach(script, tools)
      && Acceptable(old(registry.definitions), Described(script, tools, extensionId, version))
      && ReviewerAnswers(script, |tools| + 1, reviewer, reviewContract)
    ensures r.Ok? ==>
      && registry.definitions == old(registry.definitions) + Described(script, tools, extensionId, version)
      && RegistersDeclared(old(registry.definitions), registry.definitions, tools, extensionId, version, r.value)
    ensures UniqueNames(old(registry.definitions)) ==> UniqueNames(registry.definitions)
  {
    hide Described, RegistersEach, Acceptable, Unacceptable, StopsStaging, UniqueNames;
    if send.Some? {
      return Err(send.value);
    }
    var first := Receive(script, 0);
    if first.Err? {
      return Err(first.error);
    }
    if !first.value.Ready? {
      return Err(MissingReady);
    }
    if first.value.protocol != PROTOCOL {
      return Err(UnsupportedProtocol);
    }
    if first.value.extensionId != extensionId {
      return Err(ExtensionIdMismatch);
    }
    var all := Stage(script, tools, extensionId, version);
    if all.Err? {
      return Err(all.error);
    }
    var staged := all.value;
    var error := PreCheck(registry, staged);
    if error.Some? {
      return Err(ToolRegistration(error.value));
    }
    ghost var before := registry.definitions;
    DescribedFaithfully(script, tools, extensionId, version);
    DescribedAreBound(script, tools, extensionId, version);
    error := RegisterAll(registry, staged);
    if reviewer.Some? {
      var last := Receive(script, |tools| + 1);
      if last.Err? {
        return Err(last.error);
      }
      if !last.value.ReviewReady? {
        return Err(MissingReviewReady);
      }
      if last.value.reviewerId != reviewer.value.reviewerId || last.value.contract != reviewContract {
        return Err(ReviewerContractMismatch);
      }
    }
    var names := seq(|staged|, i requires 0 <= i < |staged| => staged[i].name);
    RegistersStaged(before, staged, tools, extensionId, version, names);
    return Ok(names);
  }

  lemma RegistersStaged(before: Definitions, staged: seq<ToolDefinition>, tools: seq<DeclaredTool>,
                        extensionId: string, version: Option<string>, names: seq<string>)
    requires Acceptable(before, staged) && |staged| == |tools| && BoundTo(staged, tools, extensionId, version)
    requires |names| == |staged| && forall i :: 0 <= i < |names| ==> names[i] == staged[i].name
    ensures RegistersDeclared(before, before + staged, tools, extensionId, version, names)
  {
    StagedAreDeclared(staged, tools, extensionId, version);
    var after := before + staged;
    assert after[..|before|] == before && after[|before|..] == staged;
  }
}
