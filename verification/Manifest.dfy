/**
Tools, replacement bundles and reviewer of an extension manifest
(`parse_extension_manifest` in extension.rs).
*/
module Manifest {
  import opened Results
  import opened Tools
  import opened Bundles
  import Hunks

  datatype ExtensionRisk = ReadsMetadata | ReadsContent | MutatesState | Network | Process

  function AsToolRisk(risk: ExtensionRisk): ToolRisk {
    match risk
    case ReadsMetadata => ReadsLocalMetadata
    case ReadsContent => ReadsLocalContent
    case MutatesState => MutatesLocalState
    case Network => UsesNetwork
    case Process => RunsProcess
  }

  // ---- As written and as parsed ----

  datatype RawTool = RawTool(name: string, risk: string)

  datatype RawMember = RawMember(builtin: string, tool: string, contract: string)

  datatype RawBundle = RawBundle(id: string, members: seq<RawMember>)

  datatype RawReviewer = RawReviewer(reviewerId: string, disclosure: string)

  datatype Raw = Raw(tools: seq<RawTool>, bundles: seq<RawBundle>, reviewer: Option<RawReviewer>)

  datatype DeclaredTool = DeclaredTool(name: string, risk: ExtensionRisk)

  datatype DeclaredBundle = DeclaredBundle(id: string, members: seq<Member>)

  datatype Reviewer = Reviewer(reviewerId: string)

  datatype Contributions =
    Contributions(tools: seq<DeclaredTool>, bundles: seq<DeclaredBundle>, reviewer: Option<Reviewer>)

  datatype ManifestError =
    | ReservedToolName(name: string)
    | InvalidToolName(name: string)
    | DuplicateToolNameInManifest(name: string)
    | UnsupportedToolRisk(risk: string)
    | InvalidReplacementBundleId(id: string)
    | DuplicateReplacementBundleId(id: string)
    | InvalidReplacementBundle(id: string)
    | InvalidReplacementContract(contract: string)
    | InvalidReviewerId(id: string)
    | DisclosureSummaryTooLong
    | ReviewerCannotDeclareTools

  const RESERVED_TOOL_NAMES: set<string> := {"project_path_info", "fixture_echo_metadata"}

  const MAX_REVIEWER_ID_LEN: nat := 64

  const MAX_DISCLOSURE_SUMMARY_LEN: nat := 512

  predicate IsToolNameChar(c: char, first: bool) {
    'a' <= c <= 'z' || c == '_' || (!first && '0' <= c <= '9')
  }

  predicate IsValidToolName(name: string) {
    name != "" && forall i :: 0 <= i < |name| ==> IsToolNameChar(name[i], i == 0)
  }

  predicate IsReviewerIdChar(c: char) {
    'a' <= c <= 'z' || '0' <= c <= '9' || c == '.' || c == '-'
  }

  predicate IsValidReviewerId(id: string) {
    0 < |id| <= MAX_REVIEWER_ID_LEN && forall i :: 0 <= i < |id| ==> IsReviewerIdChar(id[i])
  }

  /** `str::chars().count()`: the bytes that start a character. */
  function CharCount(text: string): nat {
    if text == "" then 0
    else CharCount(text[1..]) + if Hunks.IsContinuation(text[0]) then 0 else 1
  }

  function ParseRisk(risk: string): Option<ExtensionRisk> {
    if risk == "reads_local_metadata" then Some(ReadsMetadata)
    else if risk == "reads_local_content" then Some(ReadsContent)
    else if risk == "mutates_local_state" then Some(MutatesState)
    else if risk == "uses_network" then Some(Network)
    else if risk == "runs_process" then Some(Process)
    else None
  }

  predicate IsContract(contract: string) {
    contract == "preserve" || contract == "replace"
  }

  // ---- Names, risks and texts ----

  /** The five risks a manifest may declare, and the registry risks they become. */
  lemma RisksByName(name: string)
    ensures ParseRisk(name).Some? <==>
      || name == "reads_local_metadata" || name == "reads_local_content" || name == "mutates_local_state"
      || name == "uses_network" || name == "runs_process"
    ensures ParseRisk(name).Some? ==>
      var risk := AsToolRisk(ParseRisk(name).value);
      && (name == "reads_local_metadata" <==> risk == ReadsLocalMetadata)
      && (name == "reads_local_content" <==> risk == ReadsLocalContent)
      && (name == "mutates_local_state" <==> risk == MutatesLocalState)
      && (name == "uses_network" <==> risk == UsesNetwork)
      && (name == "runs_process" <==> risk == RunsProcess)
      && IsExtensionDeclarable(risk)
  {
  }

  /** Lower-case ASCII letters, digits and underscores, not starting with a digit. */
  lemma ToolNameGrammar(name: string)
    ensures IsValidToolName(name) <==>
      && name != "" && ('a' <= name[0] <= 'z' || name[0] == '_')
      && forall i :: 1 <= i < |name| ==> 'a' <= name[i] <= 'z' || '0' <= name[i] <= '9' || name[i] == '_'
  {
  }

  /** Two names are reserved for the core. */
  lemma ReservedNames(name: string)
    ensures name in RESERVED_TOOL_NAMES <==> name == "project_path_info" || name == "fixture_echo_metadata"
    ensures MAX_DISCLOSURE_SUMMARY_LEN == 512
  {
  }

  /** One to 64 lower-case ASCII letters, digits, dots and dashes. */
  lemma ReviewerIdGrammar(id: string)
    ensures IsValidReviewerId(id) <==>
      && 1 <= |id| <= 64
      && forall i :: 0 <= i < |id| ==> 'a' <= id[i] <= 'z' || '0' <= id[i] <= '9' || id[i] == '.' || id[i] == '-'
  {
  }

  /** Bytes that start a character are counted: all of an ASCII text. */
  lemma {:induction false} CharCountOfAscii(text: string, more: string)
    requires forall i :: 0 <= i < |text| ==> text[i] as int < 0x80
    ensures CharCount(text + more) == |text| + CharCount(more)
  {
    if text == "" {
      assert text + more == more;
    } else {
      CharCountOfAscii(text[1..], more);
      assert (text + more)[1..] == text[1..] + more;
    }
  }

  // ---- What a manifest must be ----

  ghost predicate ToolsFine(tools: seq<RawTool>) {
    && (forall i, j :: 0 <= i < j < |tools| ==> tools[i].name != tools[j].name)
    && forall i :: 0 <= i < |tools| ==>
      && IsValidToolName(tools[i].name) && tools[i].name !in RESERVED_TOOL_NAMES && ParseRisk(tools[i].risk).Some?
  }

  ghost function ToolNames(tools: seq<RawTool>): set<string> {
    set i | 0 <= i < |tools| :: tools[i].name
  }

  ghost predicate MembersFine(members: seq<RawMember>, names: set<string>) {
    && (forall i, j :: 0 <= i < j < |members| ==> members[i].builtin != members[j].builtin)
    && (forall i, j :: 0 <= i < j < |members| ==> members[i].tool != members[j].tool)
    && forall i :: 0 <= i < |members| ==>
      && IsValidToolName(members[i].builtin) && members[i].tool in names && IsContract(members[i].contract)
  }

  ghost predicate BundleFine(b: RawBundle, names: set<string>) {
    IsValidToolName(b.id) && |b.members| >= 2 && MembersFine(b.members, names)
  }

  ghost predicate BundlesFine(bundles: seq<RawBundle>, names: set<string>) {
    && (forall i, j :: 0 <= i < j < |bundles| ==> bundles[i].id != bundles[j].id)
    && forall i :: 0 <= i < |bundles| ==> BundleFine(bundles[i], names)
  }

  ghost predicate ReviewerFine(reviewer: Option<RawReviewer>, tools: seq<RawTool>) {
    reviewer.Some? ==>
      && IsValidReviewerId(reviewer.value.reviewerId)
      && CharCount(reviewer.value.disclosure) <= MAX_DISCLOSURE_SUMMARY_LEN
      && tools == []
  }

  ghost predicate RawFine(raw: Raw) {
    ToolsFine(raw.tools) && BundlesFine(raw.bundles, ToolNames(raw.tools)) && ReviewerFine(raw.reviewer, raw.tools)
  }

  /** `tools` are the raw ones, with their risks read. */
  ghost predicate ReadsTools(raw: seq<RawTool>, tools: seq<DeclaredTool>) {
    && |tools| == |raw|
    && forall i :: 0 <= i < |raw| ==> tools[i].name == raw[i].name && ParseRisk(raw[i].risk) == Some(tools[i].risk)
  }

  ghost predicate ReadsMembers(raw: seq<RawMember>, members: seq<Member>) {
    && |members| == |raw|
    && forall i :: 0 <= i < |raw| ==> members[i] == Member(raw[i].builtin, raw[i].tool, raw[i].contract == "preserve")
  }

  ghost predicate ReadsBundles(raw: seq<RawBundle>, bundles: seq<DeclaredBundle>) {
    && |bundles| == |raw|
    && forall i :: 0 <= i < |raw| ==> bundles[i].id == raw[i].id && ReadsMembers(raw[i].members, bundles[i].members)
  }

  // ---- Why a manifest is refused ----

  /** The first tool that is not fine, and what is wrong with it. */
  ghost predicate ToolRefused(raw: seq<RawTool>, e: ManifestError, i: nat) {
    && i < |raw| && ToolsFine(raw[..i])
    && var name := raw[i].name;
    if name in RESERVED_TOOL_NAMES then e == ReservedToolName(name)
    else if !IsValidToolName(name) then e == InvalidToolName(name)
    else if name in ToolNames(raw[..i]) then e == DuplicateToolNameInManifest(name)
    else ParseRisk(raw[i].risk).None? && e == UnsupportedToolRisk(raw[i].risk)
  }

  /** The first member that is not fine, and what is wrong with it. */
  ghost predicate MemberRefused(id: string, raw: seq<RawMember>, names: set<string>, e: ManifestError, i: nat) {
    && i < |raw| && MembersFine(raw[..i], names)
    && if !IsValidToolName(raw[i].builtin) || raw[i].tool !in names || raw[i].builtin in BuiltinsOf(raw[..i])
          || raw[i].tool in ImplementationsOf(raw[..i])
       then e == InvalidReplacementBundle(id)
       else !IsContract(raw[i].contract) && e == InvalidReplacementContract(raw[i].contract)
  }

  /** The first bundle that is not fine, and what is wrong with it. */
  ghost predicate BundleRefused(raw: seq<RawBundle>, names: set<string>, e: ManifestError, i: nat) {
    && i < |raw| && BundlesFine(raw[..i], names)
    && var b := raw[i];
    if !IsValidToolName(b.id) then e == InvalidReplacementBundleId(b.id)
    else if b.id in BundleIds(raw[..i]) then e == DuplicateReplacementBundleId(b.id)
    else if |b.members| < 2 then e == InvalidReplacementBundle(b.id)
    else exists k :: MemberRefused(b.id, b.members, names, e, k)
  }

  ghost predicate RawRefused(raw: Raw, e: ManifestError) {
    if !ToolsFine(raw.tools) then exists i :: ToolRefused(raw.tools, e, i)
    else if !BundlesFine(raw.bundles, ToolNames(raw.tools))
    then exists i :: BundleRefused(raw.bundles, ToolNames(raw.tools), e, i)
    else
      && raw.reviewer.Some?
      && if !IsValidReviewerId(raw.reviewer.value.reviewerId) then e == InvalidReviewerId(raw.reviewer.value.reviewerId)
         else if CharCount(raw.reviewer.value.disclosure) > 512 then e == DisclosureSummaryTooLong
         else raw.tools != [] && e == ReviewerCannotDeclareTools
  }

  // ---- The parser's loops ----

  method ParseTools(raw: seq<RawTool>)
    returns (r: Result<seq<DeclaredTool>, ManifestError>, names: set<string>)
    ensures r.Ok? <==> ToolsFine(raw)
    ensures r.Err? ==> exists i :: ToolRefused(raw, r.error, i)
    ensures r.Ok? ==> ReadsTools(raw, r.value) && names == ToolNames(raw)
  {
    hide IsValidToolName;
    names := {};
    var tools: seq<DeclaredTool> := [];
    for i := 0 to |raw|
      invariant names == ToolNames(raw[..i]) && ToolsFine(raw[..i]) && ReadsTools(raw[..i], tools)
    {
      var name := raw[i].name;
      if name in RESERVED_TOOL_NAMES {
        assert ToolRefused(raw, ReservedToolName(name), i);
        return Err(ReservedToolName(name)), names;
      }
      if !IsValidToolName(name) {
        assert ToolRefused(raw, InvalidToolName(name), i);
        return Err(InvalidToolName(name)), names;
      }
      if name in names {
        assert !ToolsFine(raw) && ToolRefused(raw, DuplicateToolNameInManifest(name), i);
        return Err(DuplicateToolNameInManifest(name)), names;
      }
      names := names + {name};
      var risk := ParseRisk(raw[i].risk);
      if risk.None? {
        assert ToolRefused(raw, UnsupportedToolRisk(raw[i].risk), i);
        return Err(UnsupportedToolRisk(raw[i].risk)), names;
      }
      tools := tools + [DeclaredTool(name, risk.value)];
      assert raw[..i + 1] == raw[..i] + [raw[i]];
    }
    assert raw[..|raw|] == raw;
    return Ok(tools), names;
  }

  ghost function BuiltinsOf(members: seq<RawMember>): set<string> {
    set i | 0 <= i < |members| :: members[i].builtin
  }

  ghost function ImplementationsOf(members: seq<RawMember>): set<string> {
    set i | 0 <= i < |members| :: members[i].tool
  }

  method ParseMembers(id: string, raw: seq<RawMember>, names: set<string>)
    returns (r: Result<seq<Member>, ManifestError>)
    ensures r.Ok? <==> MembersFine(raw, names)
    ensures r.Err? ==> exists i :: MemberRefused(id, raw, names, r.error, i)
    ensures r.Ok? ==> ReadsMembers(raw, r.value)
  {
    hide IsValidToolName;
    var builtins: set<string>, implementations: set<string> := {}, {};
    var members: seq<Member> := [];
    for i := 0 to |raw|
      invariant builtins == BuiltinsOf(raw[..i]) && implementations == ImplementationsOf(raw[..i])
      invariant MembersFine(raw[..i], names) && ReadsMembers(raw[..i], members)
    {
      var m := raw[i];
      if !IsValidToolName(m.builtin) || m.tool !in names || m.builtin in builtins || m.tool in implementations {
        assert !MembersFine(raw, names) && MemberRefused(id, raw, names, InvalidReplacementBundle(id), i);
        return Err(InvalidReplacementBundle(id));
      }
      builtins, implementations := builtins + {m.builtin}, implementations + {m.tool};
      if !IsContract(m.contract) {
        assert MemberRefused(id, raw, names, InvalidReplacementContract(m.contract), i);
        return Err(InvalidReplacementContract(m.contract));
      }
      members := members + [Member(m.builtin, m.tool, m.contract == "preserve")];
      assert raw[..i + 1] == raw[..i] + [raw[i]];
    }
    assert raw[..|raw|] == raw;
    return Ok(members);
  }

  ghost function BundleIds(bundles: seq<RawBundle>): set<string> {
    set i | 0 <= i < |bundles| :: bundles[i].id
  }

  method ParseBundles(raw: seq<RawBundle>, names: set<string>)
    returns (r: Result<seq<DeclaredBundle>, ManifestError>)
    ensures r.Ok? <==> BundlesFine(raw, names)
    ensures r.Err? ==> exists i :: BundleRefused(raw, names, r.error, i)
    ensures r.Ok? ==> ReadsBundles(raw, r.value)
  {
    hide IsValidToolName, MembersFine, ReadsMembers, MemberRefused;
    var seen: set<string> := {};
    var bundles: seq<DeclaredBundle> := [];
    for i := 0 to |raw|
      invariant seen == BundleIds(raw[..i]) && BundlesFine(raw[..i], names) && ReadsBundles(raw[..i], bundles)
    {
      var b := raw[i];
      if !IsValidToolName(b.id) {
        assert BundleRefused(raw, names, InvalidReplacementBundleId(b.id), i);
        return Err(InvalidReplacementBundleId(b.id));
      }
      if b.id in seen {
        assert !BundlesFine(raw, names) && BundleRefused(raw, names, DuplicateReplacementBundleId(b.id), i);
        return Err(DuplicateReplacementBundleId(b.id));
      }
      seen := seen + {b.id};
      if |b.members| < 2 {
        assert BundleRefused(raw, names, InvalidReplacementBundle(b.id), i);
        return Err(InvalidReplacementBundle(b.id));
      }
      var members := ParseMembers(b.id, b.members, names);
      if members.Err? {
        assert BundleRefused(raw, names, members.error, i);
        return Err(members.error);
      }
      bundles := bundles + [DeclaredBundle(b.id, members.value)];
      assert raw[..i + 1] == raw[..i] + [raw[i]];
    }
    assert raw[..|raw|] == raw;
    return Ok(bundles);
  }

  /** The tool, bundle and reviewer part of `parse_extension_manifest`: exactly the fine manifests, read as written. */
  method ParseContributions(raw: Raw) returns (r: Result<Contributions, ManifestError>)
    ensures r.Ok? <==> RawFine(raw)
    ensures r.Err? ==> RawRefused(raw, r.error)
    ensures r.Ok? ==>
      && ReadsTools(raw.tools, r.value.tools) && ReadsBundles(raw.bundles, r.value.bundles)
      && (r.value.reviewer.Some? <==> raw.reviewer.Some?)
      && (r.value.reviewer.Some? ==> r.value.reviewer.value.reviewerId == raw.reviewer.value.reviewerId)
      && ParsedTools(r.value.tools, r.value.reviewer) && ParsedBundles(r.value.tools, r.value.bundles)
  {
    hide ToolsFine, BundlesFine, ToolRefused, BundleRefused;
    var tools, names := ParseTools(raw.tools);
    if tools.Err? {
      return Err(tools.error);
    }
    var bundles := ParseBundles(raw.bundles, names);
    if bundles.Err? {
      return Err(bundles.error);
    }
    var reviewer := None;
    if raw.reviewer.Some? {
      if !IsValidReviewerId(raw.reviewer.value.reviewerId) {
        return Err(InvalidReviewerId(raw.reviewer.value.reviewerId));
      }
      if CharCount(raw.reviewer.value.disclosure) > MAX_DISCLOSURE_SUMMARY_LEN {
        return Err(DisclosureSummaryTooLong);
      }
      reviewer := Some(Reviewer(raw.reviewer.value.reviewerId));
      if tools.value != [] {
        return Err(ReviewerCannotDeclareTools);
      }
    }
    ReadToolsAreParsed(raw.tools, tools.value, reviewer);
    ReadBundlesAreParsed(raw.bundles, names, bundles.value, tools.value);
    return Ok(Contributions(tools.value, bundles.value, reviewer));
  }

  // ---- What every parsed manifest guarantees ----

  ghost predicate ParsedTools(tools: seq<DeclaredTool>, reviewer: Option<Reviewer>) {
    && (forall i, j :: 0 <= i < j < |tools| ==> tools[i].name != tools[j].name)
    && (forall tool <- tools :: IsValidToolName(tool.name) && tool.name !in RESERVED_TOOL_NAMES)
    && (reviewer.Some? ==> tools == [])
  }

  /** Bundle ids differ; members of a bundle have distinct built-ins and are implemented by declared tools. */
  ghost predicate ParsedBundles(tools: seq<DeclaredTool>, bundles: seq<DeclaredBundle>) {
    && (forall i, j :: 0 <= i < j < |bundles| ==> bundles[i].id != bundles[j].id)
    && forall b <- bundles ::
      && |b.members| >= 2 && DistinctBuiltins(b.members)
      && forall m <- b.members :: exists tool <- tools :: tool.name == m.tool
  }

  ghost predicate DistinctBuiltins(members: seq<Member>) {
    forall i, j :: 0 <= i < j < |members| ==> members[i].builtin != members[j].builtin
  }

  lemma ReadToolsAreParsed(raw: seq<RawTool>, tools: seq<DeclaredTool>, reviewer: Option<Reviewer>)
    requires ToolsFine(raw) && ReadsTools(raw, tools) && (reviewer.Some? ==> tools == [])
    ensures ParsedTools(tools, reviewer)
  {
    hide IsValidToolName;
  }

  lemma ReadBundlesAreParsed(raw: seq<RawBundle>, names: set<string>, bundles: seq<DeclaredBundle>,
                             tools: seq<DeclaredTool>)
    requires BundlesFine(raw, names) && ReadsBundles(raw, bundles)
    requires forall name <- names :: exists tool <- tools :: tool.name == name
    ensures ParsedBundles(tools, bundles)
  {
    hide IsValidToolName;
    forall b <- bundles
      ensures |b.members| >= 2 && DistinctBuiltins(b.members)
      ensures forall m <- b.members :: exists tool <- tools :: tool.name == m.tool
    {
      var i :| 0 <= i < |bundles| && bundles[i] == b;
      assert BundleFine(raw[i], names);
    }
  }

  // ---- From a manifest to the resolver ----

  datatype Scope = UserScope | ProjectScope | EphemeralScope

  function SourceOf(scope: Scope): Source {
    match scope
    case UserScope => FromUser
    case ProjectScope => FromProject(false)
    case EphemeralScope => Ephemeral
  }

  /** Bundles of an extension installed in a project never resolve; other scopes are no obstacle. */
  lemma ProjectBundlesFail(defs: Definitions, ads: Advertising, all: seq<Bundle>, executable: set<string>,
                           extensionId: string, scope: Scope, tools: seq<DeclaredTool>, bundles: seq<DeclaredBundle>)
    requires ParsedBundles(tools, bundles)
    ensures
      var active := Activated(extensionId, SourceOf(scope), bundles);
      && (scope == ProjectScope ==> forall b <- active :: !BundleOk(defs, ads, all, executable, b))
      && (scope != ProjectScope ==> forall b <- active :: b.source != FromProject(false))
  {
    var active := Activated(extensionId, SourceOf(scope), bundles);
    if scope == ProjectScope {
      forall b <- active ensures !BundleOk(defs, ads, all, executable, b) {
        var i :| 0 <= i < |active| && active[i] == b;
        assert bundles[i] in bundles;
        assert RulesOf(b)[0] in RulesOf(b) && RulesOf(b)[0].source == FromProject(false);
      }
    }
  }

  /** `activated_replacement_bundles` */
  function Activated(extensionId: string, source: Source, bundles: seq<DeclaredBundle>): (r: seq<Bundle>)
    ensures |r| == |bundles|
  {
    seq(|bundles|, i requires 0 <= i < |bundles| => Bundle(extensionId, bundles[i].id, bundles[i].members, source))
  }

  lemma {:induction false} CountOfDistinct(rules: seq<Rule>, name: string)
    requires forall i, j :: 0 <= i < j < |rules| ==> rules[i].builtin != rules[j].builtin
    ensures CountIn(rules, name) <= 1
    ensures (forall i :: 0 <= i < |rules| ==> rules[i].builtin != name) ==> CountIn(rules, name) == 0
  {
    if rules != [] {
      CountOfDistinct(rules[1..], name);
    }
  }

  /**
  Bundles of a parsed manifest are activated as declared, under the extension's
  id; they have distinct keys and none of them claims a built-in twice, so that a
  conflict is always between two bundles.
  */
  lemma ActivatedBundlesAreDistinct(extensionId: string, source: Source, tools: seq<DeclaredTool>,
                                    bundles: seq<DeclaredBundle>)
    requires ParsedBundles(tools, bundles)
    ensures
      var active := Activated(extensionId, source, bundles);
      && (forall i :: 0 <= i < |active| ==>
            && active[i].extensionId == extensionId && active[i].bundleId == bundles[i].id
            && active[i].members == bundles[i].members && active[i].source == source)
      && (forall i, j :: 0 <= i < j < |active| ==> KeyOf(active[i]) != KeyOf(active[j]))
      && forall i, name :: 0 <= i < |active| ==> CountIn(RulesOf(active[i]), name) <= 1
  {
    var active := Activated(extensionId, source, bundles);
    forall i, name | 0 <= i < |active| ensures CountIn(RulesOf(active[i]), name) <= 1 {
      assert bundles[i] in bundles;
      CountOfDistinct(RulesOf(active[i]), name);
    }
  }
}
