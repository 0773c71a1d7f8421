/**
The native tool registry and its replacement resolver (tools.rs).  Permission
policy and provider routability are predicates of a definition and are
parameters of the model, held in `Advertising`.
*/
module Tools {
  import opened Results

  datatype ToolRisk =
    FixtureSafe | ReadsLocalMetadata | ReadsLocalContent | MutatesLocalState | UsesNetwork | RunsProcess

  datatype ToolOwner = BuiltIn | Extension(extensionId: string, version: Option<string>)

  datatype ToolDefinition = ToolDefinition(
    name: string, description: string, schema: string, risk: ToolRisk, owner: ToolOwner, visible: bool)

  const BUILTIN_TOOL_NAMES: set<string> := {
    "project_path_info", "read_text_file", "search_project", "list_project_paths", "edit_text_file",
    "create_text_file", "bash"
  }

  predicate IsExtensionDeclarable(risk: ToolRisk) {
    !risk.FixtureSafe?
  }

  type Definitions = seq<ToolDefinition>

  /** `ToolRegistry::get`, from index `i` on. */
  function Get(defs: Definitions, name: string, i: nat): (r: Option<ToolDefinition>)
    requires i <= |defs|
    ensures r.Some? ==> r.value in defs && r.value.name == name
    ensures r.None? ==> forall j :: i <= j < |defs| ==> defs[j].name != name
    decreases |defs| - i
  {
    if i == |defs| then None else if defs[i].name == name then Some(defs[i]) else Get(defs, name, i + 1)
  }

  datatype RegistrationError =
    | DuplicateToolName(name: string)
    | UnsupportedOwner(name: string)
    | UnsupportedRisk(name: string, risk: ToolRisk)

  /** `extension_tool_rejection` */
  function Rejection(defs: Definitions, d: ToolDefinition): Option<RegistrationError> {
    if d.name in BUILTIN_TOOL_NAMES || Get(defs, d.name, 0).Some? then Some(DuplicateToolName(d.name))
    else if d.owner.BuiltIn? then Some(UnsupportedOwner(d.name))
    else if !IsExtensionDeclarable(d.risk) then Some(UnsupportedRisk(d.name, d.risk))
    else None
  }

  /** Why an extension tool is rejected: its name is taken, else the core owns it, else its risk is a fixture's. */
  lemma RejectionExactly(defs: Definitions, d: ToolDefinition)
    ensures
      var taken := NamedLikeBuiltin(d.name) || exists other <- defs :: other.name == d.name;
      && (Rejection(defs, d) == Some(DuplicateToolName(d.name)) <==> taken)
      && (Rejection(defs, d) == Some(UnsupportedOwner(d.name)) <==> !taken && d.owner == BuiltIn)
      && (Rejection(defs, d) == Some(UnsupportedRisk(d.name, d.risk)) <==>
            !taken && d.owner != BuiltIn && d.risk == FixtureSafe)
      && (Rejection(defs, d).None? <==> !taken && d.owner != BuiltIn && d.risk != FixtureSafe)
  {
    if other :| other in defs && other.name == d.name {
      var i :| 0 <= i < |defs| && defs[i] == other;
    }
  }

  ghost predicate NamedLikeBuiltin(name: string) {
    || name == "project_path_info" || name == "read_text_file" || name == "search_project"
    || name == "list_project_paths" || name == "edit_text_file" || name == "create_text_file" || name == "bash"
  }

  // ---- Replacement rules ----

  datatype Source = FromUser | FromProfile | FromProject(trusted: bool) | Ephemeral

  datatype Mode = Deny | AliasOnly | ReplaceBuiltin | ReplaceBuiltinWithExtensionContract | DisableBuiltin

  datatype Rule = Rule(builtin: string, extensionId: string, tool: string, mode: Mode, source: Source)

  datatype Advertising = Advertising(allows: ToolDefinition -> bool, routable: ToolDefinition -> bool)

  predicate Replaces(rule: Rule) {
    rule.mode.ReplaceBuiltin? || rule.mode.ReplaceBuiltinWithExtensionContract?
  }

  predicate NamesBuiltin(defs: Definitions, rule: Rule) {
    var builtin := Get(defs, rule.builtin, 0);
    builtin.Some? && builtin.value.owner.BuiltIn?
  }

  /** Whether the resolver accepts a rule: it looks at nothing but the rule and the registry. */
  predicate RuleValid(defs: Definitions, rule: Rule) {
    && rule.source != FromProject(false)
    && (rule.mode.DisableBuiltin? ==> NamesBuiltin(defs, rule))
    && (Replaces(rule) ==>
          && NamesBuiltin(defs, rule)
          && var builtin, tool := Get(defs, rule.builtin, 0).value, Get(defs, rule.tool, 0);
          && tool.Some? && tool.value.owner.Extension? && tool.value.owner.extensionId == rule.extensionId
          && builtin.risk == tool.value.risk
          && (rule.mode.ReplaceBuiltin? ==> builtin.schema == tool.value.schema))
  }

  /** The definition a valid replacement shows to the provider under the built-in's name. */
  function ProviderDefinition(defs: Definitions, rule: Rule): ToolDefinition
    requires RuleValid(defs, rule) && Replaces(rule)
  {
    var builtin, tool := Get(defs, rule.builtin, 0).value, Get(defs, rule.tool, 0).value;
    (if rule.mode.ReplaceBuiltin? then builtin else tool).(name := builtin.name)
  }

  predicate Routed(defs: Definitions, ads: Advertising, executable: set<string>, rule: Rule)
    requires RuleValid(defs, rule)
  {
    && Replaces(rule) && rule.tool in executable
    && ads.allows(ProviderDefinition(defs, rule)) && ads.routable(ProviderDefinition(defs, rule))
  }

  datatype Resolved = Resolved(providerName: string, implementation: string)

  predicate Advertised(ads: Advertising, executable: set<string>, d: ToolDefinition) {
    d.visible && ads.allows(d) && d.name in executable && ads.routable(d)
  }

  /** Built-ins and extension tools that rules keep out of the catalog under their own names. */
  datatype Hidden = Hidden(builtins: set<string>, tools: set<string>)

  predicate Shown(ads: Advertising, executable: set<string>, hidden: Hidden, d: ToolDefinition) {
    && d.name !in (if d.owner.BuiltIn? then hidden.builtins else hidden.tools)
    && Advertised(ads, executable, d)
  }

  /** Registered tools that stay in the catalog under their own names. */
  function OwnEntries(defs: Definitions, ads: Advertising, executable: set<string>, hidden: Hidden): seq<Resolved> {
    if defs == [] then []
    else
      (if Shown(ads, executable, hidden, defs[0]) then [Resolved(defs[0].name, defs[0].name)] else [])
      + OwnEntries(defs[1..], ads, executable, hidden)
  }

  /** Entries of the rules that route, in rule order. */
  function RuleEntries(defs: Definitions, ads: Advertising, executable: set<string>, rules: seq<Rule>): seq<Resolved>
    requires forall rule <- rules :: RuleValid(defs, rule)
  {
    if rules == [] then []
    else
      (if Routed(defs, ads, executable, rules[0]) then [Resolved(rules[0].builtin, rules[0].tool)] else [])
      + RuleEntries(defs, ads, executable, rules[1..])
  }

  /** Disabled and replaced built-ins; denied tools and tools that replace something. */
  function HiddenBy(defs: Definitions, ads: Advertising, executable: set<string>, rules: seq<Rule>): Hidden
    requires forall rule <- rules :: RuleValid(defs, rule)
  {
    Hidden(
      set rule | rule in rules && (rule.mode.DisableBuiltin? || Routed(defs, ads, executable, rule)) :: rule.builtin,
      set rule | rule in rules && (rule.mode.Deny? || Routed(defs, ads, executable, rule)) :: rule.tool)
  }

  /**
  `resolve_provider_turn_catalog_with_replacements`: `None` when a rule is
  invalid.  The source then sorts by provider name with a stable sort, which
  changes no lookup.
  */
  function Resolve(defs: Definitions, ads: Advertising, executable: set<string>, rules: seq<Rule>)
    : Option<seq<Resolved>>
  {
    if exists rule <- rules :: !RuleValid(defs, rule) then None
    else
      Some(OwnEntries(defs, ads, executable, HiddenBy(defs, ads, executable, rules))
           + RuleEntries(defs, ads, executable, rules))
  }

  /** `resolved_tool`, as the implementation found. */
  function Lookup(catalog: seq<Resolved>, name: string): (r: Option<string>)
    ensures r.Some? ==> Resolved(name, r.value) in catalog
    ensures r.None? ==> forall e <- catalog :: e.providerName != name
  {
    if catalog == [] then None
    else if catalog[0].providerName == name then Some(catalog[0].implementation)
    else Lookup(catalog[1..], name)
  }

  ghost predicate UniqueNames(defs: Definitions) {
    forall i, j :: 0 <= i < j < |defs| ==> defs[i].name != defs[j].name
  }

  /** Two registered definitions, found by the names a rule gives. */
  ghost predicate Names(defs: Definitions, rule: Rule, builtin: ToolDefinition, tool: ToolDefinition) {
    builtin in defs && builtin.name == rule.builtin && tool in defs && tool.name == rule.tool
  }

  /**
  A replacement is valid exactly when its source is trusted, its built-in is one,
  its tool belongs to the rule's extension and has the same risk, and, unless the
  tool brings its own contract, the same schema.
  */
  lemma ReplacementExactly(defs: Definitions, rule: Rule, builtin: ToolDefinition, tool: ToolDefinition)
    requires UniqueNames(defs) && Replaces(rule) && Names(defs, rule, builtin, tool)
    ensures RuleValid(defs, rule) <==>
      && rule.source != FromProject(false) && builtin.owner == BuiltIn
      && (exists version :: tool.owner == Extension(rule.extensionId, version))
      && builtin.risk == tool.risk && (rule.mode == ReplaceBuiltin ==> builtin.schema == tool.schema)
    ensures RuleValid(defs, rule) ==>
      ProviderDefinition(defs, rule) ==
        if rule.mode == ReplaceBuiltin then builtin
        else ToolDefinition(builtin.name, tool.description, tool.schema, tool.risk, tool.owner, tool.visible)
  {
    assert defs[0..] == defs;
    GetByName(defs, builtin, 0);
    GetByName(defs, tool, 0);
    assert tool.owner.Extension? ==> tool.owner == Extension(tool.owner.extensionId, tool.owner.version);
  }

  /** A replacement of or by an unknown tool is invalid; other rules need no tool, and only a disabled built-in. */
  lemma RuleNeedsNames(defs: Definitions, rule: Rule)
    requires UniqueNames(defs)
    ensures Replaces(rule) && RuleValid(defs, rule) ==> exists builtin, tool :: Names(defs, rule, builtin, tool)
    ensures rule.mode == Deny || rule.mode == AliasOnly ==>
      (RuleValid(defs, rule) <==> rule.source != FromProject(false))
    ensures rule.mode == DisableBuiltin ==>
      (RuleValid(defs, rule) <==>
         rule.source != FromProject(false) && exists d <- defs :: d.name == rule.builtin && d.owner == BuiltIn)
  {
    assert defs[0..] == defs;
    if Replaces(rule) && RuleValid(defs, rule) {
      assert Names(defs, rule, Get(defs, rule.builtin, 0).value, Get(defs, rule.tool, 0).value);
    }
    if d :| d in defs && d.name == rule.builtin && d.owner == BuiltIn {
      GetByName(defs, d, 0);
    }
  }

  /** A replacement routes when its tool is executable and what the provider sees may be advertised. */
  lemma RoutedExactly(defs: Definitions, ads: Advertising, executable: set<string>, rule: Rule)
    requires RuleValid(defs, rule)
    ensures Routed(defs, ads, executable, rule) <==>
      && (rule.mode == ReplaceBuiltin || rule.mode == ReplaceBuiltinWithExtensionContract)
      && rule.tool in executable
      && exists shown :: shown == ProviderDefinition(defs, rule) && ads.allows(shown) && ads.routable(shown)
  {
  }

  /** No two replacements are for the same built-in. */
  ghost predicate UniqueBuiltins(rules: seq<Rule>) {
    forall i, j :: 0 <= i < j < |rules| && Replaces(rules[i]) && Replaces(rules[j]) ==>
      rules[i].builtin != rules[j].builtin
  }

  lemma {:induction false} OwnEntriesAre(defs: Definitions, ads: Advertising, executable: set<string>, hidden: Hidden,
                                         e: Resolved)
    ensures e in OwnEntries(defs, ads, executable, hidden) <==>
      && e.implementation == e.providerName
      && exists d <- defs :: d.name == e.providerName && Shown(ads, executable, hidden, d)
  {
    hide Shown;
    if defs != [] {
      OwnEntriesAre(defs[1..], ads, executable, hidden, e);
      assert forall d <- defs :: d == defs[0] || d in defs[1..];
    }
  }

  lemma {:induction false} RuleEntriesAre(defs: Definitions, ads: Advertising, executable: set<string>,
                                          rules: seq<Rule>, e: Resolved)
    requires forall rule <- rules :: RuleValid(defs, rule)
    ensures e in RuleEntries(defs, ads, executable, rules) <==>
      exists rule <- rules :: Routed(defs, ads, executable, rule) && e == Resolved(rule.builtin, rule.tool)
  {
    hide RuleValid, Routed;
    if rules != [] {
      RuleEntriesAre(defs, ads, executable, rules[1..], e);
      assert forall rule <- rules :: rule == rules[0] || rule in rules[1..];
    }
  }

  lemma {:induction false} GetByName(defs: Definitions, d: ToolDefinition, i: nat)
    requires UniqueNames(defs) && i <= |defs| && d in defs[i..]
    ensures Get(defs, d.name, i) == Some(d)
    decreases |defs| - i
  {
    if defs[i] != d {
      assert d in defs[i + 1..];
      var j :| i < j < |defs| && defs[j] == d;
      GetByName(defs, d, i + 1);
    }
  }

  /** `rule` keeps definition `d` out of the catalog under its own name. */
  ghost predicate Hides(defs: Definitions, ads: Advertising, executable: set<string>, rule: Rule, d: ToolDefinition)
    requires RuleValid(defs, rule)
  {
    if d.owner.BuiltIn?
    then rule.builtin == d.name && (rule.mode.DisableBuiltin? || Routed(defs, ads, executable, rule))
    else rule.tool == d.name && (rule.mode.Deny? || Routed(defs, ads, executable, rule))
  }

  /**
  What is in the catalog, for rules of every mode: each advertised tool that no
  rule hides, under its own name, and each routed replacement under its
  built-in's name.  A denied tool still replaces a built-in when told to.
  */
  lemma CatalogExactly(defs: Definitions, ads: Advertising, executable: set<string>, rules: seq<Rule>, e: Resolved)
    requires forall rule <- rules :: RuleValid(defs, rule)
    ensures
      var catalog := Resolve(defs, ads, executable, rules);
      && catalog.Some?
      && (e in catalog.value <==>
            || (e.implementation == e.providerName
                && exists d <- defs ::
                     && d.name == e.providerName
                     && d.visible && ads.allows(d) && d.name in executable && ads.routable(d)
                     && forall rule <- rules :: !Hides(defs, ads, executable, rule, d))
            || (exists rule <- rules :: Routed(defs, ads, executable, rule) && e == Resolved(rule.builtin, rule.tool)))
  {
    hide RuleValid, Routed;
    var hidden := HiddenBy(defs, ads, executable, rules);
    OwnEntriesAre(defs, ads, executable, hidden, e);
    RuleEntriesAre(defs, ads, executable, rules, e);
    forall d <- defs
      ensures Shown(ads, executable, hidden, d) <==>
        Advertised(ads, executable, d) && forall rule <- rules :: !Hides(defs, ads, executable, rule, d)
    {
      ShownExactly(defs, ads, executable, rules, d);
    }
  }

  lemma ShownExactly(defs: Definitions, ads: Advertising, executable: set<string>, rules: seq<Rule>, d: ToolDefinition)
    requires forall rule <- rules :: RuleValid(defs, rule)
    ensures Shown(ads, executable, HiddenBy(defs, ads, executable, rules), d) <==>
      Advertised(ads, executable, d) && forall rule <- rules :: !Hides(defs, ads, executable, rule, d)
  {
    hide RuleValid, Routed, Advertised;
    var hidden := HiddenBy(defs, ads, executable, rules);
    if rule :| rule in rules && Hides(defs, ads, executable, rule, d) {
      assert d.name in (if d.owner.BuiltIn? then hidden.builtins else hidden.tools);
    }
  }

  /**
  In the catalog of valid rules, at most one replacement for each built-in, a
  replacement's built-in is implemented by its tool exactly when the rule routes.
  */
  lemma CatalogRoutes(defs: Definitions, ads: Advertising, executable: set<string>, rules: seq<Rule>, rule: Rule)
    requires UniqueNames(defs) && UniqueBuiltins(rules) && rule in rules && Replaces(rule)
    requires forall r <- rules :: RuleValid(defs, r)
    ensures Resolve(defs, ads, executable, rules).Some?
    ensures Lookup(Resolve(defs, ads, executable, rules).value, rule.builtin) == Some(rule.tool) <==>
      Routed(defs, ads, executable, rule)
  {
    var catalog := Resolve(defs, ads, executable, rules).value;
    ToolIsNotBuiltin(defs, rule);
    CatalogExactly(defs, ads, executable, rules, Resolved(rule.builtin, rule.tool));
    forall e <- catalog | e.providerName == rule.builtin
      ensures Routed(defs, ads, executable, rule) <==> e == Resolved(rule.builtin, rule.tool)
    {
      EntryForBuiltin(defs, ads, executable, rules, rule, e);
    }
    hide Resolve, Routed, RuleValid;
  }

  lemma ToolIsNotBuiltin(defs: Definitions, rule: Rule)
    requires RuleValid(defs, rule) && Replaces(rule)
    ensures rule.tool != rule.builtin
  {
  }

  lemma EntryForBuiltin(defs: Definitions, ads: Advertising, executable: set<string>, rules: seq<Rule>, rule: Rule,
                        e: Resolved)
    requires UniqueNames(defs) && UniqueBuiltins(rules) && rule in rules && Replaces(rule)
    requires forall r <- rules :: RuleValid(defs, r)
    requires e.providerName == rule.builtin && e in Resolve(defs, ads, executable, rules).value
    ensures Routed(defs, ads, executable, rule) <==> e == Resolved(rule.builtin, rule.tool)
  {
    CatalogExactly(defs, ads, executable, rules, e);
    ToolIsNotBuiltin(defs, rule);
    var builtin := Get(defs, rule.builtin, 0).value;
    assert builtin.owner.BuiltIn?;
    hide RuleValid, Routed, Advertised, Resolve;
    if r :| r in rules && Routed(defs, ads, executable, r) && e == Resolved(r.builtin, r.tool) {
      RoutedReplaces(defs, ads, executable, r);
      SameReplacement(rules, r, rule);
    } else {
      var d :| d in defs && d.name == rule.builtin
               && forall r <- rules :: !Hides(defs, ads, executable, r, d);
      assert defs[0..] == defs;
      GetByName(defs, d, 0);
      assert d == builtin && !Hides(defs, ads, executable, rule, d);
    }
  }

  lemma RoutedReplaces(defs: Definitions, ads: Advertising, executable: set<string>, rule: Rule)
    requires RuleValid(defs, rule) && Routed(defs, ads, executable, rule)
    ensures Replaces(rule)
  {
  }

  lemma SameReplacement(rules: seq<Rule>, a: Rule, b: Rule)
    requires UniqueBuiltins(rules) && a in rules && b in rules && Replaces(a) && Replaces(b) && a.builtin == b.builtin
    ensures a == b
  {
  }
}
