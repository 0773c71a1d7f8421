/**
Replacement bundles (`resolve_provider_turn_catalog` and
`resolve_provider_turn_catalog_dropping_failed_bundles` in extension.rs).
*/
module Bundles {
  import opened Results
  import opened Tools

  datatype Member = Member(builtin: string, tool: string, preserve: bool)

  datatype Bundle = Bundle(extensionId: string, bundleId: string, members: seq<Member>, source: Source)

  type Key = (string, string)

  function KeyOf(b: Bundle): Key {
    (b.extensionId, b.bundleId)
  }

  datatype Reason = ClaimedByMultipleBundles | NotExecutable | NotRoutable | InvalidRule

  datatype Diagnostic = Diagnostic(key: Key, member: Option<string>, reason: Reason)

  function RuleOf(b: Bundle, m: Member): Rule {
    var mode := if m.preserve then ReplaceBuiltin else ReplaceBuiltinWithExtensionContract;
    Rule(m.builtin, b.extensionId, m.tool, mode, b.source)
  }

  function RulesOf(b: Bundle): (r: seq<Rule>)
    ensures |r| == |b.members|
    ensures forall i :: 0 <= i < |r| ==> r[i] == RuleOf(b, b.members[i])
  {
    seq(|b.members|, i requires 0 <= i < |b.members| => RuleOf(b, b.members[i]))
  }

  // ---- Conflicts ----

  /** How often a list of rules claims a built-in. */
  ghost function CountIn(rules: seq<Rule>, name: string): nat {
    if rules == [] then 0 else (if rules[0].builtin == name then 1 else 0) + CountIn(rules[1..], name)
  }

  /** How often all bundles together claim a built-in. */
  ghost function Claims(bundles: seq<Bundle>, name: string): nat {
    if bundles == [] then 0
    else Claims(bundles[..|bundles| - 1], name) + CountIn(RulesOf(bundles[|bundles| - 1]), name)
  }

  lemma {:induction false} CountInConcat(a: seq<Rule>, b: seq<Rule>, name: string)
    ensures CountIn(a + b, name) == CountIn(a, name) + CountIn(b, name)
  {
    if a == [] {
      assert a + b == b;
    } else {
      CountInConcat(a[1..], b, name);
      assert (a + b)[1..] == a[1..] + b;
    }
  }

  lemma {:induction false} CountInOccurs(rules: seq<Rule>, i: nat)
    requires i < |rules|
    ensures CountIn(rules, rules[i].builtin) >= 1
  {
    if i > 0 {
      CountInOccurs(rules[1..], i - 1);
    }
  }

  /** Built-ins claimed at most once are distinct. */
  lemma SingleClaimsAreDistinct(rules: seq<Rule>)
    requires forall rule <- rules :: CountIn(rules, rule.builtin) <= 1
    ensures UniqueBuiltins(rules)
  {
    forall i, j | 0 <= i < j < |rules| ensures rules[i].builtin != rules[j].builtin {
      var a, b := rules[..j], rules[j..];
      assert rules == a + b && a[i] == rules[i] && b[0] == rules[j];
      CountInConcat(a, b, rules[i].builtin);
      CountInOccurs(a, i);
      CountInOccurs(b, 0);
      assert rules[i] in rules;
    }
  }

  function CountOf(counts: map<string, nat>, name: string): nat {
    if name in counts then counts[name] else 0
  }

  method CountClaims(bundles: seq<Bundle>) returns (counts: map<string, nat>)
    ensures forall name :: CountOf(counts, name) == Claims(bundles, name)
  {
    counts := map[];
    for i := 0 to |bundles|
      invariant forall name :: CountOf(counts, name) == Claims(bundles[..i], name)
    {
      ghost var before := counts;
      counts := CountMembers(counts, bundles[i]);
      assert bundles[..i + 1][..i] == bundles[..i];
    }
    assert bundles[..|bundles|] == bundles;
  }

  method CountMembers(before: map<string, nat>, b: Bundle) returns (counts: map<string, nat>)
    ensures forall name :: CountOf(counts, name) == CountOf(before, name) + CountIn(RulesOf(b), name)
  {
    counts := before;
    ghost var rules := RulesOf(b);
    for j := 0 to |b.members|
      invariant forall name :: CountOf(counts, name) == CountOf(before, name) + CountIn(rules[..j], name)
    {
      var builtin := b.members[j].builtin;
      counts := counts[builtin := CountOf(counts, builtin) + 1];
      assert rules[..j + 1] == rules[..j] + [rules[j]];
      forall name
        ensures CountIn(rules[..j + 1], name) == CountIn(rules[..j], name) + if name == builtin then 1 else 0
      {
        CountInConcat(rules[..j], [rules[j]], name);
      }
    }
    assert rules[..|b.members|] == rules;
  }

  // ---- Which bundles resolve ----

  /** What can be said of a member's rule before asking what is executable. */
  ghost predicate MemberSound(defs: Definitions, ads: Advertising, bundles: seq<Bundle>, rule: Rule) {
    && Claims(bundles, rule.builtin) == 1 && RuleValid(defs, rule) && Replaces(rule)
    && ads.allows(ProviderDefinition(defs, rule)) && ads.routable(ProviderDefinition(defs, rule))
  }

  ghost predicate BundleOk(defs: Definitions, ads: Advertising, bundles: seq<Bundle>, executable: set<string>,
                           b: Bundle)
  {
    forall rule <- RulesOf(b) :: MemberSound(defs, ads, bundles, rule) && rule.tool in executable
  }

  /** Rules of the first `k` bundles that resolve, in bundle order. */
  ghost function AcceptedRules(defs: Definitions, ads: Advertising, bundles: seq<Bundle>, executable: set<string>,
                               k: nat)
    : seq<Rule>
    requires k <= |bundles|
  {
    if k == 0 then []
    else
      AcceptedRules(defs, ads, bundles, executable, k - 1)
      + if BundleOk(defs, ads, bundles, executable, bundles[k - 1]) then RulesOf(bundles[k - 1]) else []
  }

  lemma {:induction false} AcceptedAreSound(defs: Definitions, ads: Advertising, bundles: seq<Bundle>,
                                            executable: set<string>, k: nat)
    requires k <= |bundles|
    ensures forall rule <- AcceptedRules(defs, ads, bundles, executable, k) ::
      MemberSound(defs, ads, bundles, rule) && rule.tool in executable
  {
    hide MemberSound;
    if k > 0 {
      AcceptedAreSound(defs, ads, bundles, executable, k - 1);
    }
  }

  lemma {:induction false} AcceptedClaims(defs: Definitions, ads: Advertising, bundles: seq<Bundle>,
                                          executable: set<string>, k: nat, name: string)
    requires k <= |bundles|
    ensures CountIn(AcceptedRules(defs, ads, bundles, executable, k), name) <= Claims(bundles[..k], name)
  {
    hide BundleOk;
    if k > 0 {
      AcceptedClaims(defs, ads, bundles, executable, k - 1, name);
      assert bundles[..k][..k - 1] == bundles[..k - 1];
      CountInConcat(AcceptedRules(defs, ads, bundles, executable, k - 1),
                    if BundleOk(defs, ads, bundles, executable, bundles[k - 1]) then RulesOf(bundles[k - 1]) else [],
                    name);
    }
  }

  lemma {:induction false} ClaimsGrow(bundles: seq<Bundle>, n: nat, name: string)
    requires n <= |bundles|
    ensures Claims(bundles[..n], name) <= Claims(bundles, name)
    decreases |bundles| - n
  {
    if n == |bundles| {
      assert bundles[..n] == bundles;
    } else {
      ClaimsGrow(bundles, n + 1, name);
      assert bundles[..n + 1][..n] == bundles[..n];
    }
  }

  lemma CandidateBuiltinsDistinct(defs: Definitions, ads: Advertising, bundles: seq<Bundle>, executable: set<string>,
                                  k: nat)
    requires k < |bundles| && forall rule <- RulesOf(bundles[k]) :: Claims(bundles, rule.builtin) == 1
    ensures UniqueBuiltins(AcceptedRules(defs, ads, bundles, executable, k) + RulesOf(bundles[k]))
  {
    var accepted, own := AcceptedRules(defs, ads, bundles, executable, k), RulesOf(bundles[k]);
    AcceptedAreSound(defs, ads, bundles, executable, k);
    hide AcceptedRules, RulesOf;
    forall rule: Rule | rule in accepted + own ensures CountIn(accepted + own, rule.builtin) <= 1 {
      assert Claims(bundles, rule.builtin) == 1;
      CountInConcat(accepted, own, rule.builtin);
      AcceptedClaims(defs, ads, bundles, executable, k, rule.builtin);
      assert bundles[..k + 1][..k] == bundles[..k] && bundles[..k + 1][k] == bundles[k];
      ClaimsGrow(bundles, k + 1, rule.builtin);
    }
    SingleClaimsAreDistinct(accepted + own);
  }

  /**
  Trying bundle `k` on top of the accepted rules: the resolver refuses only an
  unsound bundle, and otherwise routes every member exactly when the bundle is
  sound.
  */
  lemma TryBundle(defs: Definitions, ads: Advertising, executable: set<string>, bundles: seq<Bundle>, k: nat)
    requires UniqueNames(defs) && k < |bundles|
    requires forall rule <- RulesOf(bundles[k]) :: Claims(bundles, rule.builtin) == 1 && rule.tool in executable
    ensures
      var b := bundles[k];
      var rules := AcceptedRules(defs, ads, bundles, executable, k) + RulesOf(b);
      var catalog := Resolve(defs, ads, executable, rules);
      && (catalog.None? ==> !BundleOk(defs, ads, bundles, executable, b))
      && (catalog.Some? ==>
            ((forall rule <- RulesOf(b) :: Lookup(catalog.value, rule.builtin) == Some(rule.tool)) <==>
             BundleOk(defs, ads, bundles, executable, b)))
      && (catalog.None? <==> exists rule <- RulesOf(b) :: !RuleValid(defs, rule))
      && (catalog.Some? ==>
            forall rule <- RulesOf(b) :: RuleValid(defs, rule)
              && (Lookup(catalog.value, rule.builtin) == Some(rule.tool) <==> Routed(defs, ads, executable, rule)))
  {
    var b := bundles[k];
    var accepted := AcceptedRules(defs, ads, bundles, executable, k);
    var rules := accepted + RulesOf(b);
    AcceptedAreSound(defs, ads, bundles, executable, k);
    CandidateBuiltinsDistinct(defs, ads, bundles, executable, k);
    hide RuleValid, AcceptedRules, Claims, RulesOf;
    if forall rule <- rules :: RuleValid(defs, rule) {
      hide Resolve;
      forall rule <- RulesOf(b)
        ensures Lookup(Resolve(defs, ads, executable, rules).value, rule.builtin) == Some(rule.tool) <==>
          MemberSound(defs, ads, bundles, rule)
      {
        CatalogRoutes(defs, ads, executable, rules, rule);
      }
    }
  }

  // ---- One pass ----

  /** The members, from index `i` on, whose built-in is not claimed exactly once. */
  function Conflicting(b: Bundle, counts: map<string, nat>, i: nat): (r: seq<Member>)
    requires i <= |b.members|
    ensures r == [] <==> forall j :: i <= j < |b.members| ==> CountOf(counts, b.members[j].builtin) == 1
    ensures forall m :: m in r <==> m in b.members[i..] && CountOf(counts, m.builtin) != 1
    decreases |b.members| - i
  {
    if i == |b.members| then []
    else
      (if CountOf(counts, b.members[i].builtin) == 1 then [] else [b.members[i]]) + Conflicting(b, counts, i + 1)
  }

  function FirstMissing(b: Bundle, executable: set<string>, i: nat): (r: Option<Member>)
    requires i <= |b.members|
    ensures r.None? <==> forall j :: i <= j < |b.members| ==> b.members[j].tool in executable
    ensures r.Some? ==> r.value in b.members && r.value.tool !in executable
    decreases |b.members| - i
  {
    if i == |b.members| then None
    else if b.members[i].tool !in executable then Some(b.members[i])
    else FirstMissing(b, executable, i + 1)
  }

  function FirstUnrouted(b: Bundle, catalog: seq<Resolved>, i: nat): (r: Option<Member>)
    requires i <= |b.members|
    ensures r.None? <==>
      forall j :: i <= j < |b.members| ==> Lookup(catalog, b.members[j].builtin) == Some(b.members[j].tool)
    ensures r.Some? ==> r.value in b.members && Lookup(catalog, r.value.builtin) != Some(r.value.tool)
    decreases |b.members| - i
  {
    if i == |b.members| then None
    else if Lookup(catalog, b.members[i].builtin) != Some(b.members[i].tool) then Some(b.members[i])
    else FirstUnrouted(b, catalog, i + 1)
  }

  ghost function DiagnosedKeys(diagnostics: seq<Diagnostic>): set<Key> {
    set i | 0 <= i < |diagnostics| :: diagnostics[i].key
  }

  /** Keys of the first `k` bundles that do not resolve. */
  ghost function FailingKeys(defs: Definitions, ads: Advertising, bundles: seq<Bundle>, executable: set<string>,
                             k: nat): set<Key>
    requires k <= |bundles|
  {
    set i | 0 <= i < k && !BundleOk(defs, ads, bundles, executable, bundles[i]) :: KeyOf(bundles[i])
  }

  lemma FailingStep(defs: Definitions, ads: Advertising, bundles: seq<Bundle>, executable: set<string>, k: nat)
    requires k < |bundles|
    ensures FailingKeys(defs, ads, bundles, executable, k + 1) == FailingKeys(defs, ads, bundles, executable, k)
      + if BundleOk(defs, ads, bundles, executable, bundles[k]) then {} else {KeyOf(bundles[k])}
  {
    hide BundleOk;
  }

  lemma DiagnosedConcat(a: seq<Diagnostic>, b: seq<Diagnostic>, key: Key)
    requires forall d <- b :: d.key == key
    ensures DiagnosedKeys(a + b) == DiagnosedKeys(a) + if b == [] then {} else {key}
  {
    var c := a + b;
    assert forall i :: 0 <= i < |a| ==> c[i] == a[i];
    assert forall i :: |a| <= i < |c| ==> c[i] in b;
    if b != [] {
      assert c[|a|] == b[0];
    }
  }

  lemma RulesMatchMembers(defs: Definitions, ads: Advertising, bundles: seq<Bundle>, executable: set<string>, b: Bundle)
    ensures BundleOk(defs, ads, bundles, executable, b) ==> forall m <- b.members ::
      Claims(bundles, m.builtin) == 1 && m.tool in executable
    ensures (forall m <- b.members :: Claims(bundles, m.builtin) == 1 && m.tool in executable) ==>
      forall rule <- RulesOf(b) :: Claims(bundles, rule.builtin) == 1 && rule.tool in executable
  {
    if BundleOk(defs, ads, bundles, executable, b) {
      forall m <- b.members ensures Claims(bundles, m.builtin) == 1 && m.tool in executable {
        var i :| 0 <= i < |b.members| && b.members[i] == m;
        assert RulesOf(b)[i] in RulesOf(b);
      }
    }
  }

  ghost predicate Unchallenged(bundles: seq<Bundle>, b: Bundle) {
    forall m <- b.members :: Claims(bundles, m.builtin) == 1
  }

  ghost predicate Runnable(executable: set<string>, b: Bundle) {
    forall m <- b.members :: m.tool in executable
  }

  ghost predicate RulesValid(defs: Definitions, b: Bundle) {
    forall m <- b.members :: RuleValid(defs, RuleOf(b, m))
  }

  /** What a diagnostic says of the bundle is so, and no earlier check failed. */
  ghost predicate Explains(defs: Definitions, ads: Advertising, bundles: seq<Bundle>, executable: set<string>,
                           b: Bundle, d: Diagnostic)
  {
    && d.key == KeyOf(b)
    && match d.reason
       case ClaimedByMultipleBundles =>
         exists m <- b.members :: d.member == Some(m.builtin) && Claims(bundles, m.builtin) != 1
       case NotExecutable =>
         Unchallenged(bundles, b) && exists m <- b.members :: d.member == Some(m.tool) && m.tool !in executable
       case InvalidRule => Unchallenged(bundles, b) && Runnable(executable, b) && !RulesValid(defs, b)
       case NotRoutable =>
         && Unchallenged(bundles, b) && Runnable(executable, b) && RulesValid(defs, b)
         && exists m <- b.members :: d.member == Some(m.tool) && !Routed(defs, ads, executable, RuleOf(b, m))
  }

  ghost predicate AllExplain(defs: Definitions, ads: Advertising, bundles: seq<Bundle>, executable: set<string>,
                             diagnostics: seq<Diagnostic>)
  {
    forall d <- diagnostics :: ExplainsSome(defs, ads, bundles, executable, d)
  }

  /** One more bundle's diagnostics. */
  lemma DiagnosticsStep(defs: Definitions, ads: Advertising, bundles: seq<Bundle>, executable: set<string>, k: nat,
                        before: seq<Diagnostic>, found: seq<Diagnostic>)
    requires k < |bundles| && forall d <- found :: Explains(defs, ads, bundles, executable, bundles[k], d)
    requires found == [] <==> BundleOk(defs, ads, bundles, executable, bundles[k])
    requires DiagnosedKeys(before) == FailingKeys(defs, ads, bundles, executable, k)
    requires AllExplain(defs, ads, bundles, executable, before)
    ensures DiagnosedKeys(before + found) == FailingKeys(defs, ads, bundles, executable, k + 1)
    ensures AllExplain(defs, ads, bundles, executable, before + found)
  {
    hide BundleOk, DiagnosedKeys, FailingKeys;
    assert forall d <- found :: d.key == KeyOf(bundles[k]);
    hide Explains;
    DiagnosedConcat(before, found, KeyOf(bundles[k]));
    FailingStep(defs, ads, bundles, executable, k);
    assert bundles[k] in bundles;
  }

  ghost predicate ExplainsSome(defs: Definitions, ads: Advertising, bundles: seq<Bundle>, executable: set<string>,
                               d: Diagnostic)
  {
    exists b <- bundles :: Explains(defs, ads, bundles, executable, b, d)
  }

  /** What the provider sees of a member: the built-in's own contract when preserved, else the tool's. */
  lemma MemberShows(defs: Definitions, b: Bundle, m: Member, builtin: ToolDefinition, tool: ToolDefinition)
    requires UniqueNames(defs) && builtin in defs && builtin.name == m.builtin && tool in defs && tool.name == m.tool
    requires RuleValid(defs, RuleOf(b, m))
    ensures
      var shown := ProviderDefinition(defs, RuleOf(b, m));
      && shown.name == m.builtin && shown.risk == builtin.risk == tool.risk
      && tool.owner.Extension? && tool.owner.extensionId == b.extensionId
      && (if m.preserve then shown == builtin && builtin.schema == tool.schema
          else shown.schema == tool.schema && shown.description == tool.description)
  {
    ReplacementExactly(defs, RuleOf(b, m), builtin, tool);
  }

  lemma RuleOfMember(b: Bundle, m: Member)
    requires m in b.members
    ensures RuleOf(b, m) in RulesOf(b)
  {
    var i :| 0 <= i < |b.members| && b.members[i] == m;
    assert RulesOf(b)[i] == RuleOf(b, m);
  }

  lemma SoundRules(bundles: seq<Bundle>, executable: set<string>, b: Bundle)
    requires Unchallenged(bundles, b) && Runnable(executable, b)
    ensures forall rule <- RulesOf(b) :: Claims(bundles, rule.builtin) == 1 && rule.tool in executable
  {
    hide Claims;
    forall rule <- RulesOf(b) ensures Claims(bundles, rule.builtin) == 1 && rule.tool in executable {
      var i :| 0 <= i < |RulesOf(b)| && RulesOf(b)[i] == rule;
      assert b.members[i] in b.members;
    }
  }

  /** What the rules of a bundle say of its members. */
  lemma RulesTellMembers(defs: Definitions, b: Bundle)
    ensures RulesValid(defs, b) <==> forall rule <- RulesOf(b) :: RuleValid(defs, rule)
    ensures forall m <- b.members :: RuleOf(b, m) in RulesOf(b)
  {
    hide RuleValid;
    forall m <- b.members ensures RuleOf(b, m) in RulesOf(b) { RuleOfMember(b, m); }
    if rule :| rule in RulesOf(b) && !RuleValid(defs, rule) {
      var i :| 0 <= i < |RulesOf(b)| && RulesOf(b)[i] == rule;
      assert b.members[i] in b.members;
    }
  }

  /** A bundle that passed the first two checks: tried on top of the accepted rules. */
  method TryRules(defs: Definitions, ads: Advertising, bundles: seq<Bundle>, executable: set<string>, k: nat,
                  accepted: seq<Rule>)
    returns (diagnostic: Option<Diagnostic>, catalog: seq<Resolved>)
    requires UniqueNames(defs) && k < |bundles|
    requires Unchallenged(bundles, bundles[k]) && Runnable(executable, bundles[k])
    requires accepted == AcceptedRules(defs, ads, bundles, executable, k)
    ensures diagnostic.None? <==> BundleOk(defs, ads, bundles, executable, bundles[k])
    ensures diagnostic.Some? ==> Explains(defs, ads, bundles, executable, bundles[k], diagnostic.value)
    ensures diagnostic.None? ==> Resolve(defs, ads, executable, accepted + RulesOf(bundles[k])) == Some(catalog)
  {
    hide Resolve, AcceptedRules, Lookup, UniqueNames, BundleOk, Routed, RuleValid, Claims;
    var b := bundles[k];
    SoundRules(bundles, executable, b);
    TryBundle(defs, ads, executable, bundles, k);
    RulesTellMembers(defs, b);
    hide RulesOf;
    var candidate := Resolve(defs, ads, executable, accepted + RulesOf(b));
    if candidate.None? {
      return Some(Diagnostic(KeyOf(b), None, InvalidRule)), [];
    }
    catalog := candidate.value;
    MembersRouted(b, catalog);
    var unrouted := FirstUnrouted(b, catalog, 0);
    if unrouted.Some? {
      return Some(Diagnostic(KeyOf(b), Some(unrouted.value.tool), NotRoutable)), [];
    }
    return None, catalog;
  }

  /** One bundle: its diagnostics, or its rules and the catalog with them. */
  method TryOne(defs: Definitions, ads: Advertising, bundles: seq<Bundle>, counts: map<string, nat>,
                executable: set<string>, k: nat, accepted: seq<Rule>)
    returns (diagnostics: seq<Diagnostic>, catalog: seq<Resolved>)
    requires UniqueNames(defs) && k < |bundles|
    requires forall name :: CountOf(counts, name) == Claims(bundles, name)
    requires accepted == AcceptedRules(defs, ads, bundles, executable, k)
    ensures diagnostics == [] <==> BundleOk(defs, ads, bundles, executable, bundles[k])
    ensures forall d <- diagnostics :: Explains(defs, ads, bundles, executable, bundles[k], d)
    ensures forall m <- bundles[k].members :: Claims(bundles, m.builtin) != 1 ==>
      Diagnostic(KeyOf(bundles[k]), Some(m.builtin), ClaimedByMultipleBundles) in diagnostics
    ensures diagnostics == [] ==> Resolve(defs, ads, executable, accepted + RulesOf(bundles[k])) == Some(catalog)
  {
    hide Resolve, AcceptedRules, Lookup, UniqueNames, Routed, RuleValid, RulesValid, Claims;
    var b := bundles[k];
    RulesMatchMembers(defs, ads, bundles, executable, b);
    hide BundleOk;
    var conflicting := Conflicting(b, counts, 0);
    if conflicting != [] {
      diagnostics := seq(|conflicting|, i requires 0 <= i < |conflicting| =>
        Diagnostic(KeyOf(b), Some(conflicting[i].builtin), ClaimedByMultipleBundles));
      ConflictsExplained(defs, ads, bundles, executable, b, counts, conflicting, diagnostics);
      return diagnostics, [];
    }
    assert Unchallenged(bundles, b);
    var missing := FirstMissing(b, executable, 0);
    if missing.Some? {
      return [Diagnostic(KeyOf(b), Some(missing.value.tool), NotExecutable)], [];
    }
    assert Runnable(executable, b);
    var diagnostic, candidate := TryRules(defs, ads, bundles, executable, k, accepted);
    return if diagnostic.Some? then [diagnostic.value] else [], candidate;
  }

  lemma ConflictsExplained(defs: Definitions, ads: Advertising, bundles: seq<Bundle>, executable: set<string>,
                           b: Bundle, counts: map<string, nat>, conflicting: seq<Member>, diagnostics: seq<Diagnostic>)
    requires conflicting == Conflicting(b, counts, 0)
    requires forall name :: CountOf(counts, name) == Claims(bundles, name)
    requires diagnostics == seq(|conflicting|, i requires 0 <= i < |conflicting| =>
      Diagnostic(KeyOf(b), Some(conflicting[i].builtin), ClaimedByMultipleBundles))
    ensures forall d <- diagnostics :: Explains(defs, ads, bundles, executable, b, d)
    ensures forall m <- b.members :: Claims(bundles, m.builtin) != 1 ==>
      Diagnostic(KeyOf(b), Some(m.builtin), ClaimedByMultipleBundles) in diagnostics
  {
    hide Claims, CountOf;
    assert b.members[0..] == b.members;
    forall d <- diagnostics ensures Explains(defs, ads, bundles, executable, b, d) {
      var i :| 0 <= i < |conflicting| && diagnostics[i] == d;
      assert conflicting[i] in conflicting;
    }
    forall m <- b.members | Claims(bundles, m.builtin) != 1
      ensures Diagnostic(KeyOf(b), Some(m.builtin), ClaimedByMultipleBundles) in diagnostics
    {
      assert m in conflicting;
      var i :| 0 <= i < |conflicting| && conflicting[i] == m;
      assert diagnostics[i] == Diagnostic(KeyOf(b), Some(m.builtin), ClaimedByMultipleBundles);
    }
  }

  lemma MembersRouted(b: Bundle, catalog: seq<Resolved>)
    ensures (forall rule <- RulesOf(b) :: Lookup(catalog, rule.builtin) == Some(rule.tool)) <==>
      forall j :: 0 <= j < |b.members| ==> Lookup(catalog, b.members[j].builtin) == Some(b.members[j].tool)
  {
    hide Lookup;
    if forall rule <- RulesOf(b) :: Lookup(catalog, rule.builtin) == Some(rule.tool) {
      forall j | 0 <= j < |b.members| ensures Lookup(catalog, b.members[j].builtin) == Some(b.members[j].tool) {
        assert RulesOf(b)[j] in RulesOf(b);
      }
    }
  }

  /**
  `resolve_provider_turn_catalog`: diagnoses exactly the bundles that are
  conflicting, not executable, invalid or not routable, and resolves the others.
  */
  method ResolveCatalog(defs: Definitions, ads: Advertising, bundles: seq<Bundle>, executable: set<string>)
    returns (catalog: seq<Resolved>, diagnostics: seq<Diagnostic>)
    requires UniqueNames(defs)
    ensures DiagnosedKeys(diagnostics) == FailingKeys(defs, ads, bundles, executable, |bundles|)
    ensures AllExplain(defs, ads, bundles, executable, diagnostics)
    ensures Resolve(defs, ads, executable, AcceptedRules(defs, ads, bundles, executable, |bundles|)) == Some(catalog)
  {
    var counts := CountClaims(bundles);
    var accepted: seq<Rule> := [];
    catalog := Resolve(defs, ads, executable, []).value;
    diagnostics := [];
    assert DiagnosedKeys([]) == FailingKeys(defs, ads, bundles, executable, 0);
    assert AllExplain(defs, ads, bundles, executable, []);
    hide BundleOk, Resolve, RulesOf, Claims, UniqueNames, DiagnosedKeys, FailingKeys, CountOf, Explains;
    hide AllExplain;
    for k := 0 to |bundles|
      invariant accepted == AcceptedRules(defs, ads, bundles, executable, k)
      invariant Resolve(defs, ads, executable, accepted) == Some(catalog)
      invariant DiagnosedKeys(diagnostics) == FailingKeys(defs, ads, bundles, executable, k)
      invariant AllExplain(defs, ads, bundles, executable, diagnostics)
    {
      var found, candidate := TryOne(defs, ads, bundles, counts, executable, k, accepted);
      DiagnosticsStep(defs, ads, bundles, executable, k, diagnostics, found);
      if found == [] {
        assert diagnostics + [] == diagnostics;
        accepted := accepted + RulesOf(bundles[k]);
        catalog := candidate;
      } else {
        assert accepted + [] == accepted;
        diagnostics := diagnostics + found;
      }
    }
  }

  // ---- Dropping failed bundles ----

  function ToolsOf(bundles: seq<Bundle>, failed: set<Key>): set<string> {
    set i, j | 0 <= i < |bundles| && KeyOf(bundles[i]) in failed && 0 <= j < |bundles[i].members| ::
      bundles[i].members[j].tool
  }

  /** A set of keys that contains every bundle failing once the tools of those keys are gone. */
  ghost predicate Closed(defs: Definitions, ads: Advertising, bundles: seq<Bundle>, executable: set<string>,
                         failed: set<Key>)
  {
    var left := executable - ToolsOf(bundles, failed);
    forall b <- bundles :: !BundleOk(defs, ads, bundles, left, b) ==> KeyOf(b) in failed
  }

  ghost predicate LeastClosed(defs: Definitions, ads: Advertising, bundles: seq<Bundle>, executable: set<string>,
                              failed: set<Key>)
  {
    && Closed(defs, ads, bundles, executable, failed)
    && forall other :: Closed(defs, ads, bundles, executable, other) ==> failed <= other
  }

  ghost function AllKeys(bundles: seq<Bundle>): set<Key> {
    set i | 0 <= i < |bundles| :: KeyOf(bundles[i])
  }

  lemma {:induction false} FewKeys(bundles: seq<Bundle>)
    ensures |AllKeys(bundles)| <= |bundles|
  {
    if bundles != [] {
      var n := |bundles| - 1;
      FewKeys(bundles[..n]);
      assert AllKeys(bundles) == AllKeys(bundles[..n]) + {KeyOf(bundles[n])} by {
        assert forall i :: 0 <= i < n ==> bundles[..n][i] == bundles[i];
      }
    }
  }

  /** Failing with more tools means failing with fewer. */
  lemma FailsWithFewer(defs: Definitions, ads: Advertising, bundles: seq<Bundle>, few: set<string>, many: set<string>,
                       k: nat)
    requires few <= many && k <= |bundles|
    ensures FailingKeys(defs, ads, bundles, many, k) <= FailingKeys(defs, ads, bundles, few, k)
  {
    hide MemberSound;
  }

  lemma ClosedContainsFailing(defs: Definitions, ads: Advertising, bundles: seq<Bundle>, executable: set<string>,
                              failed: set<Key>, other: set<Key>)
    requires failed <= other && Closed(defs, ads, bundles, executable, other)
    ensures FailingKeys(defs, ads, bundles, executable - ToolsOf(bundles, failed), |bundles|) <= other
  {
    var few, many := executable - ToolsOf(bundles, other), executable - ToolsOf(bundles, failed);
    assert ToolsOf(bundles, failed) <= ToolsOf(bundles, other);
    FailsWithFewer(defs, ads, bundles, few, many, |bundles|);
    hide BundleOk;
    forall i | 0 <= i < |bundles| && !BundleOk(defs, ads, bundles, few, bundles[i]) ensures KeyOf(bundles[i]) in other {
      assert bundles[i] in bundles;
    }
  }

  ghost predicate Within(defs: Definitions, ads: Advertising, bundles: seq<Bundle>, executable: set<string>,
                         failed: set<Key>)
  {
    forall other :: Closed(defs, ads, bundles, executable, other) ==> failed <= other
  }

  lemma WithinGrows(defs: Definitions, ads: Advertising, bundles: seq<Bundle>, executable: set<string>,
                    failed: set<Key>)
    requires Within(defs, ads, bundles, executable, failed)
    ensures Within(defs, ads, bundles, executable,
      failed + FailingKeys(defs, ads, bundles, executable - ToolsOf(bundles, failed), |bundles|))
  {
    hide FailingKeys, Closed;
    forall other | Closed(defs, ads, bundles, executable, other)
      ensures FailingKeys(defs, ads, bundles, executable - ToolsOf(bundles, failed), |bundles|) <= other
    {
      ClosedContainsFailing(defs, ads, bundles, executable, failed, other);
    }
  }

  function NewDiagnostics(round: seq<Diagnostic>, failed: set<Key>): (r: seq<Diagnostic>)
    ensures DiagnosedKeys(r) == DiagnosedKeys(round) - failed
    ensures forall d <- r :: d in round
  {
    if round == [] then []
    else
      var n := |round| - 1;
      var rest := NewDiagnostics(round[..n], failed);
      DiagnosedConcat(round[..n], [round[n]], round[n].key);
      DiagnosedConcat(rest, [round[n]], round[n].key);
      assert round[..n] + [round[n]] == round;
      if round[n].key in failed then rest else rest + [round[n]]
  }

  /** Members of bundles outside `failed` are routed to their own tools. */
  ghost predicate RoutesTheRest(bundles: seq<Bundle>, failed: set<Key>, catalog: seq<Resolved>) {
    forall b <- bundles, m <- b.members :: KeyOf(b) !in failed ==> Lookup(catalog, m.builtin) == Some(m.tool)
  }

  /** A diagnostic is so of what was executable in some round. */
  ghost predicate ExplainedBelow(defs: Definitions, ads: Advertising, bundles: seq<Bundle>, executable: set<string>,
                                 d: Diagnostic)
  {
    exists tools :: tools <= executable && ExplainsSome(defs, ads, bundles, tools, d)
  }

  /**
  `resolve_provider_turn_catalog_dropping_failed_bundles`: ends within one round
  more than there are bundles.  The failed bundles are the least set that explains
  its own failures; none of their tools stays executable; every other bundle has
  all its tools executable and every member routed to its own tool.  (With no
  bundles the first round ends the loop, which is the source's shortcut.)
  */
  method DropFailedBundles(defs: Definitions, ads: Advertising, bundles: seq<Bundle>, executable: set<string>)
    returns (catalog: seq<Resolved>, diagnostics: seq<Diagnostic>, ghost rounds: nat)
    requires UniqueNames(defs)
    ensures rounds <= |bundles| + 1
    ensures LeastClosed(defs, ads, bundles, executable, DiagnosedKeys(diagnostics))
    ensures forall d <- diagnostics :: ExplainedBelow(defs, ads, bundles, executable, d)
    ensures
      var left := executable - ToolsOf(bundles, DiagnosedKeys(diagnostics));
      && (forall b <- bundles, m <- b.members ::
            if KeyOf(b) in DiagnosedKeys(diagnostics) then m.tool !in left else m.tool in left)
      && Resolve(defs, ads, left, AcceptedRules(defs, ads, bundles, left, |bundles|)) == Some(catalog)
      && RoutesTheRest(bundles, DiagnosedKeys(diagnostics), catalog)
  {
    hide BundleOk, Resolve, AcceptedRules, UniqueNames, Lookup, ExplainsSome;
    var tools, failed: set<Key> := executable, {};
    diagnostics := [];
    rounds := 0;
    NoToolsYet(bundles);
    while true
      invariant DiagnosedKeys(diagnostics) == failed <= AllKeys(bundles)
      invariant tools == executable - ToolsOf(bundles, failed)
      invariant Within(defs, ads, bundles, executable, failed)
      invariant rounds <= |failed|
      invariant forall d <- diagnostics :: ExplainedBelow(defs, ads, bundles, executable, d)
      decreases AllKeys(bundles) - failed
    {
      rounds := rounds + 1;
      var found, round := ResolveCatalog(defs, ads, bundles, tools);
      var latest := NewDiagnostics(round, failed);
      ghost var failing := FailingKeys(defs, ads, bundles, tools, |bundles|);
      if latest == [] {
        assert DiagnosedKeys(latest) == {};
        forall key <- failing ensures key in failed {
          assert key in DiagnosedKeys(round) && key !in DiagnosedKeys(round) - failed;
        }
        FewKeys(bundles);
        SubsetSize(failed, AllKeys(bundles));
        FixedPoint(defs, ads, bundles, executable, failed, found);
        return found, diagnostics, rounds;
      }
      WithinGrows(defs, ads, bundles, executable, failed);
      ghost var before := failed;
      assert latest[0].key in failing - failed;
      failed := failed + (set i | 0 <= i < |latest| :: latest[i].key);
      assert failed == before + failing;
      SubsetSize(before + {latest[0].key}, failed);
      Diagnosed2(diagnostics, latest);
      diagnostics := diagnostics + latest;
      var dropped := ToolsOf(bundles, failed);
      DropMore(bundles, executable, before, failed);
      tools := tools - dropped;
    }
  }

  lemma NoToolsYet(bundles: seq<Bundle>)
    ensures ToolsOf(bundles, {}) == {}
  {
  }

  lemma SubsetSize(a: set<Key>, b: set<Key>)
    requires a <= b
    ensures |a| <= |b|
  {
    if a != b {
      assert b == a + (b - a);
    }
  }

  lemma Diagnosed2(a: seq<Diagnostic>, b: seq<Diagnostic>)
    ensures DiagnosedKeys(a + b) == DiagnosedKeys(a) + DiagnosedKeys(b)
  {
    var c := a + b;
    assert forall i :: 0 <= i < |a| ==> c[i] == a[i];
    assert forall i :: 0 <= i < |b| ==> c[|a| + i] == b[i];
  }

  lemma DropMore(bundles: seq<Bundle>, executable: set<string>, few: set<Key>, many: set<Key>)
    requires few <= many
    ensures executable - ToolsOf(bundles, few) - ToolsOf(bundles, many) == executable - ToolsOf(bundles, many)
  {
    assert ToolsOf(bundles, few) <= ToolsOf(bundles, many);
  }

  /** When a pass finds nothing new, the failed set is closed and the rest is routed. */
  lemma FixedPoint(defs: Definitions, ads: Advertising, bundles: seq<Bundle>, executable: set<string>,
                   failed: set<Key>, catalog: seq<Resolved>)
    requires UniqueNames(defs)
    requires
      var left := executable - ToolsOf(bundles, failed);
      && FailingKeys(defs, ads, bundles, left, |bundles|) <= failed
      && Resolve(defs, ads, left, AcceptedRules(defs, ads, bundles, left, |bundles|)) == Some(catalog)
    ensures Closed(defs, ads, bundles, executable, failed)
    ensures
      var left := executable - ToolsOf(bundles, failed);
      forall b <- bundles, m <- b.members :: if KeyOf(b) in failed then m.tool !in left else m.tool in left
    ensures RoutesTheRest(bundles, failed, catalog)
  {
    hide BundleOk, Resolve, AcceptedRules, UniqueNames, Lookup;
    var left := executable - ToolsOf(bundles, failed);
    forall b <- bundles ensures KeyOf(b) in failed || BundleOk(defs, ads, bundles, left, b) {
      var i :| 0 <= i < |bundles| && bundles[i] == b;
    }
    forall b <- bundles, m <- b.members
      ensures if KeyOf(b) in failed then m.tool !in left else m.tool in left
      ensures KeyOf(b) !in failed ==> Lookup(catalog, m.builtin) == Some(m.tool)
    {
      var i :| 0 <= i < |bundles| && bundles[i] == b;
      var j :| 0 <= j < |b.members| && b.members[j] == m;
      if KeyOf(b) in failed {
        assert bundles[i].members[j].tool in ToolsOf(bundles, failed);
      } else {
        OkBundleRoutes(defs, ads, bundles, left, i, catalog);
        RulesMatchMembers(defs, ads, bundles, left, b);
      }
    }
  }

  lemma {:induction false} AcceptedIncludes(defs: Definitions, ads: Advertising, bundles: seq<Bundle>,
                                            executable: set<string>,
                                            i: nat, k: nat)
    requires i < k <= |bundles| && BundleOk(defs, ads, bundles, executable, bundles[i])
    ensures forall rule <- RulesOf(bundles[i]) :: rule in AcceptedRules(defs, ads, bundles, executable, k)
  {
    hide BundleOk, RulesOf;
    if i < k - 1 {
      AcceptedIncludes(defs, ads, bundles, executable, i, k - 1);
    }
  }

  lemma OkBundleRoutes(defs: Definitions, ads: Advertising, bundles: seq<Bundle>, executable: set<string>, i: nat,
                       catalog: seq<Resolved>)
    requires UniqueNames(defs) && i < |bundles| && BundleOk(defs, ads, bundles, executable, bundles[i])
    requires Resolve(defs, ads, executable, AcceptedRules(defs, ads, bundles, executable, |bundles|)) == Some(catalog)
    ensures forall m <- bundles[i].members :: Lookup(catalog, m.builtin) == Some(m.tool)
  {
    var rules := AcceptedRules(defs, ads, bundles, executable, |bundles|);
    AcceptedAreSound(defs, ads, bundles, executable, |bundles|);
    AcceptedIncludes(defs, ads, bundles, executable, i, |bundles|);
    hide Resolve, AcceptedRules, RuleValid, BundleOk, Lookup, Claims;
    forall rule: Rule | rule in rules ensures CountIn(rules, rule.builtin) <= 1 {
      assert MemberSound(defs, ads, bundles, rule);
      AcceptedClaims(defs, ads, bundles, executable, |bundles|, rule.builtin);
      assert bundles[..|bundles|] == bundles;
    }
    SingleClaimsAreDistinct(rules);
    forall m <- bundles[i].members ensures Lookup(catalog, m.builtin) == Some(m.tool) {
      var j :| 0 <= j < |bundles[i].members| && bundles[i].members[j] == m;
      var rule := RulesOf(bundles[i])[j];
      assert rule in RulesOf(bundles[i]) && rule in rules;
      CatalogRoutes(defs, ads, executable, rules, rule);
    }
  }

  // ---- Bundle order ----

  lemma {:induction false} ClaimsOfConcat(a: seq<Bundle>, b: seq<Bundle>, name: string)
    ensures Claims(a + b, name) == Claims(a, name) + Claims(b, name)
    decreases |b|
  {
    hide CountIn, RulesOf;
    if b == [] {
      assert a + b == a;
    } else {
      var n := |b| - 1;
      ClaimsOfConcat(a, b[..n], name);
      assert (a + b)[..|a| + n] == a + b[..n] && (a + b)[|a| + n] == b[n];
    }
  }

  /** Claims do not depend on the order of the bundles. */
  lemma {:induction false} ClaimsOfPermutation(a: seq<Bundle>, b: seq<Bundle>, name: string)
    requires multiset(a) == multiset(b)
    ensures Claims(a, name) == Claims(b, name)
    decreases |a|
  {
    if a == [] {
      assert |multiset(b)| == |multiset(a)| == 0;
      assert b == [];
    } else {
      var i := SamePlace(a, b);
      hide Claims;
      ClaimsOfPermutation(a[..0] + a[1..], b[..i] + b[i + 1..], name);
      ClaimsWithout(a, 0, name);
      ClaimsWithout(b, i, name);
    }
  }

  lemma SamePlace(a: seq<Bundle>, b: seq<Bundle>) returns (i: nat)
    requires multiset(a) == multiset(b) && a != []
    ensures i < |b| && b[i] == a[0] && multiset(a[..0] + a[1..]) == multiset(b[..i] + b[i + 1..])
  {
    assert a[0] in multiset(b);
    i :| 0 <= i < |b| && b[i] == a[0];
    WithoutOne(a, 0);
    WithoutOne(b, i);
  }

  lemma WithoutOne(s: seq<Bundle>, i: nat)
    requires i < |s|
    ensures multiset(s[..i] + s[i + 1..]) == multiset(s) - multiset{s[i]}
  {
    assert s == s[..i] + [s[i]] + s[i + 1..];
  }

  lemma ClaimsWithout(s: seq<Bundle>, i: nat, name: string)
    requires i < |s|
    ensures Claims(s, name) == Claims(s[..i] + s[i + 1..], name) + Claims([s[i]], name)
  {
    assert s == (s[..i] + [s[i]]) + s[i + 1..];
    hide Claims;
    ClaimsOfConcat(s[..i] + [s[i]], s[i + 1..], name);
    ClaimsOfConcat(s[..i], [s[i]], name);
    ClaimsOfConcat(s[..i], s[i + 1..], name);
  }

  lemma ClosedOfPermutation(defs: Definitions, ads: Advertising, a: seq<Bundle>, b: seq<Bundle>,
                            executable: set<string>, failed: set<Key>)
    requires multiset(a) == multiset(b) && Closed(defs, ads, a, executable, failed)
    ensures Closed(defs, ads, b, executable, failed)
  {
    assert forall x :: x in a <==> x in multiset(a);
    assert forall x :: x in b <==> x in multiset(b);
    assert ToolsOf(a, failed) == ToolsOf(b, failed) by {
      ToolsByMembership(a, b, failed);
      ToolsByMembership(b, a, failed);
    }
    forall name ensures Claims(a, name) == Claims(b, name) {
      ClaimsOfPermutation(a, b, name);
    }
    hide Claims, RuleValid;
    var left := executable - ToolsOf(b, failed);
    forall x <- b ensures BundleOk(defs, ads, a, left, x) <==> BundleOk(defs, ads, b, left, x) {
    }
  }

  lemma ToolsByMembership(a: seq<Bundle>, b: seq<Bundle>, failed: set<Key>)
    requires forall x <- a :: x in b
    ensures ToolsOf(a, failed) <= ToolsOf(b, failed)
  {
    forall tool <- ToolsOf(a, failed) ensures tool in ToolsOf(b, failed) {
      var i, j :| 0 <= i < |a| && KeyOf(a[i]) in failed && 0 <= j < |a[i].members| && a[i].members[j].tool == tool;
      assert a[i] in a && a[i] in b;
      var k :| 0 <= k < |b| && b[k] == a[i];
      assert b[k].members[j].tool == tool;
    }
  }

  /** The failed set does not depend on the order of the bundles. */
  lemma FailedSetIgnoresOrder(defs: Definitions, ads: Advertising, a: seq<Bundle>, b: seq<Bundle>,
                              executable: set<string>,
                              failedA: set<Key>, failedB: set<Key>)
    requires multiset(a) == multiset(b)
    requires LeastClosed(defs, ads, a, executable, failedA) && LeastClosed(defs, ads, b, executable, failedB)
    ensures failedA == failedB
  {
    hide Closed;
    ClosedOfPermutation(defs, ads, a, b, executable, failedA);
    ClosedOfPermutation(defs, ads, b, a, executable, failedB);
  }
}
