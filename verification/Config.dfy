/** The daemon's options, how they are loaded, and how admin requests change them
    (cmd/killswitch/config.go:110-219, cmd/killswitch/admin_mutation.go:124-586). */
module Config {
  import opened Words
  import opened Orders
  import opened Rules
  import opened Effective
  import opened RuleText

  // ---------- entities ----------

  datatype ProxyOptions = ProxyOptions(enabled: bool, port: u16, fwMark: u32, dnsServer: string)

  datatype Options = Options(
    types: seq<string>, names: seq<string>, regexps: seq<string>,
    ignoredTypes: seq<string>, ignoredNames: seq<string>, ignoredRegexps: seq<string>,
    proxy: ProxyOptions, base: AllowRules, rulesets: seq<Ruleset>)

  /** Foreign text syntax: regular expressions, addresses, hardware addresses. */
  datatype Foreign = Foreign(re: Regexp, net: Net, printAddr: Addr -> string, parseMac: string -> Option<string>)

  datatype ApiTrigger = ApiTrigger(
    types: seq<string>, names: seq<string>, regexps: seq<string>, ipAddrs: seq<string>,
    ssids: seq<string>, bssids: seq<string>, gatewayMacs: seq<string>)

  datatype ApiRuleset = ApiRuleset(disabled: bool, matchAll: bool, trigger: ApiTrigger, policy: ApiRules)

  /** A raw JSON value: what each decoder makes of it. */
  datatype Raw =
    | Absent
    | Raw(strings: Option<seq<string>>, text: Option<string>, boolean: Option<bool>,
          policy: Option<ApiRules>, rulesetDef: Option<ApiRuleset>)

  datatype Op = Add | Remove | Set | OtherOp

  datatype MutationRequest = MutationRequest(
    op: Op, target: string, ruleset: string, values: seq<string>, value: Raw,
    rulesetDef: Option<ApiRuleset>, policy: Option<ApiRules>)

  // ---------- string lists ----------

  /** `uniqueStrings`: first occurrences, in order. */
  function UniqueStrings(s: seq<string>): seq<string> {
    if s == [] then []
    else
      var init := UniqueStrings(s[..|s| - 1]);
      if s[|s| - 1] in init then init else init + [s[|s| - 1]]
  }

  /** `removeStrings`. */
  function RemoveStrings(s: seq<string>, remove: seq<string>): seq<string> {
    if s == [] then []
    else RemoveStrings(s[..|s| - 1], remove) + if s[|s| - 1] in remove then [] else [s[|s| - 1]]
  }

  lemma {:induction false} UniqueStringsElements(s: seq<string>)
    ensures forall x :: x in UniqueStrings(s) <==> x in s
    ensures forall i, j :: 0 <= i < j < |UniqueStrings(s)| ==> UniqueStrings(s)[i] != UniqueStrings(s)[j]
  {
    if s != [] {
      var init := s[..|s| - 1];
      UniqueStringsElements(init);
      assert s == init + [s[|s| - 1]];
    }
  }

  lemma {:induction false} RemoveStringsElements(s: seq<string>, remove: seq<string>)
    ensures forall x :: x in RemoveStrings(s, remove) <==> x in s && x !in remove
  {
    if s != [] {
      var init := s[..|s| - 1];
      RemoveStringsElements(init, remove);
      assert s == init + [s[|s| - 1]];
    }
  }

  /** The compaction loop of `uniqueStrings`, over the front of its own slice. */
  method UniqueInPlace(a: array<string>) returns (n: nat)
    modifies a
    ensures n <= a.Length && a[..n] == UniqueStrings(old(a[..]))
  {
    ghost var was := a[..];
    var seen: set<string> := {};
    n := 0;
    for r := 0 to a.Length
      invariant n <= r
      invariant a[..n] == UniqueStrings(was[..r])
      invariant a[r..] == was[r..]
      invariant forall x :: x in seen <==> x in a[..n]
    {
      assert a[r] == a[r..][0] == was[r];
      assert was[..r + 1][..r] == was[..r];
      assert a[r + 1..] == a[r..][1..] && was[r + 1..] == was[r..][1..];
      if a[r] !in seen {
        ghost var kept := a[..n];
        seen := seen + {a[r]};
        a[n] := a[r];
        n := n + 1;
        assert a[..n] == kept + [was[r]];
      }
    }
    assert was[..a.Length] == was;
  }

  /** The compaction loop of `removeStrings`, over the front of its own slice. */
  method RemoveInPlace(a: array<string>, remove: seq<string>) returns (n: nat)
    modifies a
    ensures n <= a.Length && a[..n] == RemoveStrings(old(a[..]), remove)
  {
    ghost var was := a[..];
    n := 0;
    for r := 0 to a.Length
      invariant n <= r
      invariant a[..n] == RemoveStrings(was[..r], remove)
      invariant a[r..] == was[r..]
    {
      assert a[r] == a[r..][0] == was[r];
      assert was[..r + 1][..r] == was[..r];
      assert a[r + 1..] == a[r..][1..] && was[r + 1..] == was[r..][1..];
      if a[r] !in remove {
        ghost var kept := a[..n];
        a[n] := a[r];
        n := n + 1;
        assert a[..n] == kept + [was[r]];
      }
    }
    assert was[..a.Length] == was;
  }

  function MutationStringValues(req: MutationRequest): Option<seq<string>> {
    if |req.values| > 0 then Some(req.values)
    else if req.value.Absent? then None
    else if req.value.strings.Some? then req.value.strings
    else if req.value.text.Some? then Some([req.value.text.value])
    else None
  }

  function MutateStringList(dst: seq<string>, req: MutationRequest): Option<seq<string>> {
    match MutationStringValues(req)
    case None => None
    case Some(values) =>
      match req.op
      case Add => Some(UniqueStrings(dst + values))
      case Remove => Some(RemoveStrings(dst, values))
      case Set => Some(UniqueStrings(values))
      case OtherOp => Some(dst)
  }

  function MutateBool(req: MutationRequest): Option<bool> {
    if req.op != Set || req.value.Absent? then None else req.value.boolean
  }

  // ---------- allow rules ----------

  /** `mutateAPIAllowRulesField`. */
  function MutateApiField(a: ApiRules, field: string, req: MutationRequest): Option<ApiRules> {
    if field == "allowed_marks" then
      match MutateStringList(a.marks, req) case None => None case Some(s) => Some(a.(marks := s))
    else if field == "allowed_ports" then
      match MutateStringList(a.ports, req) case None => None case Some(s) => Some(a.(ports := s))
    else if field == "allowed_v4_hosts" then
      match MutateStringList(a.v4Hosts, req) case None => None case Some(s) => Some(a.(v4Hosts := s))
    else if field == "allowed_v6_hosts" then
      match MutateStringList(a.v6Hosts, req) case None => None case Some(s) => Some(a.(v6Hosts := s))
    else if field == "allowed_v4_hostports" then
      match MutateStringList(a.v4Pairs, req) case None => None case Some(s) => Some(a.(v4Pairs := s))
    else if field == "allowed_v6_hostports" then
      match MutateStringList(a.v6Pairs, req) case None => None case Some(s) => Some(a.(v6Pairs := s))
    else None
  }

  /** `mutateAllowRulesField`: flags directly, lists by way of their text. */
  function MutateAllowRulesField(net: Net, rules: AllowRules, field: string, req: MutationRequest): Option<AllowRules> {
    if field == "allow_all" then
      match MutateBool(req) case None => None case Some(b) => Some(rules.(allowAll := b))
    else if field == "enable_v4" then
      match MutateBool(req) case None => None case Some(b) => Some(rules.(enableV4 := b))
    else if field == "enable_v6" then
      match MutateBool(req) case None => None case Some(b) => Some(rules.(enableV6 := b))
    else
      match MutateApiField(PrintRules(net, rules), field, req)
      case None => None
      case Some(a) => ParseRules(net, a)
  }

  function AllowRulesFromApi(net: Net, policy: Option<ApiRules>, raw: Raw): Option<AllowRules> {
    match policy
    case Some(p) => ParseRules(net, p)
    case None =>
      if raw.Absent? || raw.policy.None? then None else ParseRules(net, raw.policy.value)
  }

  // ---------- triggers and rulesets ----------

  function ParseTriggerAddr(fx: Foreign, s: string): Option<Addr> {
    match ParseAddr(fx.net, s) case None => None case Some(a) => Some(Unmap(a))
  }

  function AddrCodec(fx: Foreign): Codec<Addr> { Codec(fx.printAddr, s => ParseTriggerAddr(fx, s)) }

  /** Hardware addresses are kept as text; reading one brings it into its own form. */
  function MacCodec(fx: Foreign): Codec<string> { Codec(s => s, fx.parseMac) }

  /** What is read from foreign text can be printed and read again. */
  ghost predicate Lawful(fx: Foreign) {
    LawfulNet(fx.net) && Stable(AddrCodec(fx)) && Stable(MacCodec(fx))
  }

  /** `normalizeMACList`. */
  function NormalizeMacList(fx: Foreign, values: seq<string>): Option<seq<string>> {
    match ParseAll(MacCodec(fx), values) case None => None case Some(s) => Some(Canon(StringLess, s))
  }

  predicate AllCompile(re: Regexp, patterns: seq<string>) {
    forall p :: p in patterns ==> re.compiles(p)
  }

  /** `triggerFromConfig`. */
  function TriggerFromConfig(fx: Foreign, t: ApiTrigger): Option<Trigger> {
    if !AllCompile(fx.re, t.regexps) then None
    else
      match (ParseAll(AddrCodec(fx), t.ipAddrs), NormalizeMacList(fx, t.bssids), NormalizeMacList(fx, t.gatewayMacs))
      case (Some(addrs), Some(bssids), Some(macs)) =>
        var trigger := Trigger(t.types, t.names, t.regexps, addrs, t.ssids, bssids, macs);
        if PredicateCount(trigger) > 0 then Some(trigger) else None
      case _ => None
  }

  function RulesetFromApi(fx: Foreign, name: string, def: Option<ApiRuleset>, raw: Raw): Option<Ruleset> {
    var api := if def.Some? then def else if raw.Absent? then None else raw.rulesetDef;
    match api
    case None => None
    case Some(a) =>
      match (TriggerFromConfig(fx, a.trigger), ParseRules(fx.net, a.policy))
      case (Some(trigger), Some(rules)) => Some(Ruleset(name, a.disabled, a.matchAll, trigger, rules))
      case _ => None
  }

  /** `sortRulesets`, by insertion. */
  function PlaceByName(s: seq<Ruleset>, r: Ruleset): seq<Ruleset> {
    if s == [] then [r]
    else if StringLess(r.name, s[0].name) then [r] + s
    else [s[0]] + PlaceByName(s[1..], r)
  }

  function SortRulesets(s: seq<Ruleset>): seq<Ruleset> {
    if s == [] then [] else PlaceByName(SortRulesets(s[1..]), s[0])
  }

  function RemoveRuleset(s: seq<Ruleset>, name: string): seq<Ruleset> {
    var idx := FirstNamed(s, name);
    if idx < 0 then s else s[..idx] + s[idx + 1..]
  }

  function UpsertRuleset(s: seq<Ruleset>, r: Ruleset): seq<Ruleset> {
    var idx := FirstNamed(s, r.name);
    SortRulesets(if idx < 0 then s + [r] else s[idx := r])
  }

  function MutateWholeRuleset(fx: Foreign, s: seq<Ruleset>, req: MutationRequest): Option<seq<Ruleset>> {
    if req.ruleset == "" then None
    else if req.op == Remove then Some(RemoveRuleset(s, req.ruleset))
    else if req.op == OtherOp then None
    else
      match RulesetFromApi(fx, req.ruleset, req.rulesetDef, req.value)
      case None => None
      case Some(r) =>
        if req.op == Add && FirstNamed(s, req.ruleset) >= 0 then None else Some(UpsertRuleset(s, r))
  }

  function MutateMacList(fx: Foreign, current: seq<string>, req: MutationRequest): Option<seq<string>> {
    match MutateStringList(current, req) case None => None case Some(s) => NormalizeMacList(fx, s)
  }

  /** The trigger part of `mutateRulesetField`. */
  function MutateTriggerField(fx: Foreign, t: Trigger, field: string, req: MutationRequest): Option<Trigger> {
    if field == "trigger.interface_types" then
      match MutateStringList(t.types, req) case None => None case Some(s) => Some(t.(types := s))
    else if field == "trigger.interface_names" then
      match MutateStringList(t.names, req) case None => None case Some(s) => Some(t.(names := s))
    else if field == "trigger.interface_regexps" then
      match MutateStringList(t.regexps, req)
      case None => None
      case Some(s) => if AllCompile(fx.re, s) then Some(t.(regexps := s)) else None
    else if field == "trigger.ip_addrs" then
      match MutateStringList(PrintAll(AddrCodec(fx), t.addrs), req)
      case None => None
      case Some(s) => TriggerFromConfig(fx,
                                        ApiTrigger(t.types, t.names, t.regexps, s, t.ssids, t.bssids, t.gatewayMacs))
    else if field == "trigger.ssids" then
      match MutateStringList(t.ssids, req) case None => None case Some(s) => Some(t.(ssids := s))
    else if field == "trigger.bssids" then
      match MutateMacList(fx, t.bssids, req) case None => None case Some(s) => Some(t.(bssids := s))
    else if field == "trigger.gateway_macs" then
      match MutateMacList(fx, t.gatewayMacs, req) case None => None case Some(s) => Some(t.(gatewayMacs := s))
    else None
  }

  /** The field switch of `mutateRulesetField`. */
  function MutateRuleset(fx: Foreign, r: Ruleset, field: string, req: MutationRequest): Option<Ruleset> {
    if field == "disabled" then
      match MutateBool(req) case None => None case Some(b) => Some(r.(disabled := b))
    else if field == "match_all" then
      match MutateBool(req) case None => None case Some(b) => Some(r.(matchAll := b))
    else if "policy." <= field then
      match MutateAllowRulesField(fx.net, r.rules, field[|"policy."|..], req) case None => None
        case Some(p) => Some(r.(rules := p))
    else
      match MutateTriggerField(fx, r.trigger, field, req) case None => None case Some(t) => Some(r.(trigger := t))
  }

  function MutateRulesetField(fx: Foreign, s: seq<Ruleset>, field: string, req: MutationRequest): Option<seq<Ruleset>> {
    var idx := FirstNamed(s, req.ruleset);
    if req.ruleset == "" || idx < 0 then None
    else
      match MutateRuleset(fx, s[idx], field, req)
      case None => None
      case Some(r) => if PredicateCount(r.trigger) == 0 then None else Some(SortRulesets(s[idx := r]))
  }

  // ---------- whole options ----------

  predicate HasIncludeSelector(o: Options) {
    o.types != [] || o.names != [] || o.regexps != []
  }

  datatype Target =
    | IncludeTypes | IncludeNames | IncludeRegexps
    | IgnoredTypes | IgnoredNames | IgnoredRegexps
    | BasePolicy | WholeRuleset
    | BasePolicyField(field: string)
    | RulesetField(field: string)
    | UnknownTarget

  /** The target a request names, exact names before prefixes. */
  function TargetOf(t: string): Target {
    if t == "interface_types" then IncludeTypes
    else if t == "interface_names" then IncludeNames
    else if t == "interface_regexps" then IncludeRegexps
    else if t == "ignored_interface_types" then IgnoredTypes
    else if t == "ignored_interface_names" then IgnoredNames
    else if t == "ignored_interface_regexps" then IgnoredRegexps
    else if t == "base_policy" then BasePolicy
    else if t == "ruleset" then WholeRuleset
    else if "base_policy." <= t then BasePolicyField(t[|"base_policy."|..])
    else if "ruleset." <= t then RulesetField(t[|"ruleset."|..])
    else UnknownTarget
  }

  /** The target switch of `mutateOptions`. */
  function MutateTarget(fx: Foreign, o: Options, target: Target, req: MutationRequest): Option<Options> {
    match target
    case IncludeTypes =>
      (match MutateStringList(o.types, req) case None => None case Some(s) => Some(o.(types := s)))
    case IncludeNames =>
      (match MutateStringList(o.names, req) case None => None case Some(s) => Some(o.(names := s)))
    case IncludeRegexps =>
      (match MutateStringList(o.regexps, req)
       case None => None
       case Some(s) => if AllCompile(fx.re, s) then Some(o.(regexps := s)) else None)
    case IgnoredTypes =>
      (match MutateStringList(o.ignoredTypes, req) case None => None case Some(s) => Some(o.(ignoredTypes := s)))
    case IgnoredNames =>
      (match MutateStringList(o.ignoredNames, req) case None => None case Some(s) => Some(o.(ignoredNames := s)))
    case IgnoredRegexps =>
      (match MutateStringList(o.ignoredRegexps, req)
       case None => None
       case Some(s) => if AllCompile(fx.re, s) then Some(o.(ignoredRegexps := s)) else None)
    case BasePolicy =>
      if req.op != Set then None
      else (match AllowRulesFromApi(fx.net, req.policy, req.value) case None => None
              case Some(p) => Some(o.(base := p)))
    case WholeRuleset =>
      (match MutateWholeRuleset(fx, o.rulesets, req) case None => None case Some(s) => Some(o.(rulesets := s)))
    case BasePolicyField(field) =>
      (match MutateAllowRulesField(fx.net, o.base, field, req) case None => None case Some(p) => Some(o.(base := p)))
    case RulesetField(field) =>
      (match MutateRulesetField(fx, o.rulesets, field, req) case None => None case Some(s) => Some(o.(rulesets := s)))
    case UnknownTarget => None
  }

  /** `mutateOptions`: None is a rejection, which leaves the caller's options alone. */
  function MutateOptions(fx: Foreign, o: Options, req: MutationRequest): Option<Options> {
    if "admin_api" <= req.target || req.op == OtherOp || req.target == "" then None
    else
      match MutateTarget(fx, o, TargetOf(req.target), req)
      case None => None
      case Some(next) => if HasIncludeSelector(next) then Some(next) else None
  }

  // ---------- well-formed options ----------

  ghost predicate NamesIncreasing(s: seq<Ruleset>) {
    forall i, j :: 0 <= i < j < |s| ==> StringLess(s[i].name, s[j].name)
  }

  ghost predicate GoodRuleset(fx: Foreign, r: Ruleset) {
    && r.name != "" && PredicateCount(r.trigger) > 0
    && AllCompile(fx.re, r.trigger.regexps) && NormalTrigger(fx, r.trigger) && Expressible(r.rules)
  }

  /** Stored addresses survive their text, stored hardware addresses are sorted,
      unique and in their own form. */
  ghost predicate NormalTrigger(fx: Foreign, t: Trigger) {
    Survive(AddrCodec(fx), t.addrs) && NormalMacs(fx, t.bssids) && NormalMacs(fx, t.gatewayMacs)
  }

  ghost predicate NormalMacs(fx: Foreign, s: seq<string>) {
    Increasing(StringLess, s) && Survive(MacCodec(fx), s)
  }

  ghost predicate GoodRulesets(fx: Foreign, s: seq<Ruleset>) {
    NamesIncreasing(s) && forall i :: 0 <= i < |s| ==> GoodRuleset(fx, s[i])
  }

  /** Ruleset names are non-empty, sorted and unique, every trigger has a predicate,
      some include selector exists, every stored pattern compiles, every stored
      address is normal, and every stored rule can be spelled as text. */
  ghost predicate WellFormedOptions(fx: Foreign, o: Options) {
    && HasIncludeSelector(o) && AllCompile(fx.re, o.regexps) && AllCompile(fx.re, o.ignoredRegexps)
    && Expressible(o.base) && GoodRulesets(fx, o.rulesets)
  }

  ghost predicate NamesDistinct(s: seq<Ruleset>) {
    forall i, j :: 0 <= i < j < |s| ==> s[i].name != s[j].name
  }

  lemma {:induction false} PlaceByNameSorted(s: seq<Ruleset>, r: Ruleset)
    requires NamesIncreasing(s) && forall i :: 0 <= i < |s| ==> s[i].name != r.name
    ensures NamesIncreasing(PlaceByName(s, r))
    ensures forall x :: x in PlaceByName(s, r) <==> x in s || x == r
  {
    StringLessTotal();
    if s == [] {
    } else if StringLess(r.name, s[0].name) {
      var t := [r] + s;
      forall j | 0 < j < |t| ensures StringLess(r.name, t[j].name) {
        assert t[j] == s[j - 1];
        assert j > 1 ==> StringLess(s[0].name, s[j - 1].name);
      }
    } else {
      PlaceByNameSorted(s[1..], r);
      var rest := PlaceByName(s[1..], r);
      var t := [s[0]] + rest;
      assert s == [s[0]] + s[1..];
      forall j | 0 < j < |t| ensures StringLess(s[0].name, t[j].name) {
        assert t[j] == rest[j - 1] && rest[j - 1] in rest;
        if t[j] != r {
          var k :| 0 <= k < |s[1..]| && s[1..][k] == t[j];
          assert s[k + 1] == t[j];
        }
      }
    }
  }

  lemma {:induction false} SortRulesetsSorted(s: seq<Ruleset>)
    requires NamesDistinct(s)
    ensures NamesIncreasing(SortRulesets(s))
    ensures forall x :: x in SortRulesets(s) <==> x in s
  {
    if s != [] {
      SortRulesetsSorted(s[1..]);
      assert s == [s[0]] + s[1..];
      var rest := SortRulesets(s[1..]);
      forall i | 0 <= i < |rest| ensures rest[i].name != s[0].name {
        assert rest[i] in s[1..];
        var k :| 0 <= k < |s[1..]| && s[1..][k] == rest[i];
        assert s[k + 1] == rest[i];
      }
      PlaceByNameSorted(rest, s[0]);
    }
  }

  lemma IncreasingDistinct(s: seq<Ruleset>)
    requires NamesIncreasing(s)
    ensures NamesDistinct(s)
  {
    StringLessTotal();
  }

  lemma SortedGood(fx: Foreign, s: seq<Ruleset>)
    requires NamesDistinct(s) && forall i :: 0 <= i < |s| ==> GoodRuleset(fx, s[i])
    ensures GoodRulesets(fx, SortRulesets(s))
  {
    SortRulesetsSorted(s);
    var t := SortRulesets(s);
    forall i | 0 <= i < |t| ensures GoodRuleset(fx, t[i]) {
      assert t[i] in s;
    }
  }

  lemma UpsertGood(fx: Foreign, s: seq<Ruleset>, r: Ruleset)
    requires GoodRulesets(fx, s) && GoodRuleset(fx, r)
    ensures GoodRulesets(fx, UpsertRuleset(s, r))
  {
    IncreasingDistinct(s);
    var idx := FirstNamed(s, r.name);
    SortedGood(fx, if idx < 0 then s + [r] else s[idx := r]);
  }

  lemma DropAtElements(s: seq<Ruleset>, idx: nat)
    requires idx < |s|
    ensures var t := s[..idx] + s[idx + 1..];
            |t| == |s| - 1 && forall k :: 0 <= k < |t| ==> t[k] == s[if k < idx then k else k + 1]
  {
  }

  lemma DropAtGood(fx: Foreign, s: seq<Ruleset>, idx: nat)
    requires GoodRulesets(fx, s) && idx < |s|
    ensures GoodRulesets(fx, s[..idx] + s[idx + 1..])
  {
  }

  /** Removing a ruleset leaves none of that name. */
  lemma RemoveGood(fx: Foreign, s: seq<Ruleset>, name: string)
    requires GoodRulesets(fx, s)
    ensures GoodRulesets(fx, RemoveRuleset(s, name))
    ensures FirstNamed(RemoveRuleset(s, name), name) == -1
  {
    var idx := FirstNamed(s, name);
    if idx >= 0 {
      IncreasingDistinct(s);
      DropAtGood(fx, s, idx);
      DropAtElements(s, idx);
      var t := RemoveRuleset(s, name);
      forall k | 0 <= k < |t| ensures t[k].name != name {
        assert s[if k < idx then k else k + 1].name != s[idx].name;
      }
    }
  }

  lemma NormalizedMacs(fx: Foreign, values: seq<string>)
    requires Stable(MacCodec(fx)) && NormalizeMacList(fx, values).Some?
    ensures var macs := NormalizeMacList(fx, values).value;
            NormalMacs(fx, macs) && forall x :: x in macs <==> Denoted(MacCodec(fx), values, x)
  {
    var parsed := ParseAll(MacCodec(fx), values).value;
    var macs := Canon(StringLess, parsed);
    ParsedSurvives(MacCodec(fx), values);
    StringLessTotal();
    CanonIncreasing(StringLess, parsed);
    forall x { ParsedDenotes(MacCodec(fx), values, x); }
    forall i | 0 <= i < |macs| ensures MacCodec(fx).read(macs[i]) == Some(macs[i]) {
      assert macs[i] in parsed;
      var j :| 0 <= j < |parsed| && parsed[j] == macs[i];
    }
  }

  /** Normalising what is normal changes nothing. */
  lemma NormalStays(fx: Foreign, s: seq<string>)
    requires NormalMacs(fx, s)
    ensures NormalizeMacList(fx, s) == Some(s)
  {
    ListRoundTrip(MacCodec(fx), s);
    assert PrintAll(MacCodec(fx), s) == s;
    StringLessTotal();
    CanonIncreasing(StringLess, s);
    IncreasingUnique(StringLess, Canon(StringLess, s), s);
  }

  lemma TriggerFromConfigGood(fx: Foreign, t: ApiTrigger)
    requires Lawful(fx) && TriggerFromConfig(fx, t).Some?
    ensures var r := TriggerFromConfig(fx, t).value;
            PredicateCount(r) > 0 && AllCompile(fx.re, r.regexps) && NormalTrigger(fx, r)
  {
    ParsedSurvives(AddrCodec(fx), t.ipAddrs);
    NormalizedMacs(fx, t.bssids);
    NormalizedMacs(fx, t.gatewayMacs);
  }

  lemma TriggerFieldGood(fx: Foreign, t: Trigger, field: string, req: MutationRequest)
    requires Lawful(fx) && AllCompile(fx.re, t.regexps) && NormalTrigger(fx, t) &&
             MutateTriggerField(fx, t, field, req).Some?
    ensures AllCompile(fx.re, MutateTriggerField(fx, t, field, req).value.regexps)
    ensures NormalTrigger(fx, MutateTriggerField(fx, t, field, req).value)
  {
    match field
    case "trigger.ip_addrs" =>
      var texts := MutateStringList(PrintAll(AddrCodec(fx), t.addrs), req).value;
      TriggerFromConfigGood(fx, ApiTrigger(t.types, t.names, t.regexps, texts, t.ssids, t.bssids, t.gatewayMacs));
    case "trigger.bssids" => NormalizedMacs(fx, MutateStringList(t.bssids, req).value);
    case "trigger.gateway_macs" => NormalizedMacs(fx, MutateStringList(t.gatewayMacs, req).value);
    case _ =>
  }

  lemma AllowRulesFieldExpressible(net: Net, r: AllowRules, field: string, req: MutationRequest)
    requires LawfulNet(net) && Expressible(r) && MutateAllowRulesField(net, r, field, req).Some?
    ensures Expressible(MutateAllowRulesField(net, r, field, req).value)
  {
    if field != "allow_all" && field != "enable_v4" && field != "enable_v6" {
      ParsedIsExpressible(net, MutateApiField(PrintRules(net, r), field, req).value);
    }
  }

  lemma MutateRulesetGood(fx: Foreign, r: Ruleset, field: string, req: MutationRequest)
    requires Lawful(fx) && GoodRuleset(fx, r) && MutateRuleset(fx, r, field, req).Some?
    requires PredicateCount(MutateRuleset(fx, r, field, req).value.trigger) > 0
    ensures GoodRuleset(fx, MutateRuleset(fx, r, field, req).value)
    ensures MutateRuleset(fx, r, field, req).value.name == r.name
  {
    if field == "disabled" || field == "match_all" {
    } else if "policy." <= field {
      AllowRulesFieldExpressible(fx.net, r.rules, field[|"policy."|..], req);
    } else {
      TriggerFieldGood(fx, r.trigger, field, req);
    }
  }

  lemma RulesetFieldGood(fx: Foreign, s: seq<Ruleset>, field: string, req: MutationRequest)
    requires Lawful(fx) && GoodRulesets(fx, s) && MutateRulesetField(fx, s, field, req).Some?
    ensures GoodRulesets(fx, MutateRulesetField(fx, s, field, req).value)
  {
    var idx := FirstNamed(s, req.ruleset);
    MutateRulesetGood(fx, s[idx], field, req);
    IncreasingDistinct(s);
    SortedGood(fx, s[idx := MutateRuleset(fx, s[idx], field, req).value]);
  }

  lemma RulesetFromApiGood(fx: Foreign, name: string, def: Option<ApiRuleset>, raw: Raw)
    requires Lawful(fx) && name != "" && RulesetFromApi(fx, name, def, raw).Some?
    ensures GoodRuleset(fx, RulesetFromApi(fx, name, def, raw).value)
    ensures RulesetFromApi(fx, name, def, raw).value.name == name
  {
    var a := if def.Some? then def.value else raw.rulesetDef.value;
    TriggerFromConfigGood(fx, a.trigger);
    ParsedIsExpressible(fx.net, a.policy);
  }

  lemma WholeRulesetGood(fx: Foreign, s: seq<Ruleset>, req: MutationRequest)
    requires Lawful(fx) && GoodRulesets(fx, s) && MutateWholeRuleset(fx, s, req).Some?
    ensures GoodRulesets(fx, MutateWholeRuleset(fx, s, req).value)
  {
    if req.op == Remove {
      RemoveGood(fx, s, req.ruleset);
    } else {
      RulesetFromApiGood(fx, req.ruleset, req.rulesetDef, req.value);
      UpsertGood(fx, s, RulesetFromApi(fx, req.ruleset, req.rulesetDef, req.value).value);
    }
  }

  lemma BasePolicyExpressible(net: Net, policy: Option<ApiRules>, raw: Raw)
    requires LawfulNet(net) && AllowRulesFromApi(net, policy, raw).Some?
    ensures Expressible(AllowRulesFromApi(net, policy, raw).value)
  {
    ParsedIsExpressible(net, if policy.Some? then policy.value else raw.policy.value);
  }

  /** The parts of well-formedness that one target can touch. */
  lemma TargetKeepsParts(fx: Foreign, o: Options, target: Target, req: MutationRequest)
    requires Lawful(fx) && WellFormedOptions(fx, o) && MutateTarget(fx, o, target, req).Some?
    ensures var n := MutateTarget(fx, o, target, req).value;
            && AllCompile(fx.re, n.regexps) && AllCompile(fx.re, n.ignoredRegexps)
            && Expressible(n.base) && GoodRulesets(fx, n.rulesets)
  {
    match target
    case BasePolicy => BasePolicyExpressible(fx.net, req.policy, req.value);
    case WholeRuleset => WholeRulesetGood(fx, o.rulesets, req);
    case BasePolicyField(field) => AllowRulesFieldExpressible(fx.net, o.base, field, req);
    case RulesetField(field) => RulesetFieldGood(fx, o.rulesets, field, req);
    case _ =>
  }

  /** Every accepted mutation keeps the options well formed. */
  lemma MutationKeepsWellFormed(fx: Foreign, o: Options, req: MutationRequest)
    requires Lawful(fx) && WellFormedOptions(fx, o) && MutateOptions(fx, o, req).Some?
    ensures WellFormedOptions(fx, MutateOptions(fx, o, req).value)
  {
    TargetKeepsParts(fx, o, TargetOf(req.target), req);
  }

  /** The options after a run of requests; rejected ones change nothing. */
  function MutateAll(fx: Foreign, o: Options, reqs: seq<MutationRequest>): Options {
    if reqs == [] then o
    else
      var before := MutateAll(fx, o, reqs[..|reqs| - 1]);
      match MutateOptions(fx, before, reqs[|reqs| - 1])
      case None => before
      case Some(next) => next
  }

  /** In every run from well-formed options, the options stay well formed and no
      trigger ever holds a pattern on which matching would panic. */
  lemma {:induction false} EveryRunWellFormed(fx: Foreign, o: Options, reqs: seq<MutationRequest>)
    requires Lawful(fx) && WellFormedOptions(fx, o)
    ensures WellFormedOptions(fx, MutateAll(fx, o, reqs))
    ensures TriggersCompile(fx.re, MutateAll(fx, o, reqs).rulesets)
  {
    if reqs != [] {
      EveryRunWellFormed(fx, o, reqs[..|reqs| - 1]);
      var before := MutateAll(fx, o, reqs[..|reqs| - 1]);
      if MutateOptions(fx, before, reqs[|reqs| - 1]).Some? {
        MutationKeepsWellFormed(fx, before, reqs[|reqs| - 1]);
      }
    }
  }

  // ---------- one field through text ----------

  /** Everything but the list that `field` names. */
  ghost predicate SameButField(a: AllowRules, b: AllowRules, field: string) {
    && SameFlags(a, b)
    && (field != "allowed_marks" ==> a.marks == b.marks)
    && (field != "allowed_ports" ==> a.ports == b.ports)
    && (field != "allowed_v4_hosts" ==> a.v4Hosts == b.v4Hosts)
    && (field != "allowed_v6_hosts" ==> a.v6Hosts == b.v6Hosts)
    && (field != "allowed_v4_hostports" ==> a.v4Pairs == b.v4Pairs)
    && (field != "allowed_v6_hostports" ==> a.v6Pairs == b.v6Pairs)
  }

  ghost predicate SameButApiField(a: ApiRules, b: ApiRules, field: string) {
    && a.allowAll == b.allowAll && a.enableV4 == b.enableV4 && a.enableV6 == b.enableV6
    && (field != "allowed_marks" ==> a.marks == b.marks)
    && (field != "allowed_ports" ==> a.ports == b.ports)
    && (field != "allowed_v4_hosts" ==> a.v4Hosts == b.v4Hosts)
    && (field != "allowed_v6_hosts" ==> a.v6Hosts == b.v6Hosts)
    && (field != "allowed_v4_hostports" ==> a.v4Pairs == b.v4Pairs)
    && (field != "allowed_v6_hostports" ==> a.v6Pairs == b.v6Pairs)
  }

  lemma ApiFieldIsLocal(a: ApiRules, field: string, req: MutationRequest)
    requires MutateApiField(a, field, req).Some?
    ensures SameButApiField(a, MutateApiField(a, field, req).value, field)
  {
  }

  lemma ParsedFieldIsLocal(net: Net, a: ApiRules, b: ApiRules, field: string)
    requires ParseRules(net, a).Some? && ParseRules(net, b).Some? && SameButApiField(a, b, field)
    ensures SameButField(ParseRules(net, a).value, ParseRules(net, b).value, field)
  {
  }

  /** Mutating one list through its text leaves the flags and the other five lists
      exactly as they were. */
  lemma FieldMutationIsLocal(net: Net, r: AllowRules, field: string, req: MutationRequest)
    requires LawfulNet(net) && Expressible(r) && MutateAllowRulesField(net, r, field, req).Some?
    requires field != "allow_all" && field != "enable_v4" && field != "enable_v6"
    ensures SameButField(r, MutateAllowRulesField(net, r, field, req).value, field)
  {
    RulesRoundTrip(net, r);
    ApiFieldIsLocal(PrintRules(net, r), field, req);
    ParsedFieldIsLocal(net, PrintRules(net, r), MutateApiField(PrintRules(net, r), field, req).value, field);
  }

  /** Adding spellings to a list adds exactly the rules they denote. */
  lemma AddDenotes<K>(c: Codec<K>, keys: seq<K>, values: seq<string>, out: seq<K>, k: K)
    requires Survive(c, keys) && ParseAll(c, UniqueStrings(PrintAll(c, keys) + values)) == Some(out)
    ensures k in out <==> k in keys || Denoted(c, values, k)
  {
    var shown := PrintAll(c, keys);
    UniqueStringsElements(shown + values);
    ParsedDenotes(c, UniqueStrings(shown + values), k);
    ListRoundTrip(c, keys);
    ParsedDenotes(c, shown, k);
    assert forall s :: s in UniqueStrings(shown + values) <==> s in shown || s in values;
  }

  /** Removing spellings removes exactly the rules whose printed form is listed: a
      value spelled differently from the printer removes nothing. */
  lemma RemoveDenotes<K>(c: Codec<K>, keys: seq<K>, values: seq<string>, out: seq<K>, k: K)
    requires Survive(c, keys) && ParseAll(c, RemoveStrings(PrintAll(c, keys), values)) == Some(out)
    ensures k in out <==> k in keys && c.show(k) !in values
  {
    var shown := PrintAll(c, keys);
    RemoveStringsElements(shown, values);
    ParsedDenotes(c, RemoveStrings(shown, values), k);
    assert k in keys ==> c.show(k) in shown;
    forall s | s in shown ensures exists i :: 0 <= i < |keys| && s == c.show(keys[i]) {
      var i :| 0 <= i < |shown| && shown[i] == s;
      assert s == c.show(keys[i]);
    }
  }

  // ---------- what a mutation means ----------

  /** A list after add, remove or set, as a set of strings; no repetitions are
      introduced. */
  ghost predicate ListMeaning(was: seq<string>, now: seq<string>, req: MutationRequest) {
    match MutationStringValues(req)
    case None => false
    case Some(values) =>
      && (forall x :: x in now <==> match req.op
                                    case Add => x in was || x in values
                                    case Remove => x in was && x !in values
                                    case Set => x in values
                                    case OtherOp => x in was)
      && (req.op == Add || req.op == Set ==> forall i, j :: 0 <= i < j < |now| ==> now[i] != now[j])
  }

  lemma MutateStringListMeaning(was: seq<string>, req: MutationRequest)
    requires MutateStringList(was, req).Some?
    ensures ListMeaning(was, MutateStringList(was, req).value, req)
  {
    var values := MutationStringValues(req).value;
    UniqueStringsElements(was + values);
    UniqueStringsElements(values);
    RemoveStringsElements(was, values);
  }

  /** A rule list after add, remove or set of spellings, as a set of rules. */
  ghost predicate RuleListMeaning<K(!new)>(c: Codec<K>, was: seq<K>, now: seq<K>, req: MutationRequest) {
    match MutationStringValues(req)
    case None => false
    case Some(values) =>
      forall k :: k in now <==> match req.op
                                case Add => k in was || Denoted(c, values, k)
                                case Remove => k in was && c.show(k) !in values
                                case Set => Denoted(c, values, k)
                                case OtherOp => k in was
  }

  lemma SetDenotes<K>(c: Codec<K>, values: seq<string>, out: seq<K>, k: K)
    requires ParseAll(c, UniqueStrings(values)) == Some(out)
    ensures k in out <==> Denoted(c, values, k)
  {
    assert PrintAll(c, []) + values == values;
    AddDenotes(c, [], values, out, k);
  }

  lemma ListThroughText<K(!new)>(c: Codec<K>, was: seq<K>, texts: seq<string>, now: seq<K>, req: MutationRequest)
    requires Survive(c, was) && MutateStringList(PrintAll(c, was), req) == Some(texts) &&
             ParseAll(c, texts) == Some(now)
    ensures RuleListMeaning(c, was, now, req)
  {
    var values := MutationStringValues(req).value;
    match req.op
    case Add => forall k { AddDenotes(c, was, values, now, k); }
    case Remove => forall k { RemoveDenotes(c, was, values, now, k); }
    case Set => forall k { SetDenotes(c, values, now, k); }
    case OtherOp => ListRoundTrip(c, was);
  }

  /** Every stored list survives its own text. */
  lemma StoredSurvives(net: Net, r: AllowRules)
    requires LawfulNet(net) && Expressible(r)
    ensures Survive(MarkCodec(), r.marks) && Survive(PortCodec(), r.ports) && Survive(V4HostCodec(net), r.v4Hosts)
    ensures Survive(V6HostCodec(net), r.v6Hosts) && Survive(V4PairCodec(net), r.v4Pairs) &&
            Survive(V6PairCodec(net), r.v6Pairs)
  {
    forall i | 0 <= i < |r.marks| { MarkRoundTrip(r.marks[i]); }
    forall i | 0 <= i < |r.ports| { PortRoundTrip(r.ports[i]); }
    forall i | 0 <= i < |r.v4Hosts| { V4HostRoundTrip(net, r.v4Hosts[i]); }
    forall i | 0 <= i < |r.v6Hosts| { V6HostRoundTrip(net, r.v6Hosts[i]); }
    forall i | 0 <= i < |r.v4Pairs| { V4PairRoundTrip(net, r.v4Pairs[i]); }
    forall i | 0 <= i < |r.v6Pairs| { V6PairRoundTrip(net, r.v6Pairs[i]); }
  }

  /** The field's name picks one list of texts and mutates it as a string list. */
  lemma NamedTexts(a: ApiRules, field: string, req: MutationRequest)
    requires MutateApiField(a, field, req).Some?
    ensures var b := MutateApiField(a, field, req).value;
            && (field == "allowed_marks" ==> MutateStringList(a.marks, req) == Some(b.marks))
            && (field == "allowed_ports" ==> MutateStringList(a.ports, req) == Some(b.ports))
            && (field == "allowed_v4_hosts" ==> MutateStringList(a.v4Hosts, req) == Some(b.v4Hosts))
            && (field == "allowed_v6_hosts" ==> MutateStringList(a.v6Hosts, req) == Some(b.v6Hosts))
            && (field == "allowed_v4_hostports" ==> MutateStringList(a.v4Pairs, req) == Some(b.v4Pairs))
            && (field == "allowed_v6_hostports" ==> MutateStringList(a.v6Pairs, req) == Some(b.v6Pairs))
  {
  }

  lemma ParsedLists(net: Net, a: ApiRules)
    requires ParseRules(net, a).Some?
    ensures var r := ParseRules(net, a).value;
            && ParseAll(MarkCodec(), a.marks) == Some(r.marks)
            && ParseAll(PortCodec(), a.ports) == Some(r.ports)
            && ParseAll(V4HostCodec(net), a.v4Hosts) == Some(r.v4Hosts)
            && ParseAll(V6HostCodec(net), a.v6Hosts) == Some(r.v6Hosts)
            && ParseAll(V4PairCodec(net), a.v4Pairs) == Some(r.v4Pairs)
            && ParseAll(V6PairCodec(net), a.v6Pairs) == Some(r.v6Pairs)
  {
  }

  lemma PrintedLists(net: Net, r: AllowRules)
    ensures var a := PrintRules(net, r);
            && a.marks == PrintAll(MarkCodec(), r.marks)
            && a.ports == PrintAll(PortCodec(), r.ports)
            && a.v4Hosts == PrintAll(V4HostCodec(net), r.v4Hosts)
            && a.v6Hosts == PrintAll(V6HostCodec(net), r.v6Hosts)
            && a.v4Pairs == PrintAll(V4PairCodec(net), r.v4Pairs)
            && a.v6Pairs == PrintAll(V6PairCodec(net), r.v6Pairs)
  {
  }

  /** Mutating a rule list by text adds, removes or sets exactly the rules the
      spellings stand for, in the list the field names. */
  lemma FieldMutationMeaning(net: Net, r: AllowRules, field: string, req: MutationRequest)
    requires LawfulNet(net) && Expressible(r) && MutateAllowRulesField(net, r, field, req).Some?
    ensures var n := MutateAllowRulesField(net, r, field, req).value;
            && (field == "allowed_marks" ==> RuleListMeaning(MarkCodec(), r.marks, n.marks, req))
            && (field == "allowed_ports" ==> RuleListMeaning(PortCodec(), r.ports, n.ports, req))
            && (field == "allowed_v4_hosts" ==> RuleListMeaning(V4HostCodec(net), r.v4Hosts, n.v4Hosts, req))
            && (field == "allowed_v6_hosts" ==> RuleListMeaning(V6HostCodec(net), r.v6Hosts, n.v6Hosts, req))
            && (field == "allowed_v4_hostports" ==> RuleListMeaning(V4PairCodec(net), r.v4Pairs, n.v4Pairs, req))
            && (field == "allowed_v6_hostports" ==> RuleListMeaning(V6PairCodec(net), r.v6Pairs, n.v6Pairs, req))
  {
    StoredSurvives(net, r);
    PrintedLists(net, r);
    if field != "allow_all" && field != "enable_v4" && field != "enable_v6" {
      var a, n := PrintRules(net, r), MutateAllowRulesField(net, r, field, req).value;
      var b := MutateApiField(a, field, req).value;
      NamedTexts(a, field, req);
      ParsedLists(net, b);
      match field
      case "allowed_marks" => ListThroughText(MarkCodec(), r.marks, b.marks, n.marks, req);
      case "allowed_ports" => ListThroughText(PortCodec(), r.ports, b.ports, n.ports, req);
      case "allowed_v4_hosts" => ListThroughText(V4HostCodec(net), r.v4Hosts, b.v4Hosts, n.v4Hosts, req);
      case "allowed_v6_hosts" => ListThroughText(V6HostCodec(net), r.v6Hosts, b.v6Hosts, n.v6Hosts, req);
      case "allowed_v4_hostports" => ListThroughText(V4PairCodec(net), r.v4Pairs, b.v4Pairs, n.v4Pairs, req);
      case "allowed_v6_hostports" => ListThroughText(V6PairCodec(net), r.v6Pairs, b.v6Pairs, n.v6Pairs, req);
      case _ =>
    }
  }

  /** A selector target changes its own list, as a set of strings, and nothing else. */
  lemma SelectorMutationMeaning(fx: Foreign, o: Options, target: Target, req: MutationRequest)
    requires MutateTarget(fx, o, target, req).Some?
    ensures var n := MutateTarget(fx, o, target, req).value;
            match target
            case IncludeTypes => n == o.(types := n.types) && ListMeaning(o.types, n.types, req)
            case IncludeNames => n == o.(names := n.names) && ListMeaning(o.names, n.names, req)
            case IncludeRegexps => n == o.(regexps := n.regexps) && ListMeaning(o.regexps, n.regexps, req)
            case IgnoredTypes => n == o.(ignoredTypes := n.ignoredTypes) &&
              ListMeaning(o.ignoredTypes, n.ignoredTypes, req)
            case IgnoredNames => n == o.(ignoredNames := n.ignoredNames) &&
              ListMeaning(o.ignoredNames, n.ignoredNames, req)
            case IgnoredRegexps => n == o.(ignoredRegexps := n.ignoredRegexps) &&
              ListMeaning(o.ignoredRegexps, n.ignoredRegexps, req)
            case BasePolicy => n == o.(base := n.base)
            case BasePolicyField(_) => n == o.(base := n.base)
            case WholeRuleset => n == o.(rulesets := n.rulesets)
            case RulesetField(_) => n == o.(rulesets := n.rulesets)
            case UnknownTarget => false
  {
    match target
    case IncludeTypes => MutateStringListMeaning(o.types, req);
    case IncludeNames => MutateStringListMeaning(o.names, req);
    case IncludeRegexps => MutateStringListMeaning(o.regexps, req);
    case IgnoredTypes => MutateStringListMeaning(o.ignoredTypes, req);
    case IgnoredNames => MutateStringListMeaning(o.ignoredNames, req);
    case IgnoredRegexps => MutateStringListMeaning(o.ignoredRegexps, req);
    case _ =>
  }

  /** Replacing or inserting a ruleset keeps every other ruleset and has exactly the
      new one under its name. */
  lemma UpsertMeaning(s: seq<Ruleset>, r: Ruleset, x: Ruleset)
    requires NamesDistinct(s)
    ensures x in UpsertRuleset(s, r) <==> x == r || (x in s && x.name != r.name)
  {
    var idx := FirstNamed(s, r.name);
    var t := if idx < 0 then s + [r] else s[idx := r];
    assert NamesDistinct(t);
    SortRulesetsSorted(t);
    if idx >= 0 {
      assert t[idx] == r;
      if x in s && x.name != r.name {
        var k :| 0 <= k < |s| && s[k] == x;
        assert t[k] == x;
      }
    }
  }

  /** Removing a ruleset keeps every other one. */
  lemma RemoveMeaning(s: seq<Ruleset>, name: string, x: Ruleset)
    requires NamesDistinct(s)
    ensures x in RemoveRuleset(s, name) <==> x in s && x.name != name
  {
  }

  /** A field mutation replaces exactly the ruleset it names. */
  lemma RulesetFieldMeaning(fx: Foreign, s: seq<Ruleset>, field: string, req: MutationRequest, x: Ruleset)
    requires NamesDistinct(s) && MutateRulesetField(fx, s, field, req).Some?
    ensures var idx := FirstNamed(s, req.ruleset);
            && idx >= 0 && MutateRuleset(fx, s[idx], field, req).Some?
            && (x in MutateRulesetField(fx, s, field, req).value <==>
                x == MutateRuleset(fx, s[idx], field, req).value || (x in s && x.name != req.ruleset))
  {
    var idx := FirstNamed(s, req.ruleset);
    var r := MutateRuleset(fx, s[idx], field, req).value;
    assert r.name == req.ruleset;
    UpsertMeaning(s, r, x);
  }

  /** A loaded trigger holds what the text says: hardware addresses normalised in
      their own list, addresses read one by one. */
  lemma TriggerMeaning(fx: Foreign, t: ApiTrigger)
    requires Lawful(fx) && TriggerFromConfig(fx, t).Some?
    ensures var r := TriggerFromConfig(fx, t).value;
            && r.types == t.types && r.names == t.names && r.regexps == t.regexps && r.ssids == t.ssids
            && (forall x :: x in r.bssids <==> Denoted(MacCodec(fx), t.bssids, x))
            && (forall x :: x in r.gatewayMacs <==> Denoted(MacCodec(fx), t.gatewayMacs, x))
            && (forall x :: x in r.addrs <==> Denoted(AddrCodec(fx), t.ipAddrs, x))
  {
    NormalizedMacs(fx, t.bssids);
    NormalizedMacs(fx, t.gatewayMacs);
    forall x { ParsedDenotes(AddrCodec(fx), t.ipAddrs, x); }
  }

  lemma MacListMeaning(fx: Foreign, was: seq<string>, req: MutationRequest)
    requires Lawful(fx) && NormalMacs(fx, was) && MutateMacList(fx, was, req).Some?
    ensures RuleListMeaning(MacCodec(fx), was, MutateMacList(fx, was, req).value, req)
  {
    var texts := MutateStringList(was, req).value;
    var parsed := ParseAll(MacCodec(fx), texts).value;
    assert PrintAll(MacCodec(fx), was) == was;
    ListThroughText(MacCodec(fx), was, texts, parsed, req);
    StringLessTotal();
    CanonIncreasing(StringLess, parsed);
  }

  /** What a field of a trigger then holds, everything else being as it was. */
  ghost predicate TriggerFieldEffect(fx: Foreign, t: Trigger, n: Trigger, field: string, req: MutationRequest) {
    match field
    case "trigger.interface_types" => n == t.(types := n.types) && ListMeaning(t.types, n.types, req)
    case "trigger.interface_names" => n == t.(names := n.names) && ListMeaning(t.names, n.names, req)
    case "trigger.interface_regexps" => n == t.(regexps := n.regexps) && ListMeaning(t.regexps, n.regexps, req)
    case "trigger.ip_addrs" => n == t.(addrs := n.addrs) &&
      RuleListMeaning(AddrCodec(fx), t.addrs, n.addrs, req)
    case "trigger.ssids" => n == t.(ssids := n.ssids) && ListMeaning(t.ssids, n.ssids, req)
    case "trigger.bssids" => n == t.(bssids := n.bssids) &&
      RuleListMeaning(MacCodec(fx), t.bssids, n.bssids, req)
    case "trigger.gateway_macs" => n == t.(gatewayMacs := n.gatewayMacs) &&
      RuleListMeaning(MacCodec(fx), t.gatewayMacs, n.gatewayMacs, req)
    case _ => false
  }

  /** A trigger field changes its own list, by what add, remove or set says, and
      nothing else: going through text moves no other list. */
  lemma TriggerFieldMeaning(fx: Foreign, t: Trigger, field: string, req: MutationRequest)
    requires Lawful(fx) && NormalTrigger(fx, t) && MutateTriggerField(fx, t, field, req).Some?
    ensures TriggerFieldEffect(fx, t, MutateTriggerField(fx, t, field, req).value, field, req)
  {
    var n := MutateTriggerField(fx, t, field, req).value;
    match field
    case "trigger.interface_types" => MutateStringListMeaning(t.types, req);
    case "trigger.interface_names" => MutateStringListMeaning(t.names, req);
    case "trigger.interface_regexps" => MutateStringListMeaning(t.regexps, req);
    case "trigger.ip_addrs" =>
      NormalStays(fx, t.bssids);
      NormalStays(fx, t.gatewayMacs);
      ListThroughText(AddrCodec(fx), t.addrs, MutateStringList(PrintAll(AddrCodec(fx), t.addrs), req).value, n.addrs,
                      req);
    case "trigger.ssids" => MutateStringListMeaning(t.ssids, req);
    case "trigger.bssids" => MacListMeaning(fx, t.bssids, req);
    case "trigger.gateway_macs" => MacListMeaning(fx, t.gatewayMacs, req);
    case _ =>
  }

  // ---------- loading ----------

  datatype RulesetConfig = RulesetConfig(disabled: bool, matchText: string, matchAll: bool, trigger: ApiTrigger,
                                         policy: ApiRules)

  function ParseRulesetMatch(c: RulesetConfig): Option<bool> {
    var text := ToLower(c.matchText);
    if text == "" || text == "or" then Some(c.matchAll)
    else if text == "and" then Some(true)
    else None
  }

  function RulesetFromConfig(fx: Foreign, name: string, c: RulesetConfig): Option<Ruleset> {
    match (ParseRulesetMatch(c), TriggerFromConfig(fx, c.trigger), ParseRules(fx.net, c.policy))
    case (Some(matchAll), Some(trigger), Some(rules)) => Some(Ruleset(name, c.disabled, matchAll, trigger, rules))
    case _ => None
  }

  /** The loading loop: every name in order, stopping at the first failure. */
  method LoadEach(names: seq<string>, load: string -> Option<Ruleset>) returns (out: Option<seq<Ruleset>>)
    ensures out.Some? <==> forall k :: 0 <= k < |names| ==> load(names[k]).Some?
    ensures out.Some? ==> |out.value| == |names| && forall k :: 0 <= k < |names| ==>
              load(names[k]) == Some(out.value[k])
  {
    var rulesets := [];
    for i := 0 to |names|
      invariant |rulesets| == i
      invariant forall k :: 0 <= k < i ==> load(names[k]) == Some(rulesets[k])
    {
      var r := load(names[i]);
      if r.None? {
        return None;
      }
      rulesets := rulesets + [r.value];
    }
    return Some(rulesets);
  }

  function LoadNamed(fx: Foreign, configs: map<string, RulesetConfig>, name: string): Option<Ruleset> {
    if name in configs then RulesetFromConfig(fx, name, configs[name]) else None
  }

  /** `rulesetsFromConfig`: names sorted, one ruleset per name, all or nothing. */
  method RulesetsFromConfig(fx: Foreign, configs: map<string, RulesetConfig>) returns (out: Option<seq<Ruleset>>)
    requires Lawful(fx)
    ensures out.Some? <==> forall n :: n in configs ==> n != "" && LoadNamed(fx, configs, n).Some?
    ensures out.Some? ==> GoodRulesets(fx, out.value)
    ensures out.Some? ==> forall r: Ruleset :: r in out.value <==> LoadNamed(fx, configs, r.name) == Some(r)
  {
    if "" in configs {
      return None;
    }
    var names := SortedKeys(configs.Keys);
    out := LoadEach(names, n => LoadNamed(fx, configs, n));
    if out.Some? {
      LoadedGood(fx, configs, names, out.value);
    } else {
      var k :| 0 <= k < |names| && LoadNamed(fx, configs, names[k]).None?;
      assert names[k] in names;
    }
  }

  lemma LoadedOne(fx: Foreign, configs: map<string, RulesetConfig>, name: string)
    requires Lawful(fx) && name != "" && LoadNamed(fx, configs, name).Some?
    ensures GoodRuleset(fx, LoadNamed(fx, configs, name).value) && LoadNamed(fx, configs, name).value.name == name
    ensures name in configs
  {
    TriggerFromConfigGood(fx, configs[name].trigger);
    ParsedIsExpressible(fx.net, configs[name].policy);
  }

  lemma LoadedGood(fx: Foreign, configs: map<string, RulesetConfig>, names: seq<string>, rulesets: seq<Ruleset>)
    requires Lawful(fx) && "" !in configs && |rulesets| == |names|
    requires Increasing(StringLess, names) && forall x :: x in names <==> x in configs
    requires forall k :: 0 <= k < |names| ==> LoadNamed(fx, configs, names[k]) == Some(rulesets[k])
    ensures GoodRulesets(fx, rulesets)
    ensures forall n :: n in configs ==> n != "" && LoadNamed(fx, configs, n).Some?
    ensures forall r: Ruleset :: r in rulesets <==> LoadNamed(fx, configs, r.name) == Some(r)
  {
    forall k | 0 <= k < |names| ensures GoodRuleset(fx, rulesets[k]) && rulesets[k].name == names[k] {
      assert names[k] in names;
      LoadedOne(fx, configs, names[k]);
    }
    forall n | n in configs ensures LoadNamed(fx, configs, n).Some? {
      assert n in names;
      var k :| 0 <= k < |names| && names[k] == n;
    }
    forall r: Ruleset | LoadNamed(fx, configs, r.name) == Some(r) ensures r in rulesets {
      assert r.name in configs && r.name in names;
      var k :| 0 <= k < |names| && names[k] == r.name;
      assert rulesets[k] == r;
    }
  }

  /** The part of a configuration file that becomes options. `sectionsOk` is the
      verdict of the checks on its admin and proxy sections. */
  datatype ConfigFile = ConfigFile(
    sectionsOk: bool,
    types: seq<string>, names: seq<string>, regexps: seq<string>,
    ignoredTypes: seq<string>, ignoredNames: seq<string>, ignoredRegexps: seq<string>,
    proxy: ProxyOptions, policy: ApiRules, rulesets: map<string, RulesetConfig>)

  /** `configToOptions`: the daemon starts from well-formed options that are what the
      file says, or refuses for exactly these reasons. */
  method ConfigToOptions(fx: Foreign, cfg: ConfigFile) returns (out: Option<Options>)
    requires Lawful(fx)
    ensures out.Some? ==> WellFormedOptions(fx, out.value)
    ensures out.Some? ==>
              var o := out.value;
              && o.types == cfg.types && o.names == cfg.names && o.regexps == cfg.regexps
              && o.ignoredTypes == cfg.ignoredTypes && o.ignoredNames == cfg.ignoredNames &&
                 o.ignoredRegexps == cfg.ignoredRegexps
              && o.proxy == cfg.proxy && Some(o.base) == ParseRules(fx.net, cfg.policy)
              && forall r: Ruleset :: r in o.rulesets <==> LoadNamed(fx, cfg.rulesets, r.name) == Some(r)
    ensures out.Some? <==>
              && (cfg.types != [] || cfg.names != [] || cfg.regexps != []) && cfg.sectionsOk
              && AllCompile(fx.re, cfg.regexps) && AllCompile(fx.re, cfg.ignoredRegexps)
              && ParseRules(fx.net, cfg.policy).Some?
              && (forall n :: n in cfg.rulesets ==> n != "" && LoadNamed(fx, cfg.rulesets, n).Some?)
  {
    if cfg.types == [] && cfg.names == [] && cfg.regexps == [] {
      return None;
    }
    if !cfg.sectionsOk {
      return None;
    }
    if !AllCompile(fx.re, cfg.regexps) || !AllCompile(fx.re, cfg.ignoredRegexps) {
      return None;
    }
    var base := ParseRules(fx.net, cfg.policy);
    if base.None? {
      return None;
    }
    ParsedIsExpressible(fx.net, cfg.policy);
    var rulesets := RulesetsFromConfig(fx, cfg.rulesets);
    if rulesets.None? {
      return None;
    }
    return Some(Options(cfg.types, cfg.names, cfg.regexps, cfg.ignoredTypes, cfg.ignoredNames, cfg.ignoredRegexps,
                        cfg.proxy, base.value, rulesets.value));
  }
}
