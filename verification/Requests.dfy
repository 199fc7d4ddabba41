/** What each admin request does, read off the request's own text: which target
    changes what, and exactly when a request is refused
    (cmd/killswitch/admin_mutation.go:124-376). */
module Requests {
  import opened Words
  import opened Orders
  import opened Rules
  import opened Effective
  import opened RuleText
  import opened Config

  // ---------- the values a request carries ----------

  /** The strings a request carries: its own list, or else its raw value as a list of
      strings, or else its raw value as one string. */
  ghost predicate Gives(req: MutationRequest, values: seq<string>) {
    if req.values != [] then values == req.values
    else
      && req.value.Raw?
      && (|| req.value.strings == Some(values)
          || (req.value.strings.None? && exists text :: req.value.text == Some(text) && values == [text]))
  }

  lemma GivesExact(req: MutationRequest, values: seq<string>)
    ensures Gives(req, values) <==> MutationStringValues(req) == Some(values)
  {
  }

  predicate GivesBool(req: MutationRequest, b: bool) {
    req.op == Set && req.value.Raw? && req.value.boolean == Some(b)
  }

  predicate GivesPolicy(req: MutationRequest, p: ApiRules) {
    if req.policy.Some? then p == req.policy.value else req.value.Raw? && req.value.policy == Some(p)
  }

  predicate GivesRuleset(req: MutationRequest, d: ApiRuleset) {
    if req.rulesetDef.Some? then d == req.rulesetDef.value else req.value.Raw? && req.value.rulesetDef == Some(d)
  }

  // ---------- reading the target ----------

  lemma ExactTargets()
    ensures TargetOf("interface_types") == IncludeTypes && TargetOf("interface_names") == IncludeNames
    ensures TargetOf("interface_regexps") == IncludeRegexps
    ensures TargetOf("ignored_interface_types") == IgnoredTypes && TargetOf("ignored_interface_names") == IgnoredNames
    ensures TargetOf("ignored_interface_regexps") == IgnoredRegexps
    ensures TargetOf("base_policy") == BasePolicy && TargetOf("ruleset") == WholeRuleset
  {
  }

  lemma BaseTarget(target: string, field: string)
    requires target == "base_policy." + field
    ensures TargetOf(target) == BasePolicyField(field) && !("admin_api" <= target)
  {
    assert target[0] == 'b' && target[11] == '.';
    assert target[|"base_policy."|..] == field;
  }

  lemma RulesetTarget(target: string, field: string)
    requires target == "ruleset." + field
    ensures TargetOf(target) == RulesetField(field) && !("admin_api" <= target)
  {
    assert target[0] == 'r' && target[7] == '.';
    assert target[|"ruleset."|..] == field;
  }

  lemma ExactStep(fx: Foreign, o: Options, req: MutationRequest)
    requires req.op != OtherOp && req.target != "" && req.target[0] != 'a'
    ensures MutateOptions(fx, o, req) ==
            match MutateTarget(fx, o, TargetOf(req.target), req)
            case None => None
            case Some(n) => if n.types == [] && n.names == [] && n.regexps == [] then None else Some(n)
  {
  }

  /** A field of the base policy is mutated on its own. */
  lemma BaseStep(fx: Foreign, o: Options, req: MutationRequest, field: string)
    requires HasIncludeSelector(o) && req.op != OtherOp && req.target == "base_policy." + field
    ensures MutateOptions(fx, o, req) ==
            match MutateAllowRulesField(fx.net, o.base, field, req)
            case None => None
            case Some(p) => Some(o.(base := p))
  {
    BaseTarget(req.target, field);
  }

  // ---------- flags of the base policy ----------

  lemma BoolExact(req: MutationRequest)
    ensures MutateBool(req).Some? <==> exists b :: GivesBool(req, b)
    ensures forall b :: GivesBool(req, b) <==> MutateBool(req) == Some(b)
  {
    if MutateBool(req).Some? { assert GivesBool(req, MutateBool(req).value); }
  }

  lemma BaseFlags(net: Net, r: AllowRules, req: MutationRequest)
    ensures MutateAllowRulesField(net, r, "allow_all", req) ==
            match MutateBool(req) case None => None case Some(b) => Some(r.(allowAll := b))
    ensures MutateAllowRulesField(net, r, "enable_v4", req) ==
            match MutateBool(req) case None => None case Some(b) => Some(r.(enableV4 := b))
    ensures MutateAllowRulesField(net, r, "enable_v6", req) ==
            match MutateBool(req) case None => None case Some(b) => Some(r.(enableV6 := b))
  {
  }

  /** Setting a flag of the base policy changes that flag and nothing else; a request
      that is no set, or carries no truth value, is refused. */
  lemma AllowAllRequest(fx: Foreign, o: Options, req: MutationRequest)
    requires HasIncludeSelector(o) && req.op != OtherOp && req.target == "base_policy.allow_all"
    ensures forall b :: GivesBool(req, b) ==> MutateOptions(fx, o, req) == Some(o.(base := o.base.(allowAll := b)))
    ensures (forall b :: !GivesBool(req, b)) ==> MutateOptions(fx, o, req).None?
  {
    BoolExact(req);
    BaseFlags(fx.net, o.base, req);
    BaseStep(fx, o, req, "allow_all");
  }

  lemma EnableV4Request(fx: Foreign, o: Options, req: MutationRequest)
    requires HasIncludeSelector(o) && req.op != OtherOp && req.target == "base_policy.enable_v4"
    ensures forall b :: GivesBool(req, b) ==> MutateOptions(fx, o, req) == Some(o.(base := o.base.(enableV4 := b)))
    ensures (forall b :: !GivesBool(req, b)) ==> MutateOptions(fx, o, req).None?
  {
    BoolExact(req);
    BaseFlags(fx.net, o.base, req);
    BaseStep(fx, o, req, "enable_v4");
  }

  lemma EnableV6Request(fx: Foreign, o: Options, req: MutationRequest)
    requires HasIncludeSelector(o) && req.op != OtherOp && req.target == "base_policy.enable_v6"
    ensures forall b :: GivesBool(req, b) ==> MutateOptions(fx, o, req) == Some(o.(base := o.base.(enableV6 := b)))
    ensures (forall b :: !GivesBool(req, b)) ==> MutateOptions(fx, o, req).None?
  {
    BoolExact(req);
    BaseFlags(fx.net, o.base, req);
    BaseStep(fx, o, req, "enable_v6");
  }

  // ---------- rule lists of the base policy ----------

  /** The request carries values, and they can be read unless it only removes. */
  ghost predicate Readable<K>(c: Codec<K>, req: MutationRequest) {
    exists values :: Gives(req, values) && (req.op == Remove || forall s :: s in values ==> c.read(s).Some?)
  }

  /** A stored list that goes through its text is refused only for what is new. */
  lemma ReadableExact<K>(c: Codec<K>, was: seq<K>, req: MutationRequest)
    requires Survive(c, was) && req.op != OtherOp
    ensures Readable(c, req) <==>
              MutateStringList(PrintAll(c, was), req).Some? &&
              ParseAll(c, MutateStringList(PrintAll(c, was), req).value).Some?
  {
    var shown := PrintAll(c, was);
    forall values { GivesExact(req, values); }
    if MutationStringValues(req).Some? {
      var values := MutationStringValues(req).value;
      var texts := MutateStringList(shown, req).value;
      MutateStringListMeaning(shown, req);
      ListRead(c, texts);
      assert forall s :: s in shown ==> c.read(s).Some?;
      assert Gives(req, values);
    }
  }

  /** The texts of the named list alone decide whether a mutated policy can be read. */
  ghost predicate ReadsBack<K>(c: Codec<K>, shown: seq<string>, req: MutationRequest) {
    MutateStringList(shown, req).Some? && ParseAll(c, MutateStringList(shown, req).value).Some?
  }

  ghost predicate AllRead(net: Net, a: ApiRules) {
    && ParseAll(MarkCodec(), a.marks).Some? && ParseAll(PortCodec(), a.ports).Some?
    && ParseAll(V4HostCodec(net), a.v4Hosts).Some? && ParseAll(V6HostCodec(net), a.v6Hosts).Some?
    && ParseAll(V4PairCodec(net), a.v4Pairs).Some? && ParseAll(V6PairCodec(net), a.v6Pairs).Some?
  }

  lemma StoredReads(net: Net, r: AllowRules)
    requires LawfulNet(net) && Expressible(r)
    ensures AllRead(net, PrintRules(net, r))
  {
    RulesRoundTrip(net, r);
  }

  ghost predicate ReadsField(net: Net, a: ApiRules, field: string, req: MutationRequest) {
    MutateApiField(a, field, req).Some? && ParseRules(net, MutateApiField(a, field, req).value).Some?
  }

  lemma SixRead(net: Net, a: ApiRules)
    ensures ParseRules(net, a).Some? <==> AllRead(net, a)
  {
  }

  ghost predicate NamedReadsBack(net: Net, a: ApiRules, field: string, req: MutationRequest) {
    match field
    case "allowed_marks" => ReadsBack(MarkCodec(), a.marks, req)
    case "allowed_ports" => ReadsBack(PortCodec(), a.ports, req)
    case "allowed_v4_hosts" => ReadsBack(V4HostCodec(net), a.v4Hosts, req)
    case "allowed_v6_hosts" => ReadsBack(V6HostCodec(net), a.v6Hosts, req)
    case "allowed_v4_hostports" => ReadsBack(V4PairCodec(net), a.v4Pairs, req)
    case "allowed_v6_hostports" => ReadsBack(V6PairCodec(net), a.v6Pairs, req)
    case _ => false
  }

  lemma FieldTexts(a: ApiRules, field: string, req: MutationRequest)
    ensures MutateApiField(a, field, req) ==
            match field
            case "allowed_marks" =>
              (match MutateStringList(a.marks, req) case None => None case Some(s) => Some(a.(marks := s)))
            case "allowed_ports" =>
              (match MutateStringList(a.ports, req) case None => None case Some(s) => Some(a.(ports := s)))
            case "allowed_v4_hosts" =>
              (match MutateStringList(a.v4Hosts, req) case None => None case Some(s) => Some(a.(v4Hosts := s)))
            case "allowed_v6_hosts" =>
              (match MutateStringList(a.v6Hosts, req) case None => None case Some(s) => Some(a.(v6Hosts := s)))
            case "allowed_v4_hostports" =>
              (match MutateStringList(a.v4Pairs, req) case None => None case Some(s) => Some(a.(v4Pairs := s)))
            case "allowed_v6_hostports" =>
              (match MutateStringList(a.v6Pairs, req) case None => None case Some(s) => Some(a.(v6Pairs := s)))
            case _ => None
  {
  }

  lemma NamedListDecides(net: Net, a: ApiRules, field: string, req: MutationRequest)
    requires AllRead(net, a)
    ensures ReadsField(net, a, field, req) <==> NamedReadsBack(net, a, field, req)
  {
    FieldTexts(a, field, req);
    if MutateApiField(a, field, req).Some? {
      SixRead(net, MutateApiField(a, field, req).value);
    }
  }

  ghost predicate ReadableAsTexts(net: Net, a: ApiRules, req: MutationRequest) {
    && (Readable(MarkCodec(), req) <==> ReadsBack(MarkCodec(), a.marks, req))
    && (Readable(PortCodec(), req) <==> ReadsBack(PortCodec(), a.ports, req))
    && (Readable(V4HostCodec(net), req) <==> ReadsBack(V4HostCodec(net), a.v4Hosts, req))
    && (Readable(V6HostCodec(net), req) <==> ReadsBack(V6HostCodec(net), a.v6Hosts, req))
    && (Readable(V4PairCodec(net), req) <==> ReadsBack(V4PairCodec(net), a.v4Pairs, req))
    && (Readable(V6PairCodec(net), req) <==> ReadsBack(V6PairCodec(net), a.v6Pairs, req))
  }

  lemma NamedListAccepts(net: Net, a: ApiRules, field: string, req: MutationRequest)
    requires AllRead(net, a) && ReadableAsTexts(net, a, req)
    requires field !in {"allow_all", "enable_v4", "enable_v6"}
    ensures ReadsField(net, a, field, req) <==> PolicyFieldAccepts(net, field, req)
  {
    NamedListDecides(net, a, field, req);
  }

  lemma ReadableFields(net: Net, r: AllowRules, req: MutationRequest)
    requires LawfulNet(net) && Expressible(r) && req.op != OtherOp
    ensures ReadableAsTexts(net, PrintRules(net, r), req)
  {
    StoredSurvives(net, r);
    ReadableExact(MarkCodec(), r.marks, req);
    ReadableExact(PortCodec(), r.ports, req);
    ReadableExact(V4HostCodec(net), r.v4Hosts, req);
    ReadableExact(V6HostCodec(net), r.v6Hosts, req);
    ReadableExact(V4PairCodec(net), r.v4Pairs, req);
    ReadableExact(V6PairCodec(net), r.v6Pairs, req);
  }

  /** When a field of a policy accepts the request. */
  ghost predicate PolicyFieldAccepts(net: Net, field: string, req: MutationRequest) {
    match field
    case "allow_all" => exists b :: GivesBool(req, b)
    case "enable_v4" => exists b :: GivesBool(req, b)
    case "enable_v6" => exists b :: GivesBool(req, b)
    case "allowed_marks" => Readable(MarkCodec(), req)
    case "allowed_ports" => Readable(PortCodec(), req)
    case "allowed_v4_hosts" => Readable(V4HostCodec(net), req)
    case "allowed_v6_hosts" => Readable(V6HostCodec(net), req)
    case "allowed_v4_hostports" => Readable(V4PairCodec(net), req)
    case "allowed_v6_hostports" => Readable(V6PairCodec(net), req)
    case _ => false
  }

  /** What a field of a policy then holds, everything else being as it was. */
  ghost predicate PolicyFieldEffect(net: Net, r: AllowRules, n: AllowRules, field: string, req: MutationRequest) {
    match field
    case "allow_all" => GivesBool(req, n.allowAll) && n == r.(allowAll := n.allowAll)
    case "enable_v4" => GivesBool(req, n.enableV4) && n == r.(enableV4 := n.enableV4)
    case "enable_v6" => GivesBool(req, n.enableV6) && n == r.(enableV6 := n.enableV6)
    case "allowed_marks" => n == r.(marks := n.marks) && RuleListMeaning(MarkCodec(), r.marks, n.marks, req)
    case "allowed_ports" => n == r.(ports := n.ports) && RuleListMeaning(PortCodec(), r.ports, n.ports, req)
    case "allowed_v4_hosts" => n == r.(v4Hosts := n.v4Hosts) &&
      RuleListMeaning(V4HostCodec(net), r.v4Hosts, n.v4Hosts, req)
    case "allowed_v6_hosts" => n == r.(v6Hosts := n.v6Hosts) &&
      RuleListMeaning(V6HostCodec(net), r.v6Hosts, n.v6Hosts, req)
    case "allowed_v4_hostports" => n == r.(v4Pairs := n.v4Pairs) &&
      RuleListMeaning(V4PairCodec(net), r.v4Pairs, n.v4Pairs, req)
    case "allowed_v6_hostports" => n == r.(v6Pairs := n.v6Pairs) &&
      RuleListMeaning(V6PairCodec(net), r.v6Pairs, n.v6Pairs, req)
    case _ => false
  }

  lemma PolicyFieldAcceptance(net: Net, r: AllowRules, field: string, req: MutationRequest)
    requires LawfulNet(net) && Expressible(r) && req.op != OtherOp
    ensures MutateAllowRulesField(net, r, field, req).Some? <==> PolicyFieldAccepts(net, field, req)
  {
    if field in {"allow_all", "enable_v4", "enable_v6"} {
      BoolExact(req);
    } else {
      ListFieldAcceptance(net, r, field, req);
    }
  }

  lemma ListFieldAcceptance(net: Net, r: AllowRules, field: string, req: MutationRequest)
    requires LawfulNet(net) && Expressible(r) && req.op != OtherOp
    requires field !in {"allow_all", "enable_v4", "enable_v6"}
    ensures MutateAllowRulesField(net, r, field, req).Some? <==> PolicyFieldAccepts(net, field, req)
  {
    var a := PrintRules(net, r);
    StoredReads(net, r);
    ReadableFields(net, r, req);
    NamedListAccepts(net, a, field, req);
    assert MutateAllowRulesField(net, r, field, req).Some? <==> ReadsField(net, a, field, req);
  }

  lemma PolicyFieldChange(net: Net, r: AllowRules, field: string, req: MutationRequest)
    requires LawfulNet(net) && Expressible(r) && MutateAllowRulesField(net, r, field, req).Some?
    ensures PolicyFieldEffect(net, r, MutateAllowRulesField(net, r, field, req).value, field, req)
  {
    if field in {"allow_all", "enable_v4", "enable_v6"} {
      BoolExact(req);
    } else {
      ListFieldChange(net, r, MutateAllowRulesField(net, r, field, req).value, field, req);
    }
  }

  lemma ListFieldChange(net: Net, r: AllowRules, n: AllowRules, field: string, req: MutationRequest)
    requires LawfulNet(net) && Expressible(r) && MutateAllowRulesField(net, r, field, req) == Some(n)
    requires field !in {"allow_all", "enable_v4", "enable_v6"}
    ensures PolicyFieldEffect(net, r, n, field, req)
  {
    FieldMutationIsLocal(net, r, field, req);
    OnlyNamedDiffers(r, n, field);
    FieldMutationMeaning(net, r, field, req);
    ListFieldNamed(net, r, field, req);
  }

  /** With five lists and the flags as they were, only the named list can differ. */
  lemma OnlyNamedDiffers(r: AllowRules, n: AllowRules, field: string)
    requires SameButField(r, n, field)
    ensures match field
            case "allowed_marks" => n == r.(marks := n.marks)
            case "allowed_ports" => n == r.(ports := n.ports)
            case "allowed_v4_hosts" => n == r.(v4Hosts := n.v4Hosts)
            case "allowed_v6_hosts" => n == r.(v6Hosts := n.v6Hosts)
            case "allowed_v4_hostports" => n == r.(v4Pairs := n.v4Pairs)
            case "allowed_v6_hostports" => n == r.(v6Pairs := n.v6Pairs)
            case _ => true
  {
  }

  lemma ListFieldNamed(net: Net, r: AllowRules, field: string, req: MutationRequest)
    requires field !in {"allow_all", "enable_v4", "enable_v6"} && MutateAllowRulesField(net, r, field, req).Some?
    ensures field in {"allowed_marks", "allowed_ports", "allowed_v4_hosts", "allowed_v6_hosts",
                      "allowed_v4_hostports", "allowed_v6_hostports"}
  {
  }

  /** A field of the base policy: when the request is accepted, and what it changes. */
  lemma BasePolicyRequest(fx: Foreign, o: Options, req: MutationRequest, field: string)
    requires Lawful(fx) && WellFormedOptions(fx, o) && req.op != OtherOp && req.target == "base_policy." + field
    ensures MutateOptions(fx, o, req).Some? <==> PolicyFieldAccepts(fx.net, field, req)
    ensures MutateOptions(fx, o, req).Some? ==>
              var n := MutateOptions(fx, o, req).value;
              n == o.(base := n.base) && PolicyFieldEffect(fx.net, o.base, n.base, field, req)
  {
    BaseStep(fx, o, req, field);
    PolicyFieldAcceptance(fx.net, o.base, field, req);
    if MutateAllowRulesField(fx.net, o.base, field, req).Some? {
      PolicyFieldChange(fx.net, o.base, field, req);
    }
  }

  /** The whole base policy: only a set, and only of a policy that can be read. */
  lemma WholeBasePolicyRequest(fx: Foreign, o: Options, req: MutationRequest)
    requires HasIncludeSelector(o) && req.target == "base_policy"
    ensures MutateOptions(fx, o, req).Some? <==>
              req.op == Set && exists p :: GivesPolicy(req, p) && ParseRules(fx.net, p).Some?
    ensures MutateOptions(fx, o, req).Some? ==>
              var n := MutateOptions(fx, o, req).value;
              n == o.(base := n.base) && exists p :: GivesPolicy(req, p) && ParseRules(fx.net, p) == Some(n.base)
  {
    ExactTargets();
    assert req.target[0] == 'b';
    if req.op != OtherOp { ExactStep(fx, o, req); }
    if req.policy.Some? {
      assert GivesPolicy(req, req.policy.value);
    } else if req.value.Raw? && req.value.policy.Some? {
      assert GivesPolicy(req, req.value.policy.value);
    }
  }

  // ---------- selectors ----------

  ghost predicate HasValues(req: MutationRequest) {
    exists values :: Gives(req, values)
  }

  /** What a list of strings still holds after the request. */
  ghost predicate Remains(was: seq<string>, req: MutationRequest, x: string) {
    exists values :: Gives(req, values) &&
                     match req.op
                     case Add => x in was || x in values
                     case Remove => x in was && x !in values
                     case Set => x in values
                     case OtherOp => false
  }

  lemma RemainsExact(was: seq<string>, req: MutationRequest, x: string)
    requires req.op != OtherOp
    ensures HasValues(req) <==> MutateStringList(was, req).Some?
    ensures HasValues(req) ==> (Remains(was, req, x) <==> x in MutateStringList(was, req).value)
  {
    forall values { GivesExact(req, values); }
    if MutationStringValues(req).Some? {
      assert Gives(req, MutationStringValues(req).value);
      MutateStringListMeaning(was, req);
    }
  }

  ghost predicate SomeRemains(was: seq<string>, req: MutationRequest) {
    exists x :: Remains(was, req, x)
  }

  ghost predicate RemainingCompile(fx: Foreign, was: seq<string>, req: MutationRequest) {
    forall x :: Remains(was, req, x) ==> fx.re.compiles(x)
  }

  lemma ListRequest(fx: Foreign, was: seq<string>, req: MutationRequest)
    requires req.op != OtherOp
    ensures HasValues(req) <==> MutateStringList(was, req).Some?
    ensures HasValues(req) ==>
              var now := MutateStringList(was, req).value;
              && ListMeaning(was, now, req) && (now != [] <==> SomeRemains(was, req))
              && (AllCompile(fx.re, now) <==> RemainingCompile(fx, was, req))
  {
    RemainsExact(was, req, "");
    if HasValues(req) {
      var now := MutateStringList(was, req).value;
      MutateStringListMeaning(was, req);
      forall x ensures Remains(was, req, x) <==> x in now { RemainsExact(was, req, x); }
      if now != [] { assert Remains(was, req, now[0]); }
    }
  }

  /** The three selectors of the interfaces to govern: accepted while one selector is
      left and every pattern compiles. */
  lemma InterfaceTypesRequest(fx: Foreign, o: Options, req: MutationRequest)
    requires req.op != OtherOp && req.target == "interface_types"
    ensures MutateOptions(fx, o, req).Some? <==>
              HasValues(req) && (SomeRemains(o.types, req) || o.names != [] || o.regexps != [])
    ensures MutateOptions(fx, o, req).Some? ==>
              var n := MutateOptions(fx, o, req).value;
              n == o.(types := n.types) && ListMeaning(o.types, n.types, req)
  {
    ExactTargets();
    ExactStep(fx, o, req);
    ListRequest(fx, o.types, req);
  }

  lemma InterfaceNamesRequest(fx: Foreign, o: Options, req: MutationRequest)
    requires req.op != OtherOp && req.target == "interface_names"
    ensures MutateOptions(fx, o, req).Some? <==>
              HasValues(req) && (o.types != [] || SomeRemains(o.names, req) || o.regexps != [])
    ensures MutateOptions(fx, o, req).Some? ==>
              var n := MutateOptions(fx, o, req).value;
              n == o.(names := n.names) && ListMeaning(o.names, n.names, req)
  {
    ExactTargets();
    ExactStep(fx, o, req);
    ListRequest(fx, o.names, req);
  }

  lemma InterfaceRegexpsRequest(fx: Foreign, o: Options, req: MutationRequest)
    requires req.op != OtherOp && req.target == "interface_regexps"
    ensures MutateOptions(fx, o, req).Some? <==>
              HasValues(req) && RemainingCompile(fx, o.regexps, req) &&
              (o.types != [] || o.names != [] || SomeRemains(o.regexps, req))
    ensures MutateOptions(fx, o, req).Some? ==>
              var n := MutateOptions(fx, o, req).value;
              n == o.(regexps := n.regexps) && ListMeaning(o.regexps, n.regexps, req)
  {
    ExactTargets();
    ExactStep(fx, o, req);
    ListRequest(fx, o.regexps, req);
  }

  /** The three selectors of the interfaces to leave alone. */
  lemma IgnoredTypesRequest(fx: Foreign, o: Options, req: MutationRequest)
    requires HasIncludeSelector(o) && req.op != OtherOp && req.target == "ignored_interface_types"
    ensures MutateOptions(fx, o, req).Some? <==> HasValues(req)
    ensures MutateOptions(fx, o, req).Some? ==>
              var n := MutateOptions(fx, o, req).value;
              n == o.(ignoredTypes := n.ignoredTypes) && ListMeaning(o.ignoredTypes, n.ignoredTypes, req)
  {
    ExactTargets();
    ExactStep(fx, o, req);
    ListRequest(fx, o.ignoredTypes, req);
  }

  lemma IgnoredNamesRequest(fx: Foreign, o: Options, req: MutationRequest)
    requires HasIncludeSelector(o) && req.op != OtherOp && req.target == "ignored_interface_names"
    ensures MutateOptions(fx, o, req).Some? <==> HasValues(req)
    ensures MutateOptions(fx, o, req).Some? ==>
              var n := MutateOptions(fx, o, req).value;
              n == o.(ignoredNames := n.ignoredNames) && ListMeaning(o.ignoredNames, n.ignoredNames, req)
  {
    ExactTargets();
    ExactStep(fx, o, req);
    ListRequest(fx, o.ignoredNames, req);
  }

  lemma IgnoredRegexpsRequest(fx: Foreign, o: Options, req: MutationRequest)
    requires HasIncludeSelector(o) && req.op != OtherOp && req.target == "ignored_interface_regexps"
    ensures MutateOptions(fx, o, req).Some? <==> HasValues(req) && RemainingCompile(fx, o.ignoredRegexps, req)
    ensures MutateOptions(fx, o, req).Some? ==>
              var n := MutateOptions(fx, o, req).value;
              n == o.(ignoredRegexps := n.ignoredRegexps) && ListMeaning(o.ignoredRegexps, n.ignoredRegexps, req)
  {
    ExactTargets();
    ExactStep(fx, o, req);
    ListRequest(fx, o.ignoredRegexps, req);
  }

  // ---------- whole rulesets ----------

  /** The ruleset a definition describes, when it can be read. */
  ghost predicate Describes(fx: Foreign, name: string, d: ApiRuleset, r: Ruleset) {
    && r.name == name && r.disabled == d.disabled && r.matchAll == d.matchAll
    && TriggerFromConfig(fx, d.trigger) == Some(r.trigger) && ParseRules(fx.net, d.policy) == Some(r.rules)
  }

  /** `n` has exactly the rulesets of `o` under other names, and those in `put`. */
  ghost predicate Puts(o: Options, n: Options, name: string, put: set<Ruleset>) {
    && n == o.(rulesets := n.rulesets) && NamesIncreasing(n.rulesets)
    && forall x :: x in n.rulesets <==> x in put || (x in o.rulesets && x.name != name)
  }

  lemma RulesetFromApiExact(fx: Foreign, req: MutationRequest, r: Ruleset)
    ensures RulesetFromApi(fx, req.ruleset, req.rulesetDef, req.value) == Some(r) <==>
              exists d :: GivesRuleset(req, d) && Describes(fx, req.ruleset, d, r)
  {
    if req.rulesetDef.Some? {
      assert GivesRuleset(req, req.rulesetDef.value);
    } else if req.value.Raw? && req.value.rulesetDef.Some? {
      assert GivesRuleset(req, req.value.rulesetDef.value);
    }
  }

  ghost predicate Exists(o: Options, name: string) {
    exists k :: 0 <= k < |o.rulesets| && o.rulesets[k].name == name
  }

  ghost predicate Describable(fx: Foreign, req: MutationRequest) {
    exists d, r :: GivesRuleset(req, d) && Describes(fx, req.ruleset, d, r)
  }

  lemma DescribableExact(fx: Foreign, req: MutationRequest)
    ensures Describable(fx, req) <==> RulesetFromApi(fx, req.ruleset, req.rulesetDef, req.value).Some?
  {
    var made := RulesetFromApi(fx, req.ruleset, req.rulesetDef, req.value);
    if made.Some? { RulesetFromApiExact(fx, req, made.value); }
    forall d, r | GivesRuleset(req, d) && Describes(fx, req.ruleset, d, r) ensures made == Some(r) {
      RulesetFromApiExact(fx, req, r);
    }
  }

  lemma RemoveRulesetRequest(fx: Foreign, o: Options, req: MutationRequest)
    requires Lawful(fx) && WellFormedOptions(fx, o) && req.op == Remove && req.target == "ruleset"
    ensures MutateOptions(fx, o, req).Some? <==> req.ruleset != ""
    ensures MutateOptions(fx, o, req).Some? ==> Puts(o, MutateOptions(fx, o, req).value, req.ruleset, {})
  {
    ExactTargets();
    ExactStep(fx, o, req);
    if MutateOptions(fx, o, req).Some? {
      MutationKeepsWellFormed(fx, o, req);
      IncreasingDistinct(o.rulesets);
      forall x { RemoveMeaning(o.rulesets, req.ruleset, x); }
    }
  }

  lemma PutStep(fx: Foreign, o: Options, req: MutationRequest)
    requires HasIncludeSelector(o) && (req.op == Add || req.op == Set) && req.target == "ruleset"
    ensures var r := RulesetFromApi(fx, req.ruleset, req.rulesetDef, req.value);
            MutateOptions(fx, o, req) ==
            if req.ruleset == "" || r.None? || (req.op == Add && FirstNamed(o.rulesets, req.ruleset) >= 0) then None
            else Some(o.(rulesets := UpsertRuleset(o.rulesets, r.value)))
  {
    ExactTargets();
    ExactStep(fx, o, req);
  }

  lemma UpsertPuts(fx: Foreign, o: Options, req: MutationRequest, r: Ruleset)
    requires Lawful(fx) && WellFormedOptions(fx, o) && req.ruleset != ""
    requires RulesetFromApi(fx, req.ruleset, req.rulesetDef, req.value) == Some(r)
    ensures Puts(o, o.(rulesets := UpsertRuleset(o.rulesets, r)), req.ruleset, {r})
  {
    RulesetFromApiGood(fx, req.ruleset, req.rulesetDef, req.value);
    UpsertGood(fx, o.rulesets, r);
    IncreasingDistinct(o.rulesets);
    forall x { UpsertMeaning(o.rulesets, r, x); }
  }

  /** A ruleset is added only under a new name, and set under any; either way it is
      the one the request describes, and no other ruleset changes. */
  lemma PutRulesetRequest(fx: Foreign, o: Options, req: MutationRequest)
    requires Lawful(fx) && WellFormedOptions(fx, o) && (req.op == Add || req.op == Set) && req.target == "ruleset"
    ensures MutateOptions(fx, o, req).Some? <==>
              req.ruleset != "" && Describable(fx, req) && (req.op == Add ==> !Exists(o, req.ruleset))
    ensures MutateOptions(fx, o, req).Some? ==>
              exists d, r :: GivesRuleset(req, d) && Describes(fx, req.ruleset, d, r) &&
                             Puts(o, MutateOptions(fx, o, req).value, req.ruleset, {r})
  {
    PutStep(fx, o, req);
    DescribableExact(fx, req);
    if MutateOptions(fx, o, req).Some? {
      var r := RulesetFromApi(fx, req.ruleset, req.rulesetDef, req.value).value;
      UpsertPuts(fx, o, req, r);
      RulesetFromApiExact(fx, req, r);
    }
  }

  // ---------- fields of one ruleset ----------

  /** `r` is the ruleset of that name. */
  ghost predicate IsNamed(o: Options, name: string, r: Ruleset) {
    r in o.rulesets && r.name == name
  }

  lemma NamedFound(fx: Foreign, o: Options, name: string, r: Ruleset)
    requires WellFormedOptions(fx, o) && IsNamed(o, name, r)
    ensures var idx := FirstNamed(o.rulesets, name);
            idx >= 0 && o.rulesets[idx] == r && name != "" && GoodRuleset(fx, r)
  {
    IncreasingDistinct(o.rulesets);
    var k :| 0 <= k < |o.rulesets| && o.rulesets[k] == r;
  }

  lemma NamedGood(fx: Foreign, o: Options, name: string, r: Ruleset)
    requires WellFormedOptions(fx, o) && IsNamed(o, name, r)
    ensures PredicateCount(r.trigger) > 0 && AllCompile(fx.re, r.trigger.regexps)
    ensures NormalTrigger(fx, r.trigger) && Expressible(r.rules)
  {
    NamedFound(fx, o, name, r);
  }

  lemma RulesetFieldStep(fx: Foreign, o: Options, req: MutationRequest, field: string)
    requires HasIncludeSelector(o) && req.op != OtherOp && req.target == "ruleset." + field
    ensures MutateOptions(fx, o, req) ==
            match MutateRulesetField(fx, o.rulesets, field, req)
            case None => None
            case Some(s) => Some(o.(rulesets := s))
  {
    RulesetTarget(req.target, field);
    ExactStep(fx, o, req);
  }

  lemma RulesetFieldPuts(fx: Foreign, o: Options, req: MutationRequest, field: string, q: Ruleset)
    requires Lawful(fx) && WellFormedOptions(fx, o) && MutateRulesetField(fx, o.rulesets, field, req).Some?
    requires MutateRuleset(fx, o.rulesets[FirstNamed(o.rulesets, req.ruleset)], field, req) == Some(q)
    ensures Puts(o, o.(rulesets := MutateRulesetField(fx, o.rulesets, field, req).value), req.ruleset, {q})
  {
    IncreasingDistinct(o.rulesets);
    RulesetFieldGood(fx, o.rulesets, field, req);
    forall x { RulesetFieldMeaning(fx, o.rulesets, field, req, x); }
  }

  /** A field request changes at most the ruleset it names, and leaves it a trigger. */
  lemma RulesetStep(fx: Foreign, o: Options, req: MutationRequest, field: string, r: Ruleset)
    requires Lawful(fx) && WellFormedOptions(fx, o) && req.op != OtherOp && req.target == "ruleset." + field
    requires IsNamed(o, req.ruleset, r)
    ensures var q := MutateRuleset(fx, r, field, req);
            && (MutateOptions(fx, o, req).Some? <==> q.Some? && PredicateCount(q.value.trigger) > 0)
            && (MutateOptions(fx, o, req).Some? ==>
                  Puts(o, MutateOptions(fx, o, req).value, req.ruleset, {q.value}))
  {
    NamedFound(fx, o, req.ruleset, r);
    RulesetFieldStep(fx, o, req, field);
    if MutateRulesetField(fx, o.rulesets, field, req).Some? {
      RulesetFieldPuts(fx, o, req, field, MutateRuleset(fx, r, field, req).value);
    }
  }

  /** No ruleset of that name: every field request is refused. */
  lemma RulesetMissing(fx: Foreign, o: Options, req: MutationRequest, field: string)
    requires req.target == "ruleset." + field && !Exists(o, req.ruleset)
    ensures MutateOptions(fx, o, req).None?
  {
    RulesetTarget(req.target, field);
    if req.op != OtherOp { ExactStep(fx, o, req); }
  }

  lemma FlagFields(fx: Foreign, r: Ruleset, req: MutationRequest)
    ensures MutateRuleset(fx, r, "disabled", req) ==
            match MutateBool(req) case None => None case Some(b) => Some(r.(disabled := b))
    ensures MutateRuleset(fx, r, "match_all", req) ==
            match MutateBool(req) case None => None case Some(b) => Some(r.(matchAll := b))
  {
  }

  /** The two flags of a ruleset. */
  lemma DisabledRequest(fx: Foreign, o: Options, req: MutationRequest, r: Ruleset)
    requires Lawful(fx) && WellFormedOptions(fx, o) && req.op != OtherOp && IsNamed(o, req.ruleset, r)
    requires req.target == "ruleset.disabled"
    ensures MutateOptions(fx, o, req).Some? <==> exists b :: GivesBool(req, b)
    ensures forall b :: GivesBool(req, b) ==>
                          Puts(o, MutateOptions(fx, o, req).value, req.ruleset, {r.(disabled := b)})
  {
    NamedGood(fx, o, req.ruleset, r);
    BoolExact(req);
    FlagFields(fx, r, req);
    RulesetStep(fx, o, req, "disabled", r);
  }

  lemma MatchAllRequest(fx: Foreign, o: Options, req: MutationRequest, r: Ruleset)
    requires Lawful(fx) && WellFormedOptions(fx, o) && req.op != OtherOp && IsNamed(o, req.ruleset, r)
    requires req.target == "ruleset.match_all"
    ensures MutateOptions(fx, o, req).Some? <==> exists b :: GivesBool(req, b)
    ensures forall b :: GivesBool(req, b) ==>
                          Puts(o, MutateOptions(fx, o, req).value, req.ruleset, {r.(matchAll := b)})
  {
    NamedGood(fx, o, req.ruleset, r);
    BoolExact(req);
    FlagFields(fx, r, req);
    RulesetStep(fx, o, req, "match_all", r);
  }

  lemma PolicyFieldOf(fx: Foreign, r: Ruleset, field: string, req: MutationRequest)
    ensures MutateRuleset(fx, r, "policy." + field, req) ==
            match MutateAllowRulesField(fx.net, r.rules, field, req)
            case None => None
            case Some(p) => Some(r.(rules := p))
  {
    var whole := "policy." + field;
    assert whole[0] == 'p' && whole[|"policy."|..] == field;
  }

  /** A field of a ruleset's policy: when the request is accepted, and what it changes. */
  lemma RulesetPolicyRequest(fx: Foreign, o: Options, req: MutationRequest, field: string, r: Ruleset)
    requires Lawful(fx) && WellFormedOptions(fx, o) && req.op != OtherOp && IsNamed(o, req.ruleset, r)
    requires req.target == "ruleset.policy." + field
    ensures MutateOptions(fx, o, req).Some? <==> PolicyFieldAccepts(fx.net, field, req)
    ensures MutateOptions(fx, o, req).Some? ==>
              exists p :: PolicyFieldEffect(fx.net, r.rules, p, field, req) &&
                          Puts(o, MutateOptions(fx, o, req).value, req.ruleset, {r.(rules := p)})
  {
    NamedGood(fx, o, req.ruleset, r);
    assert req.target == "ruleset." + ("policy." + field);
    RulesetStep(fx, o, req, "policy." + field, r);
    PolicyFieldOf(fx, r, field, req);
    PolicyFieldAcceptance(fx.net, r.rules, field, req);
    if MutateAllowRulesField(fx.net, r.rules, field, req).Some? {
      PolicyFieldChange(fx.net, r.rules, field, req);
    }
  }

  // ---------- fields of a trigger ----------

  /** The other lists of the trigger have an entry, or this one is left one. */
  ghost predicate EntryLeft(others: Trigger, shown: seq<string>, req: MutationRequest) {
    PredicateCount(others) > 0 || SomeRemains(shown, req)
  }

  /** When a field of a trigger accepts the request. */
  ghost predicate TriggerFieldAccepts(fx: Foreign, t: Trigger, field: string, req: MutationRequest) {
    match field
    case "trigger.interface_types" => HasValues(req) && EntryLeft(t.(types := []), t.types, req)
    case "trigger.interface_names" => HasValues(req) && EntryLeft(t.(names := []), t.names, req)
    case "trigger.interface_regexps" =>
      HasValues(req) && RemainingCompile(fx, t.regexps, req) && EntryLeft(t.(regexps := []), t.regexps, req)
    case "trigger.ip_addrs" =>
      Readable(AddrCodec(fx), req) && EntryLeft(t.(addrs := []), PrintAll(AddrCodec(fx), t.addrs), req)
    case "trigger.ssids" => HasValues(req) && EntryLeft(t.(ssids := []), t.ssids, req)
    case "trigger.bssids" => Readable(MacCodec(fx), req) && EntryLeft(t.(bssids := []), t.bssids, req)
    case "trigger.gateway_macs" =>
      Readable(MacCodec(fx), req) && EntryLeft(t.(gatewayMacs := []), t.gatewayMacs, req)
    case _ => false
  }

  lemma ReadableHasValues<K>(fx: Foreign, c: Codec<K>, was: seq<K>, req: MutationRequest)
    requires Survive(c, was) && req.op != OtherOp
    ensures Readable(c, req) <==> ReadsBack(c, PrintAll(c, was), req)
    ensures ReadsBack(c, PrintAll(c, was), req) ==>
              (ParseAll(c, MutateStringList(PrintAll(c, was), req).value).value != [] <==>
               SomeRemains(PrintAll(c, was), req))
  {
    ReadableExact(c, was, req);
    ListRequest(fx, PrintAll(c, was), req);
    if ReadsBack(c, PrintAll(c, was), req) {
      ParseAllElements(c, MutateStringList(PrintAll(c, was), req).value);
    }
  }

  lemma MacsRequest(fx: Foreign, was: seq<string>, req: MutationRequest)
    requires Lawful(fx) && NormalMacs(fx, was) && req.op != OtherOp
    ensures MutateMacList(fx, was, req).Some? <==> Readable(MacCodec(fx), req)
    ensures MutateMacList(fx, was, req).Some? ==>
              (MutateMacList(fx, was, req).value != [] <==> SomeRemains(was, req))
  {
    assert PrintAll(MacCodec(fx), was) == was;
    ReadableHasValues(fx, MacCodec(fx), was, req);
    if MutateMacList(fx, was, req).Some? {
      var parsed := ParseAll(MacCodec(fx), MutateStringList(was, req).value).value;
      StringLessTotal();
      CanonIncreasing(StringLess, parsed);
      if parsed != [] { assert parsed[0] in Canon(StringLess, parsed); }
    }
  }

  lemma AddrsRequest(fx: Foreign, t: Trigger, req: MutationRequest)
    requires Lawful(fx) && AllCompile(fx.re, t.regexps) && NormalTrigger(fx, t) && req.op != OtherOp
    ensures MutateTriggerField(fx, t, "trigger.ip_addrs", req).Some? <==>
              Readable(AddrCodec(fx), req) && EntryLeft(t.(addrs := []), PrintAll(AddrCodec(fx), t.addrs), req)
  {
    NormalStays(fx, t.bssids);
    NormalStays(fx, t.gatewayMacs);
    ReadableHasValues(fx, AddrCodec(fx), t.addrs, req);
  }

  lemma StringFieldAcceptance(fx: Foreign, t: Trigger, field: string, req: MutationRequest)
    requires req.op != OtherOp
    requires field in {"trigger.interface_types", "trigger.interface_names", "trigger.interface_regexps",
                       "trigger.ssids"}
    ensures var q := MutateTriggerField(fx, t, field, req);
            q.Some? && PredicateCount(q.value) > 0 <==> TriggerFieldAccepts(fx, t, field, req)
  {
    match field
    case "trigger.interface_types" => ListRequest(fx, t.types, req);
    case "trigger.interface_names" => ListRequest(fx, t.names, req);
    case "trigger.interface_regexps" => ListRequest(fx, t.regexps, req);
    case "trigger.ssids" => ListRequest(fx, t.ssids, req);
  }

  lemma AddressFieldAcceptance(fx: Foreign, t: Trigger, field: string, req: MutationRequest)
    requires Lawful(fx) && AllCompile(fx.re, t.regexps) && NormalTrigger(fx, t) && req.op != OtherOp
    requires field in {"trigger.ip_addrs", "trigger.bssids", "trigger.gateway_macs"}
    ensures var q := MutateTriggerField(fx, t, field, req);
            q.Some? && PredicateCount(q.value) > 0 <==> TriggerFieldAccepts(fx, t, field, req)
  {
    match field
    case "trigger.ip_addrs" => AddrsRequest(fx, t, req);
    case "trigger.bssids" => MacsRequest(fx, t.bssids, req);
    case "trigger.gateway_macs" => MacsRequest(fx, t.gatewayMacs, req);
  }

  lemma TriggerFieldAcceptance(fx: Foreign, t: Trigger, field: string, req: MutationRequest)
    requires Lawful(fx) && AllCompile(fx.re, t.regexps) && NormalTrigger(fx, t) && req.op != OtherOp
    ensures var q := MutateTriggerField(fx, t, field, req);
            q.Some? && PredicateCount(q.value) > 0 <==> TriggerFieldAccepts(fx, t, field, req)
  {
    if field in {"trigger.interface_types", "trigger.interface_names", "trigger.interface_regexps", "trigger.ssids"} {
      StringFieldAcceptance(fx, t, field, req);
    } else if field in {"trigger.ip_addrs", "trigger.bssids", "trigger.gateway_macs"} {
      AddressFieldAcceptance(fx, t, field, req);
    }
  }

  lemma TriggerFieldOf(fx: Foreign, r: Ruleset, field: string, req: MutationRequest)
    requires field != "disabled" && field != "match_all" && !("policy." <= field)
    ensures MutateRuleset(fx, r, field, req) ==
            match MutateTriggerField(fx, r.trigger, field, req)
            case None => None
            case Some(t) => Some(r.(trigger := t))
  {
  }

  /** A field of a ruleset's trigger: when the request is accepted, and what it
      changes. A field of no such name is refused. */
  lemma TriggerRequest(fx: Foreign, o: Options, req: MutationRequest, field: string, r: Ruleset)
    requires Lawful(fx) && WellFormedOptions(fx, o) && req.op != OtherOp && IsNamed(o, req.ruleset, r)
    requires req.target == "ruleset." + field
    requires field != "disabled" && field != "match_all" && !("policy." <= field)
    ensures MutateOptions(fx, o, req).Some? <==> TriggerFieldAccepts(fx, r.trigger, field, req)
    ensures MutateOptions(fx, o, req).Some? ==>
              exists t :: TriggerFieldEffect(fx, r.trigger, t, field, req) &&
                          Puts(o, MutateOptions(fx, o, req).value, req.ruleset, {r.(trigger := t)})
  {
    NamedGood(fx, o, req.ruleset, r);
    RulesetStep(fx, o, req, field, r);
    TriggerFieldOf(fx, r, field, req);
    TriggerFieldAcceptance(fx, r.trigger, field, req);
    if MutateTriggerField(fx, r.trigger, field, req).Some? {
      TriggerFieldMeaning(fx, r.trigger, field, req);
    }
  }

  /** Every other target is refused, and so is any operation but the three. */
  lemma OtherwiseRefused(fx: Foreign, o: Options, req: MutationRequest)
    requires
      || req.op == OtherOp
      || (!("base_policy." <= req.target) && !("ruleset." <= req.target) &&
          req.target !in {"interface_types", "interface_names", "interface_regexps", "ignored_interface_types",
                          "ignored_interface_names", "ignored_interface_regexps", "base_policy", "ruleset"})
    ensures MutateOptions(fx, o, req).None?
  {
  }

  // ---------- loading ----------

  /** A ruleset's match text: "and" asks for every entry, "or" and nothing leave it to
      the flag. */
  predicate MatchSays(text: string, flag: bool, matchAll: bool) {
    || (text == "" && matchAll == flag)
    || (|text| == 2 && text[0] in {'o', 'O'} && text[1] in {'r', 'R'} && matchAll == flag)
    || (|text| == 3 && text[0] in {'a', 'A'} && text[1] in {'n', 'N'} && text[2] in {'d', 'D'} && matchAll)
  }

  lemma MatchTextExact(c: RulesetConfig, matchAll: bool)
    ensures ParseRulesetMatch(c) == Some(matchAll) <==> MatchSays(c.matchText, c.matchAll, matchAll)
  {
    var text := c.matchText;
    if |text| == 2 { assert ToLower(text) == [Lower(text[0]), Lower(text[1])]; }
    if |text| == 3 { assert ToLower(text) == [Lower(text[0]), Lower(text[1]), Lower(text[2])]; }
  }

  lemma MacListRead(fx: Foreign, macs: seq<string>)
    ensures NormalizeMacList(fx, macs).Some? <==> forall s :: s in macs ==> fx.parseMac(s).Some?
    ensures NormalizeMacList(fx, macs).Some? ==> (NormalizeMacList(fx, macs).value == [] <==> macs == [])
  {
    ParseAllElements(MacCodec(fx), macs);
    if NormalizeMacList(fx, macs).Some? {
      var parsed := ParseAll(MacCodec(fx), macs).value;
      StringLessTotal();
      CanonIncreasing(StringLess, parsed);
      if parsed != [] { assert parsed[0] in Canon(StringLess, parsed); }
    }
  }

  /** A trigger is loaded exactly when its patterns compile, its addresses can be read
      and it has an entry. */
  lemma TriggerLoads(fx: Foreign, t: ApiTrigger)
    ensures TriggerFromConfig(fx, t).Some? <==>
              && (forall p :: p in t.regexps ==> fx.re.compiles(p))
              && (forall s :: s in t.ipAddrs ==> ParseAddr(fx.net, s).Some?)
              && (forall s :: s in t.bssids ==> fx.parseMac(s).Some?)
              && (forall s :: s in t.gatewayMacs ==> fx.parseMac(s).Some?)
              && (t.types != [] || t.names != [] || t.regexps != [] || t.ipAddrs != [] || t.ssids != [] ||
                  t.bssids != [] || t.gatewayMacs != [])
  {
    ParseAllElements(AddrCodec(fx), t.ipAddrs);
    MacListRead(fx, t.bssids);
    MacListRead(fx, t.gatewayMacs);
  }

  /** A ruleset is loaded exactly as its section says. */
  lemma RulesetLoads(fx: Foreign, name: string, c: RulesetConfig, r: Ruleset)
    ensures RulesetFromConfig(fx, name, c) == Some(r) <==>
              && r.name == name && r.disabled == c.disabled && MatchSays(c.matchText, c.matchAll, r.matchAll)
              && TriggerFromConfig(fx, c.trigger) == Some(r.trigger) && ParseRules(fx.net, c.policy) == Some(r.rules)
  {
    MatchTextExact(c, r.matchAll);
    if RulesetFromConfig(fx, name, c).Some? { MatchTextExact(c, RulesetFromConfig(fx, name, c).value.matchAll); }
  }
}
