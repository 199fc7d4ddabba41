/** What the daemon as a whole promises, from its options, grants and proxy report to
    the octets of a frame (cmd/killswitch/effective_policy.go:27-96, 379-428,
    cmd/killswitch/policy_manager.go:171-219, cmd/killswitch/killswitch.c:376-564). */
module Outcomes {
  import opened Words
  import opened Rules
  import opened Frames
  import opened Filter
  import opened Effective
  import opened Force
  import opened Config
  import opened Decisions
  import opened PolicyManagers
  import opened Daemons
  import opened Octets

  /** Everyone whose rules count on an interface, each said from the stored state. */
  ghost predicate HasSay(re: Regexp, n: Inputs, x: Interface, c: AllowRules) {
    || c == n.opts.base
    || (exists rs :: rs in n.opts.rulesets && TriggeredBy(re, x, rs) && c == rs.rules)
    || (exists rs, o :: rs in n.opts.rulesets && CountOf(n.forced, rs.name, o, x.name) > 0 && c == rs.rules)
    || (exists o :: o in n.tmp && x.name in n.tmp[o].interfaces && c == n.tmp[o].rules)
    || (n.proxy.running && c == AllowRules(false, false, false, [n.proxy.fwMark], [], [], [], [], []))
  }

  /** An enabled ruleset whose trigger is true of the interface. */
  ghost predicate TriggeredBy(re: Regexp, x: Interface, rs: Ruleset) {
    !rs.disabled && if rs.matchAll then EveryEntryTrue(re, x, rs.trigger) else SomeEntryTrue(re, x, rs.trigger)
  }

  lemma TriggeredExact(re: Regexp, x: Interface, rs: Ruleset)
    ensures Active(re, x, rs) <==> TriggeredBy(re, x, rs)
  {
    OrInWords(re, x, rs.trigger);
    AndInWords(re, x, rs.trigger);
  }

  lemma NamedOnce(s: seq<Ruleset>, rs: Ruleset)
    requires NamesDistinct(s) && rs in s
    ensures FirstNamed(s, rs.name) >= 0 && s[FirstNamed(s, rs.name)] == rs
  {
    var k :| 0 <= k < |s| && s[k] == rs;
  }

  lemma ForcedSay(n: Inputs, x: Interface, c: AllowRules)
    requires NamesDistinct(n.opts.rulesets)
    ensures ForceContributes(n, x, c) <==>
              exists rs, o :: rs in n.opts.rulesets && CountOf(n.forced, rs.name, o, x.name) > 0 && c == rs.rules
  {
    forall rs | rs in n.opts.rulesets { NamedOnce(n.opts.rulesets, rs); }
  }

  /** Those are exactly the contributors. */
  lemma SayExact(re: Regexp, n: Inputs, x: Interface, c: AllowRules)
    requires NamesDistinct(n.opts.rulesets)
    ensures ContributesTo(re, n, x, c) <==> HasSay(re, n, x, c)
  {
    ForcedSay(n, x, c);
    forall rs ensures Active(re, x, rs) <==> TriggeredBy(re, x, rs) { TriggeredExact(re, x, rs); }
  }

  /** Someone allows everything; or the frame has a bootstrap form; or someone enables
      its family and someone, perhaps another, lists one of the keys it spells. */
  ghost predicate LetOut(re: Regexp, n: Inputs, x: Interface, mark: u32, d: Bytes) {
    || (exists c :: HasSay(re, n, x, c) && c.allowAll)
    || BootstrapForm(d)
    || (Ip4Form(d) && (exists c :: HasSay(re, n, x, c) && c.enableV4) &&
        (exists c :: HasSay(re, n, x, c) && Admitted4(e => Lists(c, e), mark, d)))
    || (Ip6Form(d) && (exists c :: HasSay(re, n, x, c) && c.enableV6) &&
        (exists c :: HasSay(re, n, x, c) && Admitted6(e => Lists(c, e), mark, d)))
  }

  lemma NamedInOctets(c: AllowRules, mark: u32, d: Bytes)
    ensures Ip4Form(d) ==>
              PacketOf(d).Some? && PacketOf(d).value.Ip4? &&
              (NamedBy(c, mark, PacketOf(d).value) <==> Admitted4(e => Lists(c, e), mark, d))
    ensures Ip6Form(d) ==>
              PacketOf(d).Some? && PacketOf(d).value.Ip6? &&
              (NamedBy(c, mark, PacketOf(d).value) <==> Admitted6(e => Lists(c, e), mark, d))
  {
    EntriesByTable(c);
    FoundIp4(d);
    FoundIp6(d);
    if Ip4Form(d) {
      NamedByExact(c, mark, PacketOf(d).value);
      ListedIp4(Entries(c), e => Lists(c, e), mark, d);
    }
    if Ip6Form(d) {
      NamedByExact(c, mark, PacketOf(d).value);
      ListedIp6(Entries(c), e => Lists(c, e), mark, d);
    }
  }

  /** The one frame that spells `d` decides for the grammar. */
  lemma TogetherByParse(re: Regexp, n: Inputs, x: Interface, mark: u32, d: Bytes)
    ensures TogetherDecide(re, n, x, mark, d) <==>
              || (exists c :: ContributesTo(re, n, x, c) && c.allowAll)
              || IsBootstrap(d)
              || (PacketOf(d).Some? && TogetherAllow(re, n, x, mark, PacketOf(d).value))
  {
    if Parse(d).Some? { ParseSound(d); }
    forall f: Frame | WellFormed(f) && Encode(f) == d ensures Parse(d) == Some(f) { ParseComplete(f); }
  }

  lemma AllowInOctets(re: Regexp, n: Inputs, x: Interface, mark: u32, d: Bytes)
    ensures PacketOf(d).Some? && TogetherAllow(re, n, x, mark, PacketOf(d).value) <==>
              || (Ip4Form(d) && (exists c :: ContributesTo(re, n, x, c) && c.enableV4) &&
                  (exists c :: ContributesTo(re, n, x, c) && Admitted4(e => Lists(c, e), mark, d)))
              || (Ip6Form(d) && (exists c :: ContributesTo(re, n, x, c) && c.enableV6) &&
                  (exists c :: ContributesTo(re, n, x, c) && Admitted6(e => Lists(c, e), mark, d)))
  {
    FoundIp4(d);
    FoundIp6(d);
    forall c { NamedInOctets(c, mark, d); }
  }

  lemma OutcomeExact(re: Regexp, n: Inputs, x: Interface, mark: u32, d: Bytes)
    requires NamesDistinct(n.opts.rulesets)
    ensures TogetherDecide(re, n, x, mark, d) <==> LetOut(re, n, x, mark, d)
  {
    TogetherByParse(re, n, x, mark, d);
    AllowInOctets(re, n, x, mark, d);
    BootstrapInOctets(d);
    forall c ensures ContributesTo(re, n, x, c) <==> HasSay(re, n, x, c) { SayExact(re, n, x, c); }
  }

  /** The fate of every octet string on a governed interface once the listing's policy
      is in force, whatever the options, grants and proxy report are. */
  lemma GovernedOutcome(daemon: Daemon, listing: Option<seq<Interface>>, x: Interface, mark: u32, d: Bytes)
    requires daemon.Valid() && daemon.InForce(listing) && daemon.Governed(listing, x)
    ensures daemon.Passes(x.index, mark, d) <==>
              LetOut(daemon.policies.fx.re, daemon.policies.InputsNow(), x, mark, d)
  {
    daemon.GovernedFate(listing, x.index, mark, d);
    IncreasingDistinct(daemon.policies.opts.rulesets);
    OutcomeExact(daemon.policies.fx.re, daemon.policies.InputsNow(), x, mark, d);
  }

  /** On an attached interface the listing does not govern the four forms pass, and
      nothing else. */
  lemma UngovernedOutcome(daemon: Daemon, listing: Option<seq<Interface>>, i: u32, mark: u32, d: Bytes)
    requires daemon.Valid() && daemon.InForce(listing) && i in daemon.egress.attached
    requires forall x :: daemon.Governed(listing, x) ==> x.index != i
    ensures daemon.Passes(i, mark, d) <==> BootstrapForm(d)
  {
    daemon.GovernedFate(listing, i, mark, d);
    BootstrapInOctets(d);
  }
}
