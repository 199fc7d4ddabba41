/** The kernel policy tables and the code that rewrites them one fallible map
    operation at a time (cmd/killswitch/bpf_maps.go:19-203). */
module Kernel {
  import opened Words
  import opened Rules
  import opened Filter

  datatype Table = Marks | Ports | V4Hosts | V6Hosts | V4Hostports | V6Hostports

  const TABLES: seq<Table> := [Marks, Ports, V4Hosts, V6Hosts, V4Hostports, V6Hostports]

  function TableOf(e: Entry): Table {
    match e
    case Mark(_) => Marks
    case Port(_) => Ports
    case V4Host(_) => V4Hosts
    case V6Host(_) => V6Hosts
    case V4Pair(_) => V4Hostports
    case V6Pair(_) => V6Hostports
  }

  /** The entries a rule set puts into one table, in list order. */
  function TableEntries(r: AllowRules, table: Table): seq<Entry> {
    match table
    case Marks => seq(|r.marks|, i requires 0 <= i < |r.marks| => Mark(r.marks[i]))
    case Ports => seq(|r.ports|, i requires 0 <= i < |r.ports| => Port(r.ports[i]))
    case V4Hosts => seq(|r.v4Hosts|, i requires 0 <= i < |r.v4Hosts| => V4Host(r.v4Hosts[i]))
    case V6Hosts => seq(|r.v6Hosts|, i requires 0 <= i < |r.v6Hosts| => V6Host(r.v6Hosts[i]))
    case V4Hostports => seq(|r.v4Pairs|, i requires 0 <= i < |r.v4Pairs| => V4Pair(r.v4Pairs[i]))
    case V6Hostports => seq(|r.v6Pairs|, i requires 0 <= i < |r.v6Pairs| => V6Pair(r.v6Pairs[i]))
  }

  lemma TableEntriesExact(r: AllowRules, e: Entry, table: Table)
    ensures e in TableEntries(r, table) <==> TableOf(e) == table && e in Entries(r)
  {
    EntriesByTable(r);
    var s := TableEntries(r, table);
    if TableOf(e) == table && Lists(r, e) {
      match e
      case Mark(x) => var i :| 0 <= i < |r.marks| && r.marks[i] == x; assert s[i] == e;
      case Port(x) => var i :| 0 <= i < |r.ports| && r.ports[i] == x; assert s[i] == e;
      case V4Host(x) => var i :| 0 <= i < |r.v4Hosts| && r.v4Hosts[i] == x; assert s[i] == e;
      case V6Host(x) => var i :| 0 <= i < |r.v6Hosts| && r.v6Hosts[i] == x; assert s[i] == e;
      case V4Pair(x) => var i :| 0 <= i < |r.v4Pairs| && r.v4Pairs[i] == x; assert s[i] == e;
      case V6Pair(x) => var i :| 0 <= i < |r.v6Pairs| && r.v6Pairs[i] == x; assert s[i] == e;
    }
  }

  function BoolByte(b: bool): byte {
    if b then 1 else 0
  }

  function ConfigOf(r: AllowRules): RuntimeConfig {
    RuntimeConfig(BoolByte(r.allowAll), BoolByte(r.enableV4), BoolByte(r.enableV6))
  }

  // ---------- what tables say about one interface ----------

  ghost predicate SameAt(s: Tables, t: Tables, i: u32) {
    && (i in s.config <==> i in t.config)
    && (i in s.config ==> s.config[i] == t.config[i])
    && (forall e :: Key(i, e) in s.allowed <==> Key(i, e) in t.allowed)
  }

  ghost predicate EmptyAt(t: Tables, i: u32) {
    i !in t.config && forall e :: Key(i, e) !in t.allowed
  }

  /** The seven tables encode exactly the rules `r` for interface `i`. */
  ghost predicate EncodesAt(t: Tables, i: u32, r: AllowRules) {
    && i in t.config && t.config[i] == ConfigOf(r)
    && (forall e :: Key(i, e) in t.allowed <==> e in Entries(r))
  }

  ghost predicate SameElsewhere(s: Tables, t: Tables, i: u32) {
    forall j: u32 :: j != i ==> SameAt(s, t, j)
  }

  /** The tables that encode a whole policy map: what wiping everything and
      writing every interface afresh would leave. */
  ghost function EncodeAll(policies: map<u32, AllowRules>): Tables {
    Tables(map i | i in policies :: ConfigOf(policies[i]),
           set i, e | i in policies && e in Entries(policies[i]) :: Key(i, e))
  }

  ghost predicate Represents(t: Tables, policies: map<u32, AllowRules>) {
    forall i: u32 :: if i in policies then EncodesAt(t, i, policies[i]) else EmptyAt(t, i)
  }

  lemma EncodeAllRepresents(policies: map<u32, AllowRules>)
    ensures Represents(EncodeAll(policies), policies)
  {
  }

  lemma SameEverywhere(s: Tables, t: Tables)
    requires forall i: u32 :: SameAt(s, t, i)
    ensures s == t
  {
    assert s.config == t.config by {
      assert forall i: u32 :: SameAt(s, t, i) ==> (i in s.config <==> i in t.config);
    }
    forall k ensures k in s.allowed <==> k in t.allowed {
      assert SameAt(s, t, k.ifindex) && k == Key(k.ifindex, k.entry);
    }
  }

  /** Tables representing a policy map are the naive encoding of it. */
  lemma RepresentsIsEncodeAll(t: Tables, policies: map<u32, AllowRules>)
    ensures Represents(t, policies) <==> t == EncodeAll(policies)
  {
    EncodeAllRepresents(policies);
    if Represents(t, policies) {
      forall i: u32 ensures SameAt(t, EncodeAll(policies), i) {
        assert i in policies ==> EncodesAt(t, i, policies[i]) && EncodesAt(EncodeAll(policies), i, policies[i]);
        assert i !in policies ==> EmptyAt(t, i) && EmptyAt(EncodeAll(policies), i);
      }
      SameEverywhere(t, EncodeAll(policies));
    }
  }

  /** Rules that `allowRulesEqual` identifies write the same tables. */
  lemma EqualRulesEncodeAlike(t: Tables, i: u32, a: AllowRules, b: AllowRules)
    requires EncodesAt(t, i, a)
    ensures EncodesAt(t, i, b) <==> SameFlags(a, b) && Entries(a) == Entries(b)
  {
  }

  /** How the filter sees an interface whose tables encode `r`. */
  ghost function RulesView(r: AllowRules): View {
    View(Some(ConfigOf(r)), Entries(r))
  }

  lemma EncodesAtView(t: Tables, i: u32, r: AllowRules)
    ensures EncodesAt(t, i, r) <==> ViewOf(t, i) == RulesView(r)
  {
  }

  lemma SameAtView(s: Tables, t: Tables, i: u32)
    requires SameAt(s, t, i)
    ensures ViewOf(s, i) == ViewOf(t, i)
  {
  }

  // ---------- the tables as the daemon changes them ----------

  /** Interface `i` is closed and no other interface has changed since `before`. */
  ghost predicate ClosedAt(before: Tables, t: Tables, i: u32) {
    SameElsewhere(before, t, i) && i !in t.config
  }

  /** Interface `i` is closed, or untouched since `before`. */
  ghost predicate ClosedOrKept(before: Tables, t: Tables, i: u32) {
    SameElsewhere(before, t, i) && (i !in t.config || SameAt(before, t, i))
  }

  /** Interface `i` is closed, or untouched since `before`, or completely rewritten. */
  ghost predicate ClosedKeptOrWritten(before: Tables, t: Tables, i: u32, r: AllowRules) {
    SameElsewhere(before, t, i) && (i !in t.config || SameAt(before, t, i) || EncodesAt(t, i, r))
  }

  ghost predicate ClosedDuring(trace: seq<Tables>, from: nat, before: Tables, i: u32) {
    forall k :: from <= k < |trace| ==> ClosedAt(before, trace[k], i)
  }

  /** An operation on keys of interface `i` alone. */
  lemma LocalOperation(s: Tables, t: Tables, i: u32)
    requires s.config - {i} == t.config - {i}
    requires forall k: Key :: k.ifindex != i ==> (k in s.allowed <==> k in t.allowed)
    ensures SameElsewhere(s, t, i)
  {
    forall j: u32 | j != i ensures SameAt(s, t, j) {
      assert j in s.config <==> j in s.config - {i};
      assert j in t.config <==> j in t.config - {i};
      assert j in s.config ==> s.config[j] == (s.config - {i})[j];
      assert j in t.config ==> t.config[j] == (t.config - {i})[j];
    }
  }

  lemma SameElsewhereTransitive(a: Tables, b: Tables, c: Tables, i: u32)
    requires SameElsewhere(a, b, i) && SameElsewhere(b, c, i)
    ensures SameElsewhere(a, c, i)
  {
    forall j: u32 | j != i ensures SameAt(a, c, j) {
      assert SameAt(a, b, j) && SameAt(b, c, j);
      forall e ensures Key(j, e) in a.allowed <==> Key(j, e) in c.allowed {
        assert Key(j, e) in b.allowed <==> Key(j, e) in a.allowed;
      }
    }
  }

  lemma ClosedDuringSince(trace: seq<Tables>, from: nat, a: Tables, b: Tables, i: u32)
    requires SameElsewhere(a, b, i) && ClosedDuring(trace, from, b, i)
    ensures ClosedDuring(trace, from, a, i)
  {
    forall k | from <= k < |trace| ensures ClosedAt(a, trace[k], i) {
      assert ClosedAt(b, trace[k], i);
      SameElsewhereTransitive(a, b, trace[k], i);
    }
  }

  lemma ClosedDuringJoin(earlier: seq<Tables>, trace: seq<Tables>, from: nat, before: Tables, i: u32)
    requires earlier <= trace && from <= |earlier|
    requires ClosedDuring(earlier, from, before, i) && ClosedDuring(trace, |earlier|, before, i)
    ensures ClosedDuring(trace, from, before, i)
  {
  }

  /** One more closing operation in a run of them. */
  lemma ClosedDuringStep(trace: seq<Tables>, from: nat, before: Tables, s: Tables, t: Tables, i: u32)
    requires ClosedDuring(trace, from, before, i) && from <= |trace|
    requires SameElsewhere(before, s, i) && SameElsewhere(s, t, i) && i !in t.config
    ensures ClosedDuring(trace + [t], from, before, i) && SameElsewhere(before, t, i)
  {
    SameElsewhereTransitive(before, s, t, i);
  }

  /** `allowRulesEqual` as a relation. */
  ghost predicate EqualRules(a: AllowRules, b: AllowRules) {
    SameFlags(a, b) && Entries(a) == Entries(b)
  }

  /** At interface `j` a packet meets the old policy, the new policy, or a closed door. */
  ghost predicate SafeAt(before: Tables, t: Tables, j: u32, next: map<u32, AllowRules>) {
    j !in t.config || SameAt(before, t, j) || (j in next && EncodesAt(t, j, next[j]))
  }

  ghost predicate Safe(before: Tables, t: Tables, next: map<u32, AllowRules>) {
    forall j: u32 :: SafeAt(before, t, j, next)
  }

  ghost predicate SafeDuring(trace: seq<Tables>, from: nat, before: Tables, next: map<u32, AllowRules>) {
    forall k :: from <= k < |trace| ==> Safe(before, trace[k], next)
  }

  lemma SameAtTransitive(a: Tables, b: Tables, c: Tables, i: u32)
    requires SameAt(a, b, i) && SameAt(b, c, i)
    ensures SameAt(a, c, i)
  {
  }

  lemma EncodesAtTransfer(s: Tables, t: Tables, i: u32, r: AllowRules)
    requires SameAt(s, t, i) && EncodesAt(s, i, r)
    ensures EncodesAt(t, i, r)
  {
  }

  /** A safe state stays safe while one still untouched interface is rewritten. */
  lemma SafeStep(before: Tables, s: Tables, t: Tables, i: u32, next: map<u32, AllowRules>)
    requires Safe(before, s, next) && SameAt(before, s, i) && SameElsewhere(s, t, i)
    requires i !in t.config || SameAt(s, t, i) || (i in next && EncodesAt(t, i, next[i]))
    ensures Safe(before, t, next)
  {
    forall j: u32 ensures SafeAt(before, t, j, next) {
      if SameAt(s, t, j) {
        assert SafeAt(before, s, j, next);
        if SameAt(before, s, j) {
          SameAtTransitive(before, s, t, j);
        } else if j in s.config {
          EncodesAtTransfer(s, t, j, next[j]);
        }
      }
    }
  }

  lemma SafeDuringJoin(earlier: seq<Tables>, trace: seq<Tables>, from: nat, before: Tables, s: Tables, i: u32,
                       next: map<u32, AllowRules>)
    requires earlier <= trace && from <= |earlier| && SafeDuring(earlier, from, before, next)
    requires Safe(before, s, next) && SameAt(before, s, i)
    requires forall k :: |earlier| <= k < |trace| ==>
               SameElsewhere(s, trace[k], i) &&
               (i !in trace[k].config || SameAt(s, trace[k], i) || (i in next && EncodesAt(trace[k], i, next[i])))
    ensures SafeDuring(trace, from, before, next)
  {
    forall k | from <= k < |trace| ensures Safe(before, trace[k], next) {
      if k < |earlier| {
        assert trace[k] == earlier[k];
      } else {
        SafeStep(before, s, trace[k], i, next);
      }
    }
  }

  /** Interface `j` once `writeEffectivePolicies` has dealt with it. */
  ghost predicate SettledAt(before: Tables, t: Tables, j: u32, current: map<u32, AllowRules>,
                            next: map<u32, AllowRules>) {
    if j in next then
      if j in current && EqualRules(current[j], next[j]) then SameAt(before, t, j) else EncodesAt(t, j, next[j])
    else if j in current then EmptyAt(t, j)
    else SameAt(before, t, j)
  }

  ghost predicate Settled(before: Tables, t: Tables, todo: set<u32>, current: map<u32, AllowRules>,
                          next: map<u32, AllowRules>) {
    forall j: u32 :: if j in todo then SameAt(before, t, j) else SettledAt(before, t, j, current, next)
  }

  lemma SettledStep(before: Tables, s: Tables, t: Tables, todo: set<u32>, i: u32, current: map<u32, AllowRules>,
                    next: map<u32, AllowRules>)
    requires Settled(before, s, todo + {i}, current, next) && SameElsewhere(s, t, i)
    requires SettledAt(before, t, i, current, next) && i !in todo
    ensures Settled(before, t, todo, current, next)
  {
    forall j: u32 ensures if j in todo then SameAt(before, t, j) else SettledAt(before, t, j, current, next) {
      if j != i {
        assert SameAt(s, t, j);
        assert j in todo <==> j in todo + {i};
        if SameAt(before, s, j) {
          SameAtTransitive(before, s, t, j);
        }
        if j in next && EncodesAt(s, j, next[j]) {
          EncodesAtTransfer(s, t, j, next[j]);
        }
      }
    }
  }

  lemma SettledInitially(t: Tables, pending: set<u32>, current: map<u32, AllowRules>, next: map<u32, AllowRules>)
    requires forall i :: i in current || i in next ==> i in pending
    ensures Settled(t, t, pending, current, next) && Safe(t, t, next)
  {
  }

  /** The update has no business with interface `j`: its rules stay the same, or it
      has none before and after. */
  ghost predicate Untouched(j: u32, current: map<u32, AllowRules>, next: map<u32, AllowRules>) {
    if j in next then j in current && EqualRules(current[j], next[j]) else j !in current
  }

  /** Every interface the update leaves alone is already as it should be. */
  ghost predicate UntouchedRight(t: Tables, current: map<u32, AllowRules>, next: map<u32, AllowRules>) {
    forall j: u32 :: Untouched(j, current, next) ==> if j in next then EncodesAt(t, j, next[j]) else EmptyAt(t, j)
  }

  ghost predicate UntouchedKept(before: Tables, t: Tables, current: map<u32, AllowRules>, next: map<u32, AllowRules>) {
    forall j: u32 :: Untouched(j, current, next) ==> SameAt(before, t, j)
  }

  lemma UntouchedStep(before: Tables, s: Tables, t: Tables, i: u32, current: map<u32, AllowRules>,
                      next: map<u32, AllowRules>)
    requires UntouchedKept(before, s, current, next) && SameElsewhere(s, t, i) && !Untouched(i, current, next)
    ensures UntouchedKept(before, t, current, next)
  {
    forall j: u32 | Untouched(j, current, next) ensures SameAt(before, t, j) {
      SameAtTransitive(before, s, t, j);
    }
  }

  lemma EmptyAtTransfer(s: Tables, t: Tables, i: u32)
    requires SameAt(s, t, i)
    ensures EmptyAt(s, i) <==> EmptyAt(t, i)
  {
  }

  /** What a successful update means whatever went before it: the tables represent
      the new policy exactly when every interface it left alone was right already. */
  lemma SettledExact(before: Tables, t: Tables, current: map<u32, AllowRules>, next: map<u32, AllowRules>)
    requires Settled(before, t, {}, current, next)
    ensures Represents(t, next) <==> UntouchedRight(before, current, next)
  {
    forall j: u32
      ensures !Untouched(j, current, next) ==> if j in next then EncodesAt(t, j, next[j]) else EmptyAt(t, j)
      ensures Untouched(j, current, next) && j in next ==> (EncodesAt(before, j, next[j]) <==> EncodesAt(t, j, next[j]))
      ensures Untouched(j, current, next) && j !in next ==> (EmptyAt(before, j) <==> EmptyAt(t, j))
    {
      assert SettledAt(before, t, j, current, next);
      if Untouched(j, current, next) {
        EmptyAtTransfer(before, t, j);
      }
    }
  }

  /** Starting from tables that represent `current`, settling every interface
      leaves exactly the tables that represent `next`. */
  lemma SettledRepresents(before: Tables, t: Tables, current: map<u32, AllowRules>, next: map<u32, AllowRules>)
    requires Represents(before, current) && Settled(before, t, {}, current, next)
    ensures Represents(t, next)
  {
    RepresentingIsRight(before, current, next);
    SettledExact(before, t, current, next);
  }

  lemma RepresentingIsRight(t: Tables, current: map<u32, AllowRules>, next: map<u32, AllowRules>)
    requires Represents(t, current)
    ensures UntouchedRight(t, current, next)
  {
    forall j: u32 | Untouched(j, current, next) ensures if j in next then EncodesAt(t, j, next[j]) else EmptyAt(t, j) {
      assert if j in current then EncodesAt(t, j, current[j]) else EmptyAt(t, j);
      if j in next {
        EqualRulesEncodeAlike(t, j, current[j], next[j]);
      }
    }
  }

  /** Trying again repairs: when failed attempts at `next` started from tables that
      represent `current`, a successful attempt at the same `next` represents it. */
  lemma RetryRepairs(start: Tables, before: Tables, t: Tables, current: map<u32, AllowRules>,
                     next: map<u32, AllowRules>)
    requires Represents(start, current) && UntouchedKept(start, before, current, next)
    requires Settled(before, t, {}, current, next)
    ensures Represents(t, next)
  {
    RepresentingIsRight(start, current, next);
    forall j: u32 | Untouched(j, current, next)
      ensures if j in next then EncodesAt(before, j, next[j]) else EmptyAt(before, j)
    {
      EmptyAtTransfer(start, before, j);
    }
    SettledExact(before, t, current, next);
  }

  // ---------- where trying something else does not repair ----------

  const SHUT: AllowRules := AllowRules(false, false, false, [], [], [], [], [], [])
  const OPEN: AllowRules := AllowRules(true, false, false, [], [], [], [], [], [])

  /** Interfaces 1 and 2 under one rule set. */
  function Both(r: AllowRules): map<u32, AllowRules> {
    map[1 := r, 2 := r]
  }

  /** The configurations of interfaces 1 and 2, and nothing listed. */
  function Configured(one: AllowRules, two: AllowRules): Tables {
    Tables(map[1 := ConfigOf(one), 2 := ConfigOf(two)], {})
  }

  lemma NothingListed()
    ensures Entries(SHUT) == {} && Entries(OPEN) == {}
  {
  }

  lemma BothShut()
    ensures Represents(Configured(SHUT, SHUT), Both(SHUT))
    ensures UntouchedKept(Configured(SHUT, SHUT), Configured(OPEN, SHUT), Both(SHUT), Both(OPEN))
  {
    NothingListed();
  }

  /** Interface 2 as before, interface 1 closed. */
  lemma HalfClosed()
    ensures Safe(Configured(SHUT, SHUT), Tables(map[2 := ConfigOf(SHUT)], {}), Both(OPEN))
  {
  }

  /** Interface 2 as before, interface 1 open under its new rules. */
  lemma HalfWritten()
    ensures Safe(Configured(SHUT, SHUT), Configured(OPEN, SHUT), Both(OPEN))
  {
    NothingListed();
    assert EncodesAt(Configured(OPEN, SHUT), 1, OPEN);
  }

  lemma StillOpen()
    ensures var t3 := Configured(OPEN, SHUT);
            Settled(t3, t3, {}, Both(SHUT), Both(SHUT)) && !Represents(t3, Both(SHUT))
  {
    assert !EncodesAt(Configured(OPEN, SHUT), 1, Both(SHUT)[1]);
  }

  /** A reverted change can go stale. From tables for `Both(SHUT)`, an update to
      `Both(OPEN)` deletes and writes interface 1's configuration and then fails to
      delete interface 2's. Going back to `Both(SHUT)` succeeds without an operation,
      and interface 1 stays open to everything. */
  lemma StaleAfterRevert()
    ensures var run := [Configured(SHUT, SHUT), Tables(map[2 := ConfigOf(SHUT)], {}), Configured(OPEN, SHUT),
                        Configured(OPEN, SHUT)];
            && Represents(run[0], Both(SHUT))
            && run[1] == run[0].(config := run[0].config - {1}) &&
               run[2] == run[1].(config := run[1].config[1 := ConfigOf(OPEN)])
            && SafeDuring(run, 1, run[0], Both(OPEN)) && UntouchedKept(run[0], run[3], Both(SHUT), Both(OPEN))
            && Settled(run[3], run[3], {}, Both(SHUT), Both(SHUT)) && !Represents(run[3], Both(SHUT))
            && forall mark: u32, data: Bytes :: Permits(ViewOf(run[3], 1), mark, data)
  {
    BothShut();
    HalfClosed();
    HalfWritten();
    StillOpen();
  }

  /** A withdrawn interface can stay behind. From empty tables, an update to
      `Both(OPEN)` writes interface 1 and fails on interface 2. Going back to no
      policy at all succeeds without an operation, and interface 1, now in neither
      policy, stays open to everything. */
  lemma OrphanAfterWithdrawal()
    ensures var run := [Tables(map[], {}), Tables(map[], {}), Tables(map[1 := ConfigOf(OPEN)], {}),
                        Tables(map[1 := ConfigOf(OPEN)], {})];
            && Represents(run[0], map[])
            && run[2] == run[1].(config := run[1].config[1 := ConfigOf(OPEN)])
            && SafeDuring(run, 1, run[0], Both(OPEN)) && UntouchedKept(run[0], run[3], map[], Both(OPEN))
            && Settled(run[3], run[3], {}, map[], map[]) && !Represents(run[3], map[])
            && forall mark: u32, data: Bytes :: Permits(ViewOf(run[3], 1), mark, data)
  {
    var t0, t3 := Tables(map[], {}), Tables(map[1 := ConfigOf(OPEN)], {});
    var run := [t0, t0, t3, t3];
    assert Entries(OPEN) == {};
    forall k | 1 <= k < |run| ensures Safe(t0, run[k], Both(OPEN)) {
      forall j: u32 ensures SafeAt(t0, run[k], j, Both(OPEN)) {
      }
    }
    assert !EmptyAt(t3, 1);
  }

  class PolicyTables {
    var config: map<u32, RuntimeConfig>
    var allowed: set<Key>

    /** The tables after every map operation so far, failed ones included. */
    ghost var trace: seq<Tables>
    ghost var failures: nat

    ghost function Now(): Tables
      reads this`config, this`allowed
    {
      Tables(config, allowed)
    }

    ghost predicate Valid()
      reads this`config, this`allowed, this`trace
    {
      |trace| > 0 && trace[|trace| - 1] == Now()
    }

    constructor ()
      ensures Valid() && Now() == Tables(map[], {}) && trace == [Now()] && failures == 0
    {
      config, allowed := map[], {};
      trace, failures := [Tables(map[], {})], 0;
    }

    // Each operation may fail, and then changes nothing.

    method DeleteConfig(i: u32) returns (ok: bool)
      modifies this
      ensures Valid() && trace == old(trace) + [Now()] && allowed == old(allowed)
      ensures config == if ok then old(config) - {i} else old(config)
      ensures failures == old(failures) + if ok then 0 else 1
    {
      ok := *;
      if ok {
        config := config - {i};
      } else {
        failures := failures + 1;
      }
      trace := trace + [Now()];
    }

    method UpdateConfig(i: u32, value: RuntimeConfig) returns (ok: bool)
      modifies this
      ensures Valid() && trace == old(trace) + [Now()] && allowed == old(allowed)
      ensures config == if ok then old(config)[i := value] else old(config)
      ensures failures == old(failures) + if ok then 0 else 1
    {
      ok := *;
      if ok {
        config := config[i := value];
      } else {
        failures := failures + 1;
      }
      trace := trace + [Now()];
    }

    method DeleteKey(k: Key) returns (ok: bool)
      modifies this
      ensures Valid() && trace == old(trace) + [Now()] && config == old(config)
      ensures allowed == if ok then old(allowed) - {k} else old(allowed)
      ensures failures == old(failures) + if ok then 0 else 1
    {
      ok := *;
      if ok {
        allowed := allowed - {k};
      } else {
        failures := failures + 1;
      }
      trace := trace + [Now()];
    }

    method UpdateKey(k: Key) returns (ok: bool)
      modifies this
      ensures Valid() && trace == old(trace) + [Now()] && config == old(config)
      ensures allowed == if ok then old(allowed) + {k} else old(allowed)
      ensures failures == old(failures) + if ok then 0 else 1
    {
      ok := *;
      if ok {
        allowed := allowed + {k};
      } else {
        failures := failures + 1;
      }
      trace := trace + [Now()];
    }

    /** `clearAllowedMapForInterface`: visit the keys of one table in any order and
        delete those of interface `i`; the iteration itself may fail. */
    method ClearAllowedMap(table: Table, i: u32) returns (ok: bool)
      requires Valid() && i !in config
      modifies this
      ensures Valid() && config == old(config) && old(trace) <= trace
      ensures ClosedDuring(trace, |old(trace)|, old(Now()), i)
      ensures SameElsewhere(old(Now()), Now(), i)
      ensures allowed <= old(allowed)
      ensures ok ==> forall e :: TableOf(e) == table ==> Key(i, e) !in allowed
      ensures failures >= old(failures) && (ok <==> failures == old(failures))
    {
      var todo := set k | k in allowed && TableOf(k.entry) == table;
      while todo != {}
        invariant Valid() && config == old(config) && failures == old(failures) && old(trace) <= trace
        invariant ClosedDuring(trace, |old(trace)|, old(Now()), i)
        invariant SameElsewhere(old(Now()), Now(), i)
        invariant allowed <= old(allowed)
        invariant forall e :: TableOf(e) == table && Key(i, e) in allowed ==> Key(i, e) in todo
        decreases |todo|
      {
        ghost var s := Now();
        if * {
          failures := failures + 1;
          ClosedDuringStep(trace, |old(trace)|, old(Now()), s, s, i);
          trace := trace + [Now()];
          return false;
        }
        var k :| k in todo;
        todo := todo - {k};
        if k.ifindex == i {
          ok := DeleteKey(k);
          LocalOperation(s, Now(), i);
          ClosedDuringStep(trace[..|trace| - 1], |old(trace)|, old(Now()), s, Now(), i);
          if !ok {
            return false;
          }
        }
      }
      return true;
    }

    /** The six allow tables of a closed interface, one after the other. */
    method ClearAllowlists(i: u32) returns (ok: bool)
      requires Valid() && i !in config
      modifies this
      ensures Valid() && config == old(config) && old(trace) <= trace
      ensures ClosedDuring(trace, |old(trace)|, old(Now()), i)
      ensures SameElsewhere(old(Now()), Now(), i)
      ensures ok ==> EmptyAt(Now(), i)
      ensures failures >= old(failures) && (ok <==> failures == old(failures))
    {
      for n := 0 to |TABLES|
        invariant Valid() && config == old(config) && failures == old(failures) && old(trace) <= trace
        invariant ClosedDuring(trace, |old(trace)|, old(Now()), i)
        invariant SameElsewhere(old(Now()), Now(), i)
        invariant forall e :: TableOf(e) in TABLES[..n] ==> Key(i, e) !in allowed
      {
        ghost var s, earlier := Now(), trace;
        ok := ClearAllowedMap(TABLES[n], i);
        ClosedDuringSince(trace, |earlier|, old(Now()), s, i);
        ClosedDuringJoin(earlier, trace, |old(trace)|, old(Now()), i);
        SameElsewhereTransitive(old(Now()), s, Now(), i);
        assert TABLES[..n + 1] == TABLES[..n] + [TABLES[n]];
        if !ok {
          return false;
        }
      }
      assert TABLES[..|TABLES|] == TABLES;
      assert forall e :: TableOf(e) in TABLES;
      return true;
    }

    /** `clearPolicyForInterface`: close the interface first, then empty its lists. */
    method ClearPolicyForInterface(i: u32) returns (ok: bool)
      requires Valid()
      modifies this
      ensures Valid() && old(trace) <= trace
      ensures forall k :: |old(trace)| <= k < |trace| ==> ClosedOrKept(old(Now()), trace[k], i)
      ensures ClosedOrKept(old(Now()), Now(), i)
      ensures ok ==> ClosedDuring(trace, |old(trace)|, old(Now()), i)
      ensures ok ==> EmptyAt(Now(), i)
      ensures failures >= old(failures) && (ok <==> failures == old(failures))
    {
      ok := DeleteConfig(i);
      if !ok {
        return false;
      }
      ghost var s, earlier := Now(), trace;
      LocalOperation(old(Now()), s, i);
      ok := ClearAllowlists(i);
      ClosedDuringSince(trace, |earlier|, old(Now()), s, i);
      ClosedDuringJoin(earlier, trace, |old(trace)|, old(Now()), i);
      SameElsewhereTransitive(old(Now()), s, Now(), i);
      assert forall k :: |old(trace)| <= k < |trace| ==> ClosedAt(old(Now()), trace[k], i);
    }

    /** `writeAllowedMap`. */
    method WriteAllowedMap(i: u32, entries: seq<Entry>) returns (ok: bool)
      requires Valid() && i !in config
      modifies this
      ensures Valid() && config == old(config) && old(trace) <= trace
      ensures ClosedDuring(trace, |old(trace)|, old(Now()), i)
      ensures SameElsewhere(old(Now()), Now(), i)
      ensures ok ==> forall e :: Key(i, e) in allowed <==> Key(i, e) in old(allowed) || e in entries
      ensures failures >= old(failures) && (ok <==> failures == old(failures))
    {
      for n := 0 to |entries|
        invariant Valid() && config == old(config) && failures == old(failures) && old(trace) <= trace
        invariant ClosedDuring(trace, |old(trace)|, old(Now()), i)
        invariant SameElsewhere(old(Now()), Now(), i)
        invariant forall e :: Key(i, e) in allowed <==> Key(i, e) in old(allowed) || e in entries[..n]
      {
        ghost var s := Now();
        assert entries[..n + 1] == entries[..n] + [entries[n]];
        ok := UpdateKey(Key(i, entries[n]));
        LocalOperation(s, Now(), i);
        ClosedDuringStep(trace[..|trace| - 1], |old(trace)|, old(Now()), s, Now(), i);
        if !ok {
          return false;
        }
      }
      assert entries[..|entries|] == entries;
      return true;
    }

    /** `writeAllowlists`: table by table, entry by entry, on a closed interface. */
    method WriteAllowlists(i: u32, rules: AllowRules) returns (ok: bool)
      requires Valid() && EmptyAt(Now(), i)
      modifies this
      ensures Valid() && config == old(config) && old(trace) <= trace
      ensures ClosedDuring(trace, |old(trace)|, old(Now()), i)
      ensures SameElsewhere(old(Now()), Now(), i)
      ensures ok ==> forall e :: Key(i, e) in allowed <==> e in Entries(rules)
      ensures failures >= old(failures) && (ok <==> failures == old(failures))
    {
      for n := 0 to |TABLES|
        invariant Valid() && config == old(config) && failures == old(failures) && old(trace) <= trace
        invariant ClosedDuring(trace, |old(trace)|, old(Now()), i)
        invariant SameElsewhere(old(Now()), Now(), i)
        invariant forall e :: Key(i, e) in allowed <==> e in Entries(rules) && TableOf(e) in TABLES[..n]
      {
        ghost var s, earlier := Now(), trace;
        ok := WriteAllowedMap(i, TableEntries(rules, TABLES[n]));
        ClosedDuringSince(trace, |earlier|, old(Now()), s, i);
        ClosedDuringJoin(earlier, trace, |old(trace)|, old(Now()), i);
        SameElsewhereTransitive(old(Now()), s, Now(), i);
        if !ok {
          return false;
        }
        assert TABLES[..n + 1] == TABLES[..n] + [TABLES[n]];
        forall e { TableEntriesExact(rules, e, TABLES[n]); }
      }
      assert TABLES[..|TABLES|] == TABLES;
      assert forall e :: TableOf(e) in TABLES;
      return true;
    }

    /** `writeEffectivePolicyForInterface`: the configuration entry, which opens the
        interface, is written last. */
    method WriteEffectivePolicyForInterface(i: u32, rules: AllowRules) returns (ok: bool)
      requires Valid()
      modifies this
      ensures Valid() && old(trace) <= trace
      ensures forall k :: |old(trace)| <= k < |trace| ==> ClosedKeptOrWritten(old(Now()), trace[k], i, rules)
      ensures ClosedKeptOrWritten(old(Now()), Now(), i, rules)
      ensures ok ==> EncodesAt(Now(), i, rules)
      ensures failures >= old(failures) && (ok <==> failures == old(failures))
    {
      ok := ClearPolicyForInterface(i);
      if !ok {
        return false;
      }
      ghost var s, earlier := Now(), trace;
      ok := WriteAllowlists(i, rules);
      ClosedDuringSince(trace, |earlier|, old(Now()), s, i);
      ClosedDuringJoin(earlier, trace, |old(trace)|, old(Now()), i);
      SameElsewhereTransitive(old(Now()), s, Now(), i);
      assert forall k :: |old(trace)| <= k < |trace| ==> ClosedAt(old(Now()), trace[k], i);
      if !ok {
        return false;
      }
      ghost var listed := Now();
      ok := UpdateConfig(i, ConfigOf(rules));
      LocalOperation(listed, Now(), i);
      SameElsewhereTransitive(old(Now()), listed, Now(), i);
    }

    /** Clear one interface that is gone. */
    method ClearGone(ghost before: Tables, ghost from: nat, ghost pending: set<u32>, i: u32,
                     ghost current: map<u32, AllowRules>, ghost next: map<u32, AllowRules>) returns (ok: bool)
      requires Valid() && from <= |trace| && i in pending && i in current && i !in next
      requires SafeDuring(trace, from, before, next) && Safe(before, Now(), next)
      requires Settled(before, Now(), pending, current, next) && UntouchedKept(before, Now(), current, next)
      modifies this
      ensures Valid() && old(trace) <= trace
      ensures SafeDuring(trace, from, before, next) && Safe(before, Now(), next)
      ensures UntouchedKept(before, Now(), current, next)
      ensures ok ==> Settled(before, Now(), pending - {i}, current, next)
      ensures failures >= old(failures) && (ok <==> failures == old(failures))
    {
      ghost var s, earlier := Now(), trace;
      assert SameAt(before, s, i);
      ok := ClearPolicyForInterface(i);
      SafeDuringJoin(earlier, trace, from, before, s, i, next);
      SafeStep(before, s, Now(), i, next);
      UntouchedStep(before, s, Now(), i, current, next);
      if ok {
        assert pending == pending - {i} + {i};
        SettledStep(before, s, Now(), pending - {i}, i, current, next);
      }
    }

    /** The first loop of `writeEffectivePolicies`: clear what is gone. */
    method ClearRemoved(current: map<u32, AllowRules>, next: map<u32, AllowRules>) returns (ok: bool)
      requires Valid()
      modifies this
      ensures Valid() && old(trace) <= trace
      ensures SafeDuring(trace, |old(trace)|, old(Now()), next) && Safe(old(Now()), Now(), next)
      ensures UntouchedKept(old(Now()), Now(), current, next)
      ensures ok ==> Settled(old(Now()), Now(), next.Keys, current, next)
      ensures failures >= old(failures) && (ok <==> failures == old(failures))
      ensures (forall i :: i in current ==> i in next) ==> ok && trace == old(trace)
    {
      var todo := current.Keys;
      ghost var pending := todo + next.Keys;
      SettledInitially(Now(), pending, current, next);
      while todo != {}
        invariant Valid() && failures == old(failures) && old(trace) <= trace
        invariant todo <= current.Keys && (forall i :: i in pending <==> i in todo || i in next)
        invariant SafeDuring(trace, |old(trace)|, old(Now()), next) && Safe(old(Now()), Now(), next)
        invariant Settled(old(Now()), Now(), pending, current, next) && UntouchedKept(old(Now()), Now(), current, next)
        invariant (forall i :: i in current ==> i in next) ==> trace == old(trace)
        decreases |todo|
      {
        var i :| i in todo;
        todo := todo - {i};
        if i !in next {
          ok := ClearGone(old(Now()), |old(trace)|, pending, i, current, next);
          if !ok {
            return false;
          }
          pending := pending - {i};
        }
      }
      assert pending == next.Keys by { assert forall i :: i in pending <==> i in next.Keys; }
      return true;
    }

    /** Rewrite one selected interface unless its rules are the recorded ones. */
    method WriteUnlessEqual(ghost before: Tables, ghost from: nat, ghost pending: set<u32>, i: u32,
                            current: map<u32, AllowRules>, next: map<u32, AllowRules>) returns (ok: bool)
      requires Valid() && from <= |trace| && i in pending && i in next
      requires SafeDuring(trace, from, before, next) && Safe(before, Now(), next)
      requires Settled(before, Now(), pending, current, next) && UntouchedKept(before, Now(), current, next)
      modifies this
      ensures Valid() && old(trace) <= trace
      ensures SafeDuring(trace, from, before, next) && Safe(before, Now(), next)
      ensures UntouchedKept(before, Now(), current, next)
      ensures ok ==> Settled(before, Now(), pending - {i}, current, next)
      ensures failures >= old(failures) && (ok <==> failures == old(failures))
      ensures i in current && EqualRules(current[i], next[i]) ==> ok && trace == old(trace)
    {
      ghost var s, earlier := Now(), trace;
      assert SameAt(before, s, i);
      var equal := false;
      if i in current {
        equal := AllowRulesEqual(current[i], next[i]);
      }
      ok := true;
      if !equal {
        ok := WriteEffectivePolicyForInterface(i, next[i]);
        SafeDuringJoin(earlier, trace, from, before, s, i, next);
        SafeStep(before, s, Now(), i, next);
        UntouchedStep(before, s, Now(), i, current, next);
      }
      if ok {
        assert pending == pending - {i} + {i};
        SettledStep(before, s, Now(), pending - {i}, i, current, next);
      }
    }

    /** The second loop: rewrite what changed and skip the rest. */
    method WriteChanged(ghost before: Tables, ghost from: nat, current: map<u32, AllowRules>,
                        next: map<u32, AllowRules>)
      returns (ok: bool)
      requires Valid() && from <= |trace|
      requires SafeDuring(trace, from, before, next) && Safe(before, Now(), next)
      requires Settled(before, Now(), next.Keys, current, next) && UntouchedKept(before, Now(), current, next)
      modifies this
      ensures Valid() && old(trace) <= trace
      ensures SafeDuring(trace, from, before, next) && Safe(before, Now(), next)
      ensures UntouchedKept(before, Now(), current, next)
      ensures ok ==> Settled(before, Now(), {}, current, next)
      ensures failures >= old(failures) && (ok <==> failures == old(failures))
      ensures (forall i :: i in next ==> i in current && EqualRules(current[i], next[i])) ==> ok && trace == old(trace)
    {
      var todo := next.Keys;
      while todo != {}
        invariant Valid() && failures == old(failures) && old(trace) <= trace
        invariant todo <= next.Keys
        invariant SafeDuring(trace, from, before, next) && Safe(before, Now(), next)
        invariant Settled(before, Now(), todo, current, next) && UntouchedKept(before, Now(), current, next)
        invariant (forall i :: i in next ==> i in current && EqualRules(current[i], next[i])) ==> trace == old(trace)
        decreases |todo|
      {
        var i :| i in todo;
        ok := WriteUnlessEqual(before, from, todo, i, current, next);
        if !ok {
          return false;
        }
        todo := todo - {i};
      }
      return true;
    }

    /** `writeEffectivePolicies`: interfaces in any order, stopping at the first
        failure. A call whose inputs agree performs no map operation at all. */
    method WriteEffectivePolicies(current: map<u32, AllowRules>, next: map<u32, AllowRules>) returns (ok: bool)
      requires Valid()
      modifies this
      ensures Valid() && old(trace) <= trace
      ensures SafeDuring(trace, |old(trace)|, old(Now()), next) && Safe(old(Now()), Now(), next)
      ensures UntouchedKept(old(Now()), Now(), current, next)
      ensures ok ==> Settled(old(Now()), Now(), {}, current, next)
      ensures failures >= old(failures) && (ok <==> failures == old(failures))
      ensures current.Keys == next.Keys && (forall i :: i in next ==> EqualRules(current[i], next[i])) ==>
                ok && trace == old(trace)
    {
      ok := ClearRemoved(current, next);
      if ok {
        ok := WriteChanged(old(Now()), |old(trace)|, current, next);
      }
    }
  }
}
