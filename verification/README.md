# A verified model of the killswitch daemon

`killswitch` is a Linux network kill switch. An eBPF program at tc egress drops
every frame that the policy of its interface does not allow; a privileged daemon
decides that policy, writes it into seven kernel tables, attaches the program to
the selected interfaces and serves an admin socket. This project models that
pipeline in Dafny and proves what it promises.

| file | what it models |
|---|---|
| Words, Orders, Numerals | machine words and byte order, sort-and-compact canonical lists, printed numbers |
| Rules, Abi | allow rules, their key orders and canonical form; the byte layout of the table keys on both sides |
| Frames, Filter, Laws, Octets | a grammar of frames with its recogniser, the egress program proved against a declarative decision, laws relating one frame to another, and the verdict in octet positions and numbers |
| Kernel | the kernel tables as a class whose every operation may fail, and the code that rewrites them |
| Effective | triggers and the merge of all contributors into one policy per interface |
| Force, Sessions | reference-counted forced rulesets; connections, their requests and their departure |
| RuleText, Spelling, Config, Requests | rule text and how numbers are spelled in it, the options, their loading and their mutation, and what each request does, read off its own text |
| Decisions, TextToPacket | the decision that rules promise a packet, and a grammar of rule text with the decision that the text promises |
| PolicyManager, Daemon, Outcomes | the policy manager and the entry points run under the reconcile lock, down to the fate of a packet, and that fate in octets |
| Links, Proxy, Notifications, NotificationHistory | link attachment, the SOCKS proxy's start/stop/failure protocol, buffering and delivery of notifications, and who is owed what by the history |

How the main results fit together:

- A packet's fate is stated over frames built by a grammar, with no offsets
  (`Filter.Permits`). The grammar and its recogniser are inverse, so the cursor
  program is proved against a definition that shares nothing with it.
- `Octets` says the same once more without the grammar: at which positions which
  numbers must stand for a frame to pass, from the tables, from a rule set and from
  the text of a policy. `Outcomes.GovernedOutcome` joins that to the daemon's state.
- `Kernel.PolicyTables` records the tables after every single map operation.
  `PolicyManagers.PolicyManager.Valid` says about that whole record that every
  interface was always closed or encoded exactly rules some reconcile computed
  for it, and that the tables represent the current policy as long as no
  operation has failed. Every method of the daemon keeps it, whatever fails.
- `Daemons.Daemon.Egress` joins the two: the verdict on any byte string and mark
  leaving an attached interface is the plain decision on its recorded rules while
  the tables are in line with the record, and in any case on rules once computed.
- `Daemons.Daemon.Adopted` says which policy a listing asks for, and `InForce` that
  the tables say so too. A successful reconcile always adopts; it is in force
  exactly when every interface the update left alone was right before, so always
  from tables that were in line. `Daemons.Daemon.GovernedFate` then speaks of packets
  alone: on an attached, selected interface the contributors (base policy,
  triggered, forced and temporary rulesets, a running proxy) decide together; on an
  attached interface that is not governed only bootstrap traffic passes; an
  unattached one is not filtered.
- `Daemons.Daemon.moments` joins the links and the tables into one record of every
  change to either, and an attached interface is filtered at every moment of it.
- `TextToPacket` carries the same decision back to the text of a policy: the
  parsers accept exactly a grammar, and the verdict is what the text says.
- `Requests` takes the admin requests target by target: when each is accepted and
  what exactly it then changes.
- `Proxy` reads both sides of the proxy off the history of any interleaving:
  whether it runs, its listener, and what the policy side says of it.
- `Sessions` gives runs of connects, requests, option changes and the two cleanup
  steps as event sequences; the methods of `Daemons.Daemon` are tied to the same
  step functions.

Modelling decisions:

- The build is the little-endian one: `htons` always swaps and IPv4 keys are
  little-endian loads.
- The evaluation of one packet is atomic with respect to one map operation. A
  failed operation changes nothing. Iterating a table while deleting visits every
  matching key, in any order, and may itself fail.
- A link whose close fails is only logged and forgotten by the code. It counts as
  closed, and its interface as unfiltered, although the kernel may keep filtering.
- The six allow tables are one set of keys told apart by constructor; `Abi`
  proves that within a table the serialised bytes determine the key.
- Regular expressions, IPv6 text, hardware-address text and interface selection
  are parameters; of IPv6 text only the inverse law and the position of its first
  colon are used, of the addresses in triggers only that what was read can be
  printed and read again. Raw JSON values are what each decoder makes of them.
- Mutexes are not modelled as objects: methods are atomic, except in `Proxy`,
  where every locked section and every gap is a separate step, and in
  `Notifications`, where every locked section and every single write is.

Where the code differs from its documentation, or from what one may expect, the
code is modelled:

- README.md:190 of the repository says that AND needs every trigger group to
  match. The code counts single entries, so two interface names under AND never
  match (`Effective.TwoNamesNeverMatch`). The two meanings agree exactly for triggers
  none of whose lists holds two different entries (`Effective.AndMeansGroupsExactly`).
- A repeated reconcile with unchanged inputs performs no map operation, but its
  "changed" result is true exactly when a selected interface has an empty,
  non-nil address slice, because cloning turns empty into nil
  (`PolicyManagers.PolicyManager.ReconcileTwice`).
- After a failed write the recorded policy is not advanced, and a later, successful
  reconcile compares with that stale record. It may then leave an interface closed,
  leave it open under rules that were withdrawn (`Kernel.StaleAfterRevert`), or leave
  one open that is in neither policy (`Kernel.OrphanAfterWithdrawal`).
  `Kernel.SettledExact` is the exact condition, and `Kernel.RetryRepairs` the case
  that always recovers: trying the same policy again.
- Notifications may reach a client out of order: a new one may overtake an older
  message exactly while that message is pending in a broadcast or a drain, or still
  buffered (`Notifications.OvertakesExactly`). Two broadcasts in flight are one case
  (`Notifications.BroadcastsMayOvertake`), a client between its subscription and its
  drain another (`Notifications.BufferMayBeOvertaken`). A failed write during a drain
  loses the rest of that drain.
- A proxy that runs may stay recorded as stopped: the report of a failing accept
  loop may arrive after a later start has finished (`Proxy.RunningMayBeMissed`).
  `Proxy.QuiescentAgreesExactly` is the exact condition. The converse never happens
  (`Proxy.QuiescentIsFaithful`).
- Inserting a VLAN tag is transparent for untagged frames only; a second tag is
  dropped (`Laws.TagTransparentExact`).
- A host+port rule may name port zero, which a port rule may not
  (`TextToPacket.SaysV4Pair`, `TextToPacket.SaysPort`).
- Printing rules and parsing them back is the identity exactly on rules that text
  can spell (`RuleText.RulesRoundTrip`); the parsers produce only such rules.

## Model

| member | source | states |
|---|---|---|
| Words.HtonsNtohs | cmd/killswitch/util.go:18-24 | converting a port to network order and back is the identity |
| Words.NativeLoadIsHtons | cmd/killswitch/util.go:18-24 | a native 16-bit load of a packet's port field is `htons` of the port on the wire |
| Words.Ipv4KeyRoundTrip | cmd/killswitch/util.go:26-33 | a stored IPv4 key determines the four octets it came from |
| Orders.IncreasingUnique | cmd/killswitch/bpf_maps.go:252-267 | a set has only one strictly increasing listing |
| Orders.CanonEqualExact | cmd/killswitch/bpf_maps.go:252-271 | canonical lists agree exactly when the inputs agree as sets |
| Orders.CompactInPlace | cmd/killswitch/bpf_maps.go:260-266 | compacting a sorted slice over its own front leaves a strictly increasing list of the same elements |
| Orders.UniqueSorted | cmd/killswitch/bpf_maps.go:252-267 | sorting and compacting a copy yields the canonical list |
| Orders.StringLessExact | cmd/killswitch/admin_mutation.go:501-505 | names sort by their first different character, a proper prefix first |
| Rules.KeyOrdersTotal | cmd/killswitch/bpf_maps.go:219-250 | all six key orders are strict total orders |
| Rules.CanonicalEqualExact | cmd/killswitch/bpf_maps.go:219-271 | canonical rule sets coincide exactly when flags agree and the six lists agree as sets |
| Rules.AllowRulesEqual | cmd/killswitch/bpf_maps.go:269-271 | the comparison decides agreement of flags and of all listed entries as sets |
| Rules.MergeAllowRules | cmd/killswitch/bpf_maps.go:205-217 | a merge has exactly the flags and entries of either side and is canonical |
| Abi.SerializeInjective | cmd/killswitch/types.go:62-124 | within a table, serialised keys are equal exactly when the keys are |
| Abi.PortRuleMatches | cmd/killswitch/bpf_maps.go:155-161 | a port rule's bytes equal the filter's key exactly for the port, protocol and interface it names |
| Abi.HostRuleMatches | cmd/killswitch/killswitch.c:326-342 | a host rule's bytes equal the filter's key exactly for its host and interface |
| Abi.V4PairRuleMatches | cmd/killswitch/killswitch.c:344-353 | an IPv4 host+port rule's bytes equal the filter's key exactly for its host, port, protocol and interface |
| Abi.V6PairRuleMatches | cmd/killswitch/killswitch.c:355-364 | an IPv6 host+port rule's bytes equal the filter's key exactly for its host, port, protocol and interface |
| Abi.LookupV4Bytes | cmd/killswitch/killswitch.c:316-353 | the key bytes built from the octets of an IPv4 packet are stored, byte for byte, exactly when the four lookups find an entry |
| Abi.LookupV6Bytes | cmd/killswitch/killswitch.c:316-364 | the key bytes built from the octets of an IPv6 packet are stored, byte for byte, exactly when the four lookups find an entry |
| Abi.PermitsByBytes | cmd/killswitch/killswitch.c:376-564 | the verdict is decided by the frame grammar, the configuration and which key bytes are stored |
| Frames.ParseComplete | cmd/killswitch/killswitch.c:395-538 | every frame the grammar builds is recognised as itself |
| Frames.ParseSound | cmd/killswitch/killswitch.c:395-538 | whatever is recognised is a well-formed frame that spells the input byte for byte |
| Filter.PermitsByParse | cmd/killswitch/killswitch.c:366-374 | the declarative decision depends on the one frame the input spells |
| Filter.ClosedPassesOnlyBootstrap | cmd/killswitch/killswitch.c:170-171 | without a configuration entry exactly the frames pass whose packet is bootstrap traffic in the grammar; `Octets.ClosedInOctets` says which octets those are |
| Filter.EgressLink | cmd/killswitch/killswitch.c:393-410 | the Ethernet header and at most one tag are consumed in bounds, or the input is no frame |
| Filter.EgressIp4 | cmd/killswitch/killswitch.c:417-487 | the IPv4 branch passes exactly the permitted packets, reading only in bounds |
| Filter.EgressIp6 | cmd/killswitch/killswitch.c:489-559 | the IPv6 branch passes exactly the permitted packets, reading only in bounds |
| Filter.LookupV4 | cmd/killswitch/killswitch.c:473-486 | the lookups succeed exactly when the mark, port, host or host+port entry is listed |
| Filter.LookupV6 | cmd/killswitch/killswitch.c:545-558 | the lookups succeed exactly when the mark, port, host or host+port entry is listed |
| Filter.KillswitchEgress | cmd/killswitch/killswitch.c:376-564 | a frame passes exactly when the declarative decision permits it, and an event is emitted exactly for bootstrap frames judged with allow_all off |
| Laws.TagTransparent | cmd/killswitch/killswitch.c:399-410 | one 802.1Q or 802.1ad tag inserted into an untagged frame changes nothing |
| Laws.SecondTagDrops | cmd/killswitch/killswitch.c:399-410 | a frame given a second tag passes only under allow_all |
| Laws.TagTransparentExact | cmd/killswitch/killswitch.c:399-410 | a tag is transparent exactly when the frame is untagged, was dropped anyway, or everything passes |
| Laws.OptionsTransparent | cmd/killswitch/killswitch.c:424-466 | replacing the IPv4 options and adjusting the header length changes nothing |
| Laws.AppendKeepsPassing | cmd/killswitch/killswitch.c:232-234 | appending bytes to a passing frame keeps it passing |
| Octets.FoundIp4 | cmd/killswitch/killswitch.c:417-466 | a frame holds an IPv4 packet exactly when the octets at the EtherType, version, length, fragment and protocol positions say so, and its destination and ports are the octets at theirs |
| Octets.FoundIp6 | cmd/killswitch/killswitch.c:489-538 | a frame holds an IPv6 packet exactly when the octets at the EtherType, version and next-header positions say so, and its destination, ports and ICMPv6 type are the octets at theirs |
| Octets.BootstrapInOctets | cmd/killswitch/killswitch.c:287-305 | bootstrap traffic is exactly four octet forms: 08 06; 08 00 with UDP and both ports in {67, 68}; 86 DD with UDP and both ports in {546, 547}; 86 DD with ICMPv6 type 133 to 136 |
| Octets.EventInOctets | cmd/killswitch/killswitch.c:412-537 | the event of each of the four forms has its reason, the tag depth and the EtherType as a number; no other frame has one |
| Octets.VerdictInOctets | cmd/killswitch/killswitch.c:376-564 | the verdict on every octet string, by octet positions and literal numbers: allow_all, a bootstrap form, or an enabled family and one of at most four keys spelled by the octets and stored for the interface |
| Octets.ClosedInOctets | cmd/killswitch/killswitch.c:468-471 | an interface without a configuration entry passes the four forms and nothing else |
| Octets.RulesInOctets | cmd/killswitch/killswitch.c:366-374 | the plain decision on a rule set, by octet positions and literal numbers |
| Octets.TextInOctets | internal/policy/policy.go:26-108 | the tables written for a policy text pass an octet string exactly when a text says its mark, its destination octets, its big-endian destination port with the protocol number, or host, port and protocol together |
| Kernel.PolicyTables.ClearAllowedMap | cmd/killswitch/bpf_maps.go:97-113 | success leaves no key of the interface in that table; at every moment the interface is closed and the others are untouched |
| Kernel.PolicyTables.ClearPolicyForInterface | cmd/killswitch/bpf_maps.go:65-88 | success empties the interface; at every moment it is closed or as before |
| Kernel.PolicyTables.WriteAllowedMap | cmd/killswitch/bpf_maps.go:145-153 | success adds exactly the listed keys, on an interface that stays closed |
| Kernel.PolicyTables.WriteAllowlists | cmd/killswitch/bpf_maps.go:115-143 | success makes the six tables list exactly the rules' entries, on an interface that stays closed |
| Kernel.PolicyTables.WriteEffectivePolicyForInterface | cmd/killswitch/bpf_maps.go:48-63 | at every moment the interface is closed, as before, or completely rewritten; success rewrites it |
| Kernel.PolicyTables.WriteEffectivePolicies | cmd/killswitch/bpf_maps.go:26-46 | at every moment every interface has its old policy, its new one, or is closed; interfaces whose rules stay the same are kept even by a failure; success settles all; equal inputs perform no operation |
| Kernel.RepresentsIsEncodeAll | cmd/killswitch/bpf_maps.go:26-63 | tables representing a policy map are exactly what wiping and rewriting everything leaves |
| Kernel.SettledRepresents | cmd/killswitch/bpf_maps.go:26-46 | the incremental update of tables for the current policy leaves the tables for the next one |
| Kernel.SettledExact | cmd/killswitch/bpf_maps.go:26-46 | whatever failed before, a successful update leaves the tables of the new policy exactly when every interface it left alone was right already |
| Kernel.RetryRepairs | cmd/killswitch/policy_manager.go:210-214 | failed attempts at a policy are repaired by a successful attempt at the same policy |
| Kernel.StaleAfterRevert | cmd/killswitch/policy_manager.go:205-213 | a run in which an update fails half way and is then reverted: the revert succeeds without an operation and an interface stays open under the withdrawn rules |
| Kernel.OrphanAfterWithdrawal | cmd/killswitch/bpf_maps.go:27-34 | a run in which a failed update is then withdrawn: an interface in neither policy stays open |
| Kernel.EqualRulesEncodeAlike | cmd/killswitch/bpf_maps.go:269-271 | rule sets write the same tables exactly when the comparison identifies them |
| Effective.CountExact | cmd/killswitch/effective_policy.go:385-428 | a match count never exceeds the list, is full exactly when all match, and positive exactly when one does |
| Effective.CountsAddUp | cmd/killswitch/effective_policy.go:385-423 | the seven per-list counts add up to one count over all predicates |
| Effective.UnmapExact | cmd/killswitch/effective_policy.go:401-408 | two addresses unmap alike exactly when they are equal or stand for one IPv4 address, itself or behind ten zero octets and ff ff |
| Effective.OrInWords | cmd/killswitch/effective_policy.go:379-428 | OR holds exactly when the type, name, SSID or BSSID of the interface is listed, a pattern matches its name, a listed address is one of its hosts, or a listed gateway is one of its gateways |
| Effective.AndInWords | cmd/killswitch/effective_policy.go:379-428 | AND holds exactly when some list has an entry and every entry of every list is true of the interface |
| Effective.RulesetTriggerMatchesInterface | cmd/killswitch/effective_policy.go:379-428 | the seven counting loops answer exactly what OR and AND ask, list by list |
| Effective.AndMeansGroupsExactly | cmd/killswitch/effective_policy.go:379-436 | counting entries agrees on every interface with the documented meaning of AND, one match in every configured group, exactly when no list of the trigger holds two different entries |
| Effective.TellApart | cmd/killswitch/effective_policy.go:425-428 | for every other trigger, an interface on which the code and the documentation disagree |
| Effective.TwoNamesNeverMatch | cmd/killswitch/effective_policy.go:391-395 | under AND two different interface names can never match together |
| Effective.EffectiveAllowRules | cmd/killswitch/effective_policy.go:27-46 | the merge loops produce the canonical join of base, active, forced, temporary and proxy rules |
| Effective.JoinOrderIndependent | cmd/killswitch/effective_policy.go:27-46 | permuting or repeating contributors does not change the effective rules |
| Effective.JoinPassesExactly | cmd/killswitch/effective_policy.go:27-46 | a packet passes exactly when some contributor allows all, or it is bootstrap, or one enables its family and one lists it |
| Effective.JoinMonotone | cmd/killswitch/effective_policy.go:27-46 | adding contributors never drops a passing packet |
| Effective.ForcedForExact | cmd/killswitch/effective_policy.go:48-63 | a ruleset is forced on an interface exactly when a forced entry listing the interface resolves to it |
| Effective.EffectivePoliciesForInterfaces | cmd/killswitch/effective_policy.go:75-97 | every interface, and no other index, gets the canonical join of its own contributors |
| Force.TidyExtensional | cmd/killswitch/types.go:243 | normalised counter tables with the same counts are the same table |
| Force.ActivateCounts | cmd/killswitch/policy_manager.go:79-103 | forcing adds one per listed interface, from zero when it replaces, and moves no other count |
| Force.ReleaseCounts | cmd/killswitch/policy_manager.go:123-146 | releasing subtracts one per listed interface, floored at zero, or clears all, and moves no other count |
| Force.RemoveOwnerCounts | cmd/killswitch/policy_manager.go:111-121 | disconnecting clears every count of the owner and no other |
| Force.PruneCounts | cmd/killswitch/policy_manager.go:160-169 | deleting rulesets clears exactly the counts under the deleted names |
| Force.ActivateThenRelease | cmd/killswitch/policy_manager.go:79-146 | forcing and then releasing the same interfaces restores the table exactly |
| Force.CloneForceRulesets | cmd/killswitch/admin_mutation.go:658-697 | the snapshot lists every forced name once, sorted, with exactly its owners and its positively counted interfaces |
| Force.ForcedExactly | cmd/killswitch/effective_policy.go:48-63 | an interface is forced exactly when some owner holds a positive count and the name resolves |
| Sessions.OwnerTextInjective | cmd/killswitch/admin.go:357-370 | different connections never share an owner text |
| Sessions.EveryRunSound | cmd/killswitch/admin.go:281-304 | in every run every owner of a grant is live or in cleanup, no zero count or empty map survives, and every forced name resolves |
| Sessions.CountsAreHistory | cmd/killswitch/policy_manager.go:79-169 | every stored count equals the fold of the events that concern it |
| Sessions.TmpIsLastSet | cmd/killswitch/policy_manager.go:60-77 | at every point of every run an owner has a temporary ruleset exactly when some accepted request of it set one and nothing since has set or removed it, and then it is that request's |
| Sessions.GoneOwnsNothing | cmd/killswitch/admin.go:283-304 | once cleanup has finished a connection owns nothing |
| Sessions.ErasedRun | cmd/killswitch/admin.go:281-304 | at every point the run without a connection's requests is the run with its grants taken out |
| Sessions.DepartureLeavesNoTrace | cmd/killswitch/admin.go:281-304 | after cleanup the whole state is that of the same run with all that connection's requests deleted |
| Numerals.NumeralRoundTrip | cmd/killswitch/effective_policy.go:262-268 | reading a printed number in its base gives the number back |
| RuleText.MarkRoundTrip | internal/policy/policy.go:26-36 | every mark survives printing and parsing |
| Spelling.MarkTextExact | internal/policy/policy.go:26-36 | the mark parser accepts exactly a grammar over literal characters, as what it says: decimal without a leading zero, octal after one, 0x, 0o or 0b of either case, underscores only between digits or after a prefix, below two to the thirty-two |
| Spelling.NumberTextExact | internal/policy/policy.go:153-162 | a decimal text denotes what reading its literal digits from left to right gives |
| Spelling.PrintedMark | cmd/killswitch/effective_policy.go:262-268 | a mark is printed as 0x and lower-case digits without a leading zero, and says that mark |
| RuleText.PortRoundTrip | internal/policy/policy.go:110-124 | a port rule survives exactly when its protocol is TCP or UDP and its port is not zero |
| RuleText.V4HostRoundTrip | internal/policy/policy.go:50-63 | every IPv4 host survives printing and parsing |
| RuleText.V6HostRoundTrip | internal/policy/policy.go:65-78 | an IPv6 host survives exactly when it is not IPv4-mapped |
| RuleText.V4PairRoundTrip | internal/policy/policy.go:80-93 | an IPv4 host+port rule survives exactly when its protocol is TCP or UDP |
| RuleText.V6PairRoundTrip | internal/policy/policy.go:95-108 | an IPv6 host+port rule survives exactly when its protocol is TCP or UDP and its host is not IPv4-mapped |
| RuleText.ParseList | internal/policy/policy.go:38-48 | the parsing loop yields every rule in order, or rejects the list at the first bad text |
| RuleText.RulesRoundTrip | cmd/killswitch/effective_policy.go:248-320 | printing a rule set and parsing it back is the identity exactly on the rule sets text can spell |
| RuleText.ParsedIsExpressible | cmd/killswitch/config.go:193-219 | the parsers produce only rule sets that text can spell |
| Config.UniqueInPlace | cmd/killswitch/admin_mutation.go:485-499 | compaction over the slice's own front keeps the first occurrence of each string, in order |
| Config.RemoveInPlace | cmd/killswitch/admin_mutation.go:536-551 | compaction over the slice's own front keeps exactly the strings not listed, in order |
| Config.MutationKeepsWellFormed | cmd/killswitch/admin_mutation.go:124-200 | an accepted mutation keeps names non-empty, unique and sorted, triggers non-empty and normal, patterns compiling and a selector present |
| Config.EveryRunWellFormed | cmd/killswitch/admin_mutation.go:21-39 | over every run of requests the options stay well formed and no trigger holds a pattern that would panic |
| Config.RemoveGood | cmd/killswitch/admin_mutation.go:562-570 | removing a ruleset leaves none of that name and keeps the list good |
| Config.UpsertGood | cmd/killswitch/admin_mutation.go:572-586 | inserting or replacing a ruleset keeps names sorted and unique |
| Config.FieldMutationIsLocal | cmd/killswitch/admin_mutation.go:236-258 | mutating one list through its text leaves the flags and the other five lists exactly as they were |
| Config.AddDenotes | cmd/killswitch/admin_mutation.go:202-216 | adding spellings adds exactly the rules they denote |
| Config.RemoveDenotes | cmd/killswitch/admin_mutation.go:536-551 | removing spellings removes exactly the rules whose printed form is listed |
| Config.SelectorMutationMeaning | cmd/killswitch/admin_mutation.go:138-200 | a selector target changes its own list, as a set, by what add, remove or set says, and nothing else |
| Config.FieldMutationMeaning | cmd/killswitch/admin_mutation.go:236-277 | mutating a rule list by text adds, removes or sets exactly the rules the spellings stand for, in the list the field names |
| Config.UpsertMeaning | cmd/killswitch/admin_mutation.go:572-586 | after an upsert exactly the new ruleset carries its name and every other one is kept |
| Config.RemoveMeaning | cmd/killswitch/admin_mutation.go:562-570 | after a removal exactly the other rulesets are left |
| Config.RulesetFieldMeaning | cmd/killswitch/admin_mutation.go:317-399 | a field mutation replaces exactly the ruleset it names |
| Config.TriggerMeaning | cmd/killswitch/config.go:161-191 | a loaded trigger holds exactly what its texts denote, hardware addresses normalised in their own lists |
| Config.TriggerFieldMeaning | cmd/killswitch/admin_mutation.go:317-399 | a trigger field changes its own list by what add, remove or set says; going through text moves no other list of the trigger |
| Config.RulesetsFromConfig | cmd/killswitch/config.go:110-148 | loading accepts exactly configurations whose every ruleset is good, and yields one sorted ruleset per name |
| Config.ConfigToOptions | cmd/killswitch/config.go:45-108 | the daemon starts from well-formed options that are what the file says, or refuses, exactly when there is no selector, a pattern, policy or ruleset is bad, or the checks on the admin and proxy sections say no |
| Requests.GivesExact | cmd/killswitch/admin_mutation.go:218-234 | the values of a request are its list, or else its raw value as a list, or else as one string |
| Requests.AllowAllRequest | cmd/killswitch/admin_mutation.go:238-239 | target base_policy.allow_all with set and a truth value sets that flag of the base policy and changes nothing else; otherwise refused |
| Requests.EnableV4Request | cmd/killswitch/admin_mutation.go:240-241 | target base_policy.enable_v4 with set and a truth value sets that flag of the base policy and changes nothing else; otherwise refused |
| Requests.EnableV6Request | cmd/killswitch/admin_mutation.go:242-243 | target base_policy.enable_v6 with set and a truth value sets that flag of the base policy and changes nothing else; otherwise refused |
| Requests.BasePolicyRequest | cmd/killswitch/admin_mutation.go:236-277 | every other field of the base policy: accepted exactly when values are given and, unless they are removed, can be read; then exactly that list changes |
| Requests.WholeBasePolicyRequest | cmd/killswitch/admin_mutation.go:169-177 | target base_policy is accepted exactly for a set of a policy that can be read, which becomes the base policy |
| Requests.InterfaceTypesRequest | cmd/killswitch/admin_mutation.go:139-142 | target interface_types changes its own list, and is accepted exactly when values are given and a selector is left |
| Requests.InterfaceNamesRequest | cmd/killswitch/admin_mutation.go:143-146 | target interface_names changes its own list, and is accepted exactly when values are given and a selector is left |
| Requests.InterfaceRegexpsRequest | cmd/killswitch/admin_mutation.go:147-153 | target interface_regexps changes its own list, and is accepted exactly when values are given, what is left compiles and a selector is left |
| Requests.IgnoredTypesRequest | cmd/killswitch/admin_mutation.go:154-157 | target ignored_interface_types changes its own list, and is accepted exactly when values are given |
| Requests.IgnoredNamesRequest | cmd/killswitch/admin_mutation.go:158-161 | target ignored_interface_names changes its own list, and is accepted exactly when values are given |
| Requests.IgnoredRegexpsRequest | cmd/killswitch/admin_mutation.go:162-168 | target ignored_interface_regexps changes its own list, and is accepted exactly when values are given and what is left compiles |
| Requests.RemoveRulesetRequest | cmd/killswitch/admin_mutation.go:294-301 | removing a ruleset needs a name, and leaves exactly the others |
| Requests.PutRulesetRequest | cmd/killswitch/admin_mutation.go:302-315 | adding needs a new name and setting any; both need a definition that can be read, and put exactly the described ruleset, flags included, beside the others |
| Requests.RulesetMissing | cmd/killswitch/admin_mutation.go:317-325 | a field request for a ruleset that does not exist is refused |
| Requests.DisabledRequest | cmd/killswitch/admin_mutation.go:327-330 | target ruleset.disabled sets that flag of the named ruleset alone, exactly for a set with a truth value |
| Requests.MatchAllRequest | cmd/killswitch/admin_mutation.go:331-334 | target ruleset.match_all sets that flag of the named ruleset alone, exactly for a set with a truth value |
| Requests.RulesetPolicyRequest | cmd/killswitch/admin_mutation.go:384-392 | targets ruleset.policy.* do to the named ruleset alone what base_policy.* does to the base policy, under the same conditions |
| Requests.TriggerRequest | cmd/killswitch/admin_mutation.go:335-399 | targets ruleset.trigger.* change their own list of the named ruleset alone, exactly when values are given, can be read or compile, and the trigger is left an entry; other fields are refused |
| Requests.OtherwiseRefused | cmd/killswitch/admin_mutation.go:124-137 | every other target and every other operation is refused |
| Requests.MatchTextExact | cmd/killswitch/config.go:150-159 | "and" of any case asks for every entry, "or" and nothing leave it to the flag, anything else is refused |
| Requests.TriggerLoads | cmd/killswitch/config.go:161-191 | a trigger is loaded exactly when its patterns compile, its addresses can be read and it has an entry |
| Requests.RulesetLoads | cmd/killswitch/config.go:121-146 | a ruleset is loaded exactly as its section says: name, flags, trigger and policy each in its place |
| PolicyManagers.InterfacePolicyRulesEqual | cmd/killswitch/bpf_maps.go:273-290 | the comparison decides agreement of names, types, address slices and rules on the same indexes |
| PolicyManagers.CloneTemporaryRulesets | cmd/killswitch/admin_mutation.go:636-656 | the snapshot holds exactly one entry per owner, sorted by owner |
| PolicyManagers.NextUnique | cmd/killswitch/policy_manager.go:192-201 | map iteration order cannot show in the policy a reconcile computes |
| PolicyManagers.RewriteNeverMixes | cmd/killswitch/bpf_maps.go:48-63 | at any moment of a rewrite all packets meet the old policy, or all the new one, or only bootstrap traffic passes |
| PolicyManagers.JudgedByOnePolicy | cmd/killswitch/bpf_maps.go:26-88 | on a complete-or-closed interface every packet is judged by one set of rules computed for it, or only bootstrap passes |
| PolicyManagers.CloneComparesEqual | cmd/killswitch/bpf_maps.go:292-307 | a cloned policy compares equal to its original exactly when no address slice is empty but not nil |
| PolicyManagers.PolicyManager.constructor | cmd/killswitch/policy_manager.go:12-18 | a new manager over empty tables satisfies the invariant |
| PolicyManagers.PolicyManager.ReplaceOptions | cmd/killswitch/policy_manager.go:26-34 | new options prune exactly the forced names that no longer resolve and reset an idle proxy state |
| PolicyManagers.PolicyManager.SetTemporaryRuleset | cmd/killswitch/policy_manager.go:60-67 | the owner's temporary ruleset is replaced and nothing else moves |
| PolicyManagers.PolicyManager.RemoveTemporaryRuleset | cmd/killswitch/policy_manager.go:69-77 | the owner's temporary ruleset is gone and nothing else moves |
| PolicyManagers.PolicyManager.ForceActivateRuleset | cmd/killswitch/policy_manager.go:79-103 | an existing ruleset's counters are bumped as specified; an unknown one changes nothing |
| PolicyManagers.PolicyManager.ReleaseForceRulesetLocked | cmd/killswitch/policy_manager.go:123-146 | counters drop as specified and empty maps disappear |
| PolicyManagers.PolicyManager.RemoveForceRulesetsLocked | cmd/killswitch/policy_manager.go:111-121 | deleting during iteration removes exactly the owner's counters |
| PolicyManagers.PolicyManager.PruneForceRulesets | cmd/killswitch/policy_manager.go:160-169 | deleting during iteration removes exactly the unresolved names |
| PolicyManagers.PolicyManager.Reconcile | cmd/killswitch/policy_manager.go:192-219 | the complete-or-closed and representation invariants survive any failure; success records the effective policy, and the tables are in line with it exactly when every interface the update left alone was right before, on the skip path too; a no-op touches no table |
| PolicyManagers.PolicyManager.ReconcileAgain | cmd/killswitch/policy_manager.go:205-214 | a reconcile that would compute the recorded policy again succeeds without a map operation |
| PolicyManagers.PolicyManager.ReconcileTwice | cmd/killswitch/policy_manager.go:205-214 | a repeated reconcile performs no map operation and reports a change exactly for an empty, non-nil address slice |
| Decisions.RulesViewIsPlain | cmd/killswitch/killswitch.c:366-374 | encoded rules decide every packet as the rule lists themselves do |
| Decisions.EndToEnd | cmd/killswitch/policy_manager.go:192-219 | on tables representing a policy map every verdict is the plain decision on that interface's rules, and only bootstrap passes elsewhere |
| TextToPacket.PortTextExact | internal/policy/policy.go:110-124 | the port parser accepts exactly protocol/port texts with a known protocol and a number above zero, as what they say |
| TextToPacket.ProtocolTextExact | internal/policy/policy.go:142-151 | three letters, each of either case, name protocol 6 or 17; no other text does |
| TextToPacket.OctetsTextExact | internal/policy/policy.go:164-170 | the IPv4 reader accepts exactly four dotted octets without leading zeros |
| TextToPacket.V4HostTextExact | internal/policy/policy.go:50-63 | the IPv4 host parser accepts exactly dotted octets and IPv6 text of a mapped address |
| TextToPacket.V4PairTextExact | internal/policy/policy.go:126-140 | a host+port text reads as an IPv4 host exactly when it spells protocol, dotted octets and number |
| TextToPacket.V6PairTextExact | internal/policy/policy.go:95-108 | the IPv6 host+port parser accepts exactly bracketed, unmapped hosts |
| TextToPacket.PortTextDecides | cmd/killswitch/bpf_maps.go:356-366 | the key of a port text meets the key of the filter exactly for the wire port and protocol the text says |
| TextToPacket.V4HostTextDecides | cmd/killswitch/bpf_maps.go:368-378 | the key of an IPv4 host text meets the key of the filter exactly for the octets the text says |
| TextToPacket.V6HostTextDecides | cmd/killswitch/bpf_maps.go:380-390 | the key of an IPv6 host text meets the key of the filter exactly for the address the text says |
| TextToPacket.V4PairTextDecides | cmd/killswitch/bpf_maps.go:392-406 | the key of an IPv4 host+port text meets the key of the filter exactly for the packet the text says |
| TextToPacket.V6PairTextDecides | cmd/killswitch/bpf_maps.go:408-422 | the key of an IPv6 host+port text meets the key of the filter exactly for the packet the text says |
| TextToPacket.TextDecides | cmd/killswitch/config.go:193-219 | over the tables written for a policy's text, a byte string passes exactly when the text says so |
| TextToPacket.AcceptedExact | cmd/killswitch/config.go:193-219 | a policy text is accepted exactly when each of its texts says something of its kind |
| Daemons.UniqueSortedList | cmd/killswitch/admin_mutation.go:501-505 | dropping repetitions in place and sorting yields the canonical list of names |
| Daemons.EffectiveDecides | cmd/killswitch/effective_policy.go:27-46 | effective rules pass a packet exactly as the contributors of the interface together say |
| Daemons.DepartureFate | cmd/killswitch/admin.go:281-304 | after a departed client's cleanup a reconcile computes the policy, and so the tables, of the run without its requests |
| Daemons.AttachedJudged | cmd/killswitch/bpf_maps.go:48-63 | at any moment of a call an attached interface is judged as before, by its new rules, or closed; one without an entry is closed until its own rules are complete |
| Daemons.UncoveredIsClosed | cmd/killswitch/killswitch.c:170-171 | while the tables are in line, attaching the filter to an interface the policy does not cover closes it |
| Daemons.OnlyReportsMovePolicy | cmd/killswitch/socks_proxy.go:191-332 | of the steps of the proxy protocol only reports, the final copy and new options reach the policy side |
| Daemons.ForceRequestCounts | cmd/killswitch/admin_mutation.go:68-94 | add raises the count of a listed interface by one, set makes it one or nothing, remove lowers it by one or clears it; without a name, interfaces or such a ruleset nothing happens, and no other count ever moves |
| Daemons.TmpRequestEffect | cmd/killswitch/admin_mutation.go:41-66 | add and set alike replace the owner's temporary ruleset, remove drops it, a request without interfaces or with unreadable rules does nothing; no other owner's changes |
| Daemons.Daemon.RunReconcile | cmd/killswitch/policy_manager.go:192-219 | a reconcile computes exactly the joins of the present, selected interfaces and nothing else, and says exactly when its tables are in line |
| Daemons.Daemon.ReconcileAttached | cmd/killswitch/policy_manager.go:171-190 | it computes exactly the rules the listing asks for; it fails exactly on a failed listing or map operation; a success records those rules, which are in force exactly when every interface the update left alone was right before |
| Daemons.Daemon.InLineStaysInForce | cmd/killswitch/policy_manager.go:192-219 | a success that starts from tables in line with the recorded policy puts the new one in force |
| Daemons.Daemon.ReconcileCurrent | cmd/killswitch/egress.go:33-42 | attached becomes part of what the options select from the listing, kept interfaces keep their link |
| Daemons.Daemon.ApplyAdminMutation | cmd/killswitch/admin_mutation.go:21-39 | a rejected request leaves options, grants, tables and links unchanged; an accepted one installs the mutated options and reattaches without interrupting what stays selected; on success their policy is recorded, with the exact condition for it to be in force; the rules computed are exactly those the listing asks for, or none |
| Daemons.Daemon.ApplyTemporaryRulesetMutation | cmd/killswitch/admin_mutation.go:41-66 | the grants change exactly as the request's step says, whether or not the reconcile succeeds; on success the policy is recorded, with the exact condition for it to be in force; the rules computed are exactly those the listing asks for, or none |
| Daemons.Daemon.ApplyForceRulesetMutation | cmd/killswitch/admin_mutation.go:68-94 | the grants change exactly as the request's step says, whether or not the reconcile succeeds; on success the policy is recorded, with the exact condition for it to be in force; the rules computed are exactly those the listing asks for, or none |
| Daemons.Daemon.RemoveForceRulesets | cmd/killswitch/admin_mutation.go:110-122 | the first cleanup step removes exactly the owner's forced rulesets and reconciles exactly when there were any; on success the policy is recorded, with the exact condition for it to be in force; the rules computed are exactly those the listing asks for, or none |
| Daemons.Daemon.RemoveTemporaryRuleset | cmd/killswitch/admin_mutation.go:96-108 | the second cleanup step removes exactly the owner's temporary ruleset and reconciles exactly when there was one; on success the policy is recorded, with the exact condition for it to be in force; the rules computed are exactly those the listing asks for, or none |
| Daemons.Daemon.ReportSocksProxy | cmd/killswitch/main.go:91-106 | the reported proxy state is stored and the grants stay; on success the policy is recorded, with the exact condition for it to be in force; the rules computed are exactly those the listing asks for, or none |
| Daemons.Daemon.EmitProxyState | cmd/killswitch/main.go:91-106 | the callback of the proxy manager is one Emit step of the proxy protocol on the policy state |
| Daemons.Daemon.SyncProxyState | cmd/killswitch/socks_proxy.go:432-436 | the copy that ends a proxy mutation is one SyncWrite step of the proxy protocol on the policy state |
| Daemons.Daemon.StoppedProxyFate | cmd/killswitch/effective_policy.go:38-44 | in every interleaving of proxy calls, once none is in flight and the proxy is stopped, its mark gets a packet out only if another contributor lists it |
| Daemons.Daemon.ProxyFate | cmd/killswitch/effective_policy.go:38-44 | on a governed interface the proxy adds exactly this: while it is reported running, packets with its mark count as named where another contributor enables their family |
| Daemons.Daemon.StartedProxyContributes | cmd/killswitch/socks_proxy.go:221-228 | after an undisturbed start that listens the configured mark is a contributor of every interface |
| Daemons.Daemon.StoppedProxyContributesNothing | cmd/killswitch/socks_proxy.go:277-296 | after an undisturbed stop the contributors are the others |
| Daemons.Daemon.ReconcileLinks | cmd/killswitch/egress.go:177-200 | links and policy are both reconciled, kept interfaces keep their link at every moment; unless a listing or map operation failed the policy is recorded, with the exact condition for it to be in force; the rules computed are exactly those the listing asks for, or none |
| Daemons.Daemon.Egress | cmd/killswitch/killswitch.c:376-564 | between calls every packet leaves an unattached interface; on an attached one its fate is the plain decision on the recorded policy while the tables are in line with it, and in any case bootstrap or permitted by rules once computed for the interface |
| Daemons.Daemon.GovernedFate | cmd/killswitch/egress.go:67-97 | with a listing's policy in force a packet passes on a governed interface exactly when its contributors together say so, on an attached but ungoverned one only as bootstrap, and on an unattached one always |
| Daemons.Daemon.FilteredThroughout | cmd/killswitch/bpf_maps.go:26-88 | at every moment of every run, across link and table changes, an attached interface is judged by one rule set computed for it or passes only bootstrap |
| Daemons.Daemon.KeptIsFiltered | cmd/killswitch/egress.go:44-98 | an interface kept across a reconcile runs the same link and is filtered at every moment of it |
| Links.EgressManager.Reconcile | cmd/killswitch/egress.go:44-98 | the attached set becomes old and selected plus the successful attaches; kept interfaces keep their link at every moment |
| Links.EgressManager.Detach | cmd/killswitch/egress.go:58-64 | a detached link is closed once and the ledger of links stays exact |
| Links.EgressManager.Close | cmd/killswitch/egress.go:111-120 | every link ever opened has been closed exactly once |
| Links.ProgressKeys | cmd/killswitch/egress.go:67-97 | an attach failed exactly when some selected interface is not attached |
| Proxy.StepKeepsInvariant | cmd/killswitch/socks_proxy.go:191-332 | every step keeps a stale "running" correctable by some call in flight |
| Proxy.QuiescentIsFaithful | cmd/killswitch/socks_proxy.go:420-443 | in every interleaving, with no call in flight, the policy side's Running implies the proxy's own and a listener, so a stopped proxy contributes no mark |
| Proxy.RunningExactly | cmd/killswitch/socks_proxy.go:191-326 | in every run the proxy is running exactly when the last of its successful listens, failed listens, stops and accept failures is a successful listen |
| Proxy.ListenerExactly | cmd/killswitch/socks_proxy.go:219-316 | in every run the listener is that of the last successful listen unless a stop or an accept failure came after it |
| Proxy.EnabledExactly | cmd/killswitch/socks_proxy.go:191-296 | in every run the proxy is enabled exactly when a start was entered since the last stop, or neither came and the configuration enables it |
| Proxy.ErrorExactly | cmd/killswitch/socks_proxy.go:191-326 | in every run the error shown is that of the last action that set one |
| Proxy.ConfiguredThroughout | cmd/killswitch/socks_proxy.go:144-171 | the configured mark, port and resolver never change |
| Proxy.ReportWrites | cmd/killswitch/socks_proxy.go:328-332 | a report writes the proxy state as the reporting call's last action left it |
| Proxy.PolicyRunningExactly | cmd/killswitch/socks_proxy.go:328-443 | in every run the policy side says running exactly when its last report was of a look at the proxy that found it running |
| Proxy.RunningMarkIsConfigured | cmd/killswitch/policy_manager.go:26-40 | a policy side that says running holds the configured mark, whatever options came in the meantime |
| Proxy.QuiescentAgreesExactly | cmd/killswitch/socks_proxy.go:420-443 | with no call in flight both sides agree exactly when the proxy is stopped or the last report found it running |
| Proxy.UndisturbedStart | cmd/killswitch/socks_proxy.go:191-232 | an undisturbed start that listens ends with both sides running under the configured mark |
| Proxy.UndisturbedFailure | cmd/killswitch/socks_proxy.go:206-217 | an undisturbed start that cannot listen ends with both sides stopped, enabled and carrying the error |
| Proxy.UndisturbedRestart | cmd/killswitch/socks_proxy.go:192-199 | an undisturbed start of a running proxy opens no second listener |
| Proxy.UndisturbedStop | cmd/killswitch/socks_proxy.go:277-296 | an undisturbed stop ends with both sides stopped and disabled and no listener |
| Proxy.RunningMayBeMissed | cmd/killswitch/socks_proxy.go:298-316 | a run that ends with no call in flight, the proxy running and the policy side saying stopped |
| Notifications.StepKeepsInvariant | cmd/killswitch/admin.go:450-498 | every accept, take and single write keeps the conservation invariant |
| Notifications.UnheardInOnePlace | cmd/killswitch/admin.go:462-490 | in every interleaving a notification accepted while nobody listened is either in the buffer or in exactly one drain |
| Notifications.BufferingOrder | cmd/killswitch/admin.go:478-490 | the drains in order and then the buffer list those notifications in the order of acceptance |
| Notifications.OneFate | cmd/killswitch/admin.go:470-497 | in every interleaving each message owed to a client is exactly one of yet to be written, written once, or failed |
| Notifications.NobodyElse | cmd/killswitch/admin.go:456-476 | only clients subscribed at acceptance, or the client that drained it, are ever written a notification |
| Notifications.QuiescentIsDelivered | cmd/killswitch/admin.go:450-498 | with no call in flight every client was written all its live notifications and what it drained exactly when no write has failed, and never anything else or anything twice |
| Notifications.NoFailedWrites | cmd/killswitch/admin.go:470-497 | messages are lost exactly when a write has failed |
| Notifications.DrainedInOrder | cmd/killswitch/admin.go:482-497 | what a client drains reaches it in the order of acceptance, across its drains |
| Notifications.DoneComesFirst | cmd/killswitch/admin.go:470-476 | along one run, a message no longer pending at some moment is written before everything accepted from then on |
| Notifications.OvertakesExactly | cmd/killswitch/admin.go:323-328 | in every interleaving, a notification accepted now may still reach a subscribed client before an older message exactly when that message is pending, in a broadcast or a drain, or buffered |
| Notifications.BroadcastsMayOvertake | cmd/killswitch/admin.go:468-476 | a run in which two broadcasts in flight reach a client out of order |
| Notifications.BufferMayBeOvertaken | cmd/killswitch/admin.go:323-328 | a run with never more than one call in flight in which a client that has subscribed but not yet drained gets a new notification before an old one |
| Notifications.AdminServer.AcceptNotification | cmd/killswitch/admin.go:450-468 | the locked section buffers exactly when nobody is subscribed, and otherwise addresses exactly the subscribers |
| Notifications.AdminServer.NotifyNotification | cmd/killswitch/admin.go:450-476 | undisturbed, a broadcast tries every subscriber whatever fails, and leaves nothing pending |
| Notifications.AdminServer.TakeBuffered | cmd/killswitch/admin.go:482-490 | one drain takes the whole buffer in order |
| Notifications.AdminServer.DrainNotifications | cmd/killswitch/admin.go:482-497 | undisturbed, a drain writes what was buffered in order, up to the first failed write |
| Notifications.AdminServer.SetClientSubscriptions | cmd/killswitch/admin.go:378-389 | the subscriptions of a known client become exactly the requested types |
| NotificationHistory.ConnectedExactly | cmd/killswitch/admin.go:357-376 | in every run the clients are those that connected, numbered in order, and have not left |
| NotificationHistory.SubscribedExactly | cmd/killswitch/admin.go:378-389 | in every run the subscribers are those whose last word while connected asked for notifications |
| NotificationHistory.LoggedExactly | cmd/killswitch/admin.go:450-468 | each accepted notification is for exactly the clients then subscribed |
| NotificationHistory.OwedStep | cmd/killswitch/admin.go:450-498 | an acceptance makes its notification owed to the clients then subscribed, a drain the buffer to the draining client, nothing else anything |
| NotificationHistory.WriteStep | cmd/killswitch/admin.go:470-497 | a successful write sends one pending message of its call, a failed one loses one message of a broadcast or the rest of a drain |
| Outcomes.SayExact | cmd/killswitch/effective_policy.go:27-63 | the contributors of an interface, said from the stored state: the base policy, enabled rulesets whose trigger is true, rulesets with a positive count, temporary rulesets that list it, and a running proxy's mark |
| Outcomes.GovernedOutcome | cmd/killswitch/policy_manager.go:171-219 | with a listing's policy in force, from options, grants and proxy report straight to the octets that leave a governed interface |
| Outcomes.UngovernedOutcome | cmd/killswitch/egress.go:67-97 | on an attached interface the listing does not govern the four octet forms leave, and nothing else |

## Left out

- The desktop helper and the command line client: interface and I/O.
- The admin protocol's JSON envelopes, socket permissions and peer credentials: requests arrive decoded and authorised.
- Netlink subscription, timers, interface and `iw` listing: an interface listing is any list with distinct indexes, or a failure.
- Interface selectors: selection is one predicate over options and interface; the order of the selected list does not matter to what follows.
- The SOCKS server, dialers and resolver, and the checks of the proxy and admin sections of the configuration.
- Ring-buffer delivery and the address, port and time fields of bootstrap events: only reason, tag depth and EtherType are modelled.
- The names of active, forced and temporary rulesets kept beside each effective policy for display, logging, and the API snapshots.
- Error texts: a rejection is a value without a message.
- Packet buffers and map values are values: the filter reads a byte sequence, and the values stored in the allow tables are never read.
- Nested counter maps and rule slices are values held in fields: aliasing between a clone and its original is not modelled, so that a rejected mutation leaves the options alone holds by construction of the copy.
- Map capacities appear only as operations that fail.
