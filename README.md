# F5 network map: topology resolution in Dafny

`f5_network_map.py` draws a map of an F5 BIG-IP partition. Before it draws
anything, it resolves the appliance's configuration into an in-memory graph:

- virtual servers, with their address, port, SNAT, TLS roles, iRules and pools;
- the global pool registry `POOLS`, which is filled on first reference by `pool_from_name`;
- the member-list registry `Pool.internal_unique`, which makes pools with the same members share one key;
- the `DATAGROUP` map from an IP address to the pools of its `ProxyPass_` data group.

This project models that resolution and proves its properties. Every appliance
fetch is replaced by a value of `Appliance.Config`, and a missing key stands
for the 404 (`iControlUnexpectedHTTPError`) that the real call raises. Every
exception the modelled code raises on the configuration values it reads is a
`Faults.Fault`, carried in a `Result`.

Modules:

- `Wrappers`: the `Option` and `Result` types.
- `Faults`: the exceptions.
- `Appliance`: the configuration values.
- `Strings`: `str.split('/')`, `str.split()`, `count` and `in`, with their round trips.
- `Sorting`: `sorted` on member names, as an insertion sort. It is proved sorted, a permutation, and unique.
- `Destination`: `parse_destination`'s regular expression, written out as the search its engine performs.
- `Profiles`: `_ignore_profile` (`fnmatch` with `*`) and the TLS flags.
- `RuleScanner`: the `pool` scanner `_look_for_pools_in_irules` runs, written out as the search its engine performs.
- `Registry`: key resolution, the `Pool` record, and the registry invariant.
- `Topology`: the class holding `POOLS`, `internal_unique` and `DATAGROUP`, with `pool_from_name`, `Pool.__init__`, `_find_unique` and `load_datagroup_list` as methods with loops.
- `VirtualServers`: the `VirtualServer` class. Its constructor `Resolve`, `_parse_profiles`, `_look_for_pools_in_irules` and `_look_for_proxypass` are methods. Each is proved against a pure function of the configuration (`ResolveSpec`, `IrulePools`, `WantsProxypass`, `Flag`) whose own properties are proved as lemmas.

Modelling choices:

- `POOLS[partition][name]` is one map keyed by `(partition, name)`. Beside it is the set of partitions `POOLS` holds, because `pool_from_name` creates the partition entry even when the pool then fails to load.
- `id(self)` is replaced by the pool's own `(partition, name)`. A pool is built once per key, so that key is fresh whenever `_find_unique` stores it.
- `gethostbyname` is the map `Config.dns`. A hostname without an entry is one that fails to resolve.
- The code is followed as written, latent behaviours included:
  - An unknown SNAT `type` leaves `snat` unassigned (`None` here).
  - A rule id with fewer than two `/` fails when it is unpacked.
  - A qualified pool name with extra segments raises an error that no handler catches.
  - A later data group overwrites the `DATAGROUP` entry of an IP address instead of merging into it.

## Model

| member | source | states |
|---|---|---|
| Destination.MatchAddress | f5_network_map.py:39 | the pattern's address part tried at one position: the longest run of digits and dots, an optional one-digit route domain, `:`, and a digit port reaching the end of the text or a final newline |
| Destination.PrefixSearch | f5_network_map.py:39 | the lazy `/.*?/` prefix: it closes at the first `/` after which the address part matches, and never crosses a newline |
| Destination.ParseDestination | f5_network_map.py:35-39 | when no match is found, the fault is the malformed-destination error (`findall(...)[0]` raising) |
| Destination.ParsedCuts | f5_network_map.py:35-39 | a parsed destination splits into an optional `/.../` prefix, a digits-and-dots IP, an optional `%d` route domain, `:`, a digit port and an optional final newline, and the result is exactly that IP and port |
| Destination.CutsParsed | f5_network_map.py:35-39 | conversely, every destination of that shape parses, to exactly the cut IP and port, folder paths such as `/Common/app.app/` included |
| Destination.LastSlashCloses | f5_network_map.py:39 | when the address matches after a `/.../` prefix, the lazy `.*?` closes at that prefix's last `/` and at no earlier one |
| Destination.MatchAddressNoSlash | f5_network_map.py:39 | an address that matches holds no `/` from its start to the end of the string |
| Destination.MultiDigitRouteDomainRejected | f5_network_map.py:39 | a route domain of two or more digits (`%12`) after the last `/` makes the destination malformed instead of defaulting |
| Destination.ParseFormatted | f5_network_map.py:35-39 | round trip: formatting a partition or folder path, IP, route domain and port and then parsing gives back that IP and port |
| Destination.DocumentedExample | f5_network_map.py:36-37 | `/Partition2/10.195.0.49%2:443` parses to `("10.195.0.49", "443")` |
| Destination.FolderExample | f5_network_map.py:35-39 | `/Common/app.app/10.0.0.1:443` parses to `("10.0.0.1", "443")` |
| Strings.Split | f5_network_map.py:47 | `split(c)` for one separator character: the pieces between its occurrences, at least one |
| Strings.Fields | f5_network_map.py:300-302 | `split()`: the maximal runs of non-whitespace, each one a non-empty word without whitespace |
| Strings.SplitShape | f5_network_map.py:47 | `split(c)` gives one more piece than there are `c`, and no piece holds `c` |
| Strings.JoinSplit | f5_network_map.py:47 | joining the pieces of `split(c)` with `c` gives back the string |
| Strings.SplitJoin | f5_network_map.py:47 | splitting a join of `c`-free pieces gives back the pieces |
| Strings.FieldsJoinWords | f5_network_map.py:300-302 | `split()` of whitespace-free words joined by spaces gives back the words |
| Strings.ContainsWitness | f5_network_map.py:201 | `sub in s` exactly when `sub` occurs at some position of `s` (with `Strings.ContainsAt`) |
| Sorting.Sort | f5_network_map.py:231 | `sorted` returns an ordered permutation of the member names |
| Sorting.SortedUnique | f5_network_map.py:231 | two ordered lists with the same elements, counted with multiplicity, are equal |
| Sorting.SortSameIffSameMultiset | f5_network_map.py:231 | two member lists sort to the same list exactly when they hold the same names with the same multiplicities |
| Profiles.Glob | f5_network_map.py:128 | `fnmatch` for a pattern whose only wildcard is `*` |
| Profiles.Ignored | f5_network_map.py:122-130 | `_ignore_profile`: some pattern of the skip list matches the profile name |
| Profiles.Flag | f5_network_map.py:133-159 | the value a TLS flag has after the profile loop: every profile that is not skipped and has the flag's context overwrites it with whether its TLS profile loads |
| Profiles.GlobLiteral | f5_network_map.py:128 | `fnmatch` with a pattern without `*` is equality |
| Profiles.GlobStarSuffix | f5_network_map.py:128 | a leading `*` followed by a literal matches exactly the names that end in that literal |
| Profiles.GlobInfix | f5_network_map.py:128 | `a*b` matches exactly the names that start with `a`, end with `b` and are long enough for both |
| Profiles.IgnoredIff | f5_network_map.py:122-130 | the skip list spelled out: `fastL4`, `fastL4-...`, `tcp`, `tcp-...-optimized`, `udp` and `http` are skipped, and nothing else is |
| Profiles.LastDeciderWins | f5_network_map.py:137-159 | the last profile that is not skipped and has the flag's context sets the TLS flag to whether its TLS profile loads |
| Profiles.NoDeciderKeepsFlag | f5_network_map.py:76-77 | without such a profile the flag keeps its initial value |
| Profiles.IgnoredProfileNeutral | f5_network_map.py:139-140 | a skipped profile, wherever it sits, never changes a flag |
| RuleScanner.TailAt | f5_network_map.py:176 | `pool\s+([^\s]+)` read from one position: the keyword, a whitespace run, and the longest non-whitespace run after it |
| RuleScanner.MatchAt | f5_network_map.py:176 | the whole pattern tried at one position, the `^` alternative first and then `[^#][\s]+`; a match never starts after its keyword |
| RuleScanner.FindAll | f5_network_map.py:176 | `findall`: the successive non-overlapping matches, the scan resuming where each match ended; every hit lies at or after the starting position |
| RuleScanner.FindAllNext | f5_network_map.py:176 | the scan carries on after a match: its first hit is the match at the leftmost position where the pattern matches, and the remaining hits are the scan resumed at that match's end |
| RuleScanner.FindAllLast | f5_network_map.py:176 | after the last hit the pattern matches at no further position |
| RuleScanner.FindAllNoneFrom | f5_network_map.py:176 | a scan finds nothing from a position that every match in the pattern's terms has its keyword before |
| RuleScanner.FindAllSound | f5_network_map.py:176 | every match the scanner reports is an anchored `pool` (line start, or whitespace after a non-`#` character), followed by whitespace and then the longest run of non-whitespace |
| RuleScanner.FindAllEmpty | f5_network_map.py:176 | the scan finds nothing exactly when the pattern matches at no position |
| RuleScanner.MatchComplete | f5_network_map.py:176 | every `pool NAME` statement the pattern describes is reached by a match that starts at or before its keyword |
| RuleScanner.TailComplete | f5_network_map.py:176 | from the keyword of such a statement, the scanner captures exactly that statement's name |
| RuleScanner.FindAllEmptyIff | f5_network_map.py:176 | the scan of an iRule finds nothing exactly when the text holds no `pool NAME` statement the pattern describes |
| RuleScanner.LeadingStatementRegistered | f5_network_map.py:176-181 | a text that opens with `pool NAME`, where NAME is not dynamic, registers NAME first |
| RuleScanner.SoleLeadingStatement | f5_network_map.py:176 | a text whose only statement opens it is scanned to exactly that statement |
| RuleScanner.CommentedStatementExample | f5_network_map.py:176-181 | `pool /P/poolA`, a newline, then `# pool /P/poolB` registers exactly `["/P/poolA"]` |
| RuleScanner.EmbeddedKeywordSkipped | f5_network_map.py:176 | `pool` glued to a preceding word (`mypool x`) is never matched |
| RuleScanner.CommentedKeywordSkipped | f5_network_map.py:176 | `# pool x` is never matched |
| RuleScanner.ArgumentsShape | f5_network_map.py:176 | every captured argument is non-empty and free of whitespace |
| RuleScanner.DropDynamic | f5_network_map.py:177-181 | the kept names are exactly the arguments that start with neither `$` nor `[` |
| RuleScanner.PoolNames | f5_network_map.py:176-181 | the names registered for one iRule: the captured arguments, in order, less those starting with `$` or `[` |
| RuleScanner.PoolNamesShape | f5_network_map.py:176-181 | the names registered from one iRule are non-empty, whitespace-free, and start with neither `$` nor `[` |
| Registry.ResolveKey | f5_network_map.py:46-50 | a name that does not resolve fails with the bad-pool-name error (the unpacking `ValueError`) |
| Registry.PoolResult | f5_network_map.py:43-58 | a key is returned only when the pool loads from the configuration |
| Registry.AddResolved | f5_network_map.py:185-188 | a loaded pool is added, a pool that does not load (404) is passed over, and any other fault propagates |
| Registry.QualifiedKey | f5_network_map.py:46-47 | `/P/n` resolves to `(P, n)` whatever the default partition |
| Registry.ResolveKeyOk | f5_network_map.py:46-50 | a name resolves exactly when it is bare or holds exactly two `/`; a bare name takes the default partition, and a qualified one is `/P/n` |
| Registry.RegisterValid | f5_network_map.py:55-56 | registering a newly built pool under a new key keeps the registry invariant: pools faithful to the configuration, keys pointing at stored equal lists, owners registered, stored lists pairwise distinct |
| Registry.SharedKeyIffSameMembers | f5_network_map.py:231-233 | two registered pools share a member-list key exactly when their configured member lists hold the same names |
| Registry.SharedKeyOwner | f5_network_map.py:254-260 | a shared key belongs to a registered pool with that member list, whose own key it is |
| Topology.Eligible | f5_network_map.py:280-284 | the groups kept are exactly those named `ProxyPass_...` in the requested partition (any partition when none is given) |
| Topology.EligibleAppend | f5_network_map.py:280-284 | the comprehension keeps the collection's order: it filters a concatenation part by part, and keeps one group exactly when it qualifies |
| Topology.Hostname | f5_network_map.py:289 | `dg.name[10:]`, the group name after its ten-character prefix |
| Topology.RecordPools | f5_network_map.py:298-304 | the pools a group's records name in their second field, a pool that does not load passed over and any other fault propagated |
| Topology.GroupUpdate | f5_network_map.py:288-307 | one pass of the group loop: a group whose host does not resolve or that has no records is skipped; otherwise a non-empty pool set is written for the IP |
| Topology.DataGroupMap | f5_network_map.py:288-307 | `DATAGROUP` after the group loop: the groups applied in order from the old value, or the first fault |
| Topology.RegisteredByExact | f5_network_map.py:288-307 | a pool is registered by the group loop exactly when the records of some group name it, a group that a later one overwrites included |
| Topology.DataGroupRegistered | f5_network_map.py:288-307 | each `DATAGROUP` entry after the loop is the one it started with or consists of pools the loop registered |
| Topology.Topology.constructor | f5_network_map.py:25-27 | the registries start empty |
| Topology.Topology.FindUnique | f5_network_map.py:254-260 | adopts the key of a stored equal member list; otherwise stores the list under the pool's own key; nothing else changes |
| Topology.Topology.NewPool | f5_network_map.py:219-233 | a pool missing from the configuration fails with a 404; otherwise the pool has the configured status, `available` exactly when `available` and `enabled`, the sorted members, and the key `_find_unique` chose |
| Topology.Topology.Register | f5_network_map.py:55-58 | an existing entry is kept as it is; a new one is built and added, and no other entry changes; a failed load changes no pool |
| Topology.Topology.OpenPartition | f5_network_map.py:52-53 | `POOLS` gains an entry for the partition, and nothing else changes |
| Topology.Topology.PoolFromName | f5_network_map.py:43-58 | returns what `pool_from_name` returns or raises; the partition of a well-formed name is added even when the pool fails to load; on success the pool's key is the only key added and earlier entries are unchanged; on failure no pool changes; the registry invariant holds |
| Topology.Topology.GroupPools | f5_network_map.py:298-304 | collects the pools named by the second field of each record, passing over pools that do not load; on success `POOLS` gains exactly the collected pools |
| Topology.Topology.UpdateGroup | f5_network_map.py:288-307 | one group: skipped when its host does not resolve or it has no records; otherwise its non-empty pool set is written for the IP; on success `POOLS` gains exactly the pools its records name |
| Topology.Topology.LoadDatagroupList | f5_network_map.py:275-307 | `DATAGROUP` becomes the fold of all eligible groups over its old value, or the fault comes first; on success `POOLS` gains exactly the pools the groups' records name, overwritten groups included; the registry invariant holds |
| Topology.HostnameAfterPrefix | f5_network_map.py:289 | the hostname is what follows `ProxyPass_` |
| Topology.DataGroupValuesNonEmpty | f5_network_map.py:306-307 | no `DATAGROUP` entry is an empty set |
| Topology.DataGroupKeysResolved | f5_network_map.py:288-307 | every IP in `DATAGROUP` was there before or is the resolution of some processed group's hostname |
| Topology.LaterGroupOverwrites | f5_network_map.py:306-307 | a later group whose host resolves to an IP replaces that IP's entry outright, and every other IP's entry stays as it was |
| Topology.EmptyGroupNeutral | f5_network_map.py:306-307 | a group whose records name no loadable pool leaves `DATAGROUP` unchanged |
| Topology.GroupUpdateFrame | f5_network_map.py:306-307 | one group sets the entry of the IP it writes, and no other entry changes |
| Topology.LastGroupWrites | f5_network_map.py:306-307 | when the last group writes `ip`, the final `DATAGROUP[ip]` is that group's pool set |
| Topology.LastGroupKeeps | f5_network_map.py:306-307 | when the last group does not write `ip`, `ip` has an entry exactly when it had one before that group, with the same pool set |
| Topology.LastWriterDecides | f5_network_map.py:288-307 | `DATAGROUP[ip]` after the loop is the pool set of the last group that writes `ip` |
| Topology.UnwrittenEntryKept | f5_network_map.py:288-307 | when no group writes `ip`, `ip`'s entry after the loop is the one it had before, or absent |
| Topology.SkippedGroupNeutral | f5_network_map.py:290-296 | a group with an unresolvable host or no records changes nothing |
| Topology.ShortRecordNeutral | f5_network_map.py:300 | a record with fewer than two whitespace fields names no pool |
| Topology.RecordPoolsExact | f5_network_map.py:298-304 | the pools a data group collects are exactly the loadable pools named by the second field of its records |
| Topology.RecordPoolsFails | f5_network_map.py:298-304 | collecting fails exactly when some record has no `data` or names a malformed pool in its second field |
| VirtualServers.SnatOf | f5_network_map.py:84-92 | the `snat` attribute from the `sourceAddressTranslation` descriptor |
| VirtualServers.SnatTable | f5_network_map.py:84-92 | `automap` gives `automap`, `snat` gives the descriptor's pool (or fails without one), `none` gives `no_source_nat`, no `type` gives `???`, and an unknown type leaves `snat` unassigned |
| VirtualServers.RuleKey | f5_network_map.py:173 | a rule id that does not unpack fails with the bad-rule-id error |
| VirtualServers.RuleKeyOk | f5_network_map.py:170-173 | a scanned rule id unpacks exactly when it holds two `/`, and it is then `a/partition/name` |
| VirtualServers.TokenPools | f5_network_map.py:177-188 | the pools the names from one iRule resolve to, a pool that does not load passed over |
| VirtualServers.RulePools | f5_network_map.py:165-188 | one pass of the rule loop: an iApp rule contributes nothing; otherwise the id is unpacked, the rule loaded and its names resolved |
| VirtualServers.IrulePools | f5_network_map.py:162-188 | the union of what every attached rule contributes, or the first fault |
| VirtualServers.TokenPoolsExact | f5_network_map.py:177-188 | the pools one iRule contributes are exactly the loadable pools its names resolve to |
| VirtualServers.TokenPoolsFails | f5_network_map.py:185-188 | one iRule's names abort the constructor exactly when one of them is a qualified name that does not unpack |
| VirtualServers.IrulePoolsEach | f5_network_map.py:165-188 | after a successful scan, every attached rule was scanned without fault |
| VirtualServers.IrulePoolsExact | f5_network_map.py:165-188 | the iRule pools are exactly those some attached rule contributes |
| VirtualServers.IrulePoolsFails | f5_network_map.py:165-188 | the scan fails exactly when one attached rule fails |
| VirtualServers.RulePoolsFails | f5_network_map.py:170-188 | one rule fails exactly when it is scanned and its id does not unpack, the rule does not load, or its text names a malformed pool |
| VirtualServers.RulePoolsLoaded | f5_network_map.py:185-186 | every pool a rule contributes is configured |
| VirtualServers.WantsProxypass | f5_network_map.py:191-202 | `doit`: some scanned rule's name contains `proxypass`, or the fault of the first id that does not unpack |
| VirtualServers.WantsProxypassIff | f5_network_map.py:191-202 | `_look_for_proxypass` fails only on a rule id the iRule scan rejects first; its verdict is whether some scanned rule's name contains `proxypass` |
| VirtualServers.SkippedRuleNeutral | f5_network_map.py:170-171 | a rule id with more than two `/`, wherever it sits, changes neither the pool scan nor the proxypass scan |
| VirtualServers.DefaultPools | f5_network_map.py:96-98 | the default pool's key when the server has one, or its fault |
| VirtualServers.NamedPools | f5_network_map.py:96-105 | the default pool and the iRule pools, or the first fault |
| VirtualServers.NamedPoolsLoaded | f5_network_map.py:96-103 | the default pool and the iRule pools are all configured pools |
| VirtualServers.ResolveSpec | f5_network_map.py:68-119 | the server the constructor builds from a record, given `DATAGROUP`, or the first fault it raises |
| VirtualServers.Assemble | f5_network_map.py:84-119 | the constructor once the destination has parsed: SNAT, named pools, then the finishing steps |
| VirtualServers.Finished | f5_network_map.py:108-119 | the description, `enabled` (False without the attribute), the TLS flags, and the proxypass pools |
| VirtualServers.ResolveFails | f5_network_map.py:68-119 | construction fails exactly when the destination is malformed, a `snat` descriptor has no pool, the default pool fails, or one attached rule fails |
| VirtualServers.ResolvedView | f5_network_map.py:68-119 | a constructed server holds the parsed IP and port, the record's name, partition, description and rules, `enabled` only when the record says so, and its SNAT and TLS flags; a pool is in `pools` exactly when it is the default pool, a pool some rule contributes, or a proxypass pool of the server's IP when a rule asks for them |
| VirtualServers.BareServerHasNoPools | f5_network_map.py:96-105 | a server with neither a default pool nor iRules has no pools |
| VirtualServers.VirtualServer.ParseProfiles | f5_network_map.py:133-159 | each TLS flag ends as `Flag` of the profiles from its old value |
| VirtualServers.VirtualServer.AddNamedPools | f5_network_map.py:177-188 | adds exactly the pools the names contribute, or returns the first fault; on success `POOLS` gains exactly those pools |
| VirtualServers.VirtualServer.ScanRule | f5_network_map.py:165-188 | one pass of the rule loop adds exactly what the rule contributes, or returns its fault; on success `POOLS` gains exactly those pools |
| VirtualServers.VirtualServer.LookForPoolsInIrules | f5_network_map.py:162-188 | on success, only `pools` changes, and it grows by exactly the iRule pools, which are exactly the keys `POOLS` gains; otherwise the first fault |
| VirtualServers.VirtualServer.LookForProxypass | f5_network_map.py:191-210 | `pools` becomes the old pools plus `DATAGROUP[ip]` when a rule asks for proxypass and the IP is present, and otherwise stays as it was |
| VirtualServers.VirtualServer.AddDefaultPool | f5_network_map.py:96-98 | `pools` starts as exactly the default pool, or empty without one, and `POOLS` gains exactly that pool; a fault leaves `POOLS` as it was |
| VirtualServers.VirtualServer.CollectPools | f5_network_map.py:96-105 | on success, `pools` and `rules` hold the named pools and the attached rules, and `POOLS` gains exactly the named pools; otherwise the first fault |
| VirtualServers.VirtualServer.Finish | f5_network_map.py:108-119 | sets the description, `enabled` (False by default), the TLS flags and the proxypass pools |
| VirtualServers.VirtualServer.Resolve | f5_network_map.py:68-119 | either a fresh server whose state is `ResolveSpec` of the record, with `POOLS` gaining exactly the server's pools (its proxypass pools were registered already), or the fault `ResolveSpec` gives |
| VirtualServers.VirtualServer.Build | f5_network_map.py:73-119 | the constructor after the destination has parsed: a fresh server equal to `Assemble`, with `POOLS` gaining exactly its pools, or its fault |

## Left out

- `graphme`, the Graphviz rendering with random colours, timestamps and file output (f5_network_map.py:310-408), is output plumbing.
- The command line (`main`, argparse), the `ManagementRoot` session and the credential globals are I/O.
- `list_all_vs` is only an API fetch plus a partition filter.
- The REST calls are modelled by the values of `Appliance.Config`, a missing entry standing for the 404:
  - pool, rule and data-group loads;
  - the TLS profile loads;
  - pool statistics. A pool's status is read directly instead of navigating the statistics JSON.
- Other HTTP failures of those calls, connection errors and timeouts are not modelled.
- `gethostbyname` is the map `Config.dns`. The bare `except` around it is modelled as "no entry".
- The `print` of an unloadable pool in `load_datagroup_list` (f5_network_map.py:304) is output only.
- `id(self)` is replaced by `(partition, name)`. Python's dictionary iteration order is not modelled: `_find_unique` picks some stored equal list, and at most one exists because the stored lists are pairwise distinct.
- `fnmatch` is modelled only for the `*` wildcard that the skip list uses. POSIX `fnmatch` does not fold case. `?` and `[...]` do not occur in the patterns.
- `\s` in the iRule pattern is Python 2's ASCII whitespace (no UNICODE flag); the destination pattern has no `\s`. `str.split()` on the record data uses Python 2's unicode whitespace. Other Python versions differ there.
- Topology.Topology.PoolFromName: its contract does not state which member-list key a new pool receives; `Topology.Topology.Register` states it.
- VirtualServers.VirtualServer.Resolve: after a fault, the contract says only that the registry stays valid and keeps its earlier pools. It does not say which pools a failed construction left registered. The Python constructor leaves those pools in `POOLS` as well.
- VirtualServers.VirtualServer.Build: after a fault, it does not say which pools were registered before the fault; on success it states exactly which keys `POOLS` gains.
- VirtualServers.VirtualServer.CollectPools: after a fault, it does not say which pools were registered before the fault; on success it states exactly which keys `POOLS` gains.
- VirtualServers.VirtualServer.LookForPoolsInIrules: after a fault, it does not say which pools were registered before the fault; on success it states exactly which keys `POOLS` gains.
- VirtualServers.VirtualServer.ScanRule: after a fault, it does not say which pools were registered before the fault; on success it states exactly which keys `POOLS` gains.
- VirtualServers.VirtualServer.AddNamedPools: after a fault, it does not say which pools were registered before the fault; on success it states exactly which keys `POOLS` gains.
- Topology.Topology.GroupPools: after a fault, it does not say which pools were registered before the fault; on success it states exactly which keys `POOLS` gains.
- Topology.Topology.UpdateGroup: after a fault, it does not say which pools were registered before the fault; on success it states exactly which keys `POOLS` gains.
- Topology.Topology.LoadDatagroupList: after a fault, it does not say which pools were registered before the fault; on success it states exactly which keys `POOLS` gains.
- Python 2's `str`/`unicode` distinction and encodings: strings are sequences of characters.
